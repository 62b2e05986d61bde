/** The stored report: segments concatenated during collection (main.py lines
    137-140) and, on every page run, split at the delimiter, deduplicated and
    joined again (lines 149-151). */
module Report {
  import opened Common
  import opened Delimited
  import opened Dedup

  const Delimiter: Text := "\n------\n"

  /** Lines 149-151: `"\n------\n".join(remove_duplicates_from_summaries(s.split("\n------\n")))`. */
  function Rerun(stored: Text, sim: Similarity): Text {
    Join(Deduplicated(Split(stored, Delimiter), sim), Delimiter)
  }

  /** Deleting pieces keeps a split result `Shaped`, as long as one remains. */
  lemma SubsequenceShaped(ys: seq<Text>, xs: seq<Text>, sep: Text)
    requires IsSubsequence(ys, xs) && Shaped(xs, sep) && ys != []
    ensures Shaped(ys, sep)
  {
    var xs' := xs[..|xs| - 1];
    assert forall x :: x in xs' ==> Clean(x, sep) by {
      forall x | x in xs' ensures Clean(x, sep) {
        var i :| 0 <= i < |xs'| && xs'[i] == x;
        assert x == xs[i];
      }
    }
    var ys' := ys[..|ys| - 1];
    if ys[|ys| - 1] == xs[|xs| - 1] && IsSubsequence(ys', xs') {
      SubsequenceElements(ys', xs');
      forall i | 0 <= i < |ys| - 1 ensures Clean(ys[i], sep) {
        assert ys[i] == ys'[i] && ys'[i] in ys';
      }
    } else {
      assert IsSubsequence(ys, xs');
      SubsequenceElements(ys, xs');
      forall i | 0 <= i < |ys| ensures Clean(ys[i], sep) {
        assert ys[i] in ys;
      }
      CleanNoMatch(ys[|ys| - 1], sep);
    }
  }

  /** The pieces the rerun joins are exactly what the next rerun splits off. */
  lemma RerunPieces(stored: Text, sim: Similarity)
    ensures Split(Rerun(stored, sim), Delimiter) == Deduplicated(Split(stored, Delimiter), sim)
  {
    var xs := Split(stored, Delimiter);
    var ys := Deduplicated(xs, sim);
    SplitShaped(stored, Delimiter);
    DeduplicatedIsSubsequence(xs, sim);
    SubsequenceShaped(ys, xs, Delimiter);
    SplitJoin(ys, Delimiter);
  }

  /** Re-running the page does not change the stored report a second time. */
  lemma RerunIdempotent(stored: Text, sim: Similarity)
    ensures Rerun(Rerun(stored, sim), sim) == Rerun(stored, sim)
  {
    RerunPieces(stored, sim);
    DeduplicatedIdempotent(Split(stored, Delimiter), sim);
  }

  /** Pieces that do not contain the delimiter may still not survive a join
      and split: a piece ending in "\n------" borrows the delimiter's line
      feed, so the split cuts one line early. */
  lemma DelimiterFreeIsNotEnough()
    ensures var xs := ["x\n------", "y"];
            NoMatch(xs[0], Delimiter) && NoMatch(xs[1], Delimiter)
            && Split(Join(xs, Delimiter), Delimiter) != xs
  {
    var xs := ["x\n------", "y"];
    var s := Join(xs, Delimiter);
    assert s == "x\n------\n------\ny";
    assert s[1..9] == Delimiter;
    assert MatchAt(s, Delimiter, 1);
    assert !MatchAt(s, Delimiter, 0) by { assert s[0] != Delimiter[0]; }
    var k := FirstMatch(s, Delimiter, 0);
    assert k == 1;
    assert Split(s, Delimiter)[0] == "x";
  }

  /** Lines 137-140: the delimiter is added only when the report so far is
      non-empty, then the segment is appended. */
  function Append(report: Text, segment: Text): Text {
    (if report != [] then report + Delimiter else report) + segment
  }

  /** The report after appending `segments` one by one to an empty report. */
  function Concatenated(segments: seq<Text>): Text
    decreases |segments|
  {
    if segments == [] then []
    else Append(Concatenated(segments[..|segments| - 1]), segments[|segments| - 1])
  }

  lemma ConcatenatedSnoc(segments: seq<Text>, segment: Text)
    ensures Concatenated(segments + [segment]) == Append(Concatenated(segments), segment)
  {
    assert (segments + [segment])[..|segments|] == segments;
  }

  /** The first position at or after `i` holding a non-empty segment (or
      the end): every segment passed over is empty. */
  function FirstNonEmpty(segments: seq<Text>, i: nat): (n: nat)
    requires i <= |segments|
    ensures i <= n <= |segments|
    ensures forall k :: i <= k < n ==> segments[k] == []
    ensures n == |segments| || segments[n] != []
    decreases |segments| - i
  {
    if i < |segments| && segments[i] == [] then FirstNonEmpty(segments, i + 1) else i
  }

  /** `segments` without its leading empty segments. */
  function DropLeadingEmpty(segments: seq<Text>): (r: seq<Text>)
    ensures r == [] || r[0] != []
    ensures |r| <= |segments| && r == segments[|segments| - |r|..]
    ensures forall i :: 0 <= i < |segments| - |r| ==> segments[i] == []
  {
    segments[FirstNonEmpty(segments, 0)..]
  }

  lemma DropLeadingEmptySnoc(segments: seq<Text>, x: Text)
    ensures DropLeadingEmpty(segments + [x])
            == if DropLeadingEmpty(segments) == [] then DropLeadingEmpty([x])
               else DropLeadingEmpty(segments) + [x]
  {
    var s := segments + [x];
    var n, m := FirstNonEmpty(segments, 0), FirstNonEmpty(s, 0);
    if n < |segments| {
      assert s[n] == segments[n];
      assert m == n;
      assert s[n..] == segments[n..] + [x];
    } else {
      assert m >= |segments|;
      var p := FirstNonEmpty([x], 0);
      assert m == |segments| + p by {
        if m == |segments| { assert s[m] == x; }
      }
      assert s[m..] == [x][p..];
    }
  }

  lemma {:induction false} JoinNonEmpty(xs: seq<Text>, sep: Text)
    requires xs != [] && xs[0] != []
    ensures Join(xs, sep) != []
  {
    if |xs| > 1 {
      assert Join(xs, sep) == xs[0] + sep + Join(xs[1..], sep);
    }
  }

  /** The concatenated report is the delimiter-join of the segments, except
      that empty segments at the front add no delimiter. */
  lemma {:induction false} ConcatenatedIsJoin(segments: seq<Text>)
    ensures Concatenated(segments) == Join(DropLeadingEmpty(segments), Delimiter)
    decreases |segments|
  {
    if segments != [] {
      var init, x := segments[..|segments| - 1], segments[|segments| - 1];
      assert segments == init + [x];
      ConcatenatedIsJoin(init);
      DropLeadingEmptySnoc(init, x);
      var d := DropLeadingEmpty(init);
      if d == [] {
        assert Concatenated(init) == [];
      } else {
        JoinNonEmpty(d, Delimiter);
        JoinSnoc(d, x, Delimiter);
      }
    }
  }

  /** When no segment is empty, segments are separated by the delimiter and
      nothing else: no leading or trailing delimiter. */
  lemma ConcatenatedNonEmptySegments(segments: seq<Text>)
    requires forall i :: 0 <= i < |segments| ==> segments[i] != []
    ensures Concatenated(segments) == Join(segments, Delimiter)
  {
    ConcatenatedIsJoin(segments);
    assert DropLeadingEmpty(segments) == segments;
  }
}
