/** Python's `s.split(sep)` and `sep.join(pieces)` for a non-empty separator,
    as the report is stored and re-read (main.py lines 149-151). */
module Delimited {
  import opened Common

  /** `sep` occurs in `s` starting at position `j`. */
  predicate MatchAt(s: Text, sep: Text, j: nat) {
    j + |sep| <= |s| && s[j..j + |sep|] == sep
  }

  /** `p` contains no occurrence of `sep`. */
  predicate NoMatch(p: Text, sep: Text) {
    forall j :: 0 <= j < |p| ==> !MatchAt(p, sep, j)
  }

  /** In `p + sep`, the first occurrence of `sep` is the appended one: `p`
      neither contains `sep` nor ends in a proper prefix of it that, together
      with the appended separator, forms an earlier occurrence. */
  predicate Clean(p: Text, sep: Text) {
    forall j :: 0 <= j < |p| ==> !MatchAt(p + sep, sep, j)
  }

  /** The shape of every result of `Split`: at least one piece, every piece
      but the last clean, and the last free of the separator. */
  predicate Shaped(xs: seq<Text>, sep: Text) {
    |xs| >= 1
    && (forall i :: 0 <= i < |xs| - 1 ==> Clean(xs[i], sep))
    && NoMatch(xs[|xs| - 1], sep)
  }

  /** The leftmost occurrence of `sep` at or after `from`, or `|s|` if there
      is none (what `str.find` scans for). */
  function FirstMatch(s: Text, sep: Text, from: nat): (k: nat)
    requires |sep| > 0 && from <= |s|
    ensures from <= k <= |s|
    ensures k < |s| ==> MatchAt(s, sep, k)
    ensures forall j :: from <= j < k ==> !MatchAt(s, sep, j)
    decreases |s| - from
  {
    if from == |s| then |s|
    else if MatchAt(s, sep, from) then from
    else FirstMatch(s, sep, from + 1)
  }

  /** `s.split(sep)`: cut at the leftmost occurrence, then split the rest. */
  function Split(s: Text, sep: Text): (pieces: seq<Text>)
    requires |sep| > 0
    ensures |pieces| >= 1
    decreases |s|
  {
    var k := FirstMatch(s, sep, 0);
    if k == |s| then [s] else [s[..k]] + Split(s[k + |sep|..], sep)
  }

  /** `sep.join(xs)`. */
  function Join(xs: seq<Text>, sep: Text): Text {
    if xs == [] then []
    else if |xs| == 1 then xs[0]
    else xs[0] + sep + Join(xs[1..], sep)
  }

  /** Appending one piece at the end adds one separator before it. */
  lemma {:induction false} JoinSnoc(xs: seq<Text>, x: Text, sep: Text)
    requires xs != []
    ensures Join(xs + [x], sep) == Join(xs, sep) + sep + x
    decreases |xs|
  {
    if |xs| == 1 {
      assert xs + [x] == [xs[0], x];
      assert [xs[0], x][1..] == [x];
    } else {
      assert (xs + [x])[1..] == xs[1..] + [x];
      JoinSnoc(xs[1..], x, sep);
    }
  }

  /** A clean piece contains no separator. */
  lemma CleanNoMatch(p: Text, sep: Text)
    requires Clean(p, sep)
    ensures NoMatch(p, sep)
  {
    forall j | 0 <= j < |p| ensures !MatchAt(p, sep, j) {
      assert !MatchAt(p + sep, sep, j);
      if j + |sep| <= |p| {
        assert (p + sep)[j..j + |sep|] == p[j..j + |sep|];
      }
    }
  }

  /** Joining a piece in front of non-empty pieces adds one separator. */
  lemma JoinCons(x: Text, xs: seq<Text>, sep: Text)
    requires xs != []
    ensures Join([x] + xs, sep) == x + sep + Join(xs, sep)
  {
    assert ([x] + xs)[1..] == xs;
  }

  /** An occurrence of `sep` cuts `s` into the text before it and after it. */
  lemma CutAt(s: Text, sep: Text, k: nat)
    requires MatchAt(s, sep, k)
    ensures s == s[..k] + sep + s[k + |sep|..]
  {
    assert s[k..k + |sep|] == sep;
    assert s == s[..k] + s[k..k + |sep|] + s[k + |sep|..];
  }

  /** Splitting then joining gives back the original text. */
  lemma {:induction false} JoinSplit(s: Text, sep: Text)
    requires |sep| > 0
    ensures Join(Split(s, sep), sep) == s
    decreases |s|
  {
    var k := FirstMatch(s, sep, 0);
    if k < |s| {
      var p, rest := s[..k], s[k + |sep|..];
      var xs := Split(rest, sep);
      assert Split(s, sep) == [p] + xs;
      JoinSplit(rest, sep);
      JoinCons(p, xs, sep);
      CutAt(s, sep, k);
    }
  }

  /** The text before the leftmost occurrence of `sep` is clean. */
  lemma CleanBeforeFirst(s: Text, sep: Text, k: nat)
    requires MatchAt(s, sep, k)
    requires forall j :: 0 <= j < k ==> !MatchAt(s, sep, j)
    ensures Clean(s[..k], sep)
  {
    var p := s[..k];
    assert p + sep == s[..k + |sep|];
    forall j | 0 <= j < |p| ensures !MatchAt(p + sep, sep, j) {
      assert !MatchAt(s, sep, j);
      if j + |sep| <= |p + sep| {
        assert (p + sep)[j..j + |sep|] == s[j..j + |sep|];
      }
    }
  }

  /** Every result of `Split` is `Shaped`. */
  lemma {:induction false} SplitShaped(s: Text, sep: Text)
    requires |sep| > 0
    ensures Shaped(Split(s, sep), sep)
    decreases |s|
  {
    var k := FirstMatch(s, sep, 0);
    if k < |s| {
      var p, rest := s[..k], s[k + |sep|..];
      var xs := Split(rest, sep);
      assert Split(s, sep) == [p] + xs;
      SplitShaped(rest, sep);
      CleanBeforeFirst(s, sep, k);
      forall i | 0 <= i < |xs| ensures Clean(([p] + xs)[i], sep) {
        if i > 0 { assert ([p] + xs)[i] == xs[i - 1]; }
      }
    } else {
      assert Split(s, sep) == [s];
    }
  }

  /** The first piece of a join is found again by the leftmost search when it
      is clean. */
  lemma FirstMatchAfterClean(p: Text, sep: Text, t: Text)
    requires |sep| > 0 && Clean(p, sep)
    ensures FirstMatch(p + sep + t, sep, 0) == |p|
  {
    var s := p + sep + t;
    var k := FirstMatch(s, sep, 0);
    assert s[|p|..|p| + |sep|] == sep;
    assert MatchAt(s, sep, |p|);
    if k < |p| {
      assert MatchAt(s, sep, k);
      assert (p + sep)[k..k + |sep|] == s[k..k + |sep|];
      assert MatchAt(p + sep, sep, k);
      assert false;
    }
  }

  /** Joining then splitting gives back `Shaped` pieces; pieces that merely
      avoid the separator are not enough (see
      `Report.DelimiterFreeIsNotEnough`). */
  lemma {:induction false} SplitJoin(xs: seq<Text>, sep: Text)
    requires |sep| > 0 && Shaped(xs, sep)
    ensures Split(Join(xs, sep), sep) == xs
    decreases |xs|
  {
    if |xs| == 1 {
      assert FirstMatch(xs[0], sep, 0) == |xs[0]|;
    } else {
      var p, rest := xs[0], xs[1..];
      assert Shaped(rest, sep) by {
        forall i | 0 <= i < |rest| - 1 ensures Clean(rest[i], sep) {
          assert rest[i] == xs[i + 1];
        }
      }
      SplitJoin(rest, sep);
      var t := Join(rest, sep);
      assert Join(xs, sep) == p + sep + t;
      FirstMatchAfterClean(p, sep, t);
      assert (p + sep + t)[..|p|] == p;
      assert (p + sep + t)[|p| + |sep|..] == t;
    }
  }

  /** Joining then splitting gives back the pieces exactly when they are
      `Shaped`. */
  lemma SplitJoinExactly(xs: seq<Text>, sep: Text)
    requires |sep| > 0
    ensures Split(Join(xs, sep), sep) == xs <==> Shaped(xs, sep)
  {
    SplitShaped(Join(xs, sep), sep);
    if Shaped(xs, sep) {
      SplitJoin(xs, sep);
    }
  }
}
