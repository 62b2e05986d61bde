/** `remove_duplicates_from_summaries` (main.py lines 12-17): a greedy filter
    that keeps an item only if it is not too similar to any item already kept. */
module Dedup {
  import opened Common

  /** Line 15: `x` may join `kept` when `similarity(x, k) <= 0.3` for every
      kept `k` (the new item is the first argument). */
  predicate Admissible(x: Text, kept: seq<Text>, sim: Similarity) {
    forall j :: 0 <= j < |kept| ==> sim(x, kept[j]) <= Threshold
  }

  /** No item of `ys` is too similar to an item before it. */
  predicate Distinctive(ys: seq<Text>, sim: Similarity) {
    forall i, j :: 0 <= i < j < |ys| ==> sim(ys[j], ys[i]) <= Threshold
  }

  /** `ys` is obtained from `xs` by deleting items, keeping the order. */
  predicate IsSubsequence(ys: seq<Text>, xs: seq<Text>)
    decreases |xs|
  {
    if xs == [] then ys == []
    else (ys != [] && ys[|ys| - 1] == xs[|xs| - 1] && IsSubsequence(ys[..|ys| - 1], xs[..|xs| - 1]))
         || IsSubsequence(ys, xs[..|xs| - 1])
  }

  /** What the filter returns for `xs`: the kept items of all but the last
      input, extended by the last input when it is admissible. */
  function Deduplicated(xs: seq<Text>, sim: Similarity): (ys: seq<Text>)
    ensures |ys| <= |xs|
    ensures xs != [] ==> ys != []
    decreases |xs|
  {
    if xs == [] then []
    else
      var kept := Deduplicated(xs[..|xs| - 1], sim);
      if Admissible(xs[|xs| - 1], kept, sim) then kept + [xs[|xs| - 1]] else kept
  }

  /** The loop of lines 13-17, appending to `unique` in input order. */
  method RemoveDuplicates(summaries: seq<Text>, sim: Similarity) returns (unique: seq<Text>)
    ensures unique == Deduplicated(summaries, sim)
  {
    unique := [];
    for i := 0 to |summaries|
      invariant unique == Deduplicated(summaries[..i], sim)
    {
      assert summaries[..i + 1][..i] == summaries[..i];
      if Admissible(summaries[i], unique, sim) {
        unique := unique + [summaries[i]];
      }
    }
    assert summaries[..|summaries|] == summaries;
  }

  /** Every element of a subsequence is an element of the sequence. */
  lemma {:induction false} SubsequenceElements(ys: seq<Text>, xs: seq<Text>)
    requires IsSubsequence(ys, xs)
    ensures forall y :: y in ys ==> y in xs
    decreases |xs|
  {
    if xs != [] {
      var xs' := xs[..|xs| - 1];
      assert xs == xs' + [xs[|xs| - 1]];
      if ys != [] && ys[|ys| - 1] == xs[|xs| - 1] && IsSubsequence(ys[..|ys| - 1], xs') {
        SubsequenceElements(ys[..|ys| - 1], xs');
        assert ys == ys[..|ys| - 1] + [ys[|ys| - 1]];
      } else {
        SubsequenceElements(ys, xs');
      }
    }
  }

  /** The filter only deletes items and never reorders them. */
  lemma {:induction false} DeduplicatedIsSubsequence(xs: seq<Text>, sim: Similarity)
    ensures IsSubsequence(Deduplicated(xs, sim), xs)
    decreases |xs|
  {
    if xs != [] {
      var xs' := xs[..|xs| - 1];
      var kept := Deduplicated(xs', sim);
      DeduplicatedIsSubsequence(xs', sim);
      if Admissible(xs[|xs| - 1], kept, sim) {
        assert (kept + [xs[|xs| - 1]])[..|kept|] == kept;
      }
    }
  }

  /** Filtering a prefix gives a prefix of the filtered whole. */
  lemma {:induction false} DeduplicatedPrefix(xs: seq<Text>, n: nat, sim: Similarity)
    requires n <= |xs|
    ensures Deduplicated(xs[..n], sim) <= Deduplicated(xs, sim)
    decreases |xs|
  {
    if n < |xs| {
      var xs' := xs[..|xs| - 1];
      assert xs'[..n] == xs[..n];
      DeduplicatedPrefix(xs', n, sim);
    } else {
      assert xs[..n] == xs;
    }
  }

  /** The first item is always kept. */
  lemma DeduplicatedKeepsFirst(xs: seq<Text>, sim: Similarity)
    requires xs != []
    ensures Deduplicated(xs, sim)[0] == xs[0]
  {
    DeduplicatedPrefix(xs, 1, sim);
    assert xs[..1][..0] == [];
    assert Deduplicated(xs[..1], sim) == [xs[0]];
  }

  /** The kept items never include a pair that the filter would reject. */
  lemma {:induction false} DeduplicatedIsDistinctive(xs: seq<Text>, sim: Similarity)
    ensures Distinctive(Deduplicated(xs, sim), sim)
    decreases |xs|
  {
    if xs != [] {
      DeduplicatedIsDistinctive(xs[..|xs| - 1], sim);
    }
  }

  /** Lines 14-16 at input position `k`: the item is appended to what was
      kept from the items before it when it is admissible, and otherwise it
      is too similar to one of those kept items. */
  lemma DeduplicatedStep(xs: seq<Text>, k: nat, sim: Similarity)
    requires k < |xs|
    ensures Deduplicated(xs[..k + 1], sim)
            == if Admissible(xs[k], Deduplicated(xs[..k], sim), sim)
               then Deduplicated(xs[..k], sim) + [xs[k]]
               else Deduplicated(xs[..k], sim)
    ensures !Admissible(xs[k], Deduplicated(xs[..k], sim), sim) ==>
              exists y :: y in Deduplicated(xs[..k], sim) && sim(xs[k], y) > Threshold
  {
    assert xs[..k + 1][..k] == xs[..k];
    var before := Deduplicated(xs[..k], sim);
    if !Admissible(xs[k], before, sim) {
      var j :| 0 <= j < |before| && sim(xs[k], before[j]) > Threshold;
      assert before[j] in before;
    }
  }

  /** Every input item is either kept, right after the items kept before it,
      or too similar to an item kept before it. */
  lemma DeduplicatedCovers(xs: seq<Text>, sim: Similarity)
    ensures forall k :: 0 <= k < |xs| ==>
              Deduplicated(xs[..k], sim) + [xs[k]] <= Deduplicated(xs, sim)
              || exists y :: y in Deduplicated(xs[..k], sim) && sim(xs[k], y) > Threshold
  {
    forall k | 0 <= k < |xs|
      ensures Deduplicated(xs[..k], sim) + [xs[k]] <= Deduplicated(xs, sim)
              || exists y :: y in Deduplicated(xs[..k], sim) && sim(xs[k], y) > Threshold
    {
      DeduplicatedStep(xs, k, sim);
      DeduplicatedPrefix(xs, k + 1, sim);
    }
  }

  /** The filter leaves a list unchanged exactly when the list is already
      `Distinctive`. */
  lemma {:induction false} DeduplicatedFixedPoint(ys: seq<Text>, sim: Similarity)
    ensures Deduplicated(ys, sim) == ys <==> Distinctive(ys, sim)
    decreases |ys|
  {
    if Distinctive(ys, sim) && ys != [] {
      var ys' := ys[..|ys| - 1];
      assert Distinctive(ys', sim);
      DeduplicatedFixedPoint(ys', sim);
      assert ys == ys' + [ys[|ys| - 1]];
    }
    if Deduplicated(ys, sim) == ys {
      DeduplicatedIsDistinctive(ys, sim);
    }
  }

  /** Filtering an already filtered list changes nothing. */
  lemma DeduplicatedIdempotent(xs: seq<Text>, sim: Similarity)
    ensures Deduplicated(Deduplicated(xs, sim), sim) == Deduplicated(xs, sim)
  {
    DeduplicatedIsDistinctive(xs, sim);
    DeduplicatedFixedPoint(Deduplicated(xs, sim), sim);
  }
}
