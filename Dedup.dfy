/** Step 2 of the aggregator: drop every item whose title is too similar to
    the title of an item already kept. The similarity measure (a ratio of
    matching character runs in the source) is a parameter: every property
    here holds for any such measure. */
module Dedup {
  import opened Seqs
  import opened TopicFilter

  /** Scores strictly above this mark a duplicate. */
  const SimilarityThreshold: real := 0.85

  /** The score of a candidate title against a kept title, in that order. */
  type Similarity = (string, string) -> real

  predicate IsDuplicateOf(candidate: Item, kept: Item, similarity: Similarity) {
    similarity(candidate.title, kept.title) > SimilarityThreshold
  }

  predicate HasDuplicateIn(candidate: Item, kept: seq<Item>, similarity: Similarity) {
    exists k :: 0 <= k < |kept| && IsDuplicateOf(candidate, kept[k], similarity)
  }

  /** The items the loop keeps, defined item by item: the last item is kept
      when it is not a duplicate of anything kept from the items before it. */
  function Deduplicated(s: seq<Item>, similarity: Similarity): seq<Item>
    decreases |s|
  {
    if s == [] then []
    else
      var kept := Deduplicated(s[..|s| - 1], similarity);
      if HasDuplicateIn(s[|s| - 1], kept, similarity) then kept else kept + [s[|s| - 1]]
  }

  /** No kept item is a duplicate of an item kept before it. */
  predicate NoDuplicatePairs(r: seq<Item>, similarity: Similarity) {
    forall i, j :: 0 <= i < j < |r| ==> !IsDuplicateOf(r[j], r[i], similarity)
  }

  /** The dedup loop: for each item, scan the kept items and stop at the
      first one whose title scores above the threshold; append the item when
      none does. */
  method RemoveNearDuplicates(all: seq<Item>, similarity: Similarity) returns (unique: seq<Item>)
    ensures unique == Deduplicated(all, similarity)
  {
    unique := [];
    for i := 0 to |all|
      invariant unique == Deduplicated(all[..i], similarity)
    {
      var entry := all[i];
      var isDuplicate := false;
      for j := 0 to |unique|
        invariant !isDuplicate
        invariant forall k :: 0 <= k < j ==> !IsDuplicateOf(entry, unique[k], similarity)
      {
        if similarity(entry.title, unique[j].title) > SimilarityThreshold {
          isDuplicate := true;
          assert IsDuplicateOf(entry, unique[j], similarity);
          break;
        }
      }
      assert isDuplicate <==> HasDuplicateIn(entry, unique, similarity);
      assert all[..i + 1][..i] == all[..i];
      if !isDuplicate {
        unique := unique + [entry];
      }
    }
    assert all[..|all|] == all;
  }

  /** The kept items appear in the input, in input order. */
  lemma {:induction false} KeptIsSubsequence(s: seq<Item>, similarity: Similarity)
    ensures IsSubsequence(Deduplicated(s, similarity), s)
    decreases |s|
  {
    if s != [] {
      var init := s[..|s| - 1];
      var kept := Deduplicated(init, similarity);
      KeptIsSubsequence(init, similarity);
      if !HasDuplicateIn(s[|s| - 1], kept, similarity) {
        assert (kept + [s[|s| - 1]])[..|kept|] == kept;
      }
    }
  }

  /** The first input item is always kept, in first position. */
  lemma {:induction false} FirstIsKept(s: seq<Item>, similarity: Similarity)
    requires s != []
    ensures |Deduplicated(s, similarity)| > 0 && Deduplicated(s, similarity)[0] == s[0]
    decreases |s|
  {
    var init := s[..|s| - 1];
    if init == [] {
      assert !HasDuplicateIn(s[0], [], similarity);
    } else {
      FirstIsKept(init, similarity);
    }
  }

  /** Every kept item scores at or below the threshold against every item kept before it. */
  lemma {:induction false} KeptHaveNoDuplicatePairs(s: seq<Item>, similarity: Similarity)
    ensures NoDuplicatePairs(Deduplicated(s, similarity), similarity)
    decreases |s|
  {
    if s != [] {
      KeptHaveNoDuplicatePairs(s[..|s| - 1], similarity);
    }
  }

  /** What the loop had kept when it reached the first n items is the start of the final result. */
  lemma {:induction false} KeptSoFarIsPrefix(s: seq<Item>, n: nat, similarity: Similarity)
    requires n <= |s|
    ensures Deduplicated(s[..n], similarity) <= Deduplicated(s, similarity)
    decreases |s|
  {
    if n < |s| {
      var init := s[..|s| - 1];
      assert init[..n] == s[..n];
      KeptSoFarIsPrefix(init, n, similarity);
    } else {
      assert s[..n] == s;
    }
  }

  /** The fate of the i-th item. With `before` the items kept from the items
      ahead of it (the start of the final result): the item is dropped
      exactly when it is a duplicate of one of them, and otherwise it is the
      next kept item. So in every cluster of look-alikes the earliest is kept. */
  lemma ItemFate(s: seq<Item>, i: nat, similarity: Similarity)
    requires i < |s|
    ensures var before := Deduplicated(s[..i], similarity);
      var r := Deduplicated(s, similarity);
      before <= r &&
      (HasDuplicateIn(s[i], before, similarity) ==> Deduplicated(s[..i + 1], similarity) == before) &&
      (!HasDuplicateIn(s[i], before, similarity) ==> |before| < |r| && r[|before|] == s[i])
  {
    assert s[..i + 1][..i] == s[..i];
    KeptSoFarIsPrefix(s, i, similarity);
    KeptSoFarIsPrefix(s, i + 1, similarity);
  }

  /** A list in which no item is a duplicate of an earlier one passes through unchanged. */
  lemma {:induction false} DuplicateFreeUnchanged(s: seq<Item>, similarity: Similarity)
    requires NoDuplicatePairs(s, similarity)
    ensures Deduplicated(s, similarity) == s
    decreases |s|
  {
    if s != [] {
      var init := s[..|s| - 1];
      assert NoDuplicatePairs(init, similarity);
      DuplicateFreeUnchanged(init, similarity);
      assert !HasDuplicateIn(s[|s| - 1], init, similarity);
    }
  }

  /** Running the dedup loop again on its own output changes nothing. */
  lemma {:induction false} Idempotent(s: seq<Item>, similarity: Similarity)
    ensures Deduplicated(Deduplicated(s, similarity), similarity) == Deduplicated(s, similarity)
  {
    KeptHaveNoDuplicatePairs(s, similarity);
    DuplicateFreeUnchanged(Deduplicated(s, similarity), similarity);
  }

  /** With a measure that scores identical titles 1.0, no title is kept twice:
      of two items with the same title, the later one is dropped. */
  lemma {:induction false} IdenticalTitlesKeptOnce(s: seq<Item>, similarity: Similarity)
    requires forall t :: similarity(t, t) == 1.0
    ensures var r := Deduplicated(s, similarity);
      forall i, j :: 0 <= i < j < |r| ==> r[i].title != r[j].title
  {
    KeptHaveNoDuplicatePairs(s, similarity);
  }

  /** Two items from different feeds whose titles score above the threshold:
      only the one met first survives. */
  lemma LaterLookalikeDropped(first: Item, later: Item, similarity: Similarity)
    requires IsDuplicateOf(later, first, similarity)
    ensures Deduplicated([first, later], similarity) == [first]
  {
    assert [first, later][..1] == [first];
    assert [first][..0] == [];
    assert Deduplicated([first], similarity) == [first];
    assert [first][0] == first;
    assert HasDuplicateIn(later, [first], similarity);
  }
}
