/** The deck: a stack of word ids, popped from its end, rebuilt by shuffling when it runs out. */
module Deck {
  import opened Seqs
  import opened Words

  /**
   * The deck `makeDeck` deals from the shuffled ids: when the last entry, the next one popped,
   * is the previous word, the last two entries trade places. The result is a rearrangement of
   * the shuffled ids.
   */
  function Dealt(previousWordId: Option<WordId>, shuffled: seq<WordId>): (r: seq<WordId>)
    ensures |r| == |shuffled| && multiset(r) == multiset(shuffled)
  {
    var n := |shuffled|;
    if previousWordId.Some? && n > 1 && shuffled[n - 1] == previousWordId.value then
      assert shuffled == shuffled[..n - 2] + [shuffled[n - 2], shuffled[n - 1]];
      shuffled[..n - 2] + [shuffled[n - 1], shuffled[n - 2]]
    else
      shuffled
  }

  /** Dealing moves at most the last two entries: the rest of the shuffle is kept as it is. */
  lemma DealtKeepsPrefix(previousWordId: Option<WordId>, shuffled: seq<WordId>)
    requires |shuffled| >= 2
    ensures Dealt(previousWordId, shuffled)[..|shuffled| - 2] == shuffled[..|shuffled| - 2]
  {
  }

  /**
   * When the ids are distinct and there are at least two of them, the first id dealt from
   * any shuffle of them is never the previous word.
   */
  lemma DealtAvoidsRepeat(previousWordId: Option<WordId>, ids: seq<WordId>, shuffled: seq<WordId>)
    requires previousWordId.Some? && |ids| >= 2 && Distinct(ids)
    requires multiset(shuffled) == multiset(ids)
    ensures |shuffled| == |ids| && Dealt(previousWordId, shuffled)[|shuffled| - 1] != previousWordId.value
  {
    assert |shuffled| == |multiset(shuffled)| == |ids|;
    DistinctSubMultiset(ids, shuffled);
    var n := |shuffled|;
    assert shuffled[n - 2] != shuffled[n - 1];
  }

  /**
   * `makeDeck(previousWordId, ids)`. The copy of `ids` that `shuffleInPlace` rearranged is
   * `shuffled` (any rearrangement of `ids`); the anti-repeat swap is done in place.
   */
  method MakeDeck(previousWordId: Option<WordId>, ids: seq<WordId>, shuffled: seq<WordId>)
    returns (deck: seq<WordId>)
    requires multiset(shuffled) == multiset(ids)
    ensures deck == Dealt(previousWordId, shuffled)
  {
    var n := |shuffled|;
    var a := new WordId[n](i requires 0 <= i < n => shuffled[i]);
    if previousWordId.Some? && n > 1 && a[n - 1] == previousWordId.value {
      a[n - 1], a[n - 2] := a[n - 2], a[n - 1];
    }
    deck := a[..];
    assert forall i :: 0 <= i < n ==> deck[i] == Dealt(previousWordId, shuffled)[i];
  }
}
