/** Generic sequence facts shared by the catalogue, the decks and the sessions. */
module Seqs {

  /** A value that may be absent: JavaScript's `T | null` (and `undefined`). */
  datatype Option<T> = None | Some(value: T)

  /** No element occurs twice. */
  predicate Distinct<T(==)>(s: seq<T>) {
    forall i, j :: 0 <= i < j < |s| ==> s[i] != s[j]
  }

  /** `s` read back to front. */
  function Reverse<T>(s: seq<T>): (r: seq<T>)
    ensures |r| == |s|
    ensures forall k :: 0 <= k < |s| ==> r[k] == s[|s| - 1 - k]
  {
    if s == [] then [] else Reverse(s[1..]) + [s[0]]
  }

  /** Reversing keeps every element and its number of occurrences. */
  lemma {:induction false} ReverseMultiset<T>(s: seq<T>)
    ensures multiset(Reverse(s)) == multiset(s)
  {
    if s != [] {
      ReverseMultiset(s[1..]);
      assert s == [s[0]] + s[1..];
    }
  }

  /** Two equal positions give an element that occurs at least twice. */
  lemma RepeatCounts<T>(s: seq<T>, i: nat, j: nat)
    requires i < j < |s| && s[i] == s[j]
    ensures multiset(s)[s[i]] >= 2
  {
    assert s == s[..j] + s[j..];
    assert s[i] in s[..j];
    assert s[j] in s[j..];
    assert multiset(s) == multiset(s[..j]) + multiset(s[j..]);
  }

  /** A sequence is duplicate-free exactly when no element is counted twice in its multiset. */
  lemma {:induction false} DistinctCounts<T>(s: seq<T>)
    ensures Distinct(s) <==> forall x :: multiset(s)[x] <= 1
  {
    if s == [] {
    } else {
      var p := s[..|s| - 1];
      var last := s[|s| - 1];
      assert s == p + [last];
      DistinctCounts(p);
      if Distinct(s) {
        assert Distinct(p);
        assert last !in p;
        forall x ensures multiset(s)[x] <= 1 {
          assert multiset(s)[x] == multiset(p)[x] + multiset([last])[x];
        }
      }
      if forall x :: multiset(s)[x] <= 1 {
        forall i, j | 0 <= i < j < |s| ensures s[i] != s[j] {
          if s[i] == s[j] {
            RepeatCounts(s, i, j);
          }
        }
      }
    }
  }

  /** Rearranging a duplicate-free sequence, or keeping part of it, leaves it duplicate-free. */
  lemma DistinctSubMultiset<T>(s: seq<T>, t: seq<T>)
    requires Distinct(s) && multiset(t) <= multiset(s)
    ensures Distinct(t)
  {
    DistinctCounts(s);
    DistinctCounts(t);
    assert forall x :: multiset(t)[x] <= multiset(s)[x];
  }

  /** `a` is `b` with some elements deleted (and the rest left in order). */
  predicate IsSubsequence<T(==)>(a: seq<T>, b: seq<T>)
    decreases |b|
  {
    if b == [] then a == []
    else
      (a != [] && a[|a| - 1] == b[|b| - 1] && IsSubsequence(a[..|a| - 1], b[..|b| - 1]))
      || IsSubsequence(a, b[..|b| - 1])
  }
}
