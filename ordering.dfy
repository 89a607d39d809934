/** Orderings on integer sequences, and facts about sequences, shared by the sorting and searching code. */
module Ordering {

  /** `s` is non-decreasing. */
  ghost predicate Sorted(s: seq<int>)
  {
    forall i, j :: 0 <= i < j < |s| ==> s[i] <= s[j]
  }

  /** `s` is non-increasing. */
  ghost predicate SortedDesc(s: seq<int>)
  {
    forall i, j :: 0 <= i < j < |s| ==> s[i] >= s[j]
  }

  /** Every element of `lo` is at most every element of `hi`. */
  ghost predicate AllLeq(lo: seq<int>, hi: seq<int>)
  {
    forall i, j :: 0 <= i < |lo| && 0 <= j < |hi| ==> lo[i] <= hi[j]
  }

  /** Two adjacent sorted runs, the first bounded by the second, form a sorted run. */
  lemma SortedConcat(a: seq<int>, b: seq<int>)
    requires Sorted(a) && Sorted(b) && AllLeq(a, b)
    ensures Sorted(a + b)
  {
  }

  /** Concatenation is associative. */
  lemma AppendAssoc<T>(a: seq<T>, b: seq<T>, c: seq<T>)
    ensures a + b + c == a + (b + c)
  {
  }

  /** Exchanging the last two of three blocks keeps the multiset. */
  lemma RotatePerm(x: seq<int>, y: seq<int>, z: seq<int>)
    ensures multiset(x + y + z) == multiset(x + z + y)
  {
  }

  /** Exchanging two positions of a sequence keeps its multiset. */
  lemma SwapPreservesMultiset(s: seq<int>, i: int, j: int)
    requires 0 <= i < |s| && 0 <= j < |s|
    ensures multiset(s[i := s[j]][j := s[i]]) == multiset(s)
  {
  }

  /** Exchanges `a[i]` and `a[j]`; the first `n` cells keep their multiset. */
  method Swap(a: array<int>, i: int, j: int, ghost n: int)
    requires 0 <= i < n && 0 <= j < n && n <= a.Length
    modifies a
    ensures a[i] == old(a[j]) && a[j] == old(a[i])
    ensures forall k :: 0 <= k < a.Length && k != i && k != j ==> a[k] == old(a[k])
    ensures multiset(a[..n]) == multiset(old(a[..n]))
  {
    ghost var s := a[..n];
    a[i], a[j] := a[j], a[i];
    SwapPreservesMultiset(s, i, j);
    assert a[..n] == s[i := s[j]][j := s[i]];
  }
}
