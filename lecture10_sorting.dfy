/** The three quadratic in-place sorts of the sorting lecture, on the first `n` cells of an array. */
module Lecture10Sorting {
  import opened Ordering

  /**
   * Bubble sort. After pass `i` the last `i + 1` cells of the range hold the
   * largest elements in their final places (the outer invariant).
   */
  method BubbleSort(a: array<int>, n: nat)
    requires n <= a.Length
    modifies a
    ensures Sorted(a[..n])
    ensures multiset(a[..n]) == multiset(old(a[..n]))
    ensures a[n..] == old(a[n..])
  {
    var i := 0;
    while i < n - 1
      invariant 0 <= i <= n
      invariant n > 0 ==> i <= n - 1
      invariant forall k, l :: n - i <= k < l < n ==> a[k] <= a[l]
      invariant forall k, l :: 0 <= k < n - i <= l < n ==> a[k] <= a[l]
      invariant multiset(a[..n]) == multiset(old(a[..n]))
      invariant forall k :: n <= k < a.Length ==> a[k] == old(a[k])
    {
      BubblePass(a, n - i, n);
      i := i + 1;
    }
  }

  /**
   * One pass of bubble sort over `a[..m]`: adjacent out-of-order pairs are
   * exchanged left to right, which carries the largest element to `a[m-1]`.
   * Cells from `m` on are not touched.
   */
  method BubblePass(a: array<int>, m: int, ghost n: int)
    requires 1 <= m <= n <= a.Length
    modifies a
    ensures forall k :: 0 <= k < m ==> a[k] <= a[m - 1]
    ensures forall k :: m <= k < a.Length ==> a[k] == old(a[k])
    ensures (forall k, l :: 0 <= k < m <= l < n ==> old(a[k]) <= old(a[l])) ==>
              (forall k, l :: 0 <= k < m <= l < n ==> a[k] <= a[l])
    ensures multiset(a[..n]) == multiset(old(a[..n]))
  {
    ghost var bounded := forall k, l :: 0 <= k < m <= l < n ==> a[k] <= a[l];
    var j := 0;
    while j < m - 1
      invariant 0 <= j <= m - 1
      invariant forall k :: 0 <= k <= j ==> a[k] <= a[j]
      invariant forall k :: m <= k < a.Length ==> a[k] == old(a[k])
      invariant bounded ==> forall k, l :: 0 <= k < m <= l < n ==> a[k] <= a[l]
      invariant multiset(a[..n]) == multiset(old(a[..n]))
    {
      if a[j] > a[j + 1] {
        Swap(a, j, j + 1, n);
      }
      j := j + 1;
    }
  }

  /**
   * Selection sort. After pass `i` the prefix `a[..i+1]` is sorted and each of
   * its cells is at most every later cell of the range.
   */
  method SelectionSort(a: array<int>, n: nat)
    requires n <= a.Length
    modifies a
    ensures Sorted(a[..n])
    ensures multiset(a[..n]) == multiset(old(a[..n]))
    ensures a[n..] == old(a[n..])
  {
    var i := 0;
    while i < n - 1
      invariant 0 <= i <= n
      invariant n > 0 ==> i <= n - 1
      invariant forall k, l :: 0 <= k < l < i ==> a[k] <= a[l]
      invariant forall k, l :: 0 <= k < i <= l < n ==> a[k] <= a[l]
      invariant multiset(a[..n]) == multiset(old(a[..n]))
      invariant forall k :: n <= k < a.Length ==> a[k] == old(a[k])
    {
      var minIndex := i;
      var j := i + 1;
      while j < n
        invariant i + 1 <= j <= n
        invariant i <= minIndex < j
        invariant forall k :: i <= k < j ==> a[minIndex] <= a[k]
      {
        if a[j] < a[minIndex] {
          minIndex := j;
        }
        j := j + 1;
      }
      Swap(a, i, minIndex, n);
      i := i + 1;
    }
  }

  /**
   * Insertion sort. After step `i` the prefix `a[..i+1]` is a sorted
   * permutation of the original prefix and the rest of the range is untouched.
   */
  method InsertionSort(a: array<int>, n: nat)
    requires n <= a.Length
    modifies a
    ensures Sorted(a[..n])
    ensures multiset(a[..n]) == multiset(old(a[..n]))
    ensures a[n..] == old(a[n..])
  {
    if n == 0 {
      return;
    }
    var i := 1;
    while i < n
      invariant 1 <= i <= n
      invariant Sorted(a[..i])
      invariant multiset(a[..i]) == multiset(old(a[..i]))
      invariant a[i..] == old(a[i..])
    {
      ghost var before := a[..];
      var p := InsertKey(a, i);
      ShiftedInSorted(before, a[..], i, p);
      ShiftedInPerm(before, a[..], i, p);
      PrefixStep(before, a[..], old(a[..]), i);
      i := i + 1;
    }
  }

  /** `t` is `s` with `s[i]` moved down to position `p` and `s[p..i]` moved up one place. */
  ghost predicate ShiftedIn(s: seq<int>, t: seq<int>, i: int, p: int)
  {
    && |s| == |t| && 0 <= p <= i < |s|
    && (forall k :: 0 <= k < p ==> t[k] == s[k])
    && t[p] == s[i]
    && (forall k :: p < k <= i ==> t[k] == s[k - 1])
    && (forall k :: i < k < |s| ==> t[k] == s[k])
  }

  /** `p` is where insertion sort drops `s[i]`: the cells it passed were larger, the one before is not. */
  ghost predicate InsertionPoint(s: seq<int>, i: int, p: int)
    requires 0 <= p <= i < |s|
  {
    && (forall k :: p <= k < i ==> s[k] > s[i])
    && (p > 0 ==> s[p - 1] <= s[i])
  }

  /**
   * One step of insertion sort: `key = a[i]` is shifted left past the larger
   * cells of `a[..i]`; the returned `p` is where it lands.
   */
  method InsertKey(a: array<int>, i: int) returns (p: int)
    requires 0 <= i < a.Length
    modifies a
    ensures ShiftedIn(old(a[..]), a[..], i, p) && InsertionPoint(old(a[..]), i, p)
  {
    ghost var orig := a[..];
    var key := a[i];
    var j := i - 1;
    while j >= 0 && a[j] > key
      invariant -1 <= j <= i - 1
      invariant forall k :: 0 <= k <= j ==> a[k] == orig[k]
      invariant forall k :: j + 2 <= k <= i ==> a[k] == orig[k - 1]
      invariant forall k :: j + 1 <= k < i ==> orig[k] > key
      invariant forall k :: i < k < a.Length ==> a[k] == orig[k]
    {
      a[j + 1] := a[j];
      j := j - 1;
    }
    a[j + 1] := key;
    p := j + 1;
  }

  /** Inserting at the insertion point of a sorted prefix gives a sorted longer prefix. */
  lemma ShiftedInSorted(s: seq<int>, t: seq<int>, i: int, p: int)
    requires ShiftedIn(s, t, i, p) && InsertionPoint(s, i, p)
    requires Sorted(s[..i])
    ensures Sorted(t[..i + 1])
  {
    forall k, l | 0 <= k < l <= i
      ensures t[k] <= t[l]
    {
      if l < p {
        assert s[..i][k] <= s[..i][l];
      } else if l == p {
        if k < p - 1 {
          assert s[..i][k] <= s[..i][p - 1];
        }
      } else if k < p {
        assert s[..i][k] <= s[..i][l - 1];
      } else if k > p {
        assert s[..i][k - 1] <= s[..i][l - 1];
      }
    }
  }

  /** Shifting a key into place permutes `s[..i+1]` and leaves the cells after it alone. */
  lemma ShiftedInPerm(s: seq<int>, t: seq<int>, i: int, p: int)
    requires ShiftedIn(s, t, i, p)
    ensures multiset(t[..i + 1]) == multiset(s[..i + 1])
    ensures t[i + 1..] == s[i + 1..]
  {
    ShiftedInShape(s, t, i, p);
    RotatePerm(s[..p], [s[i]], s[p..i]);
  }

  /** The shift written as a rotation of the segment `s[p..i+1]`. */
  lemma ShiftedInShape(s: seq<int>, t: seq<int>, i: int, p: int)
    requires ShiftedIn(s, t, i, p)
    ensures t[..i + 1] == s[..p] + [s[i]] + s[p..i]
    ensures s[..i + 1] == s[..p] + s[p..i] + [s[i]]
    ensures t[i + 1..] == s[i + 1..]
  {
  }

  /**
   * If `s[..i]` is a permutation of `s0[..i]` and the rest agrees, and `t` permutes
   * `s[..i+1]` keeping the rest, then `t[..i+1]` permutes `s0[..i+1]` and the rest agrees.
   */
  lemma PrefixStep(s: seq<int>, t: seq<int>, s0: seq<int>, i: int)
    requires 0 <= i < |s| == |t| == |s0|
    requires multiset(s[..i]) == multiset(s0[..i]) && s[i..] == s0[i..]
    requires multiset(t[..i + 1]) == multiset(s[..i + 1]) && t[i + 1..] == s[i + 1..]
    ensures multiset(t[..i + 1]) == multiset(s0[..i + 1]) && t[i + 1..] == s0[i + 1..]
  {
    assert s[..i + 1] == s[..i] + [s[i]];
    assert s0[..i + 1] == s0[..i] + [s0[i]];
    assert s[i] == s[i..][0] == s0[i..][0] == s0[i];
    assert s[i + 1..] == s[i..][1..];
    assert s0[i + 1..] == s0[i..][1..];
  }
}
