/** Merge sort of the merge lecture: two-way merge, recursive and bottom-up sorts, inversion counting. */
module Lecture11Merge {
  import opened Ordering

  /**
   * The stable two-way merge of `xs` and `ys`: repeatedly take the smaller head,
   * the head of `xs` on a tie.
   */
  function Merged(xs: seq<int>, ys: seq<int>): (r: seq<int>)
    ensures |r| == |xs| + |ys|
    decreases |xs| + |ys|
  {
    if xs == [] then ys
    else if ys == [] then xs
    else if xs[0] <= ys[0] then [xs[0]] + Merged(xs[1..], ys)
    else [ys[0]] + Merged(xs, ys[1..])
  }

  /** Merging keeps every value of both inputs, and nothing else. */
  lemma {:induction false} MergedPerm(xs: seq<int>, ys: seq<int>)
    ensures multiset(Merged(xs, ys)) == multiset(xs) + multiset(ys)
    decreases |xs| + |ys|
  {
    if xs != [] && ys != [] {
      if xs[0] <= ys[0] {
        MergedPerm(xs[1..], ys);
        ConsMultiset(xs);
        assert Merged(xs, ys) == [xs[0]] + Merged(xs[1..], ys);
      } else {
        MergedPerm(xs, ys[1..]);
        ConsMultiset(ys);
        assert Merged(xs, ys) == [ys[0]] + Merged(xs, ys[1..]);
      }
    }
  }

  /** A non-empty sequence's multiset is its head plus the multiset of its tail. */
  lemma ConsMultiset(s: seq<int>)
    requires s != []
    ensures multiset(s) == multiset{s[0]} + multiset(s[1..])
  {
    assert s == [s[0]] + s[1..];
  }

  /** The first value of a merge is the head of one of its inputs. */
  lemma MergedHead(xs: seq<int>, ys: seq<int>)
    requires xs != [] || ys != []
    ensures xs != [] && (ys == [] || xs[0] <= ys[0]) ==> Merged(xs, ys)[0] == xs[0]
    ensures ys != [] && (xs == [] || xs[0] > ys[0]) ==> Merged(xs, ys)[0] == ys[0]
  {
  }

  /** Merging two sorted sequences gives a sorted sequence. */
  lemma {:induction false} MergedSorted(xs: seq<int>, ys: seq<int>)
    requires Sorted(xs) && Sorted(ys)
    ensures Sorted(Merged(xs, ys))
    decreases |xs| + |ys|
  {
    if xs != [] && ys != [] {
      var r := Merged(xs, ys);
      if xs[0] <= ys[0] {
        MergedSorted(xs[1..], ys);
        var rest := Merged(xs[1..], ys);
        if rest != [] {
          MergedHead(xs[1..], ys);
        }
        HeadThenSorted(xs[0], rest);
      } else {
        MergedSorted(xs, ys[1..]);
        var rest := Merged(xs, ys[1..]);
        MergedHead(xs, ys[1..]);
        HeadThenSorted(ys[0], rest);
      }
    }
  }

  /** A value no larger than the first of a sorted sequence can go in front of it. */
  lemma HeadThenSorted(x: int, s: seq<int>)
    requires Sorted(s) && (s != [] ==> x <= s[0])
    ensures Sorted([x] + s)
  {
  }

  /** `t` is `s` with the cells from `lo` on replaced by `m`. */
  ghost predicate Spliced(s: seq<int>, t: seq<int>, lo: int, m: seq<int>)
  {
    && |t| == |s| && 0 <= lo && lo + |m| <= |s|
    && (forall p :: 0 <= p < lo ==> t[p] == s[p])
    && (forall p :: lo <= p < lo + |m| ==> t[p] == m[p - lo])
    && (forall p :: lo + |m| <= p < |s| ==> t[p] == s[p])
  }

  /**
   * Merges the adjacent sorted runs `a[left..mid]` and `a[mid+1..right]` (inclusive
   * bounds) through two temporary arrays; cells outside `[left, right]` are untouched.
   */
  method Merge(a: array<int>, left: int, mid: int, right: int)
    requires 0 <= left <= mid + 1 && mid <= right < a.Length
    modifies a
    ensures Spliced(old(a[..]), a[..], left, Merged(old(a[left..mid + 1]), old(a[mid + 1..right + 1])))
  {
    ghost var orig := a[..];
    var n1 := mid - left + 1;
    var n2 := right - mid;
    var leftArr := new int[n1];
    var rightArr := new int[n2];
    for i := 0 to n1
      modifies leftArr
      invariant forall p :: 0 <= p < i ==> leftArr[p] == a[left + p]
    {
      leftArr[i] := a[left + i];
    }
    for j := 0 to n2
      modifies rightArr
      invariant forall p :: 0 <= p < j ==> rightArr[p] == a[mid + 1 + p]
    {
      rightArr[j] := a[mid + 1 + j];
    }
    assert a[..] == orig;
    assert leftArr[..] == orig[left..mid + 1];
    assert rightArr[..] == orig[mid + 1..right + 1];
    MergeRuns(a, leftArr, n1, rightArr, n2, left);
    assert leftArr[..n1] == orig[left..mid + 1];
    assert rightArr[..n2] == orig[mid + 1..right + 1];
  }

  /** Writes `Merged(xs[..n1], ys[..n2])` into `a` from `left` on, with the three loops of the merge. */
  method MergeRuns(a: array<int>, xs: array<int>, n1: int, ys: array<int>, n2: int, left: int)
    requires a != xs && a != ys
    requires 0 <= n1 <= xs.Length && 0 <= n2 <= ys.Length
    requires 0 <= left && left + n1 + n2 <= a.Length
    modifies a
    ensures Spliced(old(a[..]), a[..], left, Merged(xs[..n1], ys[..n2]))
  {
    ghost var xs0, ys0 := xs[..n1], ys[..n2];
    ghost var m := Merged(xs0, ys0);
    MergeStart(xs0, ys0);
    var i, j, k := 0, 0, left;
    while i < n1 && j < n2
      invariant 0 <= i <= n1 && 0 <= j <= n2 && k == left + i + j
      invariant MergeAt(xs0, ys0, i, j, m)
      invariant forall p :: left <= p < k ==> a[p] == m[p - left]
      invariant forall p :: 0 <= p < left || k <= p < a.Length ==> a[p] == old(a[p])
    {
      if xs[i] <= ys[j] {
        a[k] := xs[i];
        i := i + 1;
      } else {
        a[k] := ys[j];
        j := j + 1;
      }
      k := k + 1;
    }
    MergeTails(a, xs, n1, ys, n2, left, i, j);
  }

  /**
   * The last two loops of the merge: once one run is used up, what is left of the
   * other is copied from `left + i + j` on, finishing `Merged(xs[..n1], ys[..n2])`.
   */
  method MergeTails(a: array<int>, xs: array<int>, n1: int, ys: array<int>, n2: int, left: int, i0: int, j0: int)
    requires a != xs && a != ys
    requires 0 <= n1 <= xs.Length && 0 <= n2 <= ys.Length
    requires 0 <= left && left + n1 + n2 <= a.Length
    requires 0 <= i0 <= n1 && 0 <= j0 <= n2 && (i0 == n1 || j0 == n2)
    requires MergeAt(xs[..n1], ys[..n2], i0, j0, Merged(xs[..n1], ys[..n2]))
    requires forall p :: left <= p < left + i0 + j0 ==> a[p] == Merged(xs[..n1], ys[..n2])[p - left]
    modifies a
    ensures forall p :: left <= p < left + n1 + n2 ==> a[p] == Merged(xs[..n1], ys[..n2])[p - left]
    ensures forall p :: 0 <= p < left + i0 + j0 || left + n1 + n2 <= p < a.Length ==> a[p] == old(a[p])
  {
    ghost var xs0, ys0 := xs[..n1], ys[..n2];
    ghost var m := Merged(xs0, ys0);
    var i, j, k := i0, j0, left + i0 + j0;
    while i < n1
      invariant 0 <= i <= n1 && 0 <= j <= n2 && (i < n1 ==> j == n2) && k == left + i + j
      invariant MergeAt(xs0, ys0, i, j, m)
      invariant forall p :: left <= p < k ==> a[p] == m[p - left]
      invariant forall p :: 0 <= p < left + i0 + j0 || k <= p < a.Length ==> a[p] == old(a[p])
    {
      a[k] := xs[i];
      i := i + 1;
      k := k + 1;
    }
    while j < n2
      invariant i == n1 && 0 <= j <= n2 && k == left + i + j
      invariant MergeAt(xs0, ys0, i, j, m)
      invariant forall p :: left <= p < k ==> a[p] == m[p - left]
      invariant forall p :: 0 <= p < left + i0 + j0 || k <= p < a.Length ==> a[p] == old(a[p])
    {
      a[k] := ys[j];
      j := j + 1;
      k := k + 1;
    }
  }

  /**
   * After taking `i` values of `xs` and `j` of `ys`, the rest of `m` from `i + j` on
   * is what the merge loops write: the smaller head (the left one on a tie) and so on,
   * then what is left of the other run once one is used up.
   */
  ghost predicate MergeAt(xs: seq<int>, ys: seq<int>, i: int, j: int, m: seq<int>)
    decreases |xs| - i + |ys| - j
  {
    && 0 <= i <= |xs| && 0 <= j <= |ys| && i + j <= |m|
    && if i == |xs| && j == |ys| then i + j == |m|
       else if j == |ys| || (i < |xs| && xs[i] <= ys[j]) then
         i + j < |m| && m[i + j] == xs[i] && MergeAt(xs, ys, i + 1, j, m)
       else
         i + j < |m| && m[i + j] == ys[j] && MergeAt(xs, ys, i, j + 1, m)
  }

  /** If `m[i + j..]` is the merge of the rests, the merge loops write `m` from `(i, j)` on. */
  lemma {:induction false} MergedIsMergeAt(xs: seq<int>, ys: seq<int>, i: int, j: int, m: seq<int>)
    requires 0 <= i <= |xs| && 0 <= j <= |ys| && i + j <= |m|
    requires Merged(xs[i..], ys[j..]) == m[i + j..]
    ensures MergeAt(xs, ys, i, j, m)
    decreases |xs| - i + |ys| - j
  {
    if i < |xs| || j < |ys| {
      assert m[i + j..][1..] == m[i + j + 1..];
      if j == |ys| || (i < |xs| && xs[i] <= ys[j]) {
        assert xs[i..][1..] == xs[i + 1..];
        assert Merged(xs[i..], ys[j..]) == [xs[i]] + Merged(xs[i + 1..], ys[j..]);
        MergedIsMergeAt(xs, ys, i + 1, j, m);
        MergeAtTakeLeft(xs, ys, i, j, m);
      } else {
        assert ys[j..][1..] == ys[j + 1..];
        assert Merged(xs[i..], ys[j..]) == [ys[j]] + Merged(xs[i..], ys[j + 1..]);
        MergedIsMergeAt(xs, ys, i, j + 1, m);
        MergeAtTakeRight(xs, ys, i, j, m);
      }
    }
  }

  /** Writing the left head at `i + j` extends a merge state from `(i + 1, j)` back to `(i, j)`. */
  lemma MergeAtTakeLeft(xs: seq<int>, ys: seq<int>, i: int, j: int, m: seq<int>)
    requires 0 <= i < |xs| && 0 <= j <= |ys| && i + j < |m| && m[i + j] == xs[i]
    requires j == |ys| || xs[i] <= ys[j]
    requires MergeAt(xs, ys, i + 1, j, m)
    ensures MergeAt(xs, ys, i, j, m)
  {
  }

  /** Writing the right head at `i + j` extends a merge state from `(i, j + 1)` back to `(i, j)`. */
  lemma MergeAtTakeRight(xs: seq<int>, ys: seq<int>, i: int, j: int, m: seq<int>)
    requires 0 <= i <= |xs| && 0 <= j < |ys| && i + j < |m| && m[i + j] == ys[j]
    requires i == |xs| || xs[i] > ys[j]
    requires MergeAt(xs, ys, i, j + 1, m)
    ensures MergeAt(xs, ys, i, j, m)
  {
  }

  /** The merge loops start in the state `MergeAt(xs, ys, 0, 0, Merged(xs, ys))`. */
  lemma MergeStart(xs: seq<int>, ys: seq<int>)
    ensures MergeAt(xs, ys, 0, 0, Merged(xs, ys))
  {
    assert xs[0..] == xs && ys[0..] == ys;
    MergedIsMergeAt(xs, ys, 0, 0, Merged(xs, ys));
  }

  /**
   * `t` is `s` with `s[lo..hi]` sorted: the segment is sorted, holds the same values,
   * and every cell outside it is unchanged.
   */
  ghost predicate SortedSegment(s: seq<int>, t: seq<int>, lo: int, hi: int)
  {
    && |t| == |s| && 0 <= lo <= hi <= |s|
    && (forall p :: 0 <= p < lo || hi <= p < |s| ==> t[p] == s[p])
    && Sorted(t[lo..hi])
    && multiset(t[lo..hi]) == multiset(s[lo..hi])
  }

  /** Recursive merge sort of `a[left..right]` (inclusive bounds): sort each half, then merge them. */
  method MergeSort(a: array<int>, left: int, right: int)
    requires 0 <= left <= right + 1 <= a.Length
    modifies a
    ensures SortedSegment(old(a[..]), a[..], left, right + 1)
    decreases right - left
  {
    if left < right {
      var mid := left + (right - left) / 2;
      ghost var s0 := a[..];
      MergeSort(a, left, mid);
      ghost var s1 := a[..];
      MergeSort(a, mid + 1, right);
      ghost var s2 := a[..];
      Merge(a, left, mid, right);
      MergeSortStep(s0, s1, s2, a[..], left, mid + 1, right + 1);
    } else {
      ShortSegmentSorted(a[..], left, right + 1);
    }
  }

  /** A segment of at most one cell is already sorted in place. */
  lemma ShortSegmentSorted(s: seq<int>, lo: int, hi: int)
    requires 0 <= lo <= hi <= |s| && hi - lo <= 1
    ensures SortedSegment(s, s, lo, hi)
  {
  }

  /**
   * Sorting `[lo, mid)` then `[mid, hi)` and splicing in the merge of the two runs
   * sorts `[lo, hi)`.
   */
  lemma MergeSortStep(s0: seq<int>, s1: seq<int>, s2: seq<int>, s3: seq<int>, lo: int, mid: int, hi: int)
    requires lo <= mid <= hi
    requires SortedSegment(s0, s1, lo, mid) && SortedSegment(s1, s2, mid, hi)
    requires Spliced(s2, s3, lo, Merged(s2[lo..mid], s2[mid..hi]))
    ensures SortedSegment(s0, s3, lo, hi)
  {
    MergeStepContents(s0, s1, s2, s3, lo, mid, hi);
    assert forall p :: 0 <= p < lo || hi <= p < |s0| ==> s3[p] == s2[p] == s1[p] == s0[p];
  }

  /** The spliced merge of the two sorted halves is sorted and holds the values `s0` had there. */
  lemma MergeStepContents(s0: seq<int>, s1: seq<int>, s2: seq<int>, s3: seq<int>, lo: int, mid: int, hi: int)
    requires lo <= mid <= hi
    requires SortedSegment(s0, s1, lo, mid) && SortedSegment(s1, s2, mid, hi)
    requires Spliced(s2, s3, lo, Merged(s2[lo..mid], s2[mid..hi]))
    ensures Sorted(s3[lo..hi]) && multiset(s3[lo..hi]) == multiset(s0[lo..hi])
  {
    assert s2[lo..mid] == s1[lo..mid];
    assert s1[mid..hi] == s0[mid..hi];
    assert s3[lo..hi] == Merged(s2[lo..mid], s2[mid..hi]);
    MergedSorted(s2[lo..mid], s2[mid..hi]);
    MergedPerm(s2[lo..mid], s2[mid..hi]);
    SliceSplitPerm(s0, lo, mid, hi);
  }

  /** The values of `s[lo..hi]` are those of `s[lo..mid]` and `s[mid..hi]`. */
  lemma SliceSplitPerm(s: seq<int>, lo: int, mid: int, hi: int)
    requires 0 <= lo <= mid <= hi <= |s|
    ensures multiset(s[lo..hi]) == multiset(s[lo..mid]) + multiset(s[mid..hi])
  {
    assert s[lo..hi] == s[lo..mid] + s[mid..hi];
  }

  /** The smaller of two integers (the `min` of the bottom-up sort). */
  function Min(x: int, y: int): (r: int)
    ensures r <= x && r <= y && (r == x || r == y)
  {
    if x <= y then x else y
  }

  /** Where block `b` of width `w` starts: `b * w`, written as repeated addition. */
  ghost function BlockStart(b: nat, w: nat): nat
  {
    if b == 0 then 0 else BlockStart(b - 1, w) + w
  }

  /** Block `b` of width `w` of `s[..n]`, the cells from `b * w` to `(b + 1) * w` cut off at `n`, is sorted. */
  ghost predicate BlockSorted(s: seq<int>, n: int, b: nat, w: nat)
    requires 0 <= n <= |s|
  {
    Sorted(s[Min(BlockStart(b, w), n)..Min(BlockStart(b, w) + w, n)])
  }

  /** Blocks `b0` up to `b1` of width `w` of `s[..n]` are each sorted. */
  ghost predicate Runs(s: seq<int>, n: int, w: nat, b0: nat, b1: int)
    requires 0 <= n <= |s|
  {
    forall b: nat :: b0 <= b < b1 ==> BlockSorted(s, n, b, w)
  }

  /** `t` permutes `s[..n]` and agrees with `s` from `n` on. */
  ghost predicate PermutedPrefix(s: seq<int>, t: seq<int>, n: int)
  {
    && |t| == |s| && 0 <= n <= |s|
    && multiset(t[..n]) == multiset(s[..n])
    && (forall p :: n <= p < |s| ==> t[p] == s[p])
  }

  /**
   * Bottom-up merge sort of `a[..n]`: runs of width 1, 2, 4, ... are merged pairwise,
   * the last run of a pass being clamped to `n`.
   */
  method MergeSortIterative(a: array<int>, n: int)
    requires 0 <= n <= a.Length
    modifies a
    ensures SortedSegment(old(a[..]), a[..], 0, n)
  {
    var currSize := 1;
    WidthOneRuns(a[..], n);
    while currSize <= n - 1
      invariant 1 <= currSize
      invariant Runs(a[..], n, currSize, 0, n)
      invariant PermutedPrefix(old(a[..]), a[..], n)
      decreases n - currSize
    {
      var leftStart := 0;
      ghost var b: nat := 0;
      while leftStart < n - 1
        invariant leftStart == BlockStart(b, 2 * currSize)
        invariant Runs(a[..], n, 2 * currSize, 0, b)
        invariant Runs(a[..], n, currSize, 2 * b, n)
        invariant PermutedPrefix(old(a[..]), a[..], n)
        decreases n - leftStart
      {
        var mid := Min(leftStart + currSize - 1, n - 1);
        var rightEnd := Min(leftStart + 2 * currSize - 1, n - 1);
        ghost var before := a[..];
        Merge(a, leftStart, mid, rightEnd);
        PassStepRuns(before, a[..], n, currSize, b, leftStart, mid, rightEnd);
        PassStepPerm(before, a[..], n, leftStart, mid, rightEnd);
        PermutedPrefixTrans(old(a[..]), before, a[..], n);
        leftStart := leftStart + 2 * currSize;
        b := b + 1;
      }
      PassDone(a[..], n, 2 * currSize, b);
      currSize := 2 * currSize;
    }
    LastRun(a[..], n, currSize);
  }

  /** Later blocks start at or after the end of earlier ones. */
  lemma {:induction false} BlockStartMono(x: nat, y: nat, w: nat)
    requires x < y
    ensures BlockStart(x, w) + w <= BlockStart(y, w)
    decreases y
  {
    if x < y - 1 {
      BlockStartMono(x, y - 1, w);
    }
  }

  /** Block `b` of a positive width starts at or after `b`. */
  lemma {:induction false} BlockStartAtLeast(b: nat, w: nat)
    requires 1 <= w
    ensures b <= BlockStart(b, w)
  {
    if b > 0 {
      BlockStartAtLeast(b - 1, w);
    }
  }

  /** Block `2b` of width `w` starts where block `b` of width `2w` does. */
  lemma {:induction false} BlockStartDouble(b: nat, w: nat)
    ensures BlockStart(2 * b, w) == BlockStart(b, 2 * w)
  {
    if b > 0 {
      BlockStartDouble(b - 1, w);
      assert BlockStart(2 * b, w) == BlockStart(2 * (b - 1), w) + w + w;
    }
  }

  /** Every block of width 1 has at most one cell, so it is sorted. */
  lemma WidthOneRuns(s: seq<int>, n: int)
    requires 0 <= n <= |s|
    ensures Runs(s, n, 1, 0, n)
  {
    forall b: nat | 0 <= b < n
      ensures BlockSorted(s, n, b, 1)
    {
      var blk := s[Min(BlockStart(b, 1), n)..Min(BlockStart(b, 1) + 1, n)];
      assert |blk| <= 1;
    }
  }

  /** Once a pass is past `n - 1`, every block of the new width is sorted. */
  lemma PassDone(s: seq<int>, n: int, w: nat, b: nat)
    requires 0 <= n <= |s| && 1 <= w && BlockStart(b, w) >= n - 1
    requires Runs(s, n, w, 0, b)
    ensures Runs(s, n, w, 0, n)
  {
    forall j: nat | b <= j < n
      ensures BlockSorted(s, n, j, w)
    {
      if b < j {
        BlockStartMono(b, j, w);
      }
      var blk := s[Min(BlockStart(j, w), n)..Min(BlockStart(j, w) + w, n)];
      assert |blk| <= 1;
    }
  }

  /** When the width reaches `n`, block 0 is all of `s[..n]`. */
  lemma LastRun(s: seq<int>, n: int, w: nat)
    requires 0 <= n <= |s| && 1 <= w && w > n - 1
    requires Runs(s, n, w, 0, n)
    ensures Sorted(s[..n])
  {
    if n > 0 {
      assert BlockSorted(s, n, 0, w);
      assert s[Min(BlockStart(0, w), n)..Min(BlockStart(0, w) + w, n)] == s[..n];
    }
  }

  /** Permuting the prefix twice is permuting it once. */
  lemma PermutedPrefixTrans(s0: seq<int>, s1: seq<int>, s2: seq<int>, n: int)
    requires PermutedPrefix(s0, s1, n) && PermutedPrefix(s1, s2, n)
    ensures PermutedPrefix(s0, s2, n)
  {
  }

  /** One merge of a pass permutes `s[..n]` and leaves the rest alone. */
  lemma PassStepPerm(s: seq<int>, t: seq<int>, n: int, ls: int, mid: int, re: int)
    requires 0 <= ls <= mid + 1 && mid <= re < n <= |s|
    requires Spliced(s, t, ls, Merged(s[ls..mid + 1], s[mid + 1..re + 1]))
    ensures PermutedPrefix(s, t, n)
  {
    var xs, ys := s[ls..mid + 1], s[mid + 1..re + 1];
    PassStepShape(s, t, n, ls, mid, re);
    MergedPerm(xs, ys);
    assert multiset(t[..n]) == multiset(s[..ls]) + multiset(Merged(xs, ys)) + multiset(s[re + 1..n]);
  }

  /** The prefix after one merge, cut into the part before, the merged run and the part after. */
  lemma PassStepShape(s: seq<int>, t: seq<int>, n: int, ls: int, mid: int, re: int)
    requires 0 <= ls <= mid + 1 && mid <= re < n <= |s|
    requires Spliced(s, t, ls, Merged(s[ls..mid + 1], s[mid + 1..re + 1]))
    ensures t[..n] == s[..ls] + Merged(s[ls..mid + 1], s[mid + 1..re + 1]) + s[re + 1..n]
    ensures s[..n] == s[..ls] + (s[ls..mid + 1] + s[mid + 1..re + 1]) + s[re + 1..n]
  {
  }

  /** A block lying inside a range where `s` and `t` agree stays sorted. */
  lemma BlockUnchanged(s: seq<int>, t: seq<int>, n: int, j: nat, w: nat, lo: int, hi: int)
    requires 0 <= n <= |s| == |t|
    requires lo <= Min(BlockStart(j, w), n) && Min(BlockStart(j, w) + w, n) <= hi
    requires forall p :: lo <= p < hi && 0 <= p < |s| ==> t[p] == s[p]
    requires BlockSorted(s, n, j, w)
    ensures BlockSorted(t, n, j, w)
  {
    var x, y := Min(BlockStart(j, w), n), Min(BlockStart(j, w) + w, n);
    assert t[x..y] == s[x..y];
  }

  /** The two halves a merge of the pass combines are blocks `2b` and `2b + 1` of width `cs`, so both are sorted. */
  lemma HalvesSorted(s: seq<int>, n: int, cs: nat, b: nat, ls: int, mid: int, re: int)
    requires 1 <= cs && ls == BlockStart(b, 2 * cs) && 0 <= ls < n - 1 && n <= |s|
    requires mid == Min(ls + cs - 1, n - 1) && re == Min(ls + 2 * cs - 1, n - 1)
    requires Runs(s, n, cs, 2 * b, n)
    ensures Sorted(s[ls..mid + 1]) && Sorted(s[mid + 1..re + 1])
  {
    BlockStartDouble(b, cs);
    BlockStartAtLeast(2 * b, cs);
    assert BlockSorted(s, n, 2 * b, cs) && BlockSorted(s, n, 2 * b + 1, cs);
    assert Min(BlockStart(2 * b, cs), n) == ls && Min(BlockStart(2 * b, cs) + cs, n) == mid + 1;
    assert Min(BlockStart(2 * b + 1, cs), n) == mid + 1 && Min(BlockStart(2 * b + 1, cs) + cs, n) == re + 1;
  }

  /** The merged run is block `b` of the doubled width, and it is sorted. */
  lemma MergedBlock(s: seq<int>, t: seq<int>, n: int, cs: nat, b: nat, ls: int, mid: int, re: int)
    requires 1 <= cs && ls == BlockStart(b, 2 * cs) && 0 <= ls < n - 1 && n <= |s|
    requires mid == Min(ls + cs - 1, n - 1) && re == Min(ls + 2 * cs - 1, n - 1)
    requires Sorted(s[ls..mid + 1]) && Sorted(s[mid + 1..re + 1])
    requires Spliced(s, t, ls, Merged(s[ls..mid + 1], s[mid + 1..re + 1]))
    ensures BlockSorted(t, n, b, 2 * cs)
  {
    var xs, ys := s[ls..mid + 1], s[mid + 1..re + 1];
    MergedSorted(xs, ys);
    assert Min(BlockStart(b, 2 * cs), n) == ls && Min(BlockStart(b, 2 * cs) + 2 * cs, n) == re + 1;
    assert t[ls..re + 1] == Merged(xs, ys);
  }

  /** Wide blocks before the merged run lie where nothing changed. */
  lemma EarlierBlocks(s: seq<int>, t: seq<int>, n: int, w: nat, b: nat, ls: int)
    requires ls == BlockStart(b, w) && 0 <= n <= |s| == |t| && ls <= |s|
    requires forall p :: 0 <= p < ls ==> t[p] == s[p]
    requires Runs(s, n, w, 0, b)
    ensures Runs(t, n, w, 0, b)
  {
    forall j: nat | j < b
      ensures BlockSorted(t, n, j, w)
    {
      BlockStartMono(j, b, w);
      assert BlockSorted(s, n, j, w);
      BlockUnchanged(s, t, n, j, w, 0, ls);
    }
  }

  /** Narrow blocks after the merged run lie where nothing changed. */
  lemma LaterBlocks(s: seq<int>, t: seq<int>, n: int, cs: nat, b: nat, hi: int)
    requires BlockStart(2 * b + 2, cs) >= hi >= 0 && 0 <= hi <= n <= |s| == |t|
    requires forall p :: hi <= p < |s| ==> t[p] == s[p]
    requires Runs(s, n, cs, 2 * b + 2, n)
    ensures Runs(t, n, cs, 2 * b + 2, n)
  {
    forall j: nat | 2 * b + 2 <= j < n
      ensures BlockSorted(t, n, j, cs)
    {
      if 2 * b + 2 < j {
        BlockStartMono(2 * b + 2, j, cs);
      }
      assert BlockSorted(s, n, j, cs);
      BlockUnchanged(s, t, n, j, cs, hi, |s|);
    }
  }

  /**
   * One merge of a pass: blocks `2b` and `2b + 1` of width `cs` become block `b` of
   * width `2 cs`; earlier wide blocks and later narrow blocks are untouched.
   */
  lemma PassStepRuns(s: seq<int>, t: seq<int>, n: int, cs: nat, b: nat, ls: int, mid: int, re: int)
    requires 1 <= cs && ls == BlockStart(b, 2 * cs) && 0 <= ls < n - 1 && n <= |s|
    requires mid == Min(ls + cs - 1, n - 1) && re == Min(ls + 2 * cs - 1, n - 1)
    requires Runs(s, n, 2 * cs, 0, b) && Runs(s, n, cs, 2 * b, n)
    requires Spliced(s, t, ls, Merged(s[ls..mid + 1], s[mid + 1..re + 1]))
    ensures Runs(t, n, 2 * cs, 0, b + 1) && Runs(t, n, cs, 2 * b + 2, n)
  {
    WideRunsStep(s, t, n, cs, b, ls, mid, re);
    BlockStartDouble(b + 1, cs);
    assert BlockStart(2 * b + 2, cs) == ls + 2 * cs;
    assert Runs(s, n, cs, 2 * b + 2, n);
    LaterBlocks(s, t, n, cs, b, re + 1);
  }

  /** The wide blocks up to and including the merged one are sorted after the merge. */
  lemma WideRunsStep(s: seq<int>, t: seq<int>, n: int, cs: nat, b: nat, ls: int, mid: int, re: int)
    requires 1 <= cs && ls == BlockStart(b, 2 * cs) && 0 <= ls < n - 1 && n <= |s|
    requires mid == Min(ls + cs - 1, n - 1) && re == Min(ls + 2 * cs - 1, n - 1)
    requires Runs(s, n, 2 * cs, 0, b) && Runs(s, n, cs, 2 * b, n)
    requires Spliced(s, t, ls, Merged(s[ls..mid + 1], s[mid + 1..re + 1]))
    ensures Runs(t, n, 2 * cs, 0, b + 1)
  {
    EarlierBlocks(s, t, n, 2 * cs, b, ls);
    HalvesSorted(s, n, cs, b, ls, mid, re);
    MergedBlock(s, t, n, cs, b, ls, mid, re);
    RunsExtend(t, n, 2 * cs, b);
  }

  /** Sorted blocks `0..b` followed by a sorted block `b` are sorted blocks `0..b + 1`. */
  lemma RunsExtend(t: seq<int>, n: int, w: nat, b: nat)
    requires 0 <= n <= |t| && Runs(t, n, w, 0, b) && BlockSorted(t, n, b, w)
    ensures Runs(t, n, w, 0, b + 1)
  {
  }


  /**
   * The external-merge simulation: merges the sorted "files" `file1[..n1]` and
   * `file2[..n2]` into `result[..n1 + n2]` with the loops of the two-way merge.
   */
  method ExternalMerge(file1: array<int>, file2: array<int>, result: array<int>, n1: int, n2: int)
    requires result != file1 && result != file2
    requires 0 <= n1 <= file1.Length && 0 <= n2 <= file2.Length && n1 + n2 <= result.Length
    modifies result
    ensures result[..n1 + n2] == Merged(file1[..n1], file2[..n2])
    ensures result[n1 + n2..] == old(result[n1 + n2..])
  {
    MergeRuns(result, file1, n1, file2, n2, 0);
  }

  /** How many values of `t` are smaller than `x`. */
  function Smaller(x: int, t: seq<int>): (r: nat)
    ensures r <= |t|
  {
    if t == [] then 0 else (if t[0] < x then 1 else 0) + Smaller(x, t[1..])
  }

  /** The inversions across two runs: pairs of a value of `ls` and a smaller value of `rs`. */
  function Cross(ls: seq<int>, rs: seq<int>): nat
  {
    if ls == [] then 0 else Smaller(ls[0], rs) + Cross(ls[1..], rs)
  }

  /** The inversions of `s`: pairs of positions `i < j` with `s[i] > s[j]`. */
  function Inversions(s: seq<int>): (r: nat)
    ensures 2 * r <= |s| * (|s| - 1)
  {
    if s == [] then 0
    else
      var rest := Inversions(s[1..]);
      var here := Smaller(s[0], s[1..]);
      PairBound(|s| - 1, here, rest);
      here + rest
  }

  /** One more value adds at most `n` pairs to the `n * (n - 1) / 2` of the others. */
  lemma PairBound(n: nat, here: nat, rest: nat)
    requires here <= n && 2 * rest <= n * (n - 1)
    ensures 2 * (here + rest) <= (n + 1) * n
  {
    assert (n + 1) * n == n * (n - 1) + 2 * n;
  }

  /**
   * What the merge loop of the inversion counter adds up over `xs` and `ys` from the
   * point where `i` left and `j` right values have been taken: each time the right
   * head is the smaller, the number of left values still waiting.
   */
  function MergeCountFrom(xs: seq<int>, ys: seq<int>, i: nat, j: nat): nat
    requires i <= |xs| && j <= |ys|
    decreases |xs| - i + |ys| - j
  {
    if i == |xs| || j == |ys| then 0
    else if xs[i] <= ys[j] then MergeCountFrom(xs, ys, i + 1, j)
    else (|xs| - i) + MergeCountFrom(xs, ys, i, j + 1)
  }

  /** Counting smaller values distributes over concatenation. */
  lemma {:induction false} SmallerAppend(x: int, s: seq<int>, t: seq<int>)
    ensures Smaller(x, s + t) == Smaller(x, s) + Smaller(x, t)
  {
    if s != [] {
      assert (s + t)[1..] == s[1..] + t;
      SmallerAppend(x, s[1..], t);
    } else {
      assert s + t == t;
    }
  }

  /** No value of `t` is smaller than `x` exactly when `Smaller(x, t)` is zero. */
  lemma {:induction false} SmallerZero(x: int, t: seq<int>)
    ensures Smaller(x, t) == 0 <==> forall k :: 0 <= k < |t| ==> x <= t[k]
  {
    if t != [] {
      SmallerZero(x, t[1..]);
      assert forall k :: 1 <= k < |t| ==> t[k] == t[1..][k - 1];
    }
  }

  /** `Smaller(x, t)` depends only on the values of `t`, not on their order. */
  lemma {:induction false} SmallerPerm(x: int, s: seq<int>, t: seq<int>)
    requires multiset(s) == multiset(t)
    ensures Smaller(x, s) == Smaller(x, t)
    decreases |s|
  {
    if s == [] {
      assert |t| == |multiset(t)| == 0;
    } else {
      var v := s[0];
      assert v in multiset(t);
      var k :| 0 <= k < |t| && t[k] == v;
      var rest := t[..k] + t[k + 1..];
      PickOut(s, t, k);
      SmallerPerm(x, s[1..], rest);
      SmallerAppend(x, t[..k] + [v], t[k + 1..]);
      SmallerAppend(x, t[..k], [v]);
      SmallerAppend(x, t[..k], t[k + 1..]);
    }
  }

  /**
   * Taking the head of `s` out of its occurrence at `t[k]` leaves two sequences with
   * the same values; `t` is its two sides around `t[k]`.
   */
  lemma PickOut(s: seq<int>, t: seq<int>, k: int)
    requires multiset(s) == multiset(t) && s != [] && 0 <= k < |t| && t[k] == s[0]
    ensures multiset(s[1..]) == multiset(t[..k] + t[k + 1..])
    ensures t == t[..k] + [t[k]] + t[k + 1..]
  {
    assert t == t[..k] + [t[k]] + t[k + 1..];
    var both := multiset(t[..k]) + multiset(t[k + 1..]);
    assert multiset(t[..k] + t[k + 1..]) == both;
    assert multiset(t) == both + multiset{t[k]};
    ConsMultiset(s);
    assert multiset(s[1..]) == (multiset(s[1..]) + multiset{t[k]}) - multiset{t[k]};
    assert both == (both + multiset{t[k]}) - multiset{t[k]};
  }

  /** Cross inversions distribute over a split of the left run. */
  lemma {:induction false} CrossAppendLeft(s: seq<int>, t: seq<int>, rs: seq<int>)
    ensures Cross(s + t, rs) == Cross(s, rs) + Cross(t, rs)
  {
    if s != [] {
      assert (s + t)[1..] == s[1..] + t;
      CrossAppendLeft(s[1..], t, rs);
    } else {
      assert s + t == t;
    }
  }

  /** Cross inversions distribute over a split of the right run. */
  lemma {:induction false} CrossAppendRight(ls: seq<int>, s: seq<int>, t: seq<int>)
    ensures Cross(ls, s + t) == Cross(ls, s) + Cross(ls, t)
  {
    if ls != [] {
      SmallerAppend(ls[0], s, t);
      CrossAppendRight(ls[1..], s, t);
    }
  }

  /** Cross inversions depend only on the values of the right run. */
  lemma {:induction false} CrossPermRight(ls: seq<int>, rs: seq<int>, rs': seq<int>)
    requires multiset(rs) == multiset(rs')
    ensures Cross(ls, rs) == Cross(ls, rs')
  {
    if ls != [] {
      SmallerPerm(ls[0], rs, rs');
      CrossPermRight(ls[1..], rs, rs');
    }
  }

  /** Cross inversions depend only on the values of the left run. */
  lemma {:induction false} CrossPermLeft(ls: seq<int>, ls': seq<int>, rs: seq<int>)
    requires multiset(ls) == multiset(ls')
    ensures Cross(ls, rs) == Cross(ls', rs)
    decreases |ls|
  {
    if ls == [] {
      assert |ls'| == |multiset(ls')| == 0;
    } else {
      var v := ls[0];
      assert v in multiset(ls');
      var k :| 0 <= k < |ls'| && ls'[k] == v;
      var rest := ls'[..k] + ls'[k + 1..];
      PickOut(ls, ls', k);
      CrossPermLeft(ls[1..], rest, rs);
      CrossAppendLeft(ls'[..k] + [v], ls'[k + 1..], rs);
      CrossAppendLeft(ls'[..k], [v], rs);
      CrossAppendLeft(ls'[..k], ls'[k + 1..], rs);
    }
  }

  /** The inversions of two runs side by side: those inside each run and those across. */
  lemma {:induction false} InversionsAppend(ls: seq<int>, rs: seq<int>)
    ensures Inversions(ls + rs) == Inversions(ls) + Inversions(rs) + Cross(ls, rs)
  {
    if ls != [] {
      assert (ls + rs)[0] == ls[0] && (ls + rs)[1..] == ls[1..] + rs;
      SmallerAppend(ls[0], ls[1..], rs);
      InversionsAppend(ls[1..], rs);
    } else {
      assert ls + rs == rs;
    }
  }

  /** A sequence has no inversions exactly when it is sorted. */
  lemma {:induction false} InversionsZeroIffSorted(s: seq<int>)
    ensures Inversions(s) == 0 <==> Sorted(s)
  {
    if s != [] {
      InversionsZeroIffSorted(s[1..]);
      SmallerZero(s[0], s[1..]);
      if Sorted(s) {
        assert Sorted(s[1..]);
      }
      if Inversions(s) == 0 {
        assert s == [s[0]] + s[1..];
        HeadThenSorted(s[0], s[1..]);
      }
    }
  }

  /** On sorted runs, what the merge loop adds up from `(i, j)` on is the number of cross inversions of the rests. */
  lemma {:induction false} MergeCountIsCross(xs: seq<int>, ys: seq<int>, i: nat, j: nat)
    requires Sorted(xs) && Sorted(ys) && i <= |xs| && j <= |ys|
    ensures MergeCountFrom(xs, ys, i, j) == Cross(xs[i..], ys[j..])
    decreases |xs| - i + |ys| - j
  {
    if i == |xs| {
      assert xs[i..] == [];
    } else if j == |ys| {
      assert ys[j..] == [];
      CrossNone(xs[i..]);
    } else if xs[i] <= ys[j] {
      MergeCountIsCross(xs, ys, i + 1, j);
      assert xs[i..][1..] == xs[i + 1..];
      SmallerZero(xs[i], ys[j..]);
    } else {
      MergeCountIsCross(xs, ys, i, j + 1);
      assert ys[j..] == [ys[j]] + ys[j + 1..];
      CrossAppendRight(xs[i..], [ys[j]], ys[j + 1..]);
      CrossAllAbove(xs[i..], ys[j]);
    }
  }

  /** Nothing is smaller than a value of the empty run. */
  lemma {:induction false} CrossNone(ls: seq<int>)
    ensures Cross(ls, []) == 0
  {
    if ls != [] {
      CrossNone(ls[1..]);
    }
  }

  /** When every value of `ls` exceeds `y`, each of them forms an inversion with `y`. */
  lemma {:induction false} CrossAllAbove(ls: seq<int>, y: int)
    requires Sorted(ls) && (ls != [] ==> ls[0] > y)
    ensures Cross(ls, [y]) == |ls|
  {
    if ls != [] {
      assert [y][1..] == [];
      CrossAllAbove(ls[1..], y);
    }
  }

  /** `t` is `s` with `s[lo..hi]` sorted, and `c` is the number of inversions `s[lo..hi]` had. */
  ghost predicate Counted(s: seq<int>, t: seq<int>, lo: int, hi: int, c: int)
  {
    SortedSegment(s, t, lo, hi) && c == Inversions(s[lo..hi])
  }

  /**
   * `t` is `s` with the runs `s[lo..mid]` and `s[mid..hi]` merged in place, and `c` is
   * what the counting merge adds up for them.
   */
  ghost predicate MergedCounted(s: seq<int>, t: seq<int>, lo: int, mid: int, hi: int, c: int)
  {
    && 0 <= lo <= mid <= hi <= |s|
    && Spliced(s, t, lo, Merged(s[lo..mid], s[mid..hi]))
    && c == MergeCountFrom(s[lo..mid], s[mid..hi], 0, 0)
  }

  /**
   * Counts the inversions of `arr[left..right + 1]` while merge-sorting that range
   * through the scratch array `temp`. A range of at most one cell is left alone.
   */
  method CountInversions(arr: array<int>, temp: array<int>, left: int, right: int) returns (count: int)
    requires arr != temp
    requires left < right ==> 0 <= left && right < arr.Length && right < temp.Length
    modifies arr, temp
    ensures right <= left ==> count == 0 && arr[..] == old(arr[..])
    ensures 0 <= left <= right + 1 <= arr.Length ==> Counted(old(arr[..]), arr[..], left, right + 1, count)
    decreases right - left, 1
  {
    count := 0;
    if right > left {
      count := CountHalves(arr, temp, left, right);
    } else if 0 <= left <= right + 1 <= arr.Length {
      ShortCounted(arr[..], left, right + 1);
    }
  }

  /**
   * The recursive case of the inversion counter: count and sort each half, then add
   * what the counting merge of the two sorted halves adds up.
   */
  method CountHalves(arr: array<int>, temp: array<int>, left: int, right: int) returns (count: int)
    requires arr != temp && 0 <= left < right < arr.Length && right < temp.Length
    modifies arr, temp
    ensures Counted(old(arr[..]), arr[..], left, right + 1, count)
    decreases right - left, 0
  {
    var mid := left + (right - left) / 2;
    ghost var s0 := arr[..];
    var c1 := CountInversions(arr, temp, left, mid);
    ghost var s1 := arr[..];
    var c2 := CountInversions(arr, temp, mid + 1, right);
    ghost var s2 := arr[..];
    var c3 := MergeAndCount(arr, temp, left, mid, right);
    count := c1 + c2 + c3;
    CountStep(s0, s1, s2, arr[..], left, mid + 1, right + 1, c1, c2, c3);
  }


  /** A range of at most one cell is sorted and has no inversions. */
  lemma ShortCounted(s: seq<int>, lo: int, hi: int)
    requires 0 <= lo <= hi <= |s| && hi - lo <= 1
    ensures Counted(s, s, lo, hi, 0)
  {
    ShortSegmentSorted(s, lo, hi);
    if hi - lo == 1 {
      assert s[lo..hi][1..] == [];
    }
  }

  /**
   * The recursive step of the inversion counter: the inversions of each half, counted
   * before the halves were sorted, plus those the merge adds up across the sorted
   * halves, are those of the range, which ends up sorted.
   */
  lemma CountStep(s0: seq<int>, s1: seq<int>, s2: seq<int>, s3: seq<int>, lo: int, mid: int, hi: int, c1: int, c2: int, c3: int)
    ensures Counted(s0, s1, lo, mid, c1) && Counted(s1, s2, mid, hi, c2) && MergedCounted(s2, s3, lo, mid, hi, c3)
            ==> Counted(s0, s3, lo, hi, c1 + c2 + c3)
  {
    if Counted(s0, s1, lo, mid, c1) && Counted(s1, s2, mid, hi, c2) && MergedCounted(s2, s3, lo, mid, hi, c3) {
      MergeSortStep(s0, s1, s2, s3, lo, mid, hi);
      CountSum(s0, s1, s2, lo, mid, hi);
    }
  }

  /** The count part of `CountStep`. */
  lemma CountSum(s0: seq<int>, s1: seq<int>, s2: seq<int>, lo: int, mid: int, hi: int)
    requires lo <= mid <= hi
    requires SortedSegment(s0, s1, lo, mid) && SortedSegment(s1, s2, mid, hi)
    ensures Inversions(s0[lo..mid]) + Inversions(s1[mid..hi]) + MergeCountFrom(s2[lo..mid], s2[mid..hi], 0, 0)
         == Inversions(s0[lo..hi])
  {
    assert s2[lo..mid] == s1[lo..mid];
    assert s1[mid..hi] == s0[mid..hi];
    assert Sorted(s2[lo..mid]) && Sorted(s2[mid..hi]);
    MergeCountIsCross(s2[lo..mid], s2[mid..hi], 0, 0);
    assert s2[lo..mid][0..] == s2[lo..mid] && s2[mid..hi][0..] == s2[mid..hi];
    CrossPermLeft(s2[lo..mid], s0[lo..mid], s2[mid..hi]);
    CrossPermRight(s0[lo..mid], s2[mid..hi], s0[mid..hi]);
    assert s0[lo..hi] == s0[lo..mid] + s0[mid..hi];
    InversionsAppend(s0[lo..mid], s0[mid..hi]);
  }

  /**
   * The merge step of the inversion counter: merges `arr[left..mid + 1]` and
   * `arr[mid + 1..right + 1]` into `temp`, copies the result back, and returns what
   * the loop added up: for each value taken from the right run, the number of values
   * still waiting in the left run.
   */
  method MergeAndCount(arr: array<int>, temp: array<int>, left: int, mid: int, right: int) returns (count: int)
    requires arr != temp && 0 <= left <= mid < right < arr.Length && right < temp.Length
    modifies arr, temp
    ensures MergedCounted(old(arr[..]), arr[..], left, mid + 1, right + 1, count)
  {
    ghost var xs, ys := arr[left..mid + 1], arr[mid + 1..right + 1];
    count := MergeIntoTemp(arr, temp, left, mid, right, xs, ys);
    for i := left to right + 1
      modifies arr
      invariant forall p :: left <= p < i ==> arr[p] == temp[p]
      invariant forall p :: 0 <= p < left || i <= p < arr.Length ==> arr[p] == old(arr[p])
    {
      arr[i] := temp[i];
    }
  }

  /**
   * The three merge loops of the inversion counter: `temp[left..right + 1]` receives
   * the merge of the runs `xs` and `ys` of `arr`, and the count is what the first
   * loop added up.
   */
  method MergeIntoTemp(arr: array<int>, temp: array<int>, left: int, mid: int, right: int, ghost xs: seq<int>, ghost ys: seq<int>)
    returns (count: int)
    requires arr != temp && 0 <= left <= mid < right < arr.Length && right < temp.Length
    requires xs == arr[left..mid + 1] && ys == arr[mid + 1..right + 1]
    modifies temp
    ensures forall p :: left <= p <= right ==> temp[p] == Merged(xs, ys)[p - left]
    ensures count == MergeCountFrom(xs, ys, 0, 0)
  {
    ghost var m := Merged(xs, ys);
    MergeStart(xs, ys);
    ghost var total := MergeCountFrom(xs, ys, 0, 0);
    var i, j, k := left, mid + 1, left;
    ghost var a, b := 0, 0;
    count := 0;
    while i <= mid && j <= right
      invariant i == left + a && j == mid + 1 + b && k == left + a + b
      invariant MergeAt(xs, ys, a, b, m)
      invariant CountAt(xs, ys, a, b, count, total)
      invariant forall p :: left <= p < k ==> temp[p] == m[p - left]
    {
      assert xs[a] == arr[i] && ys[b] == arr[j];
      if arr[i] <= arr[j] {
        temp[k] := arr[i];
        i, a := i + 1, a + 1;
      } else {
        temp[k] := arr[j];
        j, b := j + 1, b + 1;
        count := count + (mid - i + 1);
      }
      k := k + 1;
    }
    assert count == total;
    CountTails(arr, temp, left, mid, right, xs, ys, i, j);
  }

  /** The last two loops of the inversion counter's merge: they copy what is left of either run. */
  method CountTails(arr: array<int>, temp: array<int>, left: int, mid: int, right: int, ghost xs: seq<int>, ghost ys: seq<int>, i0: int, j0: int)
    requires arr != temp && 0 <= left <= mid < right < arr.Length && right < temp.Length
    requires xs == arr[left..mid + 1] && ys == arr[mid + 1..right + 1]
    requires left <= i0 <= mid + 1 && mid + 1 <= j0 <= right + 1 && (i0 == mid + 1 || j0 == right + 1)
    requires MergeAt(xs, ys, i0 - left, j0 - mid - 1, Merged(xs, ys))
    requires forall p :: left <= p < i0 + j0 - mid - 1 ==> temp[p] == Merged(xs, ys)[p - left]
    modifies temp
    ensures forall p :: left <= p <= right ==> temp[p] == Merged(xs, ys)[p - left]
  {
    ghost var m := Merged(xs, ys);
    var i, j, k := i0, j0, i0 + j0 - mid - 1;
    ghost var a, b := i0 - left, j0 - mid - 1;
    while i <= mid
      invariant i == left + a && j == mid + 1 + b && (i <= mid ==> b == |ys|) && k == left + a + b
      invariant MergeAt(xs, ys, a, b, m)
      invariant forall p :: left <= p < k ==> temp[p] == m[p - left]
    {
      assert xs[a] == arr[i];
      temp[k] := arr[i];
      i, a, k := i + 1, a + 1, k + 1;
    }
    CopyRightTail(arr, temp, left, mid, right, xs, ys, j);
  }

  /** The last loop of the inversion counter's merge: the left run is used up, so the rest of the right run follows. */
  method CopyRightTail(arr: array<int>, temp: array<int>, left: int, mid: int, right: int, ghost xs: seq<int>, ghost ys: seq<int>, j0: int)
    requires arr != temp && 0 <= left <= mid < right < arr.Length && right < temp.Length
    requires xs == arr[left..mid + 1] && ys == arr[mid + 1..right + 1]
    requires mid + 1 <= j0 <= right + 1 && MergeAt(xs, ys, |xs|, j0 - mid - 1, Merged(xs, ys))
    requires forall p :: left <= p < j0 ==> temp[p] == Merged(xs, ys)[p - left]
    modifies temp
    ensures forall p :: left <= p <= right ==> temp[p] == Merged(xs, ys)[p - left]
  {
    ghost var m := Merged(xs, ys);
    var j, k := j0, j0;
    ghost var b := j0 - mid - 1;
    while j <= right
      invariant j == mid + 1 + b && k == j && 0 <= b <= |ys|
      invariant MergeAt(xs, ys, |xs|, b, m)
      invariant forall p :: left <= p < k ==> temp[p] == m[p - left]
    {
      assert ys[b] == arr[j];
      temp[k] := arr[j];
      j, b, k := j + 1, b + 1, k + 1;
    }
  }

  /** Having counted `c` after `i` left and `j` right values, the rest of the count makes `total`. */
  ghost predicate CountAt(xs: seq<int>, ys: seq<int>, i: int, j: int, c: int, total: int)
  {
    0 <= i <= |xs| && 0 <= j <= |ys| && c + MergeCountFrom(xs, ys, i, j) == total
  }

  /** The inversion-counting run of the lecture: `{8, 4, 2, 1}` has six inversions. */
  method InversionDemo() returns (inversions: int)
    ensures inversions == 6
  {
    var arr := new int[] [8, 4, 2, 1];
    var temp := new int[4];
    ghost var s := arr[..];
    assert s[0..4] == [8, 4, 2, 1];
    inversions := CountInversions(arr, temp, 0, 3);
    assert Inversions([8, 4, 2, 1]) == 6 by {
      assert [8, 4, 2, 1][1..] == [4, 2, 1] && [4, 2, 1][1..] == [2, 1] && [2, 1][1..] == [1];
    }
  }

  /** The external-merge run of the lecture: files `{1, 3, 5, 7}` and `{2, 4, 6, 8}` merge to `1..8`. */
  method ExternalMergeDemo() returns (result: array<int>)
    ensures result[..] == [1, 2, 3, 4, 5, 6, 7, 8]
  {
    var file1 := new int[] [1, 3, 5, 7];
    var file2 := new int[] [2, 4, 6, 8];
    result := new int[8];
    assert file1[..4] == [1, 3, 5, 7] && file2[..4] == [2, 4, 6, 8];
    ExternalMerge(file1, file2, result, 4, 4);
    assert result[..] == result[..8];
    MergedDemoValues();
  }

  /** The merge of the lecture's two files, unfolded one head at a time. */
  lemma MergedDemoValues()
    ensures Merged([1, 3, 5, 7], [2, 4, 6, 8]) == [1, 2, 3, 4, 5, 6, 7, 8]
  {
    MergedDemoTail();
    assert Merged([3, 5, 7], [4, 6, 8]) == [3, 4, 5, 6, 7, 8] by {
      assert [3, 5, 7][1..] == [5, 7];
    }
    assert Merged([3, 5, 7], [2, 4, 6, 8]) == [2, 3, 4, 5, 6, 7, 8] by {
      assert [2, 4, 6, 8][1..] == [4, 6, 8];
    }
    assert [1, 3, 5, 7][1..] == [3, 5, 7];
  }

  /** The last five steps of the lecture's merge. */
  lemma MergedDemoTail()
    ensures Merged([5, 7], [4, 6, 8]) == [4, 5, 6, 7, 8]
  {
    assert Merged([7], [8]) == [7, 8] by {
      assert Merged([7], [8]) == [7] + Merged([], [8]);
    }
    assert Merged([7], [6, 8]) == [6, 7, 8] by {
      assert [6, 8][1..] == [8];
    }
    assert Merged([5, 7], [6, 8]) == [5, 6, 7, 8] by {
      assert [5, 7][1..] == [7];
    }
    assert [4, 6, 8][1..] == [6, 8];
  }
}
