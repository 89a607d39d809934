/**
 * The heap lecture: array-embedded binary heaps (children of node `k` at `2k + 1`
 * and `2k + 2`), sift-down, heap construction, heap sort in both orders, insertion
 * with bubble-up, extraction of the root, and the heap-property check.
 */
module Lecture11Heap {
  import opened Ordering

  /** Which way a heap is ordered: the largest value on top, or the smallest. */
  datatype Order = Max | Min

  /** `x` may sit above `y` in a heap of order `o`. */
  predicate Above(o: Order, x: int, y: int)
  {
    if o == Max then x >= y else x <= y
  }

  /** `s[p]` may sit above each child of node `i` that lies in `[0, n)`. */
  ghost predicate BoundsChildren(o: Order, s: seq<int>, n: int, p: int, i: int)
    requires 0 <= p < |s| && 0 <= i && n <= |s|
  {
    && (2 * i + 1 < n ==> Above(o, s[p], s[2 * i + 1]))
    && (2 * i + 2 < n ==> Above(o, s[p], s[2 * i + 2]))
  }

  /** Node `k` may sit above its children in the heap `s[..n]`. */
  ghost predicate NodeOk(o: Order, s: seq<int>, n: int, k: int)
    requires 0 <= k < |s| && n <= |s|
  {
    BoundsChildren(o, s, n, k, k)
  }

  /** Every node of `s[..n]` from `lo` on may sit above its children. */
  ghost predicate HeapFrom(o: Order, s: seq<int>, n: int, lo: int)
  {
    0 <= lo && 0 <= n <= |s| && forall k :: lo <= k < n ==> NodeOk(o, s, n, k)
  }

  /** `s[..n]` is a heap of order `o`: every parent may sit above each of its children. */
  ghost predicate Heap(o: Order, s: seq<int>, n: int)
  {
    HeapFrom(o, s, n, 0)
  }

  /**
   * The state sift-down works in: every node from `lo` on is in order except node `i`,
   * and the parent of `i` (when it is from `lo` on) may still sit above `i`'s children.
   */
  ghost predicate HeapExcept(o: Order, s: seq<int>, n: int, lo: int, i: int)
  {
    && 0 <= lo <= i <= n <= |s|
    && (forall k :: lo <= k < n && k != i ==> NodeOk(o, s, n, k))
    && (forall p :: lo <= p < i && (2 * p + 1 == i || 2 * p + 2 == i) ==> BoundsChildren(o, s, n, p, i))
  }

  /**
   * The state bubble-up works in: every parent-child edge of `s[..n]` is in order except
   * the one into `i`, and the parent of `i` may sit above `i`'s children.
   */
  ghost predicate HeapUp(o: Order, s: seq<int>, n: int, i: int)
  {
    && 0 <= i < n <= |s|
    && (forall k :: 0 <= k < n ==> EdgesOk(o, s, n, k, i))
    && (i > 0 ==> BoundsChildren(o, s, n, (i - 1) / 2, i))
  }

  /** Node `k` may sit above each of its children in `[0, n)` other than `i`. */
  ghost predicate EdgesOk(o: Order, s: seq<int>, n: int, k: int, i: int)
    requires 0 <= k < n <= |s|
  {
    && (2 * k + 1 < n && 2 * k + 1 != i ==> Above(o, s[k], s[2 * k + 1]))
    && (2 * k + 2 < n && 2 * k + 2 != i ==> Above(o, s[k], s[2 * k + 2]))
  }

  /** `s` is in heap-sort order for `o`: each value may sit above every earlier one. */
  ghost predicate SortedBy(o: Order, s: seq<int>)
  {
    forall k, l :: 0 <= k < l < |s| ==> Above(o, s[l], s[k])
  }

  /** Heap-sort order is ascending for a max-heap and descending for a min-heap. */
  lemma SortedByOrder(s: seq<int>)
    ensures SortedBy(Max, s) <==> Sorted(s)
    ensures SortedBy(Min, s) <==> SortedDesc(s)
  {
  }

  /** The root of a heap may sit above every value of the heap: a max-heap's root is its maximum. */
  lemma {:induction false} RootAbove(o: Order, s: seq<int>, n: int, k: int)
    requires Heap(o, s, n) && 0 <= k < n
    ensures Above(o, s[0], s[k])
    decreases k
  {
    if k > 0 {
      var p := (k - 1) / 2;
      RootAbove(o, s, n, p);
      assert NodeOk(o, s, n, p);
    }
  }

  /** `RootAbove` for every value at once. */
  lemma RootAboveAll(o: Order, s: seq<int>, n: int)
    requires Heap(o, s, n)
    ensures forall k :: 0 <= k < n ==> Above(o, s[0], s[k])
  {
    forall k | 0 <= k < n
      ensures Above(o, s[0], s[k])
    {
      RootAbove(o, s, n, k);
    }
  }

  /**
   * Sift-down (source `heapify`): if every node of `a[..n]` from `lo` on is in order
   * except `i`, swapping `a[i]` with its largest child until it is in place makes every
   * node from `lo` on a heap node. Only cells of `[i, n)` move, and they are permuted.
   */
  method Heapify(a: array<int>, n: int, i: int, ghost lo: int)
    requires n <= a.Length && HeapExcept(Max, a[..], n, lo, i)
    modifies a
    ensures HeapFrom(Max, a[..], n, lo)
    ensures multiset(a[..n]) == multiset(old(a[..n]))
    ensures forall k :: 0 <= k < i || n <= k < a.Length ==> a[k] == old(a[k])
    decreases n - i
  {
    var largest := i;
    var left := 2 * i + 1;
    var right := 2 * i + 2;
    if left < n && a[left] > a[largest] {
      largest := left;
    }
    if right < n && a[right] > a[largest] {
      largest := right;
    }
    if largest != i {
      ghost var s := a[..];
      Swap(a, i, largest, n);
      assert a[..] == s[i := s[largest]][largest := s[i]];
      SiftStep(Max, s, a[..], n, lo, i, largest);
      Heapify(a, n, largest, lo);
    } else {
      if i < n {
        assert NodeOk(Max, a[..], n, i);
      }
    }
  }

  /** Sift-down for a min-heap (source `heapifyMin`): the smallest child moves up instead. */
  method HeapifyMin(a: array<int>, n: int, i: int, ghost lo: int)
    requires n <= a.Length && HeapExcept(Min, a[..], n, lo, i)
    modifies a
    ensures HeapFrom(Min, a[..], n, lo)
    ensures multiset(a[..n]) == multiset(old(a[..n]))
    ensures forall k :: 0 <= k < i || n <= k < a.Length ==> a[k] == old(a[k])
    decreases n - i
  {
    var smallest := i;
    var left := 2 * i + 1;
    var right := 2 * i + 2;
    if left < n && a[left] < a[smallest] {
      smallest := left;
    }
    if right < n && a[right] < a[smallest] {
      smallest := right;
    }
    if smallest != i {
      ghost var s := a[..];
      Swap(a, i, smallest, n);
      assert a[..] == s[i := s[smallest]][smallest := s[i]];
      SiftStep(o := Min, s := s, t := a[..], n := n, lo := lo, i := i, c := smallest);
      HeapifyMin(a, n, smallest, lo);
    } else {
      if i < n {
        assert NodeOk(Min, a[..], n, i);
      }
    }
  }

  /**
   * One exchange of sift-down: when child `c` of `i` may sit above `i` and above its
   * sibling, exchanging the two moves the exception from `i` down to `c`.
   */
  lemma SiftStep(o: Order, s: seq<int>, t: seq<int>, n: int, lo: int, i: int, c: int)
    requires HeapExcept(o, s, n, lo, i)
    requires (c == 2 * i + 1 || c == 2 * i + 2) && c < n
    requires Above(o, s[c], s[i]) && BoundsChildren(o, s, n, c, i)
    requires t == s[i := s[c]][c := s[i]]
    ensures HeapExcept(o, t, n, lo, c)
  {
    assert NodeOk(o, s, n, c);
    forall k | lo <= k < n && k != c
      ensures NodeOk(o, t, n, k)
    {
      if k != i {
        assert NodeOk(o, s, n, k);
        if 2 * k + 1 == i || 2 * k + 2 == i {
          assert BoundsChildren(o, s, n, k, i);
        }
      }
    }
  }

  /**
   * Builds a max-heap in `a[..n]` (source `buildMaxHeap`): sift-down from the last
   * internal node `n / 2 - 1` back to the root.
   */
  method BuildMaxHeap(a: array<int>, n: int)
    requires 0 <= n <= a.Length
    modifies a
    ensures Heap(Max, a[..], n)
    ensures multiset(a[..n]) == multiset(old(a[..n]))
    ensures forall k :: n <= k < a.Length ==> a[k] == old(a[k])
  {
    var i := n / 2 - 1;
    while i >= 0
      invariant -1 <= i <= n / 2 - 1
      invariant HeapFrom(Max, a[..], n, i + 1)
      invariant multiset(a[..n]) == multiset(old(a[..n]))
      invariant forall k :: n <= k < a.Length ==> a[k] == old(a[k])
    {
      Heapify(a, n, i, i);
      i := i - 1;
    }
  }

  /** Builds a min-heap in `a[..n]` (source `buildMinHeap`). */
  method BuildMinHeap(a: array<int>, n: int)
    requires 0 <= n <= a.Length
    modifies a
    ensures Heap(Min, a[..], n)
    ensures multiset(a[..n]) == multiset(old(a[..n]))
    ensures forall k :: n <= k < a.Length ==> a[k] == old(a[k])
  {
    var i := n / 2 - 1;
    while i >= 0
      invariant -1 <= i <= n / 2 - 1
      invariant HeapFrom(Min, a[..], n, i + 1)
      invariant multiset(a[..n]) == multiset(old(a[..n]))
      invariant forall k :: n <= k < a.Length ==> a[k] == old(a[k])
    {
      HeapifyMin(a, n, i, i);
      i := i - 1;
    }
  }

  /**
   * The state of heap sort after the round that shrank the heap to `a[..i + 1]`:
   * the heap part is a heap, the tail `a[i + 1..n]` is in order, every heap value may
   * sit below every tail value, and `a[..n]` is a permutation of the input.
   */
  ghost predicate SortState(o: Order, s: seq<int>, s0: seq<int>, n: int, i: int)
  {
    && -1 <= i < n <= |s| == |s0|
    && Heap(o, s, i + 1)
    && (forall k, l :: i < k < l < n ==> Above(o, s[l], s[k]))
    && (forall k, l :: 0 <= k <= i < l < n ==> Above(o, s[l], s[k]))
    && multiset(s[..n]) == multiset(s0[..n])
    && s[n..] == s0[n..]
  }

  /**
   * Heap sort (source `heapSort`, and `heapSortWithPhasedHighlights`, which does the
   * same exchanges): build a max-heap, then repeatedly exchange the root with the last
   * heap cell and sift the new root down in the shrunk heap.
   */
  method HeapSort(a: array<int>, n: int)
    requires 0 <= n <= a.Length
    modifies a
    ensures Sorted(a[..n])
    ensures multiset(a[..n]) == multiset(old(a[..n]))
    ensures a[n..] == old(a[n..])
  {
    BuildMaxHeap(a, n);
    var i := n - 1;
    while i > 0
      invariant SortState(Max, a[..], old(a[..]), n, i)
    {
      MoveRootToEnd(a, n, i, old(a[..]));
      i := i - 1;
    }
    SortDone(Max, a[..], old(a[..]), n, i);
    SortedByOrder(a[..n]);
  }

  /**
   * Heap sort through a min-heap (source `heapSortMin`): the minimum is moved to the
   * end each round, so the range ends up non-increasing.
   */
  method HeapSortMin(a: array<int>, n: int)
    requires 0 <= n <= a.Length
    modifies a
    ensures SortedDesc(a[..n])
    ensures multiset(a[..n]) == multiset(old(a[..n]))
    ensures a[n..] == old(a[n..])
  {
    BuildMinHeap(a, n);
    var i := n - 1;
    while i > 0
      invariant SortState(Min, a[..], old(a[..]), n, i)
    {
      MoveMinToEnd(a, n, i, old(a[..]));
      i := i - 1;
    }
    SortDone(Min, a[..], old(a[..]), n, i);
    SortedByOrder(a[..n]);
  }

  /**
   * One round of `heapSort`'s extraction loop: the root is exchanged with the last heap
   * cell `a[i]`, and the shrunk heap `a[..i]` is sifted down from the root.
   */
  method MoveRootToEnd(a: array<int>, n: int, i: int, ghost s0: seq<int>)
    requires 0 < i && SortState(Max, a[..], s0, n, i)
    modifies a
    ensures SortState(Max, a[..], s0, n, i - 1)
  {
    ghost var s := a[..];
    Swap(a, 0, i, n);
    ghost var t := a[..];
    assert t == s[0 := s[i]][i := s[0]];
    RootReplaced(Max, s, t, i);
    Heapify(a, i, 0, 0);
    SortRound(Max, s, t, a[..], s0, n, i);
  }

  /** One round of `heapSortMin`'s loop: the minimum moves to cell `i`, the rest is re-heaped. */
  method MoveMinToEnd(a: array<int>, n: int, i: int, ghost s0: seq<int>)
    requires 0 < i && SortState(Min, a[..], s0, n, i)
    modifies a
    ensures SortState(Min, a[..], s0, n, i - 1)
  {
    ghost var s := a[..];
    Swap(a, 0, i, n);
    ghost var t := a[..];
    assert t == s[0 := s[i]][i := s[0]];
    RootReplaced(Min, s, t, i);
    HeapifyMin(a, i, 0, 0);
    SortRound(Min, s, t, a[..], s0, n, i);
  }

  /** A heap whose root cell is overwritten, cut to `m` cells, is a heap except at the root. */
  lemma RootReplaced(o: Order, s: seq<int>, t: seq<int>, m: int)
    requires Heap(o, s, m + 1) && 0 <= m && |t| == |s|
    requires forall k :: 0 < k < m ==> t[k] == s[k]
    ensures HeapExcept(o, t, m, 0, 0)
  {
    assert m + 1 <= |s|;
    forall k | 0 < k < m
      ensures NodeOk(o, t, m, k)
    {
      assert NodeOk(o, s, m + 1, k);
    }
  }

  /**
   * One round of heap sort: `t` is `s` with the root and cell `i` exchanged, `u` is `t`
   * with `t[..i]` re-heaped; the sort state moves from `i` to `i - 1`.
   */
  lemma SortRound(o: Order, s: seq<int>, t: seq<int>, u: seq<int>, s0: seq<int>, n: int, i: int)
    requires 0 < i < |s| && t == s[0 := s[i]][i := s[0]]
    requires Heap(o, u, i) && |u| == |t|
    requires multiset(u[..i]) == multiset(t[..i])
    requires forall k :: i <= k < |u| ==> u[k] == t[k]
    ensures SortState(o, s, s0, n, i) ==> SortState(o, u, s0, n, i - 1)
  {
    if SortState(o, s, s0, n, i) {
      SortRoundFrom(o, s, t, u, s0, n, i);
    }
  }

  /** `SortRound` under its hypothesis. */
  lemma SortRoundFrom(o: Order, s: seq<int>, t: seq<int>, u: seq<int>, s0: seq<int>, n: int, i: int)
    requires SortState(o, s, s0, n, i) && 0 < i
    requires t == s[0 := s[i]][i := s[0]]
    requires Heap(o, u, i) && |u| == |t|
    requires multiset(u[..i]) == multiset(t[..i])
    requires forall k :: i <= k < |u| ==> u[k] == t[k]
    ensures SortState(o, u, s0, n, i - 1)
  {
    RoundOrder(o, s, t, u, n, i);
    RoundPerm(s, t, u, s0, n, i);
  }

  /** The order half of a heap-sort round: the new tail cell `i` bounds the heap and starts the tail. */
  lemma RoundOrder(o: Order, s: seq<int>, t: seq<int>, u: seq<int>, n: int, i: int)
    requires 0 < i < n <= |s| && Heap(o, s, i + 1)
    requires forall k, l :: i < k < l < n ==> Above(o, s[l], s[k])
    requires forall k, l :: 0 <= k <= i < l < n ==> Above(o, s[l], s[k])
    requires t == s[0 := s[i]][i := s[0]]
    requires |u| == |t| && multiset(u[..i]) == multiset(t[..i])
    requires forall k :: i <= k < |u| ==> u[k] == t[k]
    ensures forall k, l :: i - 1 < k < l < n ==> Above(o, u[l], u[k])
    ensures forall k, l :: 0 <= k <= i - 1 < l < n ==> Above(o, u[l], u[k])
  {
    RootAboveAll(o, s, i + 1);
    forall l | i <= l < n
      ensures forall k :: 0 <= k < i ==> Above(o, u[l], u[k])
    {
      BelowAfterPerm(o, t[..i], u[..i], u[l]);
    }
  }

  /** The permutation half of a heap-sort round. */
  lemma RoundPerm(s: seq<int>, t: seq<int>, u: seq<int>, s0: seq<int>, n: int, i: int)
    requires 0 < i < n <= |s| == |s0|
    requires multiset(s[..n]) == multiset(s0[..n]) && s[n..] == s0[n..]
    requires t == s[0 := s[i]][i := s[0]]
    requires |u| == |t| && multiset(u[..i]) == multiset(t[..i])
    requires forall k :: i <= k < |u| ==> u[k] == t[k]
    ensures multiset(u[..n]) == multiset(s0[..n]) && u[n..] == s0[n..]
  {
    RoundMultiset(s, t, u, n, i);
    assert u[n..] == t[n..];
    assert t[n..] == s[n..];
  }

  /** Swapping the root with cell `i`, then permuting the cells before `i`, keeps the multiset of the first `n`. */
  lemma RoundMultiset(s: seq<int>, t: seq<int>, u: seq<int>, n: int, i: int)
    requires 0 < i < n <= |s| && t == s[0 := s[i]][i := s[0]]
    requires |u| == |t| && multiset(u[..i]) == multiset(t[..i])
    requires forall k :: i <= k < |u| ==> u[k] == t[k]
    ensures multiset(u[..n]) == multiset(s[..n])
  {
    SwapPreservesMultiset(s[..n], 0, i);
    assert t[..n] == s[..n][0 := s[i]][i := s[0]];
    assert u[i..n] == t[i..n];
    assert u[..n] == u[..i] + u[i..n];
    assert t[..n] == t[..i] + t[i..n];
  }


  /** A bound every value of `s` respects is respected by every permutation of `s`. */
  lemma BelowAfterPerm(o: Order, s: seq<int>, t: seq<int>, b: int)
    requires multiset(s) == multiset(t)
    requires forall k :: 0 <= k < |s| ==> Above(o, b, s[k])
    ensures forall k :: 0 <= k < |t| ==> Above(o, b, t[k])
  {
    forall k | 0 <= k < |t|
      ensures Above(o, b, t[k])
    {
      assert t[k] in multiset(t);
      var j :| 0 <= j < |s| && s[j] == t[k];
    }
  }

  /** When heap sort stops, the whole range is in heap-sort order. */
  lemma SortDone(o: Order, s: seq<int>, s0: seq<int>, n: int, i: int)
    requires SortState(o, s, s0, n, i) && i <= 0
    ensures SortedBy(o, s[..n])
  {
  }

  /** A sequence that agrees with `s` except that positions `i` and `j` are exchanged is `s` with them swapped. */
  lemma Swapped(s: seq<int>, t: seq<int>, i: int, j: int)
    requires |t| == |s| && 0 <= i < |s| && 0 <= j < |s| && t[i] == s[j] && t[j] == s[i]
    requires forall k :: 0 <= k < |s| && k != i && k != j ==> t[k] == s[k]
    ensures t == s[i := s[j]][j := s[i]]
  {
  }

  /**
   * Inserts `value` into the max-heap `a[..n]` (source `insertMaxHeap`): it goes into
   * cell `n`, the size becomes `n + 1`, and it is exchanged with its parent while it is
   * larger. The source assumes there is room; so does the model (`n < a.Length`).
   */
  method InsertMaxHeap(a: array<int>, n: int, value: int) returns (size: int)
    requires 0 <= n < a.Length && Heap(Max, a[..], n)
    modifies a
    ensures size == n + 1
    ensures Heap(Max, a[..], size)
    ensures multiset(a[..size]) == multiset(old(a[..n])) + multiset{value}
    ensures forall k :: size <= k < a.Length ==> a[k] == old(a[k])
  {
    ghost var s0 := a[..];
    a[n] := value;
    size := n + 1;
    assert a[..size] == old(a[..n]) + [value];
    InsertStart(Max, s0, a[..], n);
    var i := size - 1;
    while i > 0 && a[i] > a[(i - 1) / 2]
      invariant 0 <= i < size
      invariant HeapUp(Max, a[..], size, i)
      invariant multiset(a[..size]) == multiset(old(a[..n])) + multiset{value}
      invariant forall k :: size <= k < a.Length ==> a[k] == old(a[k])
    {
      ghost var s := a[..];
      Swap(a, i, (i - 1) / 2, size);
      Swapped(s, a[..], i, (i - 1) / 2);
      BubbleStep(Max, s, a[..], size, i);
      i := (i - 1) / 2;
    }
    BubbleDone(Max, a[..], size, i);
  }

  /** A heap with one value appended at cell `n` is a heap except on the edge into `n`. */
  lemma InsertStart(o: Order, s0: seq<int>, s: seq<int>, n: int)
    requires Heap(o, s0, n) && n < |s0| == |s| && s == s0[n := s[n]]
    ensures HeapUp(o, s, n + 1, n)
  {
    var m := n + 1;
    forall k | 0 <= k < m
      ensures EdgesOk(o, s, m, k, n)
    {
      if k < n {
        assert NodeOk(o, s0, n, k);
      }
    }
  }

  /** One exchange of bubble-up moves the exception from `i` to its parent. */
  lemma BubbleStep(o: Order, s: seq<int>, t: seq<int>, n: int, i: int)
    requires HeapUp(o, s, n, i) && i > 0
    requires Above(o, s[i], s[(i - 1) / 2])
    requires t == s[i := s[(i - 1) / 2]][(i - 1) / 2 := s[i]]
    ensures HeapUp(o, t, n, (i - 1) / 2)
  {
    var p := (i - 1) / 2;
    assert 2 * p + 1 == i || 2 * p + 2 == i;
    BubbleEdges(o, s, t, n, i, p);
    if p > 0 {
      var g := (p - 1) / 2;
      assert 2 * g + 1 == p || 2 * g + 2 == p;
      assert EdgesOk(o, s, n, g, i) && EdgesOk(o, s, n, p, i);
    }
  }

  /** The edges part of `BubbleStep`: after the exchange only the edge into `p` may be out of order. */
  lemma BubbleEdges(o: Order, s: seq<int>, t: seq<int>, n: int, i: int, p: int)
    requires HeapUp(o, s, n, i) && i > 0 && p == (i - 1) / 2 && (2 * p + 1 == i || 2 * p + 2 == i)
    requires Above(o, s[i], s[p])
    requires t == s[i := s[p]][p := s[i]]
    ensures forall k :: 0 <= k < n ==> EdgesOk(o, t, n, k, p)
  {
    assert EdgesOk(o, s, n, p, i) && EdgesOk(o, s, n, i, i);
    forall k | 0 <= k < n
      ensures EdgesOk(o, t, n, k, p)
    {
      if k != p && k != i {
        assert EdgesOk(o, s, n, k, i);
      }
    }
  }



  /** Bubble-up stops at the root or below a parent it may sit under; the heap is whole. */
  lemma BubbleDone(o: Order, s: seq<int>, n: int, i: int)
    requires HeapUp(o, s, n, i)
    requires i > 0 ==> Above(o, s[(i - 1) / 2], s[i])
    ensures Heap(o, s, n)
  {
    forall k | 0 <= k < n
      ensures NodeOk(o, s, n, k)
    {
      assert EdgesOk(o, s, n, k, i);
      if i > 0 && (2 * k + 1 == i || 2 * k + 2 == i) {
        assert k == (i - 1) / 2;
      }
    }
  }


  /**
   * Removes and returns the root of the max-heap `a[..n]` (source `extractMax`): the
   * last value moves to the root and is sifted down in the heap of size `n - 1`. On an
   * empty heap it returns -1 and leaves everything as it was.
   */
  method ExtractMax(a: array<int>, n: int) returns (max: int, size: int)
    requires 0 <= n <= a.Length && Heap(Max, a[..], n)
    modifies a
    ensures n == 0 ==> max == -1 && size == 0 && a[..] == old(a[..])
    ensures n > 0 ==> size == n - 1 && max == old(a[0])
    ensures n > 0 ==> forall k :: 0 <= k < n ==> old(a[k]) <= max
    ensures Heap(Max, a[..], size)
    ensures n > 0 ==> multiset(a[..size]) + multiset{max} == multiset(old(a[..n]))
    ensures forall k :: size <= k < a.Length ==> a[k] == old(a[k])
  {
    if n == 0 {
      return -1, 0;
    }
    RootAboveAll(Max, a[..], n);
    ghost var s := a[..];
    max := a[0];
    a[0] := a[n - 1];
    size := n - 1;
    RootReplaced(Max, s, a[..], size);
    ghost var t := a[..];
    Heapify(a, size, 0, 0);
    ExtractPerm(s, t, n);
  }

  /** Moving the last heap value onto the root loses exactly the old root. */
  lemma ExtractPerm(s: seq<int>, t: seq<int>, n: int)
    requires 0 < n <= |s| && t == s[0 := s[n - 1]]
    ensures multiset(t[..n - 1]) + multiset{s[0]} == multiset(s[..n])
  {
    if n > 1 {
      assert t[..n - 1] == [s[n - 1]] + s[1..n - 1];
      assert s[..n] == [s[0]] + s[1..n - 1] + [s[n - 1]];
    } else {
      assert s[..n] == [s[0]];
    }
  }

  /**
   * The root of the max-heap `a[..n]` without removing it (source `getMax`): the
   * largest value of the heap, or -1 when the heap is empty.
   */
  function GetMax(a: array<int>, n: int): (r: int)
    requires 0 <= n <= a.Length
    reads a
    ensures n == 0 ==> r == -1
    ensures n > 0 && Heap(Max, a[..], n) ==> forall k :: 0 <= k < n ==> a[k] <= r
    ensures n > 0 ==> r in a[..n]
  {
    if n == 0 then -1
    else
      RootAboveIfHeap(Max, a[..], n);
      a[0]
  }

  /** `RootAboveAll`, stated for any sequence: when it is a heap, its root may sit above all. */
  lemma RootAboveIfHeap(o: Order, s: seq<int>, n: int)
    requires 0 < n <= |s|
    ensures Heap(o, s, n) ==> forall k :: 0 <= k < n ==> Above(o, s[0], s[k])
  {
    if Heap(o, s, n) {
      RootAboveAll(o, s, n);
    }
  }

  /** C integer division, which truncates toward zero (`d > 0`). */
  function CDiv(x: int, d: int): (r: int)
    requires d > 0
    ensures x >= 0 ==> r == x / d
    ensures x < 0 ==> r == -((-x) / d)
  {
    if x >= 0 then x / d else -((-x) / d)
  }

  /**
   * The heap check exactly as the source writes it (source `isHeap`): for every `i` up
   * to `(n - 2) / 2` in C division, the left child `2i + 1` is compared with no bound
   * check. For `n == 1` the C quotient is 0, so `a[1]`, outside the heap, is read; the
   * model needs that cell to exist.
   */
  method IsHeapAsWritten(a: array<int>, n: int) returns (r: bool)
    requires 0 <= n <= a.Length && (n == 1 ==> a.Length >= 2)
    ensures n != 1 ==> (r <==> Heap(Max, a[..], n))
    ensures n == 1 ==> (r <==> a[0] >= a[1])
  {
    var i := 0;
    while i <= CDiv(n - 2, 2)
      invariant 0 <= i && (n != 1 ==> i <= n / 2) && (n == 1 ==> i <= 1)
      invariant n != 1 ==> forall k :: 0 <= k < i ==> NodeOk(Max, a[..], n, k)
      invariant n == 1 && i == 1 ==> a[0] >= a[1]
    {
      if a[i] < a[2 * i + 1] {
        assert n != 1 ==> !NodeOk(Max, a[..], n, i);
        return false;
      }
      if 2 * i + 2 < n && a[i] < a[2 * i + 2] {
        assert !NodeOk(Max, a[..], n, i);
        return false;
      }
      i := i + 1;
    }
    return true;
  }

  /** A one-cell array segment is a heap, yet the as-written check rejects it when `a[1]` is larger. */
  method OneCellHeapRejected() returns (r: bool)
    ensures !r && Heap(Max, [5, 9], 1)
  {
    var a := new int[] [5, 9];
    r := IsHeapAsWritten(a, 1);
  }

  /**
   * The heap check with the left child bounds-checked as well, which is what the source
   * evidently intends: it answers whether `a[..n]` is a max-heap for every `n`.
   */
  method IsHeap(a: array<int>, n: int) returns (r: bool)
    requires 0 <= n <= a.Length
    ensures r <==> Heap(Max, a[..], n)
  {
    var i := 0;
    while i <= CDiv(n - 2, 2)
      invariant 0 <= i <= n
      invariant forall k :: 0 <= k < i ==> NodeOk(Max, a[..], n, k)
    {
      if 2 * i + 1 < n && a[i] < a[2 * i + 1] {
        assert !NodeOk(Max, a[..], n, i);
        return false;
      }
      if 2 * i + 2 < n && a[i] < a[2 * i + 2] {
        assert !NodeOk(Max, a[..], n, i);
        return false;
      }
      i := i + 1;
    }
    return true;
  }

  /** The lecture's heap-check run: `{45, 15, 5, 4, 3, 2}` is a valid max-heap. */
  method IsHeapDemo() returns (r: bool)
    ensures r
  {
    var a := new int[] [45, 15, 5, 4, 3, 2];
    r := IsHeap(a, 6);
    assert NodeOk(Max, a[..], 6, 0) && NodeOk(Max, a[..], 6, 1) && NodeOk(Max, a[..], 6, 2);
    assert Heap(Max, a[..], 6);
  }
}
