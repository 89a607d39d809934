/**
 * The booking manager's two sorts: a Lomuto quicksort of flights by base fare, and a stable
 * top-down merge sort of bookings by total price. Both work in place on an array of references.
 */
module FlightSorting {
  import opened Flights
  import opened Ordering

  // ---------------------------------------------------------------------------------------------
  // Shared facts about sequences
  // ---------------------------------------------------------------------------------------------

  /** Exchanging two cells keeps the multiset. */
  lemma SwapPerm<T>(s: seq<T>, i: int, j: int)
    requires 0 <= i < |s| && 0 <= j < |s|
    ensures multiset(s[i := s[j]][j := s[i]]) == multiset(s)
  {
  }

  /** When only `s[lo..hi]` changed and the whole keeps its multiset, so does the slice. */
  lemma SliceMultiset<T>(s: seq<T>, t: seq<T>, lo: int, hi: int)
    requires |s| == |t| && 0 <= lo <= hi <= |s|
    requires forall p :: 0 <= p < lo || hi <= p < |s| ==> t[p] == s[p]
    requires multiset(t) == multiset(s)
    ensures multiset(t[lo..hi]) == multiset(s[lo..hi])
  {
    SplitThree(s, lo, hi);
    SplitThree(t, lo, hi);
    assert t[..lo] == s[..lo] && t[hi..] == s[hi..];
    forall x ensures multiset(t[lo..hi])[x] == multiset(s[lo..hi])[x] {
      assert multiset(t)[x] == multiset(s)[x];
    }
  }

  /** A sequence's values are those of its three parts cut at `lo` and `hi`. */
  lemma SplitThree<T>(s: seq<T>, lo: int, hi: int)
    requires 0 <= lo <= hi <= |s|
    ensures multiset(s) == multiset(s[..lo]) + multiset(s[lo..hi]) + multiset(s[hi..])
  {
    assert s == s[..lo] + s[lo..hi] + s[hi..];
  }

  /** The values of `s[lo..hi]` are those of `s[lo..mid]` and `s[mid..hi]`. */
  lemma SliceSplit<T>(s: seq<T>, lo: int, mid: int, hi: int)
    requires 0 <= lo <= mid <= hi <= |s|
    ensures multiset(s[lo..hi]) == multiset(s[lo..mid]) + multiset(s[mid..hi])
  {
    assert s[lo..hi] == s[lo..mid] + s[mid..hi];
  }

  /** `t` is `s` with the cells from `lo` on replaced by `m`. */
  ghost predicate Spliced<T>(s: seq<T>, t: seq<T>, lo: int, m: seq<T>)
  {
    && |t| == |s| && 0 <= lo && lo + |m| <= |s|
    && (forall p :: 0 <= p < lo ==> t[p] == s[p])
    && (forall p :: lo <= p < lo + |m| ==> t[p] == m[p - lo])
    && (forall p :: lo + |m| <= p < |s| ==> t[p] == s[p])
  }

  // ---------------------------------------------------------------------------------------------
  // Quicksort of flights by base fare
  // ---------------------------------------------------------------------------------------------

  /** Base fares never decrease along `s`. */
  ghost predicate PriceSorted(s: seq<Flight>)
  {
    forall i, j :: 0 <= i < j < |s| ==> s[i].Price() <= s[j].Price()
  }

  /** Base fares never decrease along `s[lo..hi]`. */
  ghost predicate SortedRange(s: seq<Flight>, lo: int, hi: int)
  {
    forall i, j :: lo <= i < j < hi && 0 <= i && j < |s| ==> s[i].Price() <= s[j].Price()
  }

  /** `t` is `s` with the flights of `s[lo..hi]` possibly reordered, and nothing else moved. */
  ghost predicate Permuted(s: seq<Flight>, t: seq<Flight>, lo: int, hi: int)
  {
    && |t| == |s| && 0 <= lo <= hi <= |s|
    && (forall p :: 0 <= p < lo || hi <= p < |s| ==> t[p] == s[p])
    && multiset(t[lo..hi]) == multiset(s[lo..hi])
  }

  /** `t` is `s` with `s[lo..hi]` sorted by fare. */
  ghost predicate SortedSlice(s: seq<Flight>, t: seq<Flight>, lo: int, hi: int)
  {
    Permuted(s, t, lo, hi) && SortedRange(t, lo, hi)
  }

  /** In `t[lo..hi]`, the flight at `p` is the pivot: no dearer flight before it, no cheaper or equal one after. */
  ghost predicate PivotPlaced(t: seq<Flight>, lo: int, p: int, hi: int)
  {
    && 0 <= lo <= p < hi <= |t|
    && (forall k :: lo <= k < p ==> t[k].Price() <= t[p].Price())
    && (forall k :: p < k < hi ==> t[k].Price() > t[p].Price())
  }

  /**
   * `t` is `s` with `s[lo..hi]` partitioned around its last flight, which now sits at `p`:
   * fares at most the pivot's before it, greater ones after it.
   */
  ghost predicate Partitioned(s: seq<Flight>, t: seq<Flight>, lo: int, p: int, hi: int)
  {
    Permuted(s, t, lo, hi) && PivotPlaced(t, lo, p, hi) && t[p] == s[hi - 1]
  }

  /** Exchanges two cells of a flight array. */
  method SwapFlights(a: array<Flight>, i: int, j: int)
    requires 0 <= i < a.Length && 0 <= j < a.Length
    modifies a
    ensures a[i] == old(a[j]) && a[j] == old(a[i])
    ensures forall k :: 0 <= k < a.Length && k != i && k != j ==> a[k] == old(a[k])
    ensures multiset(a[..]) == multiset(old(a[..]))
  {
    ghost var s := a[..];
    a[i], a[j] := a[j], a[i];
    SwapPerm(s, i, j);
    assert a[..] == s[i := s[j]][j := s[i]];
  }

  /**
   * Lomuto partition of `a[low..high]` (inclusive bounds) around the fare of `a[high]`;
   * returns the pivot's final index.
   */
  method Partition(a: array<Flight>, low: int, high: int) returns (pi: int)
    requires 0 <= low < high < a.Length
    modifies a
    ensures Partitioned(old(a[..]), a[..], low, pi, high + 1)
  {
    ghost var s := a[..];
    var i := PartitionScan(a, low, high);
    SwapFlights(a, i + 1, high);
    SliceMultiset(s, a[..], low, high + 1);
    pi := i + 1;
  }

  /**
   * The scan of the partition: moves every flight with fare at most the pivot's to the
   * front of `a[low..high)`, and returns the index of the last one moved (`low - 1` if none).
   */
  method PartitionScan(a: array<Flight>, low: int, high: int) returns (i: int)
    requires 0 <= low < high < a.Length
    modifies a
    ensures low - 1 <= i < high && a[high] == old(a[high])
    ensures forall k :: 0 <= k < low || high <= k < a.Length ==> a[k] == old(a[k])
    ensures forall k :: low <= k <= i ==> a[k].Price() <= a[high].Price()
    ensures forall k :: i < k < high ==> a[k].Price() > a[high].Price()
    ensures multiset(a[..]) == multiset(old(a[..]))
  {
    var pivot := a[high].Price();
    i := low - 1;
    for j := low to high
      invariant low - 1 <= i < j
      invariant a[high] == old(a[high])
      invariant forall k :: 0 <= k < low || high <= k < a.Length ==> a[k] == old(a[k])
      invariant forall k :: low <= k <= i ==> a[k].Price() <= pivot
      invariant forall k :: i < k < j ==> a[k].Price() > pivot
      invariant multiset(a[..]) == multiset(old(a[..]))
    {
      if a[j].Price() <= pivot {
        i := i + 1;
        SwapFlights(a, i, j);
      }
    }
  }

  /** Recursive quicksort of `a[low..high]` (inclusive bounds) by base fare. */
  method QuickSort(a: array<Flight>, low: int, high: int)
    requires 0 <= low <= high + 1 <= a.Length
    modifies a
    ensures SortedSlice(old(a[..]), a[..], low, high + 1)
    decreases high - low, 1
  {
    if low < high {
      ghost var s0 := a[..];
      var pi := Partition(a, low, high);
      ghost var s1 := a[..];
      SortSides(a, low, pi, high);
      PermutedThenSorted(s0, s1, a[..], low, high + 1);
    } else {
      ShortSliceSorted(a[..], low, high + 1);
    }
  }

  /** The two recursive calls of the quicksort, on each side of the pivot at `pi`. */
  method SortSides(a: array<Flight>, low: int, pi: int, high: int)
    requires 0 <= low <= pi <= high < a.Length
    requires PivotPlaced(a[..], low, pi, high + 1)
    modifies a
    ensures SortedSlice(old(a[..]), a[..], low, high + 1)
    decreases high - low, 0
  {
    ghost var s1 := a[..];
    QuickSort(a, low, pi - 1);
    ghost var s2 := a[..];
    QuickSort(a, pi + 1, high);
    QuickSortStep(s1, s2, a[..], low, pi, high + 1);
  }

  /** A slice of at most one flight is already sorted in place. */
  lemma ShortSliceSorted(s: seq<Flight>, lo: int, hi: int)
    requires 0 <= lo <= hi <= |s| && hi - lo <= 1
    ensures SortedSlice(s, s, lo, hi)
  {
  }

  /** Reordering a slice, then sorting it, sorts the original slice. */
  lemma PermutedThenSorted(s0: seq<Flight>, s1: seq<Flight>, s2: seq<Flight>, lo: int, hi: int)
    ensures Permuted(s0, s1, lo, hi) && SortedSlice(s1, s2, lo, hi) ==> SortedSlice(s0, s2, lo, hi)
  {
  }

  /**
   * With the pivot in place, sorting both sides of it sorts the whole slice. (Stated as an
   * implication so that a caller need not re-establish each conjunct of the hypotheses.)
   */
  lemma QuickSortStep(s1: seq<Flight>, s2: seq<Flight>, s3: seq<Flight>, lo: int, p: int, hi: int)
    ensures PivotPlaced(s1, lo, p, hi) && SortedSlice(s1, s2, lo, p) && SortedSlice(s2, s3, p + 1, hi)
            ==> SortedSlice(s1, s3, lo, hi)
  {
    if PivotPlaced(s1, lo, p, hi) && SortedSlice(s1, s2, lo, p) && SortedSlice(s2, s3, p + 1, hi) {
      var v := s1[p].Price();
      BoundedBelow(s1, s2, lo, p, v);
      assert s2[p + 1..hi] == s1[p + 1..hi];
      BoundedAbove(s1, s3, p + 1, hi, v);
      SortedAroundPivot(s3, lo, p, hi, v);
      PivotPerm(s1, s2, s3, lo, p, hi);
    }
  }

  /** Reordering a run of fares at most `v` keeps it at most `v`. */
  lemma BoundedBelow(s: seq<Flight>, t: seq<Flight>, lo: int, hi: int, v: real)
    requires 0 <= lo <= hi <= |s| && hi <= |t|
    requires multiset(t[lo..hi]) == multiset(s[lo..hi])
    requires forall k :: lo <= k < hi ==> s[k].Price() <= v
    ensures forall k :: lo <= k < hi ==> t[k].Price() <= v
  {
    forall k | lo <= k < hi ensures t[k].Price() <= v {
      assert t[k] == t[lo..hi][k - lo];
      assert t[k] in multiset(s[lo..hi]);
      var i :| 0 <= i < hi - lo && s[lo..hi][i] == t[k];
      assert s[lo + i] == t[k];
    }
  }

  /** Reordering a run of fares above `v` keeps it above `v`. */
  lemma BoundedAbove(s: seq<Flight>, t: seq<Flight>, lo: int, hi: int, v: real)
    requires 0 <= lo <= hi <= |s| && hi <= |t|
    requires multiset(t[lo..hi]) == multiset(s[lo..hi])
    requires forall k :: lo <= k < hi ==> s[k].Price() > v
    ensures forall k :: lo <= k < hi ==> t[k].Price() > v
  {
    forall k | lo <= k < hi ensures t[k].Price() > v {
      assert t[k] == t[lo..hi][k - lo];
      assert t[k] in multiset(s[lo..hi]);
      var i :| 0 <= i < hi - lo && s[lo..hi][i] == t[k];
      assert s[lo + i] == t[k];
    }
  }

  /** A sorted run of fares at most `v`, the pivot of fare `v`, then a sorted run above `v`, are sorted. */
  lemma SortedAroundPivot(t: seq<Flight>, lo: int, p: int, hi: int, v: real)
    requires 0 <= lo <= p < hi <= |t| && t[p].Price() == v
    requires SortedRange(t, lo, p) && SortedRange(t, p + 1, hi)
    requires forall k :: lo <= k < p ==> t[k].Price() <= v
    requires forall k :: p < k < hi ==> t[k].Price() > v
    ensures SortedRange(t, lo, hi)
  {
  }

  /** The three sorting steps keep the flights of the slice. */
  lemma PivotPerm(s1: seq<Flight>, s2: seq<Flight>, s3: seq<Flight>, lo: int, p: int, hi: int)
    requires 0 <= lo <= p < hi <= |s1| == |s2| == |s3|
    requires forall k :: 0 <= k < lo || p <= k < |s1| ==> s2[k] == s1[k]
    requires forall k :: 0 <= k < p + 1 || hi <= k < |s2| ==> s3[k] == s2[k]
    requires multiset(s2[lo..p]) == multiset(s1[lo..p])
    requires multiset(s3[p + 1..hi]) == multiset(s2[p + 1..hi])
    ensures multiset(s3[lo..hi]) == multiset(s1[lo..hi])
  {
    assert s1[lo..hi] == s1[lo..p] + [s1[p]] + s1[p + 1..hi];
    assert s3[lo..hi] == s3[lo..p] + [s3[p]] + s3[p + 1..hi];
    assert s3[lo..p] == s2[lo..p];
    assert s2[p + 1..hi] == s1[p + 1..hi];
  }

  /** Sorts a whole flight list by base fare (`quickSort(list, 0, size - 1)`). */
  method SortFlightsByPrice(a: array<Flight>)
    modifies a
    ensures PriceSorted(a[..])
    ensures multiset(a[..]) == multiset(old(a[..]))
  {
    QuickSort(a, 0, a.Length - 1);
    assert a[0..a.Length] == a[..];
    assert old(a[..])[0..a.Length] == old(a[..]);
    assert SortedRange(a[..], 0, a.Length);
  }

  // ---------------------------------------------------------------------------------------------
  // Stable merge sort of bookings by total price
  // ---------------------------------------------------------------------------------------------

  /** Total prices never decrease along `s`. */
  ghost predicate FareSorted(s: seq<Booking>)
  {
    forall i, j :: 0 <= i < j < |s| ==> s[i].TotalPrice() <= s[j].TotalPrice()
  }

  /** The bookings of `s` whose total price is `p`, in their order in `s`. */
  function WithPrice(s: seq<Booking>, p: real): (r: seq<Booking>)
    ensures |r| <= |s|
  {
    if s == [] then []
    else (if s[0].TotalPrice() == p then [s[0]] else []) + WithPrice(s[1..], p)
  }

  /**
   * `t` is a stable sort of `s`: sorted by price, and for every price the bookings of that
   * price appear in `t` in the same order as in `s`.
   */
  ghost predicate StableSortOf(s: seq<Booking>, t: seq<Booking>)
  {
    FareSorted(t) && forall p :: WithPrice(t, p) == WithPrice(s, p)
  }

  /** Filtering distributes over concatenation. */
  lemma {:induction false} WithPriceAppend(a: seq<Booking>, b: seq<Booking>, p: real)
    ensures WithPrice(a + b, p) == WithPrice(a, p) + WithPrice(b, p)
  {
    if a == [] {
      assert a + b == b;
    } else {
      var head := if a[0].TotalPrice() == p then [a[0]] else [];
      assert (a + b)[0] == a[0] && (a + b)[1..] == a[1..] + b;
      assert WithPrice(a + b, p) == head + WithPrice(a[1..] + b, p);
      WithPriceAppend(a[1..], b, p);
      assert WithPrice(a, p) == head + WithPrice(a[1..], p);
    }
  }

  /** No booking of price `p`, nothing in the filter. */
  lemma {:induction false} WithPriceNone(s: seq<Booking>, p: real)
    requires forall k :: 0 <= k < |s| ==> s[k].TotalPrice() != p
    ensures WithPrice(s, p) == []
  {
    if s != [] {
      WithPriceNone(s[1..], p);
    }
  }

  /** A booking occurs in `s` as often as in the bookings of its own price. */
  lemma {:induction false} WithPriceCount(s: seq<Booking>, b: Booking)
    ensures multiset(WithPrice(s, b.TotalPrice()))[b] == multiset(s)[b]
  {
    if s != [] {
      WithPriceCount(s[1..], b);
      assert s == [s[0]] + s[1..];
    }
  }

  /** A stable sort is a permutation. */
  lemma StablePerm(s: seq<Booking>, t: seq<Booking>)
    requires forall p :: WithPrice(t, p) == WithPrice(s, p)
    ensures multiset(t) == multiset(s)
  {
    forall b ensures multiset(t)[b] == multiset(s)[b] {
      WithPriceCount(s, b);
      WithPriceCount(t, b);
    }
  }

  /**
   * The merge of two runs: repeatedly take the cheaper head, the head of the left run on a
   * tie (`<=`).
   */
  function Merged(xs: seq<Booking>, ys: seq<Booking>): (r: seq<Booking>)
    ensures |r| == |xs| + |ys|
    decreases |xs| + |ys|
  {
    if xs == [] then ys
    else if ys == [] then xs
    else if xs[0].TotalPrice() <= ys[0].TotalPrice() then [xs[0]] + Merged(xs[1..], ys)
    else [ys[0]] + Merged(xs, ys[1..])
  }

  /** The first booking of a merge is the head of one of its inputs. */
  lemma MergedHead(xs: seq<Booking>, ys: seq<Booking>)
    requires xs != [] || ys != []
    ensures xs != [] && (ys == [] || xs[0].TotalPrice() <= ys[0].TotalPrice()) ==> Merged(xs, ys)[0] == xs[0]
    ensures ys != [] && (xs == [] || xs[0].TotalPrice() > ys[0].TotalPrice()) ==> Merged(xs, ys)[0] == ys[0]
  {
  }

  /** Merging two runs sorted by price gives a sorted run. */
  lemma {:induction false} MergedSorted(xs: seq<Booking>, ys: seq<Booking>)
    requires FareSorted(xs) && FareSorted(ys)
    ensures FareSorted(Merged(xs, ys))
    decreases |xs| + |ys|
  {
    if xs != [] && ys != [] {
      if xs[0].TotalPrice() <= ys[0].TotalPrice() {
        MergedSorted(xs[1..], ys);
        var rest := Merged(xs[1..], ys);
        if rest != [] {
          MergedHead(xs[1..], ys);
        }
        HeadThenSorted(xs[0], rest);
      } else {
        MergedSorted(xs, ys[1..]);
        var rest := Merged(xs, ys[1..]);
        MergedHead(xs, ys[1..]);
        HeadThenSorted(ys[0], rest);
      }
    }
  }

  /** A booking no dearer than the first of a sorted run can go in front of it. */
  lemma HeadThenSorted(x: Booking, s: seq<Booking>)
    requires FareSorted(s) && (s != [] ==> x.TotalPrice() <= s[0].TotalPrice())
    ensures FareSorted([x] + s)
  {
  }

  /**
   * Merging keeps the relative order of equal-price bookings, those of the left run first:
   * a right booking only goes ahead while the left head is dearer, and then so is every
   * booking left in the sorted left run.
   */
  lemma {:induction false} MergedStable(xs: seq<Booking>, ys: seq<Booking>, p: real)
    requires FareSorted(xs)
    ensures WithPrice(Merged(xs, ys), p) == WithPrice(xs, p) + WithPrice(ys, p)
    decreases |xs| + |ys|
  {
    if xs == [] {
    } else if ys == [] {
    } else if xs[0].TotalPrice() <= ys[0].TotalPrice() {
      MergedStable(xs[1..], ys, p);
      StableLeftStep(xs, ys, p);
    } else {
      MergedStable(xs, ys[1..], p);
      StableRightStep(xs, ys, p);
    }
  }

  /** When the merge takes the left head, the filtered merge keeps its shape. */
  lemma StableLeftStep(xs: seq<Booking>, ys: seq<Booking>, p: real)
    requires xs != [] && ys != [] && xs[0].TotalPrice() <= ys[0].TotalPrice()
    requires WithPrice(Merged(xs[1..], ys), p) == WithPrice(xs[1..], p) + WithPrice(ys, p)
    ensures WithPrice(Merged(xs, ys), p) == WithPrice(xs, p) + WithPrice(ys, p)
  {
    var m, h := Merged(xs, ys), if xs[0].TotalPrice() == p then [xs[0]] else [];
    assert m[0] == xs[0] && m[1..] == Merged(xs[1..], ys);
    assert WithPrice(m, p) == h + WithPrice(m[1..], p);
    assert WithPrice(xs, p) == h + WithPrice(xs[1..], p);
    AppendAssoc(h, WithPrice(xs[1..], p), WithPrice(ys, p));
  }

  /** When the merge takes the right head, every left booking is dearer, so none of them precedes it in the filter. */
  lemma StableRightStep(xs: seq<Booking>, ys: seq<Booking>, p: real)
    requires FareSorted(xs) && xs != [] && ys != [] && xs[0].TotalPrice() > ys[0].TotalPrice()
    requires WithPrice(Merged(xs, ys[1..]), p) == WithPrice(xs, p) + WithPrice(ys[1..], p)
    ensures WithPrice(Merged(xs, ys), p) == WithPrice(xs, p) + WithPrice(ys, p)
  {
    var m, h := Merged(xs, ys), if ys[0].TotalPrice() == p then [ys[0]] else [];
    assert m[0] == ys[0] && m[1..] == Merged(xs, ys[1..]);
    assert WithPrice(m, p) == h + WithPrice(m[1..], p);
    assert WithPrice(ys, p) == h + WithPrice(ys[1..], p);
    if ys[0].TotalPrice() == p {
      forall k | 0 <= k < |xs| ensures xs[k].TotalPrice() != p {
        assert xs[0].TotalPrice() <= xs[k].TotalPrice();
      }
      WithPriceNone(xs, p);
      assert [] + WithPrice(ys[1..], p) == WithPrice(ys[1..], p);
    } else {
      assert h == [] && [] + WithPrice(m[1..], p) == WithPrice(m[1..], p);
      assert [] + WithPrice(ys[1..], p) == WithPrice(ys[1..], p);
    }
  }

  /**
   * After taking `i` bookings of `xs` and `j` of `ys`, the rest of `m` from `i + j` on is
   * what the merge loops write: the cheaper head (the left one on a tie) and so on, then
   * what is left of the other run once one is used up.
   */
  ghost predicate MergeAt(xs: seq<Booking>, ys: seq<Booking>, i: int, j: int, m: seq<Booking>)
    decreases |xs| - i + |ys| - j
  {
    && 0 <= i <= |xs| && 0 <= j <= |ys| && i + j <= |m|
    && if i == |xs| && j == |ys| then i + j == |m|
       else if j == |ys| || (i < |xs| && xs[i].TotalPrice() <= ys[j].TotalPrice()) then
         i + j < |m| && m[i + j] == xs[i] && MergeAt(xs, ys, i + 1, j, m)
       else
         i + j < |m| && m[i + j] == ys[j] && MergeAt(xs, ys, i, j + 1, m)
  }

  /** If `m[i + j..]` is the merge of the rests, the merge loops write `m` from `(i, j)` on. */
  lemma {:induction false} MergedIsMergeAt(xs: seq<Booking>, ys: seq<Booking>, i: int, j: int, m: seq<Booking>)
    requires 0 <= i <= |xs| && 0 <= j <= |ys| && i + j <= |m|
    requires Merged(xs[i..], ys[j..]) == m[i + j..]
    ensures MergeAt(xs, ys, i, j, m)
    decreases |xs| - i + |ys| - j
  {
    if i < |xs| || j < |ys| {
      assert m[i + j..][1..] == m[i + j + 1..];
      if j == |ys| || (i < |xs| && xs[i].TotalPrice() <= ys[j].TotalPrice()) {
        assert xs[i..][1..] == xs[i + 1..];
        assert Merged(xs[i..], ys[j..]) == [xs[i]] + Merged(xs[i + 1..], ys[j..]);
        MergedIsMergeAt(xs, ys, i + 1, j, m);
      } else {
        assert ys[j..][1..] == ys[j + 1..];
        assert Merged(xs[i..], ys[j..]) == [ys[j]] + Merged(xs[i..], ys[j + 1..]);
        MergedIsMergeAt(xs, ys, i, j + 1, m);
      }
    }
  }

  /** The merge loops start in the state `MergeAt(xs, ys, 0, 0, Merged(xs, ys))`. */
  lemma MergeStart(xs: seq<Booking>, ys: seq<Booking>)
    ensures MergeAt(xs, ys, 0, 0, Merged(xs, ys))
  {
    assert xs[0..] == xs && ys[0..] == ys;
    MergedIsMergeAt(xs, ys, 0, 0, Merged(xs, ys));
  }

  /**
   * Merges the adjacent runs `a[left..mid]` and `a[mid+1..right]` (inclusive bounds) through
   * two temporary arrays; cells outside `[left, right]` are untouched.
   */
  method Merge(a: array<Booking>, left: int, mid: int, right: int)
    requires 0 <= left <= mid < right < a.Length
    modifies a
    ensures Spliced(old(a[..]), a[..], left, Merged(old(a[left..mid + 1]), old(a[mid + 1..right + 1])))
  {
    ghost var orig := a[..];
    var n1 := mid - left + 1;
    var n2 := right - mid;
    var first, last := a[left], a[right];
    var leftArr := new Booking[n1](_ => first);
    var rightArr := new Booking[n2](_ => last);
    for i := 0 to n1
      modifies leftArr
      invariant forall p :: 0 <= p < i ==> leftArr[p] == a[left + p]
    {
      leftArr[i] := a[left + i];
    }
    for j := 0 to n2
      modifies rightArr
      invariant forall p :: 0 <= p < j ==> rightArr[p] == a[mid + 1 + p]
    {
      rightArr[j] := a[mid + 1 + j];
    }
    assert a[..] == orig;
    assert leftArr[..] == orig[left..mid + 1];
    assert rightArr[..] == orig[mid + 1..right + 1];
    MergeRuns(a, leftArr, n1, rightArr, n2, left);
    assert leftArr[..n1] == orig[left..mid + 1];
    assert rightArr[..n2] == orig[mid + 1..right + 1];
  }

  /** Writes `Merged(xs[..n1], ys[..n2])` into `a` from `left` on: the main merge loop. */
  method MergeRuns(a: array<Booking>, xs: array<Booking>, n1: int, ys: array<Booking>, n2: int, left: int)
    requires a != xs && a != ys
    requires 0 <= n1 <= xs.Length && 0 <= n2 <= ys.Length
    requires 0 <= left && left + n1 + n2 <= a.Length
    modifies a
    ensures Spliced(old(a[..]), a[..], left, Merged(xs[..n1], ys[..n2]))
  {
    ghost var xs0, ys0 := xs[..n1], ys[..n2];
    ghost var m := Merged(xs0, ys0);
    MergeStart(xs0, ys0);
    var i, j, k := 0, 0, left;
    while i < n1 && j < n2
      invariant 0 <= i <= n1 && 0 <= j <= n2 && k == left + i + j
      invariant MergeAt(xs0, ys0, i, j, m)
      invariant forall p :: left <= p < k ==> a[p] == m[p - left]
      invariant forall p :: 0 <= p < left || k <= p < a.Length ==> a[p] == old(a[p])
    {
      if xs[i].TotalPrice() <= ys[j].TotalPrice() {
        a[k] := xs[i];
        i := i + 1;
      } else {
        a[k] := ys[j];
        j := j + 1;
      }
      k := k + 1;
    }
    MergeTails(a, xs, n1, ys, n2, left, i, j);
  }

  /** The two copy loops that finish the merge once one run is used up. */
  method MergeTails(a: array<Booking>, xs: array<Booking>, n1: int, ys: array<Booking>, n2: int, left: int, i0: int, j0: int)
    requires a != xs && a != ys
    requires 0 <= n1 <= xs.Length && 0 <= n2 <= ys.Length
    requires 0 <= left && left + n1 + n2 <= a.Length
    requires 0 <= i0 <= n1 && 0 <= j0 <= n2 && (i0 == n1 || j0 == n2)
    requires MergeAt(xs[..n1], ys[..n2], i0, j0, Merged(xs[..n1], ys[..n2]))
    requires forall p :: left <= p < left + i0 + j0 ==> a[p] == Merged(xs[..n1], ys[..n2])[p - left]
    modifies a
    ensures forall p :: left <= p < left + n1 + n2 ==> a[p] == Merged(xs[..n1], ys[..n2])[p - left]
    ensures forall p :: 0 <= p < left + i0 + j0 || left + n1 + n2 <= p < a.Length ==> a[p] == old(a[p])
  {
    ghost var xs0, ys0 := xs[..n1], ys[..n2];
    ghost var m := Merged(xs0, ys0);
    var i, j, k := i0, j0, left + i0 + j0;
    while i < n1
      invariant 0 <= i <= n1 && 0 <= j <= n2 && (i < n1 ==> j == n2) && k == left + i + j
      invariant MergeAt(xs0, ys0, i, j, m)
      invariant forall p :: left <= p < k ==> a[p] == m[p - left]
      invariant forall p :: 0 <= p < left + i0 + j0 || k <= p < a.Length ==> a[p] == old(a[p])
    {
      a[k] := xs[i];
      i := i + 1;
      k := k + 1;
    }
    while j < n2
      invariant i == n1 && 0 <= j <= n2 && k == left + i + j
      invariant MergeAt(xs0, ys0, i, j, m)
      invariant forall p :: left <= p < k ==> a[p] == m[p - left]
      invariant forall p :: 0 <= p < left + i0 + j0 || k <= p < a.Length ==> a[p] == old(a[p])
    {
      a[k] := ys[j];
      j := j + 1;
      k := k + 1;
    }
  }

  /** `t` is `s` with `s[lo..hi]` stably sorted by price, every other cell unchanged. */
  ghost predicate StableSlice(s: seq<Booking>, t: seq<Booking>, lo: int, hi: int)
  {
    && |t| == |s| && 0 <= lo <= hi <= |s|
    && (forall k :: 0 <= k < lo || hi <= k < |s| ==> t[k] == s[k])
    && StableSortOf(s[lo..hi], t[lo..hi])
  }

  /** Recursive merge sort of `a[left..right]` (inclusive bounds): sort each half, then merge. */
  method MergeSort(a: array<Booking>, left: int, right: int)
    requires 0 <= left <= right + 1 <= a.Length
    modifies a
    ensures StableSlice(old(a[..]), a[..], left, right + 1)
    decreases right - left, 1
  {
    if left < right {
      var mid := left + (right - left) / 2;
      ghost var s0 := a[..];
      SortHalves(a, left, mid, right);
      ghost var s2 := a[..];
      Merge(a, left, mid, right);
      MergeSortStep(s0, s2, a[..], left, mid + 1, right + 1);
    } else {
      ShortSliceStable(a[..], left, right + 1);
    }
  }

  /** The two recursive calls of the merge sort, on `a[left..mid]` and `a[mid+1..right]`. */
  method SortHalves(a: array<Booking>, left: int, mid: int, right: int)
    requires 0 <= left <= mid < right < a.Length
    modifies a
    ensures HalvesSorted(old(a[..]), a[..], left, mid + 1, right + 1)
    decreases right - left, 0
  {
    ghost var s0 := a[..];
    MergeSort(a, left, mid);
    ghost var s1 := a[..];
    MergeSort(a, mid + 1, right);
    HalvesStep(s0, s1, a[..], left, mid + 1, right + 1);
  }

  /** A slice of at most one booking is already stably sorted in place. */
  lemma ShortSliceStable(s: seq<Booking>, lo: int, hi: int)
    requires 0 <= lo <= hi <= |s| && hi - lo <= 1
    ensures StableSlice(s, s, lo, hi)
  {
  }

  /** `t` is `s` with `s[lo..mid]` and `s[mid..hi]` each stably sorted, every other cell unchanged. */
  ghost predicate HalvesSorted(s: seq<Booking>, t: seq<Booking>, lo: int, mid: int, hi: int)
  {
    && |t| == |s| && 0 <= lo <= mid <= hi <= |s|
    && (forall k :: 0 <= k < lo || hi <= k < |s| ==> t[k] == s[k])
    && StableSortOf(s[lo..mid], t[lo..mid])
    && StableSortOf(s[mid..hi], t[mid..hi])
  }

  /** Sorting one half, then the other, leaves both sorted. */
  lemma HalvesStep(s0: seq<Booking>, s1: seq<Booking>, s2: seq<Booking>, lo: int, mid: int, hi: int)
    ensures StableSlice(s0, s1, lo, mid) && StableSlice(s1, s2, mid, hi) ==> HalvesSorted(s0, s2, lo, mid, hi)
  {
    if StableSlice(s0, s1, lo, mid) && StableSlice(s1, s2, mid, hi) {
      assert s2[lo..mid] == s1[lo..mid];
      assert s1[mid..hi] == s0[mid..hi];
    }
  }

  /**
   * With both halves stably sorted, splicing in the merge of the two runs stably sorts
   * `[lo, hi)`. (Stated as an implication so that a caller need not re-establish each
   * conjunct of the hypotheses.)
   */
  lemma MergeSortStep(s0: seq<Booking>, s2: seq<Booking>, s3: seq<Booking>, lo: int, mid: int, hi: int)
    ensures HalvesSorted(s0, s2, lo, mid, hi) && Spliced(s2, s3, lo, Merged(s2[lo..mid], s2[mid..hi]))
            ==> StableSlice(s0, s3, lo, hi)
  {
    if HalvesSorted(s0, s2, lo, mid, hi) && Spliced(s2, s3, lo, Merged(s2[lo..mid], s2[mid..hi])) {
      assert s3[lo..hi] == Merged(s2[lo..mid], s2[mid..hi]);
      MergedSorted(s2[lo..mid], s2[mid..hi]);
      forall p ensures WithPrice(s3[lo..hi], p) == WithPrice(s0[lo..hi], p) {
        MergeStepStable(s0, s2, lo, mid, hi, p);
      }
    }
  }

  /** The price-`p` bookings of the merged slice are those of the original slice, in order. */
  lemma MergeStepStable(s0: seq<Booking>, s2: seq<Booking>, lo: int, mid: int, hi: int, p: real)
    requires HalvesSorted(s0, s2, lo, mid, hi)
    ensures WithPrice(Merged(s2[lo..mid], s2[mid..hi]), p) == WithPrice(s0[lo..hi], p)
  {
    MergedStable(s2[lo..mid], s2[mid..hi], p);
    assert s0[lo..hi] == s0[lo..mid] + s0[mid..hi];
    WithPriceAppend(s0[lo..mid], s0[mid..hi], p);
  }

  /** Stably sorts a whole booking array by total price (`mergeSort(bookings, 0, size - 1)`). */
  method SortBookings(a: array<Booking>)
    modifies a
    ensures StableSortOf(old(a[..]), a[..])
  {
    MergeSort(a, 0, a.Length - 1);
    assert a[0..a.Length] == a[..];
    assert old(a[..])[0..a.Length] == old(a[..]);
  }
}
