/** Linear and binary search of the first searching lecture, and its sort-then-search demo. */
module Lecture10Search {
  import opened Ordering
  import Lecture10Sorting

  /** Scans `a[..size]` left to right; the first index holding `target`, or -1 when there is none. */
  method LinearSearch(a: array<int>, size: nat, target: int) returns (r: int)
    requires size <= a.Length
    ensures -1 <= r < size
    ensures r == -1 <==> target !in a[..size]
    ensures r >= 0 ==> a[r] == target && target !in a[..r]
  {
    var i := 0;
    while i < size
      invariant 0 <= i <= size
      invariant target !in a[..i]
    {
      if a[i] == target {
        return i;
      }
      assert a[..i + 1] == a[..i] + [a[i]];
      i := i + 1;
    }
    return -1;
  }

  /**
   * Binary search on the sorted prefix `a[..size]`: an index holding `target`,
   * or -1 exactly when `target` does not occur.
   */
  method BinarySearch(a: array<int>, size: nat, target: int) returns (r: int)
    requires size <= a.Length
    requires Sorted(a[..size])
    ensures -1 <= r < size
    ensures r >= 0 ==> a[r] == target
    ensures r == -1 <==> target !in a[..size]
  {
    var left := 0;
    var right := size - 1;
    while left <= right
      invariant 0 <= left <= right + 1 <= size
      invariant forall k :: 0 <= k < left ==> a[k] < target
      invariant forall k :: right < k < size ==> a[k] > target
    {
      var mid := left + (right - left) / 2;
      if a[mid] == target {
        return mid;
      } else if a[mid] < target {
        forall k | 0 <= k <= mid
          ensures a[k] < target
        {
          assert a[..size][k] <= a[..size][mid];
        }
        left := mid + 1;
      } else {
        forall k | mid <= k < size
          ensures a[k] > target
        {
          assert a[..size][mid] <= a[..size][k];
        }
        right := mid - 1;
      }
    }
    assert forall k :: 0 <= k < size ==> a[..size][k] != target;
    return -1;
  }

  /**
   * The demo's sequence: bubble-sort `a[..size]` in place, then binary-search it.
   * The answer is about the original contents: -1 exactly when `target` was absent.
   */
  method SortThenSearch(a: array<int>, size: nat, target: int) returns (r: int)
    requires size <= a.Length
    modifies a
    ensures Sorted(a[..size]) && multiset(a[..size]) == multiset(old(a[..size]))
    ensures a[size..] == old(a[size..])
    ensures r >= 0 ==> r < size && a[r] == target
    ensures r == -1 <==> target !in old(a[..size])
  {
    Lecture10Sorting.BubbleSort(a, size);
    r := BinarySearch(a, size, target);
    assert target in a[..size] <==> target in multiset(a[..size]);
    assert target in old(a[..size]) <==> target in multiset(old(a[..size]));
  }

  /** The demo array `{12, 45, 23, 67, 89, 34, 56, 78}`: 67 is at index 3 and 100 is absent. */
  method LinearSearchDemo() returns (found: int, missing: int)
    ensures found == 3 && missing == -1
  {
    var a := new int[8] [12, 45, 23, 67, 89, 34, 56, 78];
    assert a[..8] == a[..] == [12, 45, 23, 67, 89, 34, 56, 78];
    found := LinearSearch(a, 8, 67);
    assert forall k :: 0 <= k < 8 && a[k] == 67 ==> k == 3;
    assert a[..3] == [12, 45, 23];
    missing := LinearSearch(a, 8, 100);
  }
}
