/** Binary search variants of the second searching lecture, on a sorted prefix `a[..size]`. */
module Lecture11Search {
  import opened Ordering

  /** Iterative binary search: an index holding `target`, or -1 exactly when it does not occur. */
  method BinarySearchIterative(a: array<int>, size: nat, target: int) returns (r: int)
    requires size <= a.Length
    requires Sorted(a[..size])
    ensures -1 <= r < size
    ensures r >= 0 ==> a[r] == target
    ensures r == -1 <==> target !in a[..size]
  {
    var left := 0;
    var right := size - 1;
    while left <= right
      invariant 0 <= left <= right + 1 <= size
      invariant forall k :: 0 <= k < left ==> a[k] < target
      invariant forall k :: right < k < size ==> a[k] > target
    {
      var mid := left + (right - left) / 2;
      if a[mid] == target {
        return mid;
      } else if a[mid] < target {
        forall k | 0 <= k <= mid
          ensures a[k] < target
        {
          assert a[..size][k] <= a[..size][mid];
        }
        left := mid + 1;
      } else {
        forall k | mid <= k < size
          ensures a[k] > target
        {
          assert a[..size][mid] <= a[..size][k];
        }
        right := mid - 1;
      }
    }
    assert forall k :: 0 <= k < size ==> a[..size][k] != target;
    return -1;
  }

  /** `a[left..right]` (inclusive bounds) is non-decreasing. */
  ghost predicate SortedBetween(a: array<int>, left: int, right: int)
    reads a
  {
    forall i, j :: 0 <= left <= i < j <= right < a.Length ==> a[i] <= a[j]
  }

  /**
   * Recursive binary search over the inclusive range `[left, right]`: an index of
   * the range holding `target`, or -1 exactly when no cell of the range holds it.
   */
  function BinarySearchRecursive(a: array<int>, left: int, right: int, target: int): (r: int)
    reads a
    requires 0 <= left && right < a.Length
    requires SortedBetween(a, left, right)
    ensures r == -1 || (left <= r <= right && a[r] == target)
    ensures r == -1 <==> forall k :: left <= k <= right ==> a[k] != target
    decreases right + 1 - left
  {
    if right >= left then
      var mid := left + (right - left) / 2;
      if a[mid] == target then mid
      else if a[mid] > target then BinarySearchRecursive(a, left, mid - 1, target)
      else BinarySearchRecursive(a, mid + 1, right, target)
    else
      -1
  }

  /** The least index of `a[..size]` holding `target`, or -1 when it does not occur. */
  method FindFirstOccurrence(a: array<int>, size: nat, target: int) returns (r: int)
    requires size <= a.Length
    requires Sorted(a[..size])
    ensures -1 <= r < size
    ensures r == -1 <==> target !in a[..size]
    ensures r >= 0 ==> a[r] == target && target !in a[..r]
  {
    var left := 0;
    var right := size - 1;
    r := -1;
    while left <= right
      invariant 0 <= left <= right + 1 <= size
      invariant forall k :: 0 <= k < left ==> a[k] < target
      invariant r == -1 ==> forall k :: right < k < size ==> a[k] > target
      invariant r != -1 ==> r == right + 1 < size && a[r] == target
    {
      var mid := left + (right - left) / 2;
      if a[mid] == target {
        r := mid;
        right := mid - 1;
      } else if a[mid] < target {
        forall k | 0 <= k <= mid
          ensures a[k] < target
        {
          assert a[..size][k] <= a[..size][mid];
        }
        left := mid + 1;
      } else {
        forall k | mid <= k < size
          ensures a[k] > target
        {
          assert a[..size][mid] <= a[..size][k];
        }
        right := mid - 1;
      }
    }
    if r == -1 {
      assert forall k :: 0 <= k < size ==> a[..size][k] != target;
    } else {
      assert forall k :: 0 <= k < r ==> a[..r][k] != target;
    }
  }

  /** The greatest index of `a[..size]` holding `target`, or -1 when it does not occur. */
  method FindLastOccurrence(a: array<int>, size: nat, target: int) returns (r: int)
    requires size <= a.Length
    requires Sorted(a[..size])
    ensures -1 <= r < size
    ensures r == -1 <==> target !in a[..size]
    ensures r >= 0 ==> a[r] == target && target !in a[r + 1..size]
  {
    var left := 0;
    var right := size - 1;
    r := -1;
    while left <= right
      invariant 0 <= left <= right + 1 <= size
      invariant forall k :: right < k < size ==> a[k] > target
      invariant r == -1 ==> forall k :: 0 <= k < left ==> a[k] < target
      invariant r != -1 ==> 0 <= r == left - 1 && a[r] == target
    {
      var mid := left + (right - left) / 2;
      if a[mid] == target {
        r := mid;
        left := mid + 1;
      } else if a[mid] < target {
        forall k | 0 <= k <= mid
          ensures a[k] < target
        {
          assert a[..size][k] <= a[..size][mid];
        }
        left := mid + 1;
      } else {
        forall k | mid <= k < size
          ensures a[k] > target
        {
          assert a[..size][mid] <= a[..size][k];
        }
        right := mid - 1;
      }
    }
    if r == -1 {
      assert forall k :: 0 <= k < size ==> a[..size][k] != target;
    } else {
      ghost var after := a[r + 1..size];
      assert forall k :: 0 <= k < |after| ==> after[k] != target;
    }
  }

  /** The demo array `{2, 5, 8, 12, 16, 23, 23, 38, 56, 72, 91}`, sorted. */
  method DemoArray() returns (a: array<int>)
    ensures fresh(a) && a.Length == 11 && Sorted(a[..11])
    ensures a[..] == [2, 5, 8, 12, 16, 23, 23, 38, 56, 72, 91]
  {
    a := new int[11] [2, 5, 8, 12, 16, 23, 23, 38, 56, 72, 91];
    assert a[..11] == a[..] == [2, 5, 8, 12, 16, 23, 23, 38, 56, 72, 91];
  }

  /**
   * In the demo array the recursive search finds 23 at index 5, its first probe; the
   * iterative search's contract names any index holding 23, so it is pinned to 5 or 6 only.
   * 100 is not found.
   */
  method SearchDemo() returns (iterative: int, recursive: int, missing: int)
    ensures iterative == 5 || iterative == 6
    ensures recursive == 5
    ensures missing == -1
  {
    var a := DemoArray();
    assert forall k :: 0 <= k < 11 && a[k] == 23 ==> k == 5 || k == 6;
    iterative := BinarySearchIterative(a, 11, 23);
    assert SortedBetween(a, 0, 10) by {
      forall i, j | 0 <= i < j <= 10
        ensures a[i] <= a[j]
      {
        assert a[..11][i] <= a[..11][j];
      }
    }
    assert a[5] == 23;
    recursive := BinarySearchRecursive(a, 0, 10, 23);
    missing := BinarySearchIterative(a, 11, 100);
    assert 100 !in a[..11] by {
      assert a[..11] == a[..];
    }
  }

  /** In the demo array 23 occurs first at index 5 and last at index 6. */
  method DuplicatesDemo() returns (first: int, last: int)
    ensures first == 5 && last == 6
  {
    var a := DemoArray();
    assert a[..11][5] == 23;
    assert forall k :: 0 <= k < 11 && a[k] == 23 ==> k == 5 || k == 6;
    assert 23 in a[..6] by {
      assert a[..6][5] == 23;
    }
    assert 23 in a[6..11] by {
      assert a[6..11][0] == 23;
    }
    first := FindFirstOccurrence(a, 11, 23);
    last := FindLastOccurrence(a, 11, 23);
  }
}
