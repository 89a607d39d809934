/** The bounded array stack of the stack lecture: at most `MaxSize` values, `top` indexing the last one. */
module Lecture10Stack {

  /** Capacity of the stack's array. */
  const MaxSize := 100

  class Stack {
    var arr: array<int>
    var top: int

    /** `top` stays in `[-1, MaxSize - 1]`; the array has the fixed capacity. */
    ghost predicate Valid()
      reads this
    {
      arr.Length == MaxSize && -1 <= top < MaxSize
    }

    /** The stacked values, bottom first: the cells `arr[0..top]`. */
    ghost function Contents(): seq<int>
      reads this, arr
      requires Valid()
    {
      arr[..top + 1]
    }

    /** A new stack is empty (`top == -1`). */
    constructor ()
      ensures Valid() && fresh(arr) && top == -1 && Contents() == []
    {
      arr := new int[MaxSize];
      top := -1;
    }

    /** Pushes `x` unless the stack is full, in which case nothing changes. */
    method Push(x: int)
      requires Valid()
      modifies this, arr
      ensures Valid() && arr == old(arr)
      ensures old(top) < MaxSize - 1 ==> top == old(top) + 1 && arr[top] == x && Contents() == old(Contents()) + [x]
      ensures old(top) >= MaxSize - 1 ==> top == old(top) && arr[..] == old(arr[..])
    {
      if top >= MaxSize - 1 {
        return;
      }
      top := top + 1;
      arr[top] := x;
      assert arr[..top + 1] == old(arr[..top + 1])[..top] + [x];
    }

    /**
     * Removes and returns the most recently pushed value; on an empty stack
     * returns -1 and changes nothing. The array itself is never written.
     */
    method Pop() returns (r: int)
      requires Valid()
      modifies this
      ensures Valid() && arr == old(arr) && arr[..] == old(arr[..])
      ensures old(top) < 0 ==> r == -1 && top == old(top)
      ensures old(top) >= 0 ==>
                && top == old(top) - 1
                && r == old(Contents())[|old(Contents())| - 1]
                && Contents() == old(Contents())[..|old(Contents())| - 1]
    {
      if top < 0 {
        return -1;
      }
      r := arr[top];
      top := top - 1;
    }

    /** The value on top, or -1 when the stack is empty. */
    function Peek(): (r: int)
      reads this, arr
      requires Valid()
      ensures Contents() == [] ==> r == -1
      ensures Contents() != [] ==> r == Contents()[|Contents()| - 1]
    {
      if top < 0 then -1 else arr[top]
    }

    /** Whether the stack holds no value. */
    function IsEmpty(): (r: bool)
      reads this, arr
      requires Valid()
      ensures r <==> Contents() == []
    {
      top < 0
    }

    /** The number of stacked values, `top + 1`, at most `MaxSize`. */
    function Size(): (r: int)
      reads this, arr
      requires Valid()
      ensures r == |Contents()| && 0 <= r <= MaxSize
    {
      top + 1
    }
  }

  /** Last in, first out: a push followed by a pop on a non-full stack returns the pushed value and restores the contents. */
  method PushThenPop(s: Stack, x: int) returns (r: int)
    requires s.Valid() && s.top < MaxSize - 1
    modifies s, s.arr
    ensures s.Valid() && r == x && s.Contents() == old(s.Contents())
  {
    s.Push(x);
    r := s.Pop();
  }

  /** `s` back to front. */
  function Reversed(s: seq<int>): (r: seq<int>)
    ensures |r| == |s|
  {
    if s == [] then [] else [s[|s| - 1]] + Reversed(s[..|s| - 1])
  }

  /** Position `k` of the reversal is position `|s| - 1 - k` of `s`. */
  lemma {:induction false} ReversedAt(s: seq<int>, k: int)
    requires 0 <= k < |s|
    ensures Reversed(s)[k] == s[|s| - 1 - k]
  {
    if k > 0 {
      ReversedAt(s[..|s| - 1], k - 1);
    }
  }

  /** Reversing twice gives back the sequence. */
  lemma ReversedTwice(s: seq<int>)
    ensures Reversed(Reversed(s)) == s
  {
    forall k | 0 <= k < |s|
      ensures Reversed(Reversed(s))[k] == s[k]
    {
      ReversedAt(Reversed(s), k);
      ReversedAt(s, |s| - 1 - k);
    }
  }

  /** Pops until the stack is empty: the values come out in reverse order of the contents (LIFO). */
  method Drain(s: Stack) returns (drained: seq<int>)
    requires s.Valid()
    modifies s
    ensures s.Valid() && s.Contents() == [] && drained == Reversed(old(s.Contents()))
  {
    drained := [];
    while !s.IsEmpty()
      invariant s.Valid() && s.arr == old(s.arr)
      invariant s.Contents() + Reversed(drained) == old(s.Contents())
      decreases s.top
    {
      ghost var before := s.Contents();
      var v := s.Pop();
      assert before == s.Contents() + [v];
      assert (drained + [v])[..|drained|] == drained;
      drained := drained + [v];
    }
    assert Reversed(drained) == old(s.Contents());
    ReversedTwice(drained);
  }

  /**
   * The demo run: push 10, 20, 30; peek sees 30; pop; push 40, 50; the size is 4;
   * popping until empty yields 50, 40, 20, 10; one more pop underflows to -1.
   */
  method StackDemo() returns (peeked: int, size: int, drained: seq<int>, underflow: int)
    ensures peeked == 30 && size == 4 && drained == [50, 40, 20, 10] && underflow == -1
  {
    var s := new Stack();
    s.Push(10);
    s.Push(20);
    s.Push(30);
    assert s.Contents() == [10, 20, 30];
    peeked := s.Peek();
    var _ := s.Pop();
    s.Push(40);
    s.Push(50);
    assert s.Contents() == [10, 20, 40, 50];
    size := s.Size();
    drained := Drain(s);
    DemoReversed();
    underflow := s.Pop();
  }

  /** The demo's stack, bottom first, reversed. */
  lemma DemoReversed()
    ensures Reversed([10, 20, 40, 50]) == [50, 40, 20, 10]
  {
    assert [10, 20, 40, 50][..3] == [10, 20, 40] && [10, 20, 40][..2] == [10, 20];
    assert [10, 20][..1] == [10] && [10][..0] == [];
  }
}
