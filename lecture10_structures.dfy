/** The student record's grade rule and the fixed-capacity circular queue of the structures lecture. */
module Lecture10Structures {

  /** The letter grade for `marks`: thresholds 90, 80, 70 and 60 give A to D, anything lower F. */
  function CalculateGrade(marks: real): (grade: char)
    ensures grade in ['A', 'B', 'C', 'D', 'F']
    ensures grade == 'A' <==> marks >= 90.0
    ensures grade == 'F' <==> marks < 60.0
  {
    if marks >= 90.0 then 'A'
    else if marks >= 80.0 then 'B'
    else if marks >= 70.0 then 'C'
    else if marks >= 60.0 then 'D'
    else 'F'
  }

  /** The least marks that earn `grade`; F has no threshold. */
  function Threshold(grade: char): real
  {
    match grade
    case 'A' => 90.0
    case 'B' => 80.0
    case 'C' => 70.0
    case 'D' => 60.0
    case _ => 0.0
  }

  /**
   * The grade is the best one whose threshold the marks reach: every grade other
   * than F is earned, and the next better grade is not.
   */
  lemma GradeIsBestEarned(marks: real)
    ensures CalculateGrade(marks) != 'F' ==> marks >= Threshold(CalculateGrade(marks))
    ensures forall g :: g in ['A', 'B', 'C', 'D'] && g < CalculateGrade(marks) ==> marks < Threshold(g)
  {
  }

  /** More marks never give a worse grade (letters further down the alphabet are worse). */
  lemma GradeMonotone(m1: real, m2: real)
    requires m1 <= m2
    ensures CalculateGrade(m2) <= CalculateGrade(m1)
  {
  }

  /** Capacity of the circular array. */
  const Capacity := 100

  /** The cell after `i` on the ring, written without `%`. */
  function Next(i: int): (j: int)
    requires -1 <= i < Capacity
    ensures j == (i + 1) % Capacity
  {
    if i + 1 == Capacity then 0 else i + 1
  }

  /** The cell `i` places after `front` on the ring, written without `%`. */
  function Slot(front: int, i: int): (j: int)
    requires 0 <= front < Capacity && 0 <= i <= Capacity
    ensures j == (front + i) % Capacity
  {
    if front + i < Capacity then front + i else front + i - Capacity
  }

  /** The `size` cells of `s` from `front` on, wrapping round the ring. */
  ghost function Window(s: seq<int>, front: int, size: int): (w: seq<int>)
    requires |s| == Capacity && 0 <= front < Capacity && 0 <= size <= Capacity
    ensures |w| == size
  {
    seq(size, i requires 0 <= i < size => s[Slot(front, i)])
  }

  /** Writing `x` into the cell after the window appends `x` to the window. */
  lemma WindowExtend(s: seq<int>, front: int, size: int, x: int)
    requires |s| == Capacity && 0 <= front < Capacity && 0 <= size < Capacity
    ensures Window(s[Slot(front, size) := x], front, size + 1) == Window(s, front, size) + [x]
  {
    var t := s[Slot(front, size) := x];
    forall i | 0 <= i < size
      ensures Window(t, front, size + 1)[i] == Window(s, front, size)[i]
    {
      assert Slot(front, i) != Slot(front, size);
    }
  }

  /** Advancing `front` one cell drops the first value of the window. */
  lemma WindowAdvance(s: seq<int>, front: int, size: int)
    requires |s| == Capacity && 0 <= front < Capacity && 0 < size <= Capacity
    ensures Window(s, Next(front), size - 1) == Window(s, front, size)[1..]
  {
    var rest := Window(s, front, size)[1..];
    forall i | 0 <= i < size - 1
      ensures Window(s, Next(front), size - 1)[i] == rest[i]
    {
      assert Slot(Next(front), i) == Slot(front, i + 1);
    }
  }

  class Queue {
    var arr: array<int>
    var front: int
    var rear: int
    var size: int

    /**
     * `size` stays in `[0, Capacity]`, `front` in `[0, Capacity)`, `rear` in
     * `[-1, Capacity)`, and the cell after `rear` is the one after the last queued value.
     */
    ghost predicate Valid()
      reads this
    {
      && arr.Length == Capacity
      && 0 <= front < Capacity && -1 <= rear < Capacity && 0 <= size <= Capacity
      && Next(rear) == Slot(front, size)
    }

    /** The queued values in FIFO order: `arr[(front + i) % Capacity]` for `i < size`. */
    ghost function Contents(): seq<int>
      reads this, arr
      requires Valid()
    {
      Window(arr[..], front, size)
    }

    /** A new queue: `front` 0, `rear` -1, nothing queued. */
    constructor ()
      ensures Valid() && fresh(arr) && front == 0 && rear == -1 && Contents() == []
    {
      arr := new int[Capacity];
      front, rear, size := 0, -1, 0;
    }

    /** Stores `x` after `rear` on the ring unless the queue is full, in which case nothing changes. */
    method Enqueue(x: int)
      requires Valid()
      modifies this, arr
      ensures Valid() && arr == old(arr) && front == old(front)
      ensures old(size) >= Capacity ==> rear == old(rear) && size == old(size) && arr[..] == old(arr[..])
      ensures old(size) < Capacity ==>
                && rear == (old(rear) + 1) % Capacity && arr[rear] == x && size == old(size) + 1
                && Contents() == old(Contents()) + [x]
    {
      if size >= Capacity {
        return;
      }
      WindowExtend(arr[..], front, size, x);
      rear := (rear + 1) % Capacity;
      arr[rear] := x;
      size := size + 1;
    }

    /**
     * Returns the front value and advances `front` round the ring; on an empty
     * queue returns -1 and changes nothing. The array is never written.
     */
    method Dequeue() returns (r: int)
      requires Valid()
      modifies this
      ensures Valid() && arr == old(arr) && rear == old(rear)
      ensures old(size) <= 0 ==> r == -1 && front == old(front) && size == old(size)
      ensures old(size) > 0 ==>
                && r == old(Contents())[0] && front == (old(front) + 1) % Capacity
                && size == old(size) - 1 && Contents() == old(Contents())[1..]
    {
      if size <= 0 {
        return -1;
      }
      WindowAdvance(arr[..], front, size);
      r := arr[front];
      front := (front + 1) % Capacity;
      size := size - 1;
    }

    /** The front value, or -1 when the queue is empty. */
    function GetFront(): (r: int)
      reads this, arr
      requires Valid()
      ensures Contents() == [] ==> r == -1
      ensures Contents() != [] ==> r == Contents()[0]
    {
      if size <= 0 then -1 else arr[front]
    }

    /** Whether nothing is queued. */
    function IsEmpty(): (r: bool)
      reads this, arr
      requires Valid()
      ensures r <==> Contents() == []
    {
      size == 0
    }
  }

  /** Dequeues until the queue is empty: the values come out in the order they were queued (FIFO). */
  method Drain(q: Queue) returns (drained: seq<int>)
    requires q.Valid()
    modifies q
    ensures q.Valid() && q.Contents() == [] && drained == old(q.Contents())
  {
    drained := [];
    while !q.IsEmpty()
      invariant q.Valid() && q.arr == old(q.arr) && q.arr[..] == old(q.arr[..])
      invariant drained + q.Contents() == old(q.Contents())
      decreases q.size
    {
      var v := q.Dequeue();
      drained := drained + [v];
    }
  }

  /**
   * The demo run: enqueue 10, 20, 30; dequeue; enqueue 40, 50; the front is then 20,
   * and dequeuing until empty yields 20, 30, 40, 50.
   */
  method QueueDemo() returns (first: int, drained: seq<int>)
    ensures first == 20 && drained == [20, 30, 40, 50]
  {
    var q := new Queue();
    q.Enqueue(10);
    q.Enqueue(20);
    q.Enqueue(30);
    assert q.Contents() == [10, 20, 30];
    var _ := q.Dequeue();
    assert q.Contents() == [20, 30];
    q.Enqueue(40);
    q.Enqueue(50);
    assert q.Contents() == [20, 30, 40, 50];
    first := q.GetFront();
    drained := Drain(q);
  }

  /** The demo students: 95.5 earns A, 87.2 earns B and 76.8 earns C. */
  lemma GradeDemo()
    ensures CalculateGrade(95.5) == 'A' && CalculateGrade(87.2) == 'B' && CalculateGrade(76.8) == 'C'
  {
  }
}
