/** The linked-list queue of the queue lecture: values enter at `rear` and leave at `front`. */
module Lecture10Queue {

  /** One cell of the list. */
  class Node {
    var data: int
    var next: Node?

    constructor (val: int)
      ensures data == val && next == null
    {
      data := val;
      next := null;
    }
  }

  class Queue {
    var front: Node?
    var rear: Node?
    var size: int

    /** The linked cells, front first. */
    ghost var Nodes: seq<Node>
    /** The queued values, front first. */
    ghost var Contents: seq<int>

    /**
     * The cells are distinct and chained by `next` from `front` to `rear`, whose
     * `next` is null; `size` counts them; an empty queue has both ends null.
     */
    ghost predicate Valid()
      reads this, Nodes
    {
      && size == |Nodes| == |Contents|
      && (size == 0 ==> front == null && rear == null)
      && (size > 0 ==> front == Nodes[0] && rear == Nodes[size - 1] && rear.next == null)
      && (forall i :: 0 <= i < size - 1 ==> Nodes[i].next == Nodes[i + 1])
      && (forall i :: 0 <= i < size ==> Nodes[i].data == Contents[i])
      && (forall i, j :: 0 <= i < j < size ==> Nodes[i] != Nodes[j])
    }

    /** A new queue is empty. */
    constructor ()
      ensures Valid() && Contents == [] && Nodes == []
    {
      front := null;
      rear := null;
      size := 0;
      Nodes := [];
      Contents := [];
    }

    /** Links a fresh cell holding `x` after `rear`: the value joins the back of the queue. */
    method Enqueue(x: int)
      requires Valid()
      modifies this, Nodes
      ensures Valid()
      ensures Contents == old(Contents) + [x] && size == old(size) + 1
      ensures |Nodes| == |old(Nodes)| + 1 && Nodes[..|old(Nodes)|] == old(Nodes) && fresh(Nodes[|old(Nodes)|])
    {
      var newNode := new Node(x);
      if rear == null {
        front, rear := newNode, newNode;
      } else {
        rear.next := newNode;
        rear := newNode;
      }
      size := size + 1;
      Nodes := Nodes + [newNode];
      Contents := Contents + [x];
    }

    /**
     * Unlinks the front cell and returns its value; a one-cell queue ends with
     * both ends null. On an empty queue returns -1 and changes nothing.
     */
    method Dequeue() returns (r: int)
      requires Valid()
      modifies this
      ensures Valid()
      ensures old(Contents) == [] ==> r == -1 && Contents == [] && Nodes == old(Nodes)
      ensures old(Contents) != [] ==>
                && r == old(Contents)[0]
                && Contents == old(Contents)[1..]
                && Nodes == old(Nodes)[1..]
                && size == old(size) - 1
      ensures old(size) == 1 ==> front == null && rear == null
    {
      if IsEmpty() {
        return -1;
      }
      r := front.data;
      if front == rear {
        front, rear := null, null;
      } else {
        front := front.next;
      }
      size := size - 1;
      Nodes := Nodes[1..];
      Contents := Contents[1..];
    }

    /** The front value, or -1 when the queue is empty. */
    function GetFront(): (r: int)
      reads this, Nodes
      requires Valid()
      ensures Contents == [] ==> r == -1
      ensures Contents != [] ==> r == Contents[0]
    {
      if front == null then -1 else front.data
    }

    /** The rear value, or -1 when the queue is empty. */
    function GetRear(): (r: int)
      reads this, Nodes
      requires Valid()
      ensures Contents == [] ==> r == -1
      ensures Contents != [] ==> r == Contents[|Contents| - 1]
    {
      if front == null then -1 else rear.data
    }

    /** Whether `front` is null, which is exactly when no value is queued. */
    function IsEmpty(): (r: bool)
      reads this, Nodes
      requires Valid()
      ensures r <==> Contents == []
    {
      front == null
    }

    /** The size counter, which always equals the number of linked cells. */
    function GetSize(): (r: int)
      reads this, Nodes
      requires Valid()
      ensures r == |Contents| == |Nodes|
    {
      size
    }
  }

  /** Dequeues until the queue is empty: the values come out in the order they were queued (FIFO). */
  method Drain(q: Queue) returns (drained: seq<int>)
    requires q.Valid()
    modifies q
    ensures q.Valid() && q.Contents == [] && drained == old(q.Contents)
  {
    drained := [];
    while !q.IsEmpty()
      invariant q.Valid() && drained + q.Contents == old(q.Contents)
      decreases |q.Contents|
    {
      ghost var before := q.Contents;
      var v := q.Dequeue();
      assert before == [v] + q.Contents;
      assert (drained + [v]) + q.Contents == drained + before;
      drained := drained + [v];
    }
  }

  /**
   * The demo run: enqueue 10, 20, 30; front 10, rear 30, size 3; dequeue;
   * enqueue 40, 50; draining yields 20, 30, 40, 50; one more dequeue gives -1.
   */
  method QueueDemo() returns (first: int, last: int, size: int, drained: seq<int>, underflow: int)
    ensures first == 10 && last == 30 && size == 3
    ensures drained == [20, 30, 40, 50] && underflow == -1
  {
    var q := new Queue();
    q.Enqueue(10);
    q.Enqueue(20);
    q.Enqueue(30);
    first := q.GetFront();
    last := q.GetRear();
    size := q.GetSize();
    var _ := q.Dequeue();
    q.Enqueue(40);
    q.Enqueue(50);
    drained := Drain(q);
    underflow := q.Dequeue();
  }
}
