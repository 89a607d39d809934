/**
 * The binary search tree of the tree lecture. A value smaller than a node's value goes to its
 * left subtree, every other value (duplicates included) to its right subtree. Trees are values:
 * the link rewriting of the original (`root->left = insert(...)`) becomes building a new tree.
 */
module Lecture11Bst {
  import opened Ordering

  datatype Tree = Nil | Node(left: Tree, data: int, right: Tree)

  /** Slots of the array used as the queue of the level-order traversal. */
  const QueueCapacity := 100

  /** The values stored in `t`, with their multiplicities. */
  function Elems(t: Tree): multiset<int>
  {
    match t
    case Nil => multiset{}
    case Node(l, x, r) => Elems(l) + multiset{x} + Elems(r)
  }

  /** Every value of `t` is below `v`. */
  ghost predicate AllBelow(t: Tree, v: int)
  {
    forall x | x in Elems(t) :: x < v
  }

  /** Every value of `t` is at least `v`. */
  ghost predicate AllAtLeast(t: Tree, v: int)
  {
    forall x | x in Elems(t) :: v <= x
  }

  /** Search-tree order: left values below the node, right values at least the node, everywhere. */
  ghost predicate IsBst(t: Tree)
  {
    match t
    case Nil => true
    case Node(l, x, r) => AllBelow(l, x) && AllAtLeast(r, x) && IsBst(l) && IsBst(r)
  }

  /** `s` is `t` or a subtree hanging somewhere below it. */
  ghost predicate IsSubtree(s: Tree, t: Tree)
  {
    s == t || (t.Node? && (IsSubtree(s, t.left) || IsSubtree(s, t.right)))
  }

  lemma SubtreeChildren(s: Tree, t: Tree)
    requires IsSubtree(s, t) && s.Node?
    ensures IsSubtree(s.left, t) && IsSubtree(s.right, t)
  {
    if s != t {
      if IsSubtree(s, t.left) {
        SubtreeChildren(s, t.left);
      } else {
        SubtreeChildren(s, t.right);
      }
    }
  }

  // ---------------------------------------------------------------------------------------------
  // countNodes, insert, search, findMin, deleteNode
  // ---------------------------------------------------------------------------------------------

  /** The number of nodes. */
  function CountNodes(t: Tree): (n: nat)
    ensures n == 0 <==> t == Nil
  {
    match t
    case Nil => 0
    case Node(l, _, r) => 1 + CountNodes(l) + CountNodes(r)
  }

  /** Every node stores one value. */
  lemma {:induction false} CountElems(t: Tree)
    ensures CountNodes(t) == |Elems(t)|
  {
    if t.Node? {
      CountElems(t.left);
      CountElems(t.right);
    }
  }

  /**
   * Inserts `v` as a new leaf: left of every node whose value exceeds it, right otherwise. The
   * tree gains exactly `v`.
   */
  function Insert(t: Tree, v: int): (r: Tree)
    ensures r.Node?
    ensures Elems(r) == Elems(t) + multiset{v}
  {
    match t
    case Nil => Node(Nil, v, Nil)
    case Node(l, x, rt) =>
      if v < x then Node(Insert(l, v), x, rt) else Node(l, x, Insert(rt, v))
  }

  /** Insertion adds exactly one node. */
  lemma {:induction false} InsertCount(t: Tree, v: int)
    ensures CountNodes(Insert(t, v)) == CountNodes(t) + 1
  {
    if t.Node? {
      if v < t.data {
        InsertCount(t.left, v);
      } else {
        InsertCount(t.right, v);
      }
    }
  }

  /** Insertion keeps search-tree order. */
  lemma {:induction false} InsertBst(t: Tree, v: int)
    requires IsBst(t)
    ensures IsBst(Insert(t, v))
  {
    if t.Node? {
      var l, x, rt := t.left, t.data, t.right;
      if v < x {
        InsertBst(l, v);
        assert Insert(t, v) == Node(Insert(l, v), x, rt);
        InsertLeft(l, x, rt, v, Insert(l, v));
      } else {
        InsertBst(rt, v);
        assert Insert(t, v) == Node(l, x, Insert(rt, v));
        InsertRight(l, x, rt, v, Insert(rt, v));
      }
    }
  }

  /** A value below the node's, added to its left subtree, keeps the node ordered. */
  lemma InsertLeft(l: Tree, x: int, rt: Tree, v: int, l2: Tree)
    requires IsBst(Node(l, x, rt)) && v < x
    requires IsBst(l2) && Elems(l2) == Elems(l) + multiset{v}
    ensures IsBst(Node(l2, x, rt))
  {
    assert AllBelow(l2, x) by {
      forall y | y in Elems(l2) ensures y < x {
        assert y in Elems(l) || y == v;
      }
    }
  }

  /** A value at least the node's, added to its right subtree, keeps the node ordered. */
  lemma InsertRight(l: Tree, x: int, rt: Tree, v: int, rt2: Tree)
    requires IsBst(Node(l, x, rt)) && v >= x
    requires IsBst(rt2) && Elems(rt2) == Elems(rt) + multiset{v}
    ensures IsBst(Node(l, x, rt2))
  {
    assert AllAtLeast(rt2, x) by {
      forall y | y in Elems(rt2) ensures y >= x {
        assert y in Elems(rt) || y == v;
      }
    }
  }

  /**
   * Follows the search path of `v`; the subtree whose root holds `v`, or `Nil` when the path ends.
   * In a search tree the answer is non-`Nil` exactly when `v` is stored.
   */
  function Search(t: Tree, v: int): (r: Tree)
    ensures r == Nil || (r.data == v && IsSubtree(r, t))
    ensures IsBst(t) ==> (r != Nil <==> v in Elems(t))
  {
    if t == Nil || t.data == v then t
    else if v < t.data then Search(t.left, v)
    else Search(t.right, v)
  }

  /** The value at the end of the left spine of a non-empty tree: in a search tree, its minimum. */
  function Leftmost(t: Tree): (m: int)
    requires t.Node?
    ensures m in Elems(t)
    ensures IsBst(t) ==> forall x | x in Elems(t) :: m <= x
  {
    if t.left == Nil then t.data else Leftmost(t.left)
  }

  /** Walks down the left spine; `Nil` for the empty tree, else the leftmost node, holding the minimum. */
  method FindMin(t: Tree) returns (r: Tree)
    ensures t == Nil ==> r == Nil
    ensures t.Node? ==> r.Node? && r.left == Nil && IsSubtree(r, t) && r.data == Leftmost(t)
    ensures t.Node? && IsBst(t) ==> forall x | x in Elems(t) :: r.data <= x
  {
    r := t;
    while r != Nil && r.left != Nil
      invariant IsSubtree(r, t)
      invariant t == Nil <==> r == Nil
      invariant r.Node? ==> Leftmost(r) == Leftmost(t)
      decreases r
    {
      SubtreeChildren(r, t);
      r := r.left;
    }
  }

  /**
   * Removes one occurrence of `v`. A leaf disappears, a node with one child is replaced by that
   * child, and a node with two children takes the least value of its right subtree (its inorder
   * successor), which is then removed from the right subtree.
   */
  function Delete(t: Tree, v: int): (r: Tree)
    ensures v !in Elems(t) ==> r == t
  {
    match t
    case Nil => Nil
    case Node(l, x, rt) =>
      if v < x then Node(Delete(l, v), x, rt)
      else if v > x then Node(l, x, Delete(rt, v))
      else if l == Nil && rt == Nil then Nil
      else if l == Nil then rt
      else if rt == Nil then l
      else
        var m := Leftmost(rt);
        Node(l, m, Delete(rt, m))
  }

  /**
   * In a search tree, deletion removes exactly one occurrence of `v` (nothing when `v` is absent),
   * so the node count drops by one when `v` was stored, and search-tree order is kept.
   */
  lemma {:induction false} DeleteBst(t: Tree, v: int)
    requires IsBst(t)
    ensures IsBst(Delete(t, v))
    ensures Elems(Delete(t, v)) == Elems(t) - multiset{v}
  {
    if t.Node? {
      var l, x, rt := t.left, t.data, t.right;
      if v < x {
        DeleteBst(l, v);
        assert Delete(t, v) == Node(Delete(l, v), x, rt);
        LeftStep(l, x, rt, v, Delete(l, v));
      } else if v > x {
        DeleteBst(rt, v);
        assert Delete(t, v) == Node(l, x, Delete(rt, v));
        RightStep(l, x, rt, v, Delete(rt, v));
      } else if l != Nil && rt != Nil {
        var m := Leftmost(rt);
        DeleteBst(rt, m);
        assert Delete(t, v) == Node(l, m, Delete(rt, m));
        SuccessorStep(l, x, rt, m, Delete(rt, m));
      } else {
        RemoveRoot(Elems(l), x, Elems(rt));
      }
    }
  }

  /** Deleting a stored value from a search tree takes away exactly one node. */
  lemma DeleteCount(t: Tree, v: int)
    requires IsBst(t) && v in Elems(t)
    ensures CountNodes(Delete(t, v)) == CountNodes(t) - 1
  {
    DeleteBst(t, v);
    CountElems(t);
    CountElems(Delete(t, v));
    var e := Elems(t);
    assert (e - multiset{v}) + multiset{v} == e;
  }

  /** Deleting a value below the node from its left subtree. */
  lemma LeftStep(l: Tree, x: int, rt: Tree, v: int, l2: Tree)
    requires IsBst(Node(l, x, rt)) && v < x
    requires IsBst(l2) && Elems(l2) == Elems(l) - multiset{v}
    ensures IsBst(Node(l2, x, rt))
    ensures Elems(Node(l2, x, rt)) == Elems(Node(l, x, rt)) - multiset{v}
  {
    assert AllBelow(l2, x) by {
      forall y | y in Elems(l2) ensures y < x {
        assert y in Elems(l);
      }
    }
    assert v !in Elems(rt) by {
      assert AllAtLeast(rt, x);
    }
    RemoveLeft(Elems(l), x, Elems(rt), v);
  }

  /** Deleting a value at least the node's (but not the node's) from its right subtree. */
  lemma RightStep(l: Tree, x: int, rt: Tree, v: int, rt2: Tree)
    requires IsBst(Node(l, x, rt)) && v > x
    requires IsBst(rt2) && Elems(rt2) == Elems(rt) - multiset{v}
    ensures IsBst(Node(l, x, rt2))
    ensures Elems(Node(l, x, rt2)) == Elems(Node(l, x, rt)) - multiset{v}
  {
    assert AllAtLeast(rt2, x) by {
      forall y | y in Elems(rt2) ensures x <= y {
        assert y in Elems(rt);
      }
    }
    assert v !in Elems(l) by {
      assert AllBelow(l, x);
    }
    RemoveRight(Elems(l), x, Elems(rt), v);
  }

  /** Replacing a node's value by the least value of its right subtree, removed from there. */
  lemma SuccessorStep(l: Tree, x: int, rt: Tree, m: int, rt2: Tree)
    requires IsBst(Node(l, x, rt))
    requires m in Elems(rt) && forall y | y in Elems(rt) :: m <= y
    requires IsBst(rt2) && Elems(rt2) == Elems(rt) - multiset{m}
    ensures IsBst(Node(l, m, rt2))
    ensures Elems(Node(l, m, rt2)) == Elems(Node(l, x, rt)) - multiset{x}
  {
    assert AllBelow(l, m) by {
      assert AllAtLeast(rt, x) && AllBelow(l, x);
    }
    assert AllAtLeast(rt2, m) by {
      forall y | y in Elems(rt2) ensures m <= y {
        assert y in Elems(rt);
      }
    }
    MultisetSwap(Elems(l), x, Elems(rt), m);
  }

  lemma RemoveLeft(a: multiset<int>, x: int, b: multiset<int>, v: int)
    requires v != x && v !in b
    ensures (a - multiset{v}) + multiset{x} + b == a + multiset{x} + b - multiset{v}
  {
    forall y ensures ((a - multiset{v}) + multiset{x} + b)[y] == (a + multiset{x} + b - multiset{v})[y] {
      if y == v {
      }
    }
  }

  lemma RemoveRight(a: multiset<int>, x: int, b: multiset<int>, v: int)
    requires v != x && v !in a
    ensures a + multiset{x} + (b - multiset{v}) == a + multiset{x} + b - multiset{v}
  {
    forall y ensures (a + multiset{x} + (b - multiset{v}))[y] == (a + multiset{x} + b - multiset{v})[y] {
    }
  }

  lemma RemoveRoot(a: multiset<int>, x: int, b: multiset<int>)
    ensures a + multiset{x} + b - multiset{x} == a + b
  {
    forall y ensures (a + multiset{x} + b - multiset{x})[y] == (a + b)[y] {
    }
  }

  lemma MultisetSwap(a: multiset<int>, x: int, b: multiset<int>, m: int)
    requires m in b
    ensures a + multiset{m} + (b - multiset{m}) == a + multiset{x} + b - multiset{x}
  {
    assert (b - multiset{m}) + multiset{m} == b;
  }

  // ---------------------------------------------------------------------------------------------
  // height and isBalanced
  // ---------------------------------------------------------------------------------------------

  function Max(a: int, b: int): int
  {
    if a < b then b else a
  }

  function Pow2(n: nat): nat
  {
    if n == 0 then 1 else 2 * Pow2(n - 1)
  }

  /** Number of nodes on the longest root-to-leaf path; 0 for the empty tree. */
  function Height(t: Tree): (h: nat)
    ensures t.Node? ==> h >= 1
  {
    match t
    case Nil => 0
    case Node(l, _, r) => 1 + Max(Height(l), Height(r))
  }

  /** A tree of height `h` has at least `h` and fewer than `2^h` nodes. */
  lemma {:induction false} HeightBounds(t: Tree)
    ensures Height(t) <= CountNodes(t) < Pow2(Height(t))
  {
    match t
    case Nil =>
    case Node(l, _, r) =>
      HeightBounds(l);
      HeightBounds(r);
      var h := Max(Height(l), Height(r));
      PowMonotone(Height(l), h);
      PowMonotone(Height(r), h);
      assert Height(t) == h + 1 && Pow2(h + 1) == 2 * Pow2(h);
  }

  lemma {:induction false} PowMonotone(a: nat, b: nat)
    requires a <= b
    ensures Pow2(a) <= Pow2(b)
  {
    if a < b {
      PowMonotone(a, b - 1);
    }
  }

  /** The recursive balance check of the lecture: child heights differ by at most one, recursively. */
  function IsBalanced(t: Tree): (b: bool)
    ensures t == Nil ==> b
    ensures b ==> BalancedAt(t)
  {
    match t
    case Nil => true
    case Node(l, _, r) =>
      -1 <= Height(l) - Height(r) <= 1 && IsBalanced(l) && IsBalanced(r)
  }

  /** The balance condition at one node. */
  ghost predicate BalancedAt(s: Tree)
  {
    s == Nil || -1 <= Height(s.left) - Height(s.right) <= 1
  }

  /** `IsBalanced` holds exactly when every node of the tree has child heights at most one apart. */
  lemma {:induction false} BalancedEverywhere(t: Tree)
    ensures IsBalanced(t) <==> forall s | IsSubtree(s, t) :: BalancedAt(s)
  {
    match t
    case Nil =>
      forall s | IsSubtree(s, t) ensures BalancedAt(s) {
      }
    case Node(l, _, r) =>
      BalancedEverywhere(l);
      BalancedEverywhere(r);
      if IsBalanced(t) {
        forall s | IsSubtree(s, t) ensures BalancedAt(s) {
          if s != t && IsSubtree(s, l) {
          } else if s != t {
            assert IsSubtree(s, r);
          }
        }
      } else {
        if BalancedAt(t) {
          if !IsBalanced(l) {
            var s :| IsSubtree(s, l) && !BalancedAt(s);
            assert IsSubtree(s, t);
          } else {
            var s :| IsSubtree(s, r) && !BalancedAt(s);
            assert IsSubtree(s, t);
          }
        } else {
          assert IsSubtree(t, t);
        }
      }
  }

  // ---------------------------------------------------------------------------------------------
  // Depth-first traversals
  // ---------------------------------------------------------------------------------------------

  /** Left subtree, node, right subtree. */
  function Inorder(t: Tree): (s: seq<int>)
    ensures multiset(s) == Elems(t)
  {
    match t
    case Nil => []
    case Node(l, x, r) => Inorder(l) + [x] + Inorder(r)
  }

  /** Node, left subtree, right subtree. */
  function Preorder(t: Tree): (s: seq<int>)
    ensures multiset(s) == Elems(t)
  {
    match t
    case Nil => []
    case Node(l, x, r) => [x] + Preorder(l) + Preorder(r)
  }

  /** Left subtree, right subtree, node. */
  function Postorder(t: Tree): (s: seq<int>)
    ensures multiset(s) == Elems(t)
  {
    match t
    case Nil => []
    case Node(l, x, r) => Postorder(l) + Postorder(r) + [x]
  }

  /** The inorder traversal of a search tree is non-decreasing. */
  lemma {:induction false} InorderSorted(t: Tree)
    requires IsBst(t)
    ensures Sorted(Inorder(t))
  {
    if t.Node? {
      InorderSorted(t.left);
      InorderSorted(t.right);
      InorderBelow(t.left, t.data);
      InorderAtLeast(t.right, t.data);
      SortedAround(Inorder(t.left), t.data, Inorder(t.right));
    }
  }

  lemma InorderBelow(t: Tree, v: int)
    requires AllBelow(t, v)
    ensures forall i | 0 <= i < |Inorder(t)| :: Inorder(t)[i] <= v
  {
    var a := Inorder(t);
    forall i | 0 <= i < |a| ensures a[i] <= v {
      assert a[i] in multiset(a);
    }
  }

  lemma InorderAtLeast(t: Tree, v: int)
    requires AllAtLeast(t, v)
    ensures forall i | 0 <= i < |Inorder(t)| :: v <= Inorder(t)[i]
  {
    var a := Inorder(t);
    forall i | 0 <= i < |a| ensures v <= a[i] {
      assert a[i] in multiset(a);
    }
  }

  /** A value between two sorted runs joins them into one sorted run. */
  lemma SortedAround(a: seq<int>, x: int, b: seq<int>)
    requires Sorted(a) && Sorted(b)
    requires forall i | 0 <= i < |a| :: a[i] <= x
    requires forall j | 0 <= j < |b| :: x <= b[j]
    ensures Sorted(a + [x] + b)
  {
    SortedConcat(a, [x]);
    var ax := a + [x];
    forall i, j | 0 <= i < |ax| && 0 <= j < |b| ensures ax[i] <= b[j] {
      if i < |a| {
        assert ax[i] == a[i];
      }
    }
    SortedConcat(ax, b);
  }

  /** Inserting into a search tree places the new value in the sorted inorder sequence. */
  lemma InsertInorder(t: Tree, v: int)
    requires IsBst(t)
    ensures Sorted(Inorder(Insert(t, v)))
    ensures multiset(Inorder(Insert(t, v))) == multiset(Inorder(t)) + multiset{v}
  {
    InsertBst(t, v);
    InorderSorted(Insert(t, v));
  }

  // ---------------------------------------------------------------------------------------------
  // Level-order traversal
  // ---------------------------------------------------------------------------------------------

  /** No `Nil` in the queue: the traversal only ever enqueues real nodes. */
  ghost predicate AllNodes(q: seq<Tree>)
  {
    forall k | 0 <= k < |q| :: q[k].Node?
  }

  /** Total number of nodes in the trees of `q`. */
  function Size(q: seq<Tree>): nat
  {
    if q == [] then 0 else CountNodes(q[0]) + Size(q[1..])
  }

  lemma {:induction false} SizeAppend(a: seq<Tree>, b: seq<Tree>)
    ensures Size(a + b) == Size(a) + Size(b)
  {
    if a != [] {
      assert (a + b)[0] == a[0] && (a + b)[1..] == a[1..] + b;
      SizeAppend(a[1..], b);
    } else {
      assert a + b == b;
    }
  }

  lemma {:induction false} SizeAtLeastLength(q: seq<Tree>)
    requires AllNodes(q)
    ensures |q| <= Size(q)
  {
    if q != [] {
      SizeAtLeastLength(q[1..]);
    }
  }

  /** The non-empty children of a node, left first: what the traversal enqueues after visiting it. */
  function Children(t: Tree): seq<Tree>
  {
    match t
    case Nil => []
    case Node(l, _, r) =>
      if l == Nil && r == Nil then []
      else if l == Nil then [r]
      else if r == Nil then [l]
      else [l, r]
  }

  /** The children of a node are real nodes. */
  lemma ChildrenNodes(t: Tree)
    requires t.Node?
    ensures AllNodes(Children(t))
  {
    var l, r := t.left, t.right;
    if l != Nil && r != Nil {
      assert [l, r][1..] == [r] && [r][1..] == [];
    } else if l != Nil {
      assert [l][1..] == [];
    } else if r != Nil {
      assert [r][1..] == [];
    }
  }

  /** The children of a node hold all its nodes but itself. */
  lemma ChildrenSize(t: Tree)
    requires t.Node?
    ensures Size(Children(t)) == CountNodes(t) - 1
  {
    var l, r := t.left, t.right;
    if l != Nil && r != Nil {
      SizeTwo(l, r);
    } else if l != Nil {
      SizeOne(l);
    } else if r != Nil {
      SizeOne(r);
    }
  }

  lemma SizeOne(a: Tree)
    ensures Size([a]) == CountNodes(a)
  {
    assert [a][1..] == [];
  }

  lemma SizeTwo(a: Tree, b: Tree)
    ensures Size([a, b]) == CountNodes(a) + CountNodes(b)
  {
    assert [a, b][1..] == [b];
    SizeOne(b);
  }

  /**
   * Queue-driven breadth-first visit: take the front tree, record its root, enqueue its non-empty
   * children at the back. An empty tree at the front contributes nothing.
   */
  function Bfs(q: seq<Tree>): seq<int>
    decreases 2 * Size(q) + |q|
  {
    if q == [] then []
    else if q[0] == Nil then Bfs(q[1..])
    else
      ChildrenSize(q[0]);
      SizeAppend(q[1..], Children(q[0]));
      [q[0].data] + Bfs(q[1..] + Children(q[0]))
  }

  /** The values of the level-order traversal of `t`. */
  function LevelOrder(t: Tree): (s: seq<int>)
    ensures t == Nil <==> s == []
    ensures t.Node? ==> s[0] == t.data
  {
    assert [t][1..] == [];
    assert t == Nil ==> Bfs([t]) == Bfs([]) == [];
    assert t.Node? ==> Bfs([t])[0] == t.data;
    Bfs([t])
  }

  /**
   * The traversal of the lecture, with the output collected in `out`. The array queue is never
   * reused, so every node takes one of its `QueueCapacity` slots.
   */
  method LevelOrderTraversal(t: Tree) returns (out: seq<int>)
    requires CountNodes(t) <= QueueCapacity
    ensures out == LevelOrder(t)
  {
    out := [];
    if t == Nil {
      assert Bfs([t]) == Bfs([t][1..]) == [];
      return;
    }
    var queue := new Tree[QueueCapacity](_ => Nil);
    var front, rear := 0, 0;
    queue[rear] := t;
    rear := rear + 1;
    ghost var q := [t];
    while front < rear
      invariant QueueHolds(queue, front, rear, q, t)
      invariant out + Bfs(q) == Bfs([t])
      decreases Size(q)
    {
      var current := queue[front];
      out := out + [current.data];
      rear, q := VisitFront(queue, front, rear, q, t);
      front := front + 1;
    }
  }

  /**
   * The cells `queue[front..rear]` hold the queue `q` of real nodes; the slots taken so far plus
   * the nodes still to be enqueued (those below the queued ones) make up the whole tree.
   */
  ghost predicate QueueHolds(queue: array<Tree>, front: int, rear: int, q: seq<Tree>, t: Tree)
    reads queue
  {
    && 0 <= front <= rear <= queue.Length
    && |q| == rear - front && AllNodes(q)
    && (forall k | front <= k < rear :: queue[k] == q[k - front])
    && rear + Size(q) - |q| == CountNodes(t)
  }

  /** Dequeues the front node and enqueues its children; the visit continues on the new queue. */
  method VisitFront(queue: array<Tree>, front: int, rear: int, ghost q: seq<Tree>, ghost t: Tree)
    returns (rear': int, ghost q': seq<Tree>)
    requires front < rear && QueueHolds(queue, front, rear, q, t) && CountNodes(t) <= queue.Length
    modifies queue
    ensures QueueHolds(queue, front + 1, rear', q', t)
    ensures Bfs(q) == [q[0].data] + Bfs(q') && Size(q') < Size(q)
  {
    var current := queue[front];
    ghost var rest := q[1..];
    assert current == q[0];
    assert Size(q) == CountNodes(current) + Size(rest);
    SizeAtLeastLength(rest);
    ghost var before := queue[..];
    rear' := EnqueueChildren(queue, rear, current);
    ghost var c := Children(current);
    ChildrenNodes(current);
    ChildrenSize(current);
    SizeAppend(rest, c);
    q' := rest + c;
    forall k | front + 1 <= k < rear' ensures queue[k] == q'[k - (front + 1)] {
      if k < rear {
        assert queue[k] == before[k] == rest[k - (front + 1)];
      } else {
        assert queue[k] == c[k - rear];
      }
    }
  }

  /** Appends the non-empty children of `n` at `rear`, left first; returns the new rear. */
  method EnqueueChildren(queue: array<Tree>, rear: int, n: Tree) returns (r: int)
    requires n.Node? && 0 <= rear && rear + CountNodes(n.left) + CountNodes(n.right) <= queue.Length
    modifies queue
    ensures r == rear + |Children(n)|
    ensures forall k | 0 <= k < rear :: queue[k] == old(queue[k])
    ensures forall k | rear <= k < r :: queue[k] == Children(n)[k - rear]
  {
    r := rear;
    if n.left != Nil {
      queue[r] := n.left;
      r := r + 1;
    }
    if n.right != Nil {
      queue[r] := n.right;
      r := r + 1;
    }
  }

  // ----- Level order is the levels of the tree, top to bottom, each left to right -----

  /** The values at depth `d` of `t`, left to right. */
  function Level(t: Tree, d: nat): seq<int>
  {
    match t
    case Nil => []
    case Node(l, x, r) => if d == 0 then [x] else Level(l, d - 1) + Level(r, d - 1)
  }

  /** Levels `d` to `h - 1` of `t`, one after the other. */
  function Levels(t: Tree, d: nat, h: nat): seq<int>
    decreases h - d
  {
    if d >= h then [] else Level(t, d) + Levels(t, d + 1, h)
  }

  /** Depth-`d` values of all trees of `q`, in queue order. */
  function LevelOf(q: seq<Tree>, d: nat): seq<int>
  {
    if q == [] then [] else Level(q[0], d) + LevelOf(q[1..], d)
  }

  function LevelsOf(q: seq<Tree>, d: nat, h: nat): seq<int>
    decreases h - d
  {
    if d >= h then [] else LevelOf(q, d) + LevelsOf(q, d + 1, h)
  }

  /** The children of all trees of `q`, in order: the next level of a breadth-first visit. */
  function AllChildren(q: seq<Tree>): seq<Tree>
  {
    if q == [] then [] else Children(q[0]) + AllChildren(q[1..])
  }

  function MaxHeight(q: seq<Tree>): nat
  {
    if q == [] then 0 else Max(Height(q[0]), MaxHeight(q[1..]))
  }

  lemma {:induction false} LevelOfAppend(a: seq<Tree>, b: seq<Tree>, d: nat)
    ensures LevelOf(a + b, d) == LevelOf(a, d) + LevelOf(b, d)
  {
    if a != [] {
      assert (a + b)[0] == a[0] && (a + b)[1..] == a[1..] + b;
      LevelOfAppend(a[1..], b, d);
    } else {
      assert a + b == b;
    }
  }

  lemma {:induction false} MaxHeightAppend(a: seq<Tree>, b: seq<Tree>)
    ensures MaxHeight(a + b) == Max(MaxHeight(a), MaxHeight(b))
  {
    if a != [] {
      assert (a + b)[0] == a[0] && (a + b)[1..] == a[1..] + b;
      MaxHeightAppend(a[1..], b);
    } else {
      assert a + b == b;
    }
  }

  /** The enqueued children of one tree hold its next level. */
  lemma ChildrenOf(t: Tree, d: nat)
    ensures LevelOf(Children(t), d) == Level(t, d + 1)
  {
    if t.Node? {
      var l, r := t.left, t.right;
      assert Level(t, d + 1) == Level(l, d) + Level(r, d);
      if l != Nil && r != Nil {
        assert [l, r][1..] == [r] && [r][1..] == [];
        assert LevelOf([r], d) == Level(r, d);
      } else if l != Nil {
        assert [l][1..] == [];
        assert LevelOf([l], d) == Level(l, d) && Level(r, d) == [];
      } else if r != Nil {
        assert [r][1..] == [];
        assert LevelOf([r], d) == Level(r, d) && Level(l, d) == [];
      }
    }
  }

  /** The enqueued children of one tree are one level shorter. */
  lemma ChildrenHeight(t: Tree)
    ensures MaxHeight(Children(t)) == Max(Height(t) - 1, 0)
  {
    if t.Node? && t.left != Nil && t.right != Nil {
      BothChildrenHeight(t);
    } else if t.Node? && t.left != Nil {
      LeftChildHeight(t);
    } else if t.Node? && t.right != Nil {
      RightChildHeight(t);
    } else if t.Node? {
      assert Children(t) == [];
    }
  }

  lemma BothChildrenHeight(t: Tree)
    requires t.Node? && t.left != Nil && t.right != Nil
    ensures MaxHeight(Children(t)) == Max(Height(t) - 1, 0)
  {
    assert Children(t) == [t.left, t.right];
    TwoHeight(t.left, t.right);
  }

  lemma LeftChildHeight(t: Tree)
    requires t.Node? && t.left != Nil && t.right == Nil
    ensures MaxHeight(Children(t)) == Max(Height(t) - 1, 0)
  {
    assert Children(t) == [t.left];
    OneHeight(t.left);
  }

  lemma RightChildHeight(t: Tree)
    requires t.Node? && t.left == Nil && t.right != Nil
    ensures MaxHeight(Children(t)) == Max(Height(t) - 1, 0)
  {
    assert Children(t) == [t.right];
    OneHeight(t.right);
  }

  lemma OneHeight(a: Tree)
    ensures MaxHeight([a]) == Height(a)
  {
    assert [a][1..] == [];
  }

  lemma TwoHeight(a: Tree, b: Tree)
    ensures MaxHeight([a, b]) == Max(Height(a), Height(b))
  {
    assert [a, b][1..] == [b];
    OneHeight(b);
  }

  /** One level down in the queue of children is one level deeper in the parents. */
  lemma {:induction false} ChildrenLevel(q: seq<Tree>, d: nat)
    ensures LevelOf(AllChildren(q), d) == LevelOf(q, d + 1)
  {
    if q != [] {
      var t := q[0];
      ChildrenLevel(q[1..], d);
      ChildrenOf(t, d);
      LevelOfAppend(Children(t), AllChildren(q[1..]), d);
    }
  }

  /** The children of a queue are one level shorter than the queue. */
  lemma {:induction false} ChildrenMaxHeight(q: seq<Tree>)
    ensures MaxHeight(AllChildren(q)) == Max(MaxHeight(q) - 1, 0)
  {
    if q != [] {
      var t := q[0];
      ChildrenMaxHeight(q[1..]);
      ChildrenHeight(t);
      MaxHeightAppend(Children(t), AllChildren(q[1..]));
    }
  }

  lemma {:induction false} ChildrenLevels(q: seq<Tree>, d: nat, h: nat)
    ensures LevelsOf(AllChildren(q), d, h) == LevelsOf(q, d + 1, h + 1)
    decreases h - d
  {
    if d < h {
      ChildrenLevel(q, d);
      ChildrenLevels(q, d + 1, h);
    }
  }

  /** One step of the visit on a queue whose front part is `q`. */
  lemma BfsFront(q: seq<Tree>, r: seq<Tree>)
    requires q != []
    ensures Bfs(q + r) == Level(q[0], 0) + Bfs(q[1..] + (r + Children(q[0])))
  {
    var a, c, qr := q[0], Children(q[0]), q + r;
    assert qr != [] && qr[0] == a;
    assert qr[1..] == q[1..] + r;
    if a == Nil {
      assert Bfs(qr) == Bfs(qr[1..]);
      assert c == [] && r + c == r;
    } else {
      assert Bfs(qr) == [a.data] + Bfs(qr[1..] + c);
      AppendAssoc(q[1..], r, c);
    }
  }

  /** Visiting a whole queue front to back lists its top level, then visits all its children. */
  lemma {:induction false} BfsSplit(q: seq<Tree>, r: seq<Tree>)
    ensures Bfs(q + r) == LevelOf(q, 0) + Bfs(r + AllChildren(q))
    decreases |q|
  {
    if q == [] {
      assert q + r == r && r + AllChildren(q) == r;
    } else {
      var a, rest := q[0], q[1..];
      var c := Children(a);
      BfsFront(q, r);
      BfsSplit(rest, r + c);
      assert AllChildren(q) == c + AllChildren(rest);
      AppendAssoc(r, c, AllChildren(rest));
      assert LevelOf(q, 0) == Level(a, 0) + LevelOf(rest, 0);
      AppendAssoc(Level(a, 0), LevelOf(rest, 0), Bfs(r + AllChildren(q)));
    }
  }

  /** A queue of empty trees yields nothing. */
  lemma {:induction false} BfsShort(q: seq<Tree>)
    requires MaxHeight(q) == 0
    ensures Bfs(q) == []
  {
    if q != [] {
      BfsShort(q[1..]);
    }
  }

  lemma {:induction false} BfsLevels(q: seq<Tree>, h: nat)
    requires MaxHeight(q) <= h
    ensures Bfs(q) == LevelsOf(q, 0, h)
    decreases h
  {
    if h == 0 {
      BfsShort(q);
    } else {
      ChildrenMaxHeight(q);
      BfsLevels(AllChildren(q), h - 1);
      BfsLevelsStep(q, h);
    }
  }

  /** When the children's visit lists their levels, so does the visit of the whole queue. */
  lemma BfsLevelsStep(q: seq<Tree>, h: nat)
    requires h > 0 && Bfs(AllChildren(q)) == LevelsOf(AllChildren(q), 0, h - 1)
    ensures Bfs(q) == LevelsOf(q, 0, h)
  {
    BfsByLevel(q);
    ChildrenLevels(q, 0, h - 1);
  }

  /** Visiting a queue lists its top level, then visits the queue of all its children. */
  lemma BfsByLevel(q: seq<Tree>)
    ensures Bfs(q) == LevelOf(q, 0) + Bfs(AllChildren(q))
  {
    BfsSplit(q, []);
    assert q + [] == q && [] + AllChildren(q) == AllChildren(q);
  }

  lemma {:induction false} SingleLevels(t: Tree, d: nat, h: nat)
    ensures LevelsOf([t], d, h) == Levels(t, d, h)
    decreases h - d
  {
    if d < h {
      assert LevelOf([t], d) == Level(t, d) + LevelOf([], d);
      SingleLevels(t, d + 1, h);
    }
  }

  /** The level-order traversal lists depth 0, then depth 1, and so on, each level left to right. */
  lemma LevelOrderByDepth(t: Tree)
    ensures LevelOrder(t) == Levels(t, 0, Height(t))
  {
    assert MaxHeight([t]) == Max(Height(t), MaxHeight([]));
    BfsLevels([t], Height(t));
    SingleLevels(t, 0, Height(t));
  }

  /** The values of all trees of `q`. */
  function ElemsOf(q: seq<Tree>): multiset<int>
  {
    if q == [] then multiset{} else Elems(q[0]) + ElemsOf(q[1..])
  }

  lemma {:induction false} ElemsOfAppend(a: seq<Tree>, b: seq<Tree>)
    ensures ElemsOf(a + b) == ElemsOf(a) + ElemsOf(b)
  {
    if a != [] {
      assert (a + b)[0] == a[0] && (a + b)[1..] == a[1..] + b;
      ElemsOfAppend(a[1..], b);
    } else {
      assert a + b == b;
    }
  }

  /** The children of a node hold its values but its own. */
  lemma ChildrenElems(t: Tree)
    requires t.Node?
    ensures ElemsOf(Children(t)) == Elems(t.left) + Elems(t.right)
  {
    var l, r := t.left, t.right;
    if l != Nil && r != Nil {
      ElemsOfTwo(l, r);
    } else if l != Nil {
      ElemsOfOne(l);
    } else if r != Nil {
      ElemsOfOne(r);
    }
  }

  lemma ElemsOfOne(a: Tree)
    ensures ElemsOf([a]) == Elems(a)
  {
    assert [a][1..] == [];
  }

  lemma ElemsOfTwo(a: Tree, b: Tree)
    ensures ElemsOf([a, b]) == Elems(a) + Elems(b)
  {
    assert [a, b][1..] == [b];
    ElemsOfOne(b);
  }

  lemma {:induction false} BfsPerm(q: seq<Tree>)
    ensures multiset(Bfs(q)) == ElemsOf(q)
    decreases 2 * Size(q) + |q|
  {
    if q != [] {
      var a := q[0];
      if a == Nil {
        BfsPerm(q[1..]);
      } else {
        ChildrenSize(a);
        SizeAppend(q[1..], Children(a));
        BfsPerm(q[1..] + Children(a));
        ElemsOfAppend(q[1..], Children(a));
        ChildrenElems(a);
      }
    }
  }

  /** The level-order traversal visits every stored value exactly once. */
  lemma LevelOrderPerm(t: Tree)
    ensures multiset(LevelOrder(t)) == Elems(t)
  {
    BfsPerm([t]);
    assert ElemsOf([t]) == Elems(t) + ElemsOf([]);
  }
}
