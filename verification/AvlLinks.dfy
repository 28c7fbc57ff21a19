/** Linked nodes that have a given shape, and the rotations that relink them in place. */
module AvlLinks {
  import opened AvlShape

  const U16 := 0x1_0000

  /** n is the root of linked nodes of shape t, and every stored height is the height. */
  ghost predicate Linked(n: Node?, t: Shape)
    reads Nodes(t)
  {
    match t
    case Empty => n == null
    case Fork(l, x, r) => n == x && x.height == Height(t) && Linked(x.left, l) && Linked(x.right, r)
  }

  /** The same, except that the height stored at the root may be out of date. */
  ghost predicate Stale(n: Node?, t: Shape)
    reads Nodes(t)
  {
    match t
    case Empty => n == null
    case Fork(l, x, r) => n == x && Linked(x.left, l) && Linked(x.right, r)
  }

  /** The objects of a shape exist, so that what a method leaves alone stays as it is. */
  lemma NodesAllocated(t: Shape)
    ensures forall o :: o in Nodes(t) ==> allocated(o)
  {
  }

  /** HEIGHT: -1 for no object. */
  function StoredHeight(n: Node?): int
    reads n
  {
    if n == null then -1 else n.height
  }

  lemma StoredIsHeight(n: Node?, t: Shape)
    requires Linked(n, t)
    ensures StoredHeight(n) == Height(t)
  {
  }

  /** update_height, with the conversions to 16 bits: for a leaf the maximum -1 becomes 65535 and then 0. */
  method UpdateHeight(x: Node, ghost t: Shape)
    requires t.Fork? && Stale(x, t) && Distinct(t) && Height(t) < U16
    modifies x`height
    ensures Linked(x, t)
  {
    StoredIsHeight(x.left, t.l);
    StoredIsHeight(x.right, t.r);
    x.height := (Max(StoredHeight(x.left), StoredHeight(x.right)) % U16 + 1) % U16;
    assert x !in Nodes(t.l) && x !in Nodes(t.r);
  }

  /** rotate_left_child: the left child of x takes its place. */
  method RotateLeftChild(x: Node, ghost t: Shape) returns (y: Node)
    requires t.Fork? && t.l.Fork? && Stale(x, t) && Distinct(t) && Height(t) + 1 < U16
    modifies Nodes(t)
    ensures Linked(y, RotateRight(t))
  {
    ghost var Fork(Fork(a, y0, b), x0, c) := t;
    RotationKeeps(a, y0, b, x0, c);
    NodesAllocated(t);
    assert x != y0 && x !in Nodes(a) && x !in Nodes(b) && x !in Nodes(c);
    y := x.left;
    x.left := y.right;
    y.right := x;
    assert Linked(y.left, a) && Linked(x.left, b) && Linked(x.right, c);
    UpdateHeight(x, Fork(b, x, c));
    assert Linked(y.left, a);
    UpdateHeight(y, Fork(a, y, Fork(b, x, c)));
  }

  /** rotate_right_child: the right child of x takes its place. */
  method RotateRightChild(x: Node, ghost t: Shape) returns (y: Node)
    requires t.Fork? && t.r.Fork? && Stale(x, t) && Distinct(t) && Height(t) + 1 < U16
    modifies Nodes(t)
    ensures Linked(y, RotateLeft(t))
  {
    ghost var Fork(a, x0, Fork(b, y0, c)) := t;
    RotationKeeps(a, x0, b, y0, c);
    NodesAllocated(t);
    assert x != y0 && x !in Nodes(a) && x !in Nodes(b) && x !in Nodes(c);
    y := x.right;
    x.right := y.left;
    y.left := x;
    assert Linked(x.left, a) && Linked(x.right, b) && Linked(y.right, c);
    UpdateHeight(x, Fork(a, x, b));
    assert Linked(y.right, c);
    UpdateHeight(y, Fork(Fork(a, x, b), y, c));
  }

  /** The left side is too high. */
  method LowerLeft(x: Node, ghost t: Shape) returns (m: Node)
    requires t.Fork? && Stale(x, t) && Distinct(t) && AlmostBalanced(t) && Height(t) + 1 < U16
    requires Height(t.l) - Height(t.r) > 1
    modifies Nodes(t)
    ensures Linked(m, Rebalanced(t))
  {
    var left := x.left;
    StoredIsHeight(left.left, t.l.l);
    StoredIsHeight(left.right, t.l.r);
    if StoredHeight(left.left) >= StoredHeight(left.right) {
      m := RotateLeftChild(x, t);
    } else {
      ghost var l' := RotateLeft(t.l);
      RotationKeeps(t.l.l, t.l.x, t.l.r.l, t.l.r.x, t.l.r.r);
      DistinctFork(l', x, t.r);
      NodesAllocated(t.r);
      var y := RotateRightChild(left, t.l);
      x.left := y;
      assert Stale(x, Fork(l', x, t.r));
      m := RotateLeftChild(x, Fork(l', x, t.r));
    }
  }

  /** The right side is too high. */
  method LowerRight(x: Node, ghost t: Shape) returns (m: Node)
    requires t.Fork? && Stale(x, t) && Distinct(t) && AlmostBalanced(t) && Height(t) + 1 < U16
    requires Height(t.l) - Height(t.r) < -1
    modifies Nodes(t)
    ensures Linked(m, Rebalanced(t))
  {
    var right := x.right;
    StoredIsHeight(right.left, t.r.l);
    StoredIsHeight(right.right, t.r.r);
    if StoredHeight(right.right) >= StoredHeight(right.left) {
      m := RotateRightChild(x, t);
    } else {
      ghost var r' := RotateRight(t.r);
      RotationKeeps(t.r.l.l, t.r.l.x, t.r.l.r, t.r.x, t.r.r);
      DistinctFork(t.l, x, r');
      NodesAllocated(t.l);
      var y := RotateLeftChild(right, t.r);
      x.right := y;
      assert Stale(x, Fork(t.l, x, r'));
      m := RotateRightChild(x, Fork(t.l, x, r'));
    }
  }

  /** balance: rotate where the two sides differ by more than one, and store the height. */
  method Balance(n: Node?, ghost t: Shape) returns (m: Node?)
    requires Stale(n, t) && Distinct(t) && AlmostBalanced(t) && Height(t) + 1 < U16
    modifies Nodes(t)
    ensures Linked(m, Rebalanced(t)) && Balanced(Rebalanced(t)) && SameObjects(t, Rebalanced(t))
  {
    RebalancedSame(t);
    RebalancedBalanced(t);
    if n == null {
      return null;
    }
    StoredIsHeight(n.left, t.l);
    StoredIsHeight(n.right, t.r);
    var bf := StoredHeight(n.left) - StoredHeight(n.right);
    m := n;
    if bf > 1 {
      m := LowerLeft(n, t);
    } else if bf < -1 {
      m := LowerRight(n, t);
    }
    UpdateHeight(m, Rebalanced(t));
  }
}
