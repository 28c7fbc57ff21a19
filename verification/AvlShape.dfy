/**
 The values behind a search tree: which objects it links, in which shape.  Rotations and rebalancing
 as functions on shapes, with what they keep.
*/
module AvlShape {

  /** An object in a tree; `height` is a 16-bit field. */
  class Node {
    const key: int
    var left: Node?
    var right: Node?
    var height: int

    constructor (key: int)
      ensures this.key == key && left == null && right == null && height == 0
    {
      this.key := key;
      left, right, height := null, null, 0;
    }
  }

  datatype Shape = Empty | Fork(l: Shape, x: Node, r: Shape)

  function Max(a: int, b: int): int { if a >= b then a else b }

  ghost function Nodes(t: Shape): set<Node>
  {
    match t
    case Empty => {}
    case Fork(l, x, r) => Nodes(l) + {x} + Nodes(r)
  }

  /** No object occurs twice. */
  ghost predicate Distinct(t: Shape)
  {
    match t
    case Empty => true
    case Fork(l, x, r) => Distinct(l) && Distinct(r) && x !in Nodes(l) && x !in Nodes(r) && Nodes(l) !! Nodes(r)
  }

  ghost function Height(t: Shape): (h: int)
    ensures h >= -1
  {
    match t
    case Empty => -1
    case Fork(l, _, r) => Max(Height(l), Height(r)) + 1
  }

  /** The keys from left to right. */
  ghost function Keys(t: Shape): seq<int>
  {
    match t
    case Empty => []
    case Fork(l, x, r) => Keys(l) + [x.key] + Keys(r)
  }

  ghost predicate Near(a: int, b: int, d: int) { a - b <= d && b - a <= d }

  ghost predicate Balanced(t: Shape)
  {
    match t
    case Empty => true
    case Fork(l, _, r) => Balanced(l) && Balanced(r) && Near(Height(l), Height(r), 1)
  }

  /** Balanced below the root, where the two sides may differ by two. */
  ghost predicate AlmostBalanced(t: Shape)
  {
    match t
    case Empty => true
    case Fork(l, _, r) => Balanced(l) && Balanced(r) && Near(Height(l), Height(r), 2)
  }

  // ---------------------------------------------------------------- rotations

  /** The left child moves up. */
  ghost function RotateRight(t: Shape): Shape
    requires t.Fork? && t.l.Fork?
  {
    Fork(t.l.l, t.l.x, Fork(t.l.r, t.x, t.r))
  }

  /** The right child moves up. */
  ghost function RotateLeft(t: Shape): Shape
    requires t.Fork? && t.r.Fork?
  {
    Fork(Fork(t.l, t.x, t.r.l), t.r.x, t.r.r)
  }

  ghost function Rebalanced(t: Shape): Shape
    requires AlmostBalanced(t)
  {
    match t
    case Empty => t
    case Fork(l, x, r) =>
      if Height(l) - Height(r) > 1 then
        if Height(l.l) >= Height(l.r) then RotateRight(t)
        else RotateRight(Fork(RotateLeft(l), x, r))
      else if Height(l) - Height(r) < -1 then
        if Height(r.r) >= Height(r.l) then RotateLeft(t)
        else RotateLeft(Fork(l, x, RotateRight(r)))
      else t
  }

  /** A rotation keeps the objects and their order. */
  lemma {:induction false} RotationKeeps(a: Shape, y: Node, b: Shape, x: Node, c: Shape)
    ensures var p, q := Fork(Fork(a, y, b), x, c), Fork(a, y, Fork(b, x, c));
      Keys(p) == Keys(q) && Nodes(p) == Nodes(q) && (Distinct(p) <==> Distinct(q))
  {
    var l, r := Fork(a, y, b), Fork(b, x, c);
    assert Nodes(l) == Nodes(a) + {y} + Nodes(b) && Nodes(r) == Nodes(b) + {x} + Nodes(c);
    DistinctFork(l, x, c);
    DistinctFork(a, y, b);
    DistinctFork(a, y, r);
    DistinctFork(b, x, c);
  }

  lemma {:induction false} DistinctFork(l: Shape, x: Node, r: Shape)
    ensures Distinct(Fork(l, x, r)) <==>
      Distinct(l) && Distinct(r) && x !in Nodes(l) && x !in Nodes(r) && Nodes(l) !! Nodes(r)
  {
  }

  ghost predicate SameObjects(t: Shape, u: Shape)
  {
    Keys(t) == Keys(u) && Nodes(t) == Nodes(u) && (Distinct(t) <==> Distinct(u))
  }

  lemma {:induction false} SameSides(l: Shape, l': Shape, x: Node, r: Shape, r': Shape)
    requires SameObjects(l, l') && SameObjects(r, r')
    ensures SameObjects(Fork(l, x, r), Fork(l', x, r'))
  {
  }

  lemma {:induction false} RebalancedSame(t: Shape)
    requires AlmostBalanced(t)
    ensures SameObjects(t, Rebalanced(t))
  {
    if t.Fork? {
      var Fork(l, x, r) := t;
      if Height(l) - Height(r) > 1 {
        RotationKeeps(l.l, l.x, l.r, x, r);
        if Height(l.l) < Height(l.r) {
          var l' := RotateLeft(l);
          RotationKeeps(l.l, l.x, l.r.l, l.r.x, l.r.r);
          SameSides(l, l', x, r, r);
          RotationKeeps(l'.l, l'.x, l'.r, x, r);
        }
      } else if Height(l) - Height(r) < -1 {
        RotationKeeps(l, x, r.l, r.x, r.r);
        if Height(r.r) < Height(r.l) {
          var r' := RotateRight(r);
          RotationKeeps(r.l.l, r.l.x, r.l.r, r.x, r.r);
          SameSides(l, l, x, r, r');
          RotationKeeps(l, x, r'.l, r'.x, r'.r);
        }
      }
    }
  }

  /** Rebalancing restores the balance; the height drops by at most one. */
  lemma {:induction false} RebalancedBalanced(t: Shape)
    requires AlmostBalanced(t)
    ensures Balanced(Rebalanced(t)) && Height(t) - 1 <= Height(Rebalanced(t)) <= Height(t)
    ensures Balanced(t) ==> Rebalanced(t) == t
  {
    if t.Fork? {
      var Fork(l, x, r) := t;
      if Height(l) - Height(r) > 1 {
        if Height(l.l) < Height(l.r) { DoubleRotation(l.l, l.x, l.r.l, l.r.x, l.r.r, x, r); }
      } else if Height(l) - Height(r) < -1 {
        if Height(r.r) < Height(r.l) { DoubleRotation(l, x, r.l.l, r.l.x, r.l.r, r.x, r.r); }
      }
    }
  }

  /** Both double rotations end in the same shape, from a middle that was too high. */
  lemma {:induction false} DoubleRotation(a: Shape, y: Node, b: Shape, z: Node, c: Shape, x: Node, d: Shape)
    requires Balanced(a) && Balanced(Fork(b, z, c)) && Balanced(d)
    requires Height(a) == Height(d) == Height(Fork(b, z, c)) - 1
    ensures var u := Fork(Fork(a, y, b), z, Fork(c, x, d));
      Balanced(u) && Height(u) == Height(a) + 2
  {
    assert Balanced(Fork(a, y, b)) && Balanced(Fork(c, x, d));
  }
}
