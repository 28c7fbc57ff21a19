/** The search tree itself: insert, remove and find as the kernel does them, without recursion. */
module AvlMap {
  import opened AvlShape
  import opened AvlLinks
  import opened AvlPath

  /** The capacity of the stacks. */
  const MAX_TREE_HEIGHT := 32

  /** The tree whose root is stored in the slot `at`. */
  ghost predicate Valid(at: Slot, t: Shape)
    reads at.n, Nodes(t)
  {
    Linked(Deref(at), t) && Distinct(t) && at.n !in Nodes(t) && Balanced(t) && Sorted(Keys(t))
  }

  /** Write the link at the deepest slot; the links around it stay as they are. */
  method Store(ghost c: Around, s: Slot, m: Node?)
    requires s == SlotOf(c) && LinkedAround(c) && DistinctAround(c)
    modifies s.n
    ensures Deref(s) == m && LinkedAround(c) && s.n.height == old(s.n.height)
    ensures s.LeftOf? ==> s.n.right == old(s.n.right)
    ensures s.RightOf? ==> s.n.left == old(s.n.left)
  {
    assert !c.Top? ==> LinkedAround(c.up) && c.x !in NodesAround(c.up) && Base(c.up) == Base(c);
    if s.LeftOf? {
      s.n.left := m;
    } else {
      s.n.right := m;
    }
    assert !c.Top? ==> LinkedAround(c.up);
    if !c.Top? { OwnerAround(c.up); }
  }

  /** Balance the subtree that hangs from a slot. */
  method BalanceSlot(s: Slot, ghost t: Shape)
    requires Stale(Deref(s), t) && Distinct(t) && AlmostBalanced(t) && Height(t) + 1 < U16
    requires s.n !in Nodes(t)
    modifies s.n, Nodes(t)
    ensures Linked(Deref(s), Rebalanced(t)) && Balanced(Rebalanced(t)) && SameObjects(t, Rebalanced(t))
    ensures s.n.height == old(s.n.height)
    ensures s.LeftOf? ==> s.n.right == old(s.n.right)
    ensures s.RightOf? ==> s.n.left == old(s.n.left)
  {
    var m := Balance(Deref(s), t);
    if s.LeftOf? {
      s.n.left := m;
    } else {
      s.n.right := m;
    }
  }

  /** Balance at the deepest slot; the subtree there becomes part of the one a level up. */
  method UnwindStep(ghost d: Around, ghost u: Shape, s: Slot)
    requires !d.Top? && s == SlotOf(d) && Hangs(d, u) && Apart(d, u)
    requires AlmostBalanced(u) && Height(u) + 1 < U16
    modifies d.x, Nodes(u)
    ensures Hangs(d.up, Joined(d, Rebalanced(u))) && Fields(Base(d).n) == old(Fields(Base(d).n))
  {
    AroundAllocated(d.up);
    NodesAllocated(Sibling(d));
    assert LinkedAround(d.up) && Base(d.up) == Base(d);
    assert Nodes(u) !! NodesAround(d.up) && d.x !in NodesAround(d.up);
    BalanceSlot(s, u);
    assert LinkedAround(d.up);
  }

  /** The loops that pop and balance slots until the stack is empty.  The subtree t at the deepest
      slot has taken the place of one of height h. */
  method Unwind(stack: seq<Slot>, ghost c: Around, ghost t: Shape, ghost h: int) returns (ghost u: Shape)
    requires stack == Slots(c) && Hangs(c, t) && Ready(c, t, h)
    modifies Base(c).n, NodesAround(c), Nodes(t)
    ensures Linked(Deref(Base(c)), u) && Balanced(u) && SameObjects(Plug(c, t), u)
    ensures Near(Height(u), HeightAround(c, h), 1)
    ensures Base(c).n.height == old(Base(c).n.height)
    ensures Base(c).LeftOf? ==> Base(c).n.right == old(Base(c).n.right)
    ensures Base(c).RightOf? ==> Base(c).n.left == old(Base(c).n.left)
  {
    var st := stack;
    ghost var d, k := c, h;
    u := t;
    while |st| > 1
      invariant |st| > 0 && st == Slots(d) && Hangs(d, u)
      invariant Unwinding(c, t, h, d, u, k) && Fields(Base(c).n) == old(Fields(Base(c).n))
      decreases |st|
    {
      var s := st[|st| - 1];
      st := st[..|st| - 1];
      UnwindStep(d, u, s);
      UnwindingUp(c, t, h, d, u, k);
      u, k := Joined(d, Rebalanced(u)), Max(k, Height(Sibling(d))) + 1;
      d := d.up;
    }
    u := UnwindTop(st[0], c, t, h, d, u, k);
  }

  /** The last slot. */
  method UnwindTop(s: Slot, ghost c: Around, ghost t: Shape, ghost h: int, ghost d: Around, ghost u0: Shape,
                   ghost k: int) returns (ghost u: Shape)
    requires d.Top? && [s] == Slots(d) && Hangs(d, u0) && Unwinding(c, t, h, d, u0, k)
    modifies Base(c).n, Nodes(u0)
    ensures Linked(Deref(Base(c)), u) && Balanced(u) && SameObjects(Plug(c, t), u)
    ensures Near(Height(u), HeightAround(c, h), 1)
    ensures Base(c).n.height == old(Base(c).n.height)
    ensures Base(c).LeftOf? ==> Base(c).n.right == old(Base(c).n.right)
    ensures Base(c).RightOf? ==> Base(c).n.left == old(Base(c).n.left)
  {
    BalanceSlot(s, u0);
    u := Rebalanced(u0);
  }

  /** Put another subtree at the deepest slot, in the place of one of height h, and balance upwards. */
  method Replace(stack: seq<Slot>, m: Node?, ghost c: Around, ghost t: Shape, ghost h: int)
    returns (ghost u: Shape)
    requires stack == Slots(c) && LinkedAround(c) && Stale(m, t) && Ready(c, t, h)
    modifies Base(c).n, NodesAround(c), Nodes(t)
    ensures Linked(Deref(Base(c)), u) && Balanced(u) && SameObjects(Plug(c, t), u)
    ensures Near(Height(u), HeightAround(c, h), 1)
    ensures Base(c).n.height == old(Base(c).n.height)
    ensures Base(c).LeftOf? ==> Base(c).n.right == old(Base(c).n.right)
    ensures Base(c).RightOf? ==> Base(c).n.left == old(Base(c).n.left)
  {
    NodesAllocated(t);
    OwnerAround(c);
    AroundAllocated(c);
    assert c.Top? || SlotOf(c).n != Base(c).n;
    Store(c, stack[|stack| - 1], m);
    u := Unwind(stack, c, t, h);
  }

  // ---------------------------------------------------------------- how many slots a path has

  /** The slots that the path to a key takes. */
  ghost function PathSlots(t: Shape, key: int): nat
  {
    match t
    case Empty => 1
    case Fork(l, x, r) => if x.key == key then 1 else 1 + PathSlots(if x.key < key then r else l, key)
  }

  /** The slots from an object down to the smallest one below it. */
  ghost function LeftSlots(t: Shape): nat
  {
    match t
    case Empty => 0
    case Fork(l, _, _) => 1 + LeftSlots(l)
  }

  /** The slots that removal takes: on to the successor if the object has two children. */
  ghost function RemoveSlots(t: Shape, key: int): nat
  {
    match t
    case Empty => 1
    case Fork(l, x, r) =>
      if x.key != key then 1 + RemoveSlots(if x.key < key then r else l, key)
      else if l.Fork? && r.Fork? then 1 + LeftSlots(r)
      else 1
  }

  /** No path is longer than the height allows. */
  lemma {:induction false} SlotsAtMost(t: Shape, key: int)
    ensures PathSlots(t, key) <= RemoveSlots(t, key) <= Height(t) + 2 && LeftSlots(t) <= Height(t) + 1
  {
    match t
    case Empty =>
    case Fork(l, _, r) =>
      SlotsAtMost(l, key);
      SlotsAtMost(r, key);
  }

  /** And in a balanced tree no path that ends at a free slot, or goes on to a successor, is shorter than half of it. */
  lemma {:induction false} SlotsAtLeast(t: Shape, key: int)
    requires Balanced(t)
    ensures Height(t) + 1 <= 2 * RemoveSlots(t, key) && Height(t) + 1 <= 2 * LeftSlots(t)
    ensures key !in Keys(t) ==> Height(t) + 1 <= 2 * PathSlots(t, key)
  {
    match t
    case Empty =>
    case Fork(l, x, r) =>
      SlotsAtLeast(l, key);
      SlotsAtLeast(r, key);
      assert x.key in Keys(t) && forall k :: k in Keys(l) || k in Keys(r) ==> k in Keys(t);
  }

  /** AVL_BUILD_PATH_TO_OBJ: the slots from the root down to where the key is or would be. */
  method BuildPath(at: Slot, key: int, ghost t0: Shape)
    returns (stack: seq<Slot>, ghost c: Around, ghost t: Shape)
    requires Valid(at, t0) && PathSlots(t0, key) <= MAX_TREE_HEIGHT
    ensures stack == Slots(c) && Base(c) == at && Plug(c, t) == t0 && Apart(c, t)
    ensures LinkedAround(c) && Linked(Deref(SlotOf(c)), t)
    ensures |stack| == PathSlots(t0, key) && |stack| - 1 + RemoveSlots(t, key) == RemoveSlots(t0, key)
    ensures Between(c, key) && (t.Fork? ==> t.x.key == key)
  {
    stack, c, t := [at], Top(at), t0;
    while Deref(stack[|stack| - 1]) != null
      invariant stack == Slots(c) && |stack| > 0 && stack[|stack| - 1] == SlotOf(c) && Base(c) == at
      invariant Plug(c, t) == t0 && Apart(c, t) && Between(c, key)
      invariant LinkedAround(c) && Linked(Deref(SlotOf(c)), t) && |stack| - 1 + PathSlots(t, key) == PathSlots(t0, key)
      invariant |stack| - 1 + RemoveSlots(t, key) == RemoveSlots(t0, key)
      decreases t
    {
      var node := Deref(stack[|stack| - 1]);
      if node.key == key {
        break;
      }
      assert |stack| < MAX_TREE_HEIGHT;
      BetweenDown(c, t, key);
      if node.key < key {
        stack := stack + [RightOf(node)];
        ApartUp(InRight(c, t.l, t.x), t.r);
        c, t := InRight(c, t.l, t.x), t.r;
      } else {
        stack := stack + [LeftOf(node)];
        ApartUp(InLeft(c, t.x, t.r), t.l);
        c, t := InLeft(c, t.x, t.r), t.l;
      }
    }
  }

  ghost function KeySet(t: Shape): set<int>
  {
    set k | k in Keys(t)
  }

  /** bintree_insert_internal. */
  method Insert(at: Slot, obj: Node, ghost t: Shape) returns (inserted: bool, ghost u: Shape)
    requires Valid(at, t) && PathSlots(t, obj.key) <= MAX_TREE_HEIGHT
    requires obj != at.n && obj !in Nodes(t) && obj.left == null && obj.right == null && obj.height == 0
    modifies at.n, Nodes(t), obj
    ensures Valid(at, u) && (inserted <==> obj.key !in KeySet(t))
    ensures inserted ==> KeySet(u) == KeySet(t) + {obj.key} && Nodes(u) == Nodes(t) + {obj}
    ensures !inserted ==> u == t
  {
    if Deref(at) == null {
      u := Fork(Empty, obj, Empty);
      if at.LeftOf? { at.n.left := obj; } else { at.n.right := obj; }
      return true, u;
    }
    NodesAllocated(t);
    var stack;
    ghost var c, gap;
    stack, c, gap := BuildPath(at, obj.key, t);
    NodesOfPlug(c, gap);
    var dest := stack[|stack| - 1];
    if Deref(dest) != null {
      FoundKey(c, gap);
      return false, t;
    }
    NotInGap(c, obj.key);
    SlotsAtLeast(t, obj.key);
    u := InsertAt(stack, obj, c, t);
    inserted := true;
  }

  /** Place the object at the last slot of the path and balance upwards. */
  method InsertAt(stack: seq<Slot>, obj: Node, ghost c: Around, ghost t: Shape) returns (ghost u: Shape)
    requires stack == Slots(c) && LinkedAround(c) && Plug(c, Empty) == t && Apart(c, Empty)
    requires Balanced(t) && Sorted(Keys(t)) && Between(c, obj.key) && Height(t) + 3 < U16
    requires obj !in NodesAround(c) && obj != Base(c).n && obj.left == null && obj.right == null
    modifies Base(c).n, NodesAround(c), obj
    ensures Valid(Base(c), u) && obj.key !in KeySet(t)
    ensures KeySet(u) == KeySet(t) + {obj.key} && Nodes(u) == NodesAround(c) + {obj}
  {
    ghost var one := Fork(Empty, obj, Empty);
    InsertReady(c, obj, t);
    InsertKeys(c, obj, t);
    NodesOfPlug(c, one);
    u := Replace(stack, obj, c, one, -1);
  }

  lemma {:induction false} FoundKey(c: Around, t: Shape)
    requires t.Fork?
    ensures t.x.key in Keys(Plug(c, t))
  {
    KeysOfPlug(c, t);
    assert Keys(t)[|Keys(t.l)|] == t.x.key;
  }

  lemma {:induction false} InsertReady(c: Around, obj: Node, t: Shape)
    requires Plug(c, Empty) == t && Apart(c, Empty) && Balanced(t)
    requires obj !in NodesAround(c) && obj != Base(c).n && Height(t) + 3 < U16
    ensures Ready(c, Fork(Empty, obj, Empty), -1)
  {
    BalancedPlug(c, Empty);
    assert Nodes(Fork(Empty, obj, Empty)) == {obj};
  }

  lemma {:induction false} InsertKeys(c: Around, obj: Node, t: Shape)
    requires Plug(c, Empty) == t && Sorted(Keys(t)) && Between(c, obj.key)
    ensures obj.key !in KeySet(t)
    ensures var u := Plug(c, Fork(Empty, obj, Empty)); Sorted(Keys(u)) && KeySet(u) == KeySet(t) + {obj.key}
  {
    KeysOfPlug(c, Empty);
    KeysOfPlug(c, Fork(Empty, obj, Empty));
    assert Keys(t) == KeysLeft(c) + KeysRight(c);
    assert Keys(Fork(Empty, obj, Empty)) == [obj.key];
    SortedFill(KeysLeft(c), obj.key, KeysRight(c));
  }

  // ---------------------------------------------------------------- remove

  /** The slots from the right link of x down to its successor, the smallest object on that side. */
  method SuccessorPath(x: Node, ghost r: Shape, used: nat)
    returns (more: seq<Slot>, s: Node, ghost d: Around, ghost sr: Shape)
    requires Linked(x.right, r) && r.Fork? && Distinct(r) && x !in Nodes(r)
    requires used + LeftSlots(r) <= MAX_TREE_HEIGHT
    ensures more == Slots(d) && Base(d) == RightOf(x) && Plug(d, Fork(Empty, s, sr)) == r
    ensures Apart(d, Fork(Empty, s, sr)) && LinkedAround(d) && Linked(Deref(SlotOf(d)), Fork(Empty, s, sr))
    ensures KeysLeft(d) == [] && |more| == LeftSlots(r)
  {
    more, d := [RightOf(x)], Top(RightOf(x));
    ghost var t := r;
    s := x.right;
    while s.left != null
      invariant more == Slots(d) && Base(d) == RightOf(x) && Plug(d, t) == r && Apart(d, t) && t.Fork? && t.x == s
      invariant LinkedAround(d) && Linked(Deref(SlotOf(d)), t) && KeysLeft(d) == []
      invariant |more| - 1 + LeftSlots(t) == LeftSlots(r)
      decreases t
    {
      assert used + |more| < MAX_TREE_HEIGHT;
      more := more + [LeftOf(s)];
      ApartUp(InLeft(d, t.x, t.r), t.l);
      d, t := InLeft(d, t.x, t.r), t.l;
      s := s.left;
    }
    sr := t.r;
  }

  /** Leaving out the root of a subtree leaves its key out. */
  lemma {:induction false} RemovedKeys(c: Around, t: Shape, v: Shape)
    requires t.Fork? && Sorted(Keys(Plug(c, t))) && Keys(v) == Keys(t.l) + Keys(t.r)
    ensures Sorted(Keys(Plug(c, v))) && KeySet(Plug(c, v)) == KeySet(Plug(c, t)) - {t.x.key}
    ensures t.x.key in KeySet(Plug(c, t))
  {
    KeysOfPlug(c, t);
    KeysOfPlug(c, v);
    DropMiddle(KeysLeft(c), Keys(t.l), t.x.key, Keys(t.r), KeysRight(c));
  }

  lemma {:induction false} DropMiddle(a: seq<int>, b: seq<int>, x: int, d: seq<int>, e: seq<int>)
    requires Sorted(a + (b + [x] + d) + e)
    ensures var s, u := a + (b + d) + e, a + (b + [x] + d) + e;
      Sorted(s) && x in u && forall k :: k in s <==> k in u && k != x
  {
    assert a + (b + [x] + d) + e == (a + b) + [x] + (d + e) && a + (b + d) + e == (a + b) + (d + e);
    SortedDrop(a + b, x, d + e);
    assert ((a + b) + [x] + (d + e))[|a + b|] == x;
  }

  /** With one child or none, that child takes the place of the object. */
  lemma {:induction false} ShortReady(c: Around, t: Shape, v: Shape)
    requires t.Fork? && Apart(c, t) && Balanced(Plug(c, t)) && Height(Plug(c, t)) + 2 < U16
    requires (t.l.Empty? && v == t.r) || (t.r.Empty? && v == t.l)
    ensures Ready(c, v, Height(t)) && Keys(v) == Keys(t.l) + Keys(t.r) && Nodes(v) == Nodes(t) - {t.x}
  {
    BalancedPlug(c, t);
    HeightAroundAbove(c, Height(t));
    RebalancedBalanced(v);
  }

  lemma {:induction false} ShortFits(c: Around, t: Shape, v: Shape)
    requires t.Fork? && Apart(c, t) && Balanced(Plug(c, t)) && Height(Plug(c, t)) + 2 < U16
    requires Sorted(Keys(Plug(c, t))) && ((t.l.Empty? && v == t.r) || (t.r.Empty? && v == t.l))
    ensures Ready(c, v, Height(t)) && Nodes(v) <= Nodes(t)
    ensures Fits(Base(c), Plug(c, v)) && KeySet(Plug(c, v)) == KeySet(Plug(c, t)) - {t.x.key}
    ensures Nodes(Plug(c, v)) == NodesAround(c) + Nodes(t) - {t.x}
  {
    ShortReady(c, t, v);
    RemovedKeys(c, t, v);
    NodesOfPlug(c, v);
  }

  /** What is asked of the objects and keys of a tree at a slot. */
  ghost predicate Fits(at: Slot, t: Shape)
  {
    Distinct(t) && at.n !in Nodes(t) && Sorted(Keys(t))
  }

  lemma {:induction false} FitsSame(at: Slot, t: Shape, u: Shape)
    requires Fits(at, t) && SameObjects(t, u)
    ensures Fits(at, u) && KeySet(u) == KeySet(t) && Nodes(u) == Nodes(t)
  {
  }

  /** The right child of the successor takes its place. */
  lemma {:induction false} SuccessorReady(d: Around, s: Node, sr: Shape)
    requires Apart(d, Fork(Empty, s, sr)) && Balanced(Plug(d, Fork(Empty, s, sr)))
    requires Height(Plug(d, Fork(Empty, s, sr))) + 2 < U16
    ensures Ready(d, sr, Height(Fork(Empty, s, sr)))
    ensures HeightAround(d, Height(Fork(Empty, s, sr))) == Height(Plug(d, Fork(Empty, s, sr)))
  {
    BalancedPlug(d, Fork(Empty, s, sr));
    HeightAroundAbove(d, Height(Fork(Empty, s, sr)));
    RebalancedBalanced(sr);
  }

  lemma {:induction false} SuccessorFits(d: Around, s: Node, sr: Shape)
    requires Apart(d, Fork(Empty, s, sr)) && KeysLeft(d) == []
    ensures [s.key] + Keys(Plug(d, sr)) == Keys(Plug(d, Fork(Empty, s, sr)))
    ensures Nodes(Plug(d, sr)) == NodesAround(d) + Nodes(sr) && Distinct(Plug(d, sr))
  {
    FirstKey(d, s, sr);
    NodesOfPlug(d, sr);
  }

  lemma {:induction false} FirstKey(d: Around, s: Node, sr: Shape)
    requires KeysLeft(d) == []
    ensures [s.key] + Keys(Plug(d, sr)) == Keys(Plug(d, Fork(Empty, s, sr)))
  {
    KeysOfPlug(d, Fork(Empty, s, sr));
    KeysOfPlug(d, sr);
    assert Keys(Fork(Empty, s, sr)) == [s.key] + Keys(sr);
    assert [] + ([s.key] + Keys(sr)) + KeysRight(d) == [s.key] + ([] + Keys(sr) + KeysRight(d));
  }

  /** The successor takes the place of the object, above what is left on the right side. */
  lemma {:induction false} ReplacedReady(c: Around, t: Shape, s: Node, r: Shape)
    requires t.Fork? && Apart(c, t) && Balanced(Plug(c, t)) && Height(Plug(c, t)) + 2 < U16
    requires s in Nodes(t.r) && Nodes(r) == Nodes(t.r) - {s} && Distinct(r)
    requires Balanced(r) && Near(Height(r), Height(t.r), 1)
    ensures Ready(c, Fork(t.l, s, r), Height(t))
  {
    BalancedPlug(c, t);
    HeightAroundAbove(c, Height(t));
    ReplacedHeights(t, s, r);
    ReplacedApart(c, t, s, r);
  }

  lemma {:induction false} ReplacedHeights(t: Shape, s: Node, r: Shape)
    requires t.Fork? && Balanced(t) && Balanced(r) && Near(Height(r), Height(t.r), 1)
    ensures var u := Fork(t.l, s, r);
      AlmostBalanced(u) && Near(Height(Rebalanced(u)), Height(t), 1) && Height(u) <= Height(t) + 1
  {
    RebalancedBalanced(Fork(t.l, s, r));
  }

  lemma {:induction false} ReplacedApart(c: Around, t: Shape, s: Node, r: Shape)
    requires t.Fork? && Apart(c, t) && s in Nodes(t.r) && Nodes(r) == Nodes(t.r) - {s} && Distinct(r)
    ensures Apart(c, Fork(t.l, s, r)) && Nodes(Fork(t.l, s, r)) == Nodes(t) - {t.x}
  {
    DistinctFork(t.l, s, r);
    assert Nodes(t) == Nodes(t.l) + {t.x} + Nodes(t.r);
  }

  /** The object at the end of the path has a side without objects: the other side takes its place. */
  method RemoveShort(stack: seq<Slot>, ghost c: Around, ghost t: Shape) returns (ghost u: Shape)
    requires stack == Slots(c) && LinkedAround(c) && Linked(Deref(SlotOf(c)), t) && t.Fork? && Apart(c, t)
    requires Balanced(Plug(c, t)) && Sorted(Keys(Plug(c, t))) && Height(Plug(c, t)) + 2 < U16
    requires t.l.Empty? || t.r.Empty?
    modifies Base(c).n, NodesAround(c)
    modifies Nodes(t)
    ensures Valid(Base(c), u) && KeySet(u) == KeySet(Plug(c, t)) - {t.x.key}
    ensures Nodes(u) == NodesAround(c) + Nodes(t) - {t.x}
  {
    var top := stack[|stack| - 1];
    var x := Deref(top);
    ghost var v := if t.l.Empty? then t.r else t.l;
    ShortFits(c, t, v);
    u := Replace(stack, if x.left != null then x.left else x.right, c, v, Height(t));
    FitsSame(Base(c), Plug(c, v), u);
  }

  /** The successor is taken out of the right side of x, which is balanced again. */
  method TakeSuccessor(more: seq<Slot>, s: Node, ghost d: Around, ghost sr: Shape) returns (ghost r: Shape)
    requires more == Slots(d) && LinkedAround(d) && Linked(s.right, sr)
    requires Apart(d, Fork(Empty, s, sr)) && KeysLeft(d) == []
    requires Balanced(Plug(d, Fork(Empty, s, sr))) && Height(Plug(d, Fork(Empty, s, sr))) + 2 < U16
    modifies Base(d).n, NodesAround(d), Nodes(sr)
    ensures Linked(Deref(Base(d)), r) && Balanced(r) && Distinct(r)
    ensures Near(Height(r), Height(Plug(d, Fork(Empty, s, sr))), 1)
    ensures [s.key] + Keys(r) == Keys(Plug(d, Fork(Empty, s, sr)))
    ensures Nodes(r) == NodesAround(d) + Nodes(sr)
    ensures Base(d).n.height == old(Base(d).n.height)
    ensures Base(d).LeftOf? ==> Base(d).n.right == old(Base(d).n.right)
    ensures Base(d).RightOf? ==> Base(d).n.left == old(Base(d).n.left)
  {
    ghost var one := Fork(Empty, s, sr);
    SuccessorReady(d, s, sr);
    SuccessorFits(d, s, sr);
    r := Replace(more, s.right, d, sr, Height(one));
  }

  /** What is known once the successor s of the root of t is found: d leads to it, sr is on its right. */
  ghost predicate Successor(t: Shape, s: Node, d: Around, sr: Shape)
  {
    && t.Fork? && Base(d) == RightOf(t.x) && Plug(d, Fork(Empty, s, sr)) == t.r
    && Apart(d, Fork(Empty, s, sr)) && KeysLeft(d) == []
  }

  /** The parts that change together have no object in common: what is around x, its left side l, the
      successor s, and x with the rest of its right side. */
  ghost predicate Clear(c: Around, x: Node, l: Shape, s: Node, d: Around, sr: Shape)
  {
    var touched := {x} + NodesAround(d) + Nodes(sr);
    && DistinctAround(c) && touched !! Nodes(l) && touched !! NodesAround(c) && Base(c).n !in touched
    && Nodes(l) !! NodesAround(c) && Base(c).n !in Nodes(l)
    && s !in touched && s !in Nodes(l) && s !in NodesAround(c) && Base(c).n != s
  }

  lemma {:induction false} DetachClear(c: Around, t: Shape, s: Node, d: Around, sr: Shape)
    requires Apart(c, t) && Successor(t, s, d, sr)
    ensures Clear(c, t.x, t.l, s, d, sr)
    ensures s in Nodes(t.r) && NodesAround(d) + Nodes(sr) == Nodes(t.r) - {s}
  {
    SuccessorNodes(t, s, d, sr);
    assert Nodes(t) == Nodes(t.l) + {t.x} + Nodes(t.r);
  }

  /** The successor is stored in the slot of the object to remove. */
  method MoveUp(top: Slot, x: Node, s: Node, ghost c: Around, ghost l: Shape, ghost d: Around, ghost sr: Shape)
    requires Clear(c, x, l, s, d, sr) && top == SlotOf(c) && Base(d).n == x
    requires LinkedAround(c) && Linked(x.left, l) && LinkedAround(d) && Linked(s.right, sr)
    modifies top.n
    ensures Deref(top) == s
    ensures LinkedAround(c) && Linked(x.left, l) && LinkedAround(d) && Linked(s.right, sr)
  {
    NodesAllocated(l);
    NodesAllocated(sr);
    AroundAllocated(d);
    OwnerAround(c);
    Store(c, top, s);
  }

  /** The successor is taken out of the right side of x. */
  method Detach(x: Node, more: seq<Slot>, s: Node, ghost c: Around, ghost l: Shape, ghost d: Around,
                ghost sr: Shape) returns (ghost r: Shape)
    requires Clear(c, x, l, s, d, sr) && Base(d) == RightOf(x) && more == Slots(d)
    requires LinkedAround(c) && Linked(x.left, l) && LinkedAround(d) && Linked(s.right, sr)
    requires Deref(SlotOf(c)) == s && Apart(d, Fork(Empty, s, sr)) && KeysLeft(d) == []
    requires Balanced(Plug(d, Fork(Empty, s, sr))) && Height(Plug(d, Fork(Empty, s, sr))) + 2 < U16
    modifies x, NodesAround(d), Nodes(sr)
    ensures LinkedAround(c) && Deref(SlotOf(c)) == s && Linked(x.left, l) && Linked(x.right, r)
    ensures Balanced(r) && Distinct(r) && Near(Height(r), Height(Plug(d, Fork(Empty, s, sr))), 1)
    ensures [s.key] + Keys(r) == Keys(Plug(d, Fork(Empty, s, sr))) && Nodes(r) == NodesAround(d) + Nodes(sr)
  {
    NodesAllocated(l);
    AroundAllocated(c);
    OwnerAround(c);
    r := TakeSuccessor(more, s, d, sr);
    assert LinkedAround(c) == old(LinkedAround(c));
    assert Linked(x.left, l) == old(Linked(x.left, l));
  }

  /** The successor takes over the two sides. */
  method Adopt(top: Slot, x: Node, s: Node, ghost c: Around, ghost l: Shape, ghost r: Shape)
    requires top == SlotOf(c) && LinkedAround(c) && Deref(top) == s && Linked(x.left, l) && Linked(x.right, r)
    requires s !in NodesAround(c) && s != Base(c).n && s !in Nodes(l) && s !in Nodes(r) && x != s
    modifies s
    ensures Hangs(c, Fork(l, s, r))
  {
    OwnerAround(c);
    s.left := x.left;
    s.right := x.right;
  }

  lemma {:induction false} SuccessorNodes(t: Shape, s: Node, d: Around, sr: Shape)
    requires Successor(t, s, d, sr)
    ensures s in Nodes(t.r) && NodesAround(d) + Nodes(sr) == Nodes(t.r) - {s}
  {
    NodesOfPlug(d, Fork(Empty, s, sr));
    assert Nodes(Fork(Empty, s, sr)) == {s} + Nodes(sr);
  }

  /** The successor takes the place of the object to remove. */
  method Splice(top: Slot, more: seq<Slot>, s: Node, ghost c: Around, ghost t: Shape, ghost d: Around,
                ghost sr: Shape) returns (ghost r: Shape)
    requires top == SlotOf(c) && LinkedAround(c) && Linked(Deref(top), t) && Apart(c, t)
    requires Balanced(t) && Height(t) + 2 < U16
    requires Successor(t, s, d, sr) && more == Slots(d) && LinkedAround(d) && Linked(s.right, sr)
    modifies top.n, Nodes(t)
    ensures Hangs(c, Fork(t.l, s, r)) && Balanced(r) && Distinct(r) && Near(Height(r), Height(t.r), 1)
    ensures [s.key] + Keys(r) == Keys(t.r) && s in Nodes(t.r) && Nodes(r) == Nodes(t.r) - {s}
  {
    var x := Deref(top);
    DetachClear(c, t, s, d, sr);
    MoveUp(top, x, s, c, t.l, d, sr);
    r := Detach(x, more, s, c, t.l, d, sr);
    Adopt(top, x, s, c, t.l, r);
  }

  lemma {:induction false} ReplacedFits(c: Around, t: Shape, s: Node, r: Shape)
    requires t.Fork? && Apart(c, t) && Balanced(Plug(c, t)) && Height(Plug(c, t)) + 2 < U16
    requires Sorted(Keys(Plug(c, t))) && [s.key] + Keys(r) == Keys(t.r)
    requires s in Nodes(t.r) && Nodes(r) == Nodes(t.r) - {s} && Distinct(r)
    requires Balanced(r) && Near(Height(r), Height(t.r), 1)
    ensures var v := Fork(t.l, s, r);
      && Ready(c, v, Height(t)) && Nodes(v) <= Nodes(t)
      && Fits(Base(c), Plug(c, v)) && KeySet(Plug(c, v)) == KeySet(Plug(c, t)) - {t.x.key}
      && Nodes(Plug(c, v)) == NodesAround(c) + Nodes(t) - {t.x}
  {
    var v := Fork(t.l, s, r);
    ReplacedReady(c, t, s, r);
    ReplacedApart(c, t, s, r);
    ReplacedKeys(t.l, s, r, Keys(t.r));
    RemovedKeys(c, t, v);
    NodesOfPlug(c, v);
  }

  lemma {:induction false} ReplacedKeys(l: Shape, s: Node, r: Shape, keys: seq<int>)
    requires [s.key] + Keys(r) == keys
    ensures Keys(Fork(l, s, r)) == Keys(l) + keys
  {
    assert Keys(l) + [s.key] + Keys(r) == Keys(l) + ([s.key] + Keys(r));
  }

  /** The successor takes the place of the root of t. */
  method PutSuccessor(top: Slot, used: nat, ghost c: Around, ghost t: Shape) returns (ghost s: Node, ghost r: Shape)
    requires top == SlotOf(c) && LinkedAround(c) && Linked(Deref(top), t) && t.Fork? && t.r.Fork? && Apart(c, t)
    requires Balanced(t) && Height(t) + 2 < U16 && used + LeftSlots(t.r) <= MAX_TREE_HEIGHT
    modifies top.n, Nodes(t)
    ensures Hangs(c, Fork(t.l, s, r)) && Balanced(r) && Distinct(r) && Near(Height(r), Height(t.r), 1)
    ensures [s.key] + Keys(r) == Keys(t.r) && s in Nodes(t.r) && Nodes(r) == Nodes(t.r) - {s}
  {
    NodesAllocated(t);
    AroundAllocated(c);
    OwnerAround(c);
    var x := Deref(top);
    var more, y;
    ghost var d, sr;
    more, y, d, sr := SuccessorPath(x, t.r, used);
    s := y;
    r := Splice(top, more, y, c, t, d, sr);
  }

  /** The object at the end of the path has both sides: its successor takes its place. */
  method RemoveTwo(stack: seq<Slot>, ghost c: Around, ghost t: Shape) returns (ghost u: Shape)
    requires stack == Slots(c) && LinkedAround(c) && Linked(Deref(SlotOf(c)), t) && t.Fork? && Apart(c, t)
    requires Balanced(Plug(c, t)) && Sorted(Keys(Plug(c, t))) && Height(Plug(c, t)) + 2 < U16
    requires t.r.Fork? && |stack| + LeftSlots(t.r) <= MAX_TREE_HEIGHT
    modifies Base(c).n, NodesAround(c)
    modifies Nodes(t)
    ensures Valid(Base(c), u) && KeySet(u) == KeySet(Plug(c, t)) - {t.x.key}
    ensures Nodes(u) == NodesAround(c) + Nodes(t) - {t.x}
  {
    OwnerAround(c);
    NodesAllocated(t);
    AroundAllocated(c);
    BalancedPlug(c, t);
    HeightAroundAbove(c, Height(t));
    ghost var s, r;
    s, r := PutSuccessor(stack[|stack| - 1], |stack|, c, t);
    ReplacedFits(c, t, s, r);
    u := Unwind(stack, c, Fork(t.l, s, r), Height(t));
    FitsSame(Base(c), Plug(c, Fork(t.l, s, r)), u);
  }

  /** bintree_remove_internal. */
  method Remove(at: Slot, key: int, ghost t: Shape) returns (deleted: Node?, ghost u: Shape)
    requires Valid(at, t) && RemoveSlots(t, key) <= MAX_TREE_HEIGHT
    modifies at.n, Nodes(t)
    ensures Valid(at, u) && KeySet(u) == KeySet(t) - {key} && (deleted != null <==> key in KeySet(t))
    ensures deleted != null ==> deleted.key == key && deleted in Nodes(t) && Nodes(u) == Nodes(t) - {deleted}
    ensures deleted == null ==> u == t
  {
    NodesAllocated(t);
    SlotsAtMost(t, key);
    SlotsAtLeast(t, key);
    var stack;
    ghost var c, s;
    stack, c, s := BuildPath(at, key, t);
    NodesOfPlug(c, s);
    deleted := Deref(stack[|stack| - 1]);
    if deleted == null {
      NotInGap(c, key);
      return null, t;
    }
    FoundKey(c, s);
    if deleted.left != null && deleted.right != null {
      u := RemoveTwo(stack, c, s);
    } else {
      u := RemoveShort(stack, c, s);
    }
  }
}
