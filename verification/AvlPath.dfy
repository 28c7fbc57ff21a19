/**
 The path from the root to a node, as the explicit stack of slots that insert and remove keep.  A slot
 is the place a link is stored in: a child field of an object.  The variable with the root of a tree is
 such a slot too, in an object of its own that is not in the tree.
*/
module AvlPath {
  import opened AvlShape
  import opened AvlLinks

  datatype Slot = LeftOf(n: Node) | RightOf(n: Node)

  function Deref(s: Slot): Node?
    reads s.n
  {
    if s.LeftOf? then s.n.left else s.n.right
  }

  /** What lies around a subtree, from the slot `base` down to the slot the subtree hangs from. */
  datatype Around =
    | Top(base: Slot)
    | InLeft(up: Around, x: Node, r: Shape)
    | InRight(up: Around, l: Shape, x: Node)

  function Base(c: Around): Slot
  {
    if c.Top? then c.base else Base(c.up)
  }

  function SlotOf(c: Around): Slot
  {
    match c
    case Top(b) => b
    case InLeft(_, x, _) => LeftOf(x)
    case InRight(_, _, x) => RightOf(x)
  }

  /** The stack: all slots on the way, the deepest last. */
  function Slots(c: Around): seq<Slot>
  {
    if c.Top? then [c.base] else Slots(c.up) + [SlotOf(c)]
  }

  ghost function Sibling(c: Around): Shape
    requires !c.Top?
  {
    if c.InLeft? then c.r else c.l
  }

  /** One level up, when t hangs from the slot of c. */
  ghost function Joined(c: Around, t: Shape): Shape
    requires !c.Top?
  {
    if c.InLeft? then Fork(t, c.x, c.r) else Fork(c.l, c.x, t)
  }

  /** The whole tree below the base. */
  ghost function Plug(c: Around, t: Shape): Shape
    decreases c
  {
    if c.Top? then t else Plug(c.up, Joined(c, t))
  }

  ghost function NodesAround(c: Around): set<Node>
  {
    if c.Top? then {} else NodesAround(c.up) + {c.x} + Nodes(Sibling(c))
  }

  ghost predicate DistinctAround(c: Around)
  {
    if c.Top? then true else
      && DistinctAround(c.up) && Distinct(Sibling(c))
      && c.x !in NodesAround(c.up) && c.x !in Nodes(Sibling(c)) && c.x != Base(c).n
      && Nodes(Sibling(c)) !! NodesAround(c.up) && Base(c).n !in Nodes(Sibling(c))
  }

  /** t hangs from the slot of c and shares no object with what is around it. */
  ghost predicate Apart(c: Around, t: Shape)
  {
    DistinctAround(c) && Distinct(t) && Nodes(t) !! NodesAround(c) && Base(c).n !in Nodes(t)
  }

  /** The height of the whole when the subtree has height h. */
  ghost function HeightAround(c: Around, h: int): int
    decreases c
  {
    if c.Top? then h else HeightAround(c.up, Max(h, Height(Sibling(c))) + 1)
  }

  /** Balanced all the way up when the subtree has height h. */
  ghost predicate BalancedAround(c: Around, h: int)
    decreases c
  {
    if c.Top? then true else
      && Balanced(Sibling(c)) && Near(h, Height(Sibling(c)), 1)
      && BalancedAround(c.up, Max(h, Height(Sibling(c))) + 1)
  }

  lemma {:induction false} OwnerAround(c: Around)
    ensures SlotOf(c).n in NodesAround(c) || SlotOf(c).n == Base(c).n
  {
  }

  lemma {:induction false} AroundAllocated(c: Around)
    ensures forall o :: o in NodesAround(c) ==> allocated(o)
    ensures allocated(Base(c).n)
  {
    if !c.Top? {
      NodesAllocated(Sibling(c));
      AroundAllocated(c.up);
    }
  }

  // ---------------------------------------------------------------- taking a tree apart

  lemma {:induction false} ApartUp(c: Around, t: Shape)
    requires !c.Top?
    ensures Apart(c, t) <==> Apart(c.up, Joined(c, t))
  {
    DistinctFork(Joined(c, t).l, c.x, Joined(c, t).r);
    assert Nodes(Joined(c, t)) == Nodes(t) + {c.x} + Nodes(Sibling(c));
    assert Base(c) == Base(c.up);
  }

  lemma {:induction false} NodesOfPlug(c: Around, t: Shape)
    ensures Nodes(Plug(c, t)) == NodesAround(c) + Nodes(t)
    ensures Apart(c, t) ==> Distinct(Plug(c, t)) && Base(c).n !in Nodes(Plug(c, t))
    decreases c
  {
    if !c.Top? {
      ApartUp(c, t);
      NodesOfPlug(c.up, Joined(c, t));
    }
  }

  lemma {:induction false} PlugSame(c: Around, t: Shape, u: Shape)
    requires SameObjects(t, u)
    ensures SameObjects(Plug(c, t), Plug(c, u))
    decreases c
  {
    if !c.Top? {
      SameSides(Joined(c, t).l, Joined(c, u).l, c.x, Joined(c, t).r, Joined(c, u).r);
      PlugSame(c.up, Joined(c, t), Joined(c, u));
    }
  }

  lemma {:induction false} BalancedPlug(c: Around, t: Shape)
    ensures Balanced(Plug(c, t)) <==> Balanced(t) && BalancedAround(c, Height(t))
    ensures Height(Plug(c, t)) == HeightAround(c, Height(t))
    decreases c
  {
    if !c.Top? {
      JoinedBalance(c, t);
      BalancedPlug(c.up, Joined(c, t));
    }
  }

  lemma {:induction false} JoinedBalance(c: Around, t: Shape)
    requires !c.Top?
    ensures Height(Joined(c, t)) == Max(Height(t), Height(Sibling(c))) + 1
    ensures Balanced(Joined(c, t)) <==>
      Balanced(t) && Balanced(Sibling(c)) && Near(Height(t), Height(Sibling(c)), 1)
  {
  }

  lemma {:induction false} HeightAroundAbove(c: Around, h: int)
    ensures h <= HeightAround(c, h)
    decreases c
  {
    if !c.Top? { HeightAroundAbove(c.up, Max(h, Height(Sibling(c))) + 1); }
  }

  /** Where the height of a subtree has changed by at most one, so has the height one level up once that
      level is balanced again. */
  lemma {:induction false} StepHeights(c: Around, u: Shape, h: int)
    requires !c.Top? && Balanced(u) && Near(Height(u), h, 1) && BalancedAround(c, h)
    ensures var j, k := Joined(c, u), Max(h, Height(Sibling(c))) + 1;
      AlmostBalanced(j) && Near(Height(Rebalanced(j)), k, 1) && Height(j) <= k + 1
  {
    JoinedBalance(c, u);
    RebalancedBalanced(Joined(c, u));
  }

  // ---------------------------------------------------------------- the keys on both sides

  ghost function KeysLeft(c: Around): seq<int>
  {
    match c
    case Top(_) => []
    case InLeft(up, _, _) => KeysLeft(up)
    case InRight(up, l, x) => KeysLeft(up) + Keys(l) + [x.key]
  }

  ghost function KeysRight(c: Around): seq<int>
  {
    match c
    case Top(_) => []
    case InLeft(up, x, r) => [x.key] + Keys(r) + KeysRight(up)
    case InRight(up, _, _) => KeysRight(up)
  }

  lemma {:induction false} KeysOfPlug(c: Around, t: Shape)
    ensures Keys(Plug(c, t)) == KeysLeft(c) + Keys(t) + KeysRight(c)
    decreases c
  {
    if !c.Top? {
      KeysOfPlug(c.up, Joined(c, t));
    }
  }

  ghost predicate Sorted(s: seq<int>)
  {
    forall i, j :: 0 <= i < j < |s| ==> s[i] < s[j]
  }

  /** The key belongs in the gap that c leaves. */
  ghost predicate Between(c: Around, key: int)
  {
    (forall k :: k in KeysLeft(c) ==> k < key) && (forall k :: k in KeysRight(c) ==> key < k)
  }

  /** Going down on the right side of a node keeps the key in the gap. */
  lemma {:induction false} BetweenDown(c: Around, t: Shape, key: int)
    requires t.Fork? && Sorted(Keys(Plug(c, t))) && Between(c, key) && t.x.key != key
    ensures t.x.key < key ==> Between(InRight(c, t.l, t.x), key)
    ensures key < t.x.key ==> Between(InLeft(c, t.x, t.r), key)
  {
    KeysOfPlug(c, t);
    SortedParts(KeysLeft(c), Keys(t.l), t.x.key, Keys(t.r), KeysRight(c));
  }

  lemma {:induction false} SortedParts(a: seq<int>, b: seq<int>, x: int, d: seq<int>, e: seq<int>)
    requires Sorted(a + (b + [x] + d) + e)
    ensures forall k :: k in b ==> k < x
    ensures forall k :: k in d ==> x < k
  {
    var s := a + (b + [x] + d) + e;
    var m := |a| + |b|;
    assert s[m] == x;
    forall k | k in b ensures k < x {
      var i :| 0 <= i < |b| && b[i] == k;
      assert s[|a| + i] == k;
    }
    forall k | k in d ensures x < k {
      var i :| 0 <= i < |d| && d[i] == k;
      assert s[m + 1 + i] == k;
    }
  }

  /** A key that is not below a gap it belongs in is nowhere. */
  lemma {:induction false} NotInGap(c: Around, key: int)
    requires Between(c, key)
    ensures key !in Keys(Plug(c, Empty))
  {
    KeysOfPlug(c, Empty);
  }

  /** Filling the gap keeps the keys sorted. */
  lemma {:induction false} SortedFill(l: seq<int>, key: int, r: seq<int>)
    requires Sorted(l + r)
    requires (forall k :: k in l ==> k < key) && (forall k :: k in r ==> key < k)
    ensures Sorted(l + [key] + r)
  {
    var s, u := l + r, l + [key] + r;
    forall i, j | 0 <= i < j < |u| ensures u[i] < u[j] {
      if i < |l| { assert u[i] == s[i] && u[i] in l; } else if i > |l| { assert u[i] == s[i - 1]; }
      if j < |l| { assert u[j] == s[j]; } else if j > |l| { assert u[j] == s[j - 1] && u[j] in r; }
    }
  }

  /** So does leaving a key out. */
  lemma {:induction false} SortedDrop(l: seq<int>, key: int, r: seq<int>)
    requires Sorted(l + [key] + r)
    ensures Sorted(l + r) && forall k :: k in l + r <==> k in l + [key] + r && k != key
  {
    var s, u := l + r, l + [key] + r;
    forall i | 0 <= i < |s| ensures s[i] == u[if i < |l| then i else i + 1] {}
    assert u[|l|] == key;
  }

  // ---------------------------------------------------------------- the links around a subtree

  /** The links around a subtree; the link to the subtree itself is not looked at. */
  ghost predicate LinkedAround(c: Around)
    reads NodesAround(c), Base(c).n
  {
    if c.Top? then true else
      OwnerAround(c.up);
      && Deref(SlotOf(c.up)) == c.x
      && Linked(if c.InLeft? then c.x.right else c.x.left, Sibling(c))
      && LinkedAround(c.up)
  }

  /** The links of the subtree u at the slot of d, and those around it. */
  ghost predicate Hangs(d: Around, u: Shape)
    reads NodesAround(d), Base(d).n, Nodes(u)
  {
    OwnerAround(d);
    LinkedAround(d) && Stale(Deref(SlotOf(d)), u)
  }

  /** The subtree u at the slot of d, not yet balanced, has taken the place of one of height h. */
  ghost predicate Ready(d: Around, u: Shape, h: int)
  {
    && Apart(d, u) && AlmostBalanced(u) && Near(Height(Rebalanced(u)), h, 1) && BalancedAround(d, h)
    && Height(u) + 1 < U16 && HeightAround(d, h) + 2 < U16
  }

  lemma {:induction false} ReadyUp(d: Around, u: Shape, h: int)
    requires !d.Top? && Ready(d, u, h)
    ensures Ready(d.up, Joined(d, Rebalanced(u)), Max(h, Height(Sibling(d))) + 1)
  {
    var v, k := Rebalanced(u), Max(h, Height(Sibling(d))) + 1;
    RebalancedBalanced(u);
    RebalancedSame(u);
    StepHeights(d, v, h);
    HeightAroundAbove(d.up, k);
    assert Apart(d, v);
    ApartUp(d, v);
  }

  /** Balancing has got from the subtree t at the slot of c up to the subtree u at the slot of d. */
  ghost predicate Unwinding(c: Around, t: Shape, h: int, d: Around, u: Shape, k: int)
  {
    && Ready(d, u, k) && Base(d) == Base(c) && HeightAround(d, k) == HeightAround(c, h)
    && NodesAround(d) + Nodes(u) == NodesAround(c) + Nodes(t) && SameObjects(Plug(c, t), Plug(d, u))
  }

  lemma {:induction false} UnwindingUp(c: Around, t: Shape, h: int, d: Around, u: Shape, k: int)
    requires Unwinding(c, t, h, d, u, k) && !d.Top?
    ensures Unwinding(c, t, h, d.up, Joined(d, Rebalanced(u)), Max(k, Height(Sibling(d))) + 1)
  {
    ReadyUp(d, u, k);
    SameUp(d, u);
  }

  lemma {:induction false} SameUp(d: Around, u: Shape)
    requires !d.Top? && AlmostBalanced(u)
    ensures var j := Joined(d, Rebalanced(u));
      NodesAround(d.up) + Nodes(j) == NodesAround(d) + Nodes(u) && SameObjects(Plug(d, u), Plug(d.up, j))
  {
    RebalancedSame(u);
    PlugSame(d, u, Rebalanced(u));
  }

  /** All fields of an object. */
  function Fields(n: Node): (Node?, Node?, int)
    reads n
  {
    (n.left, n.right, n.height)
  }
}
