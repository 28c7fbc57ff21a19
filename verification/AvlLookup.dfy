/** Lookups, and how deep they and the path stacks can get. */
module AvlLookup {
  import opened AvlShape
  import opened AvlLinks
  import opened AvlPath
  import opened AvlMap

  /** bintree_find_internal; `steps` counts the objects looked at. */
  method Find(root: Node?, key: int, ghost t: Shape) returns (n: Node?, ghost steps: nat)
    requires Linked(root, t) && Sorted(Keys(t))
    ensures n != null <==> key in KeySet(t)
    ensures n != null ==> n in Nodes(t) && n.key == key
    ensures steps <= Height(t) + 1
  {
    n, steps := root, 0;
    ghost var s := t;
    while n != null
      invariant Linked(n, s) && Sorted(Keys(s)) && Nodes(s) <= Nodes(t)
      invariant key in Keys(t) <==> key in Keys(s)
      invariant steps + Height(s) <= Height(t)
      decreases s
    {
      steps := steps + 1;
      Halves(s, key);
      if n.key == key {
        return;
      }
      if n.key < key {
        n, s := n.right, s.r;
      } else {
        n, s := n.left, s.l;
      }
    }
  }

  /** The keys on the left of the root are smaller, those on the right are greater. */
  lemma {:induction false} Halves(t: Shape, key: int)
    requires t.Fork? && Sorted(Keys(t))
    ensures Sorted(Keys(t.l)) && Sorted(Keys(t.r)) && t.x.key in Keys(t)
    ensures key != t.x.key ==> (key in Keys(t) <==> key in Keys(if t.x.key < key then t.r else t.l))
  {
    SortedHalves(Keys(t.l), t.x.key, Keys(t.r), key);
  }

  lemma {:induction false} SortedHalves(a: seq<int>, x: int, b: seq<int>, key: int)
    requires Sorted(a + [x] + b)
    ensures Sorted(a) && Sorted(b) && x in a + [x] + b
    ensures key != x ==> (key in a + [x] + b <==> key in if x < key then b else a)
  {
    var s, m := a + [x] + b, |a|;
    assert s[m] == x;
    forall i | 0 <= i < m ensures a[i] == s[i] < x { assert s[i] < s[m]; }
    forall i | 0 <= i < |b| ensures b[i] == s[m + 1 + i] > x { assert s[m] < s[m + 1 + i]; }
    forall i, j | 0 <= i < j < m ensures a[i] < a[j] { assert s[i] < s[j]; }
    forall i, j | 0 <= i < j < |b| ensures b[i] < b[j] { assert s[m + 1 + i] < s[m + 1 + j]; }
    assert key in s <==> key in a || key == x || key in b;
  }

  /** bintree_get_first_obj_internal. */
  method First(root: Node?, ghost t: Shape) returns (n: Node?)
    requires Linked(root, t)
    ensures n == null <==> Keys(t) == []
    ensures n != null ==> n in Nodes(t) && n.key == Keys(t)[0]
  {
    n := root;
    if n == null {
      return;
    }
    ghost var s := t;
    while n.left != null
      invariant s.Fork? && Linked(n, s) && Nodes(s) <= Nodes(t) && Keys(s)[0] == Keys(t)[0]
      decreases s
    {
      n, s := n.left, s.l;
    }
  }

  /** bintree_get_last_obj_internal. */
  method Last(root: Node?, ghost t: Shape) returns (n: Node?)
    requires Linked(root, t)
    ensures n == null <==> Keys(t) == []
    ensures n != null ==> n in Nodes(t) && n.key == Keys(t)[|Keys(t)| - 1]
  {
    n := root;
    if n == null {
      return;
    }
    ghost var s := t;
    while n.right != null
      invariant s.Fork? && Linked(n, s) && Nodes(s) <= Nodes(t)
      invariant Keys(s)[|Keys(s)| - 1] == Keys(t)[|Keys(t)| - 1]
      decreases s
    {
      n, s := n.right, s.r;
    }
  }

  // ---------------------------------------------------------------- depth

  function Fib(n: nat): nat { if n < 2 then n else Fib(n - 1) + Fib(n - 2) }

  lemma {:induction false} FibOrder(m: nat, n: nat)
    requires m <= n
    ensures Fib(m) <= Fib(n)
    decreases n
  {
    if m < n {
      if n >= 2 { FibOrder(m, n - 1); }
    }
  }

  /** A balanced tree of height h has at least Fib(h + 3) - 1 objects. */
  lemma {:induction false} FewestNodes(t: Shape)
    requires Balanced(t)
    ensures |Keys(t)| + 1 >= Fib(Height(t) + 3)
  {
    match t
    case Empty =>
    case Fork(l, _, r) =>
      FewestNodes(l);
      FewestNodes(r);
      var h := Height(t);
      FibOrder(h + 1, Height(l) + 3);
      FibOrder(h + 1, Height(r) + 3);
  }

  /** Every object has its own key position. */
  lemma {:induction false} KeysCount(t: Shape)
    requires Distinct(t)
    ensures |Keys(t)| == |Nodes(t)|
  {
    match t
    case Empty =>
    case Fork(l, x, r) =>
      KeysCount(l);
      KeysCount(r);
      assert |Nodes(l) + {x}| == |Nodes(l)| + 1 && (Nodes(l) + {x}) !! Nodes(r);
  }

  lemma {:induction false} FibThirtyFour() returns (k: nat)
    ensures k == 34 && Fib(k) == 5702887
  {
    assert Fib(8) == 21 && Fib(9) == 34;
    assert Fib(16) == 987 && Fib(17) == 1597 by { assert Fib(12) == 144 && Fib(13) == 233; }
    assert Fib(20) == 6765 && Fib(21) == 10946;
    assert Fib(24) == 46368 && Fib(25) == 75025;
    assert Fib(28) == 317811 && Fib(29) == 514229;
    assert Fib(32) == 2178309 && Fib(33) == 3524578;
    k := 34;
    assert Fib(34) == 5702887;
  }

  /** The stacks have room for every path of insertion and removal in a tree of up to 5702885 objects. */
  lemma {:induction false} StackSuffices(t: Shape, key: int)
    requires Balanced(t) && Distinct(t) && |Nodes(t)| < 5702886
    ensures PathSlots(t, key) <= MAX_TREE_HEIGHT && RemoveSlots(t, key) <= MAX_TREE_HEIGHT
  {
    KeysCount(t);
    var k := FibThirtyFour();
    HeightBelow(t, k);
    SlotsAtMost(t, key);
  }

  lemma {:induction false} HeightBelow(t: Shape, k: nat)
    requires Balanced(t) && |Keys(t)| + 1 < Fib(k)
    ensures Height(t) + 3 < k
  {
    FewestNodes(t);
    if k <= Height(t) + 3 { FibOrder(k, Height(t) + 3); }
  }

  /** A shape as the next method builds it: of height h with as few objects as can be, all keys from lo on, and the path
      to the place before them as long as can be. */
  ghost predicate Sparse(t: Shape, h: int, lo: int)
  {
    && Balanced(t) && Distinct(t) && Height(t) == h && h >= -1 && |Keys(t)| + 1 == Fib(h + 3)
    && Sorted(Keys(t)) && (forall k :: k in Keys(t) ==> lo <= k < lo + |Keys(t)|)
    && (forall k :: k < lo ==> PathSlots(t, k) == h + 2)
  }

  lemma {:induction false} SparseFork(l: Shape, x: Node, r: Shape, h: int, lo: int)
    requires h >= 0 && Sparse(l, h - 1, lo) && x.key == lo + |Keys(l)|
    requires if h == 0 then r.Empty? else Sparse(r, h - 2, x.key + 1)
    requires x !in Nodes(l) && x !in Nodes(r) && Nodes(l) !! Nodes(r)
    ensures Sparse(Fork(l, x, r), h, lo)
  {
    var t := Fork(l, x, r);
    SparseKeys(Keys(l), x.key, Keys(r), lo);
    forall k | k < lo ensures PathSlots(t, k) == h + 2 {
      assert PathSlots(l, k) == h + 1;
    }
  }

  lemma {:induction false} SparseKeys(a: seq<int>, x: int, b: seq<int>, lo: int)
    requires Sorted(a) && Sorted(b) && x == lo + |a|
    requires (forall k :: k in a ==> lo <= k < x) && (forall k :: k in b ==> x + 1 <= k < x + 1 + |b|)
    ensures var s := a + [x] + b; Sorted(s) && forall k :: k in s ==> lo <= k < lo + |s|
  {
    var s := a + [x] + b;
    forall i, j | 0 <= i < j < |s| ensures s[i] < s[j] {
      assert i < |a| ==> s[i] == a[i] && a[i] in a;
      assert j < |a| ==> s[j] == a[j];
      assert i > |a| ==> s[i] == b[i - |a| - 1];
      assert j > |a| ==> s[j] == b[j - |a| - 1] && b[j - |a| - 1] in b;
    }
  }

  /** Such trees exist, for every height. */
  method SparseTree(h: int, lo: int) returns (root: Node?, n: nat, ghost t: Shape)
    requires -1 <= h < U16 - 1
    ensures fresh(Nodes(t)) && Linked(root, t) && Sparse(t, h, lo) && n == |Keys(t)|
    decreases h + 1
  {
    if h == -1 {
      return null, 0, Empty;
    }
    var left, i;
    ghost var l, r;
    left, i, l := SparseTree(h - 1, lo);
    NodesAllocated(l);
    var x := new Node(lo + i);
    var right, j := null, 0;
    r := Empty;
    if h > 0 {
      right, j, r := SparseTree(h - 2, lo + i + 1);
    }
    n, t := i + 1 + j, Fork(l, x, r);
    SparseFork(l, x, r, h, lo);
    LinkFork(left, x, right, h, t);
    root := x;
  }

  method LinkFork(left: Node?, x: Node, right: Node?, h: int, ghost t: Shape)
    requires t.Fork? && t.x == x && Distinct(t) && Height(t) == h && Linked(left, t.l) && Linked(right, t.r)
    modifies x
    ensures Linked(x, t)
  {
    NodesAllocated(t);
    x.left, x.right, x.height := left, right, h;
  }

  /** One object more, and a path may not fit. */
  method StackTooSmall() returns (root: Node?, ghost t: Shape)
    ensures fresh(Nodes(t)) && Linked(root, t) && Balanced(t) && Distinct(t) && Sorted(Keys(t))
    ensures |Nodes(t)| == 5702886 && PathSlots(t, -1) > MAX_TREE_HEIGHT
  {
    var n;
    ghost var k := FibThirtyFour();
    var h := MAX_TREE_HEIGHT - 1;
    root, n, t := SparseTree(h, 0);
    KeysCount(t);
    TooDeep(t, h, k);
  }

  lemma {:induction false} TooDeep(t: Shape, h: int, k: nat)
    requires Sparse(t, h, 0) && k == h + 3 && Fib(k) == 5702887
    ensures |Keys(t)| == 5702886 && PathSlots(t, -1) == h + 2
  {
  }

  // ---------------------------------------------------------------- comparing by subtraction

  /** The bits of an integer as a signed 64-bit value. */
  function Long(x: int): int
  {
    var m := x % 0x1_0000_0000_0000_0000;
    if m < 0x8000_0000_0000_0000 then m else m - 0x1_0000_0000_0000_0000
  }

  ghost predicate IsLong(x: int)
  {
    -0x8000_0000_0000_0000 <= x < 0x8000_0000_0000_0000
  }

  ghost predicate SameSign(a: int, b: int)
  {
    (a < 0 <==> b < 0) && (a == 0 <==> b == 0)
  }

  /** The comparators that subtract two longs order them exactly when the difference is a long. */
  lemma {:induction false} PtrCompare(a: int, b: int)
    requires IsLong(a) && IsLong(b)
    ensures SameSign(Long(a - b), a - b) <==> IsLong(a - b)
  {
  }
}
