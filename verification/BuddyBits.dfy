/**
 The metadata of one kmalloc heap: an implicit binary tree of `split` and `full` bits stored
 row by row in an array.  Node 0 is the whole heap, node n has the children 2n+1 and 2n+2.

 `Ok` relates every node to its two children only.  Everything the allocator promises about the
 heap as a whole (blocks disjoint, aligned, `full` and `split` meaning what they should) is
 derived from that local condition here; BuddyHeap shows that every operation keeps it.
*/
module BuddyBits {
  import opened Powers

  datatype BlockNode = BlockNode(split: bool, full: bool)

  const CLEAR := BlockNode(false, false)

  predicate Clear(b: BlockNode) { !b.split && !b.full }

  /** A block handed out by the allocator is a node that is full and not split. */
  predicate Live(b: BlockNode) { b.full && !b.split }

  type Bits = s: seq<BlockNode> | |s| >= 2 && |s| % 2 == 0 witness [CLEAR, CLEAR]

  predicate IsNode(s: Bits, n: int) { 0 <= n < |s| - 1 }

  predicate IsInner(s: Bits, n: int) { 0 <= n && 2 * n + 2 < |s| }

  function Parent(n: nat): nat
    requires n > 0
  {
    (n - 1) / 2
  }

  function Depth(n: nat): nat
  {
    if n == 0 then 0 else 1 + Depth(Parent(n))
  }

  /** m is n itself or one of its descendants. */
  predicate Under(m: nat, n: nat)
  {
    m == n || (m > n && Under(Parent(m), n))
  }

  /** The part of the local condition that always holds: a split node is full exactly when both
      halves are; below a node that is not split nothing is marked. */
  predicate NodeLoose(s: Bits, n: nat)
    requires IsNode(s, n)
  {
    if IsInner(s, n) then
      if s[n].split then s[n].full == (s[2 * n + 1].full && s[2 * n + 2].full)
      else Clear(s[2 * n + 1]) && Clear(s[2 * n + 2])
    else
      !s[n].split
  }

  /** Full coalescing: a split node never keeps two free halves. */
  predicate NodeTight(s: Bits, n: nat)
    requires IsNode(s, n)
  {
    IsInner(s, n) && s[n].split ==> !(Clear(s[2 * n + 1]) && Clear(s[2 * n + 2]))
  }

  predicate NodeOk(s: Bits, n: nat)
    requires IsNode(s, n)
  {
    NodeLoose(s, n) && NodeTight(s, n)
  }

  ghost predicate Loose(s: Bits)
  {
    forall n :: IsNode(s, n) ==> NodeLoose(s, n)
  }

  ghost predicate Ok(s: Bits)
  {
    forall n :: IsNode(s, n) ==> NodeOk(s, n)
  }

  ghost predicate SubOk(s: Bits, n: nat)
  {
    forall m :: IsNode(s, m) && Under(m, n) ==> NodeOk(s, m)
  }

  ghost function LiveNodes(s: Bits): set<nat>
  {
    set n: nat | n < |s| - 1 && Live(s[n])
  }

  // ---------------------------------------------------------------- the ancestor relation

  lemma {:induction false} UnderTransitive(a: nat, b: nat, c: nat)
    requires Under(a, b) && Under(b, c)
    ensures Under(a, c)
    decreases a
  {
    if a != b {
      UnderTransitive(Parent(a), b, c);
    }
  }

  lemma {:induction false} UnderStep(m: nat, n: nat)
    requires Under(m, n) && n > 0
    ensures Under(m, Parent(n))
  {
    UnderTransitive(m, n, Parent(n));
  }

  lemma {:induction false} UnderRoot(n: nat)
    ensures Under(n, 0)
  {
    if n > 0 {
      UnderRoot(Parent(n));
    }
  }

  lemma {:induction false} UnderDepth(m: nat, n: nat)
    requires Under(m, n) && m != n
    ensures Depth(m) > Depth(n)
  {
    if Parent(m) != n {
      UnderDepth(Parent(m), n);
    }
  }

  /** A descendant of n other than n lies below exactly one of its two children. */
  lemma {:induction false} UnderChild(m: nat, n: nat)
    requires m != n
    ensures Under(m, n) <==> Under(m, 2 * n + 1) || Under(m, 2 * n + 2)
    ensures !(Under(m, 2 * n + 1) && Under(m, 2 * n + 2))
    decreases m
  {
    if m > n && Parent(m) != n {
      UnderChild(Parent(m), n);
    }
  }

  lemma {:induction false} DepthBound(n: nat, d: nat)
    ensures Depth(n) <= d <==> n < Pow2(d + 1) - 1
  {
    if n > 0 && d > 0 {
      DepthBound(Parent(n), d - 1);
      assert Pow2(d + 1) == 2 * Pow2(d);
      assert Parent(n) < Pow2(d) - 1 <==> n < 2 * Pow2(d) - 1;
    }
  }

  // ---------------------------------------------------------------- the range of a node

  /** Size of the block of node n in a heap of 2^h bytes. */
  function Size(h: nat, n: nat): nat
    requires Depth(n) <= h
  {
    Pow2(h - Depth(n))
  }

  lemma {:induction false} SizeIs(h: nat, n: nat, t: nat)
    requires t <= h && Depth(n) == h - t
    ensures Size(h, n) == Pow2(t)
  {
  }

  /** Offset of the first byte of node n. */
  function Start(h: nat, n: nat): nat
    requires Depth(n) <= h
  {
    if n == 0 then 0
    else Start(h, Parent(n)) + (if n % 2 == 0 then Size(h, n) else 0)
  }

  lemma {:induction false} UnderRange(h: nat, m: nat, n: nat)
    requires Depth(m) <= h && Under(m, n)
    ensures Depth(n) <= h
    ensures Start(h, n) <= Start(h, m)
    ensures Start(h, m) + Size(h, m) <= Start(h, n) + Size(h, n)
    decreases m
  {
    if m != n {
      UnderRange(h, Parent(m), n);
      assert Size(h, Parent(m)) == 2 * Size(h, m);
    }
  }

  /** Two blocks neither of which contains the other have disjoint ranges. */
  lemma {:induction false} ApartRange(h: nat, a: nat, b: nat)
    requires Depth(a) <= h && Depth(b) <= h
    requires !Under(a, b) && !Under(b, a)
    ensures Start(h, a) + Size(h, a) <= Start(h, b) || Start(h, b) + Size(h, b) <= Start(h, a)
    decreases a + b, if Depth(a) < Depth(b) then 1 else 0
  {
    UnderRoot(a);
    UnderRoot(b);
    if Depth(a) < Depth(b) {
      ApartRange(h, b, a);
    } else if Depth(a) > Depth(b) {
      if Under(b, Parent(a)) {
        UnderDepth(b, Parent(a));
      }
      UnderRange(h, a, Parent(a));
      ApartRange(h, Parent(a), b);
    } else if Parent(a) == Parent(b) {
      assert Size(h, a) == Size(h, b);
    } else {
      if Under(Parent(a), Parent(b)) { UnderDepth(Parent(a), Parent(b)); }
      if Under(Parent(b), Parent(a)) { UnderDepth(Parent(b), Parent(a)); }
      UnderRange(h, a, Parent(a));
      UnderRange(h, b, Parent(b));
      ApartRange(h, Parent(a), Parent(b));
    }
  }

  // ---------------------------------------------------------------- what the bits mean

  /** Above a marked node every node is split. */
  lemma {:induction false} MarkedAbove(s: Bits, m: nat, n: nat)
    requires IsNode(s, m) && Under(m, n) && m != n
    requires forall i :: IsNode(s, i) && Under(i, n) ==> NodeLoose(s, i)
    requires !Clear(s[m])
    ensures IsNode(s, n) && s[n].split
    decreases m
  {
    var p := Parent(m);
    assert Under(p, n) && NodeLoose(s, p);
    assert m == 2 * p + 1 || m == 2 * p + 2;
    if p != n {
      MarkedAbove(s, p, n);
    }
  }

  lemma {:induction false} OkLoose(s: Bits)
    requires Ok(s)
    ensures Loose(s)
  {
    forall n | IsNode(s, n) ensures NodeLoose(s, n) { assert NodeOk(s, n); }
  }

  /** Below or at a marked node there is a live block. */
  lemma {:induction false} MarkedHasLive(s: Bits, n: nat) returns (m: nat)
    requires SubOk(s, n) && IsNode(s, n) && !Clear(s[n])
    ensures IsNode(s, m) && Under(m, n) && Live(s[m])
    decreases |s| - n
  {
    assert NodeOk(s, n);
    if s[n].split {
      var c := if Clear(s[2 * n + 1]) then 2 * n + 2 else 2 * n + 1;
      SubOkChild(s, n, c);
      m := MarkedHasLive(s, c);
      UnderChild(m, n);
    } else {
      m := n;
    }
  }

  /** No live block contains another one. */
  lemma {:induction false} LiveApart(s: Bits, a: nat, b: nat)
    requires Loose(s) && IsNode(s, a) && IsNode(s, b)
    requires Live(s[a]) && Live(s[b]) && a != b
    ensures !Under(a, b) && !Under(b, a)
  {
    if Under(a, b) { MarkedAbove(s, a, b); }
    if Under(b, a) { MarkedAbove(s, b, a); }
  }

  // ---------------------------------------------------------------- free blocks

  /** No live block on the way from m up to n. */
  predicate Open(s: Bits, n: nat, m: nat)
    requires IsNode(s, m) && Under(m, n)
  {
    !Live(s[m]) && (m == n || Open(s, n, Parent(m)))
  }

  /** The block of m is completely free, as far as the subtree of n can tell. */
  predicate Avail(s: Bits, n: nat, m: nat)
    requires IsNode(s, m) && Under(m, n)
  {
    Clear(s[m]) && Open(s, n, m)
  }

  lemma {:induction false} OpenStep(s: Bits, n: nat, c: nat, m: nat)
    requires IsNode(s, m) && c > 0 && Parent(c) == n && Under(m, c)
    ensures Under(m, n)
    ensures Open(s, n, m) <==> Open(s, c, m) && !Live(s[n])
    decreases m
  {
    if m != c {
      OpenStep(s, n, c, Parent(m));
    }
  }

  lemma {:induction false} OpenFrame(s: Bits, s': Bits, n: nat, m: nat)
    requires |s| == |s'| && IsNode(s, m) && Under(m, n)
    requires forall i :: IsNode(s, i) && Under(i, n) ==> s[i] == s'[i]
    ensures Open(s, n, m) <==> Open(s', n, m)
    decreases m
  {
    if m != n {
      OpenFrame(s, s', n, Parent(m));
    }
  }

  lemma {:induction false} FullHidesAll(s: Bits, n: nat, m: nat)
    requires IsNode(s, n) && SubOk(s, n) && s[n].full
    requires IsNode(s, m) && Under(m, n)
    ensures !Avail(s, n, m)
    decreases |s| - n
  {
    assert NodeOk(s, n);
    if m != n {
      UnderChild(m, n);
      var c := if Under(m, 2 * n + 1) then 2 * n + 1 else 2 * n + 2;
      OpenStep(s, n, c, m);
      if s[n].split {
        SubOkChild(s, n, c);
        UnderBounds(m, c);
        FullHidesAll(s, c, m);
      }
    }
  }

  lemma {:induction false} UnderBounds(m: nat, n: nat)
    requires Under(m, n)
    ensures n <= m
  {
    if m != n { UnderBounds(Parent(m), n); }
  }

  lemma {:induction false} SubOkChild(s: Bits, n: nat, c: nat)
    requires SubOk(s, n) && c > 0 && Parent(c) == n
    ensures SubOk(s, c)
  {
    forall m | IsNode(s, m) && Under(m, c)
      ensures Under(m, n)
    {
      UnderTransitive(m, c, n);
    }
  }
}
