/** Blocks as byte ranges: the pointer arithmetic of the heap and what `full`, `split` and a free
    node say about bytes. */
module BuddyRange {
  import opened Powers
  import opened BuddyBits

  /** The node of the block of 2^t bytes at offset off in a heap of 2^h bytes. */
  function PtrToNode(h: nat, off: nat, t: nat): nat
    requires t <= h
  {
    Pow2(h - t) - 1 + Shr(off, t)
  }

  /** The offset of a node whose block has 2^t bytes. */
  function NodeToPtr(h: nat, n: nat, t: nat): nat
    requires t <= h && Pow2(h - t) - 1 <= n
  {
    Shl(n - (Pow2(h - t) - 1), t)
  }

  /** Position of node n in its row. */
  function Row(n: nat): int { n + 1 - Pow2(Depth(n)) }

  lemma {:induction false} ParentForm(n: nat) returns (p: nat, e: nat)
    requires n > 0
    ensures n == 2 * p + 1 + e && e <= 1
  {
    p, e := Parent(n), 1 - n % 2;
  }

  lemma {:induction false} RowOfChild(n: nat, p: nat, e: nat)
    requires n == 2 * p + 1 + e && e <= 1
    ensures Parent(n) == p && Depth(n) == Depth(p) + 1
    ensures Row(n) == 2 * Row(p) + e
    ensures Pow2(Depth(n)) == 2 * Pow2(Depth(p))
  {
    assert Parent(n) == p;
    Pow2Step(Depth(p));
  }

  lemma {:induction false} RowBounds(n: nat)
    ensures 0 <= Row(n) < Pow2(Depth(n))
  {
    if n > 0 {
      var p, e := ParentForm(n);
      RowOfChild(n, p, e);
      RowBounds(p);
    }
  }

  lemma {:induction false} StartClosed(h: nat, n: nat)
    requires Depth(n) <= h
    ensures Row(n) >= 0 && Start(h, n) == Shl(Row(n), h - Depth(n))
    decreases n
  {
    if n == 0 {
      ShlZero(h);
    } else {
      var p, e := ParentForm(n);
      StartOfChild(h, n, p, e);
      RowOfChild(n, p, e);
      StartClosed(h, p);
      ShlChild(Row(p), h - Depth(n));
    }
  }

  lemma {:induction false} StartOfChild(h: nat, n: nat, p: nat, e: nat)
    requires n == 2 * p + 1 + e && e <= 1 && Depth(n) <= h
    ensures Parent(n) == p && Depth(n) == Depth(p) + 1
    ensures Size(h, p) == 2 * Size(h, n)
    ensures Start(h, n) == Start(h, p) + if e == 1 then Size(h, n) else 0
  {
    assert Parent(n) == p;
    Pow2Step(h - Depth(n));
  }

  /** node_to_ptr and ptr_to_node are inverse to each other, and a block is aligned to its size. */
  lemma {:induction false} NodeRoundTrip(h: nat, n: nat)
    requires Depth(n) <= h
    ensures Pow2(Depth(n)) - 1 <= n && NodeToPtr(h, n, h - Depth(n)) == Start(h, n)
    ensures PtrToNode(h, Start(h, n), h - Depth(n)) == n
    ensures Aligned(Start(h, n), h - Depth(n))
  {
    StartClosed(h, n);
    ShrShl(Row(n), h - Depth(n));
  }

  lemma {:induction false} DepthOfRow(n: nat, d: nat)
    requires Pow2(d) - 1 <= n < 2 * Pow2(d) - 1
    ensures Depth(n) == d
  {
    if d > 0 {
      DepthOfRow(Parent(n), d - 1);
    }
  }

  lemma {:induction false} PtrRoundTrip(h: nat, off: nat, t: nat)
    requires t <= h && Aligned(off, t) && off + Pow2(t) <= Pow2(h)
    ensures var n := PtrToNode(h, off, t);
      Depth(n) == h - t && Start(h, n) == off && NodeToPtr(h, n, t) == off
  {
    ShrBound(off, t, h);
    ShlShr(off, t);
    var n := PtrToNode(h, off, t);
    DepthOfRow(n, h - t);
    StartClosed(h, n);
  }

  /** In one row a lower address means a lower node number. */
  lemma {:induction false} OrderInRow(h: nat, m: nat, x: nat)
    requires Depth(m) == Depth(x) <= h && Start(h, m) < Start(h, x)
    ensures m < x
  {
    StartClosed(h, m);
    StartClosed(h, x);
    ShlOrder(Row(m), Row(x), h - Depth(x));
  }

  /** Among nodes that are not higher up, those below n are the ones whose range is inside. */
  lemma {:induction false} UnderIffInside(h: nat, m: nat, n: nat)
    requires Depth(n) <= Depth(m) <= h
    ensures Under(m, n) <==> Start(h, n) <= Start(h, m) < Start(h, n) + Size(h, n)
  {
    if Under(m, n) {
      UnderRange(h, m, n);
    } else {
      if Under(n, m) { if n != m { UnderDepth(n, m); } }
      ApartRange(h, m, n);
    }
  }

  // ---------------------------------------------------------------- free means: no live block overlaps

  /** No live block below n contains m or lies in it. */
  ghost predicate NoOverlap(s: Bits, n: nat, m: nat)
  {
    forall l :: IsNode(s, l) && Under(l, n) && Live(s[l]) ==> !Under(l, m) && !Under(m, l)
  }

  lemma {:induction false} OpenIff(s: Bits, n: nat, m: nat)
    requires IsNode(s, m) && Under(m, n)
    ensures Open(s, n, m) <==> forall l :: IsNode(s, l) && Under(m, l) && Under(l, n) ==> !Live(s[l])
    decreases m
  {
    if m == n {
      forall l: nat | Under(n, l) && Under(l, n) ensures l == n {
        UnderBounds(n, l);
        UnderBounds(l, n);
      }
    } else {
      OpenIff(s, n, Parent(m));
      assert forall l: nat :: Under(m, l) <==> l == m || Under(Parent(m), l) by {
        forall l: nat ensures Under(m, l) <==> l == m || Under(Parent(m), l) {
          if Under(Parent(m), l) { UnderBounds(Parent(m), l); }
        }
      }
    }
  }

  lemma {:induction false} AvailIff(s: Bits, n: nat, m: nat)
    requires IsNode(s, n) && SubOk(s, n) && IsNode(s, m) && Under(m, n)
    ensures Avail(s, n, m) <==> NoOverlap(s, n, m)
  {
    OpenIff(s, n, m);
    if Avail(s, n, m) {
      forall l | IsNode(s, l) && Under(l, n) && Live(s[l]) ensures !Under(l, m) && !Under(m, l) {
        if Under(l, m) {
          SubLoose(s, n, m);
          MarkedAbove(s, l, m);
        }
      }
    }
    if NoOverlap(s, n, m) && !Clear(s[m]) {
      SubOkUnder(s, n, m);
      var l := MarkedHasLive(s, m);
      UnderTransitive(l, m, n);
    }
  }

  lemma {:induction false} SubOkUnder(s: Bits, n: nat, m: nat)
    requires SubOk(s, n) && Under(m, n)
    ensures SubOk(s, m)
  {
    forall i | IsNode(s, i) && Under(i, m) ensures NodeOk(s, i) {
      UnderTransitive(i, m, n);
    }
  }

  lemma {:induction false} SubLoose(s: Bits, n: nat, m: nat)
    requires SubOk(s, n) && Under(m, n)
    ensures forall i :: IsNode(s, i) && Under(i, m) ==> NodeLoose(s, i)
  {
    SubOkUnder(s, n, m);
    forall i | IsNode(s, i) && Under(i, m) ensures NodeLoose(s, i) {
      assert NodeOk(s, i);
    }
  }

  /** All nodes of s fit in a heap of 2^h bytes. */
  ghost predicate Fits(s: Bits, h: nat)
  {
    forall n :: IsNode(s, n) ==> Depth(n) <= h
  }

  /** The bytes [off, off + len) belong to no live block. */
  ghost predicate FreeRange(s: Bits, h: nat, off: nat, len: nat)
    requires Fits(s, h)
  {
    forall l :: IsNode(s, l) && Live(s[l]) ==> Start(h, l) + Size(h, l) <= off || off + len <= Start(h, l)
  }

  lemma {:induction false} OverlapIff(h: nat, l: nat, m: nat)
    requires Depth(l) <= h && Depth(m) <= h
    ensures !Under(l, m) && !Under(m, l) <==>
            Start(h, l) + Size(h, l) <= Start(h, m) || Start(h, m) + Size(h, m) <= Start(h, l)
  {
    if !Under(l, m) && !Under(m, l) { ApartRange(h, l, m); }
    if Under(l, m) { UnderRange(h, l, m); }
    if Under(m, l) { UnderRange(h, m, l); }
  }

  /** A node is available exactly when its bytes are free. */
  lemma {:induction false} AvailIffFree(s: Bits, h: nat, m: nat)
    requires Ok(s) && Fits(s, h) && IsNode(s, m)
    ensures Under(m, 0)
    ensures Avail(s, 0, m) <==> FreeRange(s, h, Start(h, m), Size(h, m))
  {
    UnderRoot(m);
    AvailIff(s, 0, m);
    forall l | IsNode(s, l)
      ensures Under(l, 0)
      ensures !Under(l, m) && !Under(m, l) <==>
              Start(h, l) + Size(h, l) <= Start(h, m) || Start(h, m) + Size(h, m) <= Start(h, l)
    {
      UnderRoot(l);
      OverlapIff(h, l, m);
    }
  }

  /** The byte b is in a live block below n. */
  ghost predicate Taken(s: Bits, h: nat, n: nat, b: nat)
    requires Fits(s, h)
  {
    exists l :: IsNode(s, l) && Under(l, n) && Live(s[l]) && Start(h, l) <= b < Start(h, l) + Size(h, l)
  }

  lemma {:induction false} BothFull(s: Bits, n: nat)
    requires IsNode(s, n) && NodeOk(s, n) && s[n].full && s[n].split
    ensures IsNode(s, 2 * n + 1) && IsNode(s, 2 * n + 2) && s[2 * n + 1].full && s[2 * n + 2].full
  {
  }

  /** The half of a block that holds a byte. */
  lemma {:induction false} HalfWith(h: nat, n: nat, b: nat) returns (c: nat)
    requires Depth(2 * n + 1) <= h && Depth(2 * n + 2) <= h && Start(h, n) <= b < Start(h, n) + Size(h, n)
    ensures (c == 2 * n + 1 || c == 2 * n + 2) && Start(h, c) <= b < Start(h, c) + Size(h, c)
    ensures Parent(c) == n && Under(c, n)
  {
    StartOfChild(h, 2 * n + 1, n, 0);
    StartOfChild(h, 2 * n + 2, n, 1);
    c := if b < Start(h, 2 * n + 2) then 2 * n + 1 else 2 * n + 2;
    assert Under(n, n);
  }

  lemma {:induction false} FullTaken(s: Bits, h: nat, n: nat, b: nat)
    requires Fits(s, h) && IsNode(s, n) && SubOk(s, n) && s[n].full
    requires Start(h, n) <= b < Start(h, n) + Size(h, n)
    ensures Taken(s, h, n, b)
    decreases |s| - n
  {
    assert Under(n, n) && NodeOk(s, n);
    if s[n].split {
      BothFull(s, n);
      var c := HalfWith(h, n, b);
      SubOkChild(s, n, c);
      FullTaken(s, h, c, b);
      TakenAbove(s, h, n, c, b);
    }
  }

  lemma {:induction false} TakenAbove(s: Bits, h: nat, n: nat, c: nat, b: nat)
    requires Fits(s, h) && Taken(s, h, c, b) && Under(c, n)
    ensures Taken(s, h, n, b)
  {
    var l :| IsNode(s, l) && Under(l, c) && Live(s[l]) && Start(h, l) <= b < Start(h, l) + Size(h, l);
    UnderTransitive(l, c, n);
  }
}
