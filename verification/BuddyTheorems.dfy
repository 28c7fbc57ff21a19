/** What the metadata of a heap says about its live blocks, for every reachable state. */
module BuddyTheorems {
  import opened Powers
  import opened BuddyBits
  import opened BuddyRange

  ghost predicate Covered(s: Bits, h: nat, byte: nat)
    requires Fits(s, h)
  {
    exists l :: IsNode(s, l) && Live(s[l]) && Start(h, l) <= byte < Start(h, l) + Size(h, l)
  }

  ghost predicate AllCovered(s: Bits, h: nat, n: nat)
    requires Fits(s, h) && IsNode(s, n)
  {
    forall b: nat :: Start(h, n) <= b < Start(h, n) + Size(h, n) ==> Covered(s, h, b)
  }

  /** n lies strictly inside a live block. */
  ghost predicate InsideLive(s: Bits, n: nat)
  {
    exists l :: IsNode(s, l) && Live(s[l]) && Under(n, l) && n != l
  }

  /** Live blocks are inside the heap, aligned to their size and pairwise disjoint. */
  lemma {:induction false} LiveBlocksSound(s: Bits, h: nat, a: nat, b: nat)
    requires Ok(s) && Fits(s, h)
    requires IsNode(s, a) && IsNode(s, b) && Live(s[a]) && Live(s[b]) && a != b
    ensures Start(h, a) % Size(h, a) == 0
    ensures Start(h, a) + Size(h, a) <= Pow2(h)
    ensures Start(h, a) + Size(h, a) <= Start(h, b) || Start(h, b) + Size(h, b) <= Start(h, a)
  {
    NodeRoundTrip(h, a);
    LowIsRemainder(Start(h, a), h - Depth(a));
    InsideHeap(h, a);
    LiveDisjoint(s, h, a, b);
  }

  lemma {:induction false} InsideHeap(h: nat, n: nat)
    requires Depth(n) <= h
    ensures Start(h, n) + Size(h, n) <= Pow2(h)
  {
    UnderRoot(n);
    UnderRange(h, n, 0);
  }

  lemma {:induction false} LiveDisjoint(s: Bits, h: nat, a: nat, b: nat)
    requires Ok(s) && Fits(s, h)
    requires IsNode(s, a) && IsNode(s, b) && Live(s[a]) && Live(s[b]) && a != b
    ensures Start(h, a) + Size(h, a) <= Start(h, b) || Start(h, b) + Size(h, b) <= Start(h, a)
  {
    OkLoose(s);
    LiveApart(s, a, b);
    ApartRange(h, a, b);
  }

  /** `split` marks exactly the nodes with a live block strictly inside. */
  lemma {:induction false} SplitIff(s: Bits, n: nat)
    requires Ok(s) && IsNode(s, n)
    ensures s[n].split <==> exists l :: IsNode(s, l) && Live(s[l]) && Under(l, n) && l != n
  {
    if s[n].split {
      var l := MarkedHasLive(s, n);
    }
    if l :| IsNode(s, l) && Live(s[l]) && Under(l, n) && l != n {
      OkLoose(s);
      MarkedAbove(s, l, n);
    }
  }

  /** `full` marks exactly the nodes whose whole range is live, except inside a live block. */
  lemma {:induction false} FullIff(s: Bits, h: nat, n: nat)
    requires Ok(s) && Fits(s, h) && IsNode(s, n)
    ensures s[n].full <==> !InsideLive(s, n) && AllCovered(s, h, n)
  {
    if s[n].full {
      FullCovers(s, h, n);
      if InsideLive(s, n) {
        var l :| IsNode(s, l) && Live(s[l]) && Under(n, l) && n != l;
        OkLoose(s);
        MarkedAbove(s, n, l);
      }
    } else if !InsideLive(s, n) {
      var b := FreeByte(s, h, n);
    }
  }

  lemma {:induction false} FullCovers(s: Bits, h: nat, n: nat)
    requires Ok(s) && Fits(s, h) && IsNode(s, n) && s[n].full
    ensures AllCovered(s, h, n)
  {
    forall b: nat | Start(h, n) <= b < Start(h, n) + Size(h, n) ensures Covered(s, h, b) {
      FullTaken(s, h, n, b);
    }
  }

  lemma {:induction false} FreeByte(s: Bits, h: nat, n: nat) returns (b: nat)
    requires Ok(s) && Fits(s, h) && IsNode(s, n) && !s[n].full && !InsideLive(s, n)
    ensures Start(h, n) <= b < Start(h, n) + Size(h, n) && !Covered(s, h, b)
    decreases |s| - n
  {
    assert NodeOk(s, n);
    if s[n].split {
      var e := if s[2 * n + 1].full then 1 else 0;
      var c := 2 * n + 1 + e;
      StartOfChild(h, c, n, e);
      assert forall l :: IsNode(s, l) && Under(c, l) && c != l ==> Under(n, l);
      b := FreeByte(s, h, c);
    } else {
      UnderRoot(n);
      OpenIff(s, 0, n);
      AvailIffFree(s, h, n);
      b := Start(h, n);
    }
  }

  /** The metadata is a function of the set of live blocks: it does not depend on the order of the
      allocations and frees that led there. */
  lemma {:induction false} Canonical(s: Bits, t: Bits, n: nat)
    requires Ok(s) && Ok(t) && |s| == |t| && LiveNodes(s) == LiveNodes(t) && IsNode(s, n)
    ensures s[n] == t[n]
    decreases |s| - n
  {
    SameLive(s, t);
    SplitIff(s, n);
    SplitIff(t, n);
    assert NodeOk(s, n) && NodeOk(t, n);
    if s[n].split {
      Canonical(s, t, 2 * n + 1);
      Canonical(s, t, 2 * n + 2);
    }
  }

  lemma {:induction false} SameLive(s: Bits, t: Bits)
    requires |s| == |t| && LiveNodes(s) == LiveNodes(t)
    ensures forall n :: IsNode(s, n) ==> (Live(s[n]) <==> Live(t[n]))
  {
    forall n | IsNode(s, n) ensures Live(s[n]) <==> Live(t[n]) {
      assert n in LiveNodes(s) <==> n in LiveNodes(t);
    }
  }

  /** Releasing every block, in any order, restores the metadata of an empty heap. */
  lemma {:induction false} EmptyMeansClear(s: Bits, n: nat)
    requires Ok(s) && LiveNodes(s) == {} && IsNode(s, n)
    ensures s[n] == CLEAR
  {
    forall l | IsNode(s, l) ensures !Live(s[l]) { assert l !in LiveNodes(s); }
    if !Clear(s[n]) {
      var l := MarkedHasLive(s, n);
    }
  }

  /** One step from the root towards the live block x that holds the byte off: a node above x is
      split, and the half with the byte is the half with x. */
  lemma {:induction false} DescendToBlock(s: Bits, h: nat, x: nat, n: nat, off: nat)
    requires Ok(s) && Fits(s, h) && IsNode(s, x) && Live(s[x]) && Under(x, n)
    requires Start(h, x) <= off < Start(h, x) + Size(h, x)
    ensures IsNode(s, n) && (x == n <==> !s[n].split)
    ensures x != n ==>
      && IsInner(s, n)
      && Depth(2 * n + 1) == Depth(2 * n + 2) == Depth(n) + 1 <= h
      && Start(h, 2 * n + 1) == Start(h, n)
      && Start(h, 2 * n + 2) == Start(h, n) + Size(h, 2 * n + 1)
      && (off < Start(h, n) + Size(h, 2 * n + 1) ==> Under(x, 2 * n + 1))
      && (off >= Start(h, n) + Size(h, 2 * n + 1) ==> Under(x, 2 * n + 2))
  {
    UnderBounds(x, n);
    SplitIff(s, n);
    if x != n {
      assert NodeOk(s, n);
      UnderChild(x, n);
      UnderDepth(x, n);
      TwoHalves(h, n);
      UnderRange(h, x, if Under(x, 2 * n + 1) then 2 * n + 1 else 2 * n + 2);
    }
  }

  /** The two halves of a block. */
  lemma {:induction false} TwoHalves(h: nat, n: nat)
    requires Depth(n) < h
    ensures Depth(2 * n + 1) == Depth(2 * n + 2) == Depth(n) + 1
    ensures Start(h, 2 * n + 1) == Start(h, n) && Start(h, 2 * n + 2) == Start(h, n) + Size(h, 2 * n + 1)
  {
    StartOfChild(h, 2 * n + 1, n, 0);
    StartOfChild(h, 2 * n + 2, n, 1);
  }

  // ---------------------------------------------------------------- accounting

  /** Bytes of a node, if it is in s. */
  ghost function NodeBytes(h: nat, s: set<nat>, n: nat): nat
  {
    if n in s && Depth(n) <= h then Size(h, n) else 0
  }

  /** Bytes of the blocks of s among the first k nodes. */
  ghost function SetBytes(h: nat, s: set<nat>, k: nat): nat
  {
    if k == 0 then 0 else SetBytes(h, s, k - 1) + NodeBytes(h, s, k - 1)
  }

  lemma {:induction false} NodeBytesAdd(h: nat, s: set<nat>, x: nat, n: nat, size: nat)
    requires x !in s && Depth(x) <= h && size == Size(h, x)
    ensures NodeBytes(h, s + {x}, n) == NodeBytes(h, s, n) + if n == x then size else 0
  {
  }

  lemma {:induction false} SetBytesAdd(h: nat, s: set<nat>, x: nat, k: nat)
    requires x !in s && Depth(x) <= h
    ensures SetBytes(h, s + {x}, k) == SetBytes(h, s, k) + if x < k then Size(h, x) else 0
    decreases k
  {
    if k > 0 {
      SetBytesAdd(h, s, x, k - 1);
      NodeBytesAdd(h, s, x, k - 1, Size(h, x));
    }
  }
}
