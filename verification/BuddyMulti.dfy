/** Multi-step allocations: a size that is not a power of two is made of one block per set bit. */
module BuddyMulti {
  import opened Powers
  import opened BuddyBits
  import opened BuddySearch
  import opened BuddyRange
  import opened BuddyTheorems

  /** The blocks, from offset off on, for the bits of v below i. */
  ghost function Steps(h: nat, off: nat, v: nat, i: nat): set<nat>
    requires i <= h
    decreases i
  {
    if i == 0 then {}
    else if Bit(v, i - 1) then {PtrToNode(h, off, i - 1)} + Steps(h, off + Pow2(i - 1), v, i - 1)
    else Steps(h, off, v, i - 1)
  }

  /** off is aligned for the blocks of the low i bits of v. */
  ghost predicate AlignedFor(off: nat, v: nat, i: nat)
  {
    Aligned(off, i) || (i > 0 && Low(v, i) == Pow2(i - 1) && Aligned(off, i - 1))
  }

  /** The blocks for the low i bits of v fit at off. */
  ghost predicate Placed(h: nat, off: nat, v: nat, i: nat)
  {
    i <= h && AlignedFor(off, v, i) && off + Low(v, i) <= Pow2(h)
  }

  lemma {:induction false} PlacedStep(h: nat, off: nat, v: nat, i: nat)
    requires Placed(h, off, v, i + 1)
    ensures Low(v, i + 1) == Low(v, i) + if Bit(v, i) then Pow2(i) else 0
    ensures Bit(v, i) ==>
      && Aligned(off, i) && off + Pow2(i) <= Pow2(h)
      && Depth(PtrToNode(h, off, i)) == h - i
      && Start(h, PtrToNode(h, off, i)) == off
      && Placed(h, off + Pow2(i), v, i)
    ensures !Bit(v, i) ==> Placed(h, off, v, i)
  {
    LowStep(v, i);
    if Aligned(off, i + 1) { LowZero(off, i + 1, i); }
    AlignedPlus(off, i);
    if Bit(v, i) {
      PtrRoundTrip(h, off, i);
    }
  }

  lemma {:induction false} StepsEmpty(h: nat, off: nat, v: nat, i: nat)
    requires i <= h && Low(v, i) == 0
    ensures Steps(h, off, v, i) == {}
    decreases i
  {
    if i > 0 {
      LowStep(v, i - 1);
      StepsEmpty(h, off, v, i - 1);
    }
  }

  /** A power of two is one block. */
  lemma {:induction false} StepsOne(h: nat, off: nat, t: nat)
    requires t < h
    ensures Steps(h, off, Pow2(t), t + 1) == {PtrToNode(h, off, t)}
    ensures Low(Pow2(t), t + 1) == Pow2(t)
  {
    LowPow(t);
    LowStep(Pow2(t), t);
    StepsEmpty(h, off + Pow2(t), Pow2(t), t);
  }

  lemma {:induction false} StepsDepth(h: nat, off: nat, v: nat, i: nat)
    requires Placed(h, off, v, i)
    ensures forall n :: n in Steps(h, off, v, i) ==> h - i < Depth(n) <= h
    decreases i
  {
    if i > 0 {
      PlacedStep(h, off, v, i - 1);
      StepsDepth(h, if Bit(v, i - 1) then off + Pow2(i - 1) else off, v, i - 1);
    }
  }

  /** The byte b belongs to one of the blocks. */
  ghost predicate InSome(h: nat, blocks: set<nat>, b: nat)
  {
    exists n :: n in blocks && Depth(n) <= h && Start(h, n) <= b < Start(h, n) + Size(h, n)
  }

  /** The blocks of a multi-step allocation tile exactly v bytes from off on. */
  lemma {:induction false} StepsTile(h: nat, off: nat, v: nat, i: nat, b: nat)
    requires Placed(h, off, v, i)
    ensures off <= b < off + Low(v, i) <==> InSome(h, Steps(h, off, v, i), b)
    decreases i
  {
    if i > 0 {
      PlacedStep(h, off, v, i - 1);
      if Bit(v, i - 1) {
        var y := PtrToNode(h, off, i - 1);
        StepsTile(h, off + Pow2(i - 1), v, i - 1, b);
        SizeIs(h, y, i - 1);
        InSomeMore(h, y, Steps(h, off + Pow2(i - 1), v, i - 1), b);
      } else {
        StepsTile(h, off, v, i - 1, b);
      }
    }
  }

  lemma {:induction false} InSomeMore(h: nat, y: nat, rest: set<nat>, b: nat)
    requires Depth(y) <= h
    ensures InSome(h, {y} + rest, b) <==> Start(h, y) <= b < Start(h, y) + Size(h, y) || InSome(h, rest, b)
  {
    if Start(h, y) <= b < Start(h, y) + Size(h, y) { assert y in {y} + rest; }
    if InSome(h, rest, b) {
      var n :| n in rest && Depth(n) <= h && Start(h, n) <= b < Start(h, n) + Size(h, n);
      assert n in {y} + rest;
    }
  }

  /** Their sizes add up to v. */
  lemma {:induction false} StepsBytes(h: nat, off: nat, v: nat, i: nat, s: set<nat>, k: nat)
    requires Placed(h, off, v, i) && s !! Steps(h, off, v, i)
    requires forall n :: n in Steps(h, off, v, i) ==> n < k
    ensures SetBytes(h, s + Steps(h, off, v, i), k) == SetBytes(h, s, k) + Low(v, i)
    decreases i
  {
    if i > 0 {
      PlacedStep(h, off, v, i - 1);
      if Bit(v, i - 1) {
        var y := PtrToNode(h, off, i - 1);
        var rest := Steps(h, off + Pow2(i - 1), v, i - 1);
        StepsDepth(h, off + Pow2(i - 1), v, i - 1);
        StepsBytes(h, off + Pow2(i - 1), v, i - 1, s + {y}, k);
        SetBytesAdd(h, s, y, k);
        SizeIs(h, y, i - 1);
        assert s + Steps(h, off, v, i) == s + {y} + rest;
      } else {
        StepsBytes(h, off, v, i - 1, s, k);
      }
    } else {
      assert s + {} == s;
    }
  }

  /** Progress through the bits of v, of which there are l: those from j on are done and took tot
      bytes from base on, in the blocks `done`. */
  datatype Plan = Plan(h: nat, base: nat, v: nat, l: nat, j: nat, tot: nat, done: set<nat>)
  {
    ghost predicate Ok()
    {
      && j <= l <= h && v < Pow2(l) && Placed(h, base + tot, v, j) && tot + Low(v, j) == v
      && done + Steps(h, base + tot, v, j) == Steps(h, base, v, l)
      && forall n :: n in done ==> Depth(n) <= h - j
    }

    lemma {:induction false} Start()
      requires j == l <= h && v < Pow2(l) && AlignedFor(base, v, l) && base + v <= Pow2(h) && tot == 0 && done == {}
      ensures Ok()
    {
      LowSmall(v, l);
      assert base + 0 == base;
    }

    lemma {:induction false} Skip(i: nat)
      requires Ok() && j == i + 1 && !Bit(v, i)
      ensures this.(j := i).Ok()
    {
      PlacedStep(h, base + tot, v, i);
    }

    lemma {:induction false} Take(i: nat)
      requires Ok() && j == i + 1 && Bit(v, i)
      ensures i < h && Aligned(base + tot, i) && base + tot + Pow2(i) <= Pow2(h) && tot + Pow2(i) <= v
      ensures PtrToNode(h, base + tot, i) !in done
      ensures this.(j := i, tot := tot + Pow2(i), done := done + {PtrToNode(h, base + tot, i)}).Ok()
    {
      PlacedStep(h, base + tot, v, i);
      assert base + (tot + Pow2(i)) == base + tot + Pow2(i);
    }

    lemma {:induction false} End()
      requires Ok() && (j == 0 || tot >= v)
      ensures tot == v && done == Steps(h, base, v, l)
    {
      StepsEmpty(h, base + tot, v, j);
    }

    /** The blocks of a multiple of 2^m have at least 2^m bytes. */
    lemma {:induction false} Above(m: nat)
      requires Ok() && Low(v, m) == 0 && tot < v
      ensures m < j
    {
      if j <= m { LowZero(v, m, j); }
    }
  }

  /** Nothing happens at the bits above the size. */
  lemma {:induction false} NoHighBit(v: nat, l: nat, i: nat)
    requires v < Pow2(l) && l <= i
    ensures !Bit(v, i)
  {
    if l < i { Pow2Monotone(l, i); }
    LowSmall(v, i);
  }

  // ---------------------------------------------------------------- filling the big block from the left

  /** s was the heap before; cur is the heap with the first tot bytes of the block big in use. */
  ghost predicate Stage(s: Bits, cur: Bits, h: nat, big: nat, tot: nat)
    requires Fits(s, h)
  {
    && |cur| == |s| && Fits(cur, h) && IsNode(s, big) && SubOk(cur, big)
    && (forall i :: IsNode(s, i) && !Under(i, big) ==> cur[i] == if Under(big, i) then BlockNode(true, false) else s[i])
    && (forall l :: IsNode(s, l) && Under(l, big) && Live(cur[l]) ==> Start(h, l) + Size(h, l) <= Start(h, big) + tot)
    && (forall b: nat :: Start(h, big) <= b < Start(h, big) + tot ==> Taken(cur, h, big, b))
  }

  /** Above a free block nothing is full. */
  lemma {:induction false} AboveFree(s: Bits, big: nat, i: nat)
    requires Ok(s) && IsNode(s, big) && Under(big, 0) && Avail(s, 0, big) && Under(big, i) && i != big
    ensures IsNode(s, i) && !s[i].full && !Live(s[i])
  {
    UnderBounds(big, i);
    OpenIff(s, 0, big);
    OpenIff(s, i, big);
    forall l: nat ensures Under(l, 0) { UnderRoot(l); }
    if s[i].full {
      FullHidesAll(s, i, big);
    }
  }

  lemma {:induction false} StageStart(s: Bits, cur: Bits, h: nat, big: nat)
    requires Ok(s) && Fits(s, h) && IsNode(s, big) && Under(big, 0) && Avail(s, 0, big) && Probed(s, cur, 0, big)
    ensures Stage(s, cur, h, big, 0)
    ensures LiveNodes(cur) == LiveNodes(s)
  {
    forall i | IsNode(s, i)
      ensures Under(i, 0)
      ensures Under(big, i) && i != big ==> cur[i] == BlockNode(true, false) && !Live(s[i])
      ensures Under(i, big) ==> cur[i] == s[i] && Clear(s[i])
    {
      UnderRoot(i);
      if Under(big, i) && i != big { AboveFree(s, big, i); }
      if Under(i, big) {
        if Under(big, i) { UnderBounds(big, i); UnderBounds(i, big); }
        BelowFree(s, big, i);
      }
    }
    forall m | IsNode(s, m) && Under(m, big) ensures NodeOk(cur, m) {
      assert NodeOk(s, m);
      NodeOkFrame(s, cur, m);
    }
  }

  lemma {:induction false} BelowFree(s: Bits, big: nat, i: nat)
    requires Ok(s) && IsNode(s, big) && Clear(s[big]) && IsNode(s, i) && Under(i, big)
    ensures Clear(s[i])
  {
    if !Clear(s[i]) && i != big {
      OkLoose(s);
      MarkedAbove(s, i, big);
    }
  }

  /** The next block: right after the bytes in use, and the lowest free one of its size. */
  lemma {:induction false} StageTarget(s: Bits, cur: Bits, h: nat, big: nat, tot: nat, i: nat, y: nat)
    requires Fits(s, h) && Stage(s, cur, h, big, tot)
    requires IsNode(s, y) && Depth(big) <= Depth(y) == h - i && Start(h, y) == Start(h, big) + tot
    requires tot + Pow2(i) <= Size(h, big)
    ensures Lowest(cur, big, h - i, y)
  {
    UnderIffInside(h, y, big);
    StageFreeAt(cur, h, big, tot, y);
    forall m | IsNode(cur, m) && Under(m, big) && Depth(m) == h - i && m < y
      ensures !Avail(cur, big, m)
    {
      UnderRange(h, m, big);
      BeforeInRow(h, m, y);
      StageTakenAt(cur, h, big, m);
    }
  }

  /** The same, by address. */
  lemma {:induction false} StageNext(s: Bits, cur: Bits, h: nat, d: nat, big: nat, l: nat, i: nat, tot: nat, off: nat)
    requires |cur| == Pow2(d + 1) && Fits(s, h) && Stage(s, cur, h, big, tot)
    requires h - d <= i < l <= h && Depth(big) == h - l
    requires off == Start(h, big) + tot && Aligned(off, i) && tot + Pow2(i) <= Pow2(l)
    ensures var y := PtrToNode(h, off, i);
      Depth(y) == h - i && Start(h, y) == off && Lowest(cur, big, h - i, y)
  {
    var y := PtrToNode(h, off, i);
    SizeIs(h, big, l);
    InsideHeap(h, big);
    assert off + Pow2(i) <= Pow2(h);
    PtrRoundTrip(h, off, i);
    DepthBound(y, d);
    StageTarget(s, cur, h, big, tot, i, y);
  }

  lemma {:induction false} BeforeInRow(h: nat, m: nat, x: nat)
    requires Depth(m) == Depth(x) <= h && m < x
    ensures Start(h, m) < Start(h, x)
  {
    if Start(h, m) == Start(h, x) {
      NodeRoundTrip(h, m);
      NodeRoundTrip(h, x);
    } else if Start(h, x) < Start(h, m) {
      OrderInRow(h, x, m);
    }
  }

  lemma {:induction false} StageFreeAt(cur: Bits, h: nat, big: nat, tot: nat, y: nat)
    requires Fits(cur, h) && IsNode(cur, big) && SubOk(cur, big) && IsNode(cur, y) && Under(y, big)
    requires forall l :: IsNode(cur, l) && Under(l, big) && Live(cur[l]) ==>
      Start(h, l) + Size(h, l) <= Start(h, big) + tot
    requires Start(h, y) == Start(h, big) + tot
    ensures Avail(cur, big, y)
  {
    forall l | IsNode(cur, l) && Under(l, big) && Live(cur[l]) ensures !Under(l, y) && !Under(y, l) {
      OverlapIff(h, l, y);
    }
    AvailIff(cur, big, y);
  }

  lemma {:induction false} StageTakenAt(cur: Bits, h: nat, big: nat, m: nat)
    requires Fits(cur, h) && IsNode(cur, big) && SubOk(cur, big) && IsNode(cur, m) && Under(m, big)
    requires Taken(cur, h, big, Start(h, m))
    ensures !Avail(cur, big, m)
  {
    var l :| IsNode(cur, l) && Under(l, big) && Live(cur[l]) &&
             Start(h, l) <= Start(h, m) < Start(h, l) + Size(h, l);
    OverlapIff(h, l, m);
    AvailIff(cur, big, m);
  }

  lemma {:induction false} LowestUnique(s: Bits, n: nat, d: nat, x: nat, y: nat)
    requires Lowest(s, n, d, x) && Lowest(s, n, d, y)
    ensures x == y
  {
  }

  lemma {:induction false} MarkedLive(s: Bits, s': Bits, n: nat, x: nat)
    requires Marked(s, s', n, x) && Avail(s, n, x)
    ensures LiveNodes(s') == LiveNodes(s) + {x} && x !in LiveNodes(s)
    ensures forall l :: IsNode(s, l) ==> (Live(s'[l]) <==> Live(s[l]) || l == x)
  {
    OpenIff(s, n, x);
  }

  lemma {:induction false} StageStep(s: Bits, cur: Bits, next: Bits, h: nat, big: nat, tot: nat, i: nat, y: nat)
    requires Fits(s, h) && Stage(s, cur, h, big, tot) && Marked(cur, next, big, y) && Avail(cur, big, y)
    requires Depth(y) == h - i && Start(h, y) == Start(h, big) + tot
    ensures Stage(s, next, h, big, tot + Pow2(i))
    ensures LiveNodes(next) == LiveNodes(cur) + {y} && y !in LiveNodes(cur)
  {
    MarkedLive(cur, next, big, y);
    FitsSame(cur, next, h);
    StageTaken(cur, next, h, big, tot, i, y);
    StageInside(cur, next, h, big, tot, i, y);
    forall j | IsNode(s, j) && !Under(j, big)
      ensures next[j] == if Under(big, j) then BlockNode(true, false) else s[j]
    {
      assert next[j] == cur[j];
    }
  }

  lemma {:induction false} FitsSame(s: Bits, t: Bits, h: nat)
    requires Fits(s, h) && |s| == |t|
    ensures Fits(t, h)
  {
    forall n | IsNode(t, n) ensures Depth(n) <= h { assert IsNode(s, n); }
  }

  lemma {:induction false} StageInside(cur: Bits, next: Bits, h: nat, big: nat, tot: nat, i: nat, y: nat)
    requires |cur| == |next| && Fits(cur, h) && IsNode(cur, big)
    requires forall l :: IsNode(cur, l) ==> (Live(next[l]) <==> Live(cur[l]) || l == y)
    requires forall l :: IsNode(cur, l) && Under(l, big) && Live(cur[l]) ==>
      Start(h, l) + Size(h, l) <= Start(h, big) + tot
    requires IsNode(cur, y) && Depth(y) == h - i && Start(h, y) == Start(h, big) + tot
    ensures forall l :: IsNode(next, l) && Under(l, big) && Live(next[l]) ==>
              Depth(l) <= h && Start(h, l) + Size(h, l) <= Start(h, big) + (tot + Pow2(i))
  {
    forall l | IsNode(next, l) && Under(l, big) && Live(next[l])
      ensures Depth(l) <= h && Start(h, l) + Size(h, l) <= Start(h, big) + (tot + Pow2(i))
    {
      SizeIs(h, y, i);
    }
  }

  lemma {:induction false} StageTaken(cur: Bits, next: Bits, h: nat, big: nat, tot: nat, i: nat, y: nat)
    requires |cur| == |next| && Fits(cur, h) && Fits(next, h) && IsNode(cur, y) && IsNode(cur, big)
    requires forall b: nat :: Start(h, big) <= b < Start(h, big) + tot ==> Taken(cur, h, big, b)
    requires forall l :: IsNode(cur, l) ==> (Live(next[l]) <==> Live(cur[l]) || l == y)
    requires Under(y, big) && Depth(y) == h - i && Start(h, y) == Start(h, big) + tot
    ensures forall b: nat :: Start(h, big) <= b < Start(h, big) + (tot + Pow2(i)) ==> Taken(next, h, big, b)
  {
    forall b: nat | Start(h, big) <= b < Start(h, big) + (tot + Pow2(i)) ensures Taken(next, h, big, b) {
      if b < Start(h, big) + tot {
        assert Taken(cur, h, big, b);
        var l :| IsNode(cur, l) && Under(l, big) && Live(cur[l]) && Start(h, l) <= b < Start(h, l) + Size(h, l);
        assert Live(next[l]);
      } else {
        SizeIs(h, y, i);
        assert Live(next[y]);
      }
    }
  }

  /** Part of the big block stays free, so that everything above it is as it should be. */
  lemma {:induction false} StageDone(s: Bits, cur: Bits, h: nat, big: nat, tot: nat)
    requires Ok(s) && Fits(s, h) && Stage(s, cur, h, big, tot) && 0 < tot < Size(h, big)
    requires Under(big, 0) && Avail(s, 0, big)
    ensures Ok(cur)
  {
    StagePartial(cur, h, big, tot);
    forall n | IsNode(s, n) ensures NodeOk(cur, n) {
      if !Under(n, big) {
        if Under(big, n) { AboveFree(s, big, n); }
        assert NodeOk(s, n);
        StageNodeOk(s, cur, big, n);
      }
    }
  }

  lemma {:induction false} StagePartial(cur: Bits, h: nat, big: nat, tot: nat)
    requires Fits(cur, h) && IsNode(cur, big) && SubOk(cur, big) && tot < Size(h, big)
    requires forall l :: IsNode(cur, l) && Under(l, big) && Live(cur[l]) ==>
      Start(h, l) + Size(h, l) <= Start(h, big) + tot
    requires Taken(cur, h, big, Start(h, big))
    ensures !cur[big].full && !Clear(cur[big])
  {
    if cur[big].full {
      FullTaken(cur, h, big, Start(h, big) + Size(h, big) - 1);
    }
    var l :| IsNode(cur, l) && Under(l, big) && Live(cur[l]) && Start(h, l) <= Start(h, big) < Start(h, l) + Size(h, l);
    if l != big {
      SubLoose(cur, big, big);
      MarkedAbove(cur, l, big);
    }
  }

  /** A node outside the big block, seen before and after. */
  lemma {:induction false} StageNodeOk(s: Bits, cur: Bits, big: nat, n: nat)
    requires |s| == |cur| && IsNode(s, big) && IsNode(s, n) && !Under(n, big) && NodeOk(s, n)
    requires !Clear(cur[big]) && !cur[big].full && Clear(s[big])
    requires Under(big, n) ==> !s[n].full
    requires forall i :: IsNode(s, i) && !Under(i, big) ==>
      cur[i] == if Under(big, i) then BlockNode(true, false) else s[i]
    ensures NodeOk(cur, n)
  {
    UnderChild(big, n);
    if Under(big, n) {
      UnderBounds(big, if Under(big, 2 * n + 1) then 2 * n + 1 else 2 * n + 2);
    }
    if IsInner(s, n) {
      assert forall c :: c == 2 * n + 1 || c == 2 * n + 2 ==> (Under(c, big) <==> c == big);
      if Under(big, n) {
        var c := if Under(big, 2 * n + 1) then 2 * n + 1 else 2 * n + 2;
        assert !Clear(cur[c]) && !cur[c].full;
      } else {
        NodeOkFrame(s, cur, n);
      }
    }
  }
}
