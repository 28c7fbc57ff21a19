/**
 The heap as the kernel has it: an array of metadata nodes and a byte count, changed in place by searching for a
 block, splitting, freeing and merging.  What the nodes say about bytes is in the modules this one imports.
*/
module BuddyHeap {
  import opened Bithacks
  import opened Powers
  import opened BuddyBits
  import opened Options
  import opened BuddySearch
  import opened BuddyFree
  import opened BuddyRange
  import opened BuddyTheorems
  import opened BuddyMulti
  import opened BuddyExpand

  /** The exponent of the block that a request for `size` bytes is rounded up to. */
  function BlockLog(size: nat, minLog: nat): (t: nat)
    ensures minLog <= t && size <= Pow2(t)
    ensures t > minLog ==> Pow2(t - 1) < size
  {
    var t := CeilLog2(size);
    if t < minLog then Pow2Monotone(t, minLog); minLog else t
  }

  /** It is the size that the word arithmetic of per_heap_kmalloc_unsafe comes to, the maximum of the rounded request
      and the smallest block, when that fits a word. */
  lemma {:induction false} BlockLogIs(size: nat, minLog: nat, wide: bool)
    requires 0 < size <= Pow2(Width(wide) - 1)
    ensures size < Pow2(Width(wide))
    ensures var up, least := RoundUp(size, wide), Pow2(minLog);
      Pow2(BlockLog(size, minLog)) == if up > least then up else least
  {
    Pow2Step(Width(wide) - 1);
    RoundUpIs(size, wide);
    var t := CeilLog2(size);
    if t < minLog { Pow2Monotone(t, minLog); } else if minLog < t { Pow2Monotone(minLog, t); }
  }

  /** On 64 bits, both logarithms in ptr_to_node, that of the heap and that of the block, come from the bit trick.  It
      finds the right node for all blocks of a heap exactly if the heap has at most 2^32 bytes. */
  lemma {:induction false} PtrToNodeIs(h: nat, minLog: nat)
    requires minLog <= h < 64 && minLog <= 32
    ensures forall t: nat :: t <= h ==> Log2(Pow2(t), true) <= Log2(Pow2(h), true)
    ensures (forall t: nat, off: nat :: minLog <= t <= h ==>
               PtrToNode(Log2(Pow2(h), true), off, Log2(Pow2(t), true)) == PtrToNode(h, off, t)) <==> h <= 32
  {
    forall t: nat | t <= h ensures Log2(Pow2(t), true) == Capped(t) { Log2Is(t, true); }
    CappedNodes(h, minLog);
  }

  ghost function Capped(t: nat): nat { if t < 32 then t else 32 }

  lemma {:induction false} CappedNodes(h: nat, minLog: nat)
    requires minLog <= h && minLog <= 32
    ensures (forall t: nat, off: nat :: minLog <= t <= h ==>
               PtrToNode(Capped(h), off, Capped(t)) == PtrToNode(h, off, t)) <==> h <= 32
  {
    if h > 32 { SmallerHeap(32, h, minLog); }
  }

  lemma {:induction false} SmallerHeap(k: nat, h: nat, t: nat)
    requires t <= k < h
    ensures PtrToNode(k, 0, t) < PtrToNode(h, 0, t)
  {
    Pow2Monotone(k - t, h - t);
  }

  /** The smallest heap that fails: of 2^33 bytes, here with a block of a page at its start. */
  lemma {:induction false} HeapTooLarge()
    ensures Log2(Pow2(12), true) <= Log2(Pow2(33), true)
    ensures PtrToNode(Log2(Pow2(33), true), 0, Log2(Pow2(12), true)) < PtrToNode(33, 0, 12)
  {
    Log2Is(33, true);
    Log2Is(12, true);
    SmallerHeap(32, 33, 12);
  }

  /** On 32 bits it is always right. */
  lemma {:induction false} PtrToNodeWord(h: nat, off: nat, t: nat)
    requires t <= h < 32
    ensures Log2(Pow2(t), false) <= Log2(Pow2(h), false)
    ensures PtrToNode(Log2(Pow2(h), false), off, Log2(Pow2(t), false)) == PtrToNode(h, off, t)
  {
    Log2Is(h, false);
    Log2Is(t, false);
  }

  class Heap {
    const sizeLog: nat
    const minLog: nat
    const nodes: array<BlockNode>
    var memAllocated: int

    /** kmalloc_create_heap for a linear heap: all metadata zero. */
    constructor (sizeLog: nat, minLog: nat)
      requires minLog <= sizeLog
      ensures this.sizeLog == sizeLog && this.minLog == minLog && fresh(nodes)
      ensures Valid() && Blocks() == {} && memAllocated == 0
      ensures forall n :: 0 <= n < nodes.Length ==> nodes[n] == CLEAR
    {
      this.sizeLog, this.minLog := sizeLog, minLog;
      nodes := new BlockNode[Pow2(sizeLog - minLog + 1)](_ => CLEAR);
      memAllocated := 0;
      new;
      assert forall n :: IsNode(Bits(), n) ==> NodeOk(Bits(), n);
    }

    ghost predicate Sized()
    {
      minLog <= sizeLog && nodes.Length == Pow2(sizeLog - minLog + 1)
    }

    ghost function Bits(): (s: Bits)
      reads nodes
      requires Sized()
    {
      assert Pow2(sizeLog - minLog + 1) == 2 * Pow2(sizeLog - minLog);
      nodes[..]
    }

    method Search(t: nat, n: nat, k: nat, mark: bool) returns (r: Option<nat>)
      requires Sized() && IsNode(Bits(), n) && SubOk(Bits(), n)
      requires minLog <= t <= k && Depth(n) + k == sizeLog
      modifies nodes
      ensures Answer(old(Bits()), Bits(), n, sizeLog - t, mark, r)
      decreases k, 1
    {
      ghost var s := Bits();
      ghost var d := sizeLog - t;
      if nodes[n].full {
        FullMeansNone(s, n, d);
        return None;
      }
      if k == t {
        if !nodes[n].split {
          if mark {
            nodes[n] := nodes[n].(full := true);
          }
          r := Some(n);
        } else {
          r := None;
        }
        AnswerHere(s, Bits(), n, d, mark);
        return;
      }
      assert IsInner(s, n) by { DepthBound(n, sizeLog - minLog - 1); }
      if !nodes[n].split {
        nodes[n] := nodes[n].(split := true);
      }
      assert Bits() == s[n := s[n].(split := true)];
      assert NodeOk(s, n);
      r := SearchHalf(t, n, 2 * n + 1, k, mark, s);
      if r.None? {
        r := SearchHalf(t, n, 2 * n + 2, k, mark, s);
        if r.None? {
          NoneOfBoth(s, n, d);
        }
      }
    }

    /** Try one half of n, which has just been split if it was not already. */
    method SearchHalf(t: nat, n: nat, c: nat, k: nat, mark: bool, ghost s: Bits) returns (r: Option<nat>)
      requires Sized() && IsInner(s, n) && SubOk(s, n) && !s[n].full
      requires Bits() == s[n := s[n].(split := true)]
      requires minLog <= t < k && Depth(n) + k == sizeLog
      requires c == 2 * n + 1 || (c == 2 * n + 2 && NoneFree(s, 2 * n + 1, sizeLog - t))
      requires c == 2 * n + 2 ==> s[n].split
      modifies nodes
      ensures r.Some? ==> Answer(s, Bits(), n, sizeLog - t, mark, r)
      ensures r.None? ==> s[n].split && Bits() == s && NoneFree(s, c, sizeLog - t)
      decreases k, 0
    {
      ghost var s1 := Bits();
      assert NodeOk(s, n);
      HalfAfterSplit(s, s1, n, c, sizeLog - t);
      r := None;
      if !nodes[c].full {
        r := Search(t, c, k - 1, mark);
        if r.Some? {
          MarkParent(s, s1, n, c, sizeLog - t, r.value, mark);
        }
      }
    }

    /** On the way back up: mark n as full when both halves are. */
    method MarkParent(ghost s: Bits, ghost s1: Bits, n: nat, ghost c: nat, ghost d: nat,
                      ghost x: nat, ghost mark: bool)
      requires Sized() && IsInner(s, n) && SubOk(s, n) && !s[n].full && |s| == nodes.Length
      requires s1 == s[n := s[n].(split := true)]
      requires c == 2 * n + 1 || (c == 2 * n + 2 && NoneFree(s, 2 * n + 1, d))
      requires Depth(n) < d && Lowest(s1, c, d, x)
      requires if mark then Marked(s1, Bits(), c, x) else Probed(s1, Bits(), c, x)
      modifies nodes
      ensures Lowest(s, n, d, x)
      ensures if mark then Marked(s, Bits(), n, x) else Probed(s, Bits(), n, x)
    {
      ghost var s2 := Bits();
      HalfFrame(s, s1, n, c, d, x);
      LowestOfHalf(s, n, d, c, x);
      AboveChild(x, n, c, n);
      if !mark {
        ProbedUp(s, s1, s2, n, c, x);
        ProbedNotFull(s, s1, s2, n, c, x);
      }
      assert s2[n].split && !s2[n].full by {
        if mark { if Under(n, c) { UnderBounds(n, c); } }
      }
      if nodes[2 * n + 1].full && nodes[2 * n + 2].full {
        nodes[n] := nodes[n].(full := true);
      }
      if mark {
        assert Bits() == s2[n := BlockNode(true, s2[2 * n + 1].full && s2[2 * n + 2].full)];
        MarkedUp(s, s1, s2, Bits(), n, c, x);
      }
    }

    /** Free the block x: clear it, then merge pairs of free halves for as long as there are any.
        `top` is the largest free block this gives; n is where the merging stopped. */
    method CoalesceUp(x: nat) returns (n: nat, top: nat)
      requires Sized() && Ok(Bits()) && IsNode(Bits(), x) && x != 0 && Live(nodes[x])
      modifies nodes
      ensures FreedPath(old(Bits()), Bits(), x) && OkBut(Bits(), NodeParent(n))
      ensures Under(x, n) && IsNode(Bits(), n) && !nodes[n].full
      ensures Under(x, top) && Clear(nodes[top])
      ensures if n == top then n == 0 else top > 0 && n == Parent(top) && SplitAbove(Bits(), n)
    {
      ghost var s := Bits();
      top := x;
      nodes[x] := nodes[x].(full := false);
      n := Parent(x);
      MergeStart(s, Bits(), x);
      while !Clear(nodes[n])
        invariant Merging(s, Bits(), x, top) && n == Parent(top)
        decreases n
      {
        ghost var s1 := Bits();
        var left, right := nodes[2 * n + 1], nodes[2 * n + 2];
        if !Clear(left) || !Clear(right) {
          nodes[n] := nodes[n].(full := left.full && right.full);
          MergeStop(s, s1, Bits(), x, top);
          return;
        }
        nodes[n] := CLEAR;
        MergeStep(s, s1, Bits(), x, top);
        top := n;
        if n == 0 {
          return;
        }
        n := Parent(n);
      }
      assert Under(top, n) && Under(n, n);
      assert false;
    }

    /** The nodes above cannot be merged, but they are not full any more. */
    method UnmarkUp(ghost s: Bits, ghost x: nat, start: nat)
      requires Sized() && FreedPath(s, Bits(), x) && OkBut(Bits(), NodeParent(start))
      requires IsNode(s, x) && Under(x, start) && IsNode(s, start) && !nodes[start].full
      requires start == 0 || SplitAbove(Bits(), start)
      modifies nodes
      ensures FreedPath(s, Bits(), x) && Ok(Bits())
    {
      var n: int := start;
      assert Bits()[n := nodes[n].(full := false)] == Bits();
      while n >= 0
        invariant -1 <= n < |s| - 1
        invariant FreedPath(s, Bits(), x)
        invariant n < 0 ==> Ok(Bits())
        invariant n >= 0 ==> Under(x, n) && (n == 0 || SplitAbove(Bits(), n))
        invariant n >= 0 ==> OkBut(Bits()[n := nodes[n].(full := false)], NodeParent(n))
      {
        ghost var s1 := Bits();
        nodes[n] := nodes[n].(full := false);
        UnmarkStep(s, s1, Bits(), x, n);
        n := NodeParent(n);
      }
    }

    ghost predicate Valid()
      reads nodes
    {
      Sized() && Ok(Bits())
    }

    /** The live blocks, as node numbers. */
    ghost function Blocks(): set<nat>
      reads nodes
      requires Sized()
    {
      LiveNodes(Bits())
    }

    /** The bytes in the live blocks. */
    ghost function BlockBytes(): nat
      reads nodes
      requires Sized()
    {
      SetBytes(sizeLog, Blocks(), nodes.Length - 1)
    }

    lemma {:induction false} AllFit()
      requires Sized()
      ensures Fits(Bits(), sizeLog)
      ensures forall n :: IsNode(Bits(), n) <==> n >= 0 && Depth(n) <= sizeLog - minLog
    {
      forall n: nat ensures IsNode(Bits(), n) <==> Depth(n) <= sizeLog - minLog {
        DepthBound(n, sizeLog - minLog);
      }
    }

    /** No 2^t-aligned range of 2^t bytes that starts before off is free in the metadata s. */
    ghost predicate NoneBelow(s: Bits, t: nat, off: nat)
      requires Fits(s, sizeLog)
    {
      forall o: nat :: o < off && Aligned(o, t) && o + Pow2(t) <= Pow2(sizeLog) ==> !FreeRange(s, sizeLog, o, Pow2(t))
    }

    /** off is the lowest address at which an aligned block of 2^t bytes is free. */
    ghost predicate LowestFree(s: Bits, t: nat, off: nat)
      requires Fits(s, sizeLog)
    {
      && off + Pow2(t) <= Pow2(sizeLog) && Aligned(off, t)
      && FreeRange(s, sizeLog, off, Pow2(t)) && NoneBelow(s, t, off)
    }

    /** internal_kmalloc from the root: the free aligned block of 2^t bytes with the lowest address. */
    method AllocBlock(t: nat, doActualAlloc: bool) returns (r: Option<nat>)
      requires Valid() && minLog <= t <= sizeLog
      modifies this, nodes
      ensures Valid() && Fits(old(Bits()), sizeLog)
      ensures r.None? ==> Bits() == old(Bits()) && memAllocated == old(memAllocated)
      ensures r.None? ==> NoneBelow(old(Bits()), t, Pow2(sizeLog))
      ensures r.Some? ==>
        && LowestFree(old(Bits()), t, r.value)
        && Blocks() == old(Blocks()) + {PtrToNode(sizeLog, r.value, t)}
        && memAllocated == old(memAllocated) + if doActualAlloc then Pow2(t) else 0
    {
      ghost var s := Bits();
      AllFit();
      var found := Search(t, 0, sizeLog, true);
      match found
      case None =>
        r := None;
        NoneAnywhere(s, t, Pow2(sizeLog), |s|);
      case Some(x) =>
        var off := NodeOffset(s, t, x);
        MarkedRoot(s, Bits(), x);
        r := Some(off);
        if doActualAlloc {
          memAllocated := memAllocated + Pow2(t);
        }
    }

    /** The address of the block the search found. */
    method NodeOffset(ghost s: Bits, t: nat, x: nat) returns (off: nat)
      requires Sized() && |s| == nodes.Length && Ok(s) && Fits(s, sizeLog) && minLog <= t <= sizeLog
      requires Lowest(s, 0, sizeLog - t, x)
      ensures PtrToNode(sizeLog, off, t) == x && off == Start(sizeLog, x)
      ensures LowestFree(s, t, off)
    {
      NodeRoundTrip(sizeLog, x);
      off := NodeToPtr(sizeLog, x, t);
      AvailIffFree(s, sizeLog, x);
      UnderRange(sizeLog, x, 0);
      NoneAnywhere(s, t, Start(sizeLog, x), x);
    }

    lemma {:induction false} MarkedRoot(s: Bits, s': Bits, x: nat)
      requires Marked(s, s', 0, x) && Avail(s, 0, x)
      ensures Ok(s') && LiveNodes(s') == LiveNodes(s) + {x} && x !in LiveNodes(s)
    {
      forall n | IsNode(s, n) ensures Under(n, 0) { UnderRoot(n); }
      OpenIff(s, 0, x);
    }

    /** The search looked at nodes; the caller thinks in addresses. */
    lemma {:induction false} NoneAnywhere(s: Bits, t: nat, off: nat, x: nat)
      requires Sized() && |s| == nodes.Length && Ok(s) && Fits(s, sizeLog) && minLog <= t <= sizeLog
      requires NoneBefore(s, 0, sizeLog - t, x)
      requires x == |s| || (Depth(x) == sizeLog - t && Start(sizeLog, x) == off)
      ensures NoneBelow(s, t, off)
    {
      forall o: nat | o < off && Aligned(o, t) && o + Pow2(t) <= Pow2(sizeLog)
        ensures !FreeRange(s, sizeLog, o, Pow2(t))
      {
        var m := PtrToNode(sizeLog, o, t);
        PtrRoundTrip(sizeLog, o, t);
        assert IsNode(s, m) by { DepthBound(m, sizeLog - minLog); }
        assert m < x by {
          if x != |s| { OrderInRow(sizeLog, m, x); }
        }
        AvailIffFree(s, sizeLog, m);
      }
    }

    method FreeNode(x: nat) returns (top: nat)
      requires Sized() && Ok(Bits()) && IsNode(Bits(), x) && x != 0 && Live(nodes[x])
      modifies nodes
      ensures Ok(Bits()) && LiveNodes(Bits()) == old(LiveNodes(Bits())) - {x}
      ensures Under(x, top)
    {
      ghost var s := Bits();
      var n;
      n, top := CoalesceUp(x);
      UnmarkUp(s, x, n);
      FreedLive(s, Bits(), x);
    }

    /** off is the address of a live block of 2^t bytes. */
    ghost predicate IsBlock(off: nat, t: nat)
      reads nodes
      requires Sized()
    {
      && minLog <= t <= sizeLog && Aligned(off, t) && off + Pow2(t) <= Pow2(sizeLog)
      && PtrToNode(sizeLog, off, t) in Blocks()
    }

    /** internal_kfree: release exactly this block. */
    method FreeBlock(off: nat, t: nat)
      requires Valid() && t < sizeLog && IsBlock(off, t)
      modifies this, nodes
      ensures Valid() && Blocks() == old(Blocks()) - {PtrToNode(sizeLog, off, t)}
      ensures memAllocated == old(memAllocated) - Pow2(t)
    {
      var x := PtrToNode(sizeLog, off, t);
      PtrRoundTrip(sizeLog, off, t);
      memAllocated := memAllocated - Pow2(t);
      var _ := FreeNode(x);
    }

    /** calculate_block_size: walk down to the block that holds the byte at off. */
    method CalculateBlockSize(off: nat, ghost x: nat) returns (k: nat)
      requires Valid() && x in Blocks() && Fits(Bits(), sizeLog)
      requires Start(sizeLog, x) <= off < Start(sizeLog, x) + Size(sizeLog, x)
      ensures minLog <= k <= sizeLog && Size(sizeLog, x) == Pow2(k) && k == sizeLog - Depth(x)
    {
      var n, va := 0, 0;
      k := sizeLog;
      UnderRoot(x);
      while k > minLog
        invariant minLog <= k <= sizeLog && IsNode(Bits(), n) && Depth(n) == sizeLog - k
        invariant Under(x, n) && va == Start(sizeLog, n)
        decreases k
      {
        DescendToBlock(Bits(), sizeLog, x, n, off);
        if !nodes[n].split {
          break;
        }
        k := k - 1;
        assert Pow2(k) == Size(sizeLog, 2 * n + 1);
        if off >= va + Pow2(k) {
          va := va + Pow2(k);
          n := 2 * n + 2;
        } else {
          n := 2 * n + 1;
        }
      }
      AllFit();
      if x != n { UnderDepth(x, n); }
    }

    /** One block of a multi-step allocation: the search answers with the address right after the
        bytes already in use. */
    method AllocStep(ghost s: Bits, big: nat, l: nat, i: nat, ghost tot: nat, ghost off: nat)
      requires Sized() && Fits(s, sizeLog) && Stage(s, Bits(), sizeLog, big, tot)
      requires minLog <= i < l <= sizeLog && Depth(big) == sizeLog - l
      requires off == Start(sizeLog, big) + tot && Aligned(off, i) && tot + Pow2(i) <= Pow2(l)
      modifies nodes
      ensures Stage(s, Bits(), sizeLog, big, tot + Pow2(i))
      ensures Blocks() == old(Blocks()) + {PtrToNode(sizeLog, off, i)}
    {
      ghost var cur, y := Bits(), PtrToNode(sizeLog, off, i);
      StageNext(s, cur, sizeLog, sizeLog - minLog, big, l, i, tot, off);
      var r := Search(i, big, l, true);
      LowestUnique(cur, big, sizeLog - i, y, r.value);
      StageStep(s, cur, Bits(), sizeLog, big, tot, i, y);
    }

    /** The multi-step branch of per_heap_kmalloc_unsafe. */
    method AllocSteps(desired: nat, l: nat, doActualAlloc: bool) returns (r: Option<nat>)
      requires Valid() && minLog <= l <= sizeLog && 0 < desired < Pow2(l) && Aligned(desired, minLog)
      modifies this, nodes
      ensures Valid() && Fits(old(Bits()), sizeLog)
      ensures r.None? ==> Bits() == old(Bits()) && memAllocated == old(memAllocated)
      ensures r.None? ==> NoneBelow(old(Bits()), l, Pow2(sizeLog))
      ensures r.Some? ==>
        && LowestFree(old(Bits()), l, r.value)
        && Blocks() == old(Blocks()) + Steps(sizeLog, r.value, desired, l)
        && memAllocated == old(memAllocated) + if doActualAlloc then desired else 0
    {
      ghost var s := Bits();
      AllFit();
      var probe := FindBigBlock(l);
      if probe.None? {
        return None;
      }
      var big, base := probe.value.0, probe.value.1;
      ghost var p := Plan(sizeLog, base, desired, l, l, 0, {});
      p.Start();
      AllocLoop(s, p, big, desired, l, doActualAlloc);
      StageDone(s, Bits(), sizeLog, big, desired);
      r := Some(base);
    }

    /** Look for a free block of 2^l bytes without taking it: its node and its address. */
    method FindBigBlock(l: nat) returns (r: Option<(nat, nat)>)
      requires Valid() && minLog <= l <= sizeLog && Fits(Bits(), sizeLog)
      modifies nodes
      ensures r.None? ==> Bits() == old(Bits()) && NoneBelow(old(Bits()), l, Pow2(sizeLog))
      ensures r.Some? ==>
        && LowestFree(old(Bits()), l, r.value.1)
        && IsNode(Bits(), r.value.0) && Under(r.value.0, 0) && Avail(old(Bits()), 0, r.value.0)
        && Depth(r.value.0) == sizeLog - l && Start(sizeLog, r.value.0) == r.value.1
        && Stage(old(Bits()), Bits(), sizeLog, r.value.0, 0) && Blocks() == old(Blocks())
    {
      ghost var s := Bits();
      var probe := Search(l, 0, sizeLog, false);
      if probe.None? {
        NoneAnywhere(s, l, Pow2(sizeLog), |s|);
        return None;
      }
      var base := NodeOffset(s, l, probe.value);
      StageStart(s, Bits(), sizeLog, probe.value);
      r := Some((probe.value, base));
    }

    method AllocLoop(ghost s: Bits, ghost start: Plan, big: nat, desired: nat, l: nat, doActualAlloc: bool)
      requires Sized() && Fits(s, sizeLog) && Stage(s, Bits(), sizeLog, big, 0)
      requires start.Ok() && start == Plan(sizeLog, Start(sizeLog, big), desired, l, l, 0, {})
      requires Aligned(desired, minLog) && Depth(big) == sizeLog - l
      modifies this, nodes
      ensures Stage(s, Bits(), sizeLog, big, desired)
      ensures Blocks() == old(Blocks()) + Steps(sizeLog, start.base, desired, l)
      ensures memAllocated == old(memAllocated) + if doActualAlloc then desired else 0
    {
      var i := sizeLog - 1;
      var tot: nat := 0;
      ghost var p := start;
      while i >= 0 && tot < desired
        invariant -1 <= i < sizeLog && tot == p.tot
        invariant p.Ok() && p == start.(j := if i < l then i + 1 else l, tot := p.tot, done := p.done)
        invariant Filled(s, p, big, old(Blocks()), old(memAllocated), doActualAlloc)
        decreases i
      {
        if i >= l { NoHighBit(desired, l, i); }
        if Bit(desired, i) {
          p := AllocBit(s, p, big, l, i, old(Blocks()), old(memAllocated), doActualAlloc);
          tot := tot + Pow2(i);
        } else if i < l {
          p.Skip(i);
          p := p.(j := i);
        }
        i := i - 1;
      }
      p.End();
    }

    /** The blocks of the plan that are done have been taken and accounted for. */
    ghost predicate Filled(s: Bits, p: Plan, big: nat, blocks: set<nat>, mem: int, doActualAlloc: bool)
      reads this, nodes
      requires Sized() && Fits(s, sizeLog)
    {
      && Stage(s, Bits(), sizeLog, big, p.tot)
      && Blocks() == blocks + p.done
      && memAllocated == mem + if doActualAlloc then p.tot else 0
    }

    method AllocBit(ghost s: Bits, ghost p: Plan, big: nat, l: nat, i: nat, ghost blocks: set<nat>, ghost mem: int,
                    doActualAlloc: bool)
      returns (ghost p': Plan)
      requires Sized() && Fits(s, sizeLog) && Filled(s, p, big, blocks, mem, doActualAlloc)
      requires p.Ok() && p.h == sizeLog && p.l == l && p.j == i + 1 && Bit(p.v, i)
      requires Aligned(p.v, minLog) && p.tot < p.v
      requires l <= sizeLog && Depth(big) == sizeLog - l && p.base == Start(sizeLog, big)
      modifies this, nodes
      ensures Filled(s, p', big, blocks, mem, doActualAlloc)
      ensures p'.Ok() && p' == p.(j := i, tot := p.tot + Pow2(i), done := p'.done)
    {
      p.Above(minLog);
      p.Take(i);
      p' := p.(j := i, tot := p.tot + Pow2(i), done := p.done + {PtrToNode(sizeLog, p.base + p.tot, i)});
      assert p.tot + Pow2(i) <= p.v < Pow2(l);
      AllocStep(s, big, l, i, p.tot, p.base + p.tot);
      if doActualAlloc {
        memAllocated := memAllocated + Pow2(i);
      }
    }

    /** The multi-step branch of per_heap_kfree_unsafe: release the block of every set bit of size. */
    method FreeSteps(off: nat, size: nat, ghost l: nat)
      requires Valid() && l <= sizeLog && size < Pow2(l) && Aligned(size, minLog)
      requires AlignedFor(off, size, l) && off + size <= Pow2(sizeLog)
      requires Steps(sizeLog, off, size, l) <= Blocks()
      modifies this, nodes
      ensures Valid() && Blocks() == old(Blocks()) - Steps(sizeLog, off, size, l)
      ensures memAllocated == old(memAllocated) - size
    {
      var i := sizeLog - 1;
      var tot: nat := 0;
      ghost var p := Plan(sizeLog, off, size, l, l, 0, {});
      p.Start();
      while i >= 0 && tot < size
        invariant -1 <= i < sizeLog && tot == p.tot && Valid()
        invariant p.Ok() && p == Plan(sizeLog, off, size, l, if i < l then i + 1 else l, p.tot, p.done)
        invariant Blocks() == old(Blocks()) - p.done
        invariant memAllocated == old(memAllocated) - p.tot
        decreases i
      {
        if i >= l { NoHighBit(size, l, i); }
        if Bit(size, i) {
          p := FreeBit(p, i, old(Blocks()), off + tot);
          tot := tot + Pow2(i);
        } else if i < l {
          p.Skip(i);
          p := p.(j := i);
        }
        i := i - 1;
      }
      p.End();
    }

    method FreeBit(ghost p: Plan, i: nat, ghost blocks: set<nat>, off: nat) returns (ghost p': Plan)
      requires Valid() && p.Ok() && p.h == sizeLog && p.j == i + 1 && Bit(p.v, i) && off == p.base + p.tot
      requires Aligned(p.v, minLog) && p.tot < p.v
      requires Steps(sizeLog, p.base, p.v, p.l) <= blocks && Blocks() == blocks - p.done
      modifies this, nodes
      ensures Valid() && Blocks() == blocks - p'.done
      ensures memAllocated == old(memAllocated) - Pow2(i)
      ensures p'.Ok() && p' == p.(j := i, tot := p.tot + Pow2(i), done := p'.done)
    {
      p.Above(minLog);
      p.Take(i);
      ghost var y := PtrToNode(sizeLog, off, i);
      assert y in Steps(sizeLog, off, p.v, i + 1);
      p' := p.(j := i, tot := p.tot + Pow2(i), done := p.done + {y});
      FreeBlock(off, i);
    }

    /** A request of this size is served by several blocks. */
    predicate InSteps(size: nat, multiStep: bool)
    {
      multiStep && Pow2(BlockLog(size, minLog)) - size >= Pow2(minLog)
    }

    /** The blocks that serve a request when they start at off. */
    ghost function Served(off: nat, size: nat, multiStep: bool): set<nat>
      requires BlockLog(size, minLog) <= sizeLog
    {
      var t := BlockLog(size, minLog);
      if InSteps(size, multiStep) then Steps(sizeLog, off, size, t) else {PtrToNode(sizeLog, off, t)}
    }

    /** The number of bytes they have. */
    function ServedSize(size: nat, multiStep: bool): nat
    {
      if InSteps(size, multiStep) then size else Pow2(BlockLog(size, minLog))
    }

    /** mem_allocated is the number of bytes in live blocks. */
    ghost predicate Balanced()
      reads this, nodes
      requires Sized()
    {
      memAllocated == BlockBytes()
    }

    lemma {:induction false} ServedBytes(s: set<nat>, off: nat, size: nat, multiStep: bool, k: nat)
      requires var t := BlockLog(size, minLog);
        t <= sizeLog && Aligned(off, t) && off + Pow2(t) <= Pow2(sizeLog)
      requires s !! Served(off, size, multiStep) && forall n :: n in Served(off, size, multiStep) ==> n < k
      ensures SetBytes(sizeLog, s + Served(off, size, multiStep), k)
           == SetBytes(sizeLog, s, k) + ServedSize(size, multiStep)
    {
      var t := BlockLog(size, minLog);
      if InSteps(size, multiStep) {
        LowSmall(size, t);
        StepsBytes(sizeLog, off, size, t, s, k);
      } else {
        PtrRoundTrip(sizeLog, off, t);
        SetBytesAdd(sizeLog, s, PtrToNode(sizeLog, off, t), k);
      }
    }

    /** What was free is not live. */
    lemma {:induction false} ServedFresh(s: Bits, off: nat, size: nat, multiStep: bool)
      requires Fits(s, sizeLog) && BlockLog(size, minLog) <= sizeLog && LowestFree(s, BlockLog(size, minLog), off)
      ensures Served(off, size, multiStep) !! LiveNodes(s)
    {
      var t := BlockLog(size, minLog);
      forall n | n in Served(off, size, multiStep) ensures n !in LiveNodes(s) {
        if InSteps(size, multiStep) {
          LowSmall(size, t);
          StepsDepth(sizeLog, off, size, t);
          StepsTile(sizeLog, off, size, t, Start(sizeLog, n));
        } else {
          PtrRoundTrip(sizeLog, off, t);
        }
      }
    }

    /** per_heap_kmalloc_unsafe. */
    method Kmalloc(size: nat, multiStep: bool, doActualAlloc: bool) returns (r: Option<nat>, actual: nat)
      requires Valid() && size > 0 && (InSteps(size, multiStep) ==> Aligned(size, minLog))
      modifies this, nodes
      ensures Valid() && Fits(old(Bits()), sizeLog)
      ensures r.None? ==> Bits() == old(Bits()) && memAllocated == old(memAllocated)
      ensures r.None? ==> size > Pow2(sizeLog) || NoneBelow(old(Bits()), BlockLog(size, minLog), Pow2(sizeLog))
      ensures r.Some? ==> BlockLog(size, minLog) <= sizeLog && LowestFree(old(Bits()), BlockLog(size, minLog), r.value)
      ensures r.Some? ==>
        actual == ServedSize(size, multiStep) && Blocks() == old(Blocks()) + Served(r.value, size, multiStep)
      ensures r.Some? ==> memAllocated == old(memAllocated) + if doActualAlloc then actual else 0
      ensures r.Some? && old(Balanced()) ==> (Balanced() <==> doActualAlloc)
      ensures r.None? && old(Balanced()) ==> Balanced()
    {
      AllFit();
      if size > Pow2(sizeLog) {
        return None, size;
      }
      var t := BlockLog(size, minLog);
      CeilLog2Least(size, sizeLog);
      if !multiStep || Pow2(t) - size < Pow2(minLog) {
        actual := Pow2(t);
        r := AllocBlock(t, doActualAlloc);
      } else {
        actual := size;
        r := AllocSteps(size, t, doActualAlloc);
      }
      if r.Some? {
        ServedFresh(old(Bits()), r.value, size, multiStep);
        assert forall n :: n in Blocks() ==> n < nodes.Length - 1;
        ServedBytes(old(Blocks()), r.value, size, multiStep, nodes.Length - 1);
      }
    }

    /** The request of `size` bytes was served at off. */
    ghost predicate IsServed(off: nat, size: nat, multiStep: bool)
      reads nodes
      requires Sized()
    {
      var t := BlockLog(size, minLog);
      && size > 0 && t <= sizeLog && Aligned(off, t) && off + Pow2(t) <= Pow2(sizeLog)
      && Served(off, size, multiStep) <= Blocks()
    }

    /** per_heap_kfree_unsafe for an ordinary block; without a user size the size is read off the metadata. */
    method KfreeBlock(off: nat, userSize: nat, ghost size: nat) returns (freed: nat)
      requires Valid() && IsServed(off, size, false) && BlockLog(size, minLog) < sizeLog
      requires userSize == size || userSize == 0
      modifies this, nodes
      ensures Valid() && Blocks() == old(Blocks()) - Served(off, size, false)
      ensures freed == ServedSize(size, false) && memAllocated == old(memAllocated) - freed
      ensures old(Balanced()) ==> Balanced()
    {
      ghost var t := BlockLog(size, minLog);
      var k;
      if userSize != 0 {
        k := BlockLog(userSize, minLog);
      } else {
        PtrRoundTrip(sizeLog, off, t);
        AllFit();
        k := CalculateBlockSize(off, PtrToNode(sizeLog, off, t));
      }
      freed := Pow2(k);
      FreeBlock(off, k);
      ServedGone(old(Blocks()), Blocks(), off, size, false, nodes.Length - 1);
    }

    lemma {:induction false} ServedGone(before: set<nat>, after: set<nat>, off: nat, size: nat, multiStep: bool, k: nat)
      requires var t := BlockLog(size, minLog);
        t <= sizeLog && Aligned(off, t) && off + Pow2(t) <= Pow2(sizeLog)
      requires Served(off, size, multiStep) <= before && after == before - Served(off, size, multiStep)
      requires forall n :: n in before ==> n < k
      ensures SetBytes(sizeLog, before, k) == SetBytes(sizeLog, after, k) + ServedSize(size, multiStep)
    {
      assert before == after + Served(off, size, multiStep);
      ServedBytes(after, off, size, multiStep, k);
    }

    /** per_heap_kfree_unsafe with KFREE_FL_MULTI_STEP. */
    method KfreeSteps(off: nat, size: nat)
      requires Valid() && IsServed(off, size, true) && Aligned(size, minLog) && size < Pow2(sizeLog)
      modifies this, nodes
      ensures Valid() && Blocks() == old(Blocks()) - Served(off, size, true)
      ensures memAllocated == old(memAllocated) - size && size == ServedSize(size, true)
      ensures old(Balanced()) ==> Balanced()
    {
      ghost var t := BlockLog(size, minLog);
      if InSteps(size, true) {
        FreeSteps(off, size, t);
      } else {
        ExactBlock(size, minLog);
        Pow2Step(t);
        StepsOne(sizeLog, off, t);
        FreeSteps(off, size, t + 1);
      }
      ServedGone(old(Blocks()), Blocks(), off, size, true, nodes.Length - 1);
    }
  }

  /** Freeing undoes allocating: all the metadata is as it was before. */
  method KmallocKfree(h: Heap, size: nat, multiStep: bool)
    requires h.Valid() && size > 0 && BlockLog(size, h.minLog) < h.sizeLog
    requires multiStep ==> Aligned(size, h.minLog)
    modifies h, h.nodes
    ensures h.Valid() && h.memAllocated == old(h.memAllocated)
    ensures forall n :: IsNode(h.Bits(), n) ==> h.nodes[n] == old(h.nodes[n])
  {
    ghost var s := h.Bits();
    var r, actual := h.Kmalloc(size, multiStep, true);
    if r.Some? {
      h.ServedFresh(s, r.value, size, multiStep);
      if multiStep {
        Pow2Monotone(BlockLog(size, h.minLog), h.sizeLog);
        h.KfreeSteps(r.value, size);
      } else {
        var freed := h.KfreeBlock(r.value, 0, size);
      }
      assert h.Blocks() == LiveNodes(s);
      forall n | IsNode(s, n) ensures h.nodes[n] == s[n] {
        Canonical(h.Bits(), s, n);
      }
    }
  }

  /** kmalloc_heap_dup_expanded: a copy of the metadata for a heap of 2^newLog bytes at the same place. */
  method DupExpanded(h: Heap, newLog: nat) returns (d: Heap)
    requires h.Sized() && newLog >= h.sizeLog
    ensures fresh(d) && fresh(d.nodes) && d.Sized() && d.sizeLog == newLog && d.minLog == h.minLog
    ensures d.memAllocated == h.memAllocated
    ensures IsExpansion(h.Bits(), d.Bits(), h.sizeLog - h.minLog, newLog - h.sizeLog)
    ensures d.Blocks() == ForwardAll(h.Blocks(), newLog - h.sizeLog)
    ensures forall off, k :: LiveAt(d.Bits(), newLog, off, k) <==> LiveAt(h.Bits(), h.sizeLog, off, k)
    ensures h.Valid() ==> (d.Valid() <==> newLog == h.sizeLog || h.Blocks() != {})
  {
    d := new Heap(newLog, h.minLog);
    d.memAllocated := h.memAllocated;
    CopyRows(h, d, newLog - h.sizeLog);
    ExpandedBlocks(h.Bits(), d.Bits(), h.sizeLog - h.minLog, newLog - h.sizeLog);
    if h.Valid() { ExpandedOk(h.Bits(), d.Bits(), h.sizeLog - h.minLog, newLog - h.sizeLog); }
    forall off, k ensures LiveAt(d.Bits(), newLog, off, k) <==> LiveAt(h.Bits(), h.sizeLog, off, k) {
      ExpandedRanges(h.Bits(), d.Bits(), h.sizeLog - h.minLog, newLog - h.sizeLog, h.sizeLog, off, k);
    }
  }

  method CopyRows(h: Heap, d: Heap, e: nat)
    requires h.Sized() && d.Sized() && d.nodes != h.nodes && d.minLog == h.minLog && d.sizeLog == h.sizeLog + e
    requires forall n :: 0 <= n < d.nodes.Length ==> d.nodes[n] == CLEAR
    modifies d.nodes
    ensures IsExpansion(h.Bits(), d.Bits(), h.sizeLog - h.minLog, e)
  {
    var rows := d.sizeLog - h.minLog + 1;
    for row := 0 to rows
      invariant RowsCopied(h.Bits(), d.Bits(), e, row)
    {
      CopyRow(h, d, e, row);
    }
    forall m | IsNode(d.Bits(), m) ensures d.nodes[m] == Expanded(h.Bits(), e, m) {
      DepthBound(m, rows - 1);
    }
  }

  method CopyRow(h: Heap, d: Heap, e: nat, row: nat)
    requires h.Sized() && d.Sized() && d.nodes != h.nodes && d.minLog == h.minLog && d.sizeLog == h.sizeLog + e
    requires row <= d.sizeLog - d.minLog && RowsCopied(h.Bits(), d.Bits(), e, row)
    modifies d.nodes
    ensures RowsCopied(h.Bits(), d.Bits(), e, row + 1)
  {
    if row < e {
      MarkLeftmost(d, e, row, h.Bits());
    } else {
      CopyOldRow(h, d, e, row);
    }
  }

  /** A row above the old root: its leftmost node is split. */
  method MarkLeftmost(d: Heap, e: nat, row: nat, ghost s: Bits)
    requires d.Sized() && row < e && row <= d.sizeLog - d.minLog && RowsCopied(s, d.Bits(), e, row)
    modifies d.nodes
    ensures RowsCopied(s, d.Bits(), e, row + 1)
  {
    ghost var t := d.Bits();
    var first := Pow2(row) - 1;
    Pow2Monotone(row, d.sizeLog - d.minLog + 1);
    d.nodes[first] := d.nodes[first].(split := true);
    AboveRowCopied(s, t, d.Bits(), e, row);
  }

  /** A row of the old heap. */
  method CopyOldRow(h: Heap, d: Heap, e: nat, row: nat)
    requires h.Sized() && d.Sized() && d.nodes != h.nodes && d.minLog == h.minLog && d.sizeLog == h.sizeLog + e
    requires e <= row <= d.sizeLog - d.minLog && RowsCopied(h.Bits(), d.Bits(), e, row)
    modifies d.nodes
    ensures RowsCopied(h.Bits(), d.Bits(), e, row + 1)
  {
    ghost var s, t := h.Bits(), d.Bits();
    var first, from, width := Pow2(row) - 1, Pow2(row - e) - 1, Pow2(row - e);
    Pow2Monotone(row, d.sizeLog - d.minLog + 1);
    Pow2Monotone(row - e, h.sizeLog - h.minLog + 1);
    if e > 0 { Pow2Monotone(row - e, row); }
    CopyNodes(h.nodes, from, d.nodes, first, width);
    BelowRowCopied(s, t, d.Bits(), e, row);
  }

  /** memcpy of some nodes. */
  method CopyNodes(a: array<BlockNode>, from: nat, b: array<BlockNode>, to: nat, width: nat)
    requires a != b && from + width <= a.Length && to + width <= b.Length
    modifies b
    ensures forall m :: 0 <= m < b.Length ==>
      b[m] == if to <= m < to + width then a[from + (m - to)] else old(b[m])
  {
    forall i | 0 <= i < width {
      b[to + i] := a[from + i];
    }
    forall m | 0 <= m < b.Length ensures b[m] == if to <= m < to + width then a[from + (m - to)] else old(b[m]) {
      if to <= m < to + width { assert b[to + (m - to)] == a[from + (m - to)]; }
    }
  }

  /** A multiple of the smallest block that misses a power of two by less than that block is it. */
  lemma {:induction false} ExactBlock(size: nat, minLog: nat)
    requires Aligned(size, minLog)
    requires Pow2(BlockLog(size, minLog)) - size < Pow2(minLog)
    ensures size == Pow2(BlockLog(size, minLog))
  {
    AlignedClose(size, BlockLog(size, minLog), minLog);
  }
}
