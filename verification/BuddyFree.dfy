/** Facts about the two upward walks that free a block. */
module BuddyFree {
  import opened BuddyBits

  /** NodeOk everywhere but at h. */
  ghost predicate OkBut(s: Bits, h: int)
  {
    forall n :: IsNode(s, n) && n != h ==> NodeOk(s, n)
  }

  /** s' differs from s only at x and above it, and there it holds no live block. */
  ghost predicate FreedPath(s: Bits, s': Bits, x: nat)
  {
    && |s'| == |s| && IsNode(s, x)
    && (forall i :: 0 <= i < |s| && !Under(x, i) ==> s'[i] == s[i])
    && (forall i :: IsNode(s, i) && Under(x, i) ==> !Live(s'[i]) && (s'[i].split ==> s[i].split))
  }

  /** NODE_PARENT; of the root it is -1, where the upward walk ends. */
  function NodeParent(n: int): int { (n - 1) / 2 }

  /** Only the root has no parent: from there the step up leaves the array. */
  lemma {:induction false} RootHasNone(n: nat)
    ensures NodeParent(n) == if n == 0 then -1 else Parent(n)
    ensures 0 <= NodeParent(n) <==> n != 0
  {
  }

  /** Changing node i leaves the condition at every node other than i and its parent alone. */
  lemma {:induction false} OkButUpdate(s: Bits, s': Bits, i: nat)
    requires OkBut(s, i) && IsNode(s, i)
    requires |s'| == |s| && forall j :: 0 <= j < |s| && j != i ==> s'[j] == s[j]
    requires NodeOk(s', i)
    ensures OkBut(s', NodeParent(i))
  {
    forall n | IsNode(s, n) && n != NodeParent(i)
      ensures NodeOk(s', n)
    {
      if n != i {
        assert NodeOk(s, n);
        assert 2 * n + 1 != i && 2 * n + 2 != i;
      }
    }
  }

  /** Every node above a live block is split. */
  lemma {:induction false} AncestorsSplit(s: Bits, x: nat)
    requires Ok(s) && IsNode(s, x) && !Clear(s[x])
    ensures forall i: nat :: Under(x, i) && i != x ==> IsNode(s, i) && s[i].split
  {
    forall i: nat | Under(x, i) && i != x
      ensures IsNode(s, i) && s[i].split
    {
      MarkedAbove(s, x, i);
    }
  }

  lemma {:induction false} FreedLive(s: Bits, s': Bits, x: nat)
    requires Ok(s) && FreedPath(s, s', x) && Live(s[x])
    ensures LiveNodes(s') == LiveNodes(s) - {x}
  {
    AncestorsSplit(s, x);
    assert Under(x, x);
    forall i | IsNode(s, i)
      ensures Live(s'[i]) <==> Live(s[i]) && i != x
    {
    }
  }

  /** Merging has reached the free node top; its parent has not been looked at yet. */
  ghost predicate Merging(s: Bits, cur: Bits, x: nat, top: nat)
  {
    && FreedPath(s, cur, x) && IsNode(s, top) && top > 0 && Under(x, top) && Clear(cur[top])
    && OkBut(cur, Parent(top)) && SplitAbove(s, Parent(top))
    && (forall i :: IsNode(s, i) && Under(top, i) && i != top ==> cur[i] == s[i])
  }

  ghost predicate SplitAbove(s: Bits, n: nat)
  {
    forall i :: IsNode(s, i) && Under(n, i) ==> s[i].split
  }

  lemma {:induction false} MergeStart(s: Bits, cur: Bits, x: nat)
    requires Ok(s) && IsNode(s, x) && x > 0 && Live(s[x])
    requires cur == s[x := CLEAR]
    ensures Merging(s, cur, x, x)
  {
    AncestorsSplit(s, x);
    assert Under(x, Parent(x));
    forall i | IsNode(s, i) && Under(Parent(x), i) ensures s[i].split {
      UnderBounds(Parent(x), i);
    }
    OkButUpdate(s, cur, x);
  }

  /** The other half is in use: the parent stays split and is not full. */
  lemma {:induction false} MergeStop(s: Bits, cur: Bits, cur': Bits, x: nat, top: nat)
    requires Merging(s, cur, x, top)
    requires var n := Parent(top);
             && !(Clear(cur[2 * n + 1]) && Clear(cur[2 * n + 2]))
             && cur' == cur[n := cur[n].(full := cur[2 * n + 1].full && cur[2 * n + 2].full)]
    ensures FreedPath(s, cur', x) && OkBut(cur', NodeParent(Parent(top)))
    ensures Under(x, Parent(top)) && !cur'[Parent(top)].full && Clear(cur'[top])
    ensures SplitAbove(cur', Parent(top))
  {
    UnderStep(x, top);
    forall i | IsNode(s, i) && Under(Parent(top), i) ensures s[i].split && cur[i] == s[i] {
      UnderBounds(Parent(top), i);
    }
    OkButUpdate(cur, cur', Parent(top));
  }

  /** The other half is free too: the parent becomes one free block. */
  lemma {:induction false} MergeStep(s: Bits, cur: Bits, cur': Bits, x: nat, top: nat)
    requires Ok(s) && IsNode(s, x) && Live(s[x])
    requires Merging(s, cur, x, top)
    requires var n := Parent(top);
             Clear(cur[2 * n + 1]) && Clear(cur[2 * n + 2]) && cur' == cur[n := CLEAR]
    ensures FreedPath(s, cur', x) && Under(x, Parent(top)) && OkBut(cur', NodeParent(Parent(top)))
    ensures Parent(top) > 0 ==> Merging(s, cur', x, Parent(top))
  {
    var n := Parent(top);
    UnderStep(x, top);
    OkButUpdate(cur, cur', n);
    if n > 0 {
      UnderStep(x, n);
      forall i | IsNode(s, i) && Under(Parent(n), i) ensures s[i].split {
        UnderBounds(Parent(n), i);
      }
      forall i | IsNode(s, i) && Under(n, i) && i != n ensures cur'[i] == s[i] {
        UnderBounds(n, i);
      }
    }
  }

  /** One more node on the way to the root loses its full mark. */
  lemma {:induction false} UnmarkStep(s: Bits, cur: Bits, cur': Bits, x: nat, n: nat)
    requires IsNode(s, x) && FreedPath(s, cur, x) && IsNode(s, n) && Under(x, n)
    requires cur' == cur[n := cur[n].(full := false)]
    requires OkBut(cur', NodeParent(n)) && (n == 0 || SplitAbove(cur, n))
    ensures FreedPath(s, cur', x)
    ensures n == 0 ==> Ok(cur')
    ensures n > 0 ==> var p := Parent(n);
      Under(x, p) && SplitAbove(cur', p) && OkBut(cur'[p := cur'[p].(full := false)], NodeParent(p))
  {
    if n > 0 {
      var p := Parent(n);
      UnderStep(x, n);
      assert Under(n, n) && Under(n, p);
      forall i | IsNode(s, i) && Under(p, i) ensures cur'[i].split {
        UnderBounds(p, i);
      }
      OkButUpdate(cur', cur'[p := cur'[p].(full := false)], p);
    }
  }
}
