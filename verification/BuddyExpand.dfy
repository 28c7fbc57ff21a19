/** A copy of the metadata of a heap for a heap 2^e times as large that starts at the same address. */
module BuddyExpand {
  import opened Powers
  import opened BuddyBits
  import opened BuddyRange
  import opened BuddyTheorems

  /** The node in the larger heap of the block of node n. */
  function Forward(n: nat, e: nat): nat
  {
    if e > 0 then Pow2Monotone(Depth(n), Depth(n) + e); n + Pow2(Depth(n) + e) - Pow2(Depth(n)) else n
  }

  ghost function ForwardAll(s: set<nat>, e: nat): set<nat>
  {
    set n | n in s :: Forward(n, e)
  }

  /** The copied bits, row by row: above the old root the leftmost node is split, below it the rows of
      the old heap stand at the left. */
  function Expanded(s: Bits, e: nat, m: nat): BlockNode
  {
    var d := Depth(m);
    if d < e then
      if Row(m) == 0 then BlockNode(true, false) else CLEAR
    else if 0 <= Row(m) < Pow2(d - e) && Pow2(d - e) - 1 + Row(m) < |s| then
      s[Pow2(d - e) - 1 + Row(m)]
    else CLEAR
  }

  /** t is the copy of s, which has rows 0 to d. */
  ghost predicate IsExpansion(s: Bits, t: Bits, d: nat, e: nat)
  {
    |s| == Pow2(d + 1) && |t| == Pow2(d + e + 1) && forall m :: CopiedAt(s, t, e, m)
  }

  ghost predicate CopiedAt(s: Bits, t: Bits, e: nat, m: nat)
  {
    IsNode(t, m) ==> t[m] == Expanded(s, e, m)
  }

  /** The node of the old heap that node m of row e or below is copied from. */
  function Back(m: nat, e: nat): int
    requires e <= Depth(m)
  {
    Pow2(Depth(m) - e) - 1 + Row(m)
  }

  lemma {:induction false} BackNode(s: Bits, d: nat, e: nat, m: nat)
    requires |s| == Pow2(d + 1) && e <= Depth(m) <= d + e && 0 <= Row(m) < Pow2(Depth(m) - e)
    ensures Back(m, e) >= 0 && IsNode(s, Back(m, e)) && Depth(Back(m, e)) == Depth(m) - e
    ensures Forward(Back(m, e), e) == m
  {
    DepthOfRow(Back(m, e), Depth(m) - e);
    DepthBound(Back(m, e), d);
  }

  lemma {:induction false} ForwardRow(n: nat, e: nat)
    ensures Depth(Forward(n, e)) == Depth(n) + e && Row(Forward(n, e)) == Row(n)
  {
    RowBounds(n);
    if e > 0 {
      Pow2Monotone(Depth(n), Depth(n) + e);
    }
    DepthOfRow(Forward(n, e), Depth(n) + e);
  }

  /** Copying keeps the address and the size of every block. */
  lemma {:induction false} ForwardRange(h: nat, n: nat, e: nat)
    requires Depth(n) <= h
    ensures Depth(Forward(n, e)) <= h + e
    ensures Start(h + e, Forward(n, e)) == Start(h, n) && Size(h + e, Forward(n, e)) == Size(h, n)
  {
    ForwardRow(n, e);
    StartClosed(h, n);
    StartClosed(h + e, Forward(n, e));
  }

  lemma {:induction false} ExpandedForward(s: Bits, e: nat, n: nat)
    requires IsNode(s, n)
    ensures Expanded(s, e, Forward(n, e)) == s[n]
  {
    ForwardRow(n, e);
    RowBounds(n);
  }

  lemma {:induction false} ExpandedLive(s: Bits, d: nat, e: nat, m: nat) returns (n: nat)
    requires |s| == Pow2(d + 1) && Depth(m) <= d + e && Live(Expanded(s, e, m))
    ensures IsNode(s, n) && m == Forward(n, e) && Live(s[n])
  {
    BackNode(s, d, e, m);
    n := Back(m, e);
  }

  /** The live blocks of the copy are those of the original. */
  lemma {:induction false} ExpandedBlocks(s: Bits, t: Bits, d: nat, e: nat)
    requires IsExpansion(s, t, d, e)
    ensures LiveNodes(t) == ForwardAll(LiveNodes(s), e)
  {
    forall m | m in LiveNodes(t) ensures exists n :: n in LiveNodes(s) && m == Forward(n, e) {
      DepthBound(m, d + e);
      assert CopiedAt(s, t, e, m);
      var n := ExpandedLive(s, d, e, m);
      assert n in LiveNodes(s);
    }
    forall n | n in LiveNodes(s) ensures Forward(n, e) in LiveNodes(t) {
      ForwardRow(n, e);
      DepthBound(n, d);
      DepthBound(Forward(n, e), d + e);
      assert CopiedAt(s, t, e, Forward(n, e));
      ExpandedForward(s, e, n);
    }
  }

  /** There is a live block of 2^k bytes at the offset, in a heap of 2^h bytes. */
  ghost predicate LiveAt(s: Bits, h: nat, off: nat, k: nat)
  {
    exists n :: n in LiveNodes(s) && Depth(n) <= h && Start(h, n) == off && Size(h, n) == Pow2(k)
  }

  /** In bytes: the copy has a block at an offset exactly if the original has it. */
  lemma {:induction false} ExpandedRanges(s: Bits, t: Bits, d: nat, e: nat, h: nat, off: nat, k: nat)
    requires IsExpansion(s, t, d, e) && d <= h
    ensures LiveAt(t, h + e, off, k) <==> LiveAt(s, h, off, k)
  {
    ExpandedBlocks(s, t, d, e);
    if LiveAt(s, h, off, k) {
      var n :| n in LiveNodes(s) && Depth(n) <= h && Start(h, n) == off && Size(h, n) == Pow2(k);
      ForwardRange(h, n, e);
      assert Forward(n, e) in LiveNodes(t);
    }
    if LiveAt(t, h + e, off, k) {
      var m :| m in LiveNodes(t) && Depth(m) <= h + e && Start(h + e, m) == off && Size(h + e, m) == Pow2(k);
      var n :| n in LiveNodes(s) && m == Forward(n, e);
      ForwardRow(n, e);
      ForwardRange(h, n, e);
    }
  }

  /** The two children of a node of the copy. */
  lemma {:induction false} ExpandedChildren(s: Bits, t: Bits, d: nat, e: nat, m: nat)
    requires IsExpansion(s, t, d, e) && IsInner(t, m)
    ensures Depth(m) < d + e && Depth(2 * m + 1) == Depth(2 * m + 2) == Depth(m) + 1
    ensures Row(2 * m + 1) == 2 * Row(m) && Row(2 * m + 2) == 2 * Row(m) + 1 && 0 <= Row(m)
  {
    RowOfChild(2 * m + 1, m, 0);
    RowOfChild(2 * m + 2, m, 1);
    RowBounds(m);
    DepthBound(2 * m + 2, d + e);
  }

  lemma {:induction false} InRowIff(m: nat, row: nat)
    ensures Depth(m) == row <==> Pow2(row) - 1 <= m < 2 * Pow2(row) - 1
    ensures Depth(m) == row ==> Row(m) == m - (Pow2(row) - 1)
  {
    RowBounds(m);
    if Pow2(row) - 1 <= m < 2 * Pow2(row) - 1 { DepthOfRow(m, row); }
  }

  /** One row of the copy, by index. */
  lemma {:induction false} ExpandedRow(s: Bits, e: nat, m: nat, row: nat)
    requires e <= row ==> 2 * Pow2(row - e) <= |s|
    ensures Depth(m) == row <==> Pow2(row) - 1 <= m < 2 * Pow2(row) - 1
    ensures Depth(m) == row && row < e ==>
      Expanded(s, e, m) == if m == Pow2(row) - 1 then BlockNode(true, false) else CLEAR
    ensures Depth(m) == row && e <= row ==>
      var i := m - (Pow2(row) - 1);
      Expanded(s, e, m) == if i < Pow2(row - e) then s[Pow2(row - e) - 1 + i] else CLEAR
  {
    InRowIff(m, row);
  }

  /** What a node at or below the row of the old root is a copy of. */
  lemma {:induction false} ExpandedAt(s: Bits, t: Bits, d: nat, e: nat, m: nat)
    requires IsExpansion(s, t, d, e) && IsNode(t, m) && e <= Depth(m)
    ensures Row(m) < Pow2(Depth(m) - e) ==> Back(m, e) >= 0 && IsNode(s, Back(m, e)) && t[m] == s[Back(m, e)]
    ensures Row(m) < Pow2(Depth(m) - e) ==> Depth(Back(m, e)) == Depth(m) - e
    ensures Row(m) >= Pow2(Depth(m) - e) ==> t[m] == CLEAR
  {
    RowBounds(m);
    DepthBound(m, d + e);
    assert CopiedAt(s, t, e, m);
    if Row(m) < Pow2(Depth(m) - e) {
      BackNode(s, d, e, m);
    }
  }

  lemma {:induction false} BackOfChild(m: nat, c: nat, r: nat, e: nat)
    requires c == 2 * m + 1 + r && r <= 1 && e <= Depth(m)
    ensures Depth(c) == Depth(m) + 1 && Back(c, e) == 2 * Back(m, e) + 1 + r
    ensures 0 <= Row(m) && (Row(c) < Pow2(Depth(c) - e) <==> Row(m) < Pow2(Depth(m) - e))
  {
    RowOfChild(c, m, r);
    RowBounds(m);
    Pow2Step(Depth(m) - e);
  }

  /** Node m of the copy is a copy of node b. */
  ghost predicate IsCopy(m: nat, e: nat, b: int)
  {
    e <= Depth(m) && Row(m) < Pow2(Depth(m) - e) && b == Back(m, e)
  }

  lemma {:induction false} CopiedNode(s: Bits, t: Bits, d: nat, e: nat, m: nat, b: int)
    requires IsExpansion(s, t, d, e) && IsNode(t, m) && IsCopy(m, e, b)
    ensures 0 <= b && IsNode(s, b) && t[m] == s[b]
  {
    ExpandedAt(s, t, d, e, m);
  }

  lemma {:induction false} CopyOfChild(m: nat, e: nat, b: int, c: nat, r: nat)
    requires IsCopy(m, e, b) && c == 2 * m + 1 + r && r <= 1
    ensures IsCopy(c, e, 2 * b + 1 + r)
  {
    BackOfChild(m, c, r, e);
  }

  /** Within the copied part, a node and its children are copies of a node and its children. */
  lemma {:induction false} CopiedChildren(s: Bits, t: Bits, d: nat, e: nat, m: nat, b: int)
    requires IsExpansion(s, t, d, e) && IsInner(t, m) && IsCopy(m, e, b)
    ensures b >= 0 && IsInner(s, b) && t[m] == s[b] && t[2 * m + 1] == s[2 * b + 1] && t[2 * m + 2] == s[2 * b + 2]
  {
    CopyOfChild(m, e, b, 2 * m + 1, 0);
    CopyOfChild(m, e, b, 2 * m + 2, 1);
    CopiedNode(s, t, d, e, m, b);
    CopiedNode(s, t, d, e, 2 * m + 1, 2 * b + 1);
    CopiedNode(s, t, d, e, 2 * m + 2, 2 * b + 2);
  }

  /** Node m of the copy, at or below the row of the old root, is beside the copied part. */
  ghost predicate IsBeside(m: nat, e: nat)
  {
    e <= Depth(m) && Row(m) >= Pow2(Depth(m) - e)
  }

  lemma {:induction false} ClearNode(s: Bits, t: Bits, d: nat, e: nat, m: nat)
    requires IsExpansion(s, t, d, e) && IsNode(t, m) && IsBeside(m, e)
    ensures t[m] == CLEAR
  {
    ExpandedAt(s, t, d, e, m);
  }

  lemma {:induction false} BesideChild(m: nat, e: nat, c: nat, r: nat)
    requires IsBeside(m, e) && c == 2 * m + 1 + r && r <= 1
    ensures IsBeside(c, e)
  {
    BackOfChild(m, c, r, e);
  }

  /** Beside the copied part, a node and its children are clear. */
  lemma {:induction false} ClearChildren(s: Bits, t: Bits, d: nat, e: nat, m: nat)
    requires IsExpansion(s, t, d, e) && IsInner(t, m) && IsBeside(m, e)
    ensures t[m] == t[2 * m + 1] == t[2 * m + 2] == CLEAR
  {
    BesideChild(m, e, 2 * m + 1, 0);
    BesideChild(m, e, 2 * m + 2, 1);
    ClearNode(s, t, d, e, m);
    ClearNode(s, t, d, e, 2 * m + 1);
    ClearNode(s, t, d, e, 2 * m + 2);
  }

  lemma {:induction false} ExpandedBelow(s: Bits, t: Bits, d: nat, e: nat, m: nat)
    requires IsExpansion(s, t, d, e) && IsNode(t, m) && e <= Depth(m) && Ok(s)
    ensures NodeOk(t, m)
  {
    if !IsInner(t, m) {
      ExpandedLeaf(s, t, d, e, m);
    } else if IsBeside(m, e) {
      ClearChildren(s, t, d, e, m);
    } else {
      ExpandedInner(s, t, d, e, m, Back(m, e));
    }
  }

  lemma {:induction false} ExpandedInner(s: Bits, t: Bits, d: nat, e: nat, m: nat, b: int)
    requires IsExpansion(s, t, d, e) && IsInner(t, m) && IsCopy(m, e, b) && Ok(s)
    ensures NodeOk(t, m)
  {
    CopiedChildren(s, t, d, e, m, b);
    assert NodeOk(s, b);
  }

  lemma {:induction false} ExpandedLeaf(s: Bits, t: Bits, d: nat, e: nat, m: nat)
    requires IsExpansion(s, t, d, e) && IsNode(t, m) && e <= Depth(m) && Ok(s) && !IsInner(t, m)
    ensures !t[m].split
  {
    ExpandedAt(s, t, d, e, m);
    LeafRow(t, d + e, m);
    if Row(m) < Pow2(Depth(m) - e) {
      LeafRow(s, d, Back(m, e));
      assert NodeOk(s, Back(m, e));
    }
  }

  /** The nodes without children are those of the last row. */
  lemma {:induction false} LeafRow(s: Bits, d: nat, n: nat)
    requires |s| == Pow2(d + 1) && IsNode(s, n)
    ensures IsInner(s, n) <==> Depth(n) < d
  {
    DepthBound(n, d);
    if d > 0 { DepthBound(n, d - 1); }
  }

  lemma {:induction false} ExpandedAbove(s: Bits, t: Bits, d: nat, e: nat, m: nat)
    requires IsExpansion(s, t, d, e) && IsNode(t, m) && Depth(m) < e
    ensures NodeLoose(t, m)
    ensures NodeTight(t, m) <==> !(Row(m) == 0 && Depth(m) + 1 == e && Clear(s[0]))
  {
    LeafRow(t, d + e, m);
    AboveChildren(s, t, d, e, m);
  }

  lemma {:induction false} AboveChildren(s: Bits, t: Bits, d: nat, e: nat, m: nat)
    requires IsExpansion(s, t, d, e) && IsInner(t, m) && Depth(m) < e
    ensures t[m] == if Row(m) == 0 then BlockNode(true, false) else CLEAR
    ensures t[2 * m + 2] == CLEAR
    ensures t[2 * m + 1] == if Row(m) != 0 then CLEAR else if Depth(m) + 1 < e then BlockNode(true, false) else s[0]
  {
    ExpandedChildren(s, t, d, e, m);
    assert CopiedAt(s, t, e, m) && CopiedAt(s, t, e, 2 * m + 1) && CopiedAt(s, t, e, 2 * m + 2);
    assert Pow2(0) == 1;
  }

  /** The parent of the old root, when the old heap was empty. */
  lemma {:induction false} LastAbove(s: Bits, t: Bits, d: nat, e: nat)
    requires IsExpansion(s, t, d, e) && e > 0 && Clear(s[0])
    ensures !Ok(t)
  {
    var m := Pow2(e - 1) - 1;
    InRowIff(m, e - 1);
    DepthBound(m, d + e);
    ExpandedAbove(s, t, d, e, m);
    assert !NodeOk(t, m);
  }

  /** The copy is in order exactly when nothing was added or something was allocated: a larger copy of
      an empty heap has split nodes with two free halves. */
  lemma {:induction false} ExpandedOk(s: Bits, t: Bits, d: nat, e: nat)
    requires IsExpansion(s, t, d, e) && Ok(s)
    ensures Ok(t) <==> e == 0 || LiveNodes(s) != {}
  {
    forall m | IsNode(t, m) ensures NodeOk(t, m) || (Depth(m) < e && Clear(s[0])) {
      if e <= Depth(m) { ExpandedBelow(s, t, d, e, m); } else { ExpandedAbove(s, t, d, e, m); }
    }
    if LiveNodes(s) == {} {
      EmptyMeansClear(s, 0);
      if e > 0 {
        LastAbove(s, t, d, e);
      }
    } else {
      var l :| l in LiveNodes(s);
      UnderRoot(l);
      SplitIff(s, 0);
    }
  }

  // ---------------------------------------------------------------- copying row by row

  ghost predicate RowsCopied(s: Bits, t: Bits, e: nat, row: nat)
  {
    forall m :: IsNode(t, m) ==> t[m] == if Depth(m) < row then Expanded(s, e, m) else CLEAR
  }

  lemma {:induction false} AboveRowCopied(s: Bits, t: Bits, t': Bits, e: nat, row: nat)
    requires RowsCopied(s, t, e, row) && row < e && Pow2(row) <= |t|
    requires t' == t[Pow2(row) - 1 := t[Pow2(row) - 1].(split := true)]
    ensures RowsCopied(s, t', e, row + 1)
  {
    forall m | IsNode(t', m) ensures t'[m] == if Depth(m) < row + 1 then Expanded(s, e, m) else CLEAR {
      ExpandedRow(s, e, m, row);
      assert IsNode(t, m);
    }
  }

  lemma {:induction false} BelowRowCopied(s: Bits, t: Bits, t': Bits, e: nat, row: nat)
    requires RowsCopied(s, t, e, row) && e <= row && 2 * Pow2(row - e) <= |s| && |t| == |t'|
    requires var first, width := Pow2(row) - 1, Pow2(row - e);
      && width <= Pow2(row)
      && forall m :: 0 <= m < |t| ==> t'[m] == if first <= m < first + width then s[width - 1 + (m - first)] else t[m]
    ensures RowsCopied(s, t', e, row + 1)
  {
    forall m | IsNode(t', m) ensures t'[m] == if Depth(m) < row + 1 then Expanded(s, e, m) else CLEAR {
      ExpandedRow(s, e, m, row);
      assert IsNode(t, m);
    }
  }
}
