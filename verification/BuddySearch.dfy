/** What the search of the allocator promises, and how the answers of the two halves combine. */
module BuddySearch {
  import opened BuddyBits
  import opened Options

  /** x is the free block of depth d with the lowest address below n. */
  ghost predicate Lowest(s: Bits, n: nat, d: nat, x: nat)
  {
    && IsNode(s, x) && Under(x, n) && Depth(x) == d && Avail(s, n, x)
    && NoneBefore(s, n, d, x)
  }

  /** Below n no block of depth d whose index is less than x is free. */
  ghost predicate NoneBefore(s: Bits, n: nat, d: nat, x: nat)
  {
    forall m :: IsNode(s, m) && Under(m, n) && Depth(m) == d && m < x ==> !Avail(s, n, m)
  }

  ghost predicate NoneFree(s: Bits, n: nat, d: nat)
  {
    NoneBefore(s, n, d, |s|)
  }

  /** x has been made a live block; only nodes from x up to n have changed. */
  ghost predicate Marked(s: Bits, s': Bits, n: nat, x: nat)
  {
    && |s'| == |s| && IsNode(s, x) && Under(x, n) && Live(s'[x])
    && (forall i :: 0 <= i < |s| && !(Under(x, i) && Under(i, n)) ==> s'[i] == s[i])
    && (forall i :: IsNode(s, i) && Under(x, i) && Under(i, n) && i != x ==> s'[i].split)
    && SubOk(s', n)
  }

  /** The trace a search leaves that only looks: the nodes above x are split. */
  ghost predicate Probed(s: Bits, s': Bits, n: nat, x: nat)
  {
    && |s'| == |s| && IsNode(s, x) && Under(x, n)
    && forall i :: 0 <= i < |s| ==>
         s'[i] == if Under(x, i) && Under(i, n) && i != x then s[i].(split := true) else s[i]
  }

  /** The answer r of a search below n that turned s into s'. */
  ghost predicate Answer(s: Bits, s': Bits, n: nat, d: nat, mark: bool, r: Option<nat>)
    requires IsNode(s, n)
  {
    match r
    case None => s' == s && NoneFree(s, n, d) && !Clear(s[n])
    case Some(x) => Lowest(s, n, d, x) && if mark then Marked(s, s', n, x) else Probed(s, s', n, x)
  }

  lemma {:induction false} LeftBeforeRight(n: nat, a: nat, b: nat)
    requires Under(a, 2 * n + 1) && Under(b, 2 * n + 2) && Depth(a) == Depth(b)
    ensures a < b
    decreases a + b
  {
    if a == 2 * n + 1 {
      if b != 2 * n + 2 { UnderDepth(b, 2 * n + 2); }
    } else if b == 2 * n + 2 {
      UnderDepth(a, 2 * n + 1);
    } else {
      LeftBeforeRight(n, Parent(a), Parent(b));
    }
  }

  /** The blocks below n are those of its two halves. */
  lemma {:induction false} NoneOfBoth(s: Bits, n: nat, d: nat)
    requires IsInner(s, n) && Depth(n) < d
    requires NoneFree(s, 2 * n + 1, d) && NoneFree(s, 2 * n + 2, d)
    ensures NoneFree(s, n, d)
  {
    forall m | IsNode(s, m) && Under(m, n) && Depth(m) == d && m < |s|
      ensures !Avail(s, n, m)
    {
      UnderChild(m, n);
      var c := if Under(m, 2 * n + 1) then 2 * n + 1 else 2 * n + 2;
      OpenStep(s, n, c, m);
    }
  }

  lemma {:induction false} LowestOfHalf(s: Bits, n: nat, d: nat, c: nat, x: nat)
    requires IsInner(s, n) && Depth(n) < d && !Live(s[n])
    requires c == 2 * n + 1 || (c == 2 * n + 2 && NoneFree(s, 2 * n + 1, d))
    requires Lowest(s, c, d, x)
    ensures Lowest(s, n, d, x)
  {
    OpenStep(s, n, c, x);
    forall m | IsNode(s, m) && Under(m, n) && Depth(m) == d && m < x
      ensures !Avail(s, n, m)
    {
      UnderChild(m, n);
      if Under(m, 2 * n + 1) {
        OpenStep(s, n, 2 * n + 1, m);
      } else {
        OpenStep(s, n, 2 * n + 2, m);
        if c == 2 * n + 1 { LeftBeforeRight(n, x, m); }
      }
    }
  }

  lemma {:induction false} LowestFrame(s: Bits, s': Bits, n: nat, d: nat, x: nat)
    requires |s| == |s'|
    requires forall i :: IsNode(s, i) && Under(i, n) ==> s[i] == s'[i]
    ensures Lowest(s, n, d, x) <==> Lowest(s', n, d, x)
    ensures NoneFree(s, n, d) <==> NoneFree(s', n, d)
  {
    forall m | IsNode(s, m) && Under(m, n)
      ensures Avail(s, n, m) <==> Avail(s', n, m)
    {
      OpenFrame(s, s', n, m);
    }
  }

  lemma {:induction false} FullMeansNone(s: Bits, n: nat, d: nat)
    requires IsNode(s, n) && SubOk(s, n) && s[n].full
    ensures NoneFree(s, n, d)
  {
    forall m | IsNode(s, m) && Under(m, n) && Depth(m) == d && m < |s|
      ensures !Avail(s, n, m)
    {
      FullHidesAll(s, n, m);
    }
  }

  /** A node outside the subtree of c keeps its relation to x and c. */
  lemma {:induction false} AboveChild(x: nat, n: nat, c: nat, i: nat)
    requires c > 0 && Parent(c) == n && Under(x, c)
    ensures (Under(x, i) && Under(i, n)) <==> i == n || (Under(x, i) && Under(i, c))
    ensures c <= x && Under(x, n)
  {
    UnderBounds(x, c);
    UnderTransitive(x, c, n);
    if Under(x, i) && Under(i, n) && i != n {
      UnderChild(i, n);
      var o := if c == 2 * n + 1 then 2 * n + 2 else 2 * n + 1;
      if Under(i, o) {
        UnderTransitive(x, i, o);
        UnderChild(x, n);
      }
    }
    if Under(i, c) { UnderTransitive(i, c, n); }
  }

  lemma {:induction false} NodeOkFrame(s: Bits, s': Bits, m: nat)
    requires |s| == |s'| && IsNode(s, m) && NodeOk(s, m)
    requires s'[m] == s[m]
    requires IsInner(s, m) ==> s'[2 * m + 1] == s[2 * m + 1] && s'[2 * m + 2] == s[2 * m + 2]
    ensures NodeOk(s', m)
  {
  }

  /** A node below one half is neither n nor below the other half. */
  lemma {:induction false} OtherHalf(i: nat, n: nat, c: nat, o: nat)
    requires (c == 2 * n + 1 && o == 2 * n + 2) || (c == 2 * n + 2 && o == 2 * n + 1)
    requires Under(i, o)
    ensures i != n && !Under(i, c)
  {
    UnderBounds(i, o);
    UnderChild(i, n);
  }

  lemma {:induction false} UntouchedHalf(s: Bits, s3: Bits, n: nat, c: nat, o: nat, m: nat)
    requires |s| == |s3| && IsInner(s, n)
    requires (c == 2 * n + 1 && o == 2 * n + 2) || (c == 2 * n + 2 && o == 2 * n + 1)
    requires IsNode(s, m) && Under(m, o) && NodeOk(s, m)
    requires forall i :: 0 <= i < |s| && i != n && !Under(i, c) ==> s3[i] == s[i]
    ensures NodeOk(s3, m)
  {
    OtherHalf(m, n, c, o);
    OtherHalf(2 * m + 1, n, c, o);
    OtherHalf(2 * m + 2, n, c, o);
    NodeOkFrame(s, s3, m);
  }

  /** One level of the way back up: n was split on the way down, the half c got the block x, and n
      becomes full if both halves now are. */
  lemma {:induction false} MarkedUp(s: Bits, s1: Bits, s2: Bits, s3: Bits, n: nat, c: nat, x: nat)
    requires IsInner(s, n) && SubOk(s, n) && !s[n].full
    requires c == 2 * n + 1 || c == 2 * n + 2
    requires s1 == s[n := s[n].(split := true)]
    requires Marked(s1, s2, c, x)
    requires s3 == s2[n := BlockNode(true, s2[2 * n + 1].full && s2[2 * n + 2].full)]
    ensures Marked(s, s3, n, x)
  {
    AboveChild(x, n, c, n);
    forall i | 0 <= i < |s| && !(Under(x, i) && Under(i, n))
      ensures s3[i] == s[i]
    {
      AboveChild(x, n, c, i);
    }
    forall i | IsNode(s, i) && Under(x, i) && Under(i, n) && i != x
      ensures s3[i].split
    {
      AboveChild(x, n, c, i);
    }
    assert !Clear(s2[c]) by {
      AboveChild(x, n, c, c);
    }
    forall m | IsNode(s, m) && Under(m, n)
      ensures NodeOk(s3, m)
    {
      MarkedUpNode(s, s2, s3, n, c, m);
    }
  }

  lemma {:induction false} MarkedUpNode(s: Bits, s2: Bits, s3: Bits, n: nat, c: nat, m: nat)
    requires |s| == |s2| && IsInner(s, n) && (c == 2 * n + 1 || c == 2 * n + 2)
    requires s3 == s2[n := BlockNode(true, s2[2 * n + 1].full && s2[2 * n + 2].full)]
    requires !Clear(s2[c])
    requires forall i :: 0 <= i < |s| && i != n && !Under(i, c) ==> s2[i] == s[i]
    requires IsNode(s, m) && Under(m, n) && NodeOk(s, m)
    requires Under(m, c) ==> NodeOk(s2, m)
    ensures NodeOk(s3, m)
  {
    if m == n {
    } else if Under(m, c) {
      UnderBounds(m, c);
      NodeOkFrame(s2, s3, m);
    } else {
      UnderChild(m, n);
      UntouchedHalf(s, s3, n, c, if c == 2 * n + 1 then 2 * n + 2 else 2 * n + 1, m);
    }
  }

  lemma {:induction false} ProbedUp(s: Bits, s1: Bits, s2: Bits, n: nat, c: nat, x: nat)
    requires IsInner(s, n) && (c == 2 * n + 1 || c == 2 * n + 2)
    requires s1 == s[n := s[n].(split := true)]
    requires Probed(s1, s2, c, x)
    ensures Probed(s, s2, n, x)
    ensures s2[n] == s[n].(split := true)
  {
    forall i | 0 <= i < |s|
      ensures (Under(x, i) && Under(i, n)) <==> i == n || (Under(x, i) && Under(i, c))
    {
      AboveChild(x, n, c, i);
    }
    if Under(n, c) { UnderBounds(n, c); }
    AboveChild(x, n, c, n);
  }

  /** Splitting n changes nothing below its halves. */
  lemma {:induction false} HalfFrame(s: Bits, s1: Bits, n: nat, c: nat, d: nat, x: nat)
    requires IsInner(s, n) && (c == 2 * n + 1 || c == 2 * n + 2)
    requires s1 == s[n := s[n].(split := true)]
    ensures Lowest(s, c, d, x) <==> Lowest(s1, c, d, x)
    ensures NoneFree(s, c, d) <==> NoneFree(s1, c, d)
  {
    forall i | IsNode(s, i) && Under(i, c)
      ensures s[i] == s1[i]
    {
      UnderBounds(i, c);
    }
    LowestFrame(s, s1, c, d, x);
  }

  lemma {:induction false} HalfAfterSplit(s: Bits, s1: Bits, n: nat, c: nat, d: nat)
    requires IsInner(s, n) && SubOk(s, n) && (c == 2 * n + 1 || c == 2 * n + 2)
    requires s1 == s[n := s[n].(split := true)]
    ensures SubOk(s1, c)
    ensures s[c].full ==> NoneFree(s, c, d)
    ensures NoneFree(s, c, d) <==> NoneFree(s1, c, d)
  {
    SubOkChild(s, n, c);
    HalfFrame(s, s1, n, c, d, 0);
    forall m | IsNode(s, m) && Under(m, c)
      ensures NodeOk(s1, m)
    {
      UnderBounds(m, c);
      NodeOkFrame(s, s1, m);
    }
    if s[c].full { FullMeansNone(s, c, d); }
  }

  /** A search that only looks never completes a full pair. */
  lemma {:induction false} ProbedNotFull(s: Bits, s1: Bits, s2: Bits, n: nat, c: nat, x: nat)
    requires IsInner(s, n) && SubOk(s, n) && (c == 2 * n + 1 || c == 2 * n + 2)
    requires s1 == s[n := s[n].(split := true)]
    requires Probed(s1, s2, c, x) && Avail(s1, c, x)
    ensures !s2[c].full
  {
    HalfAfterSplit(s, s1, n, c, 0);
    if s1[c].full { FullHidesAll(s1, c, x); }
  }

  /** A node of the wanted size is the only candidate below itself. */
  lemma {:induction false} AnswerHere(s: Bits, s': Bits, n: nat, d: nat, mark: bool)
    requires IsNode(s, n) && SubOk(s, n) && Depth(n) == d && !s[n].full
    requires s' == if mark && !s[n].split then s[n := BlockNode(false, true)] else s
    ensures Answer(s, s', n, d, mark, if s[n].split then None else Some(n))
  {
    forall m: nat | IsNode(s, m) && Under(m, n) && Depth(m) == d
      ensures m == n
    {
      if m != n { UnderDepth(m, n); }
    }
    forall i: nat | Under(n, i) && Under(i, n)
      ensures i == n
    {
      UnderBounds(n, i);
      UnderBounds(i, n);
    }
    if !s[n].split && mark {
      forall m | IsNode(s, m) && Under(m, n)
        ensures NodeOk(s', m)
      {
        UnderBounds(m, n);
        assert NodeOk(s, m) && NodeOk(s, n);
      }
    }
  }
}
