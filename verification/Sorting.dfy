/** Insertion sort of the first regions of an array by their start addresses. */
module Sorting {
  import opened MemRegions

  /** less_than_cmp_mem_region. */
  function Compare(p: Region, q: Region): int
  {
    if p.addr < q.addr then -1 else if p.addr == q.addr then 0 else 1
  }

  /** s with a gap at j: sorted around the gap, and everything after the gap starts after e. */
  ghost predicate OrderedAround(s: seq<Region>, j: nat, e: Region)
  {
    && j < |s|
    && (forall p, q :: 0 <= p < q < |s| && p != j && q != j ==> s[p].addr <= s[q].addr)
    && (forall q :: j < q < |s| ==> e.addr < s[q].addr)
  }

  /** The same, and with e in the gap these are the given regions. */
  ghost predicate Gap(s: seq<Region>, j: nat, e: Region, bag: multiset<Region>)
  {
    OrderedAround(s, j, e) && multiset(s[j := e]) == bag
  }

  lemma {:induction false} GapStart(s: seq<Region>, i: nat)
    requires |s| == i + 1 && Ordered(s[..i])
    ensures Gap(s, i, s[i], multiset(s))
  {
    assert forall p :: 0 <= p < i ==> s[p] == s[..i][p];
    assert s[i := s[i]] == s;
  }

  lemma {:induction false} GapMoves(s: seq<Region>, j: nat, e: Region, bag: multiset<Region>)
    requires Gap(s, j, e, bag) && 0 < j && Compare(s[j - 1], e) > 0
    ensures Gap(s[j := s[j - 1]], j - 1, e, bag)
  {
    GapOrder(s, j, e);
    SwapBags(s, j, e);
  }

  lemma {:induction false} GapOrder(s: seq<Region>, j: nat, e: Region)
    requires OrderedAround(s, j, e) && 0 < j && e.addr < s[j - 1].addr
    ensures OrderedAround(s[j := s[j - 1]], j - 1, e)
  {
  }

  lemma {:induction false} SwapBags(s: seq<Region>, j: nat, e: Region)
    requires 0 < j < |s|
    ensures multiset(s[j := s[j - 1]][j - 1 := e]) == multiset(s[j := e])
  {
    var l, x, r := s[..j - 1], s[j - 1], s[j + 1..];
    assert s[j := x][j - 1 := e] == l + [e, x] + r && s[j := e] == l + [x, e] + r;
    SwapMiddle(l, e, x, r);
  }

  lemma {:induction false} SwapMiddle(l: seq<Region>, e: Region, x: Region, r: seq<Region>)
    ensures multiset(l + [e, x] + r) == multiset(l + [x, e] + r)
  {
    assert multiset([e, x]) == multiset([x, e]);
  }

  lemma {:induction false} GapFilled(s: seq<Region>, j: nat, e: Region, bag: multiset<Region>)
    requires Gap(s, j, e, bag) && (j > 0 ==> Compare(s[j - 1], e) <= 0)
    ensures Ordered(s[j := e]) && multiset(s[j := e]) == bag
  {
    assert forall p :: 0 <= p < j - 1 ==> s[p].addr <= s[j - 1].addr;
  }

  /** The inner loop has got to j with region i in hand; if the two last regions were in order it has not moved. */
  ghost predicate Placing(was: seq<Region>, s: seq<Region>, i: nat, j: nat)
  {
    && j <= i < |was| == |s| && Gap(s[..i + 1], j, was[i], multiset(was[..i + 1])) && s[i + 1..] == was[i + 1..]
    && (i > 0 && Compare(was[i - 1], was[i]) <= 0 ==> j == i && s == was)
  }

  ghost predicate Placed(was: seq<Region>, s: seq<Region>, i: nat)
  {
    && i < |was| == |s| && Ordered(s[..i + 1]) && multiset(s[..i + 1]) == multiset(was[..i + 1])
    && s[i + 1..] == was[i + 1..] && (i > 0 && Compare(was[i - 1], was[i]) <= 0 ==> s == was)
  }

  lemma {:induction false} PlacingStart(s: seq<Region>, i: nat)
    requires i < |s| && Ordered(s[..i])
    ensures Placing(s, s, i, i)
  {
    assert s[..i + 1][..i] == s[..i];
    GapStart(s[..i + 1], i);
  }

  lemma {:induction false} PlacingStep(was: seq<Region>, s: seq<Region>, i: nat, j: nat)
    requires Placing(was, s, i, j) && 0 < j && Compare(s[j - 1], was[i]) > 0
    ensures Placing(was, s[j := s[j - 1]], i, j - 1)
  {
    GapMoves(s[..i + 1], j, was[i], multiset(was[..i + 1]));
    assert s[j := s[j - 1]][..i + 1] == s[..i + 1][j := s[j - 1]];
    assert s[j := s[j - 1]][i + 1..] == s[i + 1..];
  }

  lemma {:induction false} PlacingEnd(was: seq<Region>, s: seq<Region>, i: nat, j: nat)
    requires Placing(was, s, i, j) && (j > 0 ==> Compare(s[j - 1], was[i]) <= 0)
    ensures Placed(was, s[j := was[i]], i)
  {
    GapFilled(s[..i + 1], j, was[i], multiset(was[..i + 1]));
    assert s[j := was[i]][..i + 1] == s[..i + 1][j := was[i]];
    assert s[j := was[i]][i + 1..] == s[i + 1..];
  }

  /** The inner loop: move a[i] to its place among the sorted regions before it. */
  method Place(a: array<Region>, i: nat)
    requires i < a.Length && Ordered(a[..i])
    modifies a
    ensures Placed(old(a[..]), a[..], i)
  {
    var elem := a[i];
    var j := i;
    assert a[..][..i] == a[..i];
    PlacingStart(a[..], i);
    while j > 0 && Compare(a[j - 1], elem) > 0
      invariant Placing(old(a[..]), a[..], i, j)
    {
      PlacingStep(old(a[..]), a[..], i, j);
      a[j] := a[j - 1];
      j := j - 1;
    }
    PlacingEnd(old(a[..]), a[..], i, j);
    a[j] := elem;
  }

  /** insertion_sort_generic, as the memory map calls it. */
  method InsertionSort(a: array<Region>, n: nat)
    requires n <= a.Length
    modifies a
    ensures Ordered(a[..n]) && multiset(a[..n]) == multiset(old(a[..n]))
    ensures a[n..] == old(a[n..]) && (Ordered(old(a[..n])) ==> a[..] == old(a[..]))
  {
    var i := 1;
    ghost var was, sorted := a[..], Ordered(a[..n]);
    while i < n
      invariant 1 <= i && (i <= n || n == 0) && Ordered(if i <= n then a[..i] else [])
      invariant Rearranged(old(a[..]), a[..], n)
      invariant sorted ==> a[..] == was
    {
      ghost var before := a[..];
      if sorted { PairInOrder(was, n, i); }
      Place(a, i);
      assert a[..i + 1] == a[..][..i + 1];
      SplitSame(before, a[..], i + 1, n);
      RearrangedOn(old(a[..]), before, a[..], n);
      i := i + 1;
    }
    assert a[..n] == a[..][..n] && old(a[..n]) == old(a[..])[..n];
    assert a[n..] == a[..][n..] && old(a[n..]) == old(a[..])[n..];
  }

  /** The first n regions are in another order, the rest is as it was. */
  ghost predicate Rearranged(s: seq<Region>, u: seq<Region>, n: nat)
  {
    n <= |s| == |u| && multiset(s[..n]) == multiset(u[..n]) && s[n..] == u[n..]
  }

  lemma {:induction false} RearrangedOn(s: seq<Region>, u: seq<Region>, v: seq<Region>, n: nat)
    requires Rearranged(s, u, n) && Rearranged(u, v, n)
    ensures Rearranged(s, v, n)
  {
  }

  lemma {:induction false} PairInOrder(s: seq<Region>, n: nat, i: nat)
    requires 0 < i < n <= |s| && Ordered(s[..n])
    ensures Compare(s[i - 1], s[i]) <= 0
  {
    assert s[..n][i - 1].addr <= s[..n][i].addr;
  }

  lemma {:induction false} SplitSame(s: seq<Region>, u: seq<Region>, k: nat, n: nat)
    requires k <= n <= |s| == |u| && s[k..] == u[k..] && multiset(s[..k]) == multiset(u[..k])
    ensures Rearranged(s, u, n)
  {
    assert s[..n] == s[..k] + s[k..n] && u[..n] == u[..k] + u[k..n];
    assert s[k..n] == s[k..][..n - k] && u[k..n] == u[k..][..n - k];
    assert s[n..] == s[k..][n - k..] && u[n..] == u[k..][n - k..];
  }
}
