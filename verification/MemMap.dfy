/** The system memory map: an array of regions that is rounded, sorted, merged and freed of overlaps in place. */
module MemMap {
  import opened MemRegions
  import opened Sorting

  const MAX_MEM_REGIONS := 512
  const U64 := 0x1_0000_0000_0000_0000

  /** Two regions as handle_region_overlap looks at them: the one that starts first, then the other. */
  function Pair(p: Region, r: Region): (Region, Region)
  {
    if r.addr < p.addr then (r, p) else (p, r)
  }

  predicate Overlap(p: Region, r: Region)
  {
    StartsIn(Pair(p, r).0, Pair(p, r).1)
  }

  /** Nothing lies between the two, and they differ in nothing else. */
  predicate Mergeable(p: Region, r: Region)
  {
    r.typ == p.typ && r.extra == p.extra && r.addr == p.End()
  }

  /** How the fixing ends: with no overlap left, with a panic because the array is full, or not at all. */
  datatype Outcome = Settled | Full | Endless

  class Map {
    const regions: array<Region>
    var count: nat

    constructor ()
      ensures Valid() && Regions() == []
    {
      regions := new Region[MAX_MEM_REGIONS](_ => Region(0, 0, 0, 0));
      count := 0;
    }

    ghost predicate Valid()
      reads this
    {
      regions.Length == MAX_MEM_REGIONS && count <= MAX_MEM_REGIONS
    }

    ghost function Regions(): (rs: seq<Region>)
      reads this, regions
      requires Valid()
    {
      regions[..count]
    }

    /** append_mem_region; false stands for the panic. */
    method Append(r: Region) returns (ok: bool)
      requires Valid()
      modifies regions, this`count
      ensures Valid() && (ok <==> old(count) < MAX_MEM_REGIONS)
      ensures Regions() == if ok then old(Regions()) + [r] else old(Regions())
    {
      if count >= regions.Length {
        return false;
      }
      regions[count] := r;
      count := count + 1;
      ok := true;
    }

    method Set(i: nat, r: Region)
      requires Valid() && i < count
      modifies regions
      ensures Valid() && Regions() == old(Regions())[i := r]
    {
      regions[i] := r;
    }

    /** remove_mem_region: the regions behind move down. */
    method RemoveAt(i: nat)
      requires Valid() && i < count
      modifies regions, this`count
      ensures Valid() && Regions() == old(Regions()[..i] + Regions()[i + 1..])
    {
      var k := i;
      while k + 1 < count
        invariant i <= k < count && count == old(count)
        invariant forall m :: 0 <= m < i ==> regions[m] == old(regions[m])
        invariant forall m :: i <= m < k ==> regions[m] == old(regions[m + 1])
        invariant forall m :: k < m < count ==> regions[m] == old(regions[m])
      {
        regions[k] := regions[k + 1];
        k := k + 1;
      }
      count := count - 1;
    }

    /** remove_mem_region_by_swap_with_last. */
    method RemoveBySwap(i: nat)
      requires Valid() && i < count
      modifies regions, this`count
      ensures Valid() && Regions() == Dropped(old(Regions()), i)
    {
      regions[i], regions[count - 1] := regions[count - 1], regions[i];
      count := count - 1;
    }

    /** The part of handle_region_overlap for a region j that starts inside region i. */
    method Resolve(i: nat, j: nat) returns (ok: bool)
      requires Valid() && i < count && j < count && i != j && StartsIn(regions[i], regions[j])
      modifies regions, this`count
      ensures Valid() && (ok <==> old(count < MAX_MEM_REGIONS || !Splits(regions[i], regions[j])))
      ensures if ok then Regions() == Exchange(old(Regions()), i, j) else count == MAX_MEM_REGIONS
    {
      var p, r := regions[i], regions[j];
      ok := true;
      if r.End() <= p.End() {
        if p.typ >= r.typ {
          RemoveBySwap(j);
        } else if p.addr == r.addr && p.End() == r.End() {
          RemoveBySwap(i);
        } else if p.addr == r.addr {
          Set(i, p.(addr := r.End(), len := p.End() - r.End()));
        } else if p.End() == r.End() {
          Set(i, p.(len := r.addr - p.addr));
        } else {
          Set(i, p.(len := r.addr - p.addr));
          ok := Append(p.(addr := r.End(), len := p.End() - r.End()));
        }
      } else if p.typ >= r.typ {
        Set(j, r.(addr := p.End(), len := r.End() - p.End()));
      } else if p.addr == r.addr {
        RemoveBySwap(i);
      } else {
        Set(i, p.(len := r.addr - p.addr));
      }
    }

    /** handle_region_overlap. */
    method HandleOverlap(i: nat, j: nat) returns (overlap: bool, ok: bool)
      requires Valid() && i < count && j < count
      modifies regions, this`count
      ensures Valid() && (overlap <==> i != j && old(Overlap(regions[i], regions[j])))
      ensures !overlap ==> ok && Regions() == old(Regions())
      ensures !ok <==> overlap && old(count == MAX_MEM_REGIONS
        && if regions[j].addr < regions[i].addr then Splits(regions[j], regions[i]) else Splits(regions[i], regions[j]))
      ensures !ok ==> count == MAX_MEM_REGIONS
      ensures overlap && ok && old(regions[j].addr < regions[i].addr) ==> Regions() == Exchange(old(Regions()), j, i)
      ensures overlap && ok && old(regions[i].addr <= regions[j].addr) ==> Regions() == Exchange(old(Regions()), i, j)
      decreases if regions[j].addr < regions[i].addr then 1 else 0
    {
      if i == j {
        return false, true;
      }
      if regions[j].addr < regions[i].addr {
        overlap, ok := HandleOverlap(j, i);
        return;
      }
      if regions[j].addr >= regions[i].End() {
        return false, true;
      }
      overlap := true;
      ok := Resolve(i, j);
    }

    /** align_mem_regions_to_page_boundary, with the 64-bit sums. */
    method RoundRegions()
      requires Valid() && NoWrap(Regions())
      modifies regions
      ensures Valid() && Regions() == RoundedAll(old(Regions()))
    {
      var i := 0;
      while i < count
        invariant i <= count
        invariant forall k :: 0 <= k < i ==> regions[k] == Rounded(old(regions[k]))
        invariant forall k :: i <= k < count ==> regions[k] == old(regions[k])
      {
        assert regions[i] in old(Regions());
        regions[i] := RoundedWord(regions[i]);
        i := i + 1;
      }
    }

    /** sort_mem_regions. */
    method SortRegions()
      requires Valid()
      modifies regions
      ensures Valid() && Ordered(Regions()) && multiset(Regions()) == multiset(old(Regions()))
      ensures Kept(old(Regions()), Regions())
      ensures Total(Regions()) == Total(old(Regions())) && EmptiesFrom(old(Regions()), Regions())
      ensures Ordered(old(Regions())) ==> Regions() == old(Regions())
    {
      ghost var s := Regions();
      InsertionSort(regions, count);
      KeptPerm(s, Regions());
      TotalPerm(s, Regions());
      assert forall r :: r in Regions() ==> r in multiset(s);
    }

    /** merge_adj_mem_regions. */
    method MergeAdjacent()
      requires Valid() && Ordered(Regions())
      modifies regions, this`count
      ensures Valid() && Merging(old(Regions()), Regions(), count) && NoneTouch(Regions())
    {
      var i := 0;
      MergingStart(Regions());
      while i < count - 1
        invariant Valid() && 0 <= i && (i < count || i == count == 0) && Merging(old(Regions()), Regions(), i)
        decreases count - i
      {
        if !Mergeable(regions[i], regions[i + 1]) {
          MergingNext(old(Regions()), Regions(), i);
          i := i + 1;
        } else {
          MergingStep(old(Regions()), Regions(), i);
          MergeStep(i);
        }
      }
    }

    /** Join region i with the next one. */
    method MergeStep(i: nat)
      requires Valid() && i + 1 < count
      modifies regions, this`count
      ensures Valid() && count == old(count) - 1 && Regions() == Merged(old(Regions()), i)
    {
      Set(i, regions[i].(len := regions[i].len + regions[i + 1].len));
      RemoveAt(i + 1);
    }

    /** The inner loop of handle_overlapping_regions. */
    method OverlapPass() returns (any: bool, ok: bool)
      requires Valid() && Ordered(Regions())
      modifies regions, this`count
      ensures Valid() && (!ok ==> count == MAX_MEM_REGIONS && !old(Smooth(Regions(), count)))
      ensures !ok ==> Overfills(old(Regions()))
      ensures ok ==> Passing(old(Regions()), Regions(), count, any)
    {
      any, ok := false, true;
      var i := 0;
      PassingStart(Regions());
      while i < count - 1
        invariant Valid() && 0 <= i && (i < count || i == count == 0 || any) && ok
        invariant Passing(old(Regions()), Regions(), i, any)
        decreases MAX_MEM_REGIONS - i
      {
        ghost var s := Regions();
        var overlap;
        overlap, ok := HandleOverlap(i, i + 1);
        if !ok {
          PassingRough(old(Regions()), s, i, any);
          IsOverfull(old(Regions()), s, i);
          return;
        }
        if overlap {
          PassingYes(old(Regions()), s, Regions(), i, any);
          any := true;
        } else {
          PassingNo(old(Regions()), s, i, any);
        }
        i := i + 1;
      }
      PassingEnd(old(Regions()), Regions(), i, any);
    }

    /** One turn of the outer loop: a pass, then the sort. */
    method Turn() returns (any: bool, ok: bool)
      requires Valid() && Ordered(Regions())
      modifies regions, this`count
      ensures Valid() && (!ok ==> count == MAX_MEM_REGIONS && !old(Jammed(Regions()) || Apart(Regions())))
      ensures !ok ==> Overfills(old(Regions()))
      ensures ok ==> Turned(old(Regions()), Regions(), any)
    {
      ghost var s := Regions();
      any, ok := OverlapPass();
      if !ok {
        SmoothLists(s);
        return;
      }
      ghost var u := Regions();
      SortRegions();
      TurnDone(s, u, Regions(), any);
    }

    /** handle_overlapping_regions: turns until nothing overlaps.  The total weight gets smaller, or a turn has found
        an overlap and changed nothing, and then all turns to come are like it. */
    method HandleOverlaps() returns (end: Outcome)
      requires Valid() && Ordered(Regions())
      modifies regions, this`count
      ensures Valid() && (end.Full? ==> count == MAX_MEM_REGIONS && Overfills(old(Regions())))
      ensures !end.Full? ==> Resolving(old(Regions()), Regions())
      ensures end.Settled? ==> Apart(Regions())
      ensures end.Endless? ==> Jammed(Regions())
      ensures NonEmpty(old(Regions())) ==> !end.Endless?
      ensures old(Jammed(Regions())) ==> end.Endless? && Regions() == old(Regions())
      ensures old(Apart(Regions())) ==> end.Settled? && Regions() == old(Regions())
    {
      var any := true;
      ResolvingStart(Regions());
      while any
        invariant Valid() && Resolving(old(Regions()), Regions()) && (!any ==> Apart(Regions()))
        invariant old(Jammed(Regions())) ==> any && Regions() == old(Regions())
        invariant old(Apart(Regions())) ==> Regions() == old(Regions())
        decreases Total(Regions()), any
      {
        var before := regions[..count];
        var ok;
        any, ok := Turn();
        if !ok {
          OverfillsTrans(old(Regions()), before);
          return Full;
        }
        ResolvingTurn(old(Regions()), before, Regions(), any);
        if any && regions[..count] == before {
          JammedEmpty(before);
          return Endless;
        }
      }
      end := Settled;
    }

    /** fix_mem_regions. */
    method FixRegions() returns (end: Outcome)
      requires Valid() && NoWrap(Regions())
      modifies regions, this`count
      ensures Valid() && (end.Full? ==> count == MAX_MEM_REGIONS && Overfills(RoundedAll(old(Regions()))))
      ensures !end.Full? ==> Kept(RoundedAll(old(Regions())), Regions())
      ensures end.Settled? ==> Apart(Regions()) && (NonEmpty(RoundedAll(old(Regions()))) ==> NonEmpty(Regions()))
      ensures end.Endless? ==>
        && Jammed(Regions())
        && exists p, r :: p in old(Regions()) && r in old(Regions()) && EmptyWithin(p, r)
      ensures Jammed(RoundedAll(old(Regions()))) && NoneMergeable(RoundedAll(old(Regions()))) ==> end.Endless?
      ensures NoneOverlap(RoundedAll(old(Regions()))) ==> end.Settled? && NoneTouch(Regions())
    {
      ghost var s := Regions();
      RoundRegions();
      ghost var s0 := Regions();
      SortRegions();
      ghost var s1 := Regions();
      if NoneOverlap(s0) { SortedApart(s0, s1); }
      MergeAdjacent();
      ghost var s2 := Regions();
      KeptTrans(s0, s1, s2);
      end := HandleOverlaps();
      if end.Full? {
        OverfillsTrans(s0, s2);
      } else {
        KeptTrans(s0, s2, Regions());
      }
      if end.Endless? { JamFrom(s, Regions()); }
    }
  }

  // ---------------------------------------------------------------- the list after one step

  /** The last region takes the place of region i. */
  function Dropped(s: seq<Region>, i: nat): seq<Region>
    requires i < |s|
  {
    s[i := s[|s| - 1]][..|s| - 1]
  }

  /** Where the pieces of two overlapping regions end up. */
  function Exchange(s: seq<Region>, i: nat, j: nat): seq<Region>
    requires i < |s| && j < |s| && i != j && StartsIn(s[i], s[j])
  {
    var p, r := s[i], s[j];
    if p.typ >= r.typ then
      if r.End() <= p.End() then Dropped(s, j) else s[j := r.(addr := p.End(), len := r.End() - p.End())]
    else if p.addr < r.addr then
      s[i := p.(len := r.addr - p.addr)]
      + (if r.End() < p.End() then [p.(addr := r.End(), len := p.End() - r.End())] else [])
    else if r.End() < p.End() then s[i := p.(addr := r.End(), len := p.End() - r.End())]
    else Dropped(s, i)
  }

  lemma {:induction false} TotalDropped(s: seq<Region>, i: nat)
    requires i < |s|
    ensures Total(Dropped(s, i)) + s[i].Weight() == Total(s)
  {
    var last := s[|s| - 1];
    TotalSet(s, i, last);
    assert s[i := last] == Dropped(s, i) + [last];
    TotalLast(Dropped(s, i), last);
  }

  /** Every region but one is still there. */
  lemma {:induction false} InDropped(s: seq<Region>, i: nat, k: nat)
    requires i < |s| && k < |s| && k != i
    ensures s[k] in Dropped(s, i)
  {
    assert s[k] == Dropped(s, i)[if k == |s| - 1 then i else k];
  }

  lemma {:induction false} ExchangeDrop(s: seq<Region>, i: nat, j: nat)
    requires i < |s| && j < |s| && i != j
    ensures Exchanged(s, Dropped(s, j), [s[i], s[j]], [s[i]])
  {
    TotalDropped(s, j);
    TotalPair(s[i], s[j]);
    InDropped(s, j, i);
    forall x | x in s && x != s[j] ensures x in Dropped(s, j) {
      var k :| 0 <= k < |s| && s[k] == x;
      InDropped(s, j, k);
    }
  }

  lemma {:induction false} ExchangeSet(s: seq<Region>, i: nat, j: nat, x: Region)
    requires i < |s| && j < |s| && i != j
    ensures Exchanged(s, s[j := x], [s[i], s[j]], [s[i], x])
  {
    var u := s[j := x];
    TotalSet(s, j, x);
    TotalPair(s[i], s[j]);
    TotalPair(s[i], x);
    assert u[i] == s[i] && u[j] == x;
    forall y | y in s && y != s[j] ensures y in u {
      var k :| 0 <= k < |s| && s[k] == y;
      assert u[k] == y;
    }
  }

  /** The order within the pair and within the pieces does not matter. */
  lemma {:induction false} ExchangedTurned(s: seq<Region>, u: seq<Region>, p: Region, r: Region,
                                           pieces: seq<Region>, turned: seq<Region>)
    requires Exchanged(s, u, [r, p], pieces) && Total(turned) == Total(pieces)
    requires forall x :: x in turned <==> x in pieces
    ensures Exchanged(s, u, [p, r], turned)
  {
    TotalPair(p, r);
    TotalPair(r, p);
    assert forall x :: x in [p, r] <==> x in [r, p];
  }

  lemma {:induction false} ExchangeSetFirst(s: seq<Region>, i: nat, j: nat, x: Region)
    requires i < |s| && j < |s| && i != j
    ensures Exchanged(s, s[i := x], [s[i], s[j]], [s[j], x])
  {
    ExchangeSet(s, j, i, x);
    ExchangedTurned(s, s[i := x], s[i], s[j], [s[j], x], [s[j], x]);
  }

  lemma {:induction false} ExchangeSplit(s: seq<Region>, i: nat, j: nat, x: Region, y: Region)
    requires i < |s| && j < |s| && i != j
    ensures Exchanged(s, s[i := x] + [y], [s[i], s[j]], [s[j], x, y])
  {
    ExchangeSetFirst(s, i, j, x);
    assert [s[j], x] + [y] == [s[j], x, y];
    Appended(s, s[i := x], [s[i], s[j]], [s[j], x], y);
  }

  lemma {:induction false} Appended(s: seq<Region>, u: seq<Region>, pair: seq<Region>, pieces: seq<Region>,
                                    y: Region)
    requires Exchanged(s, u, pair, pieces)
    ensures Exchanged(s, u + [y], pair, pieces + [y])
  {
    TotalLast(u, y);
    TotalLast(pieces, y);
  }

  /** The two regions have been exchanged for their pieces. */
  lemma {:induction false} ExchangeIs(s: seq<Region>, i: nat, j: nat)
    requires i < |s| && j < |s| && i != j && StartsIn(s[i], s[j])
    ensures Exchanged(s, Exchange(s, i, j), [s[i], s[j]], Resolved(s[i], s[j]))
  {
    var p, r := s[i], s[j];
    if p.typ >= r.typ {
      if r.End() <= p.End() {
        ExchangeDrop(s, i, j);
      } else {
        ExchangeSet(s, i, j, r.(addr := p.End(), len := r.End() - p.End()));
      }
    } else {
      ExchangeIsSecond(s, i, j);
    }
  }

  lemma {:induction false} ExchangeIsSecond(s: seq<Region>, i: nat, j: nat)
    requires i < |s| && j < |s| && i != j && StartsIn(s[i], s[j]) && s[i].typ < s[j].typ
    ensures Exchanged(s, Exchange(s, i, j), [s[i], s[j]], Resolved(s[i], s[j]))
  {
    var p, r := s[i], s[j];
    var head := p.(len := r.addr - p.addr);
    if r.End() < p.End() {
      var rest := p.(addr := r.End(), len := p.End() - r.End());
      if p.addr < r.addr {
        ExchangeSplit(s, i, j, head, rest);
        assert Resolved(p, r) == [r, head, rest];
      } else {
        ExchangeSetFirst(s, i, j, rest);
        assert Resolved(p, r) == [r, rest];
      }
    } else if p.addr < r.addr {
      ExchangeSetFirst(s, i, j, head);
      assert Resolved(p, r) == [r, head] && Exchange(s, i, j) == s[i := head];
    } else {
      ExchangeDrop(s, j, i);
      ExchangedTurned(s, Dropped(s, i), p, r, [r], [r]);
      assert Resolved(p, r) == [r];
    }
  }

  // ---------------------------------------------------------------- merging

  ghost predicate NoWrap(rs: seq<Region>)
  {
    forall r :: r in rs ==> r.End() + PAGE_SIZE <= U64
  }

  /** The rounding with the sums in 64 bits; the result is the rounded region where they do not wrap. */
  function RoundedWord(r: Region): (w: Region)
    requires r.End() + PAGE_SIZE <= U64
    ensures w == Rounded(r)
  {
    var end := RoundDown(((r.addr + r.len) % U64 + PAGE_SIZE - 1) % U64);
    r.(addr := RoundDown(r.addr), len := end - RoundDown(r.addr))
  }

  /** Region k and the next one touch, and could be one. */
  ghost predicate TouchAt(rs: seq<Region>, k: nat)
    requires k + 1 < |rs|
  {
    && rs[k].typ == rs[k + 1].typ && rs[k].extra == rs[k + 1].extra
    && rs[k].addr + rs[k].len == rs[k + 1].addr
  }

  ghost predicate NoneTouch(rs: seq<Region>)
  {
    forall k :: 0 <= k && k + 1 < |rs| ==> !TouchAt(rs, k)
  }

  /** No region starts inside another. */
  ghost predicate NoneOverlap(rs: seq<Region>)
  {
    forall i, j :: 0 <= i < |rs| && 0 <= j < |rs| && i != j ==> !StartsIn(rs[i], rs[j])
  }

  /** Regions that do not overlap are apart once they are sorted. */
  lemma {:induction false} SortedApart(rs: seq<Region>, s: seq<Region>)
    requires NoneOverlap(rs) && Ordered(s) && multiset(s) == multiset(rs)
    ensures Apart(s)
  {
    forall i, j | 0 <= i < j < |s| ensures s[i].End() <= s[j].addr {
      if s[i] == s[j] {
        CountTwice(s, i, j);
        TwoPlaces(rs, s[i]);
      } else {
        assert s[i] in multiset(rs) && s[j] in multiset(rs);
        var a :| 0 <= a < |rs| && rs[a] == s[i];
        var b :| 0 <= b < |rs| && rs[b] == s[j];
        assert !StartsIn(rs[a], rs[b]);
      }
    }
  }

  lemma {:induction false} CountTwice(v: seq<Region>, i: nat, j: nat)
    requires i < j < |v| && v[i] == v[j]
    ensures multiset(v)[v[i]] >= 2
  {
    assert v == v[..j] + [v[j]] + v[j + 1..];
    assert v[i] == v[..j][i] && v[i] in multiset(v[..j]);
  }

  /** A region that is there twice and does not overlap itself is empty. */
  lemma {:induction false} TwoPlaces(rs: seq<Region>, x: Region)
    requires NoneOverlap(rs) && multiset(rs)[x] >= 2
    ensures x.len == 0
  {
    var a :| 0 <= a < |rs| && rs[a] == x;
    var rest := rs[..a] + rs[a + 1..];
    assert rs == rs[..a] + [x] + rs[a + 1..];
    assert multiset(rs) == multiset(rest) + multiset{x};
    assert x in multiset(rest);
    var b :| 0 <= b < |rest| && rest[b] == x;
    assert rs[if b < a then b else b + 1] == x;
    assert !StartsIn(rs[a], rs[if b < a then b else b + 1]);
  }

  /** A full list in which a region has to be split. */
  ghost predicate Overfull(s: seq<Region>, i: nat)
  {
    && |s| == MAX_MEM_REGIONS && i + 1 < |s| && Overlap(s[i], s[i + 1])
    && Splits(Pair(s[i], s[i + 1]).0, Pair(s[i], s[i + 1]).1)
  }

  /** The panic has a reason: the list can be brought to that point. */
  ghost predicate Overfills(s0: seq<Region>)
  {
    exists s, i :: Overfull(s, i) && Kept(s0, s)
  }

  lemma {:induction false} IsOverfull(s0: seq<Region>, s: seq<Region>, i: nat)
    requires Overfull(s, i) && Kept(s0, s)
    ensures Overfills(s0)
  {
  }

  lemma {:induction false} OverfillsTrans(s0: seq<Region>, s: seq<Region>)
    requires Kept(s0, s) && Overfills(s)
    ensures Overfills(s0)
  {
    var u, i :| Overfull(u, i) && Kept(s, u);
    KeptTrans(s0, s, u);
  }

  /** Merging has got to region i. */
  ghost predicate Merging(s0: seq<Region>, s: seq<Region>, i: nat)
  {
    && Ordered(s) && Kept(s0, s) && EmptiesFrom(s0, s) && (NoneMergeable(s0) ==> s == s0) && (Apart(s0) ==> Apart(s))
    && forall k :: 0 <= k < i && k + 1 < |s| ==> !Mergeable(s[k], s[k + 1])
  }

  ghost predicate NoneMergeable(s: seq<Region>)
  {
    forall k :: 0 <= k && k + 1 < |s| ==> !Mergeable(s[k], s[k + 1])
  }

  lemma {:induction false} MergingStart(s: seq<Region>)
    requires Ordered(s)
    ensures Merging(s, s, 0)
  {
    KeptPerm(s, s);
  }

  lemma {:induction false} MergingNext(s0: seq<Region>, s: seq<Region>, i: nat)
    requires Merging(s0, s, i) && i + 1 < |s| && !Mergeable(s[i], s[i + 1])
    ensures Merging(s0, s, i + 1) && (i + 2 == |s| ==> Merging(s0, s, i + 2))
  {
  }

  lemma {:induction false} MergingStep(s0: seq<Region>, s: seq<Region>, i: nat)
    requires Merging(s0, s, i) && i + 1 < |s| && Mergeable(s[i], s[i + 1])
    ensures Merging(s0, Merged(s, i), i)
  {
    var u := Merged(s, i);
    MergedList(s, i);
    MergedOrdered(s, i);
    if Apart(s) { MergedApart(s, i); }
    KeptTrans(s0, s, u);
    forall k | 0 <= k < i && k + 1 < |u| ensures !Mergeable(u[k], u[k + 1]) {
      assert !Mergeable(s[k], s[k + 1]);
    }
  }

  /** Regions i and i + 1 in one. */
  function Merged(s: seq<Region>, i: nat): seq<Region>
    requires i + 1 < |s|
  {
    var u := s[i := s[i].(len := s[i].len + s[i + 1].len)];
    u[..i + 1] + u[i + 2..]
  }

  lemma {:induction false} MergedList(s: seq<Region>, i: nat)
    requires i + 1 < |s| && Mergeable(s[i], s[i + 1])
    ensures Kept(s, Merged(s, i)) && EmptiesFrom(s, Merged(s, i))
  {
    var p, r := s[i], s[i + 1];
    var m := p.(len := p.len + r.len);
    MergedExchange(s, i);
    JoinedKept(p, r);
    ExchangedKept(s, Merged(s, i), [p, r], [m]);
    assert p in [p, r];
    ExchangedEmpties(s, Merged(s, i), [p, r], [m]);
  }

  lemma {:induction false} MergedOrdered(s: seq<Region>, i: nat)
    requires i + 1 < |s| && Ordered(s)
    ensures Ordered(Merged(s, i))
  {
    assert forall k :: 0 <= k < |s| - 1 ==> Merged(s, i)[k].addr == s[if k <= i then k else k + 1].addr;
  }

  lemma {:induction false} MergedApart(s: seq<Region>, i: nat)
    requires i + 1 < |s| && Apart(s) && Mergeable(s[i], s[i + 1])
    ensures Apart(Merged(s, i))
  {
    var u := Merged(s, i);
    assert forall k :: 0 <= k < |s| - 1 ==> u[k].addr == s[if k <= i then k else k + 1].addr;
    assert forall k :: 0 <= k < |s| - 1 ==> u[k].End() == s[if k < i then k else k + 1].End();
  }

  lemma {:induction false} JoinedKept(p: Region, r: Region)
    requires Mergeable(p, r)
    ensures Kept([p, r], [p.(len := p.len + r.len)])
  {
    var m := p.(len := p.len + r.len);
    assert p in [p, r] && r in [p, r] && m in [m];
    forall a, t ensures Reaches([p, r], a, t) <==> Reaches([m], a, t) {
      assert m.Covers(a) <==> p.Covers(a) || r.Covers(a);
    }
  }

  lemma {:induction false} MergedExchange(s: seq<Region>, i: nat)
    requires i + 1 < |s|
    ensures Exchanged(s, Merged(s, i), [s[i], s[i + 1]], [s[i].(len := s[i].len + s[i + 1].len)])
  {
    var m := s[i].(len := s[i].len + s[i + 1].len);
    var u, v := s[i := m], Merged(s, i);
    assert v[i] == m;
    forall x | x in s && x != s[i] && x != s[i + 1] ensures x in v {
      var k :| 0 <= k < |s| && s[k] == x;
      assert v[if k < i then k else k - 1] == x;
    }
    forall x | x in v && x != m ensures x in s {
      var k :| 0 <= k < |v| && v[k] == x;
      assert s[if k < i then k else k + 1] == x;
    }
    TotalSet(s, i, m);
    TotalWithout(u, i + 1);
    assert u[..i + 1] + u[i + 1 + 1..] == v;
    TotalPair(s[i], s[i + 1]);
    TotalPair(m, m);
  }

  // ---------------------------------------------------------------- passes over the list

  /** The overlap of regions k and k + 1, if there is one, is such that resolving it changes nothing. */
  ghost predicate SmoothAt(s: seq<Region>, k: nat)
    requires k + 1 < |s|
  {
    s[k].End() <= s[k + 1].addr || StuckAt(s, k)
  }

  ghost predicate StuckAt(s: seq<Region>, k: nat)
    requires k + 1 < |s|
  {
    s[k].len > 0 && Stuck(s[k], s[k + 1])
  }

  ghost predicate Smooth(s: seq<Region>, i: nat)
  {
    forall k :: 0 <= k < i && k + 1 < |s| ==> SmoothAt(s, k)
  }

  ghost predicate AnyStuck(s: seq<Region>, i: nat)
  {
    exists k :: 0 <= k < i && k + 1 < |s| && StuckAt(s, k)
  }

  /** A sorted list with an overlap that no pass resolves. */
  ghost predicate Jammed(s: seq<Region>)
  {
    Ordered(s) && Smooth(s, |s|) && AnyStuck(s, |s|)
  }

  /** A pass has got to region i: nothing has changed, or the list weighs less. */
  ghost predicate Passing(s0: seq<Region>, s: seq<Region>, i: nat, any: bool)
  {
    && Kept(s0, s) && EmptiesFrom(s0, s) && Ordered(s0)
    && ((any && Total(s) < Total(s0) && !Smooth(s0, |s0|))
        || (s == s0 && Smooth(s, i) && (any <==> AnyStuck(s, i))))
  }

  lemma {:induction false} PassingStart(s: seq<Region>)
    requires Ordered(s)
    ensures Passing(s, s, 0, false)
  {
    KeptPerm(s, s);
  }

  lemma {:induction false} PassingNo(s0: seq<Region>, s: seq<Region>, i: nat, any: bool)
    requires Passing(s0, s, i, any) && i + 1 < |s| && !Overlap(s[i], s[i + 1])
    ensures Passing(s0, s, i + 1, any)
  {
    if s == s0 {
      assert s[i].addr <= s[i + 1].addr;
      assert SmoothAt(s, i) && !StuckAt(s, i);
    }
  }

  lemma {:induction false} PassingEnd(s0: seq<Region>, s: seq<Region>, i: nat, any: bool)
    requires Passing(s0, s, i, any) && i + 1 >= |s|
    ensures Passing(s0, s, |s|, any)
  {
  }

  /** Where the list has not changed, an overlap that does not jam shows in the list at the start. */
  lemma {:induction false} PassingRough(s0: seq<Region>, s: seq<Region>, i: nat, any: bool)
    requires Passing(s0, s, i, any) && i + 1 < |s| && Overlap(s[i], s[i + 1]) && !Stuck(s[i], s[i + 1])
    ensures !Smooth(s0, |s0|)
  {
    if s == s0 {
      assert s[i].addr <= s[i + 1].addr;
      assert !SmoothAt(s0, i);
    }
  }

  lemma {:induction false} PassingYes(s0: seq<Region>, s: seq<Region>, u: seq<Region>, i: nat, any: bool)
    requires Passing(s0, s, i, any) && i + 1 < |s| && Overlap(s[i], s[i + 1])
    requires u == if s[i + 1].addr < s[i].addr then Exchange(s, i + 1, i) else Exchange(s, i, i + 1)
    ensures Passing(s0, u, i + 1, true)
  {
    var a, b := if s[i + 1].addr < s[i].addr then i + 1 else i, if s[i + 1].addr < s[i].addr then i else i + 1;
    ExchangeKept(s, a, b);
    ExchangeSame(s, a, b);
    KeptTrans(s0, s, u);
    if Stuck(s[i], s[i + 1]) {
      assert u == s && StuckAt(s, i);
    } else {
      PassingRough(s0, s, i, any);
    }
  }

  /** Resolving an overlap keeps what the list says, and makes it weigh less unless it is stuck. */
  lemma {:induction false} ExchangeKept(s: seq<Region>, i: nat, j: nat)
    requires i < |s| && j < |s| && i != j && StartsIn(s[i], s[j])
    ensures Kept(s, Exchange(s, i, j)) && EmptiesFrom(s, Exchange(s, i, j))
    ensures !Stuck(s[i], s[j]) ==> Total(Exchange(s, i, j)) < Total(s)
  {
    var p, r := s[i], s[j];
    ExchangeIs(s, i, j);
    ResolvedKept(p, r);
    ResolvedShorter(p, r);
    ExchangedKept(s, Exchange(s, i, j), [p, r], Resolved(p, r));
    ExchangedEmpties(s, Exchange(s, i, j), [p, r], Resolved(p, r));
  }

  /** Exactly when resolving an overlap changes nothing. */
  lemma {:induction false} ExchangeSame(s: seq<Region>, i: nat, j: nat)
    requires i < |s| && j < |s| && i != j && StartsIn(s[i], s[j])
    ensures Exchange(s, i, j) == s <==> s[i].typ < s[j].typ && s[i].addr == s[j].addr && s[j].len == 0
  {
    if Stuck(s[i], s[j]) {
      var p, r := s[i], s[j];
      assert p.(addr := r.End(), len := p.End() - r.End()) == p;
    } else {
      ExchangeKept(s, i, j);
    }
  }

  lemma {:induction false} SmoothLists(s: seq<Region>)
    ensures Jammed(s) || Apart(s) ==> Smooth(s, |s|)
  {
  }

  /** After a turn: the list weighs less, or it is the same, and jams just if an overlap has been found. */
  ghost predicate Turned(s: seq<Region>, v: seq<Region>, any: bool)
  {
    && Kept(s, v) && EmptiesFrom(s, v) && Ordered(v)
    && (if v == s then any == Jammed(s) && any == !Apart(s) else any && Total(v) < Total(s) && !Jammed(s) && !Apart(s))
  }

  lemma {:induction false} TurnDone(s: seq<Region>, u: seq<Region>, v: seq<Region>, any: bool)
    requires Passing(s, u, |u|, any) && Kept(u, v) && EmptiesFrom(u, v) && Ordered(v)
    requires Total(v) == Total(u) && (Ordered(u) ==> v == u)
    ensures Turned(s, v, any)
  {
    KeptTrans(s, u, v);
    SmoothLists(s);
    if !any {
      forall k | 0 <= k < |s| - 1 ensures s[k].End() <= s[k + 1].addr { assert SmoothAt(s, k); }
      NeighboursApart(s);
    }
  }

  /** Between turns. */
  ghost predicate Resolving(s0: seq<Region>, s: seq<Region>)
  {
    Kept(s0, s) && EmptiesFrom(s0, s) && Ordered(s)
  }

  lemma {:induction false} ResolvingStart(s: seq<Region>)
    requires Ordered(s)
    ensures Resolving(s, s)
  {
    KeptPerm(s, s);
  }

  lemma {:induction false} ResolvingTurn(s0: seq<Region>, s: seq<Region>, v: seq<Region>, any: bool)
    requires Resolving(s0, s) && Turned(s, v, any)
    ensures Resolving(s0, v)
  {
    KeptTrans(s0, s, v);
  }

  /** A list that jams has an empty region. */
  lemma {:induction false} JammedEmpty(s: seq<Region>)
    requires Jammed(s)
    ensures !NonEmpty(s)
  {
    var k :| 0 <= k && k + 1 < |s| && StuckAt(s, k);
    assert s[k + 1] in s;
  }

  /** An empty region on a page boundary inside the pages of a less strict one. */
  ghost predicate EmptyWithin(p: Region, r: Region)
  {
    r.len == 0 && r.addr % PAGE_SIZE == 0 && Rounded(p).Covers(r.addr) && p.typ < r.typ
  }

  lemma {:induction false} InRounded(s: seq<Region>, x: Region) returns (r: Region)
    requires x in RoundedAll(s)
    ensures r in s && Rounded(r) == x
  {
    var k :| 0 <= k < |s| && RoundedAll(s)[k] == x;
    r := s[k];
  }

  /** A map that jams comes from such regions. */
  lemma {:induction false} JamFrom(s: seq<Region>, out: seq<Region>)
    requires Jammed(out) && Kept(RoundedAll(s), out) && EmptiesFrom(RoundedAll(s), out)
    ensures exists p, r :: p in s && r in s && EmptyWithin(p, r)
  {
    var k :| 0 <= k && k + 1 < |out| && StuckAt(out, k);
    var x, y := out[k], out[k + 1];
    assert x in out && y in out && x.Covers(y.addr);
    assert Source(RoundedAll(s), x, y.addr);
    var q :| q in RoundedAll(s) && q.Covers(y.addr) && q.typ == x.typ && q.extra == x.extra;
    var p := InRounded(s, q);
    var r := InRounded(s, y);
    RoundedEmpty(r);
    assert EmptyWithin(p, r);
  }

  // ---------------------------------------------------------------- what the result means

  /** In a map of disjoint regions no address is covered twice. */
  lemma {:induction false} CoveredOnce(out: seq<Region>, i: nat, j: nat, a: int)
    requires Apart(out) && i < |out| && j < |out| && out[i].Covers(a) && out[j].Covers(a)
    ensures i == j
  {
  }

  /** Of every address the final map says what the strictest of the rounded input regions there says. */
  lemma {:induction false} FixedMeaning(ins: seq<Region>, out: seq<Region>, a: int)
    requires Apart(out) && Kept(RoundedAll(ins), out)
    ensures (exists r :: r in out && r.Covers(a)) <==> (exists q :: q in RoundedAll(ins) && q.Covers(a))
    ensures forall r :: r in out && r.Covers(a) ==> Strictest(RoundedAll(ins), r, a)
  {
    var s := RoundedAll(ins);
    forall q | q in s && q.Covers(a) ensures exists r :: r in out && r.Covers(a) {
      assert Reaches(s, a, q.typ) && Reaches(out, a, q.typ);
    }
    forall r | r in out && r.Covers(a) ensures Strictest(s, r, a) {
      assert Source(s, r, a);
      IsStrictest(s, out, r, a);
    }
  }

  /** The region says of the address what some region of the list says, and none there is stricter. */
  ghost predicate Strictest(s: seq<Region>, r: Region, a: int)
  {
    Source(s, r, a) && forall q :: q in s && q.Covers(a) ==> q.typ <= r.typ
  }

  lemma {:induction false} IsStrictest(s: seq<Region>, out: seq<Region>, r: Region, a: int)
    requires Apart(out) && Kept(s, out) && r in out && r.Covers(a)
    ensures Strictest(s, r, a)
  {
    var i :| 0 <= i < |out| && out[i] == r;
    forall q | q in s && q.Covers(a) ensures q.typ <= r.typ {
      assert Reaches(s, a, q.typ) && Reaches(out, a, q.typ);
      var x :| x in out && x.Covers(a) && x.typ >= q.typ;
      var j :| 0 <= j < |out| && out[j] == x;
      CoveredOnce(out, i, j, a);
    }
  }

  /** Two regions that start on the same page boundary, an empty one of a stricter type behind the other: rounded, they
      jam, and there is nothing to merge, so that the passes never end. */
  lemma {:induction false} EmptyNeverEnds(p: Region, r: Region)
    requires r.len == 0 && p.len > 0 && p.addr == r.addr && p.addr % PAGE_SIZE == 0 && p.typ < r.typ
    ensures Jammed(RoundedAll([p, r])) && NoneMergeable(RoundedAll([p, r]))
  {
    RoundedEmpty(p);
    RoundedEmpty(r);
    assert StuckAt(RoundedAll([p, r]), 0);
  }
}
