/**
 Memory regions as values: what a list of regions says about every address, and what it means for one
 list to say the same as another.
*/
module MemRegions {

  const PAGE_SIZE := 4096

  /** A stricter region has the greater type. */
  datatype Region = Region(addr: nat, len: nat, typ: int, extra: int) {
    function End(): nat { addr + len }
    predicate Covers(a: int) { addr <= a < addr + len }

    /** Two pieces of a region weigh less than the region, and so does a shorter region. */
    function Weight(): nat { if len == 0 then 1 else 3 * len - 1 }
  }

  /** Some region of a type of at least t covers the address: the strictest type there is at least t. */
  ghost predicate Reaches(rs: seq<Region>, a: int, t: int)
  {
    exists r :: r in rs && r.Covers(a) && r.typ >= t
  }

  /** The region says of the address what some region of the list says of it. */
  ghost predicate Source(rs: seq<Region>, r: Region, a: int)
  {
    exists q :: q in rs && q.Covers(a) && q.typ == r.typ && q.extra == r.extra
  }

  /** Every address keeps its strictest type, and nothing is said of it that was not said before. */
  ghost predicate Kept(rs: seq<Region>, out: seq<Region>)
  {
    && (forall a, t :: Reaches(rs, a, t) <==> Reaches(out, a, t))
    && (forall r, a :: r in out && r.Covers(a) ==> Source(rs, r, a))
  }

  lemma {:induction false} KeptTrans(p: seq<Region>, q: seq<Region>, r: seq<Region>)
    requires Kept(p, q) && Kept(q, r)
    ensures Kept(p, r)
  {
    forall x, a | x in r && x.Covers(a) ensures Source(p, x, a) {
      assert Source(q, x, a);
      var y :| y in q && y.Covers(a) && y.typ == x.typ && y.extra == x.extra;
      assert Source(p, y, a);
    }
  }

  lemma {:induction false} KeptPerm(p: seq<Region>, q: seq<Region>)
    requires multiset(p) == multiset(q)
    ensures Kept(p, q)
  {
    assert forall r :: r in p <==> r in multiset(p);
    assert forall r :: r in q <==> r in multiset(q);
  }

  /** Regions of a list have been replaced by pieces; the rest is the same. */
  ghost predicate Exchanged(rs: seq<Region>, out: seq<Region>, pair: seq<Region>, pieces: seq<Region>)
  {
    && (forall x :: x in out ==> x in rs || x in pieces)
    && (forall x :: x in rs ==> x in pair || x in out)
    && (forall x :: x in pieces ==> x in out)
    && (forall x :: x in pair ==> x in rs)
    && Total(out) + Total(pair) == Total(rs) + Total(pieces)
  }

  lemma {:induction false} ExchangedReach(rs: seq<Region>, out: seq<Region>, pair: seq<Region>,
                                          pieces: seq<Region>, a: int, t: int)
    requires Exchanged(rs, out, pair, pieces) && Kept(pair, pieces)
    ensures Reaches(rs, a, t) <==> Reaches(out, a, t)
  {
    if Reaches(rs, a, t) {
      var r :| r in rs && r.Covers(a) && r.typ >= t;
      if r in pair {
        assert Reaches(pair, a, t) && Reaches(pieces, a, t);
        var s :| s in pieces && s.Covers(a) && s.typ >= t;
      }
    }
    if Reaches(out, a, t) {
      var r :| r in out && r.Covers(a) && r.typ >= t;
      if r in pieces {
        assert Reaches(pieces, a, t) && Reaches(pair, a, t);
        var s :| s in pair && s.Covers(a) && s.typ >= t;
      }
    }
  }

  lemma {:induction false} ExchangedKept(rs: seq<Region>, out: seq<Region>, pair: seq<Region>, pieces: seq<Region>)
    requires Exchanged(rs, out, pair, pieces) && Kept(pair, pieces)
    ensures Kept(rs, out)
  {
    forall a, t ensures Reaches(rs, a, t) <==> Reaches(out, a, t) {
      ExchangedReach(rs, out, pair, pieces, a, t);
    }
    forall r, a | r in out && r.Covers(a) ensures Source(rs, r, a) {
      if r in pieces {
        assert Source(pair, r, a);
        var s :| s in pair && s.Covers(a) && s.typ == r.typ && s.extra == r.extra;
      }
    }
  }

  // ---------------------------------------------------------------- total weight

  function Total(rs: seq<Region>): nat
  {
    if rs == [] then 0 else rs[0].Weight() + Total(rs[1..])
  }

  lemma {:induction false} TotalConcat(p: seq<Region>, q: seq<Region>)
    ensures Total(p + q) == Total(p) + Total(q)
  {
    if p == [] {
      assert p + q == q;
    } else {
      TotalConcat(p[1..], q);
      assert (p + q)[1..] == p[1..] + q;
    }
  }

  lemma {:induction false} TotalSet(s: seq<Region>, i: nat, x: Region)
    requires i < |s|
    ensures Total(s[i := x]) + s[i].Weight() == Total(s) + x.Weight()
  {
    if i == 0 {
      assert s[i := x][1..] == s[1..];
    } else {
      TotalSet(s[1..], i - 1, x);
      assert s[i := x][1..] == s[1..][i - 1 := x];
    }
  }

  lemma {:induction false} TotalLast(s: seq<Region>, x: Region)
    ensures Total(s + [x]) == Total(s) + x.Weight()
  {
    TotalConcat(s, [x]);
    TotalPair(x, x);
  }

  lemma {:induction false} TotalWithout(p: seq<Region>, i: nat)
    requires i < |p|
    ensures Total(p) == Total(p[..i] + p[i + 1..]) + p[i].Weight()
    ensures multiset(p) == multiset(p[..i] + p[i + 1..]) + multiset{p[i]}
  {
    assert p == p[..i] + ([p[i]] + p[i + 1..]);
    TotalConcat(p[..i], [p[i]] + p[i + 1..]);
    TotalConcat(p[..i], p[i + 1..]);
    assert ([p[i]] + p[i + 1..])[1..] == p[i + 1..];
  }

  /** The total weight does not depend on the order. */
  lemma {:induction false} TotalPerm(p: seq<Region>, q: seq<Region>)
    requires multiset(p) == multiset(q)
    ensures Total(p) == Total(q)
    decreases |p|
  {
    if p == [] {
      assert |multiset(q)| == |q| && |multiset(p)| == 0;
    } else {
      assert p[0] in multiset(q);
      var i :| 0 <= i < |q| && q[i] == p[0];
      var rest := q[..i] + q[i + 1..];
      TotalWithout(q, i);
      assert p == [p[0]] + p[1..];
      assert multiset(p[1..]) == multiset(p) - multiset{p[0]} && multiset(rest) == multiset(q) - multiset{p[0]};
      TotalPerm(p[1..], rest);
    }
  }

  ghost predicate NonEmpty(rs: seq<Region>)
  {
    forall r :: r in rs ==> r.len > 0
  }

  /** No empty region has been made or changed. */
  ghost predicate EmptiesFrom(rs: seq<Region>, out: seq<Region>)
  {
    forall x :: x in out && x.len == 0 ==> x in rs
  }

  lemma {:induction false} ExchangedEmpties(rs: seq<Region>, out: seq<Region>, pair: seq<Region>, pieces: seq<Region>)
    requires Exchanged(rs, out, pair, pieces) && EmptiesFrom(pair, pieces)
    ensures EmptiesFrom(rs, out)
  {
  }

  // ---------------------------------------------------------------- two overlapping regions

  /** r does not start before p, and starts inside it. */
  predicate StartsIn(p: Region, r: Region)
  {
    p.addr <= r.addr < p.End()
  }

  /** r lies strictly inside p and is stricter, so that p is split in two. */
  predicate Splits(p: Region, r: Region)
  {
    p.typ < r.typ && p.addr < r.addr && r.End() < p.End()
  }

  /** What is left of two such regions: the stricter one stays whole, p on a tie. */
  function Resolved(p: Region, r: Region): seq<Region>
    requires StartsIn(p, r)
  {
    if p.typ >= r.typ then
      if r.End() <= p.End() then [p] else [p, r.(addr := p.End(), len := r.End() - p.End())]
    else
      [r]
      + (if p.addr < r.addr then [p.(len := r.addr - p.addr)] else [])
      + (if r.End() < p.End() then [p.(addr := r.End(), len := p.End() - r.End())] else [])
  }

  /** The pieces say the same as the two regions. */
  lemma {:induction false} ResolvedKept(p: Region, r: Region)
    requires StartsIn(p, r)
    ensures Kept([p, r], Resolved(p, r))
  {
    forall a, t ensures Reaches([p, r], a, t) <==> Reaches(Resolved(p, r), a, t) {
      ResolvedReach(p, r, a, t);
    }
    forall x, a | x in Resolved(p, r) && x.Covers(a) ensures Source([p, r], x, a) {
      assert p in [p, r] && r in [p, r];
    }
  }

  lemma {:induction false} ResolvedReach(p: Region, r: Region, a: int, t: int)
    requires StartsIn(p, r)
    ensures Reaches([p, r], a, t) <==> Reaches(Resolved(p, r), a, t)
  {
    var out := Resolved(p, r);
    assert p in [p, r] && r in [p, r];
    assert p.typ >= r.typ ==> out[0] == p && p in out;
    assert p.typ < r.typ ==> out[0] == r && r in out;
    var tail := r.(addr := p.End(), len := if r.End() <= p.End() then 0 else r.End() - p.End());
    var head := p.(len := r.addr - p.addr);
    var rest := p.(addr := r.End(), len := if p.End() <= r.End() then 0 else p.End() - r.End());
    if p.typ >= r.typ && r.End() > p.End() { assert out[1] == tail && tail in out; }
    if p.typ < r.typ && p.addr < r.addr { assert out[1] == head && head in out; }
    if p.typ < r.typ && r.End() < p.End() { assert out[|out| - 1] == rest && rest in out; }
  }

  /** The one case in which nothing comes of it: the stricter region is empty, and both have the same start. */
  predicate Stuck(p: Region, r: Region)
  {
    p.typ < r.typ && p.addr == r.addr && r.len == 0
  }

  /** Otherwise the pieces weigh less; and no piece is empty but one of the two. */
  lemma {:induction false} ResolvedShorter(p: Region, r: Region)
    requires StartsIn(p, r)
    ensures EmptiesFrom([p, r], Resolved(p, r))
    ensures !Stuck(p, r) ==> Total(Resolved(p, r)) < Total([p, r])
  {
    TotalPair(p, r);
    var out := Resolved(p, r);
    if |out| == 2 {
      TotalPair(out[0], out[1]);
    } else if |out| == 3 {
      TotalPair(out[1], out[2]);
      assert out[1..] == [out[1], out[2]];
    }
    assert p in [p, r] && r in [p, r];
  }

  lemma {:induction false} TotalPair(p: Region, r: Region)
    ensures Total([p, r]) == p.Weight() + r.Weight() && Total([p]) == p.Weight()
  {
    assert [p, r][1..] == [r] && [r][1..] == [] && [p][1..] == [];
    assert Total([r]) == r.Weight();
  }

  // ---------------------------------------------------------------- order

  /** Sorted by start address. */
  ghost predicate Ordered(rs: seq<Region>)
  {
    forall i, j :: 0 <= i < j < |rs| ==> rs[i].addr <= rs[j].addr
  }

  /** Sorted, and no region starts before the one ahead of it ends. */
  ghost predicate Apart(rs: seq<Region>)
  {
    forall i, j :: 0 <= i < j < |rs| ==> rs[i].End() <= rs[j].addr
  }

  /** Neighbours that do not overlap are enough. */
  lemma {:induction false} NeighboursApart(rs: seq<Region>)
    requires forall i :: 0 <= i < |rs| - 1 ==> rs[i].End() <= rs[i + 1].addr
    ensures Apart(rs)
  {
    forall i, j | 0 <= i < j < |rs| ensures rs[i].End() <= rs[j].addr {
      ApartTo(rs, i, j);
    }
  }

  lemma {:induction false} ApartTo(rs: seq<Region>, i: nat, j: nat)
    requires forall i :: 0 <= i < |rs| - 1 ==> rs[i].End() <= rs[i + 1].addr
    requires i < j < |rs|
    ensures rs[i].End() <= rs[j].addr
    decreases j
  {
    if i < j - 1 {
      ApartTo(rs, i, j - 1);
      assert rs[j - 1].End() <= rs[j - 1 + 1].addr;
    }
  }

  // ---------------------------------------------------------------- page rounding

  function RoundDown(a: nat): nat { a - a % PAGE_SIZE }

  function RoundUp(a: nat): nat { RoundDown(a + PAGE_SIZE - 1) }

  function Rounded(r: Region): Region
  {
    r.(addr := RoundDown(r.addr), len := RoundUp(r.End()) - RoundDown(r.addr))
  }

  function RoundedAll(rs: seq<Region>): seq<Region>
  {
    seq(|rs|, i requires 0 <= i < |rs| => Rounded(rs[i]))
  }

  /** A rounded region covers exactly the pages in which the region has an address. */
  lemma {:induction false} RoundedCovers(r: Region, a: nat)
    requires r.len > 0
    ensures Rounded(r).Covers(a) <==> exists b: nat :: r.Covers(b) && RoundDown(b) == RoundDown(a)
  {
    var e := r.End() - 1;
    assert RoundUp(r.End()) == RoundDown(e) + PAGE_SIZE;
    if Rounded(r).Covers(a) {
      var b := if a < r.addr then r.addr else if a > e then e else a;
      assert r.Covers(b) && RoundDown(b) == RoundDown(a);
    }
    forall b: nat | r.Covers(b) && RoundDown(b) == RoundDown(a) ensures Rounded(r).Covers(a) {
      assert RoundDown(r.addr) <= RoundDown(b) <= RoundDown(e);
    }
  }

  /** Only an empty region at a page boundary stays empty. */
  lemma {:induction false} RoundedEmpty(r: Region)
    ensures Rounded(r).len == 0 <==> r.len == 0 && r.addr % PAGE_SIZE == 0
  {
  }
}
