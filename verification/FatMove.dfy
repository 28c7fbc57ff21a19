/** Moving one cluster of a chain to a free cluster, and what such moves leave alone. */
module FatMove {
  import opened Basics
  import opened FatVolume

  /** Clusters `left` have been given up and `now` taken instead; the rest is as it was, except for the data of
      the clusters in `touched`. */
  ghost predicate Frame(v: Vol, w: Vol, left: set<nat>, now: set<nat>, touched: set<nat>)
  {
    && |w.fat| == |v.fat| == |w.data| == |v.data|
    && (forall c :: Used(w, c) <==> (Used(v, c) && c !in left) || c in now)
    && (forall c :: c in now && Used(v, c) ==> c in left)
    && (forall c :: Used(v, c) && c !in left ==> Next(w, c) == Next(v, c))
    && (forall c :: Used(v, c) && c !in left && c !in touched ==> Cell(w, c) == Cell(v, c))
  }

  lemma {:induction false} FrameSelf(v: Vol, s: set<nat>, touched: set<nat>)
    requires |v.fat| == |v.data| && forall c :: c in s ==> Used(v, c)
    ensures Frame(v, v, s, s, touched)
  {
  }

  /** One change after another. */
  lemma {:induction false} FrameJoin(u: Vol, v: Vol, w: Vol, a: set<nat>, b: set<nat>, t: set<nat>,
                                     c: set<nat>, d: set<nat>, s: set<nat>)
    requires Frame(u, v, a, b, t) && Frame(v, w, c, d, s) && a !! c
    requires forall x :: x in c ==> Used(u, x)
    requires forall x :: x in s ==> x in t || x in b
    ensures Frame(u, w, a + c, b + d, t)
  {
    forall x | x in b ensures x !in c {
    }
    forall x | x in b + d && Used(u, x) ensures x in a + c {
    }
    forall x ensures Used(w, x) <==> (Used(u, x) && x !in a + c) || x in b + d {
    }
    forall x | Used(u, x) && x !in a + c ensures Next(w, x) == Next(u, x) {
      assert Used(v, x);
    }
    forall x | Used(u, x) && x !in a + c && x !in t ensures Cell(w, x) == Cell(u, x) {
      assert Used(v, x) && x !in b;
    }
  }

  /** The same clusters changed twice. */
  lemma {:induction false} FrameAgain(u: Vol, v: Vol, w: Vol, a: set<nat>, b: set<nat>, d: set<nat>, t: set<nat>)
    requires Frame(u, v, a, b, t) && Frame(v, w, b, d, t)
    ensures Frame(u, w, a, d, t)
  {
    forall x | x in d && Used(u, x) ensures x in a {
    }
    forall x ensures Used(w, x) <==> (Used(u, x) && x !in a) || x in d {
      if Used(u, x) && x !in a { assert Used(v, x) && x !in b; }
    }
    forall x | Used(u, x) && x !in a ensures Next(w, x) == Next(u, x) && (x !in t ==> Cell(w, x) == Cell(u, x)) {
      assert Used(v, x) && x !in b;
    }
  }

  // ---------------------------------------------------------------- one cluster

  ghost function InChain(chain: seq<nat>): set<nat> { set c | c in chain }

  lemma {:induction false} ChainUsed(ft: Kind, v: Vol, chain: seq<nat>, j: nat)
    requires Chained(ft, v, chain) && j < |chain|
    ensures Used(v, chain[j])
  {
    if j < |chain| - 1 { assert Next(v, chain[j]) == chain[j + 1] && 2 <= chain[j + 1]; }
  }

  /** The cluster at position k of the chain moves to f; the one before leads there. */
  ghost function Moved(v: Vol, chain: seq<nat>, k: nat, f: nat): Vol
    requires k < |chain| && forall j :: 0 <= j < |chain| ==> chain[j] < |v.fat|
    requires f < |v.fat| == |v.data|
  {
    var fat := if k > 0 then v.fat[chain[k - 1] := f] else v.fat;
    Vol(fat[f := v.fat[chain[k]]][chain[k] := 0], v.data[f := v.data[chain[k]]])
  }

  /** A chain and a free cluster it could use. */
  ghost predicate Movable(ft: Kind, v: Vol, chain: seq<nat>, k: nat, f: nat)
  {
    Chained(ft, v, chain) && k < |chain| && 2 <= f < |v.fat| == |v.data| && !Used(v, f)
  }

  lemma {:induction false} MovedEntries(ft: Kind, v: Vol, chain: seq<nat>, k: nat, f: nat, c: nat)
    requires Movable(ft, v, chain, k, f)
    ensures f !in chain
    ensures var w := Moved(v, chain, k, f);
      Next(w, c) == if c == chain[k] then 0 else if c == f then Next(v, chain[k])
                    else if k > 0 && c == chain[k - 1] then f else Next(v, c)
    ensures Cell(Moved(v, chain, k, f), c) == if c == f then Cell(v, chain[k]) else Cell(v, c)
  {
    if f in chain {
      var j :| 0 <= j < |chain| && chain[j] == f;
      ChainUsed(ft, v, chain, j);
    }
  }

  lemma {:induction false} MovedChained(ft: Kind, v: Vol, chain: seq<nat>, k: nat, f: nat)
    requires Movable(ft, v, chain, k, f)
    ensures Chained(ft, Moved(v, chain, k, f), chain[k := f])
  {
    var w, ch := Moved(v, chain, k, f), chain[k := f];
    MovedEntries(ft, v, chain, k, f, 0);
    assert NoDuplicates(ch);
    forall j | 0 <= j < |ch| - 1 ensures Next(w, ch[j]) == ch[j + 1] {
      MovedEntries(ft, v, chain, k, f, ch[j]);
    }
    MovedEntries(ft, v, chain, k, f, ch[|ch| - 1]);
  }

  lemma {:induction false} MovedCells(ft: Kind, v: Vol, chain: seq<nat>, k: nat, f: nat)
    requires Movable(ft, v, chain, k, f)
    ensures Cells(Moved(v, chain, k, f), chain[k := f]) == Cells(v, chain)
  {
    var w, ch := Moved(v, chain, k, f), chain[k := f];
    forall j | 0 <= j < |ch| ensures Cell(w, ch[j]) == Cell(v, chain[j]) {
      MovedEntries(ft, v, chain, k, f, ch[j]);
    }
    assert Cells(w, ch) == Cells(v, chain);
  }

  lemma {:induction false} MovedFrame(ft: Kind, v: Vol, chain: seq<nat>, k: nat, f: nat)
    requires Movable(ft, v, chain, k, f)
    ensures Frame(v, Moved(v, chain, k, f), InChain(chain), InChain(chain[k := f]), {})
  {
    var w, ch := Moved(v, chain, k, f), chain[k := f];
    forall c: nat ensures Used(w, c) <==> (Used(v, c) && c !in chain) || c in ch {
      MovedUsed(ft, v, chain, k, f, c);
    }
    forall c: nat | Used(v, c) && c !in chain ensures Next(w, c) == Next(v, c) && Cell(w, c) == Cell(v, c) {
      MovedEntries(ft, v, chain, k, f, c);
    }
    forall c | c in ch && Used(v, c) ensures c in chain {
    }
  }

  lemma {:induction false} MovedUsed(ft: Kind, v: Vol, chain: seq<nat>, k: nat, f: nat, c: nat)
    requires Movable(ft, v, chain, k, f)
    ensures Used(Moved(v, chain, k, f), c) <==> (Used(v, c) && c !in chain) || c in chain[k := f]
  {
    var ch := chain[k := f];
    MovedEntries(ft, v, chain, k, f, c);
    ChainUsed(ft, v, chain, k);
    assert ch[k] == f;
    if c in chain {
      var j :| 0 <= j < |chain| && chain[j] == c;
      ChainUsed(ft, v, chain, j);
      assert j != k ==> ch[j] == c;
    }
  }

  // ---------------------------------------------------------------- a whole chain

  /** Every cluster before ffc is used, and there is a free one. */
  ghost predicate Packed(v: Vol, ffc: nat)
  {
    (forall c: nat :: c < ffc ==> Used(v, c)) && exists c :: ffc <= c < |v.fat| && !Used(v, c)
  }

  /** The record i of a cluster names another first cluster. */
  ghost function WithFirst(v: Vol, d: nat, i: nat, f: nat): Vol
    requires d < |v.data| && i < |v.data[d]|
  {
    v.(data := v.data[d := v.data[d][i := v.data[d][i].(first := f)]])
  }

  ghost function FirstOf(chain: seq<nat>): nat { if chain == [] then 0 else chain[0] }

  /** The record i of cluster d is the entry of a chain, and not in that chain. */
  ghost predicate EntryOf(ft: Kind, s: Vol, chain: seq<nat>, d: nat, i: nat)
  {
    && Valid(ft, s) && Chained(ft, s, chain) && Used(s, d) && d !in chain
    && i < |Cell(s, d)| && Cell(s, d)[i].first == FirstOf(chain)
  }

  /** The first k clusters of the chain are where they belong, before ffc. */
  ghost predicate Moving(ft: Kind, s: Vol, chain: seq<nat>, d: nat, i: nat, v: Vol, ch: seq<nat>, k: nat, ffc: nat)
  {
    && EntryOf(ft, s, chain, d, i)
    && Chained(ft, v, ch) && |ch| == |chain| && k <= |ch| && ch[k..] == chain[k..]
    && Cells(v, ch) == Cells(s, chain) && Frame(s, v, InChain(chain), InChain(ch), {d})
    && Cell(v, d) == Cell(s, d)[i := Cell(s, d)[i].(first := FirstOf(ch))]
    && (forall j :: 0 <= j < k ==> ch[j] < ffc) && Packed(v, ffc)
  }

  lemma {:induction false} MovingStart(ft: Kind, s: Vol, chain: seq<nat>, d: nat, i: nat, ffc: nat)
    requires EntryOf(ft, s, chain, d, i) && Packed(s, ffc)
    ensures Moving(ft, s, chain, d, i, s, chain, 0, ffc)
  {
    forall c | c in InChain(chain) ensures Used(s, c) {
      var j :| 0 <= j < |chain| && chain[j] == c;
      ChainUsed(ft, s, chain, j);
    }
    FrameSelf(s, InChain(chain), {d});
  }

  lemma {:induction false} MovingStay(ft: Kind, s: Vol, chain: seq<nat>, d: nat, i: nat, v: Vol, ch: seq<nat>,
                                      k: nat, ffc: nat)
    requires Moving(ft, s, chain, d, i, v, ch, k, ffc) && k < |ch| && ch[k] <= ffc && !Used(v, ffc)
    ensures Moving(ft, s, chain, d, i, v, ch, k + 1, ffc)
  {
    ChainUsed(ft, v, ch, k);
    assert ch[k + 1..] == ch[k..][1..] && chain[k + 1..] == chain[k..][1..];
  }

  /** The volume after the cluster at k has moved to f, with the record changed if it is the first one. */
  ghost function Placed(v: Vol, d: nat, i: nat, ch: seq<nat>, k: nat, f: nat): Vol
    requires k < |ch| && forall j :: 0 <= j < |ch| ==> ch[j] < |v.fat|
    requires f < |v.fat| == |v.data| && d < |v.data| && d != f && i < |v.data[d]|
  {
    if k == 0 then WithFirst(Moved(v, ch, k, f), d, i, f) else Moved(v, ch, k, f)
  }

  /** Naming another first cluster changes one record only. */
  lemma {:induction false} WithFirstFrame(ft: Kind, v: Vol, d: nat, i: nat, f: nat, chain: seq<nat>, s: set<nat>)
    requires |v.fat| == |v.data| && d < |v.data| && i < |v.data[d]| && d !in chain
    requires forall c :: c in s ==> Used(v, c)
    ensures var w := WithFirst(v, d, i, f);
      && Frame(v, w, s, s, {d}) && Cell(w, d) == Cell(v, d)[i := Cell(v, d)[i].(first := f)]
      && Cells(w, chain) == Cells(v, chain) && (Chained(ft, v, chain) ==> Chained(ft, w, chain))
  {
    var w := WithFirst(v, d, i, f);
    assert forall c :: Next(w, c) == Next(v, c) && (c != d ==> Cell(w, c) == Cell(v, c));
    assert Cells(w, chain) == Cells(v, chain);
  }

  lemma {:induction false} MoreTouched(v: Vol, w: Vol, a: set<nat>, b: set<nat>, t: set<nat>, s: set<nat>)
    requires Frame(v, w, a, b, t) && t <= s
    ensures Frame(v, w, a, b, s)
  {
  }

  lemma {:induction false} PlacedFrame(ft: Kind, v: Vol, d: nat, i: nat, ch: seq<nat>, k: nat, f: nat)
    requires Movable(ft, v, ch, k, f) && d < |v.data| && i < |v.data[d]| && Used(v, d) && d !in ch
    ensures var w, ch' := Placed(v, d, i, ch, k, f), ch[k := f];
      && Frame(v, w, InChain(ch), InChain(ch'), {d}) && Chained(ft, w, ch') && Cells(w, ch') == Cells(v, ch)
      && Cell(w, d) == if k == 0 then Cell(v, d)[i := Cell(v, d)[i].(first := f)] else Cell(v, d)
  {
    var m, ch' := Moved(v, ch, k, f), ch[k := f];
    MovedFrame(ft, v, ch, k, f);
    MoreTouched(v, m, InChain(ch), InChain(ch'), {}, {d});
    MovedChained(ft, v, ch, k, f);
    MovedCells(ft, v, ch, k, f);
    MovedEntries(ft, v, ch, k, f, d);
    if k == 0 {
      WithFirstFrame(ft, m, d, i, f, ch', InChain(ch'));
      FrameAgain(v, m, Placed(v, d, i, ch, k, f), InChain(ch), InChain(ch'), InChain(ch'), {d});
    }
  }

  lemma {:induction false} PlacedPacked(ft: Kind, v: Vol, d: nat, i: nat, ch: seq<nat>, k: nat, f: nat)
    requires Movable(ft, v, ch, k, f) && d < |v.data| && i < |v.data[d]| && d != f && ch[k] > f && Packed(v, f)
    ensures Packed(Placed(v, d, i, ch, k, f), f + 1)
  {
    var w := Placed(v, d, i, ch, k, f);
    forall c: nat | c < f + 1 ensures Used(w, c) {
      MovedEntries(ft, v, ch, k, f, c);
      ChainUsed(ft, v, ch, k);
      assert c < f ==> Used(v, c);
      assert Next(w, c) == Next(Moved(v, ch, k, f), c);
    }
    MovedEntries(ft, v, ch, k, f, ch[k]);
    assert !Used(w, ch[k]);
  }

  lemma {:induction false} MovingStep(ft: Kind, s: Vol, chain: seq<nat>, d: nat, i: nat, v: Vol, ch: seq<nat>,
                                      k: nat, f: nat)
    requires Moving(ft, s, chain, d, i, v, ch, k, f) && k < |ch| && ch[k] > f && !Used(v, f) && Movable(ft, v, ch, k, f)
    requires d < |v.data| && i < |v.data[d]| && d != f && Used(v, d) && d !in ch
    ensures Moving(ft, s, chain, d, i, Placed(v, d, i, ch, k, f), ch[k := f], k + 1, f + 1)
  {
    var w, ch' := Placed(v, d, i, ch, k, f), ch[k := f];
    PlacedFrame(ft, v, d, i, ch, k, f);
    PlacedPacked(ft, v, d, i, ch, k, f);
    FrameAgain(s, v, w, InChain(chain), InChain(ch), InChain(ch'), {d});
    assert ch'[k + 1..] == ch[k..][1..] && chain[k + 1..] == chain[k..][1..];
    FirstPlaced(s, v, w, d, i, ch, k, f);
    IsMoving(ft, s, chain, d, i, w, ch', k + 1, f + 1);
  }

  lemma {:induction false} FirstPlaced(s: Vol, v: Vol, w: Vol, d: nat, i: nat, ch: seq<nat>, k: nat, f: nat)
    requires k < |ch| && i < |Cell(s, d)| && Cell(v, d) == Cell(s, d)[i := Cell(s, d)[i].(first := FirstOf(ch))]
    requires Cell(w, d) == if k == 0 then Cell(v, d)[i := Cell(v, d)[i].(first := f)] else Cell(v, d)
    ensures Cell(w, d) == Cell(s, d)[i := Cell(s, d)[i].(first := FirstOf(ch[k := f]))]
  {
  }

  /** The parts of it. */
  lemma {:induction false} IsMoving(ft: Kind, s: Vol, chain: seq<nat>, d: nat, i: nat, v: Vol, ch: seq<nat>, k: nat,
                                    ffc: nat)
    requires EntryOf(ft, s, chain, d, i) && Chained(ft, v, ch) && |ch| == |chain| && k <= |ch| && ch[k..] == chain[k..]
    requires Cells(v, ch) == Cells(s, chain) && Frame(s, v, InChain(chain), InChain(ch), {d})
    requires Cell(v, d) == Cell(s, d)[i := Cell(s, d)[i].(first := FirstOf(ch))]
    requires (forall j :: 0 <= j < k ==> ch[j] < ffc) && Packed(v, ffc)
    ensures Moving(ft, s, chain, d, i, v, ch, k, ffc)
  {
  }

  /** What is needed to take a step follows. */
  lemma {:induction false} MovingReady(ft: Kind, s: Vol, chain: seq<nat>, d: nat, i: nat, v: Vol, ch: seq<nat>,
                                       k: nat, f: nat)
    requires Moving(ft, s, chain, d, i, v, ch, k, f) && !Used(v, f) && f < |v.fat|
    ensures d < |v.data| == |v.fat| == |s.fat| && i < |v.data[d]| && Used(v, d) && d !in ch && d != f && 2 <= f
    ensures Valid(ft, v) && (k < |ch| ==> Movable(ft, v, ch, k, f))
  {
    assert d in InChain(ch) ==> d in InChain(chain);
    assert Used(s, 0) && Used(s, 1);
    assert 0 !in chain && 1 !in chain && 0 !in ch && 1 !in ch;
    assert Used(v, 0) && Used(v, 1);
  }
}
