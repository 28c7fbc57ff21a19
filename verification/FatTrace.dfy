/**
 Which clusters a compaction moves.  It reaches the clusters of the entries in a fixed order; the cluster c reached at
 some point moves exactly if more clusters below c were free at the start than clusters above c have been reached
 before.
*/
module FatTrace {
  import opened Basics
  import opened FatVolume
  import opened FatMove
  import opened FatTree
  import opened FatWalk

  /** The number of free clusters below c. */
  ghost function FreeBelow(v: Vol, c: nat): nat
  {
    if c == 0 then 0 else FreeBelow(v, c - 1) + One(!Used(v, c - 1))
  }

  /** The number of clusters of a list that lie above c. */
  ghost function Above(s: seq<nat>, c: nat): nat
  {
    if s == [] then 0 else Above(s[..|s| - 1], c) + One(s[|s| - 1] > c)
  }

  /** What is left of some free clusters when others want as many. */
  ghost function Left(free: nat, wanted: nat): nat { if free <= wanted then 0 else free - wanted }

  /** The cluster reached at step t stays where it is. */
  ghost predicate Stays(v: Vol, s: seq<nat>, t: nat)
    requires t < |s|
  {
    FreeBelow(v, s[t]) <= Above(s[..t], s[t])
  }

  /** The clusters s, reached in this order from the volume v on, are at s' now, in the volume w: which of them have
      moved, and how many free clusters are left below any other one. */
  ghost predicate Trace(v: Vol, s: seq<nat>, w: Vol, s': seq<nat>)
  {
    && |s'| == |s|
    && (forall t :: 0 <= t < |s| ==> MovesIff(v, s, s', t))
    && (forall c :: 0 <= c ==> FreeLeft(v, s, w, c))
  }

  ghost predicate MovesIff(v: Vol, s: seq<nat>, s': seq<nat>, t: nat)
    requires t < |s| == |s'|
  {
    s'[t] == s[t] <==> Stays(v, s, t)
  }

  ghost predicate FreeLeft(v: Vol, s: seq<nat>, w: Vol, c: nat)
  {
    c !in s ==> FreeBelow(w, c) == Left(FreeBelow(v, c), Above(s, c))
  }

  /** All outcomes. */
  ghost function Traces(v: Vol, s: seq<nat>): iset<(Vol, seq<nat>)>
  {
    iset r: (Vol, seq<nat>) | Trace(v, s, r.0, r.1)
  }

  // ---------------------------------------------------------------- one cluster

  lemma {:induction false} TraceNone(v: Vol)
    ensures (v, []) in Traces(v, [])
  {
  }

  lemma {:induction false} NoneBelow(v: Vol, f: nat, c: nat)
    requires Packed(v, f) && c <= f
    ensures FreeBelow(v, c) == 0
    decreases c
  {
    if c > 0 { NoneBelow(v, f, c - 1); }
  }

  lemma {:induction false} SomeBelow(v: Vol, f: nat, c: nat)
    requires f < c && !Used(v, f)
    ensures FreeBelow(v, c) > 0
    decreases c
  {
    if f < c - 1 { SomeBelow(v, f, c - 1); }
  }

  lemma {:induction false} AboveOne(x: nat, c: nat)
    ensures Above([x], c) == One(x > c) && Above([], c) == 0
  {
    assert [x][..0] == [];
  }

  lemma {:induction false} StaysOne(v: Vol, x: nat)
    ensures Stays(v, [x], 0) <==> FreeBelow(v, x) == 0
  {
    assert [x][..0] == [];
  }

  /** A cluster that does not lie behind a free one. */
  lemma {:induction false} TraceStay(v: Vol, f: nat, x: nat)
    requires Packed(v, f) && x <= f
    ensures (v, [x]) in Traces(v, [x])
  {
    NoneBelow(v, f, x);
    StaysOne(v, x);
    forall c: nat ensures FreeLeft(v, [x], v, c) {
      AboveOne(x, c);
      if c < x { NoneBelow(v, f, c); }
    }
  }

  /** Cluster x is free now and cluster f is not. */
  ghost predicate Swapped(v: Vol, w: Vol, x: nat, f: nat)
  {
    forall c: nat :: Used(w, c) <==> c == f || (c != x && Used(v, c))
  }

  lemma {:induction false} FreeSwapped(v: Vol, w: Vol, x: nat, f: nat, c: nat)
    requires Swapped(v, w, x, f) && !Used(v, f) && Used(v, x)
    ensures FreeBelow(w, c) + One(f < c) == FreeBelow(v, c) + One(x < c)
    decreases c
  {
    if c > 0 { FreeSwapped(v, w, x, f, c - 1); }
  }

  /** A cluster that moves to the first free one. */
  lemma {:induction false} TraceMove(v: Vol, w: Vol, f: nat, x: nat)
    requires Packed(v, f) && !Used(v, f) && f < x && Used(v, x) && Swapped(v, w, x, f)
    ensures (w, [f]) in Traces(v, [x])
  {
    SomeBelow(v, f, x);
    StaysOne(v, x);
    forall c: nat ensures FreeLeft(v, [x], w, c) {
      AboveOne(x, c);
      FreeSwapped(v, w, x, f, c);
      assert [x][0] == x;
      if c <= f { NoneBelow(v, f, c); } else { SomeBelow(v, f, c); }
    }
  }

  // ---------------------------------------------------------------- one after the other

  lemma {:induction false} AboveSum(a: seq<nat>, b: seq<nat>, c: nat)
    ensures Above(a + b, c) == Above(a, c) + Above(b, c)
  {
    if b == [] {
      assert a + b == a;
    } else {
      AboveSum(a, b[..|b| - 1], c);
      assert (a + b)[..|a + b| - 1] == a + b[..|b| - 1];
    }
  }

  lemma {:induction false} LeftTwice(free: nat, a: nat, b: nat)
    ensures Left(Left(free, a), b) == Left(free, a + b)
    ensures Left(free, a) <= b <==> free <= a + b
  {
  }

  /** Which of two lists step t is in. */
  lemma {:induction false} StaysFirst(v: Vol, a: seq<nat>, b: seq<nat>, t: nat)
    requires t < |a|
    ensures (a + b)[t] == a[t] && (Stays(v, a + b, t) <==> Stays(v, a, t))
  {
    assert (a + b)[..t] == a[..t];
  }

  lemma {:induction false} StaysSecond(v: Vol, w: Vol, a: seq<nat>, b: seq<nat>, t: nat)
    requires t < |b| && FreeBelow(w, b[t]) == Left(FreeBelow(v, b[t]), Above(a, b[t]))
    ensures (a + b)[|a| + t] == b[t] && (Stays(v, a + b, |a| + t) <==> Stays(w, b, t))
  {
    assert (a + b)[..|a| + t] == a + b[..t];
    AboveSum(a, b[..t], b[t]);
    LeftTwice(FreeBelow(v, b[t]), Above(a, b[t]), Above(b[..t], b[t]));
  }

  /** The parts of a trace, one at a time. */
  lemma {:induction false} TraceStep(v: Vol, s: seq<nat>, w: Vol, s': seq<nat>, t: nat)
    requires (w, s') in Traces(v, s) && t < |s|
    ensures |s'| == |s| && (s'[t] == s[t] <==> Stays(v, s, t))
  {
    assert MovesIff(v, s, s', t);
  }

  lemma {:induction false} TraceFree(v: Vol, s: seq<nat>, w: Vol, s': seq<nat>, c: nat)
    requires (w, s') in Traces(v, s) && c !in s
    ensures FreeBelow(w, c) == Left(FreeBelow(v, c), Above(s, c))
  {
    assert FreeLeft(v, s, w, c);
  }

  lemma {:induction false} TraceLength(v: Vol, s: seq<nat>, w: Vol, s': seq<nat>)
    requires (w, s') in Traces(v, s)
    ensures |s'| == |s|
  {
  }

  lemma {:induction false} IsTrace(v: Vol, s: seq<nat>, w: Vol, s': seq<nat>)
    requires |s'| == |s|
    requires forall t :: 0 <= t < |s| ==> MovesIff(v, s, s', t)
    requires forall c :: 0 <= c ==> FreeLeft(v, s, w, c)
    ensures (w, s') in Traces(v, s)
  {
  }

  lemma {:induction false} FirstStep(v: Vol, a: seq<nat>, w: Vol, a': seq<nat>, b: seq<nat>, b': seq<nat>, t: nat)
    requires (w, a') in Traces(v, a) && t < |a|
    ensures |a'| == |a| && (|b'| == |b| ==> MovesIff(v, a + b, a' + b', t))
  {
    TraceStep(v, a, w, a', t);
    StaysFirst(v, a, b, t);
    assert (a' + b')[t] == a'[t];
  }

  lemma {:induction false} SecondStep(v: Vol, a: seq<nat>, w: Vol, a': seq<nat>, b: seq<nat>, x: Vol, b': seq<nat>,
                                      u: nat)
    requires (w, a') in Traces(v, a) && (x, b') in Traces(w, b) && u < |b| && b[u] !in a
    ensures |a'| == |a| && |b'| == |b| && MovesIff(v, a + b, a' + b', |a| + u)
  {
    TraceLength(v, a, w, a');
    TraceStep(w, b, x, b', u);
    TraceFree(v, a, w, a', b[u]);
    StaysSecond(v, w, a, b, u);
    assert (a' + b')[|a'| + u] == b'[u];
  }

  lemma {:induction false} ThenFree(v: Vol, a: seq<nat>, w: Vol, a': seq<nat>, b: seq<nat>, x: Vol, b': seq<nat>,
                                    c: nat)
    requires (w, a') in Traces(v, a) && (x, b') in Traces(w, b)
    ensures FreeLeft(v, a + b, x, c)
  {
    if c !in a + b {
      assert c !in a && c !in b;
      TraceFree(v, a, w, a', c);
      TraceFree(w, b, x, b', c);
      AboveSum(a, b, c);
      LeftTwice(FreeBelow(v, c), Above(a, c), Above(b, c));
    }
  }

  lemma {:induction false} TraceThen(v: Vol, a: seq<nat>, w: Vol, a': seq<nat>, b: seq<nat>, x: Vol, b': seq<nat>)
    requires (w, a') in Traces(v, a) && (x, b') in Traces(w, b) && forall c :: c in b ==> c !in a
    ensures (x, a' + b') in Traces(v, a + b)
  {
    TraceLength(v, a, w, a');
    TraceLength(w, b, x, b');
    forall t | 0 <= t < |a + b| ensures MovesIff(v, a + b, a' + b', t) {
      if t < |a| {
        FirstStep(v, a, w, a', b, b', t);
      } else {
        assert b[t - |a|] in b;
        SecondStep(v, a, w, a', b, x, b', t - |a|);
      }
    }
    forall c | 0 <= c ensures FreeLeft(v, a + b, x, c) {
      ThenFree(v, a, w, a', b, x, b', c);
    }
    IsTrace(v, a + b, x, a' + b');
  }

  // ---------------------------------------------------------------- a chain

  lemma {:induction false} ChainThen(v: Vol, chain: seq<nat>, w: Vol, ch: seq<nat>, k: nat, x: Vol, at: nat)
    requires k < |ch| == |chain| && chain[k] !in chain[..k]
    requires (w, ch[..k]) in Traces(v, chain[..k]) && (x, [at]) in Traces(w, [chain[k]])
    ensures (x, ch[k := at][..k + 1]) in Traces(v, chain[..k + 1])
  {
    TraceThen(v, chain[..k], w, ch[..k], [chain[k]], x, [at]);
    assert ch[k := at][..k + 1] == ch[..k] + [at] && chain[..k + 1] == chain[..k] + [chain[k]];
  }

  /** One turn of the loop over a chain, for a cluster that stays. */
  lemma {:induction false} ChainStays(v: Vol, chain: seq<nat>, w: Vol, ch: seq<nat>, k: nat, f: nat)
    requires k < |ch| == |chain| && ch[k..] == chain[k..] && NoDuplicates(chain) && Packed(w, f) && ch[k] <= f
    requires (w, ch[..k]) in Traces(v, chain[..k])
    ensures (w, ch[..k + 1]) in Traces(v, chain[..k + 1])
  {
    NextInChain(chain, ch, k);
    TraceStay(w, f, ch[k]);
    ChainThen(v, chain, w, ch, k, w, ch[k]);
    assert ch[k := ch[k]] == ch;
  }

  lemma {:induction false} NextInChain(chain: seq<nat>, ch: seq<nat>, k: nat)
    requires k < |ch| == |chain| && ch[k..] == chain[k..] && NoDuplicates(chain)
    ensures ch[k] == chain[k] && chain[k] !in chain[..k]
  {
    assert ch[k] == ch[k..][0] && chain[k] == chain[k..][0];
  }

  /** And for one that moves. */
  lemma {:induction false} ChainMoves(ft: Kind, v: Vol, chain: seq<nat>, w: Vol, d: nat, i: nat, ch: seq<nat>, k: nat,
                                      f: nat)
    requires k < |ch| == |chain| && ch[k..] == chain[k..] && NoDuplicates(chain) && Packed(w, f) && ch[k] > f
    requires Movable(ft, w, ch, k, f) && d < |w.data| && d != f && i < |w.data[d]|
    requires (w, ch[..k]) in Traces(v, chain[..k])
    ensures (Placed(w, d, i, ch, k, f), ch[k := f][..k + 1]) in Traces(v, chain[..k + 1])
  {
    var x := Placed(w, d, i, ch, k, f);
    NextInChain(chain, ch, k);
    ChainUsed(ft, w, ch, k);
    PlacedSwapped(ft, w, d, i, ch, k, f);
    TraceMove(w, x, f, ch[k]);
    ChainThen(v, chain, w, ch, k, x, f);
  }

  lemma {:induction false} PlacedSwapped(ft: Kind, v: Vol, d: nat, i: nat, ch: seq<nat>, k: nat, f: nat)
    requires Movable(ft, v, ch, k, f) && d < |v.data| && d != f && i < |v.data[d]|
    ensures Swapped(v, Placed(v, d, i, ch, k, f), ch[k], f)
  {
    var w := Placed(v, d, i, ch, k, f);
    ChainUsed(ft, v, ch, k);
    if k > 0 { ChainUsed(ft, v, ch, k - 1); }
    forall c: nat ensures Used(w, c) <==> c == f || (c != ch[k] && Used(v, c)) {
      MovedEntries(ft, v, ch, k, f, c);
      assert Next(w, c) == Next(Moved(v, ch, k, f), c);
      assert ch[k] in ch;
    }
  }

  // ---------------------------------------------------------------- a tree

  /** The clusters of an entry in the order in which they are reached: its own chain, then its entries. */
  ghost function Visit(n: Node): seq<nat>
    decreases n.kids, 1
  {
    n.chain + VisitKids(n.kids)
  }

  ghost function VisitKids(kids: seq<Kid>): seq<nat>
    decreases kids, 0
  {
    if kids == [] then []
    else
      var last := kids[|kids| - 1];
      assert last.node < last;
      VisitKids(kids[..|kids| - 1]) + Visit(last.node)
  }

  lemma {:induction false} VisitIn(n: Node, c: nat)
    ensures c in Visit(n) <==> c in Clusters(n)
    decreases n.kids, 1
  {
    VisitKidsIn(n.kids, c);
    ClustersOf(n);
  }

  lemma {:induction false} VisitKidsIn(kids: seq<Kid>, c: nat)
    ensures c in VisitKids(kids) <==> c in KidClusters(kids)
    decreases kids, 0
  {
    if kids != [] {
      var k := |kids| - 1;
      assert kids[k].node < kids[k];
      VisitKidsIn(kids[..k], c);
      VisitIn(kids[k].node, c);
      LastKid(kids, c);
    }
  }

  lemma {:induction false} LastKid(kids: seq<Kid>, c: nat)
    requires kids != []
    ensures c in KidClusters(kids) <==> c in KidClusters(kids[..|kids| - 1]) || c in Clusters(kids[|kids| - 1].node)
  {
    var k := |kids| - 1;
    if c in KidClusters(kids) {
      var j :| 0 <= j < |kids| && c in Clusters(kids[j].node);
      assert j < k ==> kids[..k][j] == kids[j];
    }
    if c in KidClusters(kids[..k]) {
      var j :| 0 <= j < k && c in Clusters(kids[..k][j].node);
      assert kids[..k][j] == kids[j];
    }
  }

  /** An entry is its chain and what is below it. */
  lemma {:induction false} TraceEntry(s: Vol, n: Node, v: Vol, ch: seq<nat>, w: Vol, x: Node)
    requires Separate(n) && (v, ch) in Traces(s, n.chain)
    requires (w, VisitKids(x.kids)) in Traces(v, VisitKids(n.kids)) && x.chain == ch
    ensures (w, Visit(x)) in Traces(s, Visit(n))
  {
    forall c | c in VisitKids(n.kids) ensures c !in n.chain {
      VisitKidsIn(n.kids, c);
    }
    TraceThen(s, n.chain, v, ch, VisitKids(n.kids), w, VisitKids(x.kids));
  }

  lemma {:induction false} TraceFile(s: Vol, n: Node, v: Vol, ch: seq<nat>)
    requires n.kids == [] && (v, ch) in Traces(s, n.chain)
    ensures (v, Visit(n.(chain := ch))) in Traces(s, Visit(n))
  {
    assert Visit(n) == n.chain && Visit(n.(chain := ch)) == ch;
  }

  // ---------------------------------------------------------------- a walk

  /** The stages of a walk with the trace of the kids that are done. */
  ghost function Tracing(): iset<Stage>
  {
    iset st: Stage | st.m <= |st.n0.kids| && st.m <= |st.n.kids|
      && (st.v, VisitKids(st.n.kids[..st.m])) in Traces(st.s, VisitKids(st.n0.kids[..st.m]))
  }

  lemma {:induction false} IsTracing(st: Stage)
    ensures st in Tracing() <==>
      && st.m <= |st.n0.kids| && st.m <= |st.n.kids|
      && (st.v, VisitKids(st.n.kids[..st.m])) in Traces(st.s, VisitKids(st.n0.kids[..st.m]))
  {
  }

  lemma {:induction false} TracingStart(v: Vol, n: Node, ffc: nat)
    ensures Stage(v, n, v, n, 0, ffc) in Tracing()
  {
    TraceNone(v);
    assert n.kids[..0] == [];
  }

  lemma {:induction false} VisitMore(kids: seq<Kid>, m: nat)
    requires m < |kids|
    ensures VisitKids(kids[..m + 1]) == VisitKids(kids[..m]) + Visit(kids[m].node)
  {
    assert kids[..m + 1][..m] == kids[..m] && kids[..m + 1][m] == kids[m];
  }

  lemma {:induction false} TracingNext(ft: Kind, st: Stage, k: nat, i: nat, w: Vol, x: Node, ffc: nat)
    requires st in Stages(ft, k, i) && st in Tracing() && st.m < |st.n0.kids| && st.m < |st.n.kids|
    requires (w, Visit(x)) in Traces(st.v, Visit(st.n0.kids[st.m].node))
    ensures Stage(st.s, st.n0, w, With(st.n, st.m, x), st.m + 1, ffc) in Tracing()
  {
    var a, b, m := st.n0.kids, With(st.n, st.m, x).kids, st.m;
    IsTracing(st);
    KidsApart(ft, st, k, i);
    TraceThen(st.s, VisitKids(a[..m]), st.v, VisitKids(st.n.kids[..m]), Visit(a[m].node), w, Visit(x));
    assert b[..m] == st.n.kids[..m] && b[m].node == x;
    VisitMore(a, m);
    VisitMore(b, m);
    IsTracing(Stage(st.s, st.n0, w, With(st.n, m, x), m + 1, ffc));
  }

  lemma {:induction false} KidsApart(ft: Kind, st: Stage, k: nat, i: nat)
    requires st in Stages(ft, k, i) && st.m < |st.n0.kids|
    ensures forall c :: c in Visit(st.n0.kids[st.m].node) ==> c !in VisitKids(st.n0.kids[..st.m])
  {
    forall c | c in Visit(st.n0.kids[st.m].node) ensures c !in VisitKids(st.n0.kids[..st.m]) {
      SeparateKids(st.n0, st.m, c);
    }
  }

  lemma {:induction false} SeparateKids(n: Node, m: nat, c: nat)
    requires Separate(n) && m < |n.kids| && c in Visit(n.kids[m].node)
    ensures c !in VisitKids(n.kids[..m])
  {
    VisitIn(n.kids[m].node, c);
    VisitKidsIn(n.kids[..m], c);
    assert SeparateBelow(n);
  }

  /** At the end of a walk all kids are traced. */
  lemma {:induction false} TracingEnd(ft: Kind, st: Stage)
    requires st in Ended(ft) && st in Tracing()
    ensures (st.v, VisitKids(st.n.kids)) in Traces(st.s, VisitKids(st.n0.kids)) && st.n.chain == st.n0.chain
  {
    assert st.n.kids[..st.m] == st.n.kids && st.n0.kids[..st.m] == st.n0.kids;
  }
}
