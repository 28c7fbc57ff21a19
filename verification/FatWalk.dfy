/** Where a walk over a directory is, and how one record after the other brings it on. */
module FatWalk {
  import opened FatVolume
  import opened FatMove
  import opened FatTree

  /** The clusters of a directory; cluster 0 is the root directory area. */
  ghost predicate DirChain(ft: Kind, v: Vol, chain: seq<nat>)
  {
    chain == [0] || (chain != [] && Chained(ft, v, chain))
  }

  /** The kids from m on are the entries from record i of cluster k on. */
  ghost predicate Here(v: Vol, n: Node, m: nat, k: nat, i: nat)
  {
    var todo := Entries(Cells(v, n.chain), 0, 0);
    m <= |todo| && Entries(Cells(v, n.chain), k, i) == todo[m..]
  }

  /** A walk of the directory n0, which is n by now, is at record i of cluster k. */
  ghost predicate Visiting(ft: Kind, s: Vol, n0: Node, v: Vol, n: Node, m: nat, ffc: nat, k: nat, i: nat)
  {
    && Walking(ft, s, n0, v, n, m, ffc) && Here(v, n, m, k, i)
    && k < |n.chain| && i <= |Cell(v, n.chain[k])|
  }

  lemma {:induction false} CellAt(v: Vol, chain: seq<nat>, k: nat)
    requires k < |chain|
    ensures |Cells(v, chain)| == |chain| && Cells(v, chain)[k] == Cell(v, chain[k])
  {
  }

  lemma {:induction false} VisitStart(ft: Kind, s: Vol, n: Node, ffc: nat)
    requires Valid(ft, s) && Directory(ft, s, n) && Packed(s, ffc) && n.chain != []
    ensures Visiting(ft, s, n, s, n, 0, ffc, 0, 0)
  {
    WalkingStart(ft, s, n, ffc);
  }

  /** A record that is not an entry. */
  lemma {:induction false} VisitSkip(ft: Kind, s: Vol, n0: Node, v: Vol, n: Node, m: nat, ffc: nat, k: nat, i: nat)
    requires Visiting(ft, s, n0, v, n, m, ffc, k, i) && i < |Cell(v, n.chain[k])|
    requires var r := Cell(v, n.chain[k])[i]; r.volume || r.mark.Available? || r.mark.Dots?
    ensures Visiting(ft, s, n0, v, n, m, ffc, k, i + 1)
  {
    CellAt(v, n.chain, k);
  }

  /** The record that ends the directory. */
  lemma {:induction false} VisitLast(ft: Kind, s: Vol, n0: Node, v: Vol, n: Node, m: nat, ffc: nat, k: nat, i: nat)
    requires Visiting(ft, s, n0, v, n, m, ffc, k, i) && i < |Cell(v, n.chain[k])|
    requires var r := Cell(v, n.chain[k])[i]; !r.volume && r.mark.Last?
    ensures m == |n.kids|
  {
    CellAt(v, n.chain, k);
    assert |Entries(Cells(v, n.chain), 0, 0)[m..]| == 0;
  }

  /** The end of a cluster. */
  lemma {:induction false} VisitNext(ft: Kind, s: Vol, n0: Node, v: Vol, n: Node, m: nat, ffc: nat, k: nat, i: nat)
    requires Visiting(ft, s, n0, v, n, m, ffc, k, i) && i == |Cell(v, n.chain[k])|
    ensures k + 1 < |n.chain| ==> Visiting(ft, s, n0, v, n, m, ffc, k + 1, 0)
    ensures k + 1 == |n.chain| ==> m == |n.kids|
  {
    HereNext(v, n, m, k, i);
  }

  lemma {:induction false} HereNext(v: Vol, n: Node, m: nat, k: nat, i: nat)
    requires Here(v, n, m, k, i) && k < |n.chain| && i == |Cell(v, n.chain[k])|
    ensures Here(v, n, m, k + 1, 0)
    ensures k + 1 == |n.chain| ==> m == |Entries(Cells(v, n.chain), 0, 0)|
  {
    CellAt(v, n.chain, k);
    if k + 1 == |n.chain| { assert |Entries(Cells(v, n.chain), 0, 0)[m..]| == 0; }
  }

  /** The next entry to come. */
  lemma {:induction false} HereEntry(v: Vol, n: Node, m: nat, k: nat, i: nat)
    requires Here(v, n, m, k, i) && k < |n.chain| && i < |Cell(v, n.chain[k])|
    requires var r := Cell(v, n.chain[k])[i]; !r.volume && r.mark.Name?
    ensures var todo := Entries(Cells(v, n.chain), 0, 0);
      m < |todo| && todo[m] == (k, i) && Entries(Cells(v, n.chain), k, i + 1) == todo[m + 1..]
  {
    var cells := Cells(v, n.chain);
    var todo := Entries(cells, 0, 0);
    CellAt(v, n.chain, k);
    assert todo[m..] == [(k, i)] + Entries(cells, k, i + 1);
    assert todo[m] == todo[m..][0] && todo[m + 1..] == todo[m..][1..];
  }

  /** An entry: it is kid m. */
  lemma {:induction false} VisitEntry(ft: Kind, s: Vol, n0: Node, v: Vol, n: Node, m: nat, ffc: nat, k: nat, i: nat)
    requires Visiting(ft, s, n0, v, n, m, ffc, k, i) && i < |Cell(v, n.chain[k])|
    requires var r := Cell(v, n.chain[k])[i]; !r.volume && r.mark.Name?
    ensures At(v, n, m, n.chain[k], i) && n.kids[m] == n0.kids[m]
    ensures Entry(ft, v, n.kids[m].node, n.chain[k], i)
    ensures Cell(v, n.chain[k])[i].dir == n.kids[m].node.dir
  {
    HereEntry(v, n, m, k, i);
    assert (n.kids[m].k, n.kids[m].i) == (k, i);
    assert n.kids[m] == n.kids[m..][0] && n0.kids[m] == n0.kids[m..][0];
    EntryReady(ft, v, n, m);
  }

  lemma {:induction false} EntryReady(ft: Kind, v: Vol, n: Node, m: nat)
    requires Valid(ft, v) && Directory(ft, v, n) && m < |n.kids|
    ensures n.kids[m].k < |n.chain|
    ensures Entry(ft, v, n.kids[m].node, n.chain[n.kids[m].k], n.kids[m].i)
    ensures RecordAt(v, n.chain, n.kids[m].k, n.kids[m].i).dir == n.kids[m].node.dir
  {
    KidPlace(ft, v, n, m);
    KidIn(n, m);
    ClustersOf(n.kids[m].node);
    assert SeparateBelow(n);
    assert n.chain[n.kids[m].k] in n.chain;
  }

  /** Once the entry is compacted, the walk goes on behind it. */
  lemma {:induction false} VisitDone(ft: Kind, s: Vol, n0: Node, v: Vol, n: Node, m: nat, ffc: nat, k: nat, i: nat,
                                     w: Vol, x: Node, ffc': nat)
    requires Visiting(ft, s, n0, v, n, m, ffc, k, i) && i < |Cell(v, n.chain[k])|
    requires var r := Cell(v, n.chain[k])[i]; !r.volume && r.mark.Name?
    requires m < |n.kids| && (w, x, ffc') in Results(ft, v, n.kids[m].node, n.chain[k], i) && ffc <= ffc'
    ensures Visiting(ft, s, n0, w, With(n, m, x), m + 1, ffc', k, i + 1)
  {
    var d := n.chain[k];
    VisitEntry(ft, s, n0, v, n, m, ffc, k, i);
    WalkingStep(ft, s, n0, v, n, m, ffc, d, i, w, x, ffc');
    HereDone(ft, v, n, m, k, i, w, x, ffc');
  }

  lemma {:induction false} HereDone(ft: Kind, v: Vol, n: Node, m: nat, k: nat, i: nat, w: Vol, x: Node, ffc: nat)
    requires Here(v, n, m, k, i) && k < |n.chain| && KidDone(ft, v, n, m, n.chain[k], i, w, x, ffc)
    requires var r := Cell(v, n.chain[k])[i]; !r.volume && r.mark.Name?
    ensures Here(w, With(n, m, x), m + 1, k, i + 1) && i + 1 <= |Cell(w, n.chain[k])|
  {
    HereEntry(v, n, m, k, i);
    StepEntries(ft, v, n, m, n.chain[k], i, w, x, ffc);
    EntriesSame(Cells(v, n.chain), Cells(w, n.chain), k, i + 1);
  }

  /** The links between the clusters of the directory do not change. */
  lemma {:induction false} DirLinks(ft: Kind, s: Vol, n0: Node, v: Vol, n: Node, m: nat, ffc: nat, k: nat)
    requires Walking(ft, s, n0, v, n, m, ffc) && DirChain(ft, s, n0.chain) && k < |n.chain|
    ensures n.chain[k] < |v.fat| == |v.data|
    ensures n.chain[k] == 0 ==> |n.chain| == 1
    ensures n.chain[k] != 0 && k + 1 < |n.chain| ==> Next(v, n.chain[k]) == n.chain[k + 1] && !IsEnd(ft, n.chain[k + 1])
    ensures n.chain[k] != 0 && k + 1 == |n.chain| ==> IsEnd(ft, Next(v, n.chain[k]))
  {
    var c := n.chain[k];
    assert c in n0.chain && Used(s, c) && c !in KidClusters(n0.kids);
  }

  // ---------------------------------------------------------------- the stage of a walk

  /** A walk of the directory n0, first stored in s: now it is n, stored in v, with m kids done. */
  datatype Stage = Stage(s: Vol, n0: Node, v: Vol, n: Node, m: nat, ffc: nat)

  /** The stages at record i of cluster k. */
  ghost function Stages(ft: Kind, k: nat, i: nat): iset<Stage>
  {
    iset st: Stage | Visiting(ft, st.s, st.n0, st.v, st.n, st.m, st.ffc, k, i)
  }

  /** The stages at the end of a walk. */
  ghost function Ended(ft: Kind): iset<Stage>
  {
    iset st: Stage | Walking(ft, st.s, st.n0, st.v, st.n, st.m, st.ffc) && st.m == |st.n.kids|
  }

  /** One stage after another of the same walk. */
  ghost predicate Later(st: Stage, st': Stage)
  {
    st'.s == st.s && st'.n0 == st.n0 && st.ffc <= st'.ffc
  }

  /** What a stage says of the clusters of the directory. */
  lemma {:induction false} OnCluster(ft: Kind, st: Stage, k: nat, i: nat)
    requires st in Stages(ft, k, i)
    ensures st.n.chain == st.n0.chain && k < |st.n0.chain| && st.n0.chain[k] < |st.v.data| == |st.v.fat|
    ensures i <= |st.v.data[st.n0.chain[k]]|
  {
    var c := st.n.chain[k];
    assert c in st.n.chain && Used(st.v, c);
  }

  /** A record is passed over. */
  lemma {:induction false} OnSkip(ft: Kind, st: Stage, k: nat, i: nat, r: Record)
    requires st in Stages(ft, k, i) && i < |Cell(st.v, st.n0.chain[k])| && r == Cell(st.v, st.n0.chain[k])[i]
    ensures r.volume || r.mark.Available? || r.mark.Dots? ==> st in Stages(ft, k, i + 1)
    ensures !r.volume && r.mark.Last? ==> st in Ended(ft)
  {
    OnCluster(ft, st, k, i);
    if r.volume || r.mark.Available? || r.mark.Dots? {
      VisitSkip(ft, st.s, st.n0, st.v, st.n, st.m, st.ffc, k, i);
    } else if r.mark.Last? {
      VisitLast(ft, st.s, st.n0, st.v, st.n, st.m, st.ffc, k, i);
    }
  }

  /** A record that names an entry. */
  lemma {:induction false} OnEntry(ft: Kind, st: Stage, k: nat, i: nat, r: Record)
    requires st in Stages(ft, k, i) && i < |Cell(st.v, st.n0.chain[k])| && r == Cell(st.v, st.n0.chain[k])[i]
    requires !r.volume && r.mark.Name?
    ensures st.m < |st.n0.kids| && Entry(ft, st.v, st.n0.kids[st.m].node, st.n0.chain[k], i)
    ensures r.dir == st.n0.kids[st.m].node.dir && Packed(st.v, st.ffc)
    ensures st.n.chain == st.n0.chain && st.m < |st.n.kids| && st.n.kids[st.m] == st.n0.kids[st.m]
  {
    OnCluster(ft, st, k, i);
    KidLeft(ft, st, k, i);
    VisitEntry(ft, st.s, st.n0, st.v, st.n, st.m, st.ffc, k, i);
  }

  lemma {:induction false} OnDone(ft: Kind, st: Stage, k: nat, i: nat, w: Vol, x: Node, ffc: nat)
    requires st in Stages(ft, k, i) && k < |st.n.chain| && i < |Cell(st.v, st.n.chain[k])|
    requires !Cell(st.v, st.n.chain[k])[i].volume && Cell(st.v, st.n.chain[k])[i].mark.Name?
    requires st.m < |st.n.kids| && st.ffc <= ffc
    requires (w, x, ffc) in Results(ft, st.v, st.n.kids[st.m].node, st.n.chain[k], i)
    ensures Stage(st.s, st.n0, w, With(st.n, st.m, x), st.m + 1, ffc) in Stages(ft, k, i + 1)
  {
    InStages(ft, st.s, st.n0, st.v, st.n, st.m, st.ffc, k, i);
    VisitDone(ft, st.s, st.n0, st.v, st.n, st.m, st.ffc, k, i, w, x, ffc);
    InStages(ft, st.s, st.n0, w, With(st.n, st.m, x), st.m + 1, ffc, k, i + 1);
  }

  lemma {:induction false} InStages(ft: Kind, s: Vol, n0: Node, v: Vol, n: Node, m: nat, ffc: nat, k: nat, i: nat)
    ensures Stage(s, n0, v, n, m, ffc) in Stages(ft, k, i) <==> Visiting(ft, s, n0, v, n, m, ffc, k, i)
  {
  }

  /** The kids still to come are as they were. */
  lemma {:induction false} KidLeft(ft: Kind, st: Stage, k: nat, i: nat)
    requires st in Stages(ft, k, i)
    ensures |st.n.kids| == |st.n0.kids| && (st.m < |st.n.kids| ==> st.n.kids[st.m] == st.n0.kids[st.m])
  {
    assert st.m < |st.n.kids| ==> st.n.kids[st.m] == st.n.kids[st.m..][0] && st.n0.kids[st.m] == st.n0.kids[st.m..][0];
  }

  lemma {:induction false} OnStart(ft: Kind, v: Vol, n: Node, ffc: nat)
    requires Valid(ft, v) && Directory(ft, v, n) && Packed(v, ffc) && n.chain != []
    ensures Stage(v, n, v, n, 0, ffc) in Stages(ft, 0, 0)
  {
    VisitStart(ft, v, n, ffc);
  }

  lemma {:induction false} DoneSize(ft: Kind, v: Vol, n: Node, d: nat, i: nat, w: Vol, x: Node, ffc: nat)
    requires (w, x, ffc) in Results(ft, v, n, d, i)
    ensures |Cell(w, d)| == |Cell(v, d)|
  {
  }

  /** The end of a cluster. */
  lemma {:induction false} OnNext(ft: Kind, st: Stage, k: nat, i: nat)
    requires st in Stages(ft, k, i) && i == |Cell(st.v, st.n0.chain[k])|
    ensures k + 1 < |st.n0.chain| ==> st in Stages(ft, k + 1, 0)
    ensures k + 1 == |st.n0.chain| ==> st in Ended(ft)
  {
    OnCluster(ft, st, k, i);
    VisitNext(ft, st.s, st.n0, st.v, st.n, st.m, st.ffc, k, i);
  }

  /** Where the clusters of the directory lead. */
  lemma {:induction false} OnLinks(ft: Kind, st: Stage, k: nat)
    requires DirChain(ft, st.s, st.n0.chain) && k < |st.n0.chain| && (st in Ended(ft) || st in Stages(ft, k + 1, 0))
    ensures var c := st.n0.chain[k];
      && c < |st.v.fat| == |st.v.data|
      && (c == 0 || IsEnd(ft, Next(st.v, c)) <==> k + 1 == |st.n0.chain|)
      && (k + 1 < |st.n0.chain| ==> Next(st.v, c) == st.n0.chain[k + 1])
  {
    DirLinks(ft, st.s, st.n0, st.v, st.n, st.m, st.ffc, k);
  }
}
