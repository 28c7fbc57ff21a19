/** Compacting one entry of a directory after the other, as a change of the tree stored in the volume. */
module FatTree {
  import opened Basics
  import opened FatVolume
  import opened FatMove

  lemma {:induction false} StoredUsed(ft: Kind, v: Vol, n: Node, first: nat)
    requires Stored(ft, v, n, first)
    ensures forall c :: c in Clusters(n) ==> Used(v, c)
    decreases n
  {
    forall c | c in Clusters(n) ensures Used(v, c) {
      if c in n.chain {
        var j :| 0 <= j < |n.chain| && n.chain[j] == c;
        ChainUsed(ft, v, n.chain, j);
      } else {
        var j :| 0 <= j < |n.kids| && c in Clusters(n.kids[j].node);
        StoredUsed(ft, v, n.kids[j].node, RecordAt(v, n.chain, n.kids[j].k, n.kids[j].i).first);
      }
    }
  }

  /** No place is listed twice. */
  lemma {:induction false} EntriesDistinct(cells: seq<seq<Record>>, k: nat, i: nat, a: nat, b: nat)
    requires a < b < |Entries(cells, k, i)|
    ensures Entries(cells, k, i)[a] != Entries(cells, k, i)[b]
    decreases |cells| - k, if k < |cells| then |cells[k]| - i else 0
  {
    if i >= |cells[k]| {
      EntriesDistinct(cells, k + 1, 0, a, b);
    } else if !cells[k][i].volume && cells[k][i].mark.Name? {
      var rest := Entries(cells, k, i + 1);
      assert Entries(cells, k, i) == [(k, i)] + rest;
      if a == 0 {
        EntriesBounds(cells, k, i + 1, rest[b - 1]);
      } else {
        EntriesDistinct(cells, k, i + 1, a - 1, b - 1);
      }
    } else {
      EntriesDistinct(cells, k, i + 1, a, b);
    }
  }

  // ---------------------------------------------------------------- one entry done

  /** The entry in record i of cluster d, with all below it, has been compacted. */
  ghost predicate EntryDone(ft: Kind, v: Vol, n: Node, d: nat, i: nat, w: Vol, m: Node, ffc: nat)
  {
    && d < |v.data| && i < |Cell(v, d)|
    && Stored(ft, w, m, FirstOf(m.chain)) && Separate(m) && m.dir == n.dir && Content(w, m) == Content(v, n)
    && Frame(v, w, Clusters(n), Clusters(m), {d})
    && Cell(w, d) == Cell(v, d)[i := Cell(v, d)[i].(first := FirstOf(m.chain))]
    && (forall c :: c in Clusters(m) ==> c < ffc) && Packed(w, ffc)
  }

  /** All results of compacting the entry. */
  ghost function Results(ft: Kind, v: Vol, n: Node, d: nat, i: nat): iset<(Vol, Node, nat)>
  {
    iset r: (Vol, Node, nat) | EntryDone(ft, v, n, d, i, r.0, r.1, r.2)
  }

  /** A directory whose clusters stay where they are. */
  ghost predicate Directory(ft: Kind, v: Vol, n: Node)
  {
    && n.dir && Listed(ft, v, n) && Separate(n) && NoDuplicates(n.chain)
    && (forall c :: c in n.chain ==> Used(v, c))
  }

  /** The place of kid j. */
  ghost predicate At(v: Vol, n: Node, j: nat, d: nat, i: nat)
  {
    j < |n.kids| && n.kids[j].k < |n.chain| && n.chain[n.kids[j].k] == d && n.kids[j].i == i && i < |Cell(v, d)|
  }

  ghost function With(n: Node, j: nat, m: Node): Node
    requires j < |n.kids|
  {
    n.(kids := n.kids[j := n.kids[j].(node := m)])
  }

  lemma {:induction false} KidPlace(ft: Kind, v: Vol, n: Node, j: nat)
    requires Directory(ft, v, n) && j < |n.kids|
    ensures n.kids[j].k < |n.chain| && n.kids[j].i < |Cell(v, n.chain[n.kids[j].k])|
    ensures var r := RecordAt(v, n.chain, n.kids[j].k, n.kids[j].i);
      Stored(ft, v, n.kids[j].node, r.first) && r == Cell(v, n.chain[n.kids[j].k])[n.kids[j].i]
      && r.dir == n.kids[j].node.dir && !r.volume && r.mark.Name?
    ensures n.chain[n.kids[j].k] !in Clusters(n.kids[j].node)
  {
    var cells := Cells(v, n.chain);
    var todo := Entries(cells, 0, 0);
    EntriesBounds(cells, 0, 0, todo[j]);
    KidIn(n, j);
    assert n.chain[n.kids[j].k] in n.chain;
  }

  /** The other kids stay as they are. */
  lemma {:induction false} OtherAgrees(ft: Kind, v: Vol, n: Node, j: nat, d: nat, i: nat, w: Vol, m: Node, ffc: nat,
                                       o: nat)
    requires Directory(ft, v, n) && At(v, n, j, d, i) && EntryDone(ft, v, n.kids[j].node, d, i, w, m, ffc)
    requires o < |n.kids| && o != j
    ensures Agree(v, w, Clusters(n.kids[o].node)) && Clusters(m) !! Clusters(n.kids[o].node)
    ensures forall c :: c in Clusters(n.kids[o].node) ==> Used(v, c)
  {
    var q := n.kids[o].node;
    KidPlace(ft, v, n, o);
    StoredUsed(ft, v, q, RecordAt(v, n.chain, n.kids[o].k, n.kids[o].i).first);
    KidIn(n, o);
    assert d in n.chain && d !in Clusters(q);
    assert Clusters(n.kids[j].node) !! Clusters(q) by { assert SeparateBelow(n); }
  }

  /** The records of the directory change in the one place only. */
  lemma {:induction false} DirCells(ft: Kind, v: Vol, n: Node, j: nat, d: nat, i: nat, w: Vol, m: Node, ffc: nat)
    requires Directory(ft, v, n) && At(v, n, j, d, i) && EntryDone(ft, v, n.kids[j].node, d, i, w, m, ffc)
    ensures var a, b, k := Cells(v, n.chain), Cells(w, n.chain), n.kids[j].k;
      && |a| == |b| && b == a[k := a[k][i := a[k][i].(first := FirstOf(m.chain))]]
    ensures forall c :: c in n.chain ==> Used(w, c) && c !in Clusters(m)
  {
    var a, b, k := Cells(v, n.chain), Cells(w, n.chain), n.kids[j].k;
    KidIn(n, j);
    forall q | 0 <= q < |n.chain| ensures q != k ==> b[q] == a[q] {
      var c := n.chain[q];
      assert c in n.chain && Used(v, c) && c !in Clusters(n.kids[j].node);
      assert q != k ==> c != d;
    }
    assert b == a[k := a[k][i := a[k][i].(first := FirstOf(m.chain))]];
    forall c | c in n.chain ensures Used(w, c) && c !in Clusters(m) {
      assert Used(v, c) && c !in Clusters(n.kids[j].node);
    }
  }

  lemma {:induction false} OneFirst(a: seq<seq<Record>>, k: nat, i: nat, f: nat)
    requires k < |a| && i < |a[k]|
    ensures var b := a[k := a[k][i := a[k][i].(first := f)]];
      && SamePlain(a, b) && Entries(b, 0, 0) == Entries(a, 0, 0)
      && ((k, i) in Entries(a, 0, 0) ==> Masked(b, Entries(b, 0, 0)) == Masked(a, Entries(a, 0, 0)))
  {
    var b := a[k := a[k][i := a[k][i].(first := f)]];
    EntriesSame(a, b, 0, 0);
    if (k, i) in Entries(a, 0, 0) {
      var x, y := Masked(a, Entries(a, 0, 0)), Masked(b, Entries(b, 0, 0));
      forall q | 0 <= q < |a| ensures x[q] == y[q] {
        assert forall p :: 0 <= p < |a[q]| ==> x[q][p] == y[q][p];
      }
      assert x == y;
    }
  }

  /** One kid of a directory has been compacted. */
  ghost predicate KidDone(ft: Kind, v: Vol, n: Node, j: nat, d: nat, i: nat, w: Vol, m: Node, ffc: nat)
  {
    Directory(ft, v, n) && At(v, n, j, d, i) && EntryDone(ft, v, n.kids[j].node, d, i, w, m, ffc)
  }

  lemma {:induction false} StepEntries(ft: Kind, v: Vol, n: Node, j: nat, d: nat, i: nat, w: Vol, m: Node, ffc: nat)
    requires KidDone(ft, v, n, j, d, i, w, m, ffc)
    ensures var a, b := Cells(v, n.chain), Cells(w, n.chain);
      SamePlain(a, b) && Entries(b, 0, 0) == Entries(a, 0, 0)
      && Masked(b, Entries(b, 0, 0)) == Masked(a, Entries(a, 0, 0))
  {
    DirCells(ft, v, n, j, d, i, w, m, ffc);
    var a, k := Cells(v, n.chain), n.kids[j].k;
    assert (k, i) == Entries(a, 0, 0)[j];
    OneFirst(a, k, i, FirstOf(m.chain));
  }

  lemma {:induction false} StepRecord(ft: Kind, v: Vol, n: Node, j: nat, d: nat, i: nat, w: Vol, m: Node, ffc: nat,
                                      o: nat)
    requires KidDone(ft, v, n, j, d, i, w, m, ffc) && o < |n.kids|
    ensures RecordAt(w, n.chain, n.kids[o].k, n.kids[o].i)
      == if o == j then RecordAt(v, n.chain, n.kids[o].k, n.kids[o].i).(first := FirstOf(m.chain))
         else RecordAt(v, n.chain, n.kids[o].k, n.kids[o].i)
  {
    var a, b := Cells(v, n.chain), Cells(w, n.chain);
    var p, q := n.kids[o].k, n.kids[o].i;
    KidPlace(ft, v, n, o);
    DirCells(ft, v, n, j, d, i, w, m, ffc);
    assert a[p] == Cell(v, n.chain[p]) && b[p] == Cell(w, n.chain[p]);
    if o != j {
      var todo := Entries(a, 0, 0);
      EntriesDistinct(a, 0, 0, if o < j then o else j, if o < j then j else o);
      assert todo[o] == (p, q) && todo[j] == (n.kids[j].k, i);
    }
  }

  lemma {:induction false} StepListed(ft: Kind, v: Vol, n: Node, j: nat, d: nat, i: nat, w: Vol, m: Node, ffc: nat)
    requires KidDone(ft, v, n, j, d, i, w, m, ffc)
    ensures Listed(ft, w, With(n, j, m))
  {
    var u := With(n, j, m);
    StepEntries(ft, v, n, j, d, i, w, m, ffc);
    forall o | 0 <= o < |u.kids|
      ensures var r := RecordAt(w, u.chain, u.kids[o].k, u.kids[o].i);
        r.dir == u.kids[o].node.dir && Stored(ft, w, u.kids[o].node, r.first)
    {
      StepRecord(ft, v, n, j, d, i, w, m, ffc, o);
      if o != j {
        OtherAgrees(ft, v, n, j, d, i, w, m, ffc, o);
        StoredFrame(ft, v, w, n.kids[o].node, RecordAt(v, n.chain, n.kids[o].k, n.kids[o].i).first);
      }
    }
  }

  lemma {:induction false} StepSeparate(ft: Kind, v: Vol, n: Node, j: nat, d: nat, i: nat, w: Vol, m: Node, ffc: nat)
    requires KidDone(ft, v, n, j, d, i, w, m, ffc)
    ensures Separate(With(n, j, m))
  {
    var u := With(n, j, m);
    StepSeparateBelow(ft, v, n, j, d, i, w, m, ffc);
    DirCells(ft, v, n, j, d, i, w, m, ffc);
    forall c | c in u.chain ensures c !in KidClusters(u.kids) {
      assert c !in KidClusters(n.kids);
      forall o | 0 <= o < |u.kids| ensures c !in Clusters(u.kids[o].node) {
        KidIn(n, o);
      }
    }
  }

  lemma {:induction false} StepSeparateBelow(ft: Kind, v: Vol, n: Node, j: nat, d: nat, i: nat, w: Vol, m: Node,
                                             ffc: nat)
    requires KidDone(ft, v, n, j, d, i, w, m, ffc)
    ensures SeparateBelow(With(n, j, m))
  {
    var u := With(n, j, m);
    assert SeparateBelow(n);
    forall o | 0 <= o < |u.kids| ensures Separate(u.kids[o].node) {
      assert o != j ==> u.kids[o] == n.kids[o];
    }
    forall a, b | 0 <= a < b < |u.kids| ensures Clusters(u.kids[a].node) !! Clusters(u.kids[b].node) {
      if a == j {
        OtherAgrees(ft, v, n, j, d, i, w, m, ffc, b);
      } else if b == j {
        OtherAgrees(ft, v, n, j, d, i, w, m, ffc, a);
      } else {
        assert u.kids[a] == n.kids[a] && u.kids[b] == n.kids[b];
      }
    }
  }

  lemma {:induction false} StepContent(ft: Kind, v: Vol, n: Node, j: nat, d: nat, i: nat, w: Vol, m: Node, ffc: nat)
    requires KidDone(ft, v, n, j, d, i, w, m, ffc)
    ensures Content(w, With(n, j, m)) == Content(v, n)
  {
    var u := With(n, j, m);
    StepEntries(ft, v, n, j, d, i, w, m, ffc);
    var a, b := Content(v, n).kids, Content(w, u).kids;
    forall o | 0 <= o < |n.kids| ensures a[o] == b[o] {
      if o != j {
        OtherAgrees(ft, v, n, j, d, i, w, m, ffc, o);
        ContentFrame(v, w, n.kids[o].node);
      }
    }
    assert a == b;
  }

  /** Clusters that stay may be counted on both sides. */
  lemma {:induction false} FrameWiden(v: Vol, w: Vol, a: set<nat>, b: set<nat>, t: set<nat>, o: set<nat>)
    requires Frame(v, w, a, b, t) && a !! o && forall c :: c in o ==> Used(v, c)
    ensures Frame(v, w, a + o, b + o, t)
  {
  }

  /** The clusters of all kids but one. */
  ghost function OtherClusters(kids: seq<Kid>, j: nat): set<nat>
  {
    set o, c | 0 <= o < |kids| && o != j && c in Clusters(kids[o].node) :: c
  }

  lemma {:induction false} SplitClusters(kids: seq<Kid>, j: nat)
    requires j < |kids|
    ensures KidClusters(kids) == Clusters(kids[j].node) + OtherClusters(kids, j)
  {
  }

  lemma {:induction false} OthersSame(kids: seq<Kid>, j: nat, x: Kid)
    requires j < |kids|
    ensures OtherClusters(kids[j := x], j) == OtherClusters(kids, j)
  {
    var a, b := OtherClusters(kids, j), OtherClusters(kids[j := x], j);
    forall c | c in a ensures c in b {
      var o :| 0 <= o < |kids| && o != j && c in Clusters(kids[o].node);
      assert kids[j := x][o] == kids[o];
    }
    forall c | c in b ensures c in a {
      var o :| 0 <= o < |kids| && o != j && c in Clusters(kids[j := x][o].node);
      assert kids[j := x][o] == kids[o];
    }
  }

  lemma {:induction false} OthersApart(ft: Kind, v: Vol, n: Node, j: nat)
    requires Directory(ft, v, n) && j < |n.kids|
    ensures Clusters(n.kids[j].node) !! OtherClusters(n.kids, j)
    ensures forall c :: c in OtherClusters(n.kids, j) ==> Used(v, c)
  {
    assert SeparateBelow(n);
    forall c | c in OtherClusters(n.kids, j) ensures Used(v, c) && c !in Clusters(n.kids[j].node) {
      var q :| 0 <= q < |n.kids| && q != j && c in Clusters(n.kids[q].node);
      assert Clusters(n.kids[if q < j then q else j].node) !! Clusters(n.kids[if q < j then j else q].node);
      KidPlace(ft, v, n, q);
      StoredUsed(ft, v, n.kids[q].node, RecordAt(v, n.chain, n.kids[q].k, n.kids[q].i).first);
    }
  }

  lemma {:induction false} StepFrame(ft: Kind, v: Vol, n: Node, j: nat, d: nat, i: nat, w: Vol, m: Node, ffc: nat)
    requires KidDone(ft, v, n, j, d, i, w, m, ffc)
    ensures Frame(v, w, KidClusters(n.kids), KidClusters(With(n, j, m).kids), InChain(n.chain))
  {
    var u := With(n, j, m);
    var o := OtherClusters(n.kids, j);
    SplitClusters(n.kids, j);
    SplitClusters(u.kids, j);
    OthersSame(n.kids, j, n.kids[j].(node := m));
    OthersApart(ft, v, n, j);
    FrameWiden(v, w, Clusters(n.kids[j].node), Clusters(m), {d}, o);
    assert d in InChain(n.chain);
    MoreTouched(v, w, KidClusters(n.kids), KidClusters(u.kids), {d}, InChain(n.chain));
  }

  // ---------------------------------------------------------------- a directory, kid by kid

  /** A walk has got to kid m. */
  ghost predicate Walking(ft: Kind, s: Vol, n0: Node, v: Vol, n: Node, m: nat, ffc: nat)
  {
    && Valid(ft, v) && Directory(ft, s, n0) && Directory(ft, v, n)
    && n.chain == n0.chain && |n.kids| == |n0.kids| && m <= |n.kids| && n.kids[m..] == n0.kids[m..]
    && Content(v, n) == Content(s, n0)
    && Frame(s, v, KidClusters(n0.kids), KidClusters(n.kids), InChain(n.chain))
    && KidsBelow(n.kids, m, ffc) && Packed(v, ffc)
  }

  /** The first m kids only use clusters before ffc. */
  ghost predicate KidsBelow(kids: seq<Kid>, m: nat, ffc: nat)
  {
    forall j, c :: 0 <= j < m && j < |kids| && c in Clusters(kids[j].node) ==> c < ffc
  }

  lemma {:induction false} WalkingStart(ft: Kind, s: Vol, n: Node, ffc: nat)
    requires Valid(ft, s) && Directory(ft, s, n) && Packed(s, ffc)
    ensures Walking(ft, s, n, s, n, 0, ffc)
  {
    forall c | c in KidClusters(n.kids) ensures Used(s, c) {
      var j :| 0 <= j < |n.kids| && c in Clusters(n.kids[j].node);
      KidPlace(ft, s, n, j);
      StoredUsed(ft, s, n.kids[j].node, RecordAt(s, n.chain, n.kids[j].k, n.kids[j].i).first);
    }
    FrameSelf(s, KidClusters(n.kids), InChain(n.chain));
  }

  lemma {:induction false} StepDirectory(ft: Kind, v: Vol, n: Node, j: nat, d: nat, i: nat, w: Vol, x: Node, ffc: nat)
    requires KidDone(ft, v, n, j, d, i, w, x, ffc)
    ensures Directory(ft, w, With(n, j, x))
  {
    StepListed(ft, v, n, j, d, i, w, x, ffc);
    StepSeparate(ft, v, n, j, d, i, w, x, ffc);
    DirCells(ft, v, n, j, d, i, w, x, ffc);
  }

  /** The first two clusters are not part of any tree. */
  lemma {:induction false} FrameValid(ft: Kind, v: Vol, w: Vol, a: set<nat>, b: set<nat>, t: set<nat>)
    requires Valid(ft, v) && Frame(v, w, a, b, t) && 0 !in a && 1 !in a
    ensures Valid(ft, w)
  {
    assert IsEnd(ft, Next(v, 0)) && Used(v, 0) && Used(v, 1);
    assert Next(w, 0) == Next(v, 0) && Next(w, 1) == Next(v, 1);
  }

  lemma {:induction false} StoredAboveOne(ft: Kind, v: Vol, n: Node, first: nat)
    requires Stored(ft, v, n, first)
    ensures 0 !in Clusters(n) && 1 !in Clusters(n)
    decreases n
  {
    forall c | c in Clusters(n) ensures c >= 2 {
      if c !in n.chain {
        var j :| 0 <= j < |n.kids| && c in Clusters(n.kids[j].node);
        StoredAboveOne(ft, v, n.kids[j].node, RecordAt(v, n.chain, n.kids[j].k, n.kids[j].i).first);
      }
    }
  }

  lemma {:induction false} WalkingStep(ft: Kind, s: Vol, n0: Node, v: Vol, n: Node, m: nat, ffc: nat,
                                       d: nat, i: nat, w: Vol, x: Node, ffc': nat)
    requires Walking(ft, s, n0, v, n, m, ffc) && KidDone(ft, v, n, m, d, i, w, x, ffc') && ffc <= ffc'
    ensures Walking(ft, s, n0, w, With(n, m, x), m + 1, ffc')
  {
    var u := With(n, m, x);
    StepDirectory(ft, v, n, m, d, i, w, x, ffc');
    StepContent(ft, v, n, m, d, i, w, x, ffc');
    StepFrame(ft, v, n, m, d, i, w, x, ffc');
    FrameAgain(s, v, w, KidClusters(n0.kids), KidClusters(n.kids), KidClusters(u.kids), InChain(n.chain));
    StepValid(ft, v, n, m, d, i, w, x, ffc');
    StepKids(n0.kids, n.kids, m, ffc, n.kids[m].(node := x), ffc');
  }

  lemma {:induction false} StepValid(ft: Kind, v: Vol, n: Node, j: nat, d: nat, i: nat, w: Vol, x: Node, ffc: nat)
    requires Valid(ft, v) && KidDone(ft, v, n, j, d, i, w, x, ffc)
    ensures Valid(ft, w)
  {
    KidPlace(ft, v, n, j);
    StoredAboveOne(ft, v, n.kids[j].node, RecordAt(v, n.chain, n.kids[j].k, n.kids[j].i).first);
    FrameValid(ft, v, w, Clusters(n.kids[j].node), Clusters(x), {d});
  }

  lemma {:induction false} StepKids(kids0: seq<Kid>, kids: seq<Kid>, m: nat, ffc: nat, x: Kid, ffc': nat)
    requires m < |kids| == |kids0| && kids[m..] == kids0[m..] && ffc <= ffc'
    requires KidsBelow(kids, m, ffc)
    requires forall c :: c in Clusters(x.node) ==> c < ffc'
    ensures kids[m := x][m + 1..] == kids0[m + 1..]
    ensures KidsBelow(kids[m := x], m + 1, ffc')
  {
    var u := kids[m := x];
    assert u[m + 1..] == kids[m..][1..] && kids0[m + 1..] == kids0[m..][1..];
    forall j, c | 0 <= j < m + 1 && j < |u| && c in Clusters(u[j].node) ensures c < ffc' {
      assert j < m ==> u[j] == kids[j];
    }
  }

  // ---------------------------------------------------------------- an entry: its chain, then what is below

  /** The chain of an entry has been moved; the kids below are as they were. */
  lemma {:induction false} MovedKid(ft: Kind, s: Vol, n: Node, d: nat, i: nat, v: Vol, ch: seq<nat>, ffc: nat, j: nat)
    requires Moving(ft, s, n.chain, d, i, v, ch, |ch|, ffc) && Stored(ft, s, n, FirstOf(n.chain)) && Separate(n)
    requires d !in Clusters(n) && j < |n.kids|
    ensures Agree(s, v, Clusters(n.kids[j].node)) && Clusters(n.kids[j].node) !! InChain(ch)
    ensures forall c :: c in Clusters(n.kids[j].node) ==> Used(s, c)
  {
    KidIn(n, j);
    StoredUsed(ft, s, n.kids[j].node, RecordAt(s, n.chain, n.kids[j].k, n.kids[j].i).first);
    forall c | c in Clusters(n.kids[j].node) ensures c !in n.chain && c != d && Used(s, c) {
      assert c in KidClusters(n.kids);
    }
  }

  lemma {:induction false} MovedStored(ft: Kind, s: Vol, n: Node, d: nat, i: nat, v: Vol, ch: seq<nat>, ffc: nat)
    requires Moving(ft, s, n.chain, d, i, v, ch, |ch|, ffc) && Stored(ft, s, n, FirstOf(n.chain)) && Separate(n)
    requires d !in Clusters(n)
    ensures Stored(ft, v, n.(chain := ch), FirstOf(ch))
  {
    var u := n.(chain := ch);
    forall j | 0 <= j < |n.kids|
      ensures var r := RecordAt(s, n.chain, n.kids[j].k, n.kids[j].i);
        RecordAt(v, ch, n.kids[j].k, n.kids[j].i) == r && Stored(ft, v, n.kids[j].node, r.first)
    {
      MovedKid(ft, s, n, d, i, v, ch, ffc, j);
      SameRecords(s, n.chain, v, ch, n.kids[j].k, n.kids[j].i);
      StoredFrame(ft, s, v, n.kids[j].node, RecordAt(s, n.chain, n.kids[j].k, n.kids[j].i).first);
    }
  }

  lemma {:induction false} SameRecords(s: Vol, chain: seq<nat>, v: Vol, ch: seq<nat>, k: nat, i: nat)
    requires |chain| == |ch| && Cells(s, chain) == Cells(v, ch)
    ensures RecordAt(s, chain, k, i) == RecordAt(v, ch, k, i)
  {
    if k < |chain| { assert Cells(s, chain)[k] == Cells(v, ch)[k]; }
  }

  lemma {:induction false} MovedContent(ft: Kind, s: Vol, n: Node, d: nat, i: nat, v: Vol, ch: seq<nat>, ffc: nat)
    requires Moving(ft, s, n.chain, d, i, v, ch, |ch|, ffc) && Stored(ft, s, n, FirstOf(n.chain)) && Separate(n)
    requires d !in Clusters(n)
    ensures Content(v, n.(chain := ch)) == Content(s, n)
  {
    var a, b := Content(s, n).kids, Content(v, n.(chain := ch)).kids;
    forall j | 0 <= j < |n.kids| ensures a[j] == b[j] {
      MovedKid(ft, s, n, d, i, v, ch, ffc, j);
      ContentFrame(s, v, n.kids[j].node);
    }
    assert a == b;
  }

  lemma {:induction false} MovedSeparate(ft: Kind, s: Vol, n: Node, d: nat, i: nat, v: Vol, ch: seq<nat>, ffc: nat)
    requires Moving(ft, s, n.chain, d, i, v, ch, |ch|, ffc) && Stored(ft, s, n, FirstOf(n.chain)) && Separate(n)
    requires d !in Clusters(n)
    ensures Separate(n.(chain := ch)) && InChain(n.chain) !! KidClusters(n.kids) && InChain(ch) !! KidClusters(n.kids)
    ensures forall c :: c in KidClusters(n.kids) ==> Used(s, c) && Used(v, c)
  {
    var u := n.(chain := ch);
    assert SeparateBelow(n);
    assert SeparateBelow(u);
    forall c | c in KidClusters(n.kids)
      ensures c !in InChain(ch) && Used(s, c) && c !in InChain(n.chain) && Used(v, c)
    {
      var j :| 0 <= j < |n.kids| && c in Clusters(n.kids[j].node);
      MovedKid(ft, s, n, d, i, v, ch, ffc, j);
    }
  }

  lemma {:induction false} ClustersOf(n: Node)
    ensures Clusters(n) == InChain(n.chain) + KidClusters(n.kids)
    ensures n.kids == [] ==> Clusters(n) == InChain(n.chain)
  {
  }

  /** What is asked of an entry before it is compacted. */
  ghost predicate Entry(ft: Kind, s: Vol, n: Node, d: nat, i: nat)
  {
    EntryOf(ft, s, n.chain, d, i) && Stored(ft, s, n, FirstOf(n.chain)) && Separate(n) && d !in Clusters(n)
  }

  lemma {:induction false} FileDone(ft: Kind, s: Vol, n: Node, d: nat, i: nat, v: Vol, ch: seq<nat>, ffc: nat)
    requires Entry(ft, s, n, d, i) && Moving(ft, s, n.chain, d, i, v, ch, |ch|, ffc) && !n.dir
    ensures (v, n.(chain := ch), ffc) in Results(ft, s, n, d, i)
  {
    var u := n.(chain := ch);
    MovedStored(ft, s, n, d, i, v, ch, ffc);
    MovedContent(ft, s, n, d, i, v, ch, ffc);
    MovedSeparate(ft, s, n, d, i, v, ch, ffc);
    ClustersOf(n);
    ClustersOf(u);
  }

  /** Once its clusters are in place, a directory can be walked. */
  lemma {:induction false} DirectoryReady(ft: Kind, s: Vol, n: Node, d: nat, i: nat, v: Vol, ch: seq<nat>, ffc: nat)
    requires Entry(ft, s, n, d, i) && Moving(ft, s, n.chain, d, i, v, ch, |ch|, ffc) && n.dir
    ensures Directory(ft, v, n.(chain := ch)) && Valid(ft, v)
  {
    MovedStored(ft, s, n, d, i, v, ch, ffc);
    MovedSeparate(ft, s, n, d, i, v, ch, ffc);
    StoredUsed(ft, v, n.(chain := ch), FirstOf(ch));
    ClustersOf(n.(chain := ch));
    FrameValid(ft, s, v, InChain(n.chain), InChain(ch), {d});
  }

  lemma {:induction false} WalkedStored(ft: Kind, v: Vol, u: Node, w: Vol, x: Node, ffc: nat)
    requires Stored(ft, v, u, FirstOf(u.chain)) && Walking(ft, v, u, w, x, |x.kids|, ffc)
    ensures Stored(ft, w, x, FirstOf(x.chain))
  {
    forall c | c in u.chain ensures Next(w, c) == Next(v, c) {
      assert c !in KidClusters(u.kids) && Used(v, c);
    }
    assert Chained(ft, w, x.chain);
  }

  lemma {:induction false} DirFrame(ft: Kind, s: Vol, n: Node, d: nat, i: nat, v: Vol, u: Node, ffc: nat,
                                    w: Vol, x: Node, ffc': nat)
    requires Entry(ft, s, n, d, i) && Moving(ft, s, n.chain, d, i, v, u.chain, |u.chain|, ffc)
    requires u == n.(chain := u.chain) && Walking(ft, v, u, w, x, |x.kids|, ffc')
    ensures Frame(s, w, Clusters(n), Clusters(x), {d}) && Cell(w, d) == Cell(v, d)
  {
    MovedSeparate(ft, s, n, d, i, v, u.chain, ffc);
    FrameJoin(s, v, w, InChain(n.chain), InChain(u.chain), {d}, KidClusters(u.kids), KidClusters(x.kids),
              InChain(u.chain));
    ClustersOf(n);
    ClustersOf(x);
    assert Used(v, d) && d !in KidClusters(u.kids) && d !in InChain(u.chain);
  }

  lemma {:induction false} DirDone(ft: Kind, s: Vol, n: Node, d: nat, i: nat, v: Vol, u: Node, ffc: nat,
                                   w: Vol, x: Node, ffc': nat)
    requires Entry(ft, s, n, d, i) && Moving(ft, s, n.chain, d, i, v, u.chain, |u.chain|, ffc)
    requires u == n.(chain := u.chain) && Walking(ft, v, u, w, x, |x.kids|, ffc') && ffc <= ffc'
    ensures (w, x, ffc') in Results(ft, s, n, d, i)
  {
    MovedStored(ft, s, n, d, i, v, u.chain, ffc);
    MovedContent(ft, s, n, d, i, v, u.chain, ffc);
    WalkedStored(ft, v, u, w, x, ffc');
    DirFrame(ft, s, n, d, i, v, u, ffc, w, x, ffc');
    AllBelow(x, ffc');
    InResults(ft, s, n, d, i, w, x, ffc');
  }

  lemma {:induction false} InResults(ft: Kind, v: Vol, n: Node, d: nat, i: nat, w: Vol, m: Node, ffc: nat)
    requires EntryDone(ft, v, n, d, i, w, m, ffc)
    ensures (w, m, ffc) in Results(ft, v, n, d, i)
  {
  }

  lemma {:induction false} AllBelow(x: Node, ffc: nat)
    requires KidsBelow(x.kids, |x.kids|, ffc) && forall j :: 0 <= j < |x.chain| ==> x.chain[j] < ffc
    ensures forall c :: c in Clusters(x) ==> c < ffc
  {
  }
}
