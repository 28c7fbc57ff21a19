/**
 A compacted volume as its readers see it: the files that the same paths lead to have the same bytes, and the records
 '.' and '..' still name the clusters they named before.
*/
module FatAfter {
  import opened FatVolume
  import opened FatMove
  import opened FatTree
  import opened FatRead
  import opened FatWalk
  import opened FatTrace

  // ---------------------------------------------------------------- the same path in two trees

  /** A path names the entry to go to in each directory. */
  ghost predicate HasPath(n: Node, path: seq<nat>)
    decreases path
  {
    path == [] || (path[0] < |n.kids| && HasPath(n.kids[path[0]].node, path[1..]))
  }

  ghost function Below(n: Node, path: seq<nat>): Node
    requires HasPath(n, path)
    decreases path
  {
    if path == [] then n else Below(n.kids[path[0]].node, path[1..])
  }

  /** The record of the last entry on a path. */
  ghost function RecordOf(v: Vol, n: Node, path: seq<nat>): Record
    requires path != [] && HasPath(n, path)
    decreases path
  {
    var kid := n.kids[path[0]];
    if |path| == 1 then RecordAt(v, n.chain, kid.k, kid.i) else RecordOf(v, kid.node, path[1..])
  }

  /** Equal contents have the same kinds of kids in the same places. */
  lemma {:induction false} SameKid(v: Vol, n0: Node, w: Vol, n: Node, j: nat)
    requires Content(v, n0) == Content(w, n) && j < |n0.kids|
    ensures |n.kids| == |n0.kids| && n.kids[j].k == n0.kids[j].k && n.kids[j].i == n0.kids[j].i
    ensures Content(v, n0.kids[j].node) == Content(w, n.kids[j].node)
  {
    var a, b := Content(v, n0).kids, Content(w, n).kids;
    assert |a| == |n0.kids| && |b| == |n.kids| && a[j] == b[j];
  }

  lemma {:induction false} SamePath(v: Vol, n0: Node, w: Vol, n: Node, path: seq<nat>)
    requires Content(v, n0) == Content(w, n) && HasPath(n0, path)
    ensures HasPath(n, path) && Content(v, Below(n0, path)) == Content(w, Below(n, path))
    decreases path
  {
    if path != [] {
      SameKid(v, n0, w, n, path[0]);
      SamePath(v, n0.kids[path[0]].node, w, n.kids[path[0]].node, path[1..]);
    }
  }

  // ---------------------------------------------------------------- the records of a directory

  /** A record of a directory as its content has it. */
  lemma {:induction false} MaskedAt(v: Vol, n: Node, k: nat, i: nat)
    requires n.dir && k < |n.chain| && i < |Cell(v, n.chain[k])|
    ensures var todo := Entries(Cells(v, n.chain), 0, 0); var r := RecordAt(v, n.chain, k, i);
      && |Content(v, n).cells| == |n.chain| && |Content(v, n).cells[k]| == |Cell(v, n.chain[k])|
      && Content(v, n).cells[k][i] == if (k, i) in todo then Plain(r) else r
  {
    assert Cells(v, n.chain)[k] == Cell(v, n.chain[k]);
  }

  /** Equal contents: every record of a directory is the same but for the first cluster that an entry names. */
  lemma {:induction false} SameRecord(v: Vol, n0: Node, w: Vol, n: Node, k: nat, i: nat)
    requires Content(v, n0) == Content(w, n) && n0.dir && k < |n0.chain| && i < |Cell(v, n0.chain[k])|
    ensures k < |n.chain| && i < |Cell(w, n.chain[k])|
    ensures Plain(RecordAt(v, n0.chain, k, i)) == Plain(RecordAt(w, n.chain, k, i))
    ensures RecordAt(v, n0.chain, k, i).mark.Dots? ==> RecordAt(v, n0.chain, k, i) == RecordAt(w, n.chain, k, i)
  {
    MaskedAt(v, n0, k, i);
    assert |Content(w, n).cells| == |n.chain|;
    assert Cells(w, n.chain)[k] == Cell(w, n.chain[k]);
    assert |Content(w, n).cells[k]| == |Cell(w, n.chain[k])|;
    MaskedAt(w, n, k, i);
    var a, b := Entries(Cells(v, n0.chain), 0, 0), Entries(Cells(w, n.chain), 0, 0);
    if (k, i) in a { EntriesBounds(Cells(v, n0.chain), 0, 0, (k, i)); }
    if (k, i) in b { EntriesBounds(Cells(w, n.chain), 0, 0, (k, i)); }
  }

  // ---------------------------------------------------------------- which directories move

  /** The step at which a compaction reaches the first cluster of the entry at the end of a path. */
  ghost function StepOf(kids: seq<Kid>, path: seq<nat>): nat
    requires path != [] && path[0] < |kids| && HasPath(kids[path[0]].node, path[1..])
    decreases path
  {
    var n := kids[path[0]].node;
    |VisitKids(kids[..path[0]])| + if |path| == 1 then 0 else |n.chain| + StepOf(n.kids, path[1..])
  }

  /** The clusters of kid j come after those of the kids before it. */
  lemma {:induction false} VisitFrom(kids: seq<Kid>, j: nat)
    requires j < |kids|
    ensures VisitKids(kids[..j]) + Visit(kids[j].node) <= VisitKids(kids)
    decreases |kids|
  {
    var k := |kids| - 1;
    if j < k {
      VisitFrom(kids[..k], j);
      assert kids[..k][..j] == kids[..j] && kids[..k][j] == kids[j];
    }
  }

  lemma {:induction false} StepIs(n: Node, path: seq<nat>)
    requires path != [] && HasPath(n, path) && Below(n, path).chain != []
    ensures var t := StepOf(n.kids, path); t < |VisitKids(n.kids)| && VisitKids(n.kids)[t] == Below(n, path).chain[0]
    decreases path
  {
    var m := n.kids[path[0]].node;
    var before := VisitKids(n.kids[..path[0]]);
    VisitFrom(n.kids, path[0]);
    if |path| == 1 {
      assert path[1..] == [] && Visit(m)[0] == m.chain[0];
      InPrefix(VisitKids(n.kids), before, Visit(m), 0);
    } else {
      StepIs(m, path[1..]);
      var u := StepOf(m.kids, path[1..]);
      assert Visit(m)[|m.chain| + u] == VisitKids(m.kids)[u];
      InPrefix(VisitKids(n.kids), before, Visit(m), |m.chain| + u);
    }
  }

  lemma {:induction false} InPrefix(s: seq<nat>, a: seq<nat>, b: seq<nat>, t: nat)
    requires a + b <= s && t < |b|
    ensures |a| + t < |s| && s[|a| + t] == b[t]
  {
    assert (a + b)[|a| + t] == b[t];
  }

  /** Equal contents have equally many clusters. */
  lemma {:induction false} SameLength(v: Vol, n0: Node, w: Vol, n: Node)
    requires Content(v, n0) == Content(w, n)
    ensures |n.chain| == |n0.chain| && |n.kids| == |n0.kids| && |Visit(n)| == |Visit(n0)|
    decreases n0, |n0.kids| + 1
  {
    assert |Content(v, n0).cells| == |n0.chain| && |Content(w, n).cells| == |n.chain|;
    assert |Content(v, n0).kids| == |n0.kids| && |Content(w, n).kids| == |n.kids|;
    SameKidsLength(v, n0, w, n, |n0.kids|);
    assert n0.kids[..|n0.kids|] == n0.kids && n.kids[..|n0.kids|] == n.kids;
  }

  lemma {:induction false} SameKidsLength(v: Vol, n0: Node, w: Vol, n: Node, m: nat)
    requires Content(v, n0) == Content(w, n) && m <= |n0.kids| == |n.kids|
    ensures |VisitKids(n.kids[..m])| == |VisitKids(n0.kids[..m])|
    decreases n0, m
  {
    if m > 0 {
      SameKidsLength(v, n0, w, n, m - 1);
      SameKid(v, n0, w, n, m - 1);
      SameLength(v, n0.kids[m - 1].node, w, n.kids[m - 1].node);
      VisitMore(n0.kids, m - 1);
      VisitMore(n.kids, m - 1);
    } else {
      assert n0.kids[..0] == [] && n.kids[..0] == [];
    }
  }

  lemma {:induction false} SameStep(v: Vol, n0: Node, w: Vol, n: Node, path: seq<nat>)
    requires Content(v, n0) == Content(w, n) && path != [] && HasPath(n0, path)
    ensures HasPath(n, path) && StepOf(n.kids, path) == StepOf(n0.kids, path)
    decreases path
  {
    SamePath(v, n0, w, n, path);
    SameKid(v, n0, w, n, path[0]);
    SameKidsLength(v, n0, w, n, path[0]);
    if |path| > 1 {
      var m0, m := n0.kids[path[0]].node, n.kids[path[0]].node;
      SameLength(v, m0, w, m);
      SameStep(v, m0, w, m, path[1..]);
    }
  }

  /** The first cluster of an entry stays where it is exactly if no more clusters below it were free at the start than
      clusters above it have been reached before it. */
  lemma {:induction false} FirstStays(v: Vol, n0: Node, w: Vol, n: Node, path: seq<nat>)
    requires Content(v, n0) == Content(w, n) && Trace(v, VisitKids(n0.kids), w, VisitKids(n.kids))
    requires path != [] && HasPath(n0, path) && Below(n0, path).chain != []
    ensures HasPath(n, path) && StepOf(n0.kids, path) < |VisitKids(n0.kids)|
    ensures FirstOf(Below(n, path).chain) == FirstOf(Below(n0, path).chain)
      <==> Stays(v, VisitKids(n0.kids), StepOf(n0.kids, path))
  {
    SamePath(v, n0, w, n, path);
    SameLength(v, Below(n0, path), w, Below(n, path));
    SameStep(v, n0, w, n, path);
    StepIs(n0, path);
    StepIs(n, path);
    assert MovesIff(v, VisitKids(n0.kids), VisitKids(n.kids), StepOf(n0.kids, path));
  }

  // ---------------------------------------------------------------- '.' and '..'

  /** Record i of cluster k of the directory at the end of a path is '.' or '..'. */
  ghost predicate IsDots(v: Vol, n: Node, path: seq<nat>, k: nat, i: nat)
  {
    && HasPath(n, path) && Below(n, path).dir && k < |Below(n, path).chain|
    && i < |Cell(v, Below(n, path).chain[k])| && RecordAt(v, Below(n, path).chain, k, i).mark.Dots?
  }

  /** The first cluster that the record names. */
  ghost function Named(v: Vol, n: Node, path: seq<nat>, k: nat, i: nat): nat
    requires HasPath(n, path)
  {
    RecordAt(v, Below(n, path).chain, k, i).first
  }

  /** Compaction does not touch these records. */
  lemma {:induction false} DotsStay(v: Vol, n0: Node, w: Vol, n: Node, path: seq<nat>, k: nat, i: nat)
    requires Content(v, n0) == Content(w, n) && IsDots(v, n0, path, k, i)
    ensures IsDots(w, n, path, k, i) && Named(w, n, path, k, i) == Named(v, n0, path, k, i)
  {
    SamePath(v, n0, w, n, path);
    SameRecord(v, Below(n0, path), w, Below(n, path), k, i);
  }

  /** So one that names a directory, itself for '.' and its parent for '..', still does so afterwards exactly if the
      first cluster of that directory stays, which can be told from the volume before. */
  lemma {:induction false} DotsRight(v: Vol, n0: Node, w: Vol, n: Node, path: seq<nat>, k: nat, i: nat, q: seq<nat>)
    requires Content(v, n0) == Content(w, n) && Trace(v, VisitKids(n0.kids), w, VisitKids(n.kids))
    requires IsDots(v, n0, path, k, i) && q != [] && HasPath(n0, q) && Below(n0, q).chain != []
    requires Named(v, n0, path, k, i) == FirstOf(Below(n0, q).chain)
    ensures HasPath(n, path) && HasPath(n, q) && StepOf(n0.kids, q) < |VisitKids(n0.kids)|
    ensures Named(w, n, path, k, i) == FirstOf(Below(n, q).chain) <==> Stays(v, VisitKids(n0.kids), StepOf(n0.kids, q))
  {
    DotsStay(v, n0, w, n, path, k, i);
    FirstStays(v, n0, w, n, q);
  }

  /** '.' of any directory below the root. */
  lemma {:induction false} DotRight(ft: Kind, v: Vol, n0: Node, w: Vol, n: Node, path: seq<nat>, k: nat, i: nat)
    requires Content(v, n0) == Content(w, n) && Trace(v, VisitKids(n0.kids), w, VisitKids(n.kids))
    requires path != [] && IsDots(v, n0, path, k, i)
    requires Named(v, n0, path, k, i) == FirstOf(Below(n0, path).chain)
    ensures HasPath(n, path) && StepOf(n0.kids, path) < |VisitKids(n0.kids)|
    ensures Named(w, n, path, k, i) == FirstOf(Below(n, path).chain)
      <==> Stays(v, VisitKids(n0.kids), StepOf(n0.kids, path))
  {
    DotsRight(v, n0, w, n, path, k, i, path);
  }

  /** '..' of a directory whose parent is not the root; the root does not move. */
  lemma {:induction false} DotDotRight(ft: Kind, v: Vol, n0: Node, w: Vol, n: Node, path: seq<nat>, k: nat, i: nat)
    requires Content(v, n0) == Content(w, n) && Trace(v, VisitKids(n0.kids), w, VisitKids(n.kids))
    requires |path| >= 2 && IsDots(v, n0, path, k, i) && Directory(ft, v, n0)
    requires HasPath(n0, path[..|path| - 1])
    requires Named(v, n0, path, k, i) == FirstOf(Below(n0, path[..|path| - 1]).chain)
    ensures var q := path[..|path| - 1];
      && HasPath(n, path) && HasPath(n, q) && StepOf(n0.kids, q) < |VisitKids(n0.kids)|
      && (Named(w, n, path, k, i) == FirstOf(Below(n, q).chain) <==> Stays(v, VisitKids(n0.kids), StepOf(n0.kids, q)))
  {
    var q := path[..|path| - 1];
    ParentOf(n0, path);
    PathStored(ft, v, n0, q);
    DotsRight(v, n0, w, n, path, k, i, q);
  }

  /** The parent of an entry has entries. */
  lemma {:induction false} ParentOf(n: Node, path: seq<nat>)
    requires path != [] && HasPath(n, path)
    ensures HasPath(n, path[..|path| - 1]) && Below(n, path[..|path| - 1]).kids != []
    decreases path
  {
    if |path| > 1 {
      ParentOf(n.kids[path[0]].node, path[1..]);
      assert path[..|path| - 1][1..] == path[1..][..|path| - 2];
    }
  }

  /** A 16-bit volume with cluster 2 free and one directory, at cluster 3. */
  ghost function SmallVolume(): Vol
  {
    Vol([0xFFF8, 0xFFFF, 0, 0xFFFF], [[Record(false, Name, true, 3, 0)], [], [], [Record(false, Dots, true, 3, 0)]])
  }

  ghost function SmallTree(): Node { Node([0], true, [Kid(0, 0, Node([3], true, []))]) }

  lemma {:induction false} SmallDirectory()
    ensures Stored(Fat16, SmallVolume(), Node([3], true, []), 3)
    ensures Entries(Cells(SmallVolume(), [0]), 0, 0) == [(0, 0)]
  {
    var v := SmallVolume();
    var a, b := Cells(v, [0]), Cells(v, [3]);
    assert a == [v.data[0]] && b == [v.data[3]];
    assert Entries(b, 0, 1) == Entries(b, 1, 0) == [];
    assert Entries(b, 0, 0) == Entries(b, 0, 1);
    assert Entries(a, 0, 1) == Entries(a, 1, 0) == [];
    assert Entries(a, 0, 0) == [(0, 0)] + Entries(a, 0, 1);
  }

  lemma {:induction false} SmallListed()
    ensures Listed(Fat16, SmallVolume(), SmallTree()) && Separate(SmallTree())
  {
    var v, n := SmallVolume(), SmallTree();
    SmallDirectory();
    assert RecordAt(v, n.chain, 0, 0) == v.data[0][0];
    assert Separate(n.kids[0].node);
  }

  lemma {:induction false} SmallUsed()
    ensures Valid(Fat16, SmallVolume()) && !Used(SmallVolume(), 2) && Used(SmallVolume(), 0)
  {
  }

  lemma {:induction false} SmallDots()
    ensures IsDots(SmallVolume(), SmallTree(), [0], 0, 0) && Named(SmallVolume(), SmallTree(), [0], 0, 0) == 3
  {
    var n := SmallTree();
    assert [0][1..] == [] && HasPath(n, [0]) && Below(n, [0]) == n.kids[0].node;
  }

  /** It can be compacted. */
  lemma {:induction false} SmallReady()
    ensures Valid(Fat16, SmallVolume()) && Directory(Fat16, SmallVolume(), SmallTree())
    ensures DirChain(Fat16, SmallVolume(), SmallTree().chain) && !Used(SmallVolume(), 2)
  {
    SmallListed();
    SmallUsed();
  }

  /** Afterwards '.' of the directory names a cluster that is not its first one. */
  lemma {:induction false} SmallDotWrong(w: Vol, n: Node)
    requires Content(SmallVolume(), SmallTree()) == Content(w, n)
    requires Trace(SmallVolume(), VisitKids(SmallTree().kids), w, VisitKids(n.kids))
    ensures HasPath(n, [0]) && Named(w, n, [0], 0, 0) == 3 != FirstOf(Below(n, [0]).chain)
  {
    var v, n0 := SmallVolume(), SmallTree();
    SmallDots();
    assert [0][1..] == [] && Below(n0, [0]) == n0.kids[0].node;
    DotsStay(v, n0, w, n, [0], 0, 0);
    DotRight(Fat16, v, n0, w, n, [0], 0, 0);
    assert VisitKids(n0.kids[..0]) == [];
    assert StepOf(n0.kids, [0]) == 0;
    StepIs(n0, [0]);
    assert FreeBelow(v, 3) >= 1;
    assert VisitKids(n0.kids)[..0] == [];
  }

  // ---------------------------------------------------------------- the bytes of a file

  /** The bytes of some records, given those of one. */
  ghost function Encoded(enc: Record -> seq<Byte>, s: seq<Record>): seq<Byte>
  {
    if s == [] then [] else enc(s[0]) + Encoded(enc, s[1..])
  }

  /** The disk is the volume in bytes. */
  ghost predicate OnDisk(ft: Kind, v: Vol, d: Disk, enc: Record -> seq<Byte>)
  {
    && ValidDisk(d) && d.ft == ft && d.fat == v.fat && |d.data| == |v.data|
    && forall c :: 2 <= c < |v.data| ==> d.data[c] == Encoded(enc, v.data[c])
  }

  /** The file of a record; its size is in the part of the record that compaction does not touch. */
  ghost function FileOf(r: Record, sizeOf: int -> nat): File { File(r.first, sizeOf(r.rest), r.dir) }

  lemma {:induction false} FlatSame(d: Disk, c: seq<nat>, e: Disk, b: seq<nat>)
    requires ValidDisk(d) && ValidDisk(e) && |c| == |b|
    requires forall j :: 0 <= j < |c| ==> c[j] < |d.data| && b[j] < |e.data| && d.data[c[j]] == e.data[b[j]]
    ensures Flat(d, c) == Flat(e, b)
  {
    if c != [] { FlatSame(d, c[..|c| - 1], e, b[..|b| - 1]); }
  }

  /** Files of equal content, in the records' terms, are equal in bytes. */
  lemma {:induction false} SameFile(ft: Kind, v: Vol, x: Node, w: Vol, y: Node, d: Disk, e: Disk,
                                    enc: Record -> seq<Byte>)
    requires Content(v, x) == Content(w, y) && !x.dir && Chained(ft, v, x.chain) && Chained(ft, w, y.chain)
    requires OnDisk(ft, v, d, enc) && OnDisk(ft, w, e, enc)
    ensures |x.chain| == |y.chain|
    ensures (forall j :: 0 <= j < |x.chain| ==> x.chain[j] < |d.data|)
    ensures (forall j :: 0 <= j < |y.chain| ==> y.chain[j] < |e.data|)
    ensures Flat(d, x.chain) == Flat(e, y.chain)
  {
    var a, b := Cells(v, x.chain), Cells(w, y.chain);
    assert |a| == |x.chain| && |b| == |y.chain| && a == b;
    forall j | 0 <= j < |x.chain| ensures d.data[x.chain[j]] == e.data[y.chain[j]] { assert a[j] == b[j]; }
    FlatSame(d, x.chain, e, y.chain);
  }

  /** The tree below an entry is stored where its record says. */
  lemma {:induction false} PathStored(ft: Kind, v: Vol, n: Node, path: seq<nat>)
    requires n.dir && Listed(ft, v, n) && path != [] && HasPath(n, path)
    ensures Stored(ft, v, Below(n, path), RecordOf(v, n, path).first)
    ensures RecordOf(v, n, path).dir == Below(n, path).dir
    decreases path
  {
    var kid := n.kids[path[0]];
    if |path| > 1 {
      assert HasPath(kid.node, path[1..]) && path[1] < |kid.node.kids|;
      PathStored(ft, v, kid.node, path[1..]);
    } else {
      assert path[1..] == [];
    }
  }

  /** The record at the end of a path differs at most in the first cluster. */
  lemma {:induction false} PathRecord(ft: Kind, v: Vol, n0: Node, w: Vol, n: Node, path: seq<nat>)
    requires Content(v, n0) == Content(w, n) && n0.dir && Listed(ft, v, n0) && path != [] && HasPath(n0, path)
    ensures HasPath(n, path) && Plain(RecordOf(v, n0, path)) == Plain(RecordOf(w, n, path))
    decreases path
  {
    SamePath(v, n0, w, n, path);
    SameKid(v, n0, w, n, path[0]);
    var kid := n0.kids[path[0]];
    if |path| > 1 {
      assert HasPath(kid.node, path[1..]) && path[1] < |kid.node.kids|;
      PathRecord(ft, v, kid.node, w, n.kids[path[0]].node, path[1..]);
    } else {
      var cells := Cells(v, n0.chain);
      EntriesBounds(cells, 0, 0, (kid.k, kid.i));
      assert cells[kid.k] == Cell(v, n0.chain[kid.k]);
      SameRecord(v, n0, w, n, kid.k, kid.i);
    }
  }

  /** Reading a file after compaction gives the bytes it had before: its record has the same size and names the new
      chain, and the file is the same sequence of bytes.  The two trees are those before and after
      fat_compact_clusters. */
  lemma {:induction false} SameBytes(ft: Kind, v: Vol, n0: Node, w: Vol, n: Node, path: seq<nat>, d: Disk, e: Disk,
                                     enc: Record -> seq<Byte>, sizeOf: int -> nat)
    requires Directory(ft, v, n0) && Directory(ft, w, n) && Content(v, n0) == Content(w, n)
    requires path != [] && HasPath(n0, path) && !Below(n0, path).dir && d.cs == e.cs
    requires OnDisk(ft, v, d, enc) && OnDisk(ft, w, e, enc)
    requires HasChain(d, FileOf(RecordOf(v, n0, path), sizeOf), Below(n0, path).chain)
    ensures HasPath(n, path) && HasChain(e, FileOf(RecordOf(w, n, path), sizeOf), Below(n, path).chain)
    ensures FileBytes(e, FileOf(RecordOf(w, n, path), sizeOf), Below(n, path).chain)
         == FileBytes(d, FileOf(RecordOf(v, n0, path), sizeOf), Below(n0, path).chain)
  {
    SamePath(v, n0, w, n, path);
    PathStored(ft, v, n0, path);
    PathStored(ft, w, n, path);
    PathRecord(ft, v, n0, w, n, path);
    SameFile(ft, v, Below(n0, path), w, Below(n, path), d, e, enc);
    var f, g := FileOf(RecordOf(v, n0, path), sizeOf), FileOf(RecordOf(w, n, path), sizeOf);
    SameSize(RecordOf(v, n0, path), RecordOf(w, n, path), sizeOf);
    ChainOnDisk(ft, w, e, enc, Below(n, path).chain);
    SameSlice(d, f, Below(n0, path).chain, e, g, Below(n, path).chain);
  }

  lemma {:induction false} SameSize(p: Record, r: Record, sizeOf: int -> nat)
    requires Plain(p) == Plain(r)
    ensures FileOf(p, sizeOf).size == FileOf(r, sizeOf).size
  {
    assert Plain(p).rest == p.rest && Plain(r).rest == r.rest;
  }

  lemma {:induction false} ChainOnDisk(ft: Kind, v: Vol, d: Disk, enc: Record -> seq<Byte>, chain: seq<nat>)
    requires OnDisk(ft, v, d, enc) && Chained(ft, v, chain)
    ensures Chained(d.ft, Vol(d.fat, []), chain)
  {
  }

  lemma {:induction false} SameSlice(d: Disk, f: File, c: seq<nat>, e: Disk, g: File, b: seq<nat>)
    requires HasChain(d, f, c) && ValidDisk(e) && Chained(e.ft, Vol(e.fat, []), b) && Starts(b, g.first)
    requires g.size == f.size && |b| == |c| && e.cs == d.cs && Flat(d, c) == Flat(e, b)
    ensures HasChain(e, g, b) && FileBytes(e, g, b) == FileBytes(d, f, c)
  {
  }
}
