/**
 A FAT volume as a value: the allocation table and the data of every cluster, as directory records.  What it
 means for a tree of files and directories to be stored in a volume, and what such a tree holds.
*/
module FatVolume {
  import opened Basics

  datatype Kind = Fat16 | Fat32

  /** What the first bytes of the name of a record say. */
  datatype Mark = Last | Available | Dots | Name

  /** Thirty-two bytes of a cluster: as a directory record its attributes and first cluster, and the rest. */
  datatype Record = Record(volume: bool, mark: Mark, dir: bool, first: nat, rest: int)

  /** Cluster 0 stands for the root directory area of a 16-bit volume. */
  datatype Vol = Vol(fat: seq<nat>, data: seq<seq<Record>>)

  /** fat_is_end_of_clusterchain. */
  predicate IsEnd(ft: Kind, x: nat)
  {
    if ft.Fat16? then x >= 0xFFF8 else x >= 0x0FFFFFF0 && x != 0x0FFFFFF7
  }

  /** Cluster numbers are below the values with a meaning of their own. */
  function Limit(ft: Kind): nat { if ft.Fat16? then 0xFFF7 else 0x0FFFFFF0 }

  ghost predicate Valid(ft: Kind, v: Vol)
  {
    && 2 <= |v.fat| <= Limit(ft) && |v.data| == |v.fat|
    && IsEnd(ft, v.fat[0]) && v.fat[1] != 0
  }

  ghost function Next(v: Vol, c: nat): nat { if c < |v.fat| then v.fat[c] else 0 }

  ghost function Cell(v: Vol, c: nat): seq<Record> { if c < |v.data| then v.data[c] else [] }

  ghost predicate Used(v: Vol, c: nat) { Next(v, c) != 0 }

  // ---------------------------------------------------------------- chains

  /** Each cluster of the chain leads to the next, the last one ends it. */
  ghost predicate Chained(ft: Kind, v: Vol, chain: seq<nat>)
  {
    && (forall j :: 0 <= j < |chain| ==> 2 <= chain[j] < |v.fat|)
    && (forall j :: 0 <= j < |chain| - 1 ==> Next(v, chain[j]) == chain[j + 1])
    && (chain != [] ==> IsEnd(ft, Next(v, chain[|chain| - 1])))
    && NoDuplicates(chain)
  }

  /** The first cluster that a record names; an empty file has none. */
  ghost predicate Starts(chain: seq<nat>, first: nat)
  {
    first == if chain == [] then 0 else chain[0]
  }

  ghost function Cells(v: Vol, chain: seq<nat>): seq<seq<Record>>
  {
    seq(|chain|, j requires 0 <= j < |chain| => Cell(v, chain[j]))
  }

  // ---------------------------------------------------------------- directories

  /** The records that a walk hands to its callback and that are not '.' or '..', as pairs of the number of
      the cluster in the chain and the number of the record in the cluster. */
  ghost function Entries(cells: seq<seq<Record>>, k: nat, i: nat): seq<(nat, nat)>
    decreases |cells| - k, if k < |cells| then |cells[k]| - i else 0
  {
    if k >= |cells| then []
    else if i >= |cells[k]| then Entries(cells, k + 1, 0)
    else
      var r := cells[k][i];
      if r.volume || r.mark.Available? then Entries(cells, k, i + 1)
      else if r.mark.Last? then []
      else if r.mark.Dots? then Entries(cells, k, i + 1)
      else [(k, i)] + Entries(cells, k, i + 1)
  }

  /** All but the first cluster. */
  ghost function Plain(r: Record): Record { r.(first := 0) }

  ghost predicate SamePlain(a: seq<seq<Record>>, b: seq<seq<Record>>)
  {
    && |a| == |b|
    && (forall k :: 0 <= k < |a| ==> |a[k]| == |b[k]|)
    && (forall k, i :: 0 <= k < |a| && 0 <= i < |a[k]| ==> Plain(a[k][i]) == Plain(b[k][i]))
  }

  lemma {:induction false} EntriesSame(a: seq<seq<Record>>, b: seq<seq<Record>>, k: nat, i: nat)
    requires SamePlain(a, b)
    ensures Entries(a, k, i) == Entries(b, k, i)
    decreases |a| - k, if k < |a| then |a[k]| - i else 0
  {
    if k < |a| {
      if i >= |a[k]| {
        EntriesSame(a, b, k + 1, 0);
      } else {
        assert Plain(a[k][i]) == Plain(b[k][i]);
        EntriesSame(a, b, k, i + 1);
      }
    }
  }

  lemma {:induction false} EntriesBounds(cells: seq<seq<Record>>, k: nat, i: nat, p: (nat, nat))
    requires p in Entries(cells, k, i)
    ensures p.0 < |cells| && p.1 < |cells[p.0]| && (p.0 > k || (p.0 == k && p.1 >= i))
    ensures var r := cells[p.0][p.1]; !r.volume && r.mark.Name?
    decreases |cells| - k, if k < |cells| then |cells[k]| - i else 0
  {
    if i >= |cells[k]| {
      EntriesBounds(cells, k + 1, 0, p);
    } else if p != (k, i) || cells[k][i].volume || !cells[k][i].mark.Name? {
      EntriesBounds(cells, k, i + 1, p);
    }
  }

  /** The data of a directory without the first clusters of its entries. */
  ghost function Masked(cells: seq<seq<Record>>, todo: seq<(nat, nat)>): seq<seq<Record>>
  {
    seq(|cells|, k requires 0 <= k < |cells| =>
      seq(|cells[k]|, i requires 0 <= i < |cells[k]| =>
        if (k, i) in todo then Plain(cells[k][i]) else cells[k][i]))
  }

  // ---------------------------------------------------------------- trees

  datatype Node = Node(chain: seq<nat>, dir: bool, kids: seq<Kid>)

  /** An entry of a directory: its place there, and what it names. */
  datatype Kid = Kid(k: nat, i: nat, node: Node)

  /** The clusters of a file or of a directory and all that is below it. */
  ghost function Clusters(n: Node): set<nat>
  {
    (set c | c in n.chain) + (set j, c | 0 <= j < |n.kids| && c in Clusters(n.kids[j].node) :: c)
  }

  ghost function KidClusters(kids: seq<Kid>): set<nat>
  {
    set j, c | 0 <= j < |kids| && c in Clusters(kids[j].node) :: c
  }

  /** No cluster is used twice. */
  ghost predicate Separate(n: Node)
    decreases n, 1
  {
    (forall c :: c in n.chain ==> c !in KidClusters(n.kids)) && SeparateBelow(n)
  }

  ghost predicate SeparateBelow(n: Node)
    decreases n, 0
  {
    && (forall j :: 0 <= j < |n.kids| ==> Separate(n.kids[j].node))
    && (forall i, j :: 0 <= i < j < |n.kids| ==> Clusters(n.kids[i].node) !! Clusters(n.kids[j].node))
  }

  /** The record of an entry. */
  ghost function RecordAt(v: Vol, chain: seq<nat>, k: nat, i: nat): Record
  {
    if k < |chain| && i < |Cell(v, chain[k])| then Cell(v, chain[k])[i] else Record(false, Last, false, 0, 0)
  }

  /** The tree is stored in the volume, from the given first cluster on. */
  ghost predicate Stored(ft: Kind, v: Vol, n: Node, first: nat)
    decreases n, 1
  {
    && Chained(ft, v, n.chain) && Starts(n.chain, first)
    && (n.dir ==> n.chain != [] && Listed(ft, v, n))
    && (!n.dir ==> n.kids == [])
  }

  /** The entries of a directory are its kids. */
  ghost predicate Listed(ft: Kind, v: Vol, n: Node)
    decreases n, 0
  {
    var todo := Entries(Cells(v, n.chain), 0, 0);
    && |todo| == |n.kids|
    && (forall j :: 0 <= j < |n.kids| ==> (n.kids[j].k, n.kids[j].i) == todo[j])
    && (forall j :: 0 <= j < |n.kids| ==> var r := RecordAt(v, n.chain, n.kids[j].k, n.kids[j].i);
          r.dir == n.kids[j].node.dir && Stored(ft, v, n.kids[j].node, r.first))
  }

  // ---------------------------------------------------------------- what a tree holds

  /** The data of a file, or the data of a directory and what its entries hold. */
  datatype Meaning = Meaning(dir: bool, cells: seq<seq<Record>>, kids: seq<(nat, nat, Meaning)>)

  ghost function Content(v: Vol, n: Node): Meaning
  {
    var cells := Cells(v, n.chain);
    Meaning(n.dir, if n.dir then Masked(cells, Entries(cells, 0, 0)) else cells,
      seq(|n.kids|, j requires 0 <= j < |n.kids| => (n.kids[j].k, n.kids[j].i, Content(v, n.kids[j].node))))
  }

  /** The two volumes agree on some clusters. */
  ghost predicate Agree(v: Vol, w: Vol, s: set<nat>)
  {
    |v.fat| == |w.fat| && forall c :: c in s ==> Next(v, c) == Next(w, c) && Cell(v, c) == Cell(w, c)
  }

  lemma {:induction false} AgreeChain(ft: Kind, v: Vol, w: Vol, chain: seq<nat>)
    requires Agree(v, w, set c | c in chain)
    ensures Cells(v, chain) == Cells(w, chain)
    ensures Chained(ft, v, chain) ==> Chained(ft, w, chain)
  {
    assert forall j :: 0 <= j < |chain| ==> chain[j] in (set c | c in chain);
  }

  lemma {:induction false} KidIn(n: Node, j: nat)
    requires j < |n.kids|
    ensures Clusters(n.kids[j].node) <= KidClusters(n.kids) <= Clusters(n)
    ensures Clusters(n) == (set c | c in n.chain) + KidClusters(n.kids)
  {
  }

  /** What agrees on the clusters of a tree holds the same there. */
  lemma {:induction false} ContentFrame(v: Vol, w: Vol, n: Node)
    requires Agree(v, w, Clusters(n))
    ensures Content(v, n) == Content(w, n)
    decreases n
  {
    AgreeChain(Fat16, v, w, n.chain);
    var a, b := Content(v, n).kids, Content(w, n).kids;
    forall j | 0 <= j < |n.kids| ensures a[j] == b[j] {
      KidIn(n, j);
      ContentFrame(v, w, n.kids[j].node);
    }
    assert a == b;
  }

  /** And it stores the tree, if the other does. */
  lemma {:induction false} StoredFrame(ft: Kind, v: Vol, w: Vol, n: Node, first: nat)
    requires Agree(v, w, Clusters(n)) && Stored(ft, v, n, first)
    ensures Stored(ft, w, n, first)
    decreases n
  {
    AgreeChain(ft, v, w, n.chain);
    RecordsAgree(v, w, n.chain);
    forall j | 0 <= j < |n.kids|
      ensures Stored(ft, w, n.kids[j].node, RecordAt(w, n.chain, n.kids[j].k, n.kids[j].i).first)
    {
      KidIn(n, j);
      StoredFrame(ft, v, w, n.kids[j].node, RecordAt(v, n.chain, n.kids[j].k, n.kids[j].i).first);
    }
  }

  lemma {:induction false} RecordsAgree(v: Vol, w: Vol, chain: seq<nat>)
    requires Cells(v, chain) == Cells(w, chain)
    ensures forall k, i :: RecordAt(v, chain, k, i) == RecordAt(w, chain, k, i)
  {
    forall k: nat | k < |chain| ensures Cell(v, chain[k]) == Cell(w, chain[k]) {
      assert Cells(v, chain)[k] == Cells(w, chain)[k];
    }
  }
}
