/** Compaction of the clusters of a volume, in place. */
module FatCompact {
  import opened FatVolume
  import opened FatMove
  import opened FatTree
  import opened FatWalk
  import opened FatTrace

  /** The part of a table entry that counts: the top four bits of a 32-bit entry are reserved. */
  function Entry32(ft: Kind, raw: nat): nat { if ft.Fat16? then raw else raw % 0x1000_0000 }

  /** One more than the greatest value of an entry. */
  function Top(ft: Kind): nat { if ft.Fat16? then 0x1_0000 else 0x1000_0000 }

  /** The reserved bits of a 32-bit entry. */
  function Reserved(raw: nat): nat { raw / 0x1000_0000 }

  class Volume {
    const ft: Kind
    const fat: array<nat>
    const data: array<seq<Record>>
    /** The first free cluster, as far as the compaction knows. */
    var ffc: nat
    /** What the two arrays say. */
    ghost var vol: Vol
    /** The reserved bits of the 32-bit entries, which stay as they are. */
    ghost const bits: seq<nat>

    constructor (ft: Kind, fat: array<nat>, data: array<seq<Record>>)
      requires fat.Length == data.Length && forall c :: 0 <= c < fat.Length ==> fat[c] < 0x1_0000_0000
      requires ft.Fat16? ==> forall c :: 0 <= c < fat.Length ==> fat[c] < 0x1_0000
      ensures this.ft == ft && this.fat == fat && this.data == data && ffc == 0 && Good()
    {
      this.ft, this.fat, this.data, ffc := ft, fat, data, 0;
      vol := Vol(seq(fat.Length, c requires 0 <= c < fat.Length reads fat => Entry32(ft, fat[c])), data[..]);
      bits := seq(fat.Length, c requires 0 <= c < fat.Length reads fat => Reserved(fat[c]));
    }

    ghost predicate Good()
      reads this, fat, data
    {
      && fat.Length == data.Length == |vol.fat| == |bits| && vol.data == data[..]
      && (forall c :: 0 <= c < fat.Length ==> vol.fat[c] == Entry32(ft, fat[c]) < Top(ft))
      && (ft.Fat32? ==> forall c :: 0 <= c < fat.Length ==> Reserved(fat[c]) == bits[c])
    }

    /** fat_read_fat_entry. */
    function ReadEntry(c: nat): (x: nat)
      reads this, fat, data
      requires Good() && c < |vol.fat|
      ensures x == Next(vol, c) && x < Top(ft)
    {
      Entry32(ft, fat[c])
    }

    /** fat_write_fat_entry. */
    method WriteEntry(c: nat, x: nat)
      requires Good() && c < |vol.fat| && x < Top(ft)
      modifies fat, this`vol
      ensures Good() && vol == old(vol).(fat := old(vol).fat[c := x])
    {
      if ft.Fat16? {
        fat[c] := x;
      } else {
        var kept := fat[c] / 0x1000_0000 * 0x1000_0000;
        fat[c] := kept + x;
      }
      vol := vol.(fat := vol.fat[c := x]);
    }

    method CopyCluster(to: nat, from: nat)
      requires Good() && to < |vol.data| && from < |vol.data|
      modifies data, this`vol
      ensures Good() && vol == old(vol).(data := old(vol).data[to := old(vol).data[from]])
    {
      data[to] := data[from];
      vol := vol.(data := vol.data[to := vol.data[from]]);
    }

    /** Record i of a cluster. */
    function ReadRecord(d: nat, i: nat): (r: Record)
      reads this, fat, data
      requires Good() && d < |vol.data| && i < |vol.data[d]|
      ensures r == vol.data[d][i]
    {
      data[d][i]
    }

    function RecordCount(d: nat): (k: nat)
      reads this, fat, data
      requires Good() && d < |vol.data|
      ensures k == |vol.data[d]|
    {
      |data[d]|
    }

    /** fat_set_first_cluster, for record i of a cluster. */
    method SetFirst(d: nat, i: nat, f: nat)
      requires Good() && d < |vol.data| && i < |vol.data[d]|
      modifies data, this`vol
      ensures Good() && vol == WithFirst(old(vol), d, i, f)
    {
      data[d] := data[d][i := data[d][i].(first := f)];
      vol := WithFirst(vol, d, i, f);
    }

    /** Go on to the next free cluster. */
    method AdvanceFree()
      requires Good() && Packed(vol, ffc)
      modifies this`ffc
      ensures Packed(vol, ffc) && ffc < |vol.fat| && !Used(vol, ffc) && old(ffc) <= ffc
    {
      while ReadEntry(ffc) != 0
        invariant Good() && Packed(vol, ffc) && ffc < |vol.fat| && old(ffc) <= ffc
        decreases |vol.fat| - ffc
      {
        ffc := ffc + 1;
      }
    }

    /** Move one cluster of the chain of an entry to the free cluster. */
    method MoveCluster(d: nat, i: nat, first: nat, clu: nat, next: nat, last: nat, ghost ch: seq<nat>, ghost k: nat)
      requires Good() && Movable(ft, vol, ch, k, ffc) && d < |vol.data| && d != ffc && i < |vol.data[d]|
      requires clu == ch[k] && next == Next(vol, clu) && next < Top(ft) && ffc < Top(ft)
      requires (clu == first <==> k == 0) && (k > 0 ==> last == ch[k - 1])
      modifies fat, data, this`ffc, this`vol
      ensures Good() && vol == Placed(old(vol), d, i, ch, k, old(ffc)) && ffc == old(ffc) + 1
    {
      CopyCluster(ffc, clu);
      if clu == first {
        SetFirst(d, i, ffc);
      } else {
        WriteEntry(last, ffc);
      }
      WriteEntry(ffc, next);
      WriteEntry(clu, 0);
      ffc := ffc + 1;
    }

    /** The cluster moves if it lies behind the free one; `at` is where it is then. */
    method PlaceOne(d: nat, i: nat, first: nat, clu: nat, next: nat, last: nat, ghost s: Vol, ghost chain: seq<nat>,
                    ghost ch: seq<nat>, ghost k: nat) returns (at: nat, ghost ch': seq<nat>)
      requires Good() && Moving(ft, s, chain, d, i, vol, ch, k, ffc)
      requires ffc < |vol.fat| <= Top(ft) && !Used(vol, ffc)
      requires Cursor(chain, ch, k, first, clu, last) && next == Next(vol, clu) && next < Top(ft)
      requires (vol, ch[..k]) in Traces(s, chain[..k])
      modifies fat, data, this`ffc, this`vol
      ensures Good() && old(ffc) <= ffc
      ensures Moving(ft, s, chain, d, i, vol, ch', After(chain, k), ffc)
      ensures Onward(ft, chain, ch', k, first, at, next)
      ensures (vol, ch'[..After(chain, k)]) in Traces(s, chain[..After(chain, k)])
    {
      at, ch' := clu, ch;
      if clu > ffc {
        TurnMoves(ft, s, chain, d, i, vol, ch, k, ffc, first, clu, last);
        TurnMovesTrace(ft, s, chain, d, i, vol, ch, k, ffc);
        at, ch' := ffc, ch[k := ffc];
        MoveCluster(d, i, first, clu, next, last, ch, k);
      } else {
        TurnStays(ft, s, chain, d, i, vol, ch, k, ffc, first, clu, last);
        TurnStaysTrace(ft, s, chain, d, i, vol, ch, k, ffc);
      }
    }

    /** One turn of the loop of fat_compact_walk_cb. */
    method MoveOne(d: nat, i: nat, first: nat, clu: nat, last: nat, ghost s: Vol, ghost chain: seq<nat>,
                   ghost ch: seq<nat>, ghost k: nat) returns (at: nat, next: nat, ghost ch': seq<nat>)
      requires Good() && Moving(ft, s, chain, d, i, vol, ch, k, ffc)
      requires Cursor(chain, ch, k, first, clu, last) && (vol, ch[..k]) in Traces(s, chain[..k])
      modifies fat, data, this`ffc, this`vol
      ensures Good() && old(ffc) <= ffc
      ensures Moving(ft, s, chain, d, i, vol, ch', After(chain, k), ffc)
      ensures Onward(ft, chain, ch', k, first, at, next)
      ensures (vol, ch'[..After(chain, k)]) in Traces(s, chain[..After(chain, k)])
    {
      ghost var v, was := vol, ffc;
      LinksOn(ft, s, chain, d, i, v, ch, k, ffc);
      next := ReadEntry(clu);
      AdvanceFree();
      MovingLater(ft, s, chain, d, i, v, ch, k, was, ffc);
      at, ch' := PlaceOne(d, i, first, clu, next, last, s, chain, ch, k);
    }

    /** The loop of fat_compact_walk_cb: move every cluster of the chain that lies behind a free one. */
    method MoveChain(d: nat, i: nat, ghost chain: seq<nat>) returns (ghost ch: seq<nat>)
      requires Good() && EntryOf(ft, vol, chain, d, i) && Packed(vol, ffc)
      modifies fat, data, this`ffc, this`vol
      ensures Good() && Moving(ft, old(vol), chain, d, i, vol, ch, |ch|, ffc) && old(ffc) <= ffc
      ensures (vol, ch) in Traces(old(vol), chain)
    {
      var r := ReadRecord(d, i);
      var first := r.first;
      var clu, last, going := first, 0, true;
      ghost var k := 0;
      ch := chain;
      MovingStart(ft, vol, chain, d, i, ffc);
      TraceNone(vol);
      assert chain[..0] == [];
      while going
        invariant Good() && Moving(ft, old(vol), chain, d, i, vol, ch, k, ffc) && old(ffc) <= ffc
        invariant if going then Cursor(chain, ch, k, first, clu, last) else k == |ch|
        invariant |ch| == |chain| && k <= |chain| && (vol, ch[..k]) in Traces(old(vol), chain[..k])
        decreases |chain| - k, going
      {
        last, clu, ch := MoveOne(d, i, first, clu, last, old(vol), chain, ch, k);
        going := !IsEnd(ft, clu);
        k := After(chain, k);
      }
      assert ch[..k] == ch && chain[..k] == chain;
    }

    /** fat_compact_walk_cb. */
    method CompactEntry(d: nat, i: nat, ghost n: Node) returns (ghost m: Node)
      requires Good() && Entry(ft, vol, n, d, i) && Cell(vol, d)[i].dir == n.dir && Packed(vol, ffc)
      modifies fat, data, this`ffc, this`vol
      ensures Good() && (vol, m, ffc) in Results(ft, old(vol), n, d, i) && old(ffc) <= ffc
      ensures (vol, Visit(m)) in Traces(old(vol), Visit(n))
      decreases n.kids, 5
    {
      ghost var s := vol;
      ghost var ch := MoveChain(d, i, n.chain);
      m := n.(chain := ch);
      ghost var v, f := vol, ffc;
      MovedRecord(ft, s, n, d, i, v, ch, f);
      var r := ReadRecord(d, i);
      if r.dir {
        DirectoryReady(ft, s, n, d, i, v, ch, f);
        ghost var st := Walk(r.first, m);
        DirDone(ft, s, n, d, i, v, m, f, vol, st.n, ffc);
        TracingEnd(ft, st);
        TraceEntry(s, n, v, ch, vol, st.n);
        m := st.n;
      } else {
        FileDone(ft, s, n, d, i, v, ch, f);
        TraceFile(s, n, v, ch);
      }
    }

    /** The stage of a walk is what the volume holds. */
    ghost predicate Staged(st: Stage)
      reads this, fat, data
    {
      Good() && vol == st.v && ffc == st.ffc
    }

    /** One record of a directory: true if it ends the directory. */
    method VisitRecord(cluster: nat, i: nat, ghost st: Stage, ghost k: nat) returns (stop: bool, ghost st': Stage)
      requires Staged(st) && st in Stages(ft, k, i) && cluster == st.n0.chain[k] && i < |Cell(st.v, cluster)|
      requires st in Tracing()
      modifies fat, data, this`ffc, this`vol
      ensures Staged(st') && Later(st, st') && |Cell(st'.v, cluster)| == |Cell(st.v, cluster)| && st' in Tracing()
      ensures if stop then st' in Ended(ft) else st' in Stages(ft, k, i + 1)
      decreases st.n0.kids, 1
    {
      OnCluster(ft, st, k, i);
      var r := ReadRecord(cluster, i);
      OnSkip(ft, st, k, i, r);
      stop, st' := false, st;
      if r.volume || r.mark.Available? {
        return;
      }
      if r.mark.Last? {
        stop := true;
        return;
      }
      if !r.mark.Dots? {
        OnEntry(ft, st, k, i, r);
        ghost var x := CompactEntry(cluster, i, st.n0.kids[st.m].node);
        OnDone(ft, st, k, i, vol, x, ffc);
        TracingNext(ft, st, k, i, vol, x, ffc);
        DoneSize(ft, st.v, st.n0.kids[st.m].node, cluster, i, vol, x, ffc);
        st' := Stage(st.s, st.n0, vol, With(st.n, st.m, x), st.m + 1, ffc);
      }
    }

    /** All records of one cluster of a directory. */
    method VisitCluster(cluster: nat, ghost st: Stage, ghost k: nat) returns (stop: bool, ghost st': Stage)
      requires Staged(st) && st in Stages(ft, k, 0) && cluster == st.n0.chain[k] && st in Tracing()
      modifies fat, data, this`ffc, this`vol
      ensures Staged(st') && Later(st, st') && st' in Tracing()
      ensures if stop || k + 1 == |st.n0.chain| then st' in Ended(ft) else st' in Stages(ft, k + 1, 0)
      decreases st.n0.kids, 2
    {
      OnCluster(ft, st, k, 0);
      var size := RecordCount(cluster);
      stop, st' := false, st;
      var i := 0;
      while i < size
        invariant i <= size == |Cell(st'.v, cluster)|
        invariant Staged(st') && Later(st, st') && st' in Stages(ft, k, i) && st' in Tracing()
      {
        stop, st' := VisitRecord(cluster, i, st', k);
        if stop {
          return;
        }
        i := i + 1;
      }
      OnCluster(ft, st', k, i);
      OnNext(ft, st', k, i);
    }

    /** The loop of fat_walk over the clusters of a directory. */
    method WalkClusters(start: nat, ghost st0: Stage) returns (ghost st: Stage)
      requires Staged(st0) && st0 in Stages(ft, 0, 0) && DirChain(ft, st0.s, st0.n0.chain) && start == st0.n0.chain[0]
      requires st0 in Tracing()
      modifies fat, data, this`ffc, this`vol
      ensures Staged(st) && Later(st0, st) && st in Ended(ft) && st in Tracing()
      decreases st0.n0.kids, 3
    {
      ghost var k := 0;
      st := st0;
      var cluster, stop := start, false;
      while true
        invariant Staged(st) && Later(st0, st) && st in Tracing()
        invariant st in Stages(ft, k, 0) && k < |st0.n0.chain| && cluster == st0.n0.chain[k]
        decreases |st0.n0.chain| - k
      {
        stop, st := VisitCluster(cluster, st, k);
        if stop {
          return;
        }
        OnLinks(ft, st, k);
        if cluster == 0 {
          return;
        }
        var val := ReadEntry(cluster);
        if IsEnd(ft, val) {
          return;
        }
        cluster := val;
        k := k + 1;
      }
    }

    /** fat_walk with the callback of the compaction, for a directory that starts at the given cluster. */
    method Walk(start: nat, ghost n0: Node) returns (ghost st: Stage)
      requires Good() && Valid(ft, vol) && Directory(ft, vol, n0) && Packed(vol, ffc)
      requires DirChain(ft, vol, n0.chain) && start == n0.chain[0]
      modifies fat, data, this`ffc, this`vol
      ensures Staged(st) && st.s == old(vol) && st.n0 == n0 && old(ffc) <= ffc && st in Ended(ft) && st in Tracing()
      decreases n0.kids, 4
    {
      OnStart(ft, vol, n0, ffc);
      TracingStart(vol, n0, ffc);
      st := WalkClusters(start, Stage(vol, n0, vol, n0, 0, ffc));
    }

    /** The search for a first free cluster among the first `count` ones. */
    method FindFree(count: nat)
      requires Good() && count <= |vol.fat| && exists c :: 0 <= c < |vol.fat| && !Used(vol, c)
      modifies this`ffc
      ensures Good() && Packed(vol, ffc) && ffc <= count && (ffc == count || !Used(vol, ffc))
    {
      ffc := 0;
      while ffc < count && ReadEntry(ffc) != 0
        invariant Good() && ffc <= count && forall c: nat :: c < ffc ==> Used(vol, c)
      {
        ffc := ffc + 1;
      }
    }

    /** fat_compact_clusters, for a root directory that starts at the given cluster.  The tree of the root is
        stored as before, what it does not reach is untouched, and used clusters end up before free ones if
        those at `from` or behind it are all reached.  Which clusters move is known beforehand. */
    method CompactClusters(count: nat, start: nat, ghost n0: Node) returns (ghost n: Node, ghost from: nat)
      requires Good() && Valid(ft, vol) && Directory(ft, vol, n0) && DirChain(ft, vol, n0.chain)
      requires start == n0.chain[0] && count <= |vol.fat| && exists c :: 0 <= c < |vol.fat| && !Used(vol, c)
      modifies fat, data, this`ffc, this`vol
      ensures Good() && Directory(ft, vol, n) && n.chain == n0.chain && Content(vol, n) == Content(old(vol), n0)
      ensures Frame(old(vol), vol, KidClusters(n0.kids), KidClusters(n.kids), InChain(n.chain))
      ensures FoundFree(old(vol), count, from)
      ensures Trace(old(vol), VisitKids(n0.kids), vol, VisitKids(n.kids))
      ensures Reaches(old(vol), n0, from) ==> Compact(vol)
    {
      FindFree(count);
      from := ffc;
      ghost var st := Walk(start, n0);
      n := st.n;
      EndedMeans(ft, st);
      EndedCompact(ft, st, from);
      TracingEnd(ft, st);
    }
  }

  /** The record of the entry names the chain where it is now. */
  lemma {:induction false} MovedRecord(ft: Kind, s: Vol, n: Node, d: nat, i: nat, v: Vol, ch: seq<nat>, ffc: nat)
    requires Moving(ft, s, n.chain, d, i, v, ch, |ch|, ffc)
    ensures d < |v.data| && i < |v.data[d]| && v.data[d][i] == Cell(s, d)[i].(first := FirstOf(ch))
  {
  }

  /** The variables of the loop, at position k of the chain; an empty chain starts at cluster 0. */
  ghost predicate Cursor(chain: seq<nat>, ch: seq<nat>, k: nat, first: nat, clu: nat, last: nat)
  {
    && |ch| == |chain| && first == FirstOf(chain)
    && (chain == [] ==> k == 0 && clu == 0)
    && (chain != [] ==> k < |ch| && clu == ch[k] && (k > 0 ==> last == ch[k - 1]))
  }

  ghost function After(chain: seq<nat>, k: nat): nat { if chain == [] then 0 else k + 1 }

  /** The variables are ready for the next turn, or the chain is at its end. */
  ghost predicate Onward(ft: Kind, chain: seq<nat>, ch: seq<nat>, k: nat, first: nat, at: nat, next: nat)
  {
    && (chain == [] ==> IsEnd(ft, next))
    && if IsEnd(ft, next) then After(chain, k) == |ch| else Cursor(chain, ch, After(chain, k), first, next, at)
  }

  lemma {:induction false} GoesOnward(ft: Kind, s: Vol, chain: seq<nat>, d: nat, i: nat, v: Vol, ch: seq<nat>, k: nat,
                                      ffc: nat, first: nat, clu: nat, last: nat, x: nat)
    requires Moving(ft, s, chain, d, i, v, ch, k, ffc) && Cursor(chain, ch, k, first, clu, last)
    ensures Onward(ft, chain, ch, k, first, clu, Next(v, clu))
    ensures ch != [] ==> Onward(ft, chain, ch[k := x], k, first, x, Next(v, clu))
  {
    LinksOn(ft, s, chain, d, i, v, ch, k, ffc);
  }

  lemma {:induction false} MovingLater(ft: Kind, s: Vol, chain: seq<nat>, d: nat, i: nat, v: Vol, ch: seq<nat>,
                                       k: nat, ffc: nat, ffc': nat)
    requires Moving(ft, s, chain, d, i, v, ch, k, ffc) && ffc <= ffc' && Packed(v, ffc')
    ensures Moving(ft, s, chain, d, i, v, ch, k, ffc')
  {
  }

  lemma {:induction false} TurnStays(ft: Kind, s: Vol, chain: seq<nat>, d: nat, i: nat, v: Vol, ch: seq<nat>, k: nat,
                                     f: nat, first: nat, clu: nat, last: nat)
    requires Moving(ft, s, chain, d, i, v, ch, k, f) && Cursor(chain, ch, k, first, clu, last)
    requires f < |v.fat| && !Used(v, f) && clu <= f
    ensures Moving(ft, s, chain, d, i, v, ch, After(chain, k), f) && Onward(ft, chain, ch, k, first, clu, Next(v, clu))
  {
    GoesOnward(ft, s, chain, d, i, v, ch, k, f, first, clu, last, f);
    if chain != [] { MovingStay(ft, s, chain, d, i, v, ch, k, f); }
  }

  lemma {:induction false} TurnMoves(ft: Kind, s: Vol, chain: seq<nat>, d: nat, i: nat, v: Vol, ch: seq<nat>, k: nat,
                                     f: nat, first: nat, clu: nat, last: nat)
    requires Moving(ft, s, chain, d, i, v, ch, k, f) && Cursor(chain, ch, k, first, clu, last)
    requires f < |v.fat| && !Used(v, f) && clu > f
    ensures Movable(ft, v, ch, k, f) && clu == ch[k] && (clu == first <==> k == 0)
    ensures k > 0 ==> last == ch[k - 1]
    ensures d < |v.data| && i < |v.data[d]| && d != f
    ensures Moving(ft, s, chain, d, i, Placed(v, d, i, ch, k, f), ch[k := f], After(chain, k), f + 1)
    ensures Onward(ft, chain, ch[k := f], k, first, f, Next(v, clu))
  {
    LinksOn(ft, s, chain, d, i, v, ch, k, f);
    MovingReady(ft, s, chain, d, i, v, ch, k, f);
    GoesOnward(ft, s, chain, d, i, v, ch, k, f, first, clu, last, f);
    MovingStep(ft, s, chain, d, i, v, ch, k, f);
  }

  lemma {:induction false} TurnStaysTrace(ft: Kind, s: Vol, chain: seq<nat>, d: nat, i: nat, v: Vol, ch: seq<nat>,
                                          k: nat, f: nat)
    requires Moving(ft, s, chain, d, i, v, ch, k, f) && (v, ch[..k]) in Traces(s, chain[..k])
    requires chain == [] ==> k == 0
    requires chain != [] ==> k < |ch| && ch[k] <= f
    ensures (v, ch[..After(chain, k)]) in Traces(s, chain[..After(chain, k)])
  {
    if chain != [] { ChainStays(s, chain, v, ch, k, f); }
  }

  lemma {:induction false} TurnMovesTrace(ft: Kind, s: Vol, chain: seq<nat>, d: nat, i: nat, v: Vol, ch: seq<nat>,
                                          k: nat, f: nat)
    requires Moving(ft, s, chain, d, i, v, ch, k, f) && (v, ch[..k]) in Traces(s, chain[..k])
    requires k < |ch| && ch[k] > f && Movable(ft, v, ch, k, f) && d < |v.data| && d != f && i < |v.data[d]|
    ensures (Placed(v, d, i, ch, k, f), ch[k := f][..After(chain, k)]) in Traces(s, chain[..After(chain, k)])
  {
    ChainMoves(ft, s, chain, v, d, i, ch, k, f);
  }

  /** Where the cluster at position k leads, and that only the first one is the one named by the record. */
  lemma {:induction false} LinksOn(ft: Kind, s: Vol, chain: seq<nat>, d: nat, i: nat, v: Vol, ch: seq<nat>, k: nat,
                                   ffc: nat)
    requires Moving(ft, s, chain, d, i, v, ch, k, ffc)
    ensures k < |ch| ==> ch[k] < |v.fat| && (ch[k] == FirstOf(chain) <==> k == 0)
    ensures k < |ch| - 1 ==> Next(v, ch[k]) == ch[k + 1] && !IsEnd(ft, ch[k + 1])
    ensures k == |ch| - 1 ==> IsEnd(ft, Next(v, ch[k]))
    ensures |v.fat| == |s.fat| && |v.fat| <= Top(ft) && 0 < |v.fat| && (ch == [] ==> IsEnd(ft, Next(v, 0)))
  {
    assert k < |ch| ==> ch[k] == ch[k..][0] && chain[k] == chain[k..][0];
    if ch == [] {
      assert Used(s, 0) && 0 !in InChain(chain);
    }
  }

  // ---------------------------------------------------------------- the result

  /** Where the search for a free cluster stops. */
  ghost predicate FoundFree(v: Vol, count: nat, from: nat)
  {
    from <= count && (forall c: nat :: c < from ==> Used(v, c)) && (from == count || !Used(v, from))
  }

  /** Every used cluster is before `from` or belongs to an entry. */
  ghost predicate Reaches(v: Vol, n: Node, from: nat)
  {
    forall c: nat :: Used(v, c) ==> c < from || c in KidClusters(n.kids)
  }

  /** No used cluster lies behind a free one. */
  ghost predicate Compact(v: Vol)
  {
    forall a: nat, b: nat :: Used(v, a) && !Used(v, b) ==> a < b
  }

  lemma {:induction false} EndedMeans(ft: Kind, st: Stage)
    requires st in Ended(ft)
    ensures Directory(ft, st.v, st.n) && st.n.chain == st.n0.chain && Content(st.v, st.n) == Content(st.s, st.n0)
    ensures Frame(st.s, st.v, KidClusters(st.n0.kids), KidClusters(st.n.kids), InChain(st.n.chain))
    ensures KidsBelow(st.n.kids, |st.n.kids|, st.ffc) && Packed(st.v, st.ffc)
  {
  }

  lemma {:induction false} EndedCompact(ft: Kind, st: Stage, from: nat)
    requires st in Ended(ft) && from <= st.ffc
    ensures Reaches(st.s, st.n0, from) ==> Compact(st.v)
  {
    EndedMeans(ft, st);
    if Reaches(st.s, st.n0, from) {
      forall a: nat | Used(st.v, a) ensures a < st.ffc {
        UsedBelow(st.s, st.n0, st.v, st.n, from, st.ffc, a);
      }
    }
  }

  lemma {:induction false} UsedBelow(s: Vol, n0: Node, v: Vol, n: Node, from: nat, ffc: nat, a: nat)
    requires Reaches(s, n0, from) && from <= ffc && Used(v, a)
    requires Frame(s, v, KidClusters(n0.kids), KidClusters(n.kids), InChain(n.chain))
    requires KidsBelow(n.kids, |n.kids|, ffc)
    ensures a < ffc
  {
    if a in KidClusters(n.kids) {
      var j :| 0 <= j < |n.kids| && a in Clusters(n.kids[j].node);
    }
  }
}
