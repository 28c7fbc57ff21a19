/** Reading a file by its chain of clusters, and seeking in it, as on one flat sequence of bytes. */
module FatRead {
  import opened Basics
  import opened FatVolume
  import Powers

  type Byte = bv8

  const EPERM := 1
  const EISDIR := 21
  const INVALID_CLUSTER := 0xFFFF_FFFF

  /** A mounted volume: the allocation table and the bytes of every cluster, all of the same size. */
  datatype Disk = Disk(ft: Kind, cs: nat, fat: seq<nat>, data: seq<seq<Byte>>)

  /** The size and the first cluster in a directory entry. */
  datatype File = File(first: nat, size: nat, dir: bool)

  ghost predicate ValidDisk(d: Disk)
  {
    && 0 < d.cs && 2 <= |d.fat| == |d.data| <= Limit(d.ft)
    && forall c :: 0 <= c < |d.data| ==> |d.data[c]| == d.cs
  }

  /** The file has the given chain, which is long enough for its size. */
  ghost predicate HasChain(d: Disk, f: File, chain: seq<nat>)
  {
    && ValidDisk(d) && Chained(d.ft, Vol(d.fat, []), chain) && Starts(chain, f.first)
    && f.size <= Base(d.cs, |chain|)
  }

  // ---------------------------------------------------------------- the flat file

  /** Where cluster j of a chain starts. */
  ghost function Base(cs: nat, j: nat): nat
  {
    if j == 0 then 0 else Base(cs, j - 1) + cs
  }

  ghost function Flat(d: Disk, chain: seq<nat>): seq<Byte>
    requires ValidDisk(d) && forall j :: 0 <= j < |chain| ==> chain[j] < |d.data|
  {
    if chain == [] then [] else Flat(d, chain[..|chain| - 1]) + d.data[chain[|chain| - 1]]
  }

  ghost function FileBytes(d: Disk, f: File, chain: seq<nat>): (s: seq<Byte>)
    requires HasChain(d, f, chain)
    ensures |s| == f.size
  {
    FlatLength(d, chain);
    Flat(d, chain)[..f.size]
  }

  lemma {:induction false} FlatLength(d: Disk, chain: seq<nat>)
    requires ValidDisk(d) && forall j :: 0 <= j < |chain| ==> chain[j] < |d.data|
    ensures |Flat(d, chain)| == Base(d.cs, |chain|)
  {
    if chain != [] { FlatLength(d, chain[..|chain| - 1]); }
  }

  /** The bytes of cluster j are where they belong. */
  lemma {:induction false} FlatCluster(d: Disk, chain: seq<nat>, j: nat)
    requires ValidDisk(d) && (forall j :: 0 <= j < |chain| ==> chain[j] < |d.data|) && j < |chain|
    ensures Base(d.cs, j) + d.cs <= |Flat(d, chain)|
    ensures Flat(d, chain)[Base(d.cs, j)..Base(d.cs, j) + d.cs] == d.data[chain[j]]
  {
    var n := |chain| - 1;
    var head := Flat(d, chain[..n]);
    FlatLength(d, chain[..n]);
    if j < n {
      FlatCluster(d, chain[..n], j);
      var a, b := Base(d.cs, j), Base(d.cs, j) + d.cs;
      assert (head + d.data[chain[n]])[a..b] == head[a..b];
    }
  }

  lemma {:induction false} FileSlice(d: Disk, f: File, chain: seq<nat>, j: nat, off: nat, k: nat)
    requires HasChain(d, f, chain) && j < |chain| && off + k <= d.cs && Base(d.cs, j) + off + k <= f.size
    ensures FileBytes(d, f, chain)[Base(d.cs, j) + off..Base(d.cs, j) + off + k] == d.data[chain[j]][off..off + k]
  {
    FlatCluster(d, chain, j);
    FlatLength(d, chain);
    Slices(Flat(d, chain), Base(d.cs, j), d.cs, off, k, f.size);
  }

  lemma {:induction false} Slices(s: seq<Byte>, a: nat, n: nat, off: nat, k: nat, size: nat)
    requires off + k <= n && a + n <= |s| && a + off + k <= size <= |s|
    ensures s[..size][a + off..a + off + k] == s[a..a + n][off..off + k]
  {
    var x, y := s[..size][a + off..a + off + k], s[a..a + n][off..off + k];
    assert |x| == |y| == k && forall m :: 0 <= m < k ==> x[m] == s[a + off + m] == y[m];
  }

  lemma {:induction false} BaseRemainder(cs: nat, j: nat, off: nat)
    requires off < cs
    ensures (Base(cs, j) + off) % cs == off
  {
    BaseIsProduct(cs, j);
    Powers.RemainderUnique(Base(cs, j) + off, cs, j, off);
  }

  lemma {:induction false} BaseIsProduct(cs: nat, j: nat)
    ensures Base(cs, j) == j * cs
  {
    if j > 0 { BaseIsProduct(cs, j - 1); }
  }

  lemma {:induction false} BaseOrder(cs: nat, i: nat, j: nat)
    requires i <= j
    ensures Base(cs, i) <= Base(cs, j)
  {
    if i < j { BaseOrder(cs, i, j - 1); }
  }

  // ---------------------------------------------------------------- handles

  /** A position within cluster j, or the end of the last one. */
  ghost predicate Within(d: Disk, chain: seq<nat>, pos: nat, j: nat)
  {
    && j < |chain| && Base(d.cs, j) <= pos
    && (pos < Base(d.cs, j) + d.cs || (pos == Base(d.cs, j) + d.cs && j + 1 == |chain|))
  }

  /** The current cluster of a handle is the one of its position, unless that is past the end of the file. */
  ghost predicate InStep(d: Disk, f: File, chain: seq<nat>, pos: nat, curr: nat)
  {
    && HasChain(d, f, chain)
    && (pos <= f.size && chain != [] ==> exists j: nat :: Within(d, chain, pos, j) && curr == chain[j])
  }

  /** The position of a handle that is at the start. */
  lemma {:induction false} InStepStart(d: Disk, f: File, chain: seq<nat>)
    requires HasChain(d, f, chain)
    ensures InStep(d, f, chain, 0, f.first)
  {
    if chain != [] { assert Within(d, chain, 0, 0); }
  }

  /** Inside the file there is exactly one cluster for a position. */
  lemma {:induction false} WithinUnique(d: Disk, chain: seq<nat>, pos: nat, i: nat, j: nat)
    requires d.cs > 0 && Within(d, chain, pos, i) && Within(d, chain, pos, j)
    ensures i == j
  {
    if i < j {
      BaseOrder(d.cs, i + 1, j);
    } else if j < i {
      BaseOrder(d.cs, j + 1, i);
    }
  }

  /** So the position decides the current cluster, however a handle has got there. */
  lemma {:induction false} SameCluster(d: Disk, f: File, chain: seq<nat>, pos: nat, c: nat, e: nat)
    requires InStep(d, f, chain, pos, c) && InStep(d, f, chain, pos, e) && pos <= f.size && chain != []
    ensures c == e
  {
    var i: nat :| Within(d, chain, pos, i) && c == chain[i];
    var j: nat :| Within(d, chain, pos, j) && e == chain[j];
    WithinUnique(d, chain, pos, i, j);
  }

  function Min3(a: int, b: int, c: int): int { Min(a, Min(b, c)) }

  datatype Result<T> = Ok(value: T) | Err(code: int)

  /** memcpy into a buffer. */
  method Copy(buf: array<Byte>, at: nat, src: seq<Byte>)
    requires at + |src| <= buf.Length
    modifies buf
    ensures buf[..at + |src|] == old(buf[..at]) + src && buf[at + |src|..] == old(buf[at + |src|..])
  {
    var k := 0;
    while k < |src|
      invariant k <= |src|
      invariant forall m :: 0 <= m < at ==> buf[m] == old(buf[m])
      invariant forall m :: 0 <= m < k ==> buf[at + m] == src[m]
      invariant forall m :: at + k <= m < buf.Length ==> buf[m] == old(buf[m])
    {
      buf[at + k] := src[k];
      k := k + 1;
    }
  }

  /** The first n bytes of the buffer are those of the file from p on; the others are as they were. */
  ghost predicate Filled(s: seq<Byte>, n: nat, bytes: seq<Byte>, p: nat, was: seq<Byte>)
  {
    n <= |s| == |was| && p + n <= |bytes| && s[..n] == bytes[p..p + n] && s[n..] == was[n..]
  }

  lemma {:induction false} FilledMore(s: seq<Byte>, n: nat, bytes: seq<Byte>, p: nat, was: seq<Byte>, u: seq<Byte>,
                                      k: nat)
    requires Filled(s, n, bytes, p, was) && n + k <= |s| == |u| && p + n + k <= |bytes|
    requires u[..n + k] == s[..n] + bytes[p + n..p + n + k] && u[n + k..] == s[n + k..]
    ensures Filled(u, n + k, bytes, p, was)
  {
    assert bytes[p..p + n] + bytes[p + n..p + n + k] == bytes[p..p + n + k];
    assert s[n + k..] == s[n..][k..] && was[n + k..] == was[n..][k..];
  }

  lemma {:induction false} FilledIs(s: seq<Byte>, n: nat, bytes: seq<Byte>, p: nat, was: seq<Byte>)
    requires Filled(s, n, bytes, p, was)
    ensures n <= |s| == |was| && p + n <= |bytes| && s[..n] == bytes[p..p + n] && s[n..] == was[n..]
  {
  }

  /** Copy part of a cluster that is the next part of the file. */
  method CopyPart(d: Disk, buf: array<Byte>, n: nat, c: nat, off: nat, k: nat, ghost bytes: seq<Byte>, ghost p: nat,
                  ghost was: seq<Byte>)
    requires c < |d.data| && off + k <= |d.data[c]| && n + k <= buf.Length && p + n + k <= |bytes|
    requires bytes[p + n..p + n + k] == d.data[c][off..off + k] && Filled(buf[..], n, bytes, p, was)
    modifies buf
    ensures Filled(buf[..], n + k, bytes, p, was)
  {
    ghost var s := buf[..];
    Copy(buf, n, d.data[c][off..off + k]);
    assert buf[..][..n + k] == buf[..n + k] && buf[..][n + k..] == buf[n + k..];
    FilledMore(s, n, bytes, p, was, buf[..], k);
  }

  /** The next cluster of a chain, or none. */
  lemma {:induction false} NextCluster(d: Disk, f: File, chain: seq<nat>, j: nat)
    requires HasChain(d, f, chain) && j < |chain|
    ensures chain[j] < |d.fat|
    ensures IsEnd(d.ft, d.fat[chain[j]]) <==> j + 1 == |chain|
    ensures j + 1 < |chain| ==> d.fat[chain[j]] == chain[j + 1]
  {
    assert Next(Vol(d.fat, []), chain[j]) == d.fat[chain[j]];
    assert j + 1 < |chain| ==> chain[j + 1] < Limit(d.ft);
  }

  /** Going on from a position by k bytes, at most to the end of the cluster. */
  lemma {:induction false} Onward(d: Disk, f: File, chain: seq<nat>, pos: nat, j: nat, k: nat)
    requires HasChain(d, f, chain) && Within(d, chain, pos, j) && pos < Base(d.cs, j) + d.cs
    requires pos + k <= Base(d.cs, j) + d.cs && pos + k <= f.size
    ensures pos % d.cs == pos - Base(d.cs, j)
    ensures pos + k < Base(d.cs, j) + d.cs ==> Within(d, chain, pos + k, j)
    ensures pos + k == Base(d.cs, j) + d.cs ==>
      if j + 1 == |chain| then Within(d, chain, pos + k, j) && pos + k == f.size else Within(d, chain, pos + k, j + 1)
    ensures FileBytes(d, f, chain)[pos..pos + k] == d.data[chain[j]][pos - Base(d.cs, j)..pos - Base(d.cs, j) + k]
  {
    var off := pos - Base(d.cs, j);
    BaseRemainder(d.cs, j, off);
    FileSlice(d, f, chain, j, off, k);
  }

  /** An open file. */
  class Handle {
    const disk: Disk
    const file: File
    var pos: nat
    var curr: nat

    /** Opening a file leaves the handle at its start. */
    constructor (disk: Disk, file: File, ghost chain: seq<nat>)
      requires HasChain(disk, file, chain)
      ensures this.disk == disk && this.file == file && pos == 0 && Ready(chain)
    {
      this.disk, this.file, pos, curr := disk, file, 0, file.first;
      new;
      InStepStart(disk, file, chain);
    }

    ghost predicate Ready(chain: seq<nat>)
      reads this
    {
      InStep(disk, file, chain, pos, curr)
    }

    /** What a read of up to n bytes from position p gives. */
    ghost function Wanted(chain: seq<nat>, p: nat, n: nat): seq<Byte>
      requires HasChain(disk, file, chain)
    {
      if p >= file.size then [] else FileBytes(disk, file, chain)[p..Min(p + n, file.size)]
    }

    /** fat_read; `own` is false for a position that is not the one of the handle. */
    method Read(buf: array<Byte>, bufsize: nat, own: bool, ghost chain: seq<nat>) returns (r: Result<nat>)
      requires Ready(chain) && bufsize <= buf.Length
      modifies buf, this
      ensures Ready(chain)
      ensures !own ==> r == Err(-EPERM)
      ensures own && file.dir ==> r == Err(-EISDIR)
      ensures r.Err? ==> pos == old(pos) && buf[..] == old(buf[..]) && (!own || file.dir)
      ensures r.Ok? ==> var w := Wanted(chain, old(pos), bufsize);
        && own && !file.dir && r.value == |w| && pos == old(pos) + |w|
        && buf[..|w|] == w && buf[|w|..] == old(buf[|w|..])
    {
      if !own {
        return Err(-EPERM);
      }
      if file.dir {
        return Err(-EISDIR);
      }
      if pos >= file.size {
        return Ok(0);
      }
      var n := ReadClusters(buf, bufsize, chain);
      r := Ok(n);
    }

    /** The handle is inside cluster j. */
    ghost predicate Inside(chain: seq<nat>, j: nat)
      reads this
    {
      && HasChain(disk, file, chain) && Within(disk, chain, pos, j) && curr == chain[j]
      && pos < Base(disk.cs, j) + disk.cs && pos <= file.size
    }

    /** Leave the current cluster by k bytes; true if there is no next cluster to go to, or no need to. */
    method Step(k: nat, rem: nat, ghost chain: seq<nat>, ghost j: nat) returns (stop: bool)
      requires Inside(chain, j) && rem == Base(disk.cs, j) + disk.cs - pos && k <= rem && pos + k <= file.size
      modifies this
      ensures Ready(chain) && pos == old(pos) + k
      ensures stop ==> k < rem || pos == file.size
      ensures !stop ==> Inside(chain, j + 1)
    {
      Onward(disk, file, chain, pos, j, k);
      NextCluster(disk, file, chain, j);
      pos := pos + k;
      if k < rem {
        return true;
      }
      var val := disk.fat[curr];
      if IsEnd(disk.ft, val) {
        return true;
      }
      curr := val;
      stop := false;
    }

    /** The loop of fat_read. */
    method ReadClusters(buf: array<Byte>, bufsize: nat, ghost chain: seq<nat>) returns (written: nat)
      requires Ready(chain) && bufsize <= buf.Length && pos < file.size
      modifies buf, this
      ensures Ready(chain) && pos == old(pos) + written && written == Min(bufsize, file.size - old(pos))
      ensures buf[..written] == FileBytes(disk, file, chain)[old(pos)..pos] && buf[written..] == old(buf[written..])
    {
      ghost var was, p := buf[..], pos;
      assert chain != [] by { assert Base(disk.cs, 0) == 0; }
      ghost var j: nat :| Within(disk, chain, pos, j) && curr == chain[j];
      written := ReadLoop(buf, bufsize, chain, j);
      FilledIs(buf[..], written, FileBytes(disk, file, chain), p, was);
      assert buf[..written] == buf[..][..written] && buf[written..] == buf[..][written..];
    }

    /** The loop, from a position inside cluster j on. */
    method ReadLoop(buf: array<Byte>, bufsize: nat, ghost chain: seq<nat>, ghost j0: nat) returns (written: nat)
      requires Reading(chain, bufsize, pos, 0, false, j0) && bufsize <= buf.Length
      modifies buf, this
      ensures Ready(chain) && pos == old(pos) + written && written == Min(bufsize, file.size - old(pos))
      ensures Filled(buf[..], written, FileBytes(disk, file, chain), old(pos), old(buf[..]))
    {
      written := 0;
      ghost var was, p, j := buf[..], pos, j0;
      var stop := false;
      while !stop
        invariant Reading(chain, bufsize, p, written, stop, j)
        invariant Filled(buf[..], written, FileBytes(disk, file, chain), p, was)
        decreases if stop then 0 else |chain| - j + 1
      {
        var k;
        k, stop := ReadTurn(buf, bufsize, written, chain, j, p, was);
        written := written + k;
        j := j + 1;
      }
    }

    /** The loop has written so many bytes, from position p on, and is at cluster j or stops. */
    ghost predicate Reading(chain: seq<nat>, bufsize: nat, p: nat, written: nat, stop: bool, j: nat)
      reads this
    {
      && Ready(chain) && pos == p + written <= file.size && written <= bufsize
      && (stop ==> written == bufsize || pos == file.size) && (!stop ==> Inside(chain, j))
    }

    /** One turn of the loop. */
    method ReadTurn(buf: array<Byte>, bufsize: nat, written: nat, ghost chain: seq<nat>, ghost j: nat,
                    ghost p: nat, ghost was: seq<Byte>) returns (k: nat, stop: bool)
      requires Reading(chain, bufsize, p, written, false, j) && bufsize <= buf.Length
      requires Filled(buf[..], written, FileBytes(disk, file, chain), p, was)
      modifies buf, this
      ensures Reading(chain, bufsize, p, written + k, stop, j + 1)
      ensures Filled(buf[..], written + k, FileBytes(disk, file, chain), p, was)
    {
      var fileRem, bufRem := file.size - pos, bufsize - written;
      Onward(disk, file, chain, pos, j, 0);
      var off := pos % disk.cs;
      var rem := disk.cs - off;
      k := Min3(rem, bufRem, fileRem);
      Onward(disk, file, chain, pos, j, k);
      CopyPart(disk, buf, written, curr, off, k, FileBytes(disk, file, chain), p, was);
      stop := Step(k, rem, chain, j);
    }

    /** fat_rewind. */
    method Rewind(ghost chain: seq<nat>)
      requires HasChain(disk, file, chain)
      modifies this
      ensures Ready(chain) && pos == 0
    {
      InStepStart(disk, file, chain);
      pos, curr := 0, file.first;
    }

    /** fat_seek_forward. */
    method SeekForward(dist: nat, ghost chain: seq<nat>) returns (p: nat)
      requires Ready(chain)
      modifies this
      ensures Ready(chain) && p == pos == old(pos) + dist
    {
      if dist == 0 {
        return pos;
      }
      if pos + dist > file.size {
        pos, curr := pos + dist, INVALID_CLUSTER;
        return pos;
      }
      assert chain != [] by { assert Base(disk.cs, 0) == 0; }
      ghost var j: nat :| Within(disk, chain, pos, j) && curr == chain[j];
      var moved, stop := 0, false;
      while !stop
        invariant Ready(chain) && pos == old(pos) + moved && moved <= dist
        invariant stop ==> moved == dist
        invariant !stop ==> Inside(chain, j)
        decreases if stop then 0 else |chain| - j + 1
      {
        Onward(disk, file, chain, pos, j, 0);
        var rem := disk.cs - pos % disk.cs;
        var k := Min3(rem, dist - moved, file.size - pos);
        stop := Step(k, rem, chain, j);
        moved := moved + k;
        j := j + 1;
      }
      p := pos;
    }
  }

  /** A read of the whole file has got to cluster j, or is done. */
  ghost predicate WholeAt(d: Disk, f: File, chain: seq<nat>, bufsize: nat, n: nat, cluster: nat, j: nat, going: bool)
  {
    && HasChain(d, f, chain) && n <= Min(f.size, bufsize) && (!going ==> n == Min(f.size, bufsize))
    && (going ==> n == Base(d.cs, j) && if chain == [] then cluster == 0 else j < |chain| && cluster == chain[j])
  }

  /** The last part to read is at the start of the current cluster. */
  lemma {:induction false} WholeLast(d: Disk, f: File, chain: seq<nat>, bufsize: nat, n: nat, cluster: nat, j: nat,
                                     k: int)
    requires WholeAt(d, f, chain, bufsize, n, cluster, j, true) && k == Min(f.size - n, bufsize - n) <= d.cs
    ensures 0 <= k && cluster < |d.data| && k <= |d.data[cluster]| && n + k <= |FileBytes(d, f, chain)|
    ensures FileBytes(d, f, chain)[n..n + k] == d.data[cluster][0..0 + k]
  {
    if k > 0 {
      assert chain != [] by { assert Base(d.cs, 0) == 0; }
      FileSlice(d, f, chain, j, 0, k);
    }
  }

  /** A part before it is a whole cluster, and there is a next one. */
  lemma {:induction false} WholeNext(d: Disk, f: File, chain: seq<nat>, bufsize: nat, n: nat, cluster: nat, j: nat)
    requires WholeAt(d, f, chain, bufsize, n, cluster, j, true) && Min(f.size - n, bufsize - n) > d.cs
    ensures cluster < |d.data| == |d.fat| && |d.data[cluster]| == d.cs && n + d.cs <= |FileBytes(d, f, chain)|
    ensures FileBytes(d, f, chain)[n..n + d.cs] == d.data[cluster][0..0 + d.cs]
    ensures !IsEnd(d.ft, d.fat[cluster]) && j + 1 < |chain|
    ensures WholeAt(d, f, chain, bufsize, n + d.cs, d.fat[cluster], j + 1, true)
  {
    assert chain != [] by { assert Base(d.cs, 0) == 0; }
    FileSlice(d, f, chain, j, 0, d.cs);
    NextCluster(d, f, chain, j);
    assert Base(d.cs, j + 1) == Base(d.cs, j) + d.cs;
  }

  /** One turn of the loop of fat_read_whole_file. */
  method WholeTurn(d: Disk, f: File, buf: array<Byte>, bufsize: nat, n: nat, cluster: nat, ghost chain: seq<nat>,
                   ghost j: nat, ghost was: seq<Byte>) returns (k: nat, next: nat, going: bool)
    requires WholeAt(d, f, chain, bufsize, n, cluster, j, true) && bufsize <= buf.Length
    requires Filled(buf[..], n, FileBytes(d, f, chain), 0, was)
    modifies buf
    ensures WholeAt(d, f, chain, bufsize, n + k, next, j + 1, going) && (going ==> j + 1 < |chain|)
    ensures Filled(buf[..], n + k, FileBytes(d, f, chain), 0, was)
  {
    var rem := Min(f.size - n, bufsize - n);
    if rem <= d.cs {
      WholeLast(d, f, chain, bufsize, n, cluster, j, rem);
      k := rem;
      CopyPart(d, buf, n, cluster, 0, k, FileBytes(d, f, chain), 0, was);
      return k, cluster, false;
    }
    WholeNext(d, f, chain, bufsize, n, cluster, j);
    k := d.cs;
    CopyPart(d, buf, n, cluster, 0, k, FileBytes(d, f, chain), 0, was);
    next := d.fat[cluster];
    going := !IsEnd(d.ft, next) && n + k < f.size;
  }

  /** fat_read_whole_file. */
  method ReadWholeFile(d: Disk, f: File, buf: array<Byte>, bufsize: nat, ghost chain: seq<nat>) returns (n: nat)
    requires HasChain(d, f, chain) && bufsize <= buf.Length
    modifies buf
    ensures n == Min(f.size, bufsize) && buf[..n] == FileBytes(d, f, chain)[..n] && buf[n..] == old(buf[n..])
  {
    var cluster, going := f.first, true;
    ghost var j, was := 0, buf[..];
    n := 0;
    while going
      invariant WholeAt(d, f, chain, bufsize, n, cluster, j, going) && (going ==> j < |chain| || chain == [])
      invariant Filled(buf[..], n, FileBytes(d, f, chain), 0, was)
      decreases if going then |chain| - j + 1 else 0
    {
      var k;
      k, cluster, going := WholeTurn(d, f, buf, bufsize, n, cluster, chain, j, was);
      n, j := n + k, j + 1;
    }
    assert buf[..n] == buf[..][..n] && buf[n..] == buf[..][n..];
  }
}
