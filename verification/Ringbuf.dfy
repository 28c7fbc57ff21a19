/** The ring buffer of single elements: two positions and a count over a fixed array. */
module Ringbuf {
  import opened Basics

  /** The place of element k. */
  ghost function Slot(n: nat, rp: nat, k: nat): int { if rp + k < n then rp + k else rp + k - n }

  /** The count elements from rp on. */
  ghost function Held<T>(b: seq<T>, rp: nat, count: nat): seq<T>
    requires rp < |b| && count <= |b|
  {
    seq(count, k requires 0 <= k < count => b[Slot(|b|, rp, k)])
  }

  /** b with s stored from position at on. */
  ghost function Stored<T>(b: seq<T>, at: nat, s: seq<T>): seq<T>
    requires at + |s| <= |b|
  {
    b[..at] + s + b[at + |s|..]
  }

  /** Storing right behind the elements appends to them. */
  lemma {:induction false} HeldStored<T>(b: seq<T>, rp: nat, count: nat, s: seq<T>)
    requires rp < |b| && count + |s| <= |b| && count < |b| && Slot(|b|, rp, count) + |s| <= |b|
    ensures Held(Stored(b, Slot(|b|, rp, count), s), rp, count + |s|) == Held(b, rp, count) + s
  {
    var at := Slot(|b|, rp, count);
    var c := Stored(b, at, s);
    var x, y := Held(c, rp, count + |s|), Held(b, rp, count) + s;
    forall k | 0 <= k < count + |s| ensures x[k] == y[k] {
      assert k < count ==> c[Slot(|b|, rp, k)] == b[Slot(|b|, rp, k)];
      assert k >= count ==> Slot(|b|, rp, k) == at + (k - count);
    }
    assert x == y;
  }

  /** A stretch that does not wrap around. */
  lemma {:induction false} HeldSlice<T>(b: seq<T>, rp: nat, count: nat, n: nat)
    requires rp < |b| && n <= count <= |b| && rp + n <= |b|
    ensures b[rp..rp + n] == Held(b, rp, count)[..n]
  {
  }

  /** The elements behind the first n. */
  lemma {:induction false} HeldRest<T>(b: seq<T>, rp: nat, count: nat, n: nat)
    requires rp < |b| && n <= count <= |b| && Slot(|b|, rp, n) < |b|
    ensures Held(b, Slot(|b|, rp, n), count - n) == Held(b, rp, count)[n..]
  {
    var x, y := Held(b, Slot(|b|, rp, n), count - n), Held(b, rp, count)[n..];
    assert forall k :: 0 <= k < count - n ==> x[k] == y[k];
  }

  lemma {:induction false} Wrap(n: nat, x: nat)
    requires x <= n && n > 0
    ensures x % n == if x == n then 0 else x
  {
  }

  class Buffer<T(0)> {
    const buf: array<T>
    var readPos: nat
    var writePos: nat
    var elems: nat

    constructor (max: nat)
      requires max > 0
      ensures Valid() && buf.Length == max && Contents() == [] && fresh(buf)
    {
      buf := new T[max];
      readPos, writePos, elems := 0, 0, 0;
    }

    ghost predicate Valid()
      reads this
    {
      && readPos < buf.Length && elems <= buf.Length && writePos < buf.Length
      && writePos == Slot(buf.Length, readPos, elems)
    }

    ghost function Contents(): seq<T>
      reads this, buf
      requires Valid()
    {
      Held(buf[..], readPos, elems)
    }

    /** memcpy to the buffer. */
    method CopyIn(at: nat, s: seq<T>)
      requires at + |s| <= buf.Length
      modifies buf
      ensures buf[..] == Stored(old(buf[..]), at, s)
    {
      forall k | 0 <= k < |s| {
        buf[at + k] := s[k];
      }
    }

    /** One of the two parts of a write: at most up to the end of the array. */
    method WritePart(s: seq<T>)
      requires Valid() && writePos + |s| <= buf.Length && elems + |s| <= buf.Length && elems < buf.Length
      modifies buf, this`writePos, this`elems
      ensures Valid() && Contents() == old(Contents()) + s && elems == old(elems) + |s|
      ensures writePos == if old(writePos) + |s| == buf.Length then 0 else old(writePos) + |s|
    {
      HeldStored(buf[..], readPos, elems, s);
      Wrap(buf.Length, writePos + |s|);
      CopyIn(writePos, s);
      writePos := (writePos + |s|) % buf.Length;
      elems := elems + |s|;
    }

    /** ringbuf_write_bytes: how many were accepted. */
    method WriteBytes(s: seq<T>) returns (n: nat)
      requires Valid()
      modifies buf, this`writePos, this`elems
      ensures Valid() && n == Min(|s|, buf.Length - old(elems)) && Contents() == old(Contents()) + s[..n]
    {
      if elems == buf.Length {
        return 0;
      }
      if writePos < readPos {
        n := Min(|s|, readPos - writePos);
        WritePart(s[..n]);
        return;
      }
      n := Min(|s|, buf.Length - writePos);
      WritePart(s[..n]);
      if n == |s| {
        return;
      }
      var m := Min(|s| - n, readPos);
      if m > 0 {
        WritePart(s[n..n + m]);
      }
      assert s[..n] + s[n..n + m] == s[..n + m];
      n := n + m;
    }

    /** One of the two parts of a read. */
    method ReadPart(n: nat) returns (out: seq<T>)
      requires Valid() && n <= elems && readPos + n <= buf.Length
      modifies this`readPos, this`elems
      ensures Valid() && out == old(Contents())[..n] && Contents() == old(Contents())[n..] && elems == old(elems) - n
      ensures readPos == if old(readPos) + n == buf.Length then 0 else old(readPos) + n
    {
      Wrap(buf.Length, readPos + n);
      HeldSlice(buf[..], readPos, elems, n);
      HeldRest(buf[..], readPos, elems, n);
      out := buf[readPos..readPos + n];
      assert out == buf[..][readPos..readPos + n];
      readPos := (readPos + n) % buf.Length;
      elems := elems - n;
    }

    /** ringbuf_read_bytes: the bytes that were there, up to len. */
    method ReadBytes(len: nat) returns (out: seq<T>)
      requires Valid()
      modifies this`readPos, this`elems
      ensures Valid() && |out| == Min(len, old(elems))
      ensures out == old(Contents())[..|out|] && Contents() == old(Contents())[|out|..]
    {
      if elems == 0 {
        return [];
      }
      if readPos < writePos {
        out := ReadPart(Min(len, writePos - readPos));
        return;
      }
      out := ReadPart(Min(len, buf.Length - readPos));
      if |out| == len {
        return;
      }
      var more := ReadPart(Min(len - |out|, writePos));
      out := out + more;
    }

    /** ringbuf_write_elem. */
    method WriteElem(x: T) returns (ok: bool)
      requires Valid()
      modifies buf, this`writePos, this`elems
      ensures Valid() && (ok <==> old(elems) < buf.Length)
      ensures Contents() == if ok then old(Contents()) + [x] else old(Contents())
    {
      if elems == buf.Length {
        return false;
      }
      WritePart([x]);
      ok := true;
    }

    /** ringbuf_read_elem. */
    method ReadElem(dummy: T) returns (ok: bool, x: T)
      requires Valid()
      modifies this`readPos, this`elems
      ensures Valid() && (ok <==> old(Contents()) != [])
      ensures if ok then old(Contents()) == [x] + Contents() else Contents() == old(Contents())
    {
      if elems == 0 {
        return false, dummy;
      }
      var out := ReadPart(1);
      ok, x := true, out[0];
    }

    /** ringbuf_unwrite_elem: take back the last one written. */
    method UnwriteElem(dummy: T) returns (ok: bool, x: T)
      requires Valid()
      modifies this`writePos, this`elems
      ensures Valid() && (ok <==> old(Contents()) != [])
      ensures if ok then old(Contents()) == Contents() + [x] else Contents() == old(Contents())
    {
      if elems == 0 {
        return false, dummy;
      }
      Back(buf.Length, writePos);
      writePos := (buf.Length + writePos - 1) % buf.Length;
      elems := elems - 1;
      ok, x := true, buf[writePos];
    }
  }

  lemma {:induction false} Back(n: nat, x: nat)
    requires x < n
    ensures (n + x - 1) % n == if x == 0 then n - 1 else x - 1
  {
    if x > 0 { assert (n + x - 1) - n == x - 1; }
  }
}
