/**
 The lock-free ring buffer.  Both positions and the full flag are one word, which is changed by compare-and-swap.
 Writers interrupt each other and the one reader, and are done before what they have interrupted goes on.
*/
module SafeRingbuf {
  import opened Options
  import Ringbuf

  /** The word: where to read and to write next, and whether equal positions mean full. */
  datatype Word = Word(rp: nat, wp: nat, full: bool)

  ghost predicate WordOk(n: nat, w: Word)
  {
    w.rp < n && w.wp < n && (w.full ==> w.rp == w.wp)
  }

  ghost function Len(n: nat, w: Word): nat
  {
    if w.full then n else if w.wp >= w.rp then w.wp - w.rp else if n + w.wp >= w.rp then n + w.wp - w.rp else 0
  }

  predicate IsEmpty(w: Word) { w.rp == w.wp && !w.full }

  /** The word after one more element. */
  function Pushed(n: nat, w: Word): Word
    requires n > 0
  {
    var wp := (w.wp + 1) % n;
    Word(w.rp, wp, w.full || wp == w.rp)
  }

  /** The word after one element less. */
  function Popped(n: nat, w: Word): Word
    requires n > 0
  {
    Word((w.rp + 1) % n, w.wp, false)
  }

  lemma {:induction false} PushedLen(n: nat, w: Word)
    requires WordOk(n, w) && !w.full
    ensures WordOk(n, Pushed(n, w)) && Len(n, Pushed(n, w)) == Len(n, w) + 1 <= n
    ensures Pushed(n, w).rp == w.rp && w.wp == Ringbuf.Slot(n, w.rp, Len(n, w))
  {
    Ringbuf.Wrap(n, w.wp + 1);
  }

  lemma {:induction false} PoppedLen(n: nat, w: Word)
    requires WordOk(n, w) && !IsEmpty(w)
    ensures WordOk(n, Popped(n, w)) && Len(n, w) > 0 && Len(n, Popped(n, w)) == Len(n, w) - 1
    ensures forall k: nat :: k < n ==> Ringbuf.Slot(n, Popped(n, w).rp, k) == Ringbuf.Slot(n, w.rp, k + 1)
  {
    Ringbuf.Wrap(n, w.rp + 1);
  }

  /** Only writes have happened since: the word is the same, or holds more. */
  ghost predicate Grown(n: nat, a: Word, b: Word)
  {
    WordOk(n, a) && WordOk(n, b) && a.rp == b.rp && Len(n, a) <= Len(n, b)
  }

  /** As long as only writes happen, the same length means the same word: a word never comes back. */
  lemma {:induction false} SameLenSameWord(n: nat, a: Word, b: Word)
    requires Grown(n, a, b) && Len(n, a) == Len(n, b)
    ensures a == b
  {
  }

  /** Two loads around other writes differ, and then the word differs from the first of them. */
  lemma {:induction false} LoadsAgree(n: nat, cs: Word, ns: Word, w: Word)
    requires Grown(n, cs, ns) && Grown(n, ns, w) && w == cs
    ensures ns == cs
  {
    SameLenSameWord(n, cs, ns);
  }

  // ---------------------------------------------------------------- the machine

  /** Where a writer is: before the first or second load, before the swap, before it stores its element. */
  datatype WriterPc = Load1 | Load2(cs: Word) | Swap(cs: Word, ns: Word) | Store(cs: Word)

  datatype Writer<T> = Writer(e: T, pc: WriterPc)

  datatype ReaderPc<T> = RLoad1 | RLoad2(cs: Word) | RCopy(cs: Word, ns: Word) | RSwap(cs: Word, ns: Word, e: T)

  /** The buffer of n slots, the reader if it is at work, the writers at work, each interrupted by the next, and all
      elements that have been put in and taken out. */
  datatype Ring<T> = Ring(n: nat, w: Word, buf: seq<T>, reader: Option<ReaderPc<T>>, writers: seq<Writer<T>>,
                          put: seq<T>, taken: seq<T>)

  /** What the buffer holds. */
  ghost function Queue<T>(r: Ring<T>): seq<T>
    requires |r.taken| <= |r.put|
  {
    r.put[|r.taken|..]
  }

  ghost function Top<T>(r: Ring<T>): Writer<T>
    requires r.writers != []
  {
    r.writers[|r.writers| - 1]
  }

  ghost function Below<T>(r: Ring<T>): seq<Writer<T>>
    requires r.writers != []
  {
    r.writers[..|r.writers| - 1]
  }

  /** What can happen: an interrupt that writes, the start of a read, or the next step of whoever runs.  A swap may
      fail for no reason. */
  datatype Event<T> = Interrupt(e: T) | StartRead | Go(spurious: bool)

  ghost function AtPc<T>(r: Ring<T>, pc: WriterPc): Ring<T>
    requires r.writers != []
  {
    r.(writers := Below(r) + [Top(r).(pc := pc)])
  }

  /** The next step of the innermost writer. */
  ghost function WriterStep<T>(r: Ring<T>, spurious: bool): Ring<T>
    requires r.writers != [] && r.n > 0
  {
    var t := Top(r);
    match t.pc
    case Load1 => AtPc(r, Load2(r.w))
    case Load2(cs) => AtPc(r, Swap(cs, r.w))
    case Swap(cs, ns) =>
      if cs.full then r.(writers := Below(r))
      else if !spurious && r.w == cs then AtPc(r, Store(cs)).(w := Pushed(r.n, ns), put := r.put + [t.e])
      else AtPc(r, Load1)
    case Store(cs) =>
      r.(writers := Below(r), buf := if cs.wp < |r.buf| then r.buf[cs.wp := t.e] else r.buf)
  }

  /** The next step of the reader. */
  ghost function ReaderStep<T>(r: Ring<T>, spurious: bool): Ring<T>
    requires r.reader.Some? && r.n > 0
  {
    match r.reader.value
    case RLoad1 => r.(reader := Some(RLoad2(r.w)))
    case RLoad2(cs) => r.(reader := Some(RCopy(cs, r.w)))
    case RCopy(cs, ns) =>
      if IsEmpty(cs) || cs.rp >= |r.buf| then r.(reader := None)
      else r.(reader := Some(RSwap(cs, ns, r.buf[cs.rp])))
    case RSwap(cs, ns, e) =>
      if !spurious && r.w == cs then r.(reader := None, w := Popped(r.n, ns), taken := r.taken + [e])
      else r.(reader := Some(RLoad1))
  }

  ghost function Step<T>(r: Ring<T>, ev: Event<T>): Ring<T>
    requires r.n > 0
  {
    match ev
    case Interrupt(e) => r.(writers := r.writers + [Writer(e, Load1)])
    case StartRead => if r.writers == [] && r.reader.None? then r.(reader := Some(RLoad1)) else r
    case Go(spurious) =>
      if r.writers != [] then WriterStep(r, spurious)
      else if r.reader.Some? then ReaderStep(r, spurious)
      else r
  }

  // ---------------------------------------------------------------- the invariant

  /** A writer at work has reserved a slot for an element but not stored it. */
  ghost predicate Pending<T>(ws: seq<Writer<T>>, slot: int, e: T)
  {
    exists i :: 0 <= i < |ws| && ws[i].pc.Store? && ws[i].pc.cs.wp == slot && ws[i].e == e
  }

  /** Every element is in its slot, or its writer is about to put it there. */
  ghost predicate Cells<T>(n: nat, rp: nat, q: seq<T>, buf: seq<T>, ws: seq<Writer<T>>)
  {
    && |buf| == n && rp < n && |q| <= n
    && forall k :: 0 <= k < |q| ==> InPlace(n, rp, q, buf, ws, k)
  }

  ghost predicate InPlace<T>(n: nat, rp: nat, q: seq<T>, buf: seq<T>, ws: seq<Writer<T>>, k: nat)
    requires |buf| == n && rp < n && k < |q| <= n
  {
    buf[Ringbuf.Slot(n, rp, k)] == q[k] || Pending(ws, Ringbuf.Slot(n, rp, k), q[k])
  }

  /** A writer that is about to store has an element of the queue for the slot. */
  ghost predicate Reserved<T>(n: nat, rp: nat, q: seq<T>, slot: int, e: T)
  {
    exists k :: 0 <= k < |q| && k < n && Ringbuf.Slot(n, rp, k) == slot && q[k] == e
  }

  ghost predicate WriterOk<T>(n: nat, w: Word, q: seq<T>, x: Writer<T>)
  {
    match x.pc
    case Load1 => true
    case Load2(cs) => Grown(n, cs, w)
    case Swap(cs, ns) => Grown(n, cs, ns) && Grown(n, ns, w)
    case Store(cs) => WordOk(n, cs) && Reserved(n, w.rp, q, cs.wp, x.e)
  }

  ghost predicate ReaderOk<T>(n: nat, w: Word, q: seq<T>, x: ReaderPc<T>)
  {
    match x
    case RLoad1 => true
    case RLoad2(cs) => Grown(n, cs, w)
    case RCopy(cs, ns) => Grown(n, cs, ns) && Grown(n, ns, w)
    case RSwap(cs, ns, e) => Grown(n, cs, ns) && Grown(n, ns, w) && !IsEmpty(cs) && q != [] && q[0] == e
  }

  ghost predicate Inv<T>(r: Ring<T>)
  {
    && r.n > 0 && WordOk(r.n, r.w) && r.taken <= r.put && |Queue(r)| == Len(r.n, r.w)
    && Cells(r.n, r.w.rp, Queue(r), r.buf, r.writers)
    && (forall i :: 0 <= i < |r.writers| ==> WriterOk(r.n, r.w, Queue(r), r.writers[i]))
    && (r.reader.Some? ==> ReaderOk(r.n, r.w, Queue(r), r.reader.value))
  }

  // ---------------------------------------------------------------- every step keeps it

  lemma {:induction false} SlotsDiffer(n: nat, rp: nat, i: nat, k: nat)
    requires rp < n && i < n && k < n && Ringbuf.Slot(n, rp, i) == Ringbuf.Slot(n, rp, k)
    ensures i == k
  {
  }

  /** The writers other than the innermost one. */
  lemma {:induction false} StepLocal<T>(r: Ring<T>, pc: WriterPc)
    requires Inv(r) && r.writers != [] && !Top(r).pc.Store? && !pc.Store?
    requires WriterOk(r.n, r.w, Queue(r), Top(r).(pc := pc))
    ensures Inv(AtPc(r, pc))
  {
    var u := AtPc(r, pc);
    assert Queue(u) == Queue(r);
    CellsKept(r.n, r.w.rp, Queue(r), r.buf, r.writers, u.writers);
  }

  /** Writers that are not about to store do not matter for the cells. */
  lemma {:induction false} CellsKept<T>(n: nat, rp: nat, q: seq<T>, buf: seq<T>, ws: seq<Writer<T>>, us: seq<Writer<T>>)
    requires Cells(n, rp, q, buf, ws)
    requires forall i :: 0 <= i < |ws| && ws[i].pc.Store? ==> i < |us| && us[i] == ws[i]
    ensures Cells(n, rp, q, buf, us)
  {
    forall k | 0 <= k < |q| ensures InPlace(n, rp, q, buf, us, k) {
      assert InPlace(n, rp, q, buf, ws, k);
      if Pending(ws, Ringbuf.Slot(n, rp, k), q[k]) {
        var i :| 0 <= i < |ws| && ws[i].pc.Store? && ws[i].pc.cs.wp == Ringbuf.Slot(n, rp, k) && ws[i].e == q[k];
        assert us[i] == ws[i];
      }
    }
  }

  lemma {:induction false} StepInterrupt<T>(r: Ring<T>, e: T)
    requires Inv(r)
    ensures Inv(Step(r, Interrupt(e)))
  {
    var u := Step(r, Interrupt(e));
    assert Queue(u) == Queue(r);
    CellsKept(r.n, r.w.rp, Queue(r), r.buf, r.writers, u.writers);
  }

  /** A writer that finds the buffer full. */
  lemma {:induction false} StepFull<T>(r: Ring<T>)
    requires Inv(r) && r.writers != [] && !Top(r).pc.Store?
    ensures Inv(r.(writers := Below(r)))
  {
    var u := r.(writers := Below(r));
    assert Queue(u) == Queue(r);
    CellsKept(r.n, r.w.rp, Queue(r), r.buf, r.writers, u.writers);
  }

  // ---------------------------------------------------------------- the swap of a writer

  lemma {:induction false} QueueGrows<T>(r: Ring<T>, e: T)
    requires r.taken <= r.put
    ensures r.taken <= r.put + [e] && (r.put + [e])[|r.taken|..] == r.put[|r.taken|..] + [e]
  {
  }

  lemma {:induction false} WriterGrows<T>(n: nat, w: Word, q: seq<T>, x: Writer<T>, e: T)
    requires WordOk(n, w) && !w.full && WriterOk(n, w, q, x)
    ensures WriterOk(n, Pushed(n, w), q + [e], x)
  {
    PushedLen(n, w);
    if x.pc.Store? {
      var k :| 0 <= k < |q| && k < n && Ringbuf.Slot(n, w.rp, k) == x.pc.cs.wp && q[k] == x.e;
      assert (q + [e])[k] == x.e;
    }
  }

  lemma {:induction false} ReaderGrows<T>(n: nat, w: Word, q: seq<T>, x: ReaderPc<T>, e: T)
    requires WordOk(n, w) && !w.full && ReaderOk(n, w, q, x)
    ensures ReaderOk(n, Pushed(n, w), q + [e], x)
  {
    PushedLen(n, w);
  }

  lemma {:induction false} CellsGrow<T>(n: nat, w: Word, q: seq<T>, buf: seq<T>, ws: seq<Writer<T>>,
                                        us: seq<Writer<T>>, e: T)
    requires WordOk(n, w) && !w.full && |q| == Len(n, w) && Cells(n, w.rp, q, buf, ws) && ws != []
    requires us == ws[..|ws| - 1] + [Writer(e, Store(w))] && !ws[|ws| - 1].pc.Store?
    ensures Cells(n, w.rp, q + [e], buf, us)
  {
    PushedLen(n, w);
    CellsKept(n, w.rp, q, buf, ws, us);
    forall k | 0 <= k < |q + [e]| ensures InPlace(n, w.rp, q + [e], buf, us, k) {
      if k < |q| {
        assert InPlace(n, w.rp, q, buf, us, k);
      } else {
        assert us[|us| - 1].pc == Store(w);
      }
    }
  }

  lemma {:induction false} StepSwap<T>(r: Ring<T>)
    requires Inv(r) && r.writers != [] && Top(r).pc.Swap? && !Top(r).pc.cs.full && r.w == Top(r).pc.cs
    ensures Top(r).pc.ns == r.w && Inv(WriterStep(r, false))
  {
    var cs, ns, e, u := Top(r).pc.cs, Top(r).pc.ns, Top(r).e, WriterStep(r, false);
    var q := Queue(r);
    LoadsAgree(r.n, cs, ns, r.w);
    PushedLen(r.n, r.w);
    QueueGrows(r, e);
    CellsGrow(r.n, r.w, q, r.buf, r.writers, u.writers, e);
    forall i | 0 <= i < |u.writers| ensures WriterOk(u.n, u.w, q + [e], u.writers[i]) {
      if i < |r.writers| - 1 {
        WriterGrows(r.n, r.w, q, r.writers[i], e);
      } else {
        assert (q + [e])[|q|] == e;
      }
    }
    if r.reader.Some? { ReaderGrows(r.n, r.w, q, r.reader.value, e); }
  }

  // ---------------------------------------------------------------- the store of a writer

  lemma {:induction false} CellsStored<T>(n: nat, rp: nat, q: seq<T>, buf: seq<T>, ws: seq<Writer<T>>)
    requires Cells(n, rp, q, buf, ws) && ws != []
    requires var x := ws[|ws| - 1]; x.pc.Store? && x.pc.cs.wp < n && Reserved(n, rp, q, x.pc.cs.wp, x.e)
    ensures var x := ws[|ws| - 1]; Cells(n, rp, q, buf[x.pc.cs.wp := x.e], ws[..|ws| - 1])
  {
    var x := ws[|ws| - 1];
    var us, b := ws[..|ws| - 1], buf[x.pc.cs.wp := x.e];
    var j :| 0 <= j < |q| && j < n && Ringbuf.Slot(n, rp, j) == x.pc.cs.wp && q[j] == x.e;
    forall k | 0 <= k < |q| ensures InPlace(n, rp, q, b, us, k) {
      assert InPlace(n, rp, q, buf, ws, k);
      if k != j {
        if Ringbuf.Slot(n, rp, k) == Ringbuf.Slot(n, rp, j) { SlotsDiffer(n, rp, k, j); }
        if buf[Ringbuf.Slot(n, rp, k)] != q[k] {
          var i :| 0 <= i < |ws| && ws[i].pc.Store? && ws[i].pc.cs.wp == Ringbuf.Slot(n, rp, k) && ws[i].e == q[k];
          assert us[i] == ws[i];
        }
      }
    }
  }

  lemma {:induction false} StepStore<T>(r: Ring<T>)
    requires Inv(r) && r.writers != [] && Top(r).pc.Store?
    ensures Inv(WriterStep(r, false)) && WriterStep(r, true) == WriterStep(r, false)
  {
    var u := WriterStep(r, false);
    assert WriterOk(r.n, r.w, Queue(r), Top(r));
    assert Queue(u) == Queue(r);
    CellsStored(r.n, r.w.rp, Queue(r), r.buf, r.writers);
  }

  // ---------------------------------------------------------------- the reader

  lemma {:induction false} ReaderMoves<T>(r: Ring<T>, x: Option<ReaderPc<T>>)
    requires Inv(r) && (x.Some? ==> ReaderOk(r.n, r.w, Queue(r), x.value))
    ensures Inv(r.(reader := x))
  {
    assert Queue(r.(reader := x)) == Queue(r);
  }

  /** When no writer is at work, the first slot holds the first element: nothing is read before it is stored. */
  lemma {:induction false} FirstIsStored<T>(r: Ring<T>)
    requires Inv(r) && r.writers == [] && Queue(r) != []
    ensures r.buf[r.w.rp] == Queue(r)[0]
  {
    assert InPlace(r.n, r.w.rp, Queue(r), r.buf, r.writers, 0);
  }

  lemma {:induction false} StepCopy<T>(r: Ring<T>, spurious: bool)
    requires Inv(r) && r.writers == [] && r.reader.Some? && r.reader.value.RCopy?
    ensures Inv(ReaderStep(r, spurious))
  {
    var cs := r.reader.value.cs;
    if !IsEmpty(cs) {
      PoppedLen(r.n, cs);
      FirstIsStored(r);
    }
    ReaderMoves(r, ReaderStep(r, spurious).reader);
  }

  lemma {:induction false} CellsShrink<T>(n: nat, w: Word, q: seq<T>, buf: seq<T>)
    requires WordOk(n, w) && !IsEmpty(w) && |q| == Len(n, w) && Cells(n, w.rp, q, buf, [])
    ensures q != [] && Cells(n, Popped(n, w).rp, q[1..], buf, [])
  {
    PoppedLen(n, w);
    forall k | 0 <= k < |q[1..]| ensures InPlace(n, Popped(n, w).rp, q[1..], buf, [], k) {
      assert InPlace(n, w.rp, q, buf, [], k + 1);
      assert Ringbuf.Slot(n, Popped(n, w).rp, k) == Ringbuf.Slot(n, w.rp, k + 1);
    }
  }

  lemma {:induction false} QueueShrinks<T>(r: Ring<T>)
    requires r.taken <= r.put && Queue(r) != []
    ensures r.taken + [Queue(r)[0]] <= r.put && r.put[|r.taken| + 1..] == Queue(r)[1..]
  {
  }

  lemma {:induction false} StepTake<T>(r: Ring<T>)
    requires Inv(r) && r.writers == [] && r.reader.Some? && r.reader.value.RSwap? && r.w == r.reader.value.cs
    ensures r.reader.value.ns == r.w && Inv(ReaderStep(r, false))
    ensures ReaderStep(r, false).taken == r.taken + [Queue(r)[0]] && Queue(ReaderStep(r, false)) == Queue(r)[1..]
  {
    LoadsAgree(r.n, r.reader.value.cs, r.reader.value.ns, r.w);
    PoppedLen(r.n, r.w);
    CellsShrink(r.n, r.w, Queue(r), r.buf);
    QueueShrinks(r);
  }

  // ---------------------------------------------------------------- all runs

  lemma {:induction false} WriterStepInv<T>(r: Ring<T>, spurious: bool)
    requires Inv(r) && r.writers != []
    ensures Inv(WriterStep(r, spurious))
  {
    assert WriterOk(r.n, r.w, Queue(r), Top(r));
    match Top(r).pc
    case Load1 => StepLocal(r, Load2(r.w));
    case Load2(cs) => StepLocal(r, Swap(cs, r.w));
    case Swap(cs, ns) =>
      if cs.full { StepFull(r); } else if !spurious && r.w == cs { StepSwap(r); } else { StepLocal(r, Load1); }
    case Store(cs) => StepStore(r);
  }

  lemma {:induction false} ReaderStepInv<T>(r: Ring<T>, spurious: bool)
    requires Inv(r) && r.writers == [] && r.reader.Some?
    ensures Inv(ReaderStep(r, spurious))
  {
    match r.reader.value
    case RLoad1 => ReaderMoves(r, Some(RLoad2(r.w)));
    case RLoad2(cs) => ReaderMoves(r, Some(RCopy(cs, r.w)));
    case RCopy(_, _) => StepCopy(r, spurious);
    case RSwap(cs, _, _) => if !spurious && r.w == cs { StepTake(r); } else { ReaderMoves(r, Some(RLoad1)); }
  }

  /** Every event keeps the invariant. */
  lemma {:induction false} StepInv<T>(r: Ring<T>, ev: Event<T>)
    requires Inv(r)
    ensures Inv(Step(r, ev))
  {
    match ev
    case Interrupt(e) => StepInterrupt(r, e);
    case StartRead => ReaderMoves(r, Step(r, ev).reader);
    case Go(spurious) =>
      if r.writers != [] { WriterStepInv(r, spurious); } else if r.reader.Some? { ReaderStepInv(r, spurious); }
  }

  ghost function Initial<T>(n: nat, buf: seq<T>): Ring<T>
  {
    Ring(n, Word(0, 0, false), buf, None, [], [], [])
  }

  ghost function After<T>(r: Ring<T>, evs: seq<Event<T>>): (u: Ring<T>)
    requires r.n > 0
    ensures u.n == r.n
  {
    if evs == [] then r else Step(After(r, evs[..|evs| - 1]), evs[|evs| - 1])
  }

  /** In every run the buffer is a queue of at most n elements: what was taken out, followed by what it holds, is all
      that was put in, in order. */
  lemma {:induction false} RunIsQueue<T>(n: nat, buf: seq<T>, evs: seq<Event<T>>)
    requires n > 0 && |buf| == n
    ensures var r := After(Initial(n, buf), evs);
      Inv(r) && r.put == r.taken + Queue(r) && |Queue(r)| <= n
  {
    if evs != [] {
      RunIsQueue(n, buf, evs[..|evs| - 1]);
      StepInv(After(Initial(n, buf), evs[..|evs| - 1]), evs[|evs| - 1]);
    }
  }

  /** The steps at which something happens to the queue. */
  ghost predicate Puts<T>(r: Ring<T>, ev: Event<T>)
  {
    && ev.Go? && !ev.spurious && r.writers != [] && Top(r).pc.Swap?
    && !Top(r).pc.cs.full && r.w == Top(r).pc.cs
  }

  ghost predicate Takes<T>(r: Ring<T>, ev: Event<T>)
  {
    && ev.Go? && !ev.spurious && r.writers == [] && r.reader.Some? && r.reader.value.RSwap?
    && r.w == r.reader.value.cs
  }

  /** Each success takes effect at its swap: a write appends its element there, and says that the buffer was empty
      exactly when it was; a read takes the first element there.  Nothing else changes the queue. */
  lemma {:induction false} EffectAtSwap<T>(r: Ring<T>, ev: Event<T>)
    requires Inv(r)
    ensures Puts(r, ev) ==> (IsEmpty(Top(r).pc.cs) <==> Queue(r) == [])
    ensures Puts(r, ev) ==> |Queue(r)| < r.n && Step(r, ev).put == r.put + [Top(r).e] && Step(r, ev).taken == r.taken
    ensures Takes(r, ev) ==> Queue(r) != [] && Step(r, ev).taken == r.taken + [Queue(r)[0]] && Step(r, ev).put == r.put
    ensures !Puts(r, ev) && !Takes(r, ev) ==> Step(r, ev).put == r.put && Step(r, ev).taken == r.taken
  {
    if Puts(r, ev) { PushedLen(r.n, r.w); }
    if Takes(r, ev) { StepTake(r); }
  }

  /** The word says when the queue is empty and when it is full. */
  lemma {:induction false} WordTells<T>(r: Ring<T>)
    requires Inv(r)
    ensures (IsEmpty(r.w) <==> Queue(r) == []) && (r.w.full <==> |Queue(r)| == r.n)
  {
  }

  /** A write gives up only while the buffer is full. */
  lemma {:induction false} GivesUpWhenFull<T>(r: Ring<T>)
    requires Inv(r) && r.writers != [] && Top(r).pc.Swap? && Top(r).pc.cs.full
    ensures |Queue(r)| == r.n
  {
    assert WriterOk(r.n, r.w, Queue(r), Top(r));
  }
}
