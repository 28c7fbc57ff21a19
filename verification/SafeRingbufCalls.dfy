/**
 What a read and a write of the lock-free ring buffer do for their caller: when they may give up, and that they come to
 an end when nothing interrupts them, wherever they have got to.
*/
module SafeRingbufCalls {
  import opened Options
  import opened SafeRingbuf

  /** Some steps of whoever runs, with no interrupt and no swap that fails for no reason. */
  ghost function Gos<T>(k: nat): seq<Event<T>> { seq(k, _ => Go(false)) }

  lemma {:induction false} AfterLast<T>(r: Ring<T>, evs: seq<Event<T>>, e: Event<T>)
    requires r.n > 0
    ensures After(r, evs + [e]) == Step(After(r, evs), e)
  {
    assert (evs + [e])[..|evs|] == evs;
  }

  lemma {:induction false} AfterFirst<T>(r: Ring<T>, e: Event<T>, evs: seq<Event<T>>)
    requires r.n > 0
    ensures Step(r, e).n == r.n && After(r, [e] + evs) == After(Step(r, e), evs)
  {
    if evs == [] {
      AfterLast(r, [], e);
      assert [e] + evs == [] + [e];
    } else {
      var k := |evs| - 1;
      AfterFirst(r, e, evs[..k]);
      AfterLast(r, [e] + evs[..k], evs[k]);
      assert [e] + evs == [e] + evs[..k] + [evs[k]];
    }
  }

  lemma {:induction false} GosFirst<T>(r: Ring<T>, k: nat)
    requires r.n > 0 && k > 0
    ensures Step(r, Go(false)).n == r.n && After(r, Gos(k)) == After(Step(r, Go(false)), Gos(k - 1))
  {
    assert Gos<T>(k) == [Go(false)] + Gos<T>(k - 1);
    AfterFirst(r, Go(false), Gos(k - 1));
  }

  // ---------------------------------------------------------------- a write

  /** How many steps a writer needs from its first load, and from where it is. */
  ghost function WholeWrite(w: Word): nat { if w.full then 3 else 4 }

  ghost function WriteSteps(pc: WriterPc, w: Word): nat
  {
    match pc
    case Load1 => WholeWrite(w)
    case Load2(cs) => if cs.full then 2 else if w == cs then 3 else 2 + WholeWrite(w)
    case Swap(cs, _) => if cs.full then 1 else if w == cs then 2 else 1 + WholeWrite(w)
    case Store(_) => 1
  }

  /** All that will have been put in once the innermost writer is done. */
  ghost function PutInTheEnd<T>(r: Ring<T>): seq<T>
    requires r.writers != [] && |r.taken| <= |r.put|
  {
    if Top(r).pc.Store? || |Queue(r)| == r.n then r.put else r.put + [Top(r).e]
  }

  /** The innermost writer is one step nearer to its end, which is the same as before. */
  ghost predicate Nearer<T>(r: Ring<T>, u: Ring<T>)
    requires r.writers != [] && Inv(r) && Inv(u)
  {
    && u.n == r.n && u.reader == r.reader && u.taken == r.taken
    && if WriteSteps(Top(r).pc, r.w) == 1 then u.writers == Below(r) && u.put == PutInTheEnd(r)
       else
         && u.writers != [] && Below(u) == Below(r) && PutInTheEnd(u) == PutInTheEnd(r)
         && WriteSteps(Top(u).pc, u.w) == WriteSteps(Top(r).pc, r.w) - 1
  }

  lemma {:induction false} LoadNearer<T>(r: Ring<T>)
    requires Inv(r) && r.writers != [] && (Top(r).pc.Load1? || Top(r).pc.Load2?)
    ensures Inv(Step(r, Go(false))) && Nearer(r, Step(r, Go(false)))
  {
    StepInv(r, Go(false));
    assert Queue(Step(r, Go(false))) == Queue(r);
  }

  lemma {:induction false} SwapNearer<T>(r: Ring<T>)
    requires Inv(r) && r.writers != [] && Top(r).pc.Swap?
    ensures Inv(Step(r, Go(false))) && Nearer(r, Step(r, Go(false)))
  {
    StepInv(r, Go(false));
    WordTells(r);
    assert WriterOk(r.n, r.w, Queue(r), Top(r));
  }

  lemma {:induction false} StoreNearer<T>(r: Ring<T>)
    requires Inv(r) && r.writers != [] && Top(r).pc.Store?
    ensures Inv(Step(r, Go(false))) && Nearer(r, Step(r, Go(false)))
  {
    StepInv(r, Go(false));
  }

  lemma {:induction false} WriteNearer<T>(r: Ring<T>)
    requires Inv(r) && r.writers != []
    ensures Inv(Step(r, Go(false))) && Nearer(r, Step(r, Go(false)))
  {
    match Top(r).pc
    case Load1 => LoadNearer(r);
    case Load2(_) => LoadNearer(r);
    case Swap(_, _) => SwapNearer(r);
    case Store(_) => StoreNearer(r);
  }

  /** A write that is not interrupted ends, wherever it has got to and whatever it has interrupted: its element is put
      in if and only if there is room, and nothing else happens to the queue. */
  lemma {:induction false} WriteEnds<T>(r: Ring<T>)
    requires Inv(r) && r.writers != []
    ensures var u := After(r, Gos(WriteSteps(Top(r).pc, r.w)));
      && Inv(u) && u.writers == Below(r) && u.reader == r.reader && u.taken == r.taken
      && u.put == if Top(r).pc.Store? || |Queue(r)| == r.n then r.put else r.put + [Top(r).e]
    decreases WriteSteps(Top(r).pc, r.w)
  {
    var u, k := Step(r, Go(false)), WriteSteps(Top(r).pc, r.w);
    GosFirst(r, k);
    WriteNearer(r);
    if k > 1 { WriteEnds(u); }
  }

  /** A write that finds room puts its element at the end of the queue in four steps, and one that finds none leaves
      everything as it was in three. */
  lemma {:induction false} WritePuts<T>(r: Ring<T>, e: T)
    requires Inv(r)
    ensures |Queue(r)| < r.n ==>
      var u := After(r, [Interrupt(e), Go(false), Go(false), Go(false), Go(false)]);
      u.put == r.put + [e] && u.taken == r.taken && u.writers == r.writers && u.reader == r.reader
    ensures |Queue(r)| == r.n ==>
      var u := After(r, [Interrupt(e), Go(false), Go(false), Go(false)]);
      u.put == r.put && u.taken == r.taken && u.writers == r.writers && u.reader == r.reader
  {
    var u := Step(r, Interrupt(e));
    StepInv(r, Interrupt(e));
    WordTells(r);
    assert Top(u) == Writer(e, Load1) && Below(u) == r.writers && Queue(u) == Queue(r);
    WriteEnds(u);
    var k := WriteSteps(Load1, r.w);
    AfterFirst(r, Interrupt(e), Gos(k));
    if k == 4 {
      assert [Interrupt(e)] + Gos(4) == [Interrupt(e), Go(false), Go(false), Go(false), Go(false)];
    } else {
      assert [Interrupt(e)] + Gos(3) == [Interrupt(e), Go(false), Go(false), Go(false)];
    }
  }

  /** A writer is done only when it has stored its element or the buffer is full: a swap that fails is no reason. */
  lemma {:induction false} WriteGivesUp<T>(r: Ring<T>, ev: Event<T>)
    requires Inv(r) && |Step(r, ev).writers| < |r.writers|
    ensures r.writers != [] && Step(r, ev).writers == Below(r) && (Top(r).pc.Store? || |Queue(r)| == r.n)
  {
    if r.writers != [] { assert WriterOk(r.n, r.w, Queue(r), Top(r)); }
    WordTells(r);
  }

  // ---------------------------------------------------------------- a read

  /** A read whose first load has found nothing will give up, whatever is put in meanwhile. */
  ghost predicate GivingUp<T>(x: Option<ReaderPc<T>>)
  {
    x.Some? && (x.value.RLoad2? || x.value.RCopy?) && IsEmpty(x.value.cs)
  }

  /** How many steps a reader needs from its first load, and from where it is. */
  ghost function WholeRead(w: Word): nat { if IsEmpty(w) then 3 else 4 }

  ghost function ReadSteps<T>(x: ReaderPc<T>, w: Word): nat
  {
    match x
    case RLoad1 => WholeRead(w)
    case RLoad2(cs) => if IsEmpty(cs) then 2 else if w == cs then 3 else 3 + WholeRead(w)
    case RCopy(cs, _) => if IsEmpty(cs) then 1 else if w == cs then 2 else 2 + WholeRead(w)
    case RSwap(cs, _, _) => if w == cs then 1 else 1 + WholeRead(w)
  }

  /** All that will have been taken out once the reader is done. */
  ghost function TakenInTheEnd<T>(r: Ring<T>): seq<T>
    requires |r.taken| <= |r.put|
  {
    if GivingUp(r.reader) || Queue(r) == [] then r.taken else r.taken + [Queue(r)[0]]
  }

  /** The reader is one step nearer to its end, which is the same as before. */
  ghost predicate ReadCloser<T>(r: Ring<T>, u: Ring<T>)
    requires r.reader.Some? && Inv(r) && Inv(u)
  {
    && u.n == r.n && u.writers == [] && u.put == r.put
    && if ReadSteps(r.reader.value, r.w) == 1 then u.reader.None? && u.taken == TakenInTheEnd(r)
       else
         && u.reader.Some? && TakenInTheEnd(u) == TakenInTheEnd(r)
         && ReadSteps(u.reader.value, u.w) == ReadSteps(r.reader.value, r.w) - 1
  }

  lemma {:induction false} LoadCloser<T>(r: Ring<T>)
    requires Inv(r) && r.writers == [] && r.reader.Some? && (r.reader.value.RLoad1? || r.reader.value.RLoad2?)
    ensures Inv(Step(r, Go(false))) && ReadCloser(r, Step(r, Go(false)))
  {
    StepInv(r, Go(false));
    WordTells(r);
    assert Queue(Step(r, Go(false))) == Queue(r);
  }

  lemma {:induction false} CopyCloser<T>(r: Ring<T>)
    requires Inv(r) && r.writers == [] && r.reader.Some? && r.reader.value.RCopy?
    ensures Inv(Step(r, Go(false))) && ReadCloser(r, Step(r, Go(false)))
  {
    StepInv(r, Go(false));
    WordTells(r);
    assert Queue(Step(r, Go(false))) == Queue(r);
  }

  lemma {:induction false} TakeCloser<T>(r: Ring<T>)
    requires Inv(r) && r.writers == [] && r.reader.Some? && r.reader.value.RSwap?
    ensures Inv(Step(r, Go(false))) && ReadCloser(r, Step(r, Go(false)))
  {
    StepInv(r, Go(false));
    WordTells(r);
    if r.w == r.reader.value.cs { StepTake(r); } else { assert Queue(Step(r, Go(false))) == Queue(r); }
  }

  lemma {:induction false} ReadNearer<T>(r: Ring<T>)
    requires Inv(r) && r.writers == [] && r.reader.Some?
    ensures Inv(Step(r, Go(false))) && ReadCloser(r, Step(r, Go(false)))
  {
    match r.reader.value
    case RLoad1 => LoadCloser(r);
    case RLoad2(_) => LoadCloser(r);
    case RCopy(_, _) => CopyCloser(r);
    case RSwap(_, _, _) => TakeCloser(r);
  }

  /** A read that is not interrupted ends, wherever it has got to: it takes the first element unless there is none, or
      there was none at its first load. */
  lemma {:induction false} ReadEnds<T>(r: Ring<T>)
    requires Inv(r) && r.writers == [] && r.reader.Some?
    ensures var u := After(r, Gos(ReadSteps(r.reader.value, r.w)));
      && Inv(u) && u.writers == [] && u.reader.None? && u.put == r.put
      && u.taken == if GivingUp(r.reader) || Queue(r) == [] then r.taken else r.taken + [Queue(r)[0]]
    decreases ReadSteps(r.reader.value, r.w)
  {
    var u, k := Step(r, Go(false)), ReadSteps(r.reader.value, r.w);
    GosFirst(r, k);
    ReadNearer(r);
    if k > 1 { ReadEnds(u); }
  }

  /** A read of a buffer that holds something takes its first element in four steps, full or not, and one of an empty
      buffer leaves everything as it was in three. */
  lemma {:induction false} ReadTakes<T>(r: Ring<T>)
    requires Inv(r) && r.writers == [] && r.reader.None?
    ensures Queue(r) != [] ==>
      var u := After(r, [StartRead, Go(false), Go(false), Go(false), Go(false)]);
      u.taken == r.taken + [Queue(r)[0]] && u.put == r.put && u.writers == [] && u.reader.None?
    ensures Queue(r) == [] ==>
      var u := After(r, [StartRead, Go(false), Go(false), Go(false)]);
      u.taken == r.taken && u.put == r.put && u.writers == [] && u.reader.None?
  {
    var u := Step(r, StartRead);
    StepInv(r, StartRead);
    WordTells(r);
    assert Queue(u) == Queue(r);
    ReadEnds(u);
    var k := ReadSteps<T>(RLoad1, r.w);
    AfterFirst(r, StartRead, Gos(k));
    if k == 4 {
      assert [StartRead] + Gos<T>(4) == [StartRead, Go(false), Go(false), Go(false), Go(false)];
    } else {
      assert [StartRead] + Gos<T>(3) == [StartRead, Go(false), Go(false), Go(false)];
    }
  }

  /** A read is done only when it has taken an element or its first load has found none. */
  lemma {:induction false} ReadGivesUp<T>(r: Ring<T>, ev: Event<T>)
    requires Inv(r) && r.reader.Some? && Step(r, ev).reader.None?
    ensures Takes(r, ev) || GivingUp(r.reader)
  {
  }

  /** At some point of the run the read was about to load and the buffer was empty, and it has been at work since. */
  ghost predicate FoundNone<T>(r: Ring<T>, evs: seq<Event<T>>, k: nat)
    requires r.n > 0
  {
    && k < |evs| && Inv(After(r, evs[..k])) && After(r, evs[..k]).reader == Some(RLoad1)
    && Queue(After(r, evs[..k])) == []
    && forall i :: k <= i <= |evs| ==> After(r, evs[..i]).reader.Some?
  }

  lemma {:induction false} FoundStill<T>(r: Ring<T>, evs: seq<Event<T>>, k: nat)
    requires r.n > 0 && evs != [] && FoundNone(r, evs[..|evs| - 1], k) && After(r, evs).reader.Some?
    ensures FoundNone(r, evs, k)
  {
    var es := evs[..|evs| - 1];
    assert es[..k] == evs[..k] && evs[..|evs|] == evs;
    forall i | k <= i <= |evs| ensures After(r, evs[..i]).reader.Some? {
      if i < |evs| { assert es[..i] == evs[..i]; }
    }
  }

  lemma {:induction false} LoadFinds<T>(r: Ring<T>, ev: Event<T>)
    requires Inv(r) && !GivingUp(r.reader) && GivingUp(Step(r, ev).reader)
    ensures r.reader == Some(RLoad1) && Queue(r) == []
  {
    WordTells(r);
  }

  lemma {:induction false} InvAfter<T>(r: Ring<T>, evs: seq<Event<T>>)
    requires Inv(r)
    ensures Inv(After(r, evs))
  {
    if evs != [] {
      InvAfter(r, evs[..|evs| - 1]);
      StepInv(After(r, evs[..|evs| - 1]), evs[|evs| - 1]);
    }
  }

  lemma {:induction false} FoundNow<T>(r: Ring<T>, evs: seq<Event<T>>)
    requires Inv(r) && evs != [] && GivingUp(After(r, evs).reader) && !GivingUp(After(r, evs[..|evs| - 1]).reader)
    ensures FoundNone(r, evs, |evs| - 1)
  {
    InvAfter(r, evs[..|evs| - 1]);
    LoadFinds(After(r, evs[..|evs| - 1]), evs[|evs| - 1]);
    assert evs[..|evs|] == evs;
  }

  /** In every run, a read that will give up has found the buffer empty since it began. */
  lemma {:induction false} GivesUpAfterEmpty<T>(r: Ring<T>, evs: seq<Event<T>>)
    requires Inv(r) && r.reader.None? && GivingUp(After(r, evs).reader)
    ensures exists k :: FoundNone(r, evs, k)
  {
    if evs != [] {
      var es := evs[..|evs| - 1];
      if GivingUp(After(r, es).reader) {
        GivesUpAfterEmpty(r, es);
        var k :| FoundNone(r, es, k);
        FoundStill(r, evs, k);
      } else {
        FoundNow(r, evs);
      }
    }
  }
}
