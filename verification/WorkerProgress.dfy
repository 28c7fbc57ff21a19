/**
 What the worker and its enqueuers get done, with each load, swap and store of the buffer a step of its own: when the
 worker may stop looking for jobs, and that an enqueue and the worker, left alone, come to what they are for.
*/
module WorkerProgress {
  import opened Options
  import SafeRingbuf
  import Calls = SafeRingbufCalls
  import opened Worker
  import opened WorkerQueue

  ghost function Goes(k: nat): seq<SysEvent> { seq(k, _ => SysEvent.Go(false)) }

  lemma {:induction false} RanLast(s: Sys, evs: seq<SysEvent>, e: SysEvent)
    requires s.r.n > 0
    ensures Ran(s, evs + [e]) == SysStep(Ran(s, evs), e)
  {
    assert (evs + [e])[..|evs|] == evs;
  }

  lemma {:induction false} RanMore(s: Sys, es: seq<SysEvent>, gs: seq<SysEvent>, f: SysEvent)
    requires s.r.n > 0 && Ran(s, es + gs) == Ran(Ran(s, es), gs)
    ensures Ran(s, es + (gs + [f])) == Ran(Ran(s, es), gs + [f])
  {
    RanLast(s, es + gs, f);
    RanLast(Ran(s, es), gs, f);
    assert es + (gs + [f]) == es + gs + [f];
  }

  lemma {:induction false} RanBoth(s: Sys, es: seq<SysEvent>, fs: seq<SysEvent>)
    requires s.r.n > 0
    ensures Ran(s, es + fs) == Ran(Ran(s, es), fs)
  {
    if fs == [] {
      assert es + fs == es;
    } else {
      var gs, f := fs[..|fs| - 1], fs[|fs| - 1];
      assert fs == gs + [f];
      RanBoth(s, es, gs);
      RanMore(s, es, gs, f);
    }
  }

  lemma {:induction false} GoesFirst(s: Sys, k: nat)
    requires s.r.n > 0 && k > 0
    ensures Ran(s, Goes(k)) == Ran(SysStep(s, SysEvent.Go(false)), Goes(k - 1))
  {
    assert Goes(k) == [SysEvent.Go(false)] + Goes(k - 1);
    RanBoth(s, [SysEvent.Go(false)], Goes(k - 1));
    RanLast(s, [], SysEvent.Go(false));
    assert [] + [SysEvent.Go(false)] == [SysEvent.Go(false)];
  }

  // ---------------------------------------------------------------- when the worker stops looking

  /** The worker stops looking for jobs only after a read whose first load has found none. */
  lemma {:induction false} StopsAfterNone(s: Sys, ev: SysEvent)
    requires SysInv(s) && s.pc.Take? && SysStep(s, ev).pc.Check?
    ensures Calls.GivingUp(s.r.reader) && SysStep(s, ev).r.taken == s.r.taken
  {
  }

  /** At some point of the run the worker was about to load the word, and there was no job. */
  ghost predicate SawNone(s: Sys, evs: seq<SysEvent>, k: nat)
    requires s.r.n > 0
  {
    && k < |evs| && SysInv(Ran(s, evs[..k])) && Ran(s, evs[..k]).pc.Take?
    && Ran(s, evs[..k]).r.reader == Some(SafeRingbuf.RLoad1) && SafeRingbuf.Queue(Ran(s, evs[..k]).r) == []
    && forall i :: k <= i <= |evs| ==> Ran(s, evs[..i]).pc.Take? && Ran(s, evs[..i]).r.reader.Some?
  }

  lemma {:induction false} SawStill(s: Sys, evs: seq<SysEvent>, k: nat)
    requires s.r.n > 0 && evs != [] && SawNone(s, evs[..|evs| - 1], k)
    requires Ran(s, evs).pc.Take? && Ran(s, evs).r.reader.Some?
    ensures SawNone(s, evs, k)
  {
    var es := evs[..|evs| - 1];
    assert es[..k] == evs[..k] && evs[..|evs|] == evs;
    forall i | k <= i <= |evs| ensures Ran(s, evs[..i]).pc.Take? && Ran(s, evs[..i]).r.reader.Some? {
      if i < |evs| { assert es[..i] == evs[..i]; }
    }
  }

  /** A step that makes the read one that will give up is its first load. */
  lemma {:induction false} LoadSaw(s: Sys, ev: SysEvent)
    requires SysInv(s) && !Calls.GivingUp(s.r.reader) && Calls.GivingUp(SysStep(s, ev).r.reader)
    ensures s.pc.Take? && s.r.reader == Some(SafeRingbuf.RLoad1) && SafeRingbuf.Queue(s.r) == []
    ensures SysStep(s, ev).pc.Take?
  {
    if ev.Enqueue? || s.es != [] { ReaderKept(s, ev); } else { SafeRingbuf.WordTells(s.r); }
  }

  lemma {:induction false} ReaderKept(s: Sys, ev: SysEvent)
    requires SysInv(s) && (ev.Enqueue? || s.es != [])
    ensures SysStep(s, ev).r.reader == s.r.reader
  {
    if !ev.Enqueue? && InBuffer(s.es[|s.es| - 1]) { PutHasWriter(s); }
  }

  lemma {:induction false} SawNow(s: Sys, evs: seq<SysEvent>, u: Sys)
    requires s.r.n > 0 && evs != [] && Ran(s, evs[..|evs| - 1]) == u && SysInv(u)
    requires u.pc.Take? && u.r.reader == Some(SafeRingbuf.RLoad1) && SafeRingbuf.Queue(u.r) == []
    requires Ran(s, evs).pc.Take? && Ran(s, evs).r.reader.Some?
    ensures SawNone(s, evs, |evs| - 1)
  {
    var k := |evs| - 1;
    assert evs[..|evs|] == evs;
    forall i | k <= i <= |evs| ensures Ran(s, evs[..i]).pc.Take? && Ran(s, evs[..i]).r.reader.Some? {
      if i == k { assert Ran(s, evs[..i]) == u; } else { assert evs[..i] == evs; }
    }
  }

  lemma {:induction false} SysInvAfter(s: Sys, evs: seq<SysEvent>)
    requires SysInv(s)
    ensures SysInv(Ran(s, evs))
  {
    if evs != [] {
      SysInvAfter(s, evs[..|evs| - 1]);
      SysKeeps(Ran(s, evs[..|evs| - 1]), evs[|evs| - 1]);
    }
  }

  /** In every run, a read that will give up has loaded the word while there was no job. */
  lemma {:induction false} GivesUpAfterNone(s: Sys, evs: seq<SysEvent>)
    requires SysInv(s) && s.r.reader.None? && Calls.GivingUp(Ran(s, evs).r.reader)
    ensures exists k :: SawNone(s, evs, k)
  {
    if evs != [] {
      var es := evs[..|evs| - 1];
      SysInvAfter(s, evs);
      if Calls.GivingUp(Ran(s, es).r.reader) {
        GivesUpAfterNone(s, es);
        var k :| SawNone(s, es, k);
        SawStill(s, evs, k);
      } else {
        SysInvAfter(s, es);
        LoadSaw(Ran(s, es), evs[|evs| - 1]);
        SawNow(s, evs, Ran(s, es));
      }
    }
  }

  /** In every run, when the worker goes on from looking for a job to its last look, it has loaded the word while there
      was none, and has been looking since. */
  lemma {:induction false} LeavesAfterNone(n: nat, buf: seq<Job>, evs: seq<SysEvent>, ev: SysEvent)
    requires n > 0 && |buf| == n && Ran(Start(n, buf), evs).pc.Take? && Ran(Start(n, buf), evs + [ev]).pc.Check?
    ensures exists k :: SawNone(Start(n, buf), evs, k)
  {
    AlwaysSysInv(n, buf, evs);
    RanLast(Start(n, buf), evs, ev);
    StopsAfterNone(Ran(Start(n, buf), evs), ev);
    AlwaysSysInv(n, buf, []);
    GivesUpAfterNone(Start(n, buf), evs);
  }

  // ---------------------------------------------------------------- the worker, left alone

  /** How many steps the worker is away from taking a job that is there. */
  ghost function FromCheck(s: Sys): nat { if s.waiting then 9 else 8 }

  ghost function ToNextTake(s: Sys): nat
  {
    match s.pc
    case Take =>
      if s.r.reader.None? then 5
      else Calls.ReadSteps(s.r.reader.value, s.r.w) + if Calls.GivingUp(s.r.reader) then FromCheck(s) else 0
    case Awake => 6
    case Switched => 7
    case Decide => FromCheck(s) - 1
    case Check => FromCheck(s)
  }

  ghost predicate Ready(s: Sys) { SysInv(s) && s.es == [] && SafeRingbuf.Queue(s.r) != [] }

  /** One step nearer to taking the first job. */
  ghost predicate TakeNearer(s: Sys, u: Sys)
    requires Ready(s)
  {
    && SysInv(u) && u.es == [] && u.r.n == s.r.n && u.r.put == s.r.put
    && if ToNextTake(s) == 1 then u.r.taken == s.r.taken + [SafeRingbuf.Queue(s.r)[0]]
       else u.r.taken == s.r.taken && ToNextTake(u) == ToNextTake(s) - 1
  }

  lemma {:induction false} ReadTakeNearer(s: Sys)
    requires Ready(s) && s.pc.Take? && s.r.reader.Some?
    ensures TakeNearer(s, SysStep(s, SysEvent.Go(false)))
  {
    SysKeeps(s, SysEvent.Go(false));
    Calls.ReadNearer(s.r);
    SafeRingbuf.WordTells(s.r);
    SafeRingbuf.EffectAtSwap(s.r, SafeRingbuf.Go(false));
  }

  lemma {:induction false} OtherTakeNearer(s: Sys)
    requires Ready(s) && (s.pc.Take? ==> s.r.reader.None?)
    ensures TakeNearer(s, SysStep(s, SysEvent.Go(false)))
  {
    SysKeeps(s, SysEvent.Go(false));
    SafeRingbuf.WordTells(s.r);
  }

  /** A worker with a job that is not interrupted takes it, wherever it is, asleep or not. */
  lemma {:induction false} NextJobTaken(s: Sys)
    requires Ready(s)
    ensures var u := Ran(s, Goes(ToNextTake(s)));
      SysInv(u) && u.es == [] && u.r.put == s.r.put && u.r.taken == s.r.taken + [SafeRingbuf.Queue(s.r)[0]]
    decreases ToNextTake(s)
  {
    var u, k := SysStep(s, SysEvent.Go(false)), ToNextTake(s);
    if s.pc.Take? && s.r.reader.Some? { ReadTakeNearer(s); } else { OtherTakeNearer(s); }
    GoesFirst(s, k);
    if k > 1 { NextJobTaken(u); }
  }

  /** All jobs that are in have been taken after so many steps. */
  ghost predicate AllTaken(s: Sys, k: nat)
    requires s.r.n > 0
  {
    Ran(s, Goes(k)).es == [] && Ran(s, Goes(k)).r.taken == s.r.put
  }

  /** Left alone, the worker takes every job that has been put in. */
  lemma {:induction false} AllJobsTaken(s: Sys)
    requires SysInv(s) && s.es == []
    ensures exists k :: AllTaken(s, k)
    decreases |SafeRingbuf.Queue(s.r)|
  {
    if SafeRingbuf.Queue(s.r) == [] {
      assert AllTaken(s, 0);
    } else {
      var j := ToNextTake(s);
      NextJobTaken(s);
      var u := Ran(s, Goes(j));
      AllJobsTaken(u);
      var k :| AllTaken(u, k);
      RanBoth(s, Goes(j), Goes(k));
      assert Goes(j) + Goes(k) == Goes(j + k);
      assert AllTaken(s, j + k);
    }
  }

  // ---------------------------------------------------------------- an enqueue, left alone

  /** How many steps the innermost enqueuer needs to its end. */
  ghost function ToEnd(s: Sys): nat
    requires s.es != []
  {
    var wakes := if s.waiting then 3 else 1;
    match s.es[|s.es| - 1]
    case Put(_) =>
      if s.r.writers == [] then 0
      else Calls.WriteSteps(SafeRingbuf.Top(s.r).pc, s.r.w) + if SafeRingbuf.IsEmpty(s.r.w) then wakes else 0
    case Store(wasEmpty) => if wasEmpty then 1 + wakes else 1
    case Look => wakes
    case Clear => 2
    case Wake => 1
  }

  /** One step nearer to the end of the innermost enqueuer, which is the same as before. */
  ghost predicate EndNearer(s: Sys, u: Sys)
    requires SysInv(s) && s.es != []
  {
    && SysInv(u)
    && if ToEnd(s) == 1 then View(u) == Enqueued(View(s))
       else u.es != [] && Enqueued(View(u)) == Enqueued(View(s)) && ToEnd(u) == ToEnd(s) - 1
  }

  /** The queue, the word and the writer of an enqueuer that has not swapped. */
  lemma {:induction false} PutHasWriter(s: Sys)
    requires SysInv(s) && s.es != [] && InBuffer(s.es[|s.es| - 1])
    ensures s.r.writers != [] && Pair(s.es[|s.es| - 1], SafeRingbuf.Top(s.r))
    ensures SafeRingbuf.IsEmpty(s.r.w) <==> SafeRingbuf.Queue(s.r) == []
    ensures s.r.w.full <==> |SafeRingbuf.Queue(s.r)| == s.r.n
  {
    SafeRingbuf.WordTells(s.r);
  }

  lemma {:induction false} LoadEndNearer(s: Sys)
    requires SysInv(s) && s.es != [] && s.es[|s.es| - 1].Put? && s.r.writers != [] && !SafeRingbuf.Top(s.r).pc.Swap?
    ensures EndNearer(s, SysStep(s, SysEvent.Go(false)))
  {
    PutHasWriter(s);
    SysKeeps(s, SysEvent.Go(false));
    Calls.WriteNearer(s.r);
    QuietStep(s, SafeRingbuf.Go(false));
    assert View(SysStep(s, SysEvent.Go(false))) == View(s);
  }

  lemma {:induction false} SwapEndNearer(s: Sys)
    requires SysInv(s) && s.es != [] && s.es[|s.es| - 1].Put? && s.r.writers != [] && SafeRingbuf.Top(s.r).pc.Swap?
    ensures EndNearer(s, SysStep(s, SysEvent.Go(false)))
  {
    PutHasWriter(s);
    SysKeeps(s, SysEvent.Go(false));
    Calls.WriteNearer(s.r);
    EnqueueNearer(View(s));
  }

  lemma {:induction false} PutEndNearer(s: Sys)
    requires SysInv(s) && s.es != [] && s.es[|s.es| - 1].Put?
    ensures EndNearer(s, SysStep(s, SysEvent.Go(false)))
  {
    PutHasWriter(s);
    if SafeRingbuf.Top(s.r).pc.Swap? { SwapEndNearer(s); } else { LoadEndNearer(s); }
  }

  lemma {:induction false} LaterToEnd(s: Sys)
    requires SysInv(s) && s.es != [] && !s.es[|s.es| - 1].Put?
    ensures ToEnd(s) == EnqueueSteps(View(s))
  {
  }

  lemma {:induction false} StaysLater(s: Wth)
    requires s.enqueuers != [] && !Top(s).Put? && EnqueueSteps(s) > 1
    ensures EnqueuerStep(s).enqueuers != [] && !Top(EnqueuerStep(s)).Put?
  {
  }

  lemma {:induction false} LaterFollows(s: Sys)
    requires SysInv(s) && s.es != [] && !s.es[|s.es| - 1].Put?
    ensures SysInv(SysStep(s, SysEvent.Go(false))) && View(SysStep(s, SysEvent.Go(false))) == EnqueuerStep(View(s))
  {
    SysKeeps(s, SysEvent.Go(false));
    if s.es[|s.es| - 1].Store? { StoreKeeps(s, false); } else { WakeView(s, false); }
  }

  lemma {:induction false} LaterEndNearer(s: Sys)
    requires SysInv(s) && s.es != [] && !s.es[|s.es| - 1].Put?
    ensures EndNearer(s, SysStep(s, SysEvent.Go(false)))
  {
    var u := SysStep(s, SysEvent.Go(false));
    LaterFollows(s);
    EnqueueNearer(View(s));
    LaterToEnd(s);
    if ToEnd(s) > 1 {
      StaysLater(View(s));
      LaterToEnd(u);
    }
  }

  /** An enqueue that is not interrupted ends, wherever it has got to: its job is in if there is room, and the worker is
      runnable if the job was the first one and the flag was set. */
  lemma {:induction false} EnqueueDone(s: Sys)
    requires SysInv(s) && s.es != []
    ensures SysInv(Ran(s, Goes(ToEnd(s)))) && View(Ran(s, Goes(ToEnd(s)))) == Enqueued(View(s))
    decreases ToEnd(s)
  {
    var u, k := SysStep(s, SysEvent.Go(false)), ToEnd(s);
    if s.es[|s.es| - 1].Put? { PutEndNearer(s); } else { LaterEndNearer(s); }
    if k > 0 { GoesFirst(s, k); }
    if k > 1 { EnqueueDone(u); }
  }
}
