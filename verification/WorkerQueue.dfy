/**
 The queue of a worker as the lock-free buffer has it.  The model of the worker puts and takes a job in one step; here
 these steps are the swaps of the buffer, and no other step of the buffer changes the queue.
*/
module WorkerQueue {
  import opened Options
  import SafeRingbuf
  import SafeRingbufCalls
  import opened Worker

  type Ring = SafeRingbuf.Ring<Job>

  /** The buffer holds the jobs of the worker. */
  ghost predicate Same(r: Ring, s: Wth)
  {
    SafeRingbuf.Inv(r) && s.size == r.n && s.put == r.put && s.ran == r.taken && s.queue == SafeRingbuf.Queue(r)
  }

  lemma {:induction false} QueueGrows(r: Ring, u: Ring, j: Job)
    requires SafeRingbuf.Inv(r) && SafeRingbuf.Inv(u) && u.put == r.put + [j] && u.taken == r.taken
    ensures SafeRingbuf.Queue(u) == SafeRingbuf.Queue(r) + [j]
  {
  }

  lemma {:induction false} QueueShrinks(r: Ring, u: Ring)
    requires SafeRingbuf.Inv(r) && SafeRingbuf.Inv(u) && SafeRingbuf.Queue(r) != []
    requires u.put == r.put && u.taken == r.taken + [SafeRingbuf.Queue(r)[0]]
    ensures SafeRingbuf.Queue(u) == SafeRingbuf.Queue(r)[1..]
  {
  }

  /** The swap of a write is the step of an enqueuer that puts its job in, with the answer whether the buffer was
      empty. */
  lemma {:induction false} PutAtSwap(r: Ring, ev: SafeRingbuf.Event<Job>, s: Wth)
    requires Same(r, s) && SafeRingbuf.Puts(r, ev)
    requires s.enqueuers != [] && Top(s) == Put(SafeRingbuf.Top(r).e)
    ensures Same(SafeRingbuf.Step(r, ev), EnqueuerStep(s))
    ensures EnqueuerStep(s).enqueuers == Below(s) + [Store(SafeRingbuf.IsEmpty(SafeRingbuf.Top(r).pc.cs))]
  {
    SafeRingbuf.EffectAtSwap(r, ev);
    SafeRingbuf.StepInv(r, ev);
    QueueGrows(r, SafeRingbuf.Step(r, ev), SafeRingbuf.Top(r).e);
  }

  /** A write that finds the buffer full is the step of an enqueuer that gives up. */
  lemma {:induction false} GiveUpWhenFull(r: Ring, ev: SafeRingbuf.Event<Job>, s: Wth)
    requires Same(r, s) && ev.Go? && r.writers != []
    requires SafeRingbuf.Top(r).pc.Swap? && SafeRingbuf.Top(r).pc.cs.full
    requires s.enqueuers != [] && Top(s) == Put(SafeRingbuf.Top(r).e)
    ensures Same(SafeRingbuf.Step(r, ev), EnqueuerStep(s)) && EnqueuerStep(s).enqueuers == Below(s)
  {
    SafeRingbuf.GivesUpWhenFull(r);
    SafeRingbuf.EffectAtSwap(r, ev);
    SafeRingbuf.StepInv(r, ev);
  }

  /** The swap of a read is the step of the worker that takes a job. */
  lemma {:induction false} TakeAtSwap(r: Ring, ev: SafeRingbuf.Event<Job>, s: Wth)
    requires Same(r, s) && SafeRingbuf.Takes(r, ev) && s.pc.Take?
    ensures Same(SafeRingbuf.Step(r, ev), WorkerStep(s)) && WorkerStep(s).pc.Take?
  {
    SafeRingbuf.EffectAtSwap(r, ev);
    SafeRingbuf.StepInv(r, ev);
    QueueShrinks(r, SafeRingbuf.Step(r, ev));
  }

  /** A read that will find nothing has loaded the word while there was no job, so that the worker goes on to its last
      look at the buffer. */
  lemma {:induction false} NothingAtLoad(r: Ring, s: Wth)
    requires Same(r, s) && r.writers == [] && r.reader == Some(SafeRingbuf.RLoad1) && s.pc.Take?
    ensures SafeRingbuf.Step(r, SafeRingbuf.Go(false)).reader == Some(SafeRingbuf.RLoad2(r.w))
    ensures SafeRingbuf.IsEmpty(r.w) <==> WorkerStep(s).pc.Check?
  {
    SafeRingbuf.WordTells(r);
  }

  /** All other steps of the buffer leave the worker's view of it alone. */
  lemma {:induction false} OtherStepsStay(r: Ring, ev: SafeRingbuf.Event<Job>, s: Wth)
    requires Same(r, s) && !SafeRingbuf.Puts(r, ev) && !SafeRingbuf.Takes(r, ev)
    ensures Same(SafeRingbuf.Step(r, ev), s)
  {
    SafeRingbuf.EffectAtSwap(r, ev);
    SafeRingbuf.StepInv(r, ev);
  }

  // ---------------------------------------------------------------- both in one machine

  /** A worker with its buffer: enqueuers that put a job are writers of the buffer, and the worker is its reader. */
  datatype Sys = Sys(r: Ring, es: seq<Enqueuer>, pc: WorkerPc, sleeping: bool, waiting: bool)

  datatype SysEvent = Enqueue(j: Job) | Go(spurious: bool)

  ghost function Start(n: nat, buf: seq<Job>): Sys { Sys(SafeRingbuf.Initial(n, buf), [], Awake, false, false) }

  /** The next step of the innermost enqueuer. */
  ghost function EnqueuerGoes(s: Sys, spurious: bool): Sys
    requires s.es != [] && s.r.n > 0
  {
    var below := s.es[..|s.es| - 1];
    match s.es[|s.es| - 1]
    case Put(_) => s.(r := SafeRingbuf.Step(s.r, SafeRingbuf.Go(spurious)), es := AfterPut(s, below, spurious))
    case Store(wasEmpty) =>
      s.(r := SafeRingbuf.Step(s.r, SafeRingbuf.Go(spurious)), es := below + if wasEmpty then [Look] else [])
    case Look => s.(es := below + if s.waiting then [Clear] else [])
    case Clear => s.(es := below + [Wake], waiting := false)
    case Wake => s.(es := below, sleeping := false)
  }

  /** A write has given up, has swapped the word, or goes on. */
  ghost function AfterPut(s: Sys, below: seq<Enqueuer>, spurious: bool): seq<Enqueuer>
  {
    if s.r.writers == [] || !SafeRingbuf.Top(s.r).pc.Swap? then s.es
    else
      var cs := SafeRingbuf.Top(s.r).pc.cs;
      if cs.full then below
      else if !spurious && s.r.w == cs then below + [Store(SafeRingbuf.IsEmpty(cs))]
      else s.es
  }

  /** The next step of the worker, which starts a read, takes a step of it, or is elsewhere. */
  ghost function WorkerGoes(s: Sys, spurious: bool): Sys
    requires s.r.n > 0
  {
    match s.pc
    case Awake => s.(waiting := false, pc := Take)
    case Take =>
      if s.r.reader.None? then s.(r := SafeRingbuf.Step(s.r, SafeRingbuf.StartRead))
      else
        var u := SafeRingbuf.Step(s.r, SafeRingbuf.Go(spurious));
        s.(r := u, pc := if s.r.reader.value.RCopy? && u.reader.None? then Check else Take)
    case Check =>
      if SafeRingbuf.IsEmpty(s.r.w) then s.(sleeping := true, waiting := true, pc := Decide) else s.(pc := Decide)
    case Decide => if s.waiting then s.(pc := Switched) else s.(pc := Awake)
    case Switched => if s.sleeping then s else s.(pc := Awake)
  }

  ghost function SysStep(s: Sys, ev: SysEvent): (u: Sys)
    requires s.r.n > 0
    ensures u.r.n == s.r.n
  {
    match ev
    case Enqueue(j) => s.(r := SafeRingbuf.Step(s.r, SafeRingbuf.Interrupt(j)), es := s.es + [Put(j)])
    case Go(spurious) => if s.es != [] then EnqueuerGoes(s, spurious) else WorkerGoes(s, spurious)
  }

  /** The state as the model of the worker has it: a read that will give up has told the worker so at its first load. */
  ghost function View(s: Sys): Wth
    requires SafeRingbuf.Inv(s.r)
  {
    Wth(s.r.n, SafeRingbuf.Queue(s.r), s.es,
        if s.pc.Take? && SafeRingbufCalls.GivingUp(s.r.reader) then Check else s.pc,
        s.sleeping, s.waiting, s.r.put, s.r.taken)
  }

  /** The enqueuer that puts or stores a job is the writer at work in the buffer. */
  ghost predicate Pair(e: Enqueuer, w: SafeRingbuf.Writer<Job>)
  {
    match e
    case Put(j) => w.e == j && !w.pc.Store?
    case Store(wasEmpty) => w.pc.Store? && wasEmpty == SafeRingbuf.IsEmpty(w.pc.cs)
    case _ => false
  }

  ghost predicate InBuffer(e: Enqueuer) { e.Put? || e.Store? }

  /** The enqueuers in the buffer are its writers, in the same order. */
  ghost predicate Stacked(es: seq<Enqueuer>, ws: seq<SafeRingbuf.Writer<Job>>)
  {
    if es == [] then ws == []
    else
      var e, below := es[|es| - 1], es[..|es| - 1];
      if InBuffer(e) then ws != [] && Pair(e, ws[|ws| - 1]) && Stacked(below, ws[..|ws| - 1])
      else Stacked(below, ws)
  }

  ghost predicate SysInv(s: Sys)
  {
    && SafeRingbuf.Inv(s.r) && Stacked(s.es, s.r.writers) && (s.r.reader.Some? ==> s.pc.Take?) && Inv(View(s))
  }

  /** The model of the worker takes the same step, or none. */
  ghost predicate Follows(s: Sys, u: Sys)
    requires SysInv(s)
  {
    SysInv(u) && (View(u) == View(s) || View(u) == Step(View(s), Worker.Go))
  }

  lemma {:induction false} StackedMore(es: seq<Enqueuer>, ws: seq<SafeRingbuf.Writer<Job>>, e: Enqueuer,
                                       w: SafeRingbuf.Writer<Job>)
    requires Stacked(es, ws) && InBuffer(e) && Pair(e, w)
    ensures Stacked(es + [e], ws + [w])
  {
    assert (es + [e])[..|es|] == es && (ws + [w])[..|ws|] == ws;
  }

  lemma {:induction false} StackedAside(es: seq<Enqueuer>, ws: seq<SafeRingbuf.Writer<Job>>, e: Enqueuer)
    requires Stacked(es, ws) && !InBuffer(e)
    ensures Stacked(es + [e], ws)
  {
    assert (es + [e])[..|es|] == es;
  }

  /** A step of the buffer that keeps the queue. */
  lemma {:induction false} QuietStep(s: Sys, ev: SafeRingbuf.Event<Job>)
    requires SafeRingbuf.Inv(s.r) && !SafeRingbuf.Puts(s.r, ev) && !SafeRingbuf.Takes(s.r, ev)
    ensures var u := SafeRingbuf.Step(s.r, ev);
      SafeRingbuf.Inv(u) && u.n == s.r.n && u.put == s.r.put && u.taken == s.r.taken
      && SafeRingbuf.Queue(u) == SafeRingbuf.Queue(s.r)
  {
    SafeRingbuf.EffectAtSwap(s.r, ev);
    SafeRingbuf.StepInv(s.r, ev);
  }

  lemma {:induction false} EnqueueKeeps(s: Sys, j: Job)
    requires SysInv(s)
    ensures SysInv(SysStep(s, SysEvent.Enqueue(j)))
    ensures View(SysStep(s, SysEvent.Enqueue(j))) == Step(View(s), Worker.Enqueue(j))
  {
    QuietStep(s, SafeRingbuf.Interrupt(j));
    StackedMore(s.es, s.r.writers, Put(j), SafeRingbuf.Writer(j, SafeRingbuf.Load1));
    StepKeeps(View(s), Worker.Enqueue(j));
    assert View(SysStep(s, SysEvent.Enqueue(j))) == Step(View(s), Worker.Enqueue(j));
  }

  /** A write that has not got to its swap, or whose swap fails. */
  lemma {:induction false} PutGoesOn(s: Sys, spurious: bool)
    requires SysInv(s) && s.es != [] && s.es[|s.es| - 1].Put?
    requires AfterPut(s, s.es[..|s.es| - 1], spurious) == s.es
    requires !SafeRingbuf.Puts(s.r, SafeRingbuf.Go(spurious))
    requires SafeRingbuf.Top(s.r).pc.Swap? ==> !SafeRingbuf.Top(s.r).pc.cs.full
    ensures Follows(s, EnqueuerGoes(s, spurious))
  {
    var u := EnqueuerGoes(s, spurious);
    var k, n := |s.es| - 1, |s.r.writers| - 1;
    QuietStep(s, SafeRingbuf.Go(spurious));
    assert s.es == s.es[..k] + [s.es[k]];
    StackedMore(s.es[..k], s.r.writers[..n], s.es[k], u.r.writers[n]);
    assert u.r.writers == s.r.writers[..n] + [u.r.writers[n]];
    assert View(u) == View(s);
  }

  lemma {:induction false} PutGivesUp(s: Sys, spurious: bool)
    requires SysInv(s) && s.es != [] && s.es[|s.es| - 1].Put?
    requires s.r.writers != [] && SafeRingbuf.Top(s.r).pc.Swap? && SafeRingbuf.Top(s.r).pc.cs.full
    ensures Follows(s, EnqueuerGoes(s, spurious))
  {
    QuietStep(s, SafeRingbuf.Go(spurious));
    SafeRingbuf.GivesUpWhenFull(s.r);
    StepKeeps(View(s), Worker.Go);
    assert View(EnqueuerGoes(s, spurious)) == Step(View(s), Worker.Go);
  }

  lemma {:induction false} PutSwaps(s: Sys)
    requires SysInv(s) && s.es != [] && s.es[|s.es| - 1].Put? && SafeRingbuf.Puts(s.r, SafeRingbuf.Go(false))
    ensures Follows(s, EnqueuerGoes(s, false))
  {
    var u := EnqueuerGoes(s, false);
    var k, n := |s.es| - 1, |s.r.writers| - 1;
    PutAtSwap(s.r, SafeRingbuf.Go(false), View(s));
    StackedMore(s.es[..k], s.r.writers[..n], u.es[k], u.r.writers[n]);
    assert u.r.writers == s.r.writers[..n] + [u.r.writers[n]];
    StepKeeps(View(s), Worker.Go);
    assert View(u) == Step(View(s), Worker.Go);
  }

  lemma {:induction false} PutKeeps(s: Sys, spurious: bool)
    requires SysInv(s) && s.es != [] && s.es[|s.es| - 1].Put?
    ensures Follows(s, EnqueuerGoes(s, spurious))
  {
    var w := SafeRingbuf.Top(s.r);
    if w.pc.Swap? && w.pc.cs.full {
      PutGivesUp(s, spurious);
    } else if w.pc.Swap? && !spurious && s.r.w == w.pc.cs {
      PutSwaps(s);
    } else {
      PutGoesOn(s, spurious);
    }
  }

  lemma {:induction false} StoreKeeps(s: Sys, spurious: bool)
    requires SysInv(s) && s.es != [] && s.es[|s.es| - 1].Store?
    ensures Follows(s, EnqueuerGoes(s, spurious))
    ensures View(EnqueuerGoes(s, spurious)) == Step(View(s), Worker.Go)
  {
    var u := EnqueuerGoes(s, spurious);
    var k := |s.es| - 1;
    QuietStep(s, SafeRingbuf.Go(spurious));
    if s.es[k].wasEmpty { StackedAside(s.es[..k], u.r.writers, Look); } else { assert u.es == s.es[..k]; }
    StepKeeps(View(s), Worker.Go);
    assert View(u) == Step(View(s), Worker.Go);
  }

  lemma {:induction false} WakeStack(s: Sys, spurious: bool)
    requires s.es != [] && s.r.n > 0 && !InBuffer(s.es[|s.es| - 1]) && Stacked(s.es, s.r.writers)
    ensures var u := EnqueuerGoes(s, spurious); u.r == s.r && Stacked(u.es, s.r.writers)
  {
    var u := EnqueuerGoes(s, spurious);
    var k := |s.es| - 1;
    if |u.es| == |s.es| {
      StackedAside(s.es[..k], s.r.writers, u.es[k]);
      assert u.es == s.es[..k] + [u.es[k]];
    } else {
      assert u.es == s.es[..k];
    }
  }

  lemma {:induction false} WakeView(s: Sys, spurious: bool)
    requires SafeRingbuf.Inv(s.r) && s.es != [] && !InBuffer(s.es[|s.es| - 1])
    ensures var u := EnqueuerGoes(s, spurious); u.r == s.r && u.pc == s.pc && View(u) == Step(View(s), Worker.Go)
  {
    var u, k := EnqueuerGoes(s, spurious), |s.es| - 1;
    assert s.es[..k] + [] == s.es[..k];
  }

  lemma {:induction false} WakeKeeps(s: Sys, spurious: bool)
    requires SysInv(s) && s.es != [] && !InBuffer(s.es[|s.es| - 1])
    ensures Follows(s, EnqueuerGoes(s, spurious))
  {
    WakeStack(s, spurious);
    StepKeeps(View(s), Worker.Go);
    WakeView(s, spurious);
  }

  /** A step of a read. */
  lemma {:induction false} ReadKeeps(s: Sys, spurious: bool)
    requires SysInv(s) && s.es == [] && s.pc.Take? && s.r.reader.Some?
    ensures Follows(s, WorkerGoes(s, spurious))
  {
    var u := WorkerGoes(s, spurious);
    SafeRingbuf.WordTells(s.r);
    if SafeRingbuf.Takes(s.r, SafeRingbuf.Go(spurious)) {
      TakeAtSwap(s.r, SafeRingbuf.Go(spurious), View(s));
      StepKeeps(View(s), Worker.Go);
      assert View(u) == Step(View(s), Worker.Go);
    } else {
      QuietStep(s, SafeRingbuf.Go(spurious));
      if s.r.reader.value.RLoad1? && SafeRingbuf.IsEmpty(s.r.w) {
        StepKeeps(View(s), Worker.Go);
        assert View(u) == Step(View(s), Worker.Go);
      } else {
        assert View(u) == View(s);
      }
    }
  }

  lemma {:induction false} WorkerKeepsAll(s: Sys, spurious: bool)
    requires SysInv(s) && s.es == []
    ensures Follows(s, WorkerGoes(s, spurious))
  {
    var u := WorkerGoes(s, spurious);
    if s.pc.Take? {
      if s.r.reader.Some? {
        ReadKeeps(s, spurious);
      } else {
        QuietStep(s, SafeRingbuf.StartRead);
        assert View(u) == View(s);
      }
    } else {
      SafeRingbuf.WordTells(s.r);
      StepKeeps(View(s), Worker.Go);
      assert View(u) == Step(View(s), Worker.Go);
    }
  }

  /** Every step of the two machines together keeps the invariants of both, and is one step or no step of the model of
      the worker. */
  lemma {:induction false} SysKeeps(s: Sys, ev: SysEvent)
    requires SysInv(s)
    ensures SysInv(SysStep(s, ev))
    ensures ev.Enqueue? ==> View(SysStep(s, ev)) == Step(View(s), Worker.Enqueue(ev.j))
    ensures ev.Go? ==> View(SysStep(s, ev)) == View(s) || View(SysStep(s, ev)) == Step(View(s), Worker.Go)
  {
    if ev.Enqueue? {
      EnqueueKeeps(s, ev.j);
    } else if s.es == [] {
      WorkerKeepsAll(s, ev.spurious);
    } else if s.es[|s.es| - 1].Put? {
      PutKeeps(s, ev.spurious);
    } else if s.es[|s.es| - 1].Store? {
      StoreKeeps(s, ev.spurious);
    } else {
      WakeKeeps(s, ev.spurious);
    }
  }

  ghost function Ran(s: Sys, evs: seq<SysEvent>): (u: Sys)
    requires s.r.n > 0
    ensures u.r.n == s.r.n
  {
    if evs == [] then s else SysStep(Ran(s, evs[..|evs| - 1]), evs[|evs| - 1])
  }

  lemma {:induction false} AlwaysSysInv(n: nat, buf: seq<Job>, evs: seq<SysEvent>)
    requires n > 0 && |buf| == n
    ensures SysInv(Ran(Start(n, buf), evs))
  {
    if evs == [] {
      SafeRingbuf.RunIsQueue(n, buf, []);
    } else {
      AlwaysSysInv(n, buf, evs[..|evs| - 1]);
      SysKeeps(Ran(Start(n, buf), evs[..|evs| - 1]), evs[|evs| - 1]);
    }
  }

  /** Refinement: every run with each load, swap and store a step of its own is a run of the model of the worker, in
      which a job is put in and taken out in one step. */
  lemma {:induction false} RunRefines(n: nat, buf: seq<Job>, evs: seq<SysEvent>)
    requires n > 0 && |buf| == n
    ensures SysInv(Ran(Start(n, buf), evs))
    ensures exists es :: View(Ran(Start(n, buf), evs)) == After(Initial(n), es)
  {
    AlwaysSysInv(n, buf, evs);
    if evs == [] {
      assert View(Start(n, buf)) == After(Initial(n), []);
    } else {
      var s, ev := Ran(Start(n, buf), evs[..|evs| - 1]), evs[|evs| - 1];
      RunRefines(n, buf, evs[..|evs| - 1]);
      var es :| View(s) == After(Initial(n), es);
      SysKeeps(s, ev);
      if View(SysStep(s, ev)) != View(s) {
        var e := if ev.Enqueue? then Worker.Enqueue(ev.j) else Worker.Go;
        AfterLast(Initial(n), es, e);
      }
    }
  }

  /** No stranded job, with every load, swap and store of the buffer a step of its own: in every run, once no enqueue is
      in progress, a worker whose buffer holds a job is not asleep, and a sleeping one has its flag set. */
  lemma {:induction false} NoJobStranded(n: nat, buf: seq<Job>, evs: seq<SysEvent>)
    requires n > 0 && |buf| == n
    ensures var s := Ran(Start(n, buf), evs);
      s.es == [] && s.sleeping ==> SafeRingbuf.IsEmpty(s.r.w) && s.waiting
  {
    AlwaysSysInv(n, buf, evs);
    var s := Ran(Start(n, buf), evs);
    SafeRingbuf.WordTells(s.r);
  }

  /** And in every run the jobs taken are the first ones put in, in that order. */
  lemma {:induction false} TakenInOrder(n: nat, buf: seq<Job>, evs: seq<SysEvent>)
    requires n > 0 && |buf| == n
    ensures var s := Ran(Start(n, buf), evs); s.r.taken <= s.r.put && |s.r.put| - |s.r.taken| <= n
  {
    AlwaysSysInv(n, buf, evs);
  }
}
