/**
 The sleep and wake-up handshake of a worker thread.  Jobs are put in the lock-free buffer, where a write takes effect
 in one step that also tells whether the buffer was empty; enqueuers may interrupt the worker and each other.
*/
module Worker {

  type Job = nat

  /** Where an enqueuer is: before the job is in, before its data is stored, before it looks at the flag, before it
      clears the flag, before it makes the worker runnable. */
  datatype Enqueuer = Put(j: Job) | Store(wasEmpty: bool) | Look | Clear | Wake

  /** Where the worker is: before it clears its flag, before it takes a job, before the last look at the buffer,
      before it looks at its flag, or in the scheduler. */
  datatype WorkerPc = Awake | Take | Check | Decide | Switched

  /** `size` is the capacity of the buffer.  Enqueuers at work are a stack: the last has interrupted all others. */
  datatype Wth = Wth(size: nat, queue: seq<Job>, enqueuers: seq<Enqueuer>, pc: WorkerPc, sleeping: bool, waiting: bool,
                     put: seq<Job>, ran: seq<Job>)

  ghost function Initial(size: nat): Wth { Wth(size, [], [], Awake, false, false, [], []) }

  ghost function Top(s: Wth): Enqueuer
    requires s.enqueuers != []
  {
    s.enqueuers[|s.enqueuers| - 1]
  }

  ghost function Below(s: Wth): seq<Enqueuer>
    requires s.enqueuers != []
  {
    s.enqueuers[..|s.enqueuers| - 1]
  }

  ghost function Goes(s: Wth, e: Enqueuer): Wth
    requires s.enqueuers != []
  {
    s.(enqueuers := Below(s) + [e])
  }

  /** The next step of the innermost enqueuer: wth_enqueue_on and wth_wakeup. */
  ghost function EnqueuerStep(s: Wth): Wth
    requires s.enqueuers != []
  {
    match Top(s)
    case Put(j) =>
      if |s.queue| >= s.size then s.(enqueuers := Below(s))
      else Goes(s, Store(s.queue == [])).(queue := s.queue + [j], put := s.put + [j])
    case Store(wasEmpty) => if wasEmpty then Goes(s, Look) else s.(enqueuers := Below(s))
    case Look => if s.waiting then Goes(s, Clear) else s.(enqueuers := Below(s))
    case Clear => Goes(s, Wake).(waiting := false)
    case Wake => s.(enqueuers := Below(s), sleeping := false)
  }

  /** The next step of the worker: wth_run.  The last look at the buffer is one step, with interrupts disabled.  In the
      scheduler it goes on once it is runnable. */
  ghost function WorkerStep(s: Wth): Wth
  {
    match s.pc
    case Awake => s.(waiting := false, pc := Take)
    case Take => if s.queue == [] then s.(pc := Check) else s.(queue := s.queue[1..], ran := s.ran + [s.queue[0]])
    case Check => if s.queue == [] then s.(sleeping := true, waiting := true, pc := Decide) else s.(pc := Decide)
    case Decide => if s.waiting then s.(pc := Switched) else s.(pc := Awake)
    case Switched => if s.sleeping then s else s.(pc := Awake)
  }

  /** An enqueue starts, or whoever runs takes a step.  The worker only runs while no enqueue is in progress: an
      enqueuer has interrupted it, or runs with preemption disabled. */
  datatype Event = Enqueue(j: Job) | Go

  ghost function Step(s: Wth, ev: Event): Wth
  {
    match ev
    case Enqueue(j) => s.(enqueuers := s.enqueuers + [Put(j)])
    case Go => if s.enqueuers != [] then EnqueuerStep(s) else WorkerStep(s)
  }

  // ---------------------------------------------------------------- the invariant

  /** An enqueuer that will see to it that the worker runs, as long as the flag is set. */
  ghost predicate Responsible(e: Enqueuer)
  {
    e == Store(true) || e.Look? || e.Clear? || e.Wake?
  }

  ghost predicate AnyResponsible(es: seq<Enqueuer>)
  {
    exists i :: 0 <= i < |es| && Responsible(es[i])
  }

  ghost predicate AnyWakes(es: seq<Enqueuer>)
  {
    exists i :: 0 <= i < |es| && es[i].Wake?
  }

  /** While the worker sleeps its flag is set, or somebody is about to make it runnable; and if there is a job, somebody
      is responsible for it. */
  ghost predicate Inv(s: Wth)
  {
    && s.put == s.ran + s.queue && |s.queue| <= s.size
    && (s.sleeping ==> s.pc.Decide? || s.pc.Switched?)
    && (s.sleeping ==> s.waiting || AnyWakes(s.enqueuers))
    && (s.sleeping && s.queue != [] ==> AnyResponsible(s.enqueuers))
  }

  lemma {:induction false} AddedOnTop(es: seq<Enqueuer>, e: Enqueuer)
    ensures AnyWakes(es + [e]) <==> AnyWakes(es) || e.Wake?
    ensures AnyResponsible(es + [e]) <==> AnyResponsible(es) || Responsible(e)
  {
    var us := es + [e];
    assert us[|es|] == e && forall i :: 0 <= i < |es| ==> us[i] == es[i];
  }

  /** Both questions, for the innermost enqueuer and for the others. */
  lemma {:induction false} TopAndBelow(s: Wth)
    requires s.enqueuers != []
    ensures AnyWakes(s.enqueuers) <==> AnyWakes(Below(s)) || Top(s).Wake?
    ensures AnyResponsible(s.enqueuers) <==> AnyResponsible(Below(s)) || Responsible(Top(s))
    ensures AnyWakes(Below(s)) ==> AnyResponsible(Below(s))
  {
    assert s.enqueuers == Below(s) + [Top(s)];
    AddedOnTop(Below(s), Top(s));
  }

  lemma {:induction false} EnqueuerKeeps(s: Wth)
    requires Inv(s) && s.enqueuers != []
    ensures Inv(EnqueuerStep(s))
  {
    var u := EnqueuerStep(s);
    TopAndBelow(s);
    if u.enqueuers != Below(s) { AddedOnTop(Below(s), u.enqueuers[|u.enqueuers| - 1]); }
  }

  lemma {:induction false} WorkerKeeps(s: Wth)
    requires Inv(s) && s.enqueuers == []
    ensures Inv(WorkerStep(s))
  {
    if s.pc.Take? && s.queue != [] { assert s.queue == [s.queue[0]] + s.queue[1..]; }
  }

  /** Every step keeps the invariant. */
  lemma {:induction false} StepKeeps(s: Wth, ev: Event)
    requires Inv(s)
    ensures Inv(Step(s, ev))
  {
    if ev.Enqueue? {
      AddedOnTop(s.enqueuers, Put(ev.j));
    } else if s.enqueuers != [] {
      EnqueuerKeeps(s);
    } else {
      WorkerKeeps(s);
    }
  }

  ghost function After(s: Wth, evs: seq<Event>): Wth
  {
    if evs == [] then s else Step(After(s, evs[..|evs| - 1]), evs[|evs| - 1])
  }

  lemma {:induction false} AlwaysInv(size: nat, evs: seq<Event>)
    ensures Inv(After(Initial(size), evs))
  {
    if evs != [] {
      AlwaysInv(size, evs[..|evs| - 1]);
      StepKeeps(After(Initial(size), evs[..|evs| - 1]), evs[|evs| - 1]);
    }
  }

  /** No stranded job: in every run, whenever no enqueue is in progress, a worker with a job to do is not asleep. */
  lemma {:induction false} NoStrandedJob(size: nat, evs: seq<Event>)
    ensures var s := After(Initial(size), evs); s.enqueuers == [] && s.queue != [] ==> !s.sleeping
  {
    AlwaysInv(size, evs);
  }

  /** In every run, the jobs that have been run are the first ones that were put in, in that order. */
  lemma {:induction false} RunInOrder(size: nat, evs: seq<Event>)
    ensures var s := After(Initial(size), evs); s.put == s.ran + s.queue && s.ran <= s.put
  {
    AlwaysInv(size, evs);
  }

  /** While it sleeps and nobody is at work, the flag is set, so that the next enqueuer wakes it up. */
  lemma {:induction false} SleepingIsWaiting(size: nat, evs: seq<Event>)
    ensures var s := After(Initial(size), evs); s.enqueuers == [] && s.sleeping ==> s.waiting && s.queue == []
  {
    AlwaysInv(size, evs);
  }

  // ---------------------------------------------------------------- what an enqueue and the worker do

  ghost function Gos(k: nat): seq<Event> { seq(k, _ => Go) }

  lemma {:induction false} AfterLast(s: Wth, evs: seq<Event>, e: Event)
    ensures After(s, evs + [e]) == Step(After(s, evs), e)
  {
    assert (evs + [e])[..|evs|] == evs;
  }

  lemma {:induction false} AfterFirst(s: Wth, e: Event, evs: seq<Event>)
    ensures After(s, [e] + evs) == After(Step(s, e), evs)
  {
    if evs == [] {
      AfterLast(s, [], e);
      assert [e] + evs == [] + [e];
    } else {
      var k := |evs| - 1;
      AfterFirst(s, e, evs[..k]);
      AfterLast(s, [e] + evs[..k], evs[k]);
      assert [e] + evs == [e] + evs[..k] + [evs[k]];
    }
  }

  lemma {:induction false} GosFirst(s: Wth, k: nat)
    requires k > 0
    ensures After(s, Gos(k)) == After(Step(s, Go), Gos(k - 1))
  {
    assert Gos(k) == [Go] + Gos(k - 1);
    AfterFirst(s, Go, Gos(k - 1));
  }

  /** How many steps the innermost enqueuer needs to its end. */
  ghost function EnqueueSteps(s: Wth): nat
    requires s.enqueuers != []
  {
    var wakes := if s.waiting then 3 else 1;
    match Top(s)
    case Put(_) => if |s.queue| >= s.size then 1 else if s.queue == [] then 2 + wakes else 2
    case Store(wasEmpty) => if wasEmpty then 1 + wakes else 1
    case Look => wakes
    case Clear => 2
    case Wake => 1
  }

  /** The innermost enqueuer is going to make the worker runnable. */
  ghost predicate WillWake(s: Wth)
    requires s.enqueuers != []
  {
    match Top(s)
    case Put(_) => s.queue == [] && s.size > 0 && s.waiting
    case Store(wasEmpty) => wasEmpty && s.waiting
    case Look => s.waiting
    case Clear => true
    case Wake => true
  }

  /** The state once the innermost enqueuer is done: its job is in if there is room, and if it was the first one and
      the flag was set, the flag is clear and the worker runnable. */
  ghost function Enqueued(s: Wth): Wth
    requires s.enqueuers != []
  {
    var u := s.(enqueuers := Below(s), sleeping := s.sleeping && !WillWake(s),
                waiting := s.waiting && (Top(s).Wake? || !WillWake(s)));
    if Top(s).Put? && |s.queue| < s.size then u.(queue := s.queue + [Top(s).j], put := s.put + [Top(s).j]) else u
  }

  lemma {:induction false} EnqueueNearer(s: Wth)
    requires s.enqueuers != []
    ensures var u := EnqueuerStep(s);
      if EnqueueSteps(s) == 1 then u == Enqueued(s)
      else u.enqueuers != [] && EnqueueSteps(u) == EnqueueSteps(s) - 1 && Enqueued(u) == Enqueued(s)
  {
    var u := EnqueuerStep(s);
    if EnqueueSteps(s) > 1 { assert Below(u) == Below(s); }
  }

  /** An enqueue that is not interrupted ends, wherever it has got to. */
  lemma {:induction false} EnqueueEnds(s: Wth)
    requires s.enqueuers != []
    ensures After(s, Gos(EnqueueSteps(s))) == Enqueued(s)
    decreases EnqueueSteps(s)
  {
    var u, k := EnqueuerStep(s), EnqueueSteps(s);
    GosFirst(s, k);
    EnqueueNearer(s);
    if k == 1 {
      assert After(u, Gos(0)) == u;
    } else {
      EnqueueEnds(u);
    }
  }

  /** How many steps the worker is away from running a job that is there. */
  ghost function ToNextJob(pc: WorkerPc, waiting: bool): nat
  {
    match pc
    case Take => 1
    case Awake => 2
    case Switched => 3
    case Decide => if waiting then 4 else 3
    case Check => if waiting then 5 else 4
  }

  /** A worker with a job that is not interrupted runs it, wherever it is, asleep or not. */
  lemma {:induction false} NextJobRuns(s: Wth)
    requires Inv(s) && s.enqueuers == [] && s.queue != []
    ensures var u := After(s, Gos(ToNextJob(s.pc, s.waiting)));
      Inv(u) && u.enqueuers == [] && u.queue == s.queue[1..] && u.ran == s.ran + [s.queue[0]]
      && u.put == s.put
    decreases ToNextJob(s.pc, s.waiting)
  {
    var u, k := Step(s, Go), ToNextJob(s.pc, s.waiting);
    GosFirst(s, k);
    StepKeeps(s, Go);
    if k == 1 {
      assert After(u, Gos(0)) == u;
    } else {
      NextJobRuns(u);
    }
  }

  lemma {:induction false} AfterBoth(s: Wth, es: seq<Event>, fs: seq<Event>)
    ensures After(s, es + fs) == After(After(s, es), fs)
  {
    if fs == [] {
      assert es + fs == es;
    } else {
      var gs, f := fs[..|fs| - 1], fs[|fs| - 1];
      AfterBoth(s, es, gs);
      assert es + fs == es + gs + [f] && fs == gs + [f];
      AfterLast(s, es + gs, f);
      AfterLast(After(s, es), gs, f);
    }
  }

  /** All jobs that are in have been run after so many steps. */
  ghost predicate AllRun(s: Wth, k: nat)
  {
    var u := After(s, Gos(k));
    u.enqueuers == [] && u.queue == [] && u.ran == s.put
  }

  /** Left alone, the worker runs every job that has been put in. */
  lemma {:induction false} AllJobsRun(s: Wth)
    requires Inv(s) && s.enqueuers == []
    ensures exists k :: AllRun(s, k)
    decreases |s.queue|
  {
    if s.queue == [] {
      assert AllRun(s, 0);
    } else {
      var j := ToNextJob(s.pc, s.waiting);
      NextJobRuns(s);
      var u := After(s, Gos(j));
      AllJobsRun(u);
      var k :| AllRun(u, k);
      AfterBoth(s, Gos(j), Gos(k));
      assert Gos(j) + Gos(k) == Gos(j + k);
      assert AllRun(s, j + k);
    }
  }

  /** In every run, once no enqueue is in progress, the worker is going to run all jobs put in, if it is left alone. */
  lemma {:induction false} NoJobForgotten(size: nat, evs: seq<Event>)
    requires After(Initial(size), evs).enqueuers == []
    ensures exists k :: AllRun(After(Initial(size), evs), k)
  {
    AlwaysInv(size, evs);
    AllJobsRun(After(Initial(size), evs));
  }
}
