/**
 The writer-preferring lock: a flag `w` for a writer that waits or writes, a count of readers, and one condition
 that both wait on, all under a mutex.
*/
module RwlockWp {
  import opened Basics
  import opened Options
  import opened Mutexes
  import opened Locking

  /** Points in the code of a task.  `Drain` is the wait of a writer for the readers to leave; `Shared`, `Granted`
      and `Done` are the ends of the functions, before the mutex is unlocked. */
  datatype Point =
    | Idle
    | ShLock | Shared | Reading | ShUnlock
    | ExLock | Drain | Granted | Writing | ExUnlock
    | Done

  datatype Wp = Wp(rec: bool, pcs: map<Task, Pc<Point>>, m: Mutex, cond: seq<Task>, r: int, w: bool,
                   ex: Option<Task>, rc: int)

  ghost predicate Sensible(p: Pc<Point>)
  {
    match p
    case Out(k) => k.Idle? || k.Reading? || k.Writing?
    case Acquire(k) => k.ShLock? || k.ShUnlock? || k.ExLock? || k.Drain? || k.ExUnlock?
    case Queued(k) => k.ShLock? || k.ShUnlock? || k.ExLock? || k.Drain? || k.ExUnlock?
    case Run(k) => !k.Idle? && !k.Reading? && !k.Writing?
    case Asleep(k) => k.ShLock? || k.ExLock? || k.Drain?
  }

  /** As the lock is initialized; rwlock_wp_init does not set `rc`, which has to be 0 already. */
  ghost predicate Init(s: Wp)
  {
    && (forall t :: t in s.pcs ==> s.pcs[t] == Out(Idle)) && s.m == Mutex(false, None, 0, [])
    && s.cond == [] && s.r == 0 && !s.w && s.ex.None? && s.rc == 0
  }

  ghost function Moved(s: Wp, t: Task, p: Pc<Point>): Wp { s.(pcs := s.pcs[t := p]) }

  /** Unlock the mutex and go on at p. */
  ghost function Leave(s: Wp, t: Task, p: Pc<Point>): Wp
  {
    s.(pcs := Released(s.pcs, s.m, t, p), m := Unlocked(s.m))
  }

  /** kcond_wait: join the list, unlock the mutex and sleep; point k is where the task comes back to. */
  ghost function WaitCond(s: Wp, t: Task, k: Point): Wp
  {
    Leave(s, t, Asleep(k)).(cond := s.cond + [t])
  }

  /** kcond_signal_one: the first task in the list goes for the mutex again. */
  ghost function SignalOne(s: Wp): Wp
  {
    if s.cond == [] || s.cond[0] !in s.pcs then s
    else s.(pcs := s.pcs[s.cond[0] := Acquire(s.pcs[s.cond[0]].k)], cond := s.cond[1..])
  }

  ghost function Awake(pcs: map<Task, Pc<Point>>, ts: seq<Task>): map<Task, Pc<Point>>
  {
    map t | t in pcs :: if t in ts then Acquire(pcs[t].k) else pcs[t]
  }

  /** kcond_signal_all. */
  ghost function SignalAll(s: Wp): Wp { s.(pcs := Awake(s.pcs, s.cond), cond := []) }

  /** What a task asks for next: an idle one to write or to read, a writing one to lock again or to unlock. */
  datatype Ask = Exclusive | Other

  ghost function OutStep(s: Wp, t: Task, ask: Ask): Wp
    requires t in s.pcs && s.pcs[t].Out?
  {
    match s.pcs[t].k
    case Idle => Moved(s, t, Acquire(if ask.Exclusive? then ExLock else ShLock))
    case Reading => Moved(s, t, Acquire(ShUnlock))
    case Writing => Moved(s, t, Acquire(if ask.Exclusive? && s.rec then ExLock else ExUnlock))
    case _ => s
  }

  /** The code of the lock, inside the mutex. */
  ghost function RunStep(s: Wp, t: Task): Wp
    requires t in s.pcs && s.pcs[t].Run?
  {
    match s.pcs[t].k
    case ShLock => if s.w then WaitCond(s, t, ShLock) else Moved(s, t, Run(Shared)).(r := s.r + 1)
    case Shared => Leave(s, t, Out(Reading))
    case ShUnlock =>
      var u := Moved(s, t, Run(Done)).(r := s.r - 1);
      if u.r == 0 then SignalOne(u) else u
    case ExLock =>
      if s.rec && s.ex == Some(t) then Moved(s, t, Run(Granted)).(rc := s.rc + 1)
      else if s.w then WaitCond(s, t, ExLock)
      else Moved(s, t, Run(Drain)).(w := true)
    case Drain =>
      if s.r > 0 then WaitCond(s, t, Drain)
      else Moved(s, t, Run(Granted)).(ex := Some(t), rc := if s.rec then s.rc + 1 else s.rc)
    case Granted => Leave(s, t, Out(Writing))
    case ExUnlock =>
      if s.rec && s.rc - 1 > 0 then Moved(s, t, Run(Granted)).(rc := s.rc - 1)
      else SignalAll(Moved(s, t, Run(Done)).(ex := None, w := false, rc := if s.rec then s.rc - 1 else s.rc))
    case Done => Leave(s, t, Out(Idle))
    case _ => s
  }

  ghost function Step(s: Wp, t: Task, ask: Ask): Wp
    requires t in s.pcs
  {
    match s.pcs[t]
    case Out(_) => OutStep(s, t, ask)
    case Acquire(_) => s.(pcs := Entered(s.pcs, s.m, t), m := Locked(s.m, t))
    case Queued(_) => s
    case Run(_) => RunStep(s, t)
    case Asleep(_) => s
  }

  /** Why it has to be: with the readers gone a writer takes the lock, and one unlock sets it free again exactly if a
      recursive lock has started to count at 0. */
  lemma {:induction false} FreedIffCounted(s: Wp, t: Task)
    requires t in s.pcs && s.pcs[t] == Run(Drain) && s.r == 0 && s.rec && s.rc >= 0
    ensures var u := RunStep(s, t); u.ex == Some(t) && t in u.pcs
    ensures var v := RunStep(Moved(RunStep(s, t), t, Run(ExUnlock)), t);
      (v.ex.None? <==> s.rc == 0) && (s.rc > 0 ==> v.ex == Some(t) && v.w == s.w && v.rc == s.rc)
  {
    assert Moved(RunStep(s, t), t, Run(ExUnlock)).pcs[t] == Run(ExUnlock);
  }

  // ---------------------------------------------------------------- the invariant

  /** How many tasks are counted as readers, and how many writers wait for the readers to leave. */
  ghost function Readers(pcs: map<Task, Pc<Point>>): nat { Count(pcs, {Shared, Reading, ShUnlock}) }

  ghost function Drainers(pcs: map<Task, Pc<Point>>): nat { Count(pcs, {Drain}) }

  /** The list of the condition holds the tasks asleep on it. */
  ghost predicate CondOk(pcs: map<Task, Pc<Point>>, cond: seq<Task>)
  {
    && NoDuplicates(cond) && (forall t :: t in cond ==> t in pcs)
    && (forall t :: t in pcs ==> (pcs[t].Asleep? <==> t in cond))
  }

  ghost predicate Holds(k: Point) { k.Granted? || k.Writing? || k.ExUnlock? }

  /** The exclusive owner is the task at the points where the lock is held, or asks for it once more. */
  ghost predicate OwnerOk(s: Wp)
  {
    && (forall t :: t in s.pcs && Holds(s.pcs[t].k) ==> s.ex == Some(t))
    && (s.ex.Some? ==> s.ex.value in s.pcs && !s.pcs[s.ex.value].Asleep?)
    && (s.ex.Some? ==> Holds(s.pcs[s.ex.value].k) || (s.rec && s.pcs[s.ex.value].k.ExLock?))
    && s.rc >= 0 && (s.rc > 0 <==> s.rec && s.ex.Some?)
  }

  /** The flag says that one writer waits for the readers or owns the lock. */
  ghost predicate FlagOk(s: Wp)
  {
    && s.r == Readers(s.pcs)
    && Drainers(s.pcs) + (if s.ex.Some? then 1 else 0) == (if s.w then 1 else 0)
    && (s.ex.Some? ==> s.r == 0) && (s.cond != [] ==> s.w)
  }

  /** A writer that sleeps for the readers is first in the list, and there are readers; one that has been woken up
      finds none. */
  ghost predicate DrainOk(s: Wp)
  {
    forall t :: t in s.pcs && s.pcs[t].k.Drain? ==>
      match s.pcs[t]
      case Asleep(_) => s.r > 0 && s.cond != [] && s.cond[0] == t
      case Run(_) => s.r == 0 || s.cond == []
      case _ => s.r == 0
  }

  /** All but the mutex. */
  ghost predicate Rest(s: Wp)
  {
    AllSensible(s.pcs) && CondOk(s.pcs, s.cond) && OwnerOk(s) && FlagOk(s) && DrainOk(s)
  }

  ghost predicate AllSensible(pcs: map<Task, Pc<Point>>) { forall t :: t in pcs ==> Sensible(pcs[t]) }

  ghost predicate Inv(s: Wp) { InOrder(s.pcs, s.m) && Rest(s) }

  /** The states in which all but the mutex is right. */
  ghost function Resting(): iset<Wp> { iset s: Wp | Rest(s) }

  /** The states of the invariant. */
  ghost function Safe(): iset<Wp> { iset s: Wp | Inv(s) }

  // ---------------------------------------------------------------- one task moves

  lemma {:induction false} Counts(pcs: map<Task, Pc<Point>>, t: Task, q: Pc<Point>)
    requires t in pcs
    ensures Readers(pcs[t := q]) == Readers(pcs) - (if Reads(pcs[t].k) then 1 else 0) + (if Reads(q.k) then 1 else 0)
    ensures Drainers(pcs[t := q]) == Drainers(pcs) - (if pcs[t].k.Drain? then 1 else 0) + (if q.k.Drain? then 1 else 0)
  {
    CountMoved(pcs, t, q, {Shared, Reading, ShUnlock});
    CountMoved(pcs, t, q, {Drain});
  }

  ghost predicate Reads(k: Point) { k.Shared? || k.Reading? || k.ShUnlock? }

  /** A task at a point is counted there. */
  lemma {:induction false} Counted(pcs: map<Task, Pc<Point>>, t: Task)
    requires t in pcs
    ensures Reads(pcs[t].k) ==> Readers(pcs) >= 1
    ensures pcs[t].k.Drain? ==> Drainers(pcs) >= 1
  {
    Counts(pcs, t, Out(Idle));
  }

  lemma {:induction false} OneDrainer(pcs: map<Task, Pc<Point>>, t: Task, x: Task)
    requires t in pcs && x in pcs && pcs[t].k.Drain? && pcs[x].k.Drain? && Drainers(pcs) <= 1
    ensures x == t
  {
    if x != t {
      Counts(pcs, t, Out(Idle));
      Counted(pcs[t := Out(Idle)], x);
    }
  }

  lemma {:induction false} CondStays(pcs: map<Task, Pc<Point>>, t: Task, q: Pc<Point>, cond: seq<Task>)
    requires CondOk(pcs, cond) && t in pcs && !pcs[t].Asleep? && !q.Asleep?
    ensures CondOk(pcs[t := q], cond)
  {
  }

  lemma {:induction false} CondJoins(pcs: map<Task, Pc<Point>>, t: Task, q: Pc<Point>, cond: seq<Task>)
    requires CondOk(pcs, cond) && t in pcs && !pcs[t].Asleep? && q.Asleep?
    ensures CondOk(pcs[t := q], cond + [t])
  {
  }

  lemma {:induction false} RestParts(s: Wp)
    requires s in Resting()
    ensures AllSensible(s.pcs) && CondOk(s.pcs, s.cond) && OwnerOk(s) && FlagOk(s) && DrainOk(s)
  {
  }

  lemma {:induction false} PartsRest(s: Wp)
    requires AllSensible(s.pcs) && CondOk(s.pcs, s.cond) && OwnerOk(s) && FlagOk(s) && DrainOk(s)
    ensures s in Resting()
  {
  }

  lemma {:induction false} SensibleMoved(pcs: map<Task, Pc<Point>>, t: Task, q: Pc<Point>)
    requires AllSensible(pcs) && Sensible(q)
    ensures AllSensible(pcs[t := q])
  {
  }

  lemma {:induction false} FlagMoved(s: Wp, t: Task, q: Pc<Point>)
    requires FlagOk(s) && t in s.pcs && (Reads(s.pcs[t].k) <==> Reads(q.k)) && (s.pcs[t].k.Drain? <==> q.k.Drain?)
    ensures FlagOk(Moved(s, t, q))
  {
    Counts(s.pcs, t, q);
  }

  lemma {:induction false} OwnerMoved(s: Wp, t: Task, q: Pc<Point>)
    requires OwnerOk(s) && t in s.pcs && !q.Asleep?
    requires (s.ex == Some(t) ==> Holds(q.k) || (s.rec && q.k.ExLock?)) && (Holds(q.k) ==> s.ex == Some(t))
    ensures OwnerOk(Moved(s, t, q))
  {
  }

  lemma {:induction false} DrainMoved(s: Wp, t: Task, q: Pc<Point>)
    requires DrainOk(s) && t in s.pcs && !q.k.Drain?
    ensures DrainOk(Moved(s, t, q))
  {
  }

  /** A move between points that mean the same for the lock. */
  lemma {:induction false} RestMoved(s: Wp, t: Task, q: Pc<Point>)
    requires s in Resting() && t in s.pcs && !s.pcs[t].Asleep? && !q.Asleep? && Sensible(q)
    requires !s.pcs[t].k.Drain? && !q.k.Drain? && (Reads(s.pcs[t].k) <==> Reads(q.k))
    requires (s.ex == Some(t) ==> Holds(q.k) || (s.rec && q.k.ExLock?)) && (Holds(q.k) ==> s.ex == Some(t))
    ensures Moved(s, t, q) in Resting()
  {
    RestParts(s);
    SensibleMoved(s.pcs, t, q);
    CondStays(s.pcs, t, q, s.cond);
    OwnerMoved(s, t, q);
    FlagMoved(s, t, q);
    DrainMoved(s, t, q);
    PartsRest(Moved(s, t, q));
  }

  /** A task that gets the mutex, or queues for it, is at the same point as before. */
  ghost predicate SamePoint(p: Pc<Point>, q: Pc<Point>)
  {
    (p.Acquire? || p.Queued?) && (q == Run(p.k) || q == Queued(p.k))
  }

  lemma {:induction false} OwnerStays(s: Wp, t: Task, q: Pc<Point>)
    requires OwnerOk(s) && t in s.pcs && SamePoint(s.pcs[t], q)
    ensures OwnerOk(Moved(s, t, q))
  {
  }

  lemma {:induction false} DrainStays(s: Wp, t: Task, q: Pc<Point>)
    requires DrainOk(s) && t in s.pcs && SamePoint(s.pcs[t], q)
    ensures DrainOk(Moved(s, t, q))
  {
  }

  lemma {:induction false} RestEntered(s: Wp, t: Task, q: Pc<Point>)
    requires s in Resting() && t in s.pcs && SamePoint(s.pcs[t], q)
    ensures Moved(s, t, q) in Resting()
  {
    RestParts(s);
    SensibleMoved(s.pcs, t, q);
    CondStays(s.pcs, t, q, s.cond);
    OwnerStays(s, t, q);
    FlagMoved(s, t, q);
    DrainStays(s, t, q);
    PartsRest(Moved(s, t, q));
  }

  /** The next owner of the mutex is as much in order inside as in the queue. */
  lemma {:induction false} RestReleased(s: Wp, m: Mutex, t: Task, q: Pc<Point>)
    requires InOrder(s.pcs, m) && t in s.pcs && s.pcs[t].Run? && Moved(s, t, q) in Resting()
    ensures s.(pcs := Released(s.pcs, m, t, q)) in Resting()
  {
    var u := Moved(s, t, q);
    if m.waiters == [] {
      assert u == s.(pcs := Released(s.pcs, m, t, q));
    } else {
      var h := m.waiters[0];
      assert h in m.waiters && s.pcs[h].Queued? && h != t;
      RestEntered(u, h, Run(u.pcs[h].k));
      assert Moved(u, h, Run(u.pcs[h].k)) == s.(pcs := Released(s.pcs, m, t, q));
    }
  }

  lemma {:induction false} SafeParts(s: Wp)
    requires s in Safe()
    ensures InOrder(s.pcs, s.m) && s in Resting()
  {
  }

  lemma {:induction false} PartsSafe(s: Wp)
    requires InOrder(s.pcs, s.m) && s in Resting()
    ensures s in Safe()
  {
  }

  /** A step inside the mutex, or outside, that does not touch it. */
  lemma {:induction false} SafeMoved(s: Wp, t: Task, u: Wp)
    requires InOrder(s.pcs, s.m) && t in s.pcs && t in u.pcs && (u.pcs[t].Run? <==> s.pcs[t].Run?)
    requires !s.pcs[t].Queued? && !u.pcs[t].Queued? && u.pcs == s.pcs[t := u.pcs[t]] && u.m == s.m && u in Resting()
    ensures u in Safe()
  {
    StayedInOrder(s.pcs, s.m, t, u.pcs[t]);
  }

  /** A step that leaves the mutex. */
  lemma {:induction false} SafeLeft(s: Wp, t: Task, u: Wp, q: Pc<Point>)
    requires InOrder(s.pcs, s.m) && t in s.pcs && s.pcs[t].Run? && !q.Run? && !q.Queued?
    requires u.pcs == s.pcs && u.m == s.m && Moved(u, t, q) in Resting()
    ensures Leave(u, t, q) in Safe()
  {
    ReleasedInOrder(s.pcs, s.m, t, q);
    RestReleased(u, u.m, t, q);
  }

  lemma {:induction false} StepOut(s: Wp, t: Task, ask: Ask)
    requires s in Safe() && t in s.pcs && s.pcs[t].Out?
    ensures OutStep(s, t, ask) in Safe()
  {
    OwnerAt(s, t);
    if s.pcs[t].k.Idle? {
      AsksFor(s, t, if ask.Exclusive? then ExLock else ShLock);
    } else if s.pcs[t].k.Reading? {
      AsksFor(s, t, ShUnlock);
    } else {
      AsksFor(s, t, if ask.Exclusive? && s.rec then ExLock else ExUnlock);
    }
  }

  /** Which points say who the exclusive owner is. */
  lemma {:induction false} OwnerAt(s: Wp, t: Task)
    requires s in Safe() && t in s.pcs
    ensures Sensible(s.pcs[t]) && (Holds(s.pcs[t].k) ==> s.ex == Some(t))
    ensures s.ex == Some(t) ==> Holds(s.pcs[t].k) || (s.rec && s.pcs[t].k.ExLock?)
  {
  }

  lemma {:induction false} AsksFor(s: Wp, t: Task, k: Point)
    requires s in Safe() && t in s.pcs && s.pcs[t].Out? && Sensible(Acquire(k))
    requires !s.pcs[t].k.Drain? && !k.Drain? && (Reads(s.pcs[t].k) <==> Reads(k))
    requires (s.ex == Some(t) ==> Holds(k) || (s.rec && k.ExLock?)) && (Holds(k) ==> s.ex == Some(t))
    ensures Moved(s, t, Acquire(k)) in Safe()
  {
    SafeParts(s);
    RestMoved(s, t, Acquire(k));
    StayedInOrder(s.pcs, s.m, t, Acquire(k));
    PartsSafe(Moved(s, t, Acquire(k)));
  }

  lemma {:induction false} StepAcquire(s: Wp, t: Task)
    requires s in Safe() && t in s.pcs && s.pcs[t].Acquire?
    ensures s.(pcs := Entered(s.pcs, s.m, t), m := Locked(s.m, t)) in Safe()
  {
    SafeParts(s);
    EnteredInOrder(s.pcs, s.m, t);
    RestEntered(s, t, Entered(s.pcs, s.m, t)[t]);
  }

  lemma {:induction false} LeavesTo(s: Wp, t: Task, k: Point)
    requires s in Safe() && t in s.pcs && s.pcs[t].Run? && (k.Reading? || k.Writing? || k.Idle?)
    requires s.pcs[t].k == if k.Reading? then Shared else if k.Writing? then Granted else Done
    ensures Leave(s, t, Out(k)) in Safe()
  {
    SafeParts(s);
    OwnerAt(s, t);
    RestMoved(s, t, Out(k));
    SafeLeft(s, t, s, Out(k));
  }

  lemma {:induction false} StepLeave(s: Wp, t: Task)
    requires s in Safe() && t in s.pcs
    requires s.pcs[t] == Run(Shared) || s.pcs[t] == Run(Granted) || s.pcs[t] == Run(Done)
    ensures RunStep(s, t) in Safe()
  {
    var k := if s.pcs[t].k.Shared? then Reading else if s.pcs[t].k.Granted? then Writing else Idle;
    LeavesTo(s, t, k);
    LeaveStep(s, t, k);
  }

  lemma {:induction false} LeaveStep(s: Wp, t: Task, k: Point)
    requires t in s.pcs && s.pcs[t].Run? && (k.Reading? || k.Writing? || k.Idle?)
    requires s.pcs[t].k == if k.Reading? then Shared else if k.Writing? then Granted else Done
    ensures RunStep(s, t) == Leave(s, t, Out(k))
  {
  }

  // ---------------------------------------------------------------- readers

  lemma {:induction false} NoDrainer(s: Wp, t: Task)
    requires s in Resting() && Drainers(s.pcs) == 0 && t in s.pcs
    ensures !s.pcs[t].k.Drain?
  {
    Counted(s.pcs, t);
  }

  /** shlock with the flag clear: one more reader. */
  lemma {:induction false} ReaderEnters(s: Wp, t: Task)
    requires s in Safe() && t in s.pcs && s.pcs[t] == Run(ShLock) && !s.w
    ensures RunStep(s, t) in Safe()
  {
    var u := Moved(s, t, Run(Shared)).(r := s.r + 1);
    SafeParts(s);
    Counts(s.pcs, t, Run(Shared));
    CondStays(s.pcs, t, Run(Shared), s.cond);
    forall x | x in u.pcs ensures !u.pcs[x].k.Drain? {
      NoDrainer(s, x);
    }
    SafeMoved(s, t, u);
  }

  /** A task that is not a draining writer goes to sleep on the condition while the flag is set. */
  lemma {:induction false} RestSleeps(s: Wp, t: Task, k: Point)
    requires InOrder(s.pcs, s.m) && s in Resting() && t in s.pcs && s.pcs[t] == Run(k)
    requires (k.ShLock? || k.ExLock?) && s.w && s.ex != Some(t)
    ensures Moved(s, t, Asleep(k)).(cond := s.cond + [t]) in Resting()
  {
    RestParts(s);
    SensibleMoved(s.pcs, t, Asleep(k));
    FlagMoved(s, t, Asleep(k));
    CondJoins(s.pcs, t, Asleep(k), s.cond);
    assert OwnerOk(Moved(s, t, Asleep(k)));
    DrainJoined(s, t, k);
    PartsRest(Moved(s, t, Asleep(k)).(cond := s.cond + [t]));
  }

  lemma {:induction false} DrainJoined(s: Wp, t: Task, k: Point)
    requires InOrder(s.pcs, s.m) && DrainOk(s) && t in s.pcs && s.pcs[t] == Run(k) && !k.Drain?
    ensures DrainOk(Moved(s, t, Asleep(k)).(cond := s.cond + [t]))
  {
    assert forall x :: x in s.pcs && s.pcs[x].Run? ==> x == t;
  }

  lemma {:induction false} StepSleeps(s: Wp, t: Task)
    requires s in Safe() && t in s.pcs && s.w && !(s.rec && s.ex == Some(t))
    requires s.pcs[t] == Run(ShLock) || s.pcs[t] == Run(ExLock)
    ensures RunStep(s, t) in Safe()
  {
    var k := s.pcs[t].k;
    SafeParts(s);
    OwnerAt(s, t);
    RestSleeps(s, t, k);
    SleepsSafe(s, t, k);
  }

  lemma {:induction false} SleepsSafe(s: Wp, t: Task, k: Point)
    requires InOrder(s.pcs, s.m) && t in s.pcs && s.pcs[t].Run?
    requires Moved(s, t, Asleep(k)).(cond := s.cond + [t]) in Resting()
    ensures WaitCond(s, t, k) in Safe()
  {
    var u := s.(cond := s.cond + [t]);
    assert Moved(u, t, Asleep(k)) == Moved(s, t, Asleep(k)).(cond := s.cond + [t]);
    SafeLeft(s, t, u, Asleep(k));
    assert Leave(u, t, Asleep(k)) == WaitCond(s, t, k);
  }

  // ---------------------------------------------------------------- the last reader out

  /** When a reader leaves and tasks sleep on the condition, the first of them is the writer that waits for the
      readers. */
  lemma {:induction false} DrainerIsFirst(s: Wp, t: Task)
    requires InOrder(s.pcs, s.m) && s in Resting() && t in s.pcs && s.pcs[t] == Run(ShUnlock) && s.cond != []
    ensures s.cond[0] in s.pcs && s.pcs[s.cond[0]] == Asleep(Drain)
  {
    Counted(s.pcs, t);
    assert Drainers(s.pcs) == 1;
    var x :| x in Those(s.pcs, {Drain});
  }

  lemma {:induction false} CondLeaves(pcs: map<Task, Pc<Point>>, cond: seq<Task>)
    requires CondOk(pcs, cond) && cond != []
    ensures CondOk(pcs[cond[0] := Acquire(pcs[cond[0]].k)], cond[1..])
  {
    var b := pcs[cond[0] := Acquire(pcs[cond[0]].k)];
    forall x | x in b ensures b[x].Asleep? <==> x in cond[1..] {
      if x in cond && x != cond[0] {
        var i :| 0 <= i < |cond| && cond[i] == x;
        assert cond[1..][i - 1] == x;
      }
    }
  }

  /** The count goes down; nobody sleeps, or readers are left. */
  lemma {:induction false} ReaderLeaves(s: Wp, t: Task)
    requires InOrder(s.pcs, s.m) && s in Resting() && t in s.pcs && s.pcs[t] == Run(ShUnlock)
    requires (s.cond == [] || s.r > 1)
    ensures Moved(s, t, Run(Done)).(r := s.r - 1) in Resting()
  {
    Counts(s.pcs, t, Run(Done));
    Counted(s.pcs, t);
    CondStays(s.pcs, t, Run(Done), s.cond);
  }

  /** The state after the last reader has left and woken up the writer h. */
  ghost function LastLeft(s: Wp, t: Task, h: Task): Wp
    requires s.cond != []
  {
    s.(pcs := s.pcs[t := Run(Done)][h := Acquire(Drain)], cond := s.cond[1..], r := s.r - 1)
  }

  lemma {:induction false} LastLeftLists(s: Wp, t: Task, h: Task)
    requires s in Resting() && t in s.pcs && s.pcs[t] == Run(ShUnlock) && s.cond != [] && s.r == 1
    requires h == s.cond[0] && h in s.pcs && s.pcs[h] == Asleep(Drain)
    ensures CondOk(LastLeft(s, t, h).pcs, s.cond[1..]) && FlagOk(LastLeft(s, t, h))
  {
    var b := s.pcs[t := Run(Done)];
    Counted(s.pcs, t);
    Counts(s.pcs, t, Run(Done));
    CondStays(s.pcs, t, Run(Done), s.cond);
    Counts(b, h, Acquire(Drain));
    CondLeaves(b, s.cond);
  }

  lemma {:induction false} LastLeftDrain(s: Wp, t: Task, h: Task)
    requires s in Resting() && t in s.pcs && s.pcs[t] == Run(ShUnlock) && s.cond != [] && s.r == 1
    requires h == s.cond[0] && h in s.pcs && s.pcs[h] == Asleep(Drain)
    ensures OwnerOk(LastLeft(s, t, h)) && DrainOk(LastLeft(s, t, h))
  {
    var u := LastLeft(s, t, h);
    Counted(s.pcs, h);
    forall x | x in u.pcs && u.pcs[x].k.Drain? ensures x == h {
      OneDrainer(s.pcs, h, x);
    }
  }

  /** The last reader leaves and wakes up the writer. */
  lemma {:induction false} LastReaderLeaves(s: Wp, t: Task)
    requires InOrder(s.pcs, s.m) && s in Resting() && t in s.pcs && s.pcs[t] == Run(ShUnlock) && s.cond != []
    requires s.r == 1
    ensures LastLeft(s, t, s.cond[0]) in Resting()
    ensures LastLeft(s, t, s.cond[0]) == SignalOne(Moved(s, t, Run(Done)).(r := s.r - 1))
  {
    DrainerIsFirst(s, t);
    LastLeftLists(s, t, s.cond[0]);
    LastLeftDrain(s, t, s.cond[0]);
  }

  lemma {:induction false} StepShUnlock(s: Wp, t: Task)
    requires s in Safe() && t in s.pcs && s.pcs[t] == Run(ShUnlock)
    ensures RunStep(s, t) in Safe()
  {
    SafeParts(s);
    Counted(s.pcs, t);
    var u := Moved(s, t, Run(Done)).(r := s.r - 1);
    if s.cond == [] || s.r > 1 {
      ReaderLeaves(s, t);
      SafeMoved(s, t, u);
    } else {
      LastReaderLeaves(s, t);
      DrainerIsFirst(s, t);
      StayedInOrder(s.pcs, s.m, t, Run(Done));
      StayedInOrder(u.pcs, s.m, s.cond[0], Acquire(Drain));
      PartsSafe(SignalOne(u));
    }
  }

  // ---------------------------------------------------------------- writers

  /** exlock by the owner of a recursive lock. */
  lemma {:induction false} LocksAgain(s: Wp, t: Task)
    requires s in Safe() && t in s.pcs && s.pcs[t] == Run(ExLock) && s.rec && s.ex == Some(t)
    ensures RunStep(s, t) in Safe()
  {
    SafeParts(s);
    RestMoved(s, t, Run(Granted));
    SafeMoved(s, t, Moved(s, t, Run(Granted)).(rc := s.rc + 1));
  }

  /** exunlock that gives back one of several locks of the owner. */
  lemma {:induction false} UnlocksOnce(s: Wp, t: Task)
    requires s in Safe() && t in s.pcs && s.pcs[t] == Run(ExUnlock) && s.rec && s.rc - 1 > 0
    ensures RunStep(s, t) in Safe()
  {
    SafeParts(s);
    OwnerAt(s, t);
    RestMoved(s, t, Run(Granted));
    SafeMoved(s, t, Moved(s, t, Run(Granted)).(rc := s.rc - 1));
  }

  /** The flag is set: the writer goes on to wait for the readers. */
  lemma {:induction false} SetsFlag(s: Wp, t: Task)
    requires s in Safe() && t in s.pcs && s.pcs[t] == Run(ExLock) && !s.w
    ensures RunStep(s, t) in Safe()
  {
    SafeParts(s);
    Counts(s.pcs, t, Run(Drain));
    CondStays(s.pcs, t, Run(Drain), s.cond);
    var u := Moved(s, t, Run(Drain)).(w := true);
    forall x | x in u.pcs && u.pcs[x].k.Drain? ensures x == t {
      NoDrainer(s, x);
    }
    SafeMoved(s, t, u);
  }

  /** There are readers: the writer sleeps, first in the list. */
  lemma {:induction false} DrainSleeps(s: Wp, t: Task)
    requires s in Safe() && t in s.pcs && s.pcs[t] == Run(Drain) && s.r > 0
    ensures RunStep(s, t) in Safe()
  {
    SafeParts(s);
    RestDrainSleeps(s, t);
    SleepsSafe(s, t, Drain);
  }

  lemma {:induction false} RestDrainSleeps(s: Wp, t: Task)
    requires InOrder(s.pcs, s.m) && s in Resting() && t in s.pcs && s.pcs[t] == Run(Drain) && s.r > 0
    ensures Moved(s, t, Asleep(Drain)).(cond := s.cond + [t]) in Resting()
  {
    Counts(s.pcs, t, Asleep(Drain));
    CondJoins(s.pcs, t, Asleep(Drain), s.cond);
    Counted(s.pcs, t);
    forall x | x in s.pcs && s.pcs[x].k.Drain? ensures x == t {
      OneDrainer(s.pcs, t, x);
    }
  }

  /** No readers: the writer owns the lock. */
  lemma {:induction false} TakesLock(s: Wp, t: Task)
    requires s in Safe() && t in s.pcs && s.pcs[t] == Run(Drain) && s.r <= 0
    ensures RunStep(s, t) in Safe()
  {
    SafeParts(s);
    Counts(s.pcs, t, Run(Granted));
    CondStays(s.pcs, t, Run(Granted), s.cond);
    Counted(s.pcs, t);
    var u := RunStep(s, t);
    forall x | x in u.pcs ensures !u.pcs[x].k.Drain? {
      if x != t && s.pcs[x].k.Drain? { OneDrainer(s.pcs, t, x); }
    }
    SafeMoved(s, t, u);
  }

  /** The points of all tasks stay the same when they wake up. */
  lemma {:induction false} AwakeCounts(pcs: map<Task, Pc<Point>>, ts: seq<Task>)
    ensures Readers(Awake(pcs, ts)) == Readers(pcs) && Drainers(Awake(pcs, ts)) == Drainers(pcs)
  {
    assert Those(Awake(pcs, ts), {Shared, Reading, ShUnlock}) == Those(pcs, {Shared, Reading, ShUnlock});
    assert Those(Awake(pcs, ts), {Drain}) == Those(pcs, {Drain});
  }

  lemma {:induction false} AwakeInOrder(pcs: map<Task, Pc<Point>>, m: Mutex, cond: seq<Task>)
    requires InOrder(pcs, m) && CondOk(pcs, cond)
    ensures InOrder(Awake(pcs, cond), m)
  {
  }

  /** The owner gives the lock back and everybody who sleeps is woken up. */
  lemma {:induction false} RestUnlocked(s: Wp, t: Task)
    requires s in Resting() && t in s.pcs && s.pcs[t] == Run(ExUnlock) && !(s.rec && s.rc - 1 > 0)
    ensures var u := Moved(s, t, Run(Done));
      SignalAll(u.(ex := None, w := false, rc := if s.rec then s.rc - 1 else s.rc)) in Resting()
  {
    Counts(s.pcs, t, Run(Done));
    CondStays(s.pcs, t, Run(Done), s.cond);
    AwakeCounts(s.pcs[t := Run(Done)], s.cond);
    forall x | x in s.pcs ensures !s.pcs[x].k.Drain? {
      NoDrainer(s, x);
    }
  }

  lemma {:induction false} UnlocksFully(s: Wp, t: Task)
    requires s in Safe() && t in s.pcs && s.pcs[t] == Run(ExUnlock) && !(s.rec && s.rc - 1 > 0)
    ensures RunStep(s, t) in Safe()
  {
    SafeParts(s);
    RestUnlocked(s, t);
    StayedInOrder(s.pcs, s.m, t, Run(Done));
    CondStays(s.pcs, t, Run(Done), s.cond);
    AwakeInOrder(s.pcs[t := Run(Done)], s.m, s.cond);
    PartsSafe(RunStep(s, t));
  }

  // ---------------------------------------------------------------- all runs

  lemma {:induction false} StepRun(s: Wp, t: Task)
    requires s in Safe() && t in s.pcs && s.pcs[t].Run?
    ensures RunStep(s, t) in Safe()
  {
    OwnerAt(s, t);
    match s.pcs[t].k
    case ShLock => if s.w { OwnerNotHere(s, t); StepSleeps(s, t); } else { ReaderEnters(s, t); }
    case ShUnlock => StepShUnlock(s, t);
    case ExLock =>
      if s.rec && s.ex == Some(t) { LocksAgain(s, t); } else if s.w { StepSleeps(s, t); } else { SetsFlag(s, t); }
    case Drain => if s.r > 0 { DrainSleeps(s, t); } else { TakesLock(s, t); }
    case ExUnlock => if s.rec && s.rc - 1 > 0 { UnlocksOnce(s, t); } else { UnlocksFully(s, t); }
    case _ => StepLeave(s, t);
  }

  lemma {:induction false} OwnerNotHere(s: Wp, t: Task)
    requires s in Safe() && t in s.pcs && s.pcs[t].k.ShLock?
    ensures s.ex != Some(t)
  {
  }

  /** Every step of every task keeps the invariant. */
  lemma {:induction false} StepInv(s: Wp, t: Task, ask: Ask)
    requires s in Safe() && t in s.pcs
    ensures Step(s, t, ask) in Safe()
  {
    match s.pcs[t]
    case Out(_) => StepOut(s, t, ask);
    case Acquire(_) => StepAcquire(s, t);
    case Run(_) => StepRun(s, t);
    case _ => assert Step(s, t, ask) == s;
  }

  lemma {:induction false} InitInv(s: Wp)
    requires Init(s)
    ensures s in Safe()
  {
    assert Those(s.pcs, {Shared, Reading, ShUnlock}) == {} && Those(s.pcs, {Drain}) == {};
  }

  /** A schedule: which task moves, and what it asks for. */
  datatype Turn = Turn(t: Task, ask: Ask)

  /** A run: each state comes from the one before by the step of some task. */
  ghost predicate Ran(run: seq<Wp>, turns: seq<Turn>)
  {
    && |run| == |turns| + 1 && Init(run[0])
    && forall i :: 0 <= i < |turns| ==>
         turns[i].t in run[i].pcs && run[i + 1] == Step(run[i], turns[i].t, turns[i].ask)
  }

  lemma {:induction false} RunSafe(run: seq<Wp>, turns: seq<Turn>, i: nat)
    requires Ran(run, turns) && i < |run|
    ensures run[i] in Safe()
  {
    if i == 0 {
      InitInv(run[0]);
    } else {
      RunSafe(run, turns, i - 1);
      assert run[i] == Step(run[i - 1], turns[i - 1].t, turns[i - 1].ask);
      StepInv(run[i - 1], turns[i - 1].t, turns[i - 1].ask);
    }
  }

  /** In every run, an exclusive owner excludes readers and other owners. */
  lemma {:induction false} Exclusion(run: seq<Wp>, turns: seq<Turn>, i: nat, o: Task, x: Task)
    requires Ran(run, turns) && i < |run| && o in run[i].pcs && run[i].pcs[o] == Out(Writing)
    requires x in run[i].pcs && x != o
    ensures run[i].ex == Some(o) && run[i].w && run[i].r == 0
    ensures run[i].pcs[x] != Out(Reading) && run[i].pcs[x] != Out(Writing)
  {
    var s := run[i];
    RunSafe(run, turns, i);
    OwnerAt(s, o);
    OwnerAt(s, x);
    SafeParts(s);
    Counted(s.pcs, x);
  }

  /** In every run, nobody sleeps on the condition while the flag is clear, and a writer that sleeps until the
      readers have left is the first in the list. */
  lemma {:induction false} WriterFirst(run: seq<Wp>, turns: seq<Turn>, i: nat)
    requires Ran(run, turns) && i < |run|
    ensures !run[i].w ==> run[i].cond == []
    ensures forall t :: t in run[i].pcs && run[i].pcs[t] == Asleep(Drain) ==> run[i].cond != [] && run[i].cond[0] == t
  {
    RunSafe(run, turns, i);
  }

  /** The signal of the last reader out reaches the waiting writer, if anybody sleeps at all. */
  lemma {:induction false} SignalReachesWriter(s: Wp, t: Task)
    requires s in Safe() && t in s.pcs && s.pcs[t] == Run(ShUnlock) && s.r == 1 && s.cond != []
    ensures s.cond[0] in s.pcs && s.pcs[s.cond[0]] == Asleep(Drain)
  {
    SafeParts(s);
    DrainerIsFirst(s, t);
  }

  /** A task that is not asleep, and has the lock or is on its way through its code. */
  ghost predicate Lively(p: Pc<Point>)
  {
    p.Acquire? || p.Run? || p == Out(Reading) || p == Out(Writing)
  }

  /** No wake-up is lost: while anybody sleeps on the condition, some task that has the lock or is about to take it
      can still go on. */
  lemma {:induction false} NeverStuck(run: seq<Wp>, turns: seq<Turn>, i: nat)
    requires Ran(run, turns) && i < |run| && run[i].cond != []
    ensures exists t :: t in run[i].pcs && Lively(run[i].pcs[t])
  {
    var s := run[i];
    RunSafe(run, turns, i);
    SafeParts(s);
    if s.m.owner.Some? {
      assert s.pcs[s.m.owner.value].Run?;
    } else if s.ex.Some? {
      assert Lively(s.pcs[s.ex.value]);
    } else {
      DrainerLively(s);
    }
  }

  lemma {:induction false} DrainerLively(s: Wp)
    requires InOrder(s.pcs, s.m) && s in Resting() && s.w && s.ex.None? && s.m.owner.None?
    ensures exists t :: t in s.pcs && Lively(s.pcs[t])
  {
    assert Count(s.pcs, {Drain}) == 1;
    var x :| x in Those(s.pcs, {Drain});
    if s.pcs[x].Asleep? {
      assert Count(s.pcs, {Shared, Reading, ShUnlock}) > 0;
      var y :| y in Those(s.pcs, {Shared, Reading, ShUnlock});
      assert Lively(s.pcs[y]);
    } else {
      assert Lively(s.pcs[x]);
    }
  }
}
