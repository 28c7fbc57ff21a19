/**
 The reader-preferring lock: readers count themselves under a mutex, and the first one in and the last one out
 take and give the single unit of a semaphore, which a writer takes directly.
*/
module RwlockRp {
  import opened Basics
  import opened Options
  import opened Mutexes
  import opened Semaphores
  import opened Locking

  /** Points in the code of a task. */
  datatype Point =
    | Idle
    | Enter | NeedSem | SleepR | Through | Reading
    | Exit | GiveSem | Gone
    | WantSem | SleepW | Writing

  datatype Rp = Rp(pcs: map<Task, Pc<Point>>, m: Mutex, sem: Sem, count: int)

  ghost predicate Sensible(p: Pc<Point>)
  {
    match p
    case Out(k) => k in {Idle, Reading, WantSem, SleepW, Writing}
    case Acquire(k) => k in {Enter, Exit}
    case Queued(k) => k in {Enter, Exit}
    case Run(k) => k in {Enter, NeedSem, SleepR, Through, Exit, GiveSem, Gone}
    case Asleep(_) => false
  }

  ghost predicate Init(s: Rp)
  {
    && (forall t :: t in s.pcs ==> s.pcs[t] == Out(Idle))
    && s.m == Mutex(false, None, 0, []) && s.sem == Sem(Some(1), 1, []) && s.count == 0
  }

  ghost function Moved(s: Rp, t: Task, p: Pc<Point>): Rp { s.(pcs := s.pcs[t := p]) }

  /** ksem_wait for the one unit. */
  ghost function WaitSem(s: Rp, t: Task, got: Pc<Point>, asleep: Pc<Point>): Rp
  {
    if s.sem.counter >= 1 then Moved(s, t, got).(sem := s.sem.(counter := s.sem.counter - 1))
    else Moved(s, t, asleep).(sem := s.sem.(waiters := s.sem.waiters + [Waiter(t, 1)]))
  }

  /** A task that is woken up tries again. */
  ghost function Again(p: Pc<Point>): Pc<Point>
  {
    if p.Run? then Run(NeedSem) else Out(WantSem)
  }

  /** ksem_signal would go beyond the maximum. */
  ghost predicate OverQuota(s: Rp) { s.sem.counter + 1 > 1 }

  /** ksem_signal of the one unit: the list walk decides who is woken up. */
  ghost function SignalSem(s: Rp): Rp
  {
    if OverQuota(s) then s
    else
      var n := s.sem.counter + 1;
      Rp(Roused(s.pcs, Woken(s.sem.waiters, n)), s.m, s.sem.(counter := n, waiters := Left(s.sem.waiters, n)), s.count)
  }

  /** The tasks in the list are awake. */
  ghost function Roused(pcs: map<Task, Pc<Point>>, ws: seq<Waiter>): map<Task, Pc<Point>>
  {
    map t | t in pcs :: if exists i :: 0 <= i < |ws| && ws[i].task == t then Again(pcs[t]) else pcs[t]
  }

  /** What the list walk of ksem_signal comes to when every task waits for one unit. */
  lemma {:induction false} UnitSignal(ws: seq<Waiter>)
    requires forall i :: 0 <= i < |ws| ==> ws[i].units == 1
    ensures ws == [] ==> Woken(ws, 1) == [] && Left(ws, 1) == []
    ensures ws != [] ==> Woken(ws, 1) == [ws[0]] && Left(ws, 1) == ws[1..]
  {
    if ws != [] { assert Woken(ws[1..], 0) == [] && Left(ws[1..], 0) == ws[1..]; }
  }

  /** The unit is back, and the first waiter is awake. */
  ghost function SignalFirst(s: Rp): Rp
  {
    if s.sem.waiters == [] then s.(sem := s.sem.(counter := s.sem.counter + 1))
    else
      var h := s.sem.waiters[0].task;
      Rp(if h in s.pcs then s.pcs[h := Again(s.pcs[h])] else s.pcs, s.m,
         s.sem.(counter := s.sem.counter + 1, waiters := s.sem.waiters[1..]), s.count)
  }

  /** Everybody waits for one unit, so that a signal wakes up the first one alone. */
  lemma {:induction false} SignalIs(s: Rp)
    requires !OverQuota(s) && SleepersOk(s.pcs, s.sem.waiters)
    ensures SignalSem(s) == SignalFirst(s)
  {
    var ws := s.sem.waiters;
    UnitSignal(ws);
    if ws == [] {
      assert Roused(s.pcs, []) == s.pcs;
    } else {
      assert ws[0].task in s.pcs && [ws[0]][0].task == ws[0].task;
      assert Roused(s.pcs, [ws[0]]) == s.pcs[ws[0].task := Again(s.pcs[ws[0].task])];
    }
  }

  /** The next step of a task; an idle one asks for the lock, exclusive or shared.  A sleeping task stays. */
  ghost function Step(s: Rp, t: Task, exclusive: bool): Rp
    requires t in s.pcs
  {
    match s.pcs[t]
    case Acquire(_) => s.(pcs := Entered(s.pcs, s.m, t), m := Locked(s.m, t))
    case Queued(_) => s
    case Asleep(_) => s
    case Out(k) =>
      (match k
       case Idle => Moved(s, t, if exclusive then Out(WantSem) else Acquire(Enter))
       case Reading => Moved(s, t, Acquire(Exit))
       case WantSem => WaitSem(s, t, Out(Writing), Out(SleepW))
       case Writing => SignalSem(Moved(s, t, Out(Idle)))
       case _ => s)
    case Run(k) =>
      (match k
       case Enter => Moved(s, t, Run(if s.count + 1 == 1 then NeedSem else Through)).(count := s.count + 1)
       case NeedSem => WaitSem(s, t, Run(Through), Run(SleepR))
       case Through => s.(pcs := Released(s.pcs, s.m, t, Out(Reading)), m := Unlocked(s.m))
       case Exit => Moved(s, t, Run(if s.count - 1 == 0 then GiveSem else Gone)).(count := s.count - 1)
       case GiveSem => SignalSem(Moved(s, t, Run(Gone)))
       case Gone => s.(pcs := Released(s.pcs, s.m, t, Out(Idle)), m := Unlocked(s.m))
       case _ => s)
  }

  // ---------------------------------------------------------------- the invariant

  /** How many tasks are counted as readers, write, have the unit to give back, are a first reader without the
      unit, or are about to try for the unit. */
  datatype Tally = Tally(counted: int, writing: int, giving: int, needing: int, about: int)

  /** What a task at a point adds. */
  ghost function Weight(k: Point): Tally
  {
    Tally(One(k.NeedSem? || k.SleepR? || k.Through? || k.Reading? || k.Exit?), One(k.Writing?), One(k.GiveSem?),
          One(k.NeedSem? || k.SleepR?), One(k.NeedSem? || k.WantSem?))
  }

  ghost function Total(pcs: map<Task, Pc<Point>>): Tally
  {
    Tally(Count(pcs, {NeedSem, SleepR, Through, Reading, Exit}), Count(pcs, {Writing}), Count(pcs, {GiveSem}),
          Count(pcs, {NeedSem, SleepR}), Count(pcs, {NeedSem, WantSem}))
  }

  /** One task less at one point and one more at another. */
  ghost function Shift(a: Tally, p: Point, q: Point): Tally
  {
    var w, v := Weight(p), Weight(q);
    Tally(a.counted - w.counted + v.counted, a.writing - w.writing + v.writing, a.giving - w.giving + v.giving,
          a.needing - w.needing + v.needing, a.about - w.about + v.about)
  }

  lemma {:induction false} TotalMoved(pcs: map<Task, Pc<Point>>, t: Task, q: Pc<Point>)
    requires t in pcs
    ensures Total(pcs[t := q]) == Shift(Total(pcs), pcs[t].k, q.k)
  {
    CountMoved(pcs, t, q, {NeedSem, SleepR, Through, Reading, Exit});
    CountMoved(pcs, t, q, {Writing});
    CountMoved(pcs, t, q, {GiveSem});
    CountMoved(pcs, t, q, {NeedSem, SleepR});
    CountMoved(pcs, t, q, {NeedSem, WantSem});
  }

  lemma {:induction false} TotalEntered(pcs: map<Task, Pc<Point>>, m: Mutex, t: Task)
    requires t in pcs
    ensures Total(Entered(pcs, m, t)) == Total(pcs)
  {
    TotalMoved(pcs, t, Entered(pcs, m, t)[t]);
  }

  lemma {:induction false} TotalReleased(pcs: map<Task, Pc<Point>>, m: Mutex, t: Task, q: Pc<Point>)
    requires InOrder(pcs, m) && t in pcs && t !in m.waiters
    ensures Total(Released(pcs, m, t, q)) == Shift(Total(pcs), pcs[t].k, q.k)
  {
    TotalMoved(pcs, t, q);
    if m.waiters != [] {
      var h := m.waiters[0];
      assert h in m.waiters;
      TotalMoved(pcs[t := q], h, Run(pcs[h].k));
    }
  }

  /** A task at a point is in the tally. */
  lemma {:induction false} InTotal(pcs: map<Task, Pc<Point>>, t: Task)
    requires t in pcs
    ensures var a, w := Total(pcs), Weight(pcs[t].k);
      && w.counted <= a.counted && w.writing <= a.writing && w.giving <= a.giving
      && w.needing <= a.needing && w.about <= a.about
  {
    var q: Pc<Point> := Out(Idle);
    TotalMoved(pcs, t, q);
  }

  /** One if the readers have the unit. */
  ghost function ReaderHold(s: Rp): int
  {
    var a := Total(s.pcs);
    if a.giving > 0 then 1 else if a.needing > 0 then 0 else One(s.count > 0)
  }

  ghost function WriterHold(s: Rp): int { Total(s.pcs).writing }

  ghost predicate Sleeping(p: Pc<Point>) { p.k.SleepR? || p.k.SleepW? }

  /** The waiters of the semaphore are the tasks asleep on it. */
  ghost predicate SleepersOk(pcs: map<Task, Pc<Point>>, ws: seq<Waiter>)
  {
    && (forall i :: 0 <= i < |ws| ==> ws[i].units == 1 && ws[i].task in pcs && Sleeping(pcs[ws[i].task]))
    && (forall i, j :: 0 <= i < j < |ws| ==> ws[i].task != ws[j].task)
    && (forall t :: t in pcs && Sleeping(pcs[t]) ==> Waiter(t, 1) in ws)
  }

  /** The unit is in the semaphore, with the readers or with one writer; `due` is one between giving it up and
      putting it back.  When the unit is free and somebody sleeps, somebody is about to try again. */
  ghost predicate Balance(s: Rp, due: nat)
  {
    var a := Total(s.pcs);
    && s.count == a.counted && s.sem.max == Some(1) && s.sem.counter + ReaderHold(s) + WriterHold(s) + due == 1
    && (a.needing > 0 ==> s.count == 1 && a.giving == 0) && (a.giving > 0 ==> s.count == 0)
    && (s.sem.counter >= 1 && s.sem.waiters != [] ==> a.about > 0)
  }

  ghost predicate Order(s: Rp)
  {
    InOrder(s.pcs, s.m) && forall t :: t in s.pcs ==> Sensible(s.pcs[t])
  }

  ghost predicate InvDue(s: Rp, due: nat)
  {
    Order(s) && Balance(s, due) && SleepersOk(s.pcs, s.sem.waiters)
  }

  ghost predicate Inv(s: Rp) { InvDue(s, 0) }

  /** The states of the invariant. */
  ghost function Safe(): iset<Rp> { iset s: Rp | Inv(s) }

  /** The states just before the unit is put back. */
  ghost function Owing(): iset<Rp> { iset s: Rp | InvDue(s, 1) }

  // ---------------------------------------------------------------- every step keeps it

  lemma {:induction false} SleepersStay(pcs: map<Task, Pc<Point>>, t: Task, q: Pc<Point>, ws: seq<Waiter>)
    requires SleepersOk(pcs, ws) && t in pcs && !Sleeping(pcs[t]) && !Sleeping(q)
    ensures SleepersOk(pcs[t := q], ws)
  {
  }

  lemma {:induction false} OrderMoved(s: Rp, t: Task, q: Pc<Point>)
    requires Order(s) && t in s.pcs && (q.Run? <==> s.pcs[t].Run?) && !s.pcs[t].Queued? && Sensible(q) && !q.Queued?
    ensures Order(Moved(s, t, q))
  {
    StayedInOrder(s.pcs, s.m, t, q);
  }

  lemma {:induction false} BalanceQuiet(s: Rp, t: Task, q: Pc<Point>)
    requires Balance(s, 0) && t in s.pcs
    requires if s.pcs[t].k == Idle then q.k == WantSem || q.k == Enter else s.pcs[t].k == Reading && q.k == Exit
    ensures Balance(Moved(s, t, q), 0)
  {
    TotalMoved(s.pcs, t, q);
  }

  lemma {:induction false} StepQuiet(s: Rp, t: Task, exclusive: bool)
    requires s in Safe() && t in s.pcs && (s.pcs[t] == Out(Idle) || s.pcs[t] == Out(Reading))
    ensures Step(s, t, exclusive) in Safe()
  {
    var q: Pc<Point> :=
      if s.pcs[t].k.Reading? then Acquire(Exit) else if exclusive then Out(WantSem) else Acquire(Enter);
    SafeParts(s);
    BalanceQuiet(s, t, q);
    OrderMoved(s, t, q);
    SleepersStay(s.pcs, t, q, s.sem.waiters);
    PartsSafe(Moved(s, t, q));
  }

  lemma {:induction false} StepAcquire(s: Rp, t: Task, exclusive: bool)
    requires s in Safe() && t in s.pcs && s.pcs[t].Acquire?
    ensures Step(s, t, exclusive) in Safe()
  {
    EnteredInOrder(s.pcs, s.m, t);
    TotalEntered(s.pcs, s.m, t);
    SleepersStay(s.pcs, t, Entered(s.pcs, s.m, t)[t], s.sem.waiters);
  }

  lemma {:induction false} ReleasedRest(s: Rp, t: Task, q: Pc<Point>)
    requires Order(s) && t in s.pcs && s.pcs[t].Run? && !Sleeping(s.pcs[t]) && q.Out? && Sensible(q) && !Sleeping(q)
    requires SleepersOk(s.pcs, s.sem.waiters)
    ensures var b := Released(s.pcs, s.m, t, q);
      Order(s.(pcs := b, m := Unlocked(s.m))) && SleepersOk(b, s.sem.waiters)
  {
    ReleasedInOrder(s.pcs, s.m, t, q);
    SleepersStay(s.pcs, t, q, s.sem.waiters);
    if s.m.waiters != [] {
      var h := s.m.waiters[0];
      assert h in s.m.waiters && h in s.pcs && s.pcs[h].Queued?;
      SleepersStay(s.pcs[t := q], h, Run(s.pcs[h].k), s.sem.waiters);
    }
  }

  lemma {:induction false} ReleasedInv(s: Rp, t: Task, q: Pc<Point>)
    requires s in Safe() && t in s.pcs && s.pcs[t].Run? && !Sleeping(s.pcs[t]) && q.Out? && Sensible(q) && !Sleeping(q)
    requires Weight(s.pcs[t].k) == Weight(q.k)
    ensures s.(pcs := Released(s.pcs, s.m, t, q), m := Unlocked(s.m)) in Safe()
  {
    SafeParts(s);
    TotalReleased(s.pcs, s.m, t, q);
    ReleasedRest(s, t, q);
    PartsSafe(s.(pcs := Released(s.pcs, s.m, t, q), m := Unlocked(s.m)));
  }

  /** Only the owner of the mutex is at the points between the count and the unit. */
  lemma {:induction false} NobodyBetween(s: Rp, t: Task)
    requires Order(s) && t in s.pcs && s.pcs[t].Run? && !s.pcs[t].k.NeedSem? && !s.pcs[t].k.SleepR?
    ensures Total(s.pcs).needing == 0
    ensures !s.pcs[t].k.GiveSem? ==> Total(s.pcs).giving == 0
  {
    assert Those(s.pcs, {NeedSem, SleepR}) == {};
    assert !s.pcs[t].k.GiveSem? ==> Those(s.pcs, {GiveSem}) == {};
  }

  /** One more reader is counted. */
  lemma {:induction false} EnterInv(s: Rp, t: Task)
    requires s in Safe() && t in s.pcs && s.pcs[t] == Run(Enter)
    ensures Moved(s, t, Run(if s.count + 1 == 1 then NeedSem else Through)).(count := s.count + 1) in Safe()
  {
    var q: Pc<Point> := Run(if s.count + 1 == 1 then NeedSem else Through);
    SafeParts(s);
    NobodyBetween(s, t);
    BalanceEnter(s, t, q);
    OrderMoved(s, t, q);
    SleepersStay(s.pcs, t, q, s.sem.waiters);
    PartsSafe(Moved(s, t, q).(count := s.count + 1));
  }

  lemma {:induction false} BalanceEnter(s: Rp, t: Task, q: Pc<Point>)
    requires Balance(s, 0) && t in s.pcs && s.pcs[t].k == Enter && Total(s.pcs).needing == 0 && Total(s.pcs).giving == 0
    requires q.k == if s.count + 1 == 1 then NeedSem else Through
    ensures Balance(Moved(s, t, q).(count := s.count + 1), 0)
  {
    TotalMoved(s.pcs, t, q);
  }

  /** One less. */
  lemma {:induction false} ExitInv(s: Rp, t: Task)
    requires s in Safe() && t in s.pcs && s.pcs[t] == Run(Exit)
    ensures Moved(s, t, Run(if s.count - 1 == 0 then GiveSem else Gone)).(count := s.count - 1) in Safe()
  {
    var q: Pc<Point> := Run(if s.count - 1 == 0 then GiveSem else Gone);
    SafeParts(s);
    NobodyBetween(s, t);
    BalanceExit(s, t, q);
    OrderMoved(s, t, q);
    SleepersStay(s.pcs, t, q, s.sem.waiters);
    PartsSafe(Moved(s, t, q).(count := s.count - 1));
  }

  lemma {:induction false} BalanceExit(s: Rp, t: Task, q: Pc<Point>)
    requires Balance(s, 0) && t in s.pcs && s.pcs[t].k == Exit && Total(s.pcs).needing == 0 && Total(s.pcs).giving == 0
    requires q.k == if s.count - 1 == 0 then GiveSem else Gone
    ensures Balance(Moved(s, t, q).(count := s.count - 1), 0)
  {
    TotalMoved(s.pcs, t, q);
    InTotal(s.pcs, t);
  }

  // ---------------------------------------------------------------- the semaphore

  lemma {:induction false} SleepersJoin(pcs: map<Task, Pc<Point>>, t: Task, q: Pc<Point>, ws: seq<Waiter>)
    requires SleepersOk(pcs, ws) && t in pcs && !Sleeping(pcs[t]) && Sleeping(q)
    ensures SleepersOk(pcs[t := q], ws + [Waiter(t, 1)])
  {
    var b, us := pcs[t := q], ws + [Waiter(t, 1)];
    forall x | x in b && Sleeping(b[x]) ensures Waiter(x, 1) in us {
      if x == t { assert us[|ws|] == Waiter(t, 1); }
    }
  }

  lemma {:induction false} SleepersLeave(pcs: map<Task, Pc<Point>>, q: Pc<Point>, ws: seq<Waiter>)
    requires SleepersOk(pcs, ws) && ws != [] && !Sleeping(q)
    ensures SleepersOk(pcs[ws[0].task := q], ws[1..])
  {
    var h := ws[0].task;
    var b := pcs[h := q];
    forall x | x in b && Sleeping(b[x]) ensures Waiter(x, 1) in ws[1..] {
      assert Waiter(x, 1) in ws && x != h;
      var i :| 0 <= i < |ws| && ws[i] == Waiter(x, 1);
      assert ws[1..][i - 1] == ws[i];
    }
  }

  /** A wait that gets the unit. */
  lemma {:induction false} WaitGets(s: Rp, t: Task, q: Pc<Point>)
    requires s in Safe() && t in s.pcs && s.sem.counter >= 1
    requires (s.pcs[t] == Out(WantSem) && q == Out(Writing)) || (s.pcs[t] == Run(NeedSem) && q == Run(Through))
    ensures WaitSem(s, t, q, q) in Safe()
  {
    SafeParts(s);
    OneNeeds(s);
    BalanceGets(s, t, q);
    OrderMoved(s, t, q);
    SleepersStay(s.pcs, t, q, s.sem.waiters);
    PartsSafe(WaitSem(s, t, q, q));
  }

  lemma {:induction false} BalanceGets(s: Rp, t: Task, q: Pc<Point>)
    requires Balance(s, 0) && t in s.pcs && s.sem.counter >= 1 && Total(s.pcs).needing <= 1
    requires (s.pcs[t].k == WantSem && q.k == Writing) || (s.pcs[t].k == NeedSem && q.k == Through)
    ensures Balance(WaitSem(s, t, q, q), 0)
  {
    TotalMoved(s.pcs, t, q);
    InTotal(s.pcs, t);
  }

  /** A wait that sleeps. */
  lemma {:induction false} WaitSleeps(s: Rp, t: Task, q: Pc<Point>)
    requires s in Safe() && t in s.pcs && s.sem.counter == 0
    requires (s.pcs[t] == Out(WantSem) && q == Out(SleepW)) || (s.pcs[t] == Run(NeedSem) && q == Run(SleepR))
    ensures WaitSem(s, t, q, q) in Safe()
  {
    SafeParts(s);
    BalanceSleeps(s, t, q);
    OrderMoved(s, t, q);
    SleepersJoin(s.pcs, t, q, s.sem.waiters);
    PartsSafe(WaitSem(s, t, q, q));
  }

  lemma {:induction false} WaitInv(s: Rp, t: Task, got: Pc<Point>, asleep: Pc<Point>)
    requires s in Safe() && t in s.pcs
    requires (s.pcs[t] == Out(WantSem) && got == Out(Writing) && asleep == Out(SleepW))
          || (s.pcs[t] == Run(NeedSem) && got == Run(Through) && asleep == Run(SleepR))
    ensures WaitSem(s, t, got, asleep) in Safe()
  {
    if s.sem.counter >= 1 {
      WaitGets(s, t, got);
    } else {
      WaitSleeps(s, t, asleep);
    }
  }

  lemma {:induction false} BalanceSleeps(s: Rp, t: Task, q: Pc<Point>)
    requires Balance(s, 0) && t in s.pcs && s.sem.counter == 0
    requires (s.pcs[t].k == WantSem && q.k == SleepW) || (s.pcs[t].k == NeedSem && q.k == SleepR)
    ensures Balance(WaitSem(s, t, q, q), 0)
  {
    TotalMoved(s.pcs, t, q);
  }

  lemma {:induction false} SafeParts(s: Rp)
    requires s in Safe()
    ensures Order(s) && Balance(s, 0) && SleepersOk(s.pcs, s.sem.waiters)
  {
  }

  lemma {:induction false} PartsSafe(s: Rp)
    requires Order(s) && Balance(s, 0) && SleepersOk(s.pcs, s.sem.waiters)
    ensures s in Safe()
  {
  }

  /** At most one task is between the count and the unit. */
  lemma {:induction false} OneNeeds(s: Rp)
    requires Order(s)
    ensures Total(s.pcs).needing <= 1
  {
    if Count(s.pcs, {NeedSem, SleepR}) > 0 {
      var x :| x in Those(s.pcs, {NeedSem, SleepR});
      assert Those(s.pcs, {NeedSem, SleepR}) == {x};
    }
  }

  /** Putting the unit back: the counter was zero, and the first sleeper is about to try again. */
  lemma {:induction false} SignalInv(s: Rp)
    requires s in Owing()
    ensures !OverQuota(s) && SignalSem(s) in Safe()
  {
    OwingParts(s);
    BalanceSignal(s);
    SignalIs(s);
    if s.sem.waiters != [] {
      var h := s.sem.waiters[0].task;
      var q := Again(s.pcs[h]);
      OrderMoved(s, h, q);
      SleepersLeave(s.pcs, q, s.sem.waiters);
    }
    PartsSafe(SignalFirst(s));
  }

  lemma {:induction false} OwingParts(s: Rp)
    requires s in Owing()
    ensures Order(s) && Balance(s, 1) && SleepersOk(s.pcs, s.sem.waiters)
  {
  }

  lemma {:induction false} BalanceSignal(s: Rp)
    requires Order(s) && Balance(s, 1) && SleepersOk(s.pcs, s.sem.waiters)
    ensures !OverQuota(s) && Balance(SignalFirst(s), 0)
  {
    if s.sem.waiters != [] {
      var h := s.sem.waiters[0].task;
      var q := Again(s.pcs[h]);
      TotalMoved(s.pcs, h, q);
      InTotal(s.pcs[h := q], h);
    }
  }

  /** Before the unit is put back. */
  lemma {:induction false} GivesUp(s: Rp, t: Task)
    requires s in Safe() && t in s.pcs && (s.pcs[t] == Out(Writing) || s.pcs[t] == Run(GiveSem))
    ensures Moved(s, t, if s.pcs[t].Run? then Run(Gone) else Out(Idle)) in Owing()
  {
    var q: Pc<Point> := if s.pcs[t].Run? then Run(Gone) else Out(Idle);
    SafeParts(s);
    if s.pcs[t].Run? { OneGives(s, t); }
    BalanceGive(s, t, q);
    OrderMoved(s, t, q);
    SleepersStay(s.pcs, t, q, s.sem.waiters);
    PartsOwing(Moved(s, t, q));
  }

  lemma {:induction false} BalanceGive(s: Rp, t: Task, q: Pc<Point>)
    requires Balance(s, 0) && t in s.pcs && (s.pcs[t].k == Writing || s.pcs[t].k == GiveSem)
    requires s.pcs[t].k == GiveSem ==> Total(s.pcs).giving == 1 && Total(s.pcs).needing == 0
    requires q.k == if s.pcs[t].k == GiveSem then Gone else Idle
    ensures Balance(Moved(s, t, q), 1)
  {
    TotalMoved(s.pcs, t, q);
    InTotal(s.pcs, t);
  }

  lemma {:induction false} PartsOwing(s: Rp)
    requires Order(s) && Balance(s, 1) && SleepersOk(s.pcs, s.sem.waiters)
    ensures s in Owing()
  {
  }

  lemma {:induction false} OneGives(s: Rp, t: Task)
    requires Order(s) && t in s.pcs && s.pcs[t] == Run(GiveSem)
    ensures Total(s.pcs).giving == 1 && Total(s.pcs).needing == 0
  {
    assert Those(s.pcs, {GiveSem}) == {t};
    assert Those(s.pcs, {NeedSem, SleepR}) == {};
  }

  // ---------------------------------------------------------------- all runs

  lemma {:induction false} GiveInv(s: Rp, t: Task)
    requires s in Safe() && t in s.pcs && (s.pcs[t] == Out(Writing) || s.pcs[t] == Run(GiveSem))
    ensures SignalSem(Moved(s, t, if s.pcs[t].Run? then Run(Gone) else Out(Idle))) in Safe()
  {
    GivesUp(s, t);
    SignalInv(Moved(s, t, if s.pcs[t].Run? then Run(Gone) else Out(Idle)));
  }

  lemma {:induction false} SafeOrder(s: Rp)
    requires s in Safe()
    ensures InOrder(s.pcs, s.m) && forall t :: t in s.pcs ==> Sensible(s.pcs[t])
  {
  }

  /** Every step of every task keeps the invariant. */
  lemma {:induction false} StepInv(s: Rp, t: Task, exclusive: bool)
    requires s in Safe() && t in s.pcs
    ensures Step(s, t, exclusive) in Safe()
  {
    SafeOrder(s);
    match s.pcs[t]
    case Acquire(_) => StepAcquire(s, t, exclusive);
    case Queued(_) =>
    case Asleep(_) =>
    case Out(_) => OutInv(s, t, exclusive);
    case Run(_) => RunInv(s, t, exclusive);
  }

  lemma {:induction false} OutInv(s: Rp, t: Task, exclusive: bool)
    requires s in Safe() && t in s.pcs && s.pcs[t].Out? && Sensible(s.pcs[t])
    ensures Step(s, t, exclusive) in Safe()
  {
    match s.pcs[t].k
    case Idle => StepQuiet(s, t, exclusive);
    case Reading => StepQuiet(s, t, exclusive);
    case WantSem => WaitInv(s, t, Out(Writing), Out(SleepW));
    case Writing => GiveInv(s, t);
    case _ =>
  }

  lemma {:induction false} RunInv(s: Rp, t: Task, exclusive: bool)
    requires s in Safe() && t in s.pcs && s.pcs[t].Run? && Sensible(s.pcs[t])
    ensures Step(s, t, exclusive) in Safe()
  {
    match s.pcs[t].k
    case Enter => EnterInv(s, t);
    case NeedSem => WaitInv(s, t, Run(Through), Run(SleepR));
    case Through => ReleasedInv(s, t, Out(Reading));
    case Exit => ExitInv(s, t);
    case GiveSem => GiveInv(s, t);
    case Gone => ReleasedInv(s, t, Out(Idle));
    case _ =>
  }

  lemma {:induction false} InitInv(s: Rp)
    requires Init(s)
    ensures s in Safe()
  {
    assert Those(s.pcs, {NeedSem, SleepR, Through, Reading, Exit}) == {};
    assert Those(s.pcs, {Writing}) == {} && Those(s.pcs, {GiveSem}) == {} && Those(s.pcs, {NeedSem, SleepR}) == {};
  }

  /** A schedule: which task moves, and what it asks for if it is idle. */
  datatype Turn = Turn(t: Task, exclusive: bool)

  /** A run: each state comes from the one before by the step of some task. */
  ghost predicate Ran(run: seq<Rp>, turns: seq<Turn>)
  {
    && |run| == |turns| + 1 && Init(run[0])
    && forall i :: 0 <= i < |turns| ==>
         turns[i].t in run[i].pcs && run[i + 1] == Step(run[i], turns[i].t, turns[i].exclusive)
  }

  lemma {:induction false} RunSafe(run: seq<Rp>, turns: seq<Turn>, i: nat)
    requires Ran(run, turns) && i < |run|
    ensures run[i] in Safe()
  {
    if i == 0 {
      InitInv(run[0]);
    } else {
      RunSafe(run, turns, i - 1);
      assert run[i] == Step(run[i - 1], turns[i - 1].t, turns[i - 1].exclusive);
      StepInv(run[i - 1], turns[i - 1].t, turns[i - 1].exclusive);
    }
  }

  /** In every run the one unit is always in exactly one place, and no wake-up is lost. */
  lemma {:induction false} UnitInOnePlace(run: seq<Rp>, turns: seq<Turn>, i: nat)
    requires Ran(run, turns) && i < |run|
    ensures run[i].sem.counter + ReaderHold(run[i]) + WriterHold(run[i]) == 1
    ensures run[i].sem.counter >= 1 && run[i].sem.waiters != [] ==> Count(run[i].pcs, {NeedSem, WantSem}) > 0
  {
    RunSafe(run, turns, i);
  }

  /** A reader and a writer, or two writers, never have the lock together. */
  lemma {:induction false} Exclusion(s: Rp, w: Task, x: Task)
    requires s in Safe() && w in s.pcs && s.pcs[w] == Out(Writing) && x in s.pcs && x != w
    ensures s.pcs[x] != Out(Reading) && s.pcs[x] != Out(Writing)
  {
    if s.pcs[x] == Out(Reading) {
      InTotal(s.pcs, w);
      ReaderCounts(s, x);
    } else if s.pcs[x] == Out(Writing) {
      InTotal(s.pcs, w);
      TotalMoved(s.pcs, w, Out(Idle));
      InTotal(s.pcs[w := Out(Idle)], x);
    }
  }

  /** A reader that is in has the unit behind it. */
  lemma {:induction false} ReaderCounts(s: Rp, x: Task)
    requires s in Safe() && x in s.pcs && s.pcs[x] == Out(Reading)
    ensures ReaderHold(s) == 1
  {
    InTotal(s.pcs, x);
    if Total(s.pcs).needing > 0 {
      assert Count(s.pcs, {NeedSem, SleepR}) > 0;
      var y :| y in Those(s.pcs, {NeedSem, SleepR});
      TotalMoved(s.pcs, x, Out(Idle));
      InTotal(s.pcs[x := Out(Idle)], y);
    }
  }

  /** A signal of the lock never fails for exceeding the maximum. */
  lemma {:induction false} NeverOverQuota(s: Rp, t: Task)
    requires s in Safe() && t in s.pcs && (s.pcs[t] == Out(Writing) || s.pcs[t] == Run(GiveSem))
    ensures !OverQuota(s)
  {
    InTotal(s.pcs, t);
  }
}
