/**
 What the calls of the writer-preferring lock do for their callers: each task goes on in its own code, new readers stay
 out while a writer waits, nested locks are counted, and a call that need not wait gets through at once.
*/
module RwlockWpCalls {
  import opened Basics
  import opened Options
  import opened Mutexes
  import opened Locking
  import opened RwlockWp

  // ---------------------------------------------------------------- each task follows its own code

  /** Which point of the code comes after which. */
  ghost predicate Follows(k: Point, q: Point)
  {
    match k
    case Idle => q.ShLock? || q.ExLock?
    case ShLock => q.ShLock? || q.Shared?
    case Shared => q.Reading?
    case Reading => q.ShUnlock?
    case ShUnlock => q.Done?
    case ExLock => q.ExLock? || q.Drain? || q.Granted?
    case Drain => q.Drain? || q.Granted?
    case Granted => q.Writing?
    case Writing => q.ExLock? || q.ExUnlock?
    case ExUnlock => q.Granted? || q.Done?
    case Done => q.Idle?
  }

  /** A task that is woken up, or handed the mutex, by another one. */
  ghost predicate Carried(p: Pc<Point>, q: Pc<Point>)
  {
    q == p || (p.Asleep? && q == Acquire(p.k)) || (p.Queued? && q == Run(p.k))
  }

  /** The facts about the lists that are needed here. */
  lemma {:induction false} Lists(s: Wp)
    requires s in Safe()
    ensures s.m.waiters != [] ==> s.m.waiters[0] in s.pcs && s.pcs[s.m.waiters[0]].Queued?
    ensures s.cond != [] ==> s.cond[0] in s.pcs && s.pcs[s.cond[0]].Asleep?
    ensures forall x :: x in s.pcs ==> (s.pcs[x].Asleep? <==> x in s.cond)
  {
    if s.m.waiters != [] { assert s.m.waiters[0] in s.m.waiters; }
    if s.cond != [] { assert s.cond[0] in s.cond; }
  }

  lemma {:induction false} ReleasedCarries(s: Wp, t: Task, p: Pc<Point>, x: Task)
    requires t in s.pcs && s.pcs[t].Run? && x in s.pcs
    requires s.m.waiters != [] ==> s.m.waiters[0] in s.pcs && s.pcs[s.m.waiters[0]].Queued?
    ensures x in Leave(s, t, p).pcs
    ensures if x == t then Leave(s, t, p).pcs[x] == p else Carried(s.pcs[x], Leave(s, t, p).pcs[x])
  {
  }

  lemma {:induction false} OneCarries(s: Wp, u: Wp, t: Task, p: Pc<Point>, x: Task)
    requires t in s.pcs && s.pcs[t].Run? && x in s.pcs && u.pcs == s.pcs[t := p] && u.cond == s.cond
    requires s.cond != [] ==> s.cond[0] in s.pcs && s.pcs[s.cond[0]].Asleep?
    ensures x in SignalOne(u).pcs
    ensures if x == t then SignalOne(u).pcs[x] == p else Carried(s.pcs[x], SignalOne(u).pcs[x])
  {
  }

  lemma {:induction false} AllCarries(s: Wp, u: Wp, t: Task, p: Pc<Point>, x: Task)
    requires t in s.pcs && s.pcs[t].Run? && x in s.pcs && u.pcs == s.pcs[t := p] && u.cond == s.cond
    requires forall y :: y in s.pcs ==> (s.pcs[y].Asleep? <==> y in s.cond)
    ensures x in SignalAll(u).pcs
    ensures if x == t then SignalAll(u).pcs[x] == p else Carried(s.pcs[x], SignalAll(u).pcs[x])
  {
  }

  /** The point a task in the mutex gets to. */
  ghost predicate Onward(s: Wp, u: Wp, t: Task, x: Task)
  {
    && t in s.pcs && x in s.pcs && x in u.pcs
    && if x == t then Follows(s.pcs[t].k, u.pcs[t].k) && u.pcs[t] != s.pcs[t] else Carried(s.pcs[x], u.pcs[x])
  }

  lemma {:induction false} ReadersGoOn(s: Wp, t: Task, x: Task)
    requires s in Safe() && t in s.pcs && s.pcs[t].Run? && x in s.pcs
    requires s.pcs[t].k.ShLock? || s.pcs[t].k.Shared? || s.pcs[t].k.ShUnlock? || s.pcs[t].k.Done?
    ensures Onward(s, RunStep(s, t), t, x)
  {
    Lists(s);
    match s.pcs[t].k
    case ShLock => if s.w { ReleasedCarries(s, t, Asleep(ShLock), x); }
    case Shared => ReleasedCarries(s, t, Out(Reading), x);
    case Done => ReleasedCarries(s, t, Out(Idle), x);
    case ShUnlock => OneCarries(s, Moved(s, t, Run(Done)).(r := s.r - 1), t, Run(Done), x);
  }

  lemma {:induction false} WritersGoOn(s: Wp, t: Task, x: Task)
    requires s in Safe() && t in s.pcs && s.pcs[t].Run? && x in s.pcs
    requires s.pcs[t].k.ExLock? || s.pcs[t].k.Drain? || s.pcs[t].k.Granted? || s.pcs[t].k.ExUnlock?
    ensures Onward(s, RunStep(s, t), t, x)
  {
    Lists(s);
    match s.pcs[t].k
    case ExLock => if s.w { ReleasedCarries(s, t, Asleep(ExLock), x); }
    case Drain => if s.r > 0 { ReleasedCarries(s, t, Asleep(Drain), x); }
    case Granted => ReleasedCarries(s, t, Out(Writing), x);
    case ExUnlock =>
      var u := Moved(s, t, Run(Done)).(ex := None, w := false, rc := if s.rec then s.rc - 1 else s.rc);
      AllCarries(s, u, t, Run(Done), x);
  }

  /** Every step takes its task on in its own code, or into the mutex; all other tasks want what they wanted. */
  lemma {:induction false} PointsFollow(s: Wp, t: Task, ask: Ask, x: Task)
    requires s in Safe() && t in s.pcs && x in s.pcs
    ensures x in Step(s, t, ask).pcs
    ensures var p, q := s.pcs[x], Step(s, t, ask).pcs[x];
      if x != t || p.Asleep? || p.Queued? then Carried(p, q)
      else if p.Acquire? then q == Run(p.k) || q == Queued(p.k)
      else Follows(p.k, q.k) && q != p
  {
    OwnerAt(s, t);
    if s.pcs[t].Run? {
      var k := s.pcs[t].k;
      if k.ShLock? || k.Shared? || k.ShUnlock? || k.Done? { ReadersGoOn(s, t, x); } else { WritersGoOn(s, t, x); }
    }
  }

  /** What an idle task asks for is what it gets in line for, and so for a writer that locks again or unlocks. */
  lemma {:induction false} AsksAsTold(s: Wp, t: Task, ask: Ask)
    requires t in s.pcs && s.pcs[t].Out? && Sensible(s.pcs[t])
    ensures t in Step(s, t, ask).pcs
    ensures Step(s, t, ask) == Moved(s, t, Acquire(if s.pcs[t].k.Idle? then if ask.Exclusive? then ExLock else ShLock
                                                  else if s.pcs[t].k.Reading? then ShUnlock
                                                  else if ask.Exclusive? && s.rec then ExLock else ExUnlock))
  {
  }

  // ---------------------------------------------------------------- writers come first

  lemma {:induction false} ReadersInRun(s: Wp, t: Task)
    requires t in s.pcs && s.pcs[t].Run? && s.w
    ensures RunStep(s, t).r <= s.r
  {
  }

  /** While a writer waits or writes, nobody becomes a reader. */
  lemma {:induction false} NoNewReader(s: Wp, t: Task, ask: Ask, x: Task)
    requires s in Safe() && t in s.pcs && s.w && x in s.pcs
    ensures Step(s, t, ask).r <= s.r
    ensures x in Step(s, t, ask).pcs && (Reads(Step(s, t, ask).pcs[x].k) ==> Reads(s.pcs[x].k))
  {
    PointsFollow(s, t, ask, x);
    if s.pcs[t].Run? {
      ReadersInRun(s, t);
      if s.pcs[t].k.ShLock? && x == t {
        Lists(s);
        ReleasedCarries(s, t, Asleep(ShLock), x);
      }
    }
  }

  ghost predicate Flagged(run: seq<Wp>, i: nat, j: nat)
    requires j < |run|
    decreases j
  {
    i < j ==> run[j - 1].w && Flagged(run, i, j - 1)
  }

  lemma {:induction false} RanStep(run: seq<Wp>, turns: seq<Turn>, j: nat)
    requires Ran(run, turns) && 0 < j < |run|
    ensures turns[j - 1].t in run[j - 1].pcs && run[j] == Step(run[j - 1], turns[j - 1].t, turns[j - 1].ask)
    ensures run[j - 1] in Safe()
  {
    RunSafe(run, turns, j - 1);
    assert run[j - 1 + 1] == Step(run[j - 1], turns[j - 1].t, turns[j - 1].ask);
  }

  /** In every run: from the moment a writer has set the flag, the readers only get fewer for as long as it is set, and
      whoever reads then has been reading from the start. */
  lemma {:induction false} WriterKeepsReadersOut(run: seq<Wp>, turns: seq<Turn>, i: nat, j: nat, x: Task)
    requires Ran(run, turns) && i <= j < |run| && x in run[i].pcs && Flagged(run, i, j)
    ensures run[j].r <= run[i].r && x in run[j].pcs && (Reads(run[j].pcs[x].k) ==> Reads(run[i].pcs[x].k))
    decreases j
  {
    if i < j {
      WriterKeepsReadersOut(run, turns, i, j - 1, x);
      RanStep(run, turns, j);
      NoNewReader(run[j - 1], turns[j - 1].t, turns[j - 1].ask, x);
    }
  }

  // ---------------------------------------------------------------- nested locks

  /** The step of a call that gets the lock, and that of an unlock. */
  ghost predicate Gets(s: Wp, u: Wp, t: Task)
  {
    t in s.pcs && t in u.pcs && (s.pcs[t] == Run(ExLock) || s.pcs[t] == Run(Drain)) && u.pcs[t] == Run(Granted)
  }

  ghost predicate GivesBack(s: Wp, t: Task) { t in s.pcs && s.pcs[t] == Run(ExUnlock) }

  /** Exclusive locks granted so far, less those given back. */
  ghost function Depth(run: seq<Wp>, turns: seq<Turn>, i: nat): int
    requires |run| == |turns| + 1 && i < |run|
  {
    if i == 0 then 0
    else
      var t := turns[i - 1].t;
      Depth(run, turns, i - 1) + One(Gets(run[i - 1], run[i], t)) - One(GivesBack(run[i - 1], t))
  }

  /** The owner, the count and the number of locks belong together. */
  ghost predicate CountRight(s: Wp, d: int)
  {
    (s.rec ==> d == s.rc) && (s.ex.Some? <==> d > 0) && 0 <= d && (!s.rec ==> d <= 1)
  }

  lemma {:induction false} FlagMeans(s: Wp)
    requires s in Safe()
    ensures Drainers(s.pcs) + (if s.ex.Some? then 1 else 0) == (if s.w then 1 else 0)
    ensures s.rc >= 0 && (s.rc > 0 <==> s.rec && s.ex.Some?)
  {
  }

  lemma {:induction false} DepthInRun(s: Wp, t: Task, d: int)
    requires s in Safe() && t in s.pcs && s.pcs[t].Run? && CountRight(s, d)
    ensures var u := RunStep(s, t);
      u.rec == s.rec && CountRight(u, d + One(Gets(s, u, t)) - One(GivesBack(s, t)))
  {
    OwnerAt(s, t);
    Counted(s.pcs, t);
    FlagMeans(s);
    PointsFollow(s, t, Other, t);
  }

  lemma {:induction false} DepthStep(s: Wp, t: Task, ask: Ask, d: int)
    requires s in Safe() && t in s.pcs && CountRight(s, d)
    ensures var u := Step(s, t, ask); u.rec == s.rec && CountRight(u, d + One(Gets(s, u, t)) - One(GivesBack(s, t)))
  {
    if s.pcs[t].Run? { DepthInRun(s, t, d); }
  }

  /** In every run the lock is held exclusively exactly while more locks have been granted than given back; the count of
      a recursive lock is the difference, and of one that is not the difference is at most one. */
  lemma {:induction false} HeldWhileNested(run: seq<Wp>, turns: seq<Turn>, i: nat)
    requires Ran(run, turns) && i < |run|
    ensures var d := Depth(run, turns, i);
      && run[i].rec == run[0].rec && (run[i].rec ==> d == run[i].rc) && (run[i].ex.Some? <==> d > 0)
      && 0 <= d && (!run[i].rec ==> d <= 1)
  {
    if i > 0 {
      HeldWhileNested(run, turns, i - 1);
      RanStep(run, turns, i);
      DepthStep(run[i - 1], turns[i - 1].t, turns[i - 1].ask, Depth(run, turns, i - 1));
    }
  }

  // ---------------------------------------------------------------- calls that need not wait

  /** Some steps of one task, with nobody in between. */
  ghost function Alone(s: Wp, t: Task, n: nat): Wp
  {
    if n == 0 then s
    else
      var u := Alone(s, t, n - 1);
      if t in u.pcs then Step(u, t, Other) else u
  }

  lemma {:induction false} AloneNext(s: Wp, t: Task, n: nat, u: Wp)
    requires Alone(s, t, n) == u && t in u.pcs
    ensures Alone(s, t, n + 1) == Step(u, t, Other)
  {
  }

  /** The task is inside a mutex that nobody waits for. */
  ghost function Inside(s: Wp, t: Task, k: Point): Wp { s.(pcs := s.pcs[t := Run(k)], m := s.m.(owner := Some(t))) }

  lemma {:induction false} GoesIn(s: Wp, t: Task, k: Point)
    requires s in Safe() && t in s.pcs && s.pcs[t] == Acquire(k) && s.m.owner.None?
    ensures Alone(s, t, 1) == Inside(s, t, k)
    ensures s.m.waiters == [] && s.m.count == 0 && !s.m.recursive
  {
    AloneNext(s, t, 0, s);
  }

  lemma {:induction false} GoesOut(s: Wp, u: Wp, t: Task, k: Point, p: Pc<Point>)
    requires s.m.owner.None? && s.m.waiters == [] && s.m.count == 0 && !s.m.recursive && u.m == s.m.(owner := Some(t))
    ensures Leave(u, t, p) == u.(pcs := u.pcs[t := p], m := s.m)
  {
  }

  /** A reader gets in at once if the flag is clear. */
  lemma {:induction false} ReaderGetsIn(s: Wp, t: Task)
    requires s in Safe() && t in s.pcs && s.pcs[t] == Acquire(ShLock) && s.m.owner.None? && !s.w
    ensures Alone(s, t, 3) == Moved(s, t, Out(Reading)).(r := s.r + 1)
  {
    GoesIn(s, t, ShLock);
    AloneNext(s, t, 1, Inside(s, t, ShLock));
    var u := Inside(s, t, Shared).(r := s.r + 1);
    assert Inside(s, t, ShLock).pcs[t := Run(Shared)] == u.pcs;
    AloneNext(s, t, 2, u);
    GoesOut(s, u, t, Shared, Out(Reading));
    assert u.pcs[t := Out(Reading)] == s.pcs[t := Out(Reading)];
  }

  /** A reader leaves at once if it is not the last one, or nobody sleeps. */
  lemma {:induction false} ReaderGetsOut(s: Wp, t: Task)
    requires s in Safe() && t in s.pcs && s.pcs[t] == Acquire(ShUnlock) && s.m.owner.None? && (s.r != 1 || s.cond == [])
    ensures Alone(s, t, 3) == Moved(s, t, Out(Idle)).(r := s.r - 1)
  {
    GoesIn(s, t, ShUnlock);
    AloneNext(s, t, 1, Inside(s, t, ShUnlock));
    var u := Inside(s, t, Done).(r := s.r - 1);
    assert Inside(s, t, ShUnlock).pcs[t := Run(Done)] == u.pcs;
    AloneNext(s, t, 2, u);
    GoesOut(s, u, t, Done, Out(Idle));
    assert u.pcs[t := Out(Idle)] == s.pcs[t := Out(Idle)];
  }

  /** The last one out wakes up the writer that waits, which then finds no reader. */
  lemma {:induction false} LastReaderWakes(s: Wp, t: Task)
    requires s in Safe() && t in s.pcs && s.pcs[t] == Run(ShUnlock) && s.r == 1 && s.cond != []
    ensures var u, h := RunStep(s, t), s.cond[0];
      && h in s.pcs && s.pcs[h] == Asleep(Drain) && h in u.pcs && u.pcs[h] == Acquire(Drain) && u.r == 0
  {
    SignalReachesWriter(s, t);
  }

  /** A writer gets the lock at once if it is free. */
  lemma {:induction false} WriterGetsIn(s: Wp, t: Task)
    requires s in Safe() && t in s.pcs && s.pcs[t] == Acquire(ExLock) && s.m.owner.None? && !s.w && s.r == 0
    ensures Alone(s, t, 4)
         == Moved(s, t, Out(Writing)).(w := true, ex := Some(t), rc := if s.rec then s.rc + 1 else s.rc)
  {
    FlagMeans(s);
    GoesIn(s, t, ExLock);
    AloneNext(s, t, 1, Inside(s, t, ExLock));
    var u := Inside(s, t, Drain).(w := true);
    assert Inside(s, t, ExLock).pcs[t := Run(Drain)] == u.pcs;
    AloneNext(s, t, 2, u);
    var v := Inside(s, t, Granted).(w := true, ex := Some(t), rc := if s.rec then s.rc + 1 else s.rc);
    assert u.pcs[t := Run(Granted)] == v.pcs;
    AloneNext(s, t, 3, v);
    GoesOut(s, v, t, Granted, Out(Writing));
    assert v.pcs[t := Out(Writing)] == s.pcs[t := Out(Writing)];
  }

  /** And a writer that has waited for the readers gets it once it is woken up. */
  lemma {:induction false} DrainedGetsIn(s: Wp, t: Task)
    requires s in Safe() && t in s.pcs && s.pcs[t] == Acquire(Drain) && s.m.owner.None?
    ensures Alone(s, t, 3) == Moved(s, t, Out(Writing)).(ex := Some(t), rc := if s.rec then s.rc + 1 else s.rc)
  {
    NoReadersLeft(s, t);
    GoesIn(s, t, Drain);
    AloneNext(s, t, 1, Inside(s, t, Drain));
    var v := Inside(s, t, Granted).(ex := Some(t), rc := if s.rec then s.rc + 1 else s.rc);
    assert Inside(s, t, Drain).pcs[t := Run(Granted)] == v.pcs;
    AloneNext(s, t, 2, v);
    GoesOut(s, v, t, Granted, Out(Writing));
    assert v.pcs[t := Out(Writing)] == s.pcs[t := Out(Writing)];
  }

  lemma {:induction false} NoReadersLeft(s: Wp, t: Task)
    requires s in Safe() && t in s.pcs && s.pcs[t] == Acquire(Drain)
    ensures s.r == 0
  {
  }

  /** The owner of a recursive lock gets it once more at once. */
  lemma {:induction false} OwnerGetsInAgain(s: Wp, t: Task)
    requires s in Safe() && t in s.pcs && s.pcs[t] == Acquire(ExLock) && s.m.owner.None? && s.rec && s.ex == Some(t)
    ensures Alone(s, t, 3) == Moved(s, t, Out(Writing)).(rc := s.rc + 1)
  {
    GoesIn(s, t, ExLock);
    AloneNext(s, t, 1, Inside(s, t, ExLock));
    var v := Inside(s, t, Granted).(rc := s.rc + 1);
    assert Inside(s, t, ExLock).pcs[t := Run(Granted)] == v.pcs;
    AloneNext(s, t, 2, v);
    GoesOut(s, v, t, Granted, Out(Writing));
    assert v.pcs[t := Out(Writing)] == s.pcs[t := Out(Writing)];
  }

  /** The last unlock of a writer frees the lock and leaves nobody asleep. */
  lemma {:induction false} WriterFrees(s: Wp, t: Task, x: Task)
    requires s in Safe() && t in s.pcs && s.pcs[t] == Run(ExUnlock) && (s.rec ==> s.rc == 1) && x in s.pcs && x != t
    ensures var u := RunStep(s, t);
      && !u.w && u.ex.None? && (u.rec ==> u.rc == 0) && u.cond == [] && t in u.pcs && u.pcs[t] == Run(Done)
      && x in u.pcs && u.pcs[x] == if s.pcs[x].Asleep? then Acquire(s.pcs[x].k) else s.pcs[x]
  {
    Lists(s);
  }
}
