/**
 What the calls of the reader-preferring lock do for their callers: each task goes on in its own code, readers come in
 past waiting writers while others read, and a call that need not wait gets through at once.
*/
module RwlockRpCalls {
  import opened Basics
  import opened Options
  import opened Mutexes
  import opened Semaphores
  import opened Locking
  import opened RwlockRp

  // ---------------------------------------------------------------- each task follows its own code

  /** Which point of the code comes after which. */
  ghost predicate Follows(k: Point, q: Point)
  {
    match k
    case Idle => q.Enter? || q.WantSem?
    case Enter => q.NeedSem? || q.Through?
    case NeedSem => q.SleepR? || q.Through?
    case SleepR => q.NeedSem?
    case Through => q.Reading?
    case Reading => q.Exit?
    case Exit => q.GiveSem? || q.Gone?
    case GiveSem => q.Gone?
    case Gone => q.Idle?
    case WantSem => q.SleepW? || q.Writing?
    case SleepW => q.WantSem?
    case Writing => q.Idle?
  }

  /** A task that is woken up, or handed the mutex, by another one. */
  ghost predicate Carried(p: Pc<Point>, q: Pc<Point>)
  {
    || q == p || (p.Queued? && q == Run(p.k))
    || (p == Run(SleepR) && q == Run(NeedSem)) || (p == Out(SleepW) && q == Out(WantSem))
  }

  lemma {:induction false} Parts(s: Rp)
    requires s in Safe()
    ensures InOrder(s.pcs, s.m) && SleepersOk(s.pcs, s.sem.waiters) && Balance(s, 0)
    ensures forall x :: x in s.pcs ==> Sensible(s.pcs[x])
    ensures s.m.waiters != [] ==> s.m.waiters[0] in s.pcs && s.pcs[s.m.waiters[0]].Queued?
  {
    if s.m.waiters != [] { assert s.m.waiters[0] in s.m.waiters; }
  }

  /** A signal by t, which moves on to p, wakes up at most the first waiter. */
  lemma {:induction false} SignalCarries(s: Rp, t: Task, p: Pc<Point>, x: Task)
    requires s in Safe() && t in s.pcs && x in s.pcs && !Sleeping(s.pcs[t]) && !Sleeping(p)
    ensures var b := SignalSem(Moved(s, t, p)).pcs; x in b && if x == t then b[x] == p else Carried(s.pcs[x], b[x])
  {
    Parts(s);
    var u := Moved(s, t, p);
    SleepersStay(s.pcs, t, p, s.sem.waiters);
    if !OverQuota(u) {
      SignalIs(u);
      if u.sem.waiters != [] { assert Sleeping(s.pcs[u.sem.waiters[0].task]); }
    }
  }

  lemma {:induction false} ReleaseCarries(s: Rp, t: Task, p: Pc<Point>, x: Task)
    requires t in s.pcs && s.pcs[t].Run? && x in s.pcs
    requires s.m.waiters != [] ==> s.m.waiters[0] in s.pcs && s.pcs[s.m.waiters[0]].Queued?
    ensures var b := Released(s.pcs, s.m, t, p); x in b && if x == t then b[x] == p else Carried(s.pcs[x], b[x])
  {
  }

  ghost predicate GoesAside(p: Pc<Point>)
  {
    p == Run(Through) || p == Run(Gone) || p == Run(GiveSem) || p == Out(Writing)
  }

  /** The task of a step moves on in its own code, or into the mutex. */
  ghost predicate Advances(p: Pc<Point>, q: Pc<Point>)
  {
    if p.Queued? || Sleeping(p) then Carried(p, q)
    else if p.Acquire? then q == Run(p.k) || q == Queued(p.k)
    else Follows(p.k, q.k)
  }

  lemma {:induction false} PlainFollow(s: Rp, t: Task, exclusive: bool, x: Task)
    requires t in s.pcs && x in s.pcs && Sensible(s.pcs[t]) && !GoesAside(s.pcs[t])
    ensures x in Step(s, t, exclusive).pcs
    ensures var p, q := s.pcs[x], Step(s, t, exclusive).pcs[x]; if x == t then Advances(p, q) else q == p
  {
  }

  lemma {:induction false} UnlockFollow(s: Rp, t: Task, exclusive: bool, x: Task)
    requires s in Safe() && t in s.pcs && x in s.pcs && (s.pcs[t] == Run(Through) || s.pcs[t] == Run(Gone))
    ensures x in Step(s, t, exclusive).pcs
    ensures var p, q := s.pcs[x], Step(s, t, exclusive).pcs[x]; if x == t then Follows(p.k, q.k) else Carried(p, q)
  {
    Parts(s);
    ReleaseCarries(s, t, if s.pcs[t] == Run(Through) then Out(Reading) else Out(Idle), x);
  }

  lemma {:induction false} AsideFollow(s: Rp, t: Task, exclusive: bool, x: Task)
    requires s in Safe() && t in s.pcs && x in s.pcs && GoesAside(s.pcs[t])
    ensures x in Step(s, t, exclusive).pcs
    ensures var p, q := s.pcs[x], Step(s, t, exclusive).pcs[x]; if x == t then Follows(p.k, q.k) else Carried(p, q)
  {
    if s.pcs[t] == Run(Through) || s.pcs[t] == Run(Gone) {
      UnlockFollow(s, t, exclusive, x);
    } else if s.pcs[t] == Run(GiveSem) {
      SignalCarries(s, t, Run(Gone), x);
    } else {
      SignalCarries(s, t, Out(Idle), x);
    }
  }

  /** Every step takes its task on in its own code, or into the mutex; all other tasks want what they wanted. */
  lemma {:induction false} PointsFollow(s: Rp, t: Task, exclusive: bool, x: Task)
    requires s in Safe() && t in s.pcs && x in s.pcs
    ensures x in Step(s, t, exclusive).pcs
    ensures var p, q := s.pcs[x], Step(s, t, exclusive).pcs[x]; if x == t then Advances(p, q) else Carried(p, q)
  {
    if GoesAside(s.pcs[t]) {
      AsideFollow(s, t, exclusive, x);
    } else {
      assert Sensible(s.pcs[t]) by { Parts(s); }
      PlainFollow(s, t, exclusive, x);
    }
  }

  // ---------------------------------------------------------------- calls that need not wait

  /** Some steps of one task, with nobody in between. */
  ghost function Alone(s: Rp, t: Task, n: nat): Rp
  {
    if n == 0 then s
    else
      var u := Alone(s, t, n - 1);
      if t in u.pcs then Step(u, t, false) else u
  }

  lemma {:induction false} AloneNext(s: Rp, t: Task, n: nat, u: Rp)
    requires Alone(s, t, n) == u && t in u.pcs
    ensures Alone(s, t, n + 1) == Step(u, t, false)
  {
  }

  /** The task is inside a mutex that nobody waits for. */
  ghost function Inside(s: Rp, t: Task, k: Point): Rp { s.(pcs := s.pcs[t := Run(k)], m := s.m.(owner := Some(t))) }

  lemma {:induction false} GoesIn(s: Rp, t: Task, k: Point)
    requires s in Safe() && t in s.pcs && s.pcs[t] == Acquire(k) && s.m.owner.None?
    ensures Alone(s, t, 1) == Inside(s, t, k) && s.m.waiters == [] && s.m.count == 0 && !s.m.recursive
  {
    Parts(s);
    AloneNext(s, t, 0, s);
  }

  lemma {:induction false} GoesOut(s: Rp, u: Rp, t: Task, p: Pc<Point>)
    requires s.m.owner.None? && s.m.waiters == [] && s.m.count == 0 && !s.m.recursive && u.m == s.m.(owner := Some(t))
    ensures u.(pcs := Released(u.pcs, u.m, t, p), m := Unlocked(u.m)) == u.(pcs := u.pcs[t := p], m := s.m)
  {
  }

  /** The first reader gets in at once if the unit is there. */
  lemma {:induction false} FirstReaderGetsIn(s: Rp, t: Task)
    requires s in Safe() && t in s.pcs && s.pcs[t] == Acquire(Enter) && s.m.owner.None?
    requires s.count == 0 && s.sem.counter == 1
    ensures Alone(s, t, 4) == Moved(s, t, Out(Reading)).(count := 1, sem := s.sem.(counter := 0))
  {
    GoesIn(s, t, Enter);
    AloneNext(s, t, 1, Inside(s, t, Enter));
    var u := Inside(s, t, NeedSem).(count := 1);
    assert Inside(s, t, Enter).pcs[t := Run(NeedSem)] == u.pcs;
    AloneNext(s, t, 2, u);
    var v := Inside(s, t, Through).(count := 1, sem := s.sem.(counter := 0));
    assert u.pcs[t := Run(Through)] == v.pcs;
    AloneNext(s, t, 3, v);
    GoesOut(s, v, t, Out(Reading));
    assert v.pcs[t := Out(Reading)] == s.pcs[t := Out(Reading)];
  }

  /** Readers come first: while somebody reads another reader gets in at once, however many writers wait. */
  lemma {:induction false} ReaderGetsIn(s: Rp, t: Task)
    requires s in Safe() && t in s.pcs && s.pcs[t] == Acquire(Enter) && s.m.owner.None? && s.count > 0
    ensures Alone(s, t, 3) == Moved(s, t, Out(Reading)).(count := s.count + 1)
  {
    GoesIn(s, t, Enter);
    AloneNext(s, t, 1, Inside(s, t, Enter));
    var u := Inside(s, t, Through).(count := s.count + 1);
    assert Inside(s, t, Enter).pcs[t := Run(Through)] == u.pcs;
    AloneNext(s, t, 2, u);
    GoesOut(s, u, t, Out(Reading));
    assert u.pcs[t := Out(Reading)] == s.pcs[t := Out(Reading)];
  }

  /** A reader that is not the last one leaves at once and keeps the unit for the others. */
  lemma {:induction false} ReaderGetsOut(s: Rp, t: Task)
    requires s in Safe() && t in s.pcs && s.pcs[t] == Acquire(Exit) && s.m.owner.None? && s.count != 1
    ensures Alone(s, t, 3) == Moved(s, t, Out(Idle)).(count := s.count - 1)
  {
    GoesIn(s, t, Exit);
    AloneNext(s, t, 1, Inside(s, t, Exit));
    var u := Inside(s, t, Gone).(count := s.count - 1);
    assert Inside(s, t, Exit).pcs[t := Run(Gone)] == u.pcs;
    AloneNext(s, t, 2, u);
    GoesOut(s, u, t, Out(Idle));
    assert u.pcs[t := Out(Idle)] == s.pcs[t := Out(Idle)];
  }

  /** The unit is back in the semaphore, and the first sleeper is about to try for it. */
  ghost predicate GivenBack(s: Rp, u: Rp)
  {
    && s.sem.counter == 0 && u.sem.counter == 1
    && (s.sem.waiters != [] ==>
          var h := s.sem.waiters[0].task;
          h in s.pcs && h in u.pcs && u.pcs[h] == (if s.pcs[h].Run? then Run(NeedSem) else Out(WantSem))
          && u.sem.waiters == s.sem.waiters[1..])
  }

  /** The last reader, and a writer, put the unit back. */
  lemma {:induction false} GivesUnitBack(s: Rp, t: Task)
    requires s in Safe() && t in s.pcs && (s.pcs[t] == Run(GiveSem) || s.pcs[t] == Out(Writing))
    ensures GivenBack(s, Step(s, t, false))
  {
    assert !OverQuota(s) by { NeverOverQuota(s, t); }
    Parts(s);
    var p: Pc<Point> := if s.pcs[t].Run? then Run(Gone) else Out(Idle);
    SleepersStay(s.pcs, t, p, s.sem.waiters);
    SignalIs(Moved(s, t, p));
    if s.sem.waiters != [] { assert Sleeping(s.pcs[s.sem.waiters[0].task]); }
  }

  lemma {:induction false} LastReaderGives(s: Rp, t: Task)
    requires s in Safe() && t in s.pcs && s.pcs[t] == Run(Exit)
    ensures t in Step(s, t, false).pcs
    ensures Step(s, t, false).pcs[t] == Run(if s.count == 1 then GiveSem else Gone)
  {
  }

  /** A task that is about to try for the unit gets it at once if it is there, and sleeps otherwise. */
  lemma {:induction false} TriesForUnit(s: Rp, t: Task)
    requires s in Safe() && t in s.pcs && (s.pcs[t] == Run(NeedSem) || s.pcs[t] == Out(WantSem))
    ensures t in Step(s, t, false).pcs
    ensures var p, q := s.pcs[t], Step(s, t, false).pcs[t];
      if s.sem.counter >= 1 then q == (if p.Run? then Run(Through) else Out(Writing))
      else q == (if p.Run? then Run(SleepR) else Out(SleepW))
    ensures Step(s, t, false).sem == if s.sem.counter >= 1 then s.sem.(counter := 0)
                                     else s.sem.(waiters := s.sem.waiters + [Waiter(t, 1)])
  {
    Parts(s);
  }
}
