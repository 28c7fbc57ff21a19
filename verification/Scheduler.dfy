/** The scheduler: the list of runnable tasks, the accounting of ticks and the choice of the next task. */
module Scheduler {
  import opened Basics
  import opened Options
  import opened Fairness

  datatype State = Runnable | Running | Sleeping | Zombie

  datatype Info = Info(worker: bool, state: State, stopped: bool, timerReady: bool, vruntime: nat, timeslice: nat,
                       total: nat)

  /** s without t. */
  function Without(s: seq<Tid>, t: Tid): seq<Tid>
  {
    if s == [] then [] else (if s[0] == t then [] else [s[0]]) + Without(s[1..], t)
  }

  lemma {:induction false} WithoutIs(s: seq<Tid>, t: Tid)
    ensures forall x :: x in Without(s, t) <==> x in s && x != t
    ensures NoDuplicates(s) ==> NoDuplicates(Without(s, t)) && |Without(s, t)| == |s| - if t in s then 1 else 0
  {
    if s != [] {
      var r := s[1..];
      WithoutIs(r, t);
      assert s == [s[0]] + r;
      if NoDuplicates(s) {
        assert s[0] !in r;
        assert NoDuplicates(r);
      }
    }
  }

  /** In a list without duplicates it takes out one position. */
  lemma {:induction false} WithoutAt(s: seq<Tid>, i: nat)
    requires NoDuplicates(s) && i < |s|
    ensures Without(s, s[i]) == s[..i] + s[i + 1..]
  {
    var r := s[1..];
    assert s == [s[0]] + r && NoDuplicates(r);
    if i == 0 {
      WithoutNone(r, s[0]);
    } else {
      assert r[i - 1] == s[i];
      WithoutAt(r, i - 1);
      assert s[..i] + s[i + 1..] == [s[0]] + (r[..i - 1] + r[i..]);
    }
  }

  lemma {:induction false} WithoutNone(s: seq<Tid>, t: Tid)
    requires t !in s
    ensures Without(s, t) == s
  {
    if s != [] {
      assert s[0] in s;
      WithoutNone(s[1..], t);
    }
  }

  /** The list holds exactly the runnable tasks that are not workers. */
  ghost predicate ListOk(tasks: map<Tid, Info>, list: seq<Tid>)
  {
    && NoDuplicates(list)
    && (forall t :: t in list ==> t in tasks)
    && (forall t :: t in tasks ==> (t in list <==> tasks[t].state.Runnable? && !tasks[t].worker))
  }

  /** The list after task t has got the state s. */
  function Relisted(list: seq<Tid>, t: Tid, i: Info, s: State): seq<Tid>
  {
    if i.worker then list
    else (if i.state.Runnable? then Without(list, t) else list) + if s.Runnable? then [t] else []
  }

  lemma {:induction false} RelistedOk(tasks: map<Tid, Info>, list: seq<Tid>, t: Tid, s: State)
    requires ListOk(tasks, list) && t in tasks && tasks[t].state != s
    ensures ListOk(tasks[t := tasks[t].(state := s)], Relisted(list, t, tasks[t], s))
    ensures |Relisted(list, t, tasks[t], s)| == |list| - (if !tasks[t].worker && tasks[t].state.Runnable? then 1 else 0)
      + (if !tasks[t].worker && s.Runnable? then 1 else 0)
  {
    WithoutIs(list, t);
  }

  /** A change that does not concern the list. */
  lemma {:induction false} ListKept(tasks: map<Tid, Info>, list: seq<Tid>, t: Tid, i: Info)
    requires ListOk(tasks, list) && t in tasks && i.worker == tasks[t].worker && i.state == tasks[t].state
    ensures ListOk(tasks[t := i], list)
  {
  }

  // ---------------------------------------------------------------- the choice

  ghost predicate Eligible(tasks: map<Tid, Info>, idle: Tid, t: Tid)
  {
    t in tasks && !tasks[t].stopped && t != idle
  }

  /** Position i is the best of the first n of the list: the first eligible task whose timer is ready, or else the
      first with the least run time. */
  ghost predicate Best(tasks: map<Tid, Info>, list: seq<Tid>, idle: Tid, i: nat, n: nat)
  {
    && i < n <= |list| && Eligible(tasks, idle, list[i])
    && if tasks[list[i]].timerReady
       then forall j :: 0 <= j < i && Eligible(tasks, idle, list[j]) ==> !tasks[list[j]].timerReady
       else
         && (forall j :: 0 <= j < n && Eligible(tasks, idle, list[j]) ==>
               !tasks[list[j]].timerReady && tasks[list[i]].vruntime <= tasks[list[j]].vruntime)
         && (forall j :: 0 <= j < i && Eligible(tasks, idle, list[j]) ==>
               tasks[list[i]].vruntime < tasks[list[j]].vruntime)
  }

  /** The best task of the list, if any is eligible. */
  ghost predicate Chosen(tasks: map<Tid, Info>, list: seq<Tid>, idle: Tid, sel: Option<Tid>)
  {
    match sel
    case None => forall j :: 0 <= j < |list| ==> !Eligible(tasks, idle, list[j])
    case Some(x) => exists i :: 0 <= i < |list| && list[i] == x && Best(tasks, list, idle, i, |list|)
  }

  class Sched {
    const idle: Tid
    /** TIME_SLICE_TICKS. */
    const timeSlice: nat
    var tasks: map<Tid, Info>
    var runnable: seq<Tid>
    var count: int
    var curr: Tid
    var needResched: bool

    /** The list and its length are right. */
    ghost predicate ListValid()
      reads this
    {
      ListOk(tasks, runnable) && count == |runnable| && curr in tasks && idle in tasks && !tasks[idle].worker
    }

    /** Besides, the idle task never sleeps. */
    ghost predicate Valid()
      reads this
    {
      ListValid() && tasks[idle].state == if curr == idle then Running else Runnable
    }

    /** The scheduler starts with its idle task running. */
    constructor (idle: Tid, timeSlice: nat)
      ensures Valid() && this.idle == idle && this.timeSlice == timeSlice && curr == idle && runnable == []
    {
      this.idle, this.timeSlice := idle, timeSlice;
      tasks := map[idle := Info(false, Running, false, false, 0, 0, 0)];
      runnable, count, curr, needResched := [], 0, idle, false;
    }

    /** task_change_state. */
    method ChangeState(t: Tid, s: State)
      requires ListValid() && t in tasks && tasks[t].state != s && !tasks[t].state.Zombie?
      modifies this`tasks, this`runnable, this`count
      ensures ListValid() && tasks == old(tasks)[t := old(tasks)[t].(state := s)]
      ensures runnable == Relisted(old(runnable), t, old(tasks)[t], s)
    {
      RelistedOk(tasks, runnable, t, s);
      if !tasks[t].worker && tasks[t].state.Runnable? {
        runnable := Without(runnable, t);
        count := count - 1;
      }
      tasks := tasks[t := tasks[t].(state := s)];
      if !tasks[t].worker && tasks[t].state.Runnable? {
        runnable := runnable + [t];
        count := count + 1;
      }
      assert runnable == Relisted(old(runnable), t, old(tasks)[t], s);
    }

    /** add_task. */
    method AddTask(t: Tid, i: Info)
      requires Valid() && t !in tasks && (i.state.Runnable? || i.state.Sleeping?)
      modifies this`tasks, this`runnable, this`count
      ensures Valid() && tasks == old(tasks)[t := i]
      ensures runnable == old(runnable) + if i.state.Runnable? && !i.worker then [t] else []
    {
      tasks := tasks[t := i];
      if !i.worker && i.state.Runnable? {
        runnable := runnable + [t];
        count := count + 1;
      }
    }

    /** remove_task. */
    method RemoveTask(t: Tid)
      requires Valid() && t in tasks && tasks[t].state.Zombie? && t != curr && t != idle
      modifies this`tasks
      ensures Valid() && tasks == old(tasks) - {t}
    {
      tasks := tasks - {t};
    }

    /** sched_account_ticks, for one tick. */
    method AccountTicks()
      requires Valid()
      modifies this`tasks, this`needResched
      ensures Valid() && var i := old(tasks)[curr];
        tasks == old(tasks)[curr := i.(timeslice := i.timeslice + 1, total := i.total + 1,
                                       vruntime := i.vruntime + if curr != idle then |runnable| - 1 else 0)]
      ensures needResched == (old(needResched) || tasks[curr].stopped || !tasks[curr].state.Running?
                              || (!tasks[curr].worker && tasks[curr].timeslice >= timeSlice))
    {
      var i := tasks[curr];
      assert curr != idle ==> idle in runnable && |runnable| >= 1;
      var v := i.vruntime;
      if curr != idle {
        v := v + (count - 1);
      }
      ListKept(tasks, runnable, curr, i.(timeslice := i.timeslice + 1, total := i.total + 1, vruntime := v));
      tasks := tasks[curr := i.(timeslice := i.timeslice + 1, total := i.total + 1, vruntime := v)];
      if i.stopped || !i.state.Running? || (!i.worker && i.timeslice + 1 >= timeSlice) {
        needResched := true;
      }
    }

    /** The scan of the list. */
    method Scan() returns (sel: Option<Tid>)
      requires Valid()
      ensures Chosen(tasks, runnable, idle, sel)
    {
      sel := None;
      var i := 0;
      ghost var best := 0;
      while i < |runnable|
        invariant i <= |runnable| && (sel.None? ==> forall j :: 0 <= j < i ==> !Eligible(tasks, idle, runnable[j]))
        invariant sel.Some? ==>
          && best < i && runnable[best] == sel.value
          && Best(tasks, runnable, idle, best, i) && !tasks[sel.value].timerReady
      {
        var t := runnable[i];
        assert t in runnable;
        if tasks[t].stopped || t == idle {
          i := i + 1;
          continue;
        }
        if tasks[t].timerReady {
          sel := Some(t);
          assert Best(tasks, runnable, idle, i, |runnable|);
          return;
        }
        if sel.None? || tasks[t].vruntime < tasks[sel.value].vruntime {
          sel := Some(t);
          best := i;
        }
        i := i + 1;
      }
    }

    /** The current task could go on. */
    predicate CanGoOn()
      reads this
      requires curr in tasks
    {
      tasks[curr].state.Running? && !tasks[curr].stopped
    }

    /** sched_do_select_runnable_task; `first` is the best task of the list. */
    method SelectRunnable(resched: bool) returns (sel: Option<Tid>, ghost first: Option<Tid>)
      requires Valid()
      ensures Chosen(tasks, runnable, idle, first)
      ensures resched || curr == idle || !CanGoOn() ==>
        sel == if first.None? && CanGoOn() then Some(curr) else first
      ensures !resched && curr != idle && CanGoOn() ==>
        sel == if first.None? || tasks[curr].vruntime < tasks[first.value].vruntime then Some(curr) else first
      ensures sel.Some? ==> sel.value in tasks && !tasks[sel.value].stopped
    {
      sel := Scan();
      first := sel;
      if sel.None? {
        if CanGoOn() {
          sel := Some(curr);
        }
      }
      if !resched && sel.Some? && curr != idle {
        if CanGoOn() {
          if tasks[curr].vruntime < tasks[sel.value].vruntime {
            sel := Some(curr);
          }
        }
      }
    }

    /** switch_to_task, as far as the scheduler sees it. */
    method SwitchTo(t: Tid)
      requires ListValid() && t in tasks && tasks[t].state.Runnable?
      modifies this`tasks, this`runnable, this`count, this`curr
      ensures ListValid() && curr == t
      ensures tasks == old(tasks)[t := old(tasks)[t].(state := Running, timeslice := 0)]
      ensures runnable == Relisted(old(runnable), t, old(tasks)[t], Running)
    {
      curr := t;
      ChangeState(t, Running);
      ListKept(tasks, runnable, t, tasks[t].(timeslice := 0));
      tasks := tasks[t := tasks[t].(timeslice := 0)];
    }

    /** do_schedule after the corner cases: run the selected task.  A current task that has been woken up before it gets
        here may be selected again, and then it stays runnable while it runs. */
    method Run(sel: Tid)
      requires Valid() && sel in tasks && (tasks[sel].state.Runnable? || (sel == curr && tasks[curr].state.Running?))
      modifies this`tasks, this`runnable, this`count, this`curr
      ensures Valid() && curr == sel && tasks[curr].timeslice == 0
      ensures sel == old(curr) ==>
        runnable == old(runnable) && tasks == old(tasks)[sel := old(tasks)[sel].(timeslice := 0)]
      ensures sel != old(curr) ==> Preempted(old(tasks), old(runnable), old(curr), sel, tasks, runnable)
    {
      if sel != curr {
        ghost var was := curr;
        if tasks[curr].state.Running? {
          ChangeState(curr, Runnable);
        }
        SwitchTo(sel);
      } else {
        ListKept(tasks, runnable, sel, tasks[sel].(timeslice := 0));
        tasks := tasks[sel := tasks[sel].(timeslice := 0)];
      }
    }

    /** Not the case of a timer that has fired before the task went to sleep. */
    ghost predicate Goes()
      reads this
      requires curr in tasks
    {
      tasks[curr].state.Zombie? || !tasks[curr].timerReady
    }

    /** sched_should_return_immediately. */
    method ReturnImmediately() returns (stay: bool)
      requires Valid()
      modifies this`tasks, this`runnable, this`count
      ensures Valid() && (stay <==> !old(Goes()))
      ensures if stay then
          && tasks == old(tasks)[curr := old(tasks)[curr].(state := Running, timerReady := false)]
          && runnable == if old(tasks[curr].state.Running?) then old(runnable)
                         else Relisted(old(runnable), curr, old(tasks)[curr], Running)
        else tasks == old(tasks) && runnable == old(runnable)
    {
      stay := !tasks[curr].state.Zombie? && tasks[curr].timerReady;
      if stay {
        if !tasks[curr].state.Running? {
          ChangeState(curr, Running);
        }
        ListKept(tasks, runnable, curr, tasks[curr].(timerReady := false));
        tasks := tasks[curr := tasks[curr].(timerReady := false)];
      }
    }

    /** do_schedule; `worker` is the worker thread that is ready to run, if any. */
    method Schedule(worker: Option<Tid>) returns (ghost first: Option<Tid>)
      requires Valid()
      requires worker.Some? ==> worker.value in tasks && tasks[worker.value].state.Runnable?
      modifies this
      ensures Valid() && !needResched
      ensures !old(Goes()) ==>
        && curr == old(curr) && tasks == old(tasks)[curr := old(tasks)[curr].(state := Running, timerReady := false)]
        && runnable == if old(tasks[curr].state.Running?) then old(runnable)
                       else Relisted(old(runnable), curr, old(tasks)[curr], Running)
      ensures old(Goes()) && worker.Some? ==> curr == worker.value
      ensures old(Goes()) && worker.None? ==>
        && Chosen(old(tasks), old(runnable), idle, first)
        && curr == Picked(old(tasks), old(curr), idle, old(needResched), first)
      ensures old(Goes()) ==>
        if curr != old(curr) then Preempted(old(tasks), old(runnable), old(curr), curr, tasks, runnable)
        else runnable == old(runnable) && tasks == old(tasks)[curr := old(tasks)[curr].(timeslice := 0)]
      ensures old(Goes()) && curr == old(curr) ==> old(tasks)[curr].state.Running? || old(tasks)[curr].state.Runnable?
    {
      var resched := needResched;
      needResched := false;
      first := None;
      var stay := ReturnImmediately();
      if stay {
        return;
      }
      if worker.Some? {
        Run(worker.value);
        return;
      }
      var sel;
      sel, first := SelectRunnable(resched);
      if first.Some? { assert first.value in runnable; }
      Run(if sel.Some? then sel.value else idle);
    }

    // -------------------------------------------------------------- full slices

    ghost predicate CpuBound()
      reads this
    {
      Valid() && timeSlice > 0 && !needResched && AllCompute(tasks, runnable, curr, idle)
    }

    ghost function View(): Cpu
      reads this
    {
      Cpu(RunTimes(tasks), runnable, curr, idle)
    }

    /** The ticks of one slice. */
    method Ticks()
      requires CpuBound()
      modifies this`tasks, this`needResched
      ensures Valid() && needResched && var i := old(tasks)[curr];
        tasks == old(tasks)[curr := i.(timeslice := timeSlice, total := i.total + timeSlice,
                                       vruntime := i.vruntime + timeSlice * (|runnable| - 1))]
    {
      ghost var i := tasks[curr];
      var k := 0;
      while k < timeSlice
        invariant k <= timeSlice && Valid() && (needResched <==> k == timeSlice)
        invariant tasks == old(tasks)[curr := i.(timeslice := k, total := i.total + k,
                                                 vruntime := i.vruntime + k * (|runnable| - 1))]
      {
        AccountTicks();
        k := k + 1;
        Distribute(k, |runnable| - 1);
      }
    }

    /** A full slice with the switch at its end is a slice as the bounds on run times speak of it. */
    method RunSlice()
      requires CpuBound()
      modifies this
      ensures CpuBound() && Slice(timeSlice, old(View()), View())
    {
      ghost var t0, list, c := tasks, runnable, curr;
      Ticks();
      ghost var t1 := tasks;
      assert t1[c].vruntime == t0[c].vruntime + timeSlice * (|list| - 1);
      assert Ticked(t0, t1, c);
      SliceHasNext(t0, t1, list, c, idle);
      ghost var first := Schedule(None);
      SliceDone(t0, t1, list, c, idle, timeSlice, curr, tasks, runnable);
    }

    /** Any number of full slices, from tasks with equal run times, are a run as the bounds speak of it. */
    method RunSlices(n: nat) returns (ghost run: seq<Cpu>)
      requires CpuBound() && forall t :: t in tasks && !tasks[t].worker && t != idle ==>
        tasks[t].vruntime == tasks[curr].vruntime
      modifies this
      ensures CpuBound() && |run| == n + 1 && run[n] == View() && Ran(timeSlice, run)
    {
      run := [View()];
      StartsLevel(timeSlice, tasks, runnable, curr, idle);
      var k := 0;
      while k < n
        invariant k <= n && CpuBound() && |run| == k + 1 && run[k] == View() && Ran(timeSlice, run)
      {
        RunSlice();
        run := RanOn(timeSlice, run, View());
        k := k + 1;
      }
    }
  }

  /** Whether a task could go on. */
  ghost predicate GoesOn(tasks: map<Tid, Info>, t: Tid)
  {
    t in tasks && tasks[t].state.Running? && !tasks[t].stopped
  }

  /** The task to run, when the best of the list is known. */
  ghost function Picked(tasks: map<Tid, Info>, curr: Tid, idle: Tid, resched: bool, first: Option<Tid>): Tid
  {
    if first.None? then if GoesOn(tasks, curr) then curr else idle
    else if !resched && curr != idle && GoesOn(tasks, curr) && first.value in tasks
            && tasks[curr].vruntime < tasks[first.value].vruntime then curr
    else first.value
  }

  /** With nobody to run and the current task unable to go on, the idle task runs. */
  lemma {:induction false} IdleLast(tasks: map<Tid, Info>, list: seq<Tid>, curr: Tid, idle: Tid, resched: bool,
                                    first: Option<Tid>)
    requires Chosen(tasks, list, idle, first) && !GoesOn(tasks, curr)
    ensures Picked(tasks, curr, idle, resched, first) == idle <==> forall t :: t in list ==> !Eligible(tasks, idle, t)
  {
    if first.Some? {
      var i :| 0 <= i < |list| && list[i] == first.value && Best(tasks, list, idle, i, |list|);
      assert list[i] in list;
    }
  }

  /** Unless a reschedule is asked for, and with no timer ready, a task that can go on stays exactly if every other one
      that could run has run longer. */
  lemma {:induction false} StaysUnlessBehind(tasks: map<Tid, Info>, list: seq<Tid>, curr: Tid, idle: Tid,
                                             first: Option<Tid>)
    requires Chosen(tasks, list, idle, first) && GoesOn(tasks, curr) && curr != idle && curr !in list
    requires forall t :: t in list && Eligible(tasks, idle, t) ==> !tasks[t].timerReady
    ensures Picked(tasks, curr, idle, false, first) == curr
      <==> forall t :: t in list && Eligible(tasks, idle, t) ==> tasks[curr].vruntime < tasks[t].vruntime
  {
    if first.Some? {
      var i :| 0 <= i < |list| && list[i] == first.value && Best(tasks, list, idle, i, |list|);
      assert list[i] in list;
    }
  }

  /** With a reschedule it stays only if nobody else can run. */
  lemma {:induction false} YieldsToOthers(tasks: map<Tid, Info>, list: seq<Tid>, curr: Tid, idle: Tid,
                                          first: Option<Tid>)
    requires Chosen(tasks, list, idle, first) && GoesOn(tasks, curr) && curr !in list
    ensures Picked(tasks, curr, idle, true, first) == curr <==> forall t :: t in list ==> !Eligible(tasks, idle, t)
  {
    if first.Some? {
      var i :| 0 <= i < |list| && list[i] == first.value && Best(tasks, list, idle, i, |list|);
      assert list[i] in list;
    }
  }

  /** A task whose timer is ready is preferred to all whose timer is not. */
  lemma {:induction false} TimerFirst(tasks: map<Tid, Info>, list: seq<Tid>, idle: Tid, first: Option<Tid>, t: Tid)
    requires Chosen(tasks, list, idle, first) && t in list && Eligible(tasks, idle, t) && tasks[t].timerReady
    ensures first.Some? && first.value in tasks && tasks[first.value].timerReady
  {
    var j :| 0 <= j < |list| && list[j] == t;
    assert Eligible(tasks, idle, list[j]);
  }

  /** The switch from one task to another: one that was running goes to the end of the list. */
  ghost predicate Preempted(tasks: map<Tid, Info>, list: seq<Tid>, from: Tid, to: Tid, tasks': map<Tid, Info>,
                            list': seq<Tid>)
  {
    && from in tasks && to in tasks && from != to
    && var was := if tasks[from].state.Running? then tasks[from].(state := Runnable) else tasks[from];
       var mid := if tasks[from].state.Running? then Relisted(list, from, tasks[from], Runnable) else list;
       && tasks' == tasks[from := was][to := tasks[to].(state := Running, timeslice := 0)]
       && list' == Relisted(mid, to, tasks[to], Running)
  }

  // ---------------------------------------------------------------- full slices

  /** Only tasks that compute: nobody sleeps but workers, nobody is stopped, and the current task starts a slice. */
  ghost predicate AllCompute(tasks: map<Tid, Info>, list: seq<Tid>, curr: Tid, idle: Tid)
  {
    && ListOk(tasks, list) && |list| >= 2 && curr in tasks && idle in tasks && curr != idle
    && !tasks[curr].worker && !tasks[idle].worker && tasks[curr].timeslice == 0
    && (forall t :: t in tasks ==> !tasks[t].stopped && !tasks[t].timerReady)
    && (forall t :: t in tasks && !tasks[t].worker ==> tasks[t].state == if t == curr then Running else Runnable)
    && (forall t :: t in tasks && tasks[t].worker ==> tasks[t].state.Sleeping?)
  }

  ghost function RunTimes(tasks: map<Tid, Info>): map<Tid, nat>
  {
    map t | t in tasks && !tasks[t].worker :: tasks[t].vruntime
  }

  /** The tasks at the end of the ticks of a slice. */
  ghost predicate Ticked(t0: map<Tid, Info>, t1: map<Tid, Info>, curr: Tid)
  {
    && curr in t0 && curr in t1 && t1 == t0[curr := t1[curr]]
    && t1[curr] == t0[curr].(timeslice := t1[curr].timeslice, total := t1[curr].total, vruntime := t1[curr].vruntime)
  }

  /** Some task of the list can run next. */
  lemma {:induction false} SliceHasNext(t0: map<Tid, Info>, t1: map<Tid, Info>, list: seq<Tid>, curr: Tid, idle: Tid)
    requires AllCompute(t0, list, curr, idle) && Ticked(t0, t1, curr)
    ensures !Chosen(t1, list, idle, None) && curr !in list
  {
    var j := if list[0] == idle then 1 else 0;
    assert list[j] in list;
    assert Eligible(t1, idle, list[j]);
  }

  lemma {:induction false} SliceDone(t0: map<Tid, Info>, t1: map<Tid, Info>, list: seq<Tid>, curr: Tid, idle: Tid,
                                     ticks: nat,
                                     next: Tid, t2: map<Tid, Info>, list': seq<Tid>)
    requires AllCompute(t0, list, curr, idle) && Ticked(t0, t1, curr)
    requires t1[curr].vruntime == t0[curr].vruntime + ticks * (|list| - 1)
    requires Chosen(t1, list, idle, Some(next)) && Preempted(t1, list, curr, next, t2, list')
    ensures AllCompute(t2, list', next, idle)
    ensures Slice(ticks, Cpu(RunTimes(t0), list, curr, idle), Cpu(RunTimes(t2), list', next, idle))
  {
    var i :| 0 <= i < |list| && list[i] == next && Best(t1, list, idle, i, |list|);
    CurrNotListed(t0, list, curr, idle);
    NextList(list, curr, i);
    ListAfter(t0, t1, list, curr, idle, next, t2, list', i);
    ComputeOn(t0, t1, list, curr, idle, next, t2, list');
    RunTimesAfter(t0, t1, list, curr, next, t2, list');
    LeastIsBest(t0, t1, list, curr, idle, i);
    IsSlice(ticks, RunTimes(t0), list, curr, idle, RunTimes(t1), i, t1[curr].vruntime);
  }

  lemma {:induction false} IsSlice(ticks: nat, v: map<Tid, nat>, list: seq<Tid>, curr: Tid, idle: Tid, v': map<Tid,
                                   nat>,
                                   i: nat, x: nat)
    requires curr in v && i < |list| && x == v[curr] + ticks * (|list| - 1)
    requires v' == v[curr := x] && FirstLeast(v', list, idle, i)
    ensures Slice(ticks, Cpu(v, list, curr, idle), Cpu(v', list[..i] + list[i + 1..] + [curr], list[i], idle))
  {
    var c := Cpu(v, list, curr, idle);
    assert AtEnd(ticks, c).v == v';
    assert Cpu(v', list[..i] + list[i + 1..] + [curr], list[i], idle) == Switched(AtEnd(ticks, c), i);
  }

  lemma {:induction false} CurrNotListed(t0: map<Tid, Info>, list: seq<Tid>, curr: Tid, idle: Tid)
    requires AllCompute(t0, list, curr, idle)
    ensures curr !in list
  {
  }

  /** Only the run time of the current task changes. */
  lemma {:induction false} RunTimesAfter(t0: map<Tid, Info>, t1: map<Tid, Info>, list: seq<Tid>, curr: Tid, next: Tid,
                                         t2: map<Tid, Info>, list': seq<Tid>)
    requires Ticked(t0, t1, curr) && !t0[curr].worker && Preempted(t1, list, curr, next, t2, list')
    ensures RunTimes(t2) == RunTimes(t1) == RunTimes(t0)[curr := t1[curr].vruntime]
    ensures curr in RunTimes(t0) && RunTimes(t0)[curr] == t0[curr].vruntime
  {
  }

  lemma {:induction false} NextList(list: seq<Tid>, curr: Tid, i: nat)
    requires NoDuplicates(list) && curr !in list && i < |list|
    ensures Without(list + [curr], list[i]) == list[..i] + list[i + 1..] + [curr]
  {
    var l := list + [curr];
    assert NoDuplicates(l) && l[i] == list[i];
    WithoutAt(l, i);
    assert l[..i] + l[i + 1..] == list[..i] + list[i + 1..] + [curr];
  }

  lemma {:induction false} LeastIsBest(t0: map<Tid, Info>, t1: map<Tid, Info>, list: seq<Tid>, curr: Tid, idle: Tid,
                                       i: nat)
    requires AllCompute(t0, list, curr, idle) && Ticked(t0, t1, curr) && curr !in list
    requires Best(t1, list, idle, i, |list|)
    ensures FirstLeast(RunTimes(t1), list, idle, i)
  {
    var v := RunTimes(t1);
    forall j | 0 <= j < |list| && list[j] != idle
      ensures Eligible(t1, idle, list[j]) && v[list[j]] == t1[list[j]].vruntime
    {
      assert list[j] in list;
    }
  }

  lemma {:induction false} ListAfter(t0: map<Tid, Info>, t1: map<Tid, Info>, list: seq<Tid>, curr: Tid, idle: Tid,
                                     next: Tid,
                                     t2: map<Tid, Info>, list': seq<Tid>, i: nat)
    requires AllCompute(t0, list, curr, idle) && Ticked(t0, t1, curr) && curr !in list
    requires i < |list| && list[i] == next && Preempted(t1, list, curr, next, t2, list')
    requires Without(list + [curr], list[i]) == list[..i] + list[i + 1..] + [curr]
    ensures ListOk(t2, list') && list' == list[..i] + list[i + 1..] + [curr]
  {
    var t3 := t1[curr := t1[curr].(state := Runnable)];
    assert next in list;
    ListKept(t0, list, curr, t1[curr]);
    RelistedOk(t1, list, curr, Runnable);
    RelistedOk(t3, list + [curr], next, Running);
    ListKept(t3[next := t3[next].(state := Running)], list', next, t2[next]);
  }

  lemma {:induction false} ComputeAt(t0: map<Tid, Info>, t1: map<Tid, Info>, list: seq<Tid>, curr: Tid, idle: Tid,
                                     next: Tid, t2: map<Tid, Info>, list': seq<Tid>, x: Tid)
    requires AllCompute(t0, list, curr, idle) && Ticked(t0, t1, curr) && next in list
    requires Preempted(t1, list, curr, next, t2, list') && x in t2
    ensures x in t0 && t2[x].worker == t0[x].worker && !t2[x].stopped && !t2[x].timerReady
    ensures if t2[x].worker then t2[x].state.Sleeping? else t2[x].state == if x == next then Running else Runnable
  {
    assert t1[x].worker == t0[x].worker && (x != curr ==> t1[x] == t0[x]);
  }

  lemma {:induction false} ComputeOn(t0: map<Tid, Info>, t1: map<Tid, Info>, list: seq<Tid>, curr: Tid, idle: Tid,
                                     next: Tid, t2: map<Tid, Info>, list': seq<Tid>)
    requires AllCompute(t0, list, curr, idle) && Ticked(t0, t1, curr) && next in list && next != idle
    requires Preempted(t1, list, curr, next, t2, list') && ListOk(t2, list') && |list'| == |list|
    ensures AllCompute(t2, list', next, idle)
  {
    forall x | x in t2
      ensures !t2[x].stopped && !t2[x].timerReady && t2[x].worker == t0[x].worker
      ensures if t2[x].worker then t2[x].state.Sleeping? else t2[x].state == if x == next then Running else Runnable
    {
      ComputeAt(t0, t1, list, curr, idle, next, t2, list', x);
    }
    assert next in t0 && next in t2 && idle in t2;
  }

  lemma {:induction false} Distribute(k: nat, d: int)
    requires k > 0
    ensures k * d == (k - 1) * d + d
  {
  }

  lemma {:induction false} StartsLevel(ticks: nat, tasks: map<Tid, Info>, list: seq<Tid>, curr: Tid, idle: Tid)
    requires AllCompute(tasks, list, curr, idle)
    requires forall t :: t in tasks && !tasks[t].worker && t != idle ==> tasks[t].vruntime == tasks[curr].vruntime
    ensures Ran(ticks, [Cpu(RunTimes(tasks), list, curr, idle)])
  {
    var c := Cpu(RunTimes(tasks), list, curr, idle);
    assert Sound(c);
  }

  lemma {:induction false} RanOn(ticks: nat, run: seq<Cpu>, c: Cpu) returns (u: seq<Cpu>)
    requires Ran(ticks, run) && Slice(ticks, run[|run| - 1], c)
    ensures Ran(ticks, u) && |u| == |run| + 1 && u[|run|] == c
  {
    u := run + [c];
    forall i | 0 <= i < |u| - 1 ensures SliceAt(ticks, u, i) {
      assert i < |run| - 1 ==> SliceAt(ticks, run, i);
    }
  }
}
