/** The kernel semaphore: a counter with an optional maximum and a list of sleeping tasks. */
module Semaphores {
  import opened Options
  import opened Mutexes

  const EINVAL := 22
  const ETIME := 62
  const EDQUOT := 122

  /** A sleeping task and the units it waits for. */
  datatype Waiter = Waiter(task: Task, units: nat)

  datatype Sem = Sem(max: Option<nat>, counter: nat, waiters: seq<Waiter>)

  /** What comes of a wait: an error, the units, or sleep. */
  datatype Outcome = Failed(code: int) | Got | Asleep

  /** The waiters that a signal wakes up with n units to give, in order, and those it leaves. */
  function Woken(ws: seq<Waiter>, n: nat): seq<Waiter>
  {
    if ws == [] || n == 0 then []
    else if ws[0].units <= n then [ws[0]] + Woken(ws[1..], n - ws[0].units)
    else Woken(ws[1..], n)
  }

  function Left(ws: seq<Waiter>, n: nat): seq<Waiter>
  {
    if ws == [] || n == 0 then ws
    else if ws[0].units <= n then Left(ws[1..], n - ws[0].units)
    else [ws[0]] + Left(ws[1..], n)
  }

  function Units(ws: seq<Waiter>): nat
  {
    if ws == [] then 0 else ws[0].units + Units(ws[1..])
  }

  /** Those woken up can all be served at once. */
  lemma {:induction false} WokenServed(ws: seq<Waiter>, n: nat)
    ensures Units(Woken(ws, n)) <= n
  {
    if ws != [] && n > 0 {
      if ws[0].units <= n {
        WokenServed(ws[1..], n - ws[0].units);
        assert Woken(ws, n)[1..] == Woken(ws[1..], n - ws[0].units);
      } else {
        WokenServed(ws[1..], n);
      }
    }
  }

  /** Everybody is either woken up or left. */
  lemma {:induction false} WokenOrLeft(ws: seq<Waiter>, n: nat, x: Waiter)
    ensures multiset(Woken(ws, n))[x] + multiset(Left(ws, n))[x] == multiset(ws)[x]
  {
    if ws != [] && n > 0 {
      var rest := ws[1..];
      Split(ws[0], rest, x);
      assert ws == [ws[0]] + rest;
      if ws[0].units <= n {
        WokenOrLeft(rest, n - ws[0].units, x);
        Split(ws[0], Woken(rest, n - ws[0].units), x);
      } else {
        WokenOrLeft(rest, n, x);
        Split(ws[0], Left(rest, n), x);
      }
    }
  }

  lemma {:induction false} Split(w: Waiter, rest: seq<Waiter>, x: Waiter)
    ensures multiset([w] + rest)[x] == multiset(rest)[x] + if x == w then 1 else 0
  {
    assert multiset([w] + rest) == multiset{w} + multiset(rest);
  }

  /** Nobody who is left could be served with what those woken up leave over. */
  lemma {:induction false} NoneLeftFits(ws: seq<Waiter>, n: nat, x: Waiter)
    requires (forall i :: 0 <= i < |ws| ==> ws[i].units > 0) && x in Left(ws, n)
    ensures Units(Woken(ws, n)) <= n && x.units > n - Units(Woken(ws, n))
  {
    WokenServed(ws, n);
    if ws != [] && n > 0 {
      var rest := ws[1..];
      if ws[0].units <= n {
        NoneLeftFits(rest, n - ws[0].units, x);
        UnitsFirst(ws[0], Woken(rest, n - ws[0].units));
      } else {
        WokenServed(rest, n);
        if x in Left(rest, n) { NoneLeftFits(rest, n, x); }
      }
    } else {
      assert ws == Left(ws, n);
    }
  }

  lemma {:induction false} UnitsFirst(w: Waiter, rest: seq<Waiter>)
    ensures Units([w] + rest) == w.units + Units(rest)
  {
    assert ([w] + rest)[1..] == rest;
  }

  /** In order of arrival: a waiter is woken up exactly if it fits into what those woken up before it leave over. */
  lemma {:induction false} WokenInOrder(ws: seq<Waiter>, n: nat, x: Waiter)
    requires x.units > 0 && forall i :: 0 <= i < |ws| ==> ws[i].units > 0
    ensures Units(Woken(ws, n)) <= n
    ensures var fits := x.units <= n - Units(Woken(ws, n));
      && Woken(ws + [x], n) == Woken(ws, n) + (if fits then [x] else [])
      && Left(ws + [x], n) == Left(ws, n) + (if fits then [] else [x])
  {
    WokenServed(ws, n);
    if ws == [] {
      assert ws + [x] == [x] && [x][1..] == [];
    } else if n > 0 {
      var rest := ws[1..];
      assert (ws + [x])[1..] == rest + [x];
      if ws[0].units <= n {
        WokenInOrder(rest, n - ws[0].units, x);
        UnitsFirst(ws[0], Woken(rest, n - ws[0].units));
      } else {
        WokenInOrder(rest, n, x);
      }
    }
  }

  class KSem {
    const max: Option<nat>
    var counter: nat
    var waitList: seq<Waiter>

    constructor (value: nat, max: Option<nat>)
      ensures State() == Sem(max, value, [])
    {
      this.max, counter, waitList := max, value, [];
    }

    ghost function State(): Sem
      reads this
    {
      Sem(max, counter, waitList)
    }

    /** ksem_wait without a timeout, up to the point where the task has the units or sleeps.  A task that is
        woken up comes back here. */
    method Wait(t: Task, units: nat, forever: bool) returns (r: Outcome)
      requires units > 0
      modifies this
      ensures max.Some? && units > max.value ==> r == Failed(-EINVAL)
      ensures r == Got <==> !(max.Some? && units > max.value) && old(counter) >= units
      ensures r == Asleep <==> !(max.Some? && units > max.value) && old(counter) < units && forever
      ensures counter == old(counter) - (if r == Got then units else 0)
      ensures waitList == old(waitList) + if r == Asleep then [Waiter(t, units)] else []
      ensures r.Failed? ==> r.code == if max.Some? && units > max.value then -EINVAL else -ETIME
    {
      if max.Some? {
        if units > max.value {
          return Failed(-EINVAL);
        }
      }
      if counter < units {
        if !forever {
          return Failed(-ETIME);
        }
        waitList := waitList + [Waiter(t, units)];
        return Asleep;
      }
      counter := counter - units;
      r := Got;
    }

    /** ksem_signal: the tasks that are woken up, in order. */
    method Signal(units: nat) returns (rc: int, woken: seq<Waiter>)
      requires units > 0
      modifies this
      ensures rc == if max.None? then 0 else if units > max.value then -EINVAL
                    else if old(counter) + units > max.value then -EDQUOT else 0
      ensures rc != 0 ==> State() == old(State()) && woken == []
      ensures rc == 0 ==> counter == old(counter) + units && woken == Woken(old(waitList), counter)
      ensures rc == 0 ==> waitList == Left(old(waitList), counter)
    {
      rc, woken := 0, [];
      if max.Some? {
        if units > max.value {
          return -EINVAL, [];
        }
        if counter > max.value - units {
          return -EDQUOT, [];
        }
      }
      counter := counter + units;
      var rem: nat := counter;
      var left, i := [], 0;
      while i < |waitList|
        invariant i <= |waitList| && waitList == old(waitList) && counter == old(counter) + units
        invariant Woken(waitList, counter) == woken + Woken(waitList[i..], rem)
        invariant Left(waitList, counter) == left + Left(waitList[i..], rem)
      {
        if rem == 0 {
          break;
        }
        var w := waitList[i];
        assert waitList[i..][1..] == waitList[i + 1..];
        if w.units <= rem {
          rem := rem - w.units;
          woken := woken + [w];
        } else {
          left := left + [w];
        }
        i := i + 1;
      }
      waitList := left + waitList[i..];
    }
  }
}
