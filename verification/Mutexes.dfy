/** The kernel mutex: an owner, a recursion count and a FIFO list of sleeping tasks. */
module Mutexes {
  import opened Basics
  import opened Options

  type Task = nat

  datatype Mutex = Mutex(recursive: bool, owner: Option<Task>, count: nat, waiters: seq<Task>)

  /** Nobody waits for a mutex that nobody owns; the count is that of the owner. */
  ghost predicate ValidMutex(m: Mutex)
  {
    && (m.owner.None? ==> m.waiters == [])
    && (m.count > 0 <==> m.recursive && m.owner.Some?)
    && NoDuplicates(m.waiters) && (m.owner.Some? ==> m.owner.value !in m.waiters)
  }

  /** A new owner. */
  function Given(m: Mutex, t: Task): Mutex
  {
    m.(owner := Some(t), count := if m.recursive then 1 else 0)
  }

  /** kmutex_lock, up to the point where the task has the mutex or sleeps. */
  function Locked(m: Mutex, t: Task): Mutex
  {
    if m.owner.None? then Given(m, t)
    else if m.recursive && m.owner == Some(t) then m.(count := m.count + 1)
    else m.(waiters := m.waiters + [t])
  }

  /** kmutex_trylock. */
  function Tried(m: Mutex, t: Task): Mutex
  {
    if m.owner.None? then Given(m, t)
    else if m.recursive && m.owner == Some(t) then m.(count := m.count + 1)
    else m
  }

  /** The owner gives the mutex up for good. */
  predicate IsFullRelease(m: Mutex) { m.count <= 1 }

  /** kmutex_unlock: the first waiter becomes the owner. */
  function Unlocked(m: Mutex): Mutex
  {
    if !IsFullRelease(m) then m.(count := m.count - 1)
    else if m.waiters == [] then m.(owner := None, count := 0)
    else Given(m, m.waiters[0]).(waiters := m.waiters[1..])
  }

  class KMutex {
    const recursive: bool
    var owner: Option<Task>
    var lockCount: nat
    var waitList: seq<Task>

    constructor (recursive: bool)
      ensures this.recursive == recursive && State() == Mutex(recursive, None, 0, []) && ValidMutex(State())
    {
      this.recursive, owner, lockCount, waitList := recursive, None, 0, [];
    }

    ghost function State(): Mutex
      reads this
    {
      Mutex(recursive, owner, lockCount, waitList)
    }

    /** kmutex_lock by task t: true if it has to sleep. */
    method Lock(t: Task) returns (sleeps: bool)
      requires ValidMutex(State()) && t !in waitList && (owner == Some(t) ==> recursive)
      modifies this
      ensures ValidMutex(State()) && State() == Locked(old(State()), t)
      ensures if sleeps then t in waitList else owner == Some(t)
      ensures sleeps <==> old(owner.Some? && owner != Some(t))
    {
      if owner.None? {
        owner := Some(t);
        if recursive {
          lockCount := lockCount + 1;
        }
        return false;
      }
      if recursive {
        if owner == Some(t) {
          lockCount := lockCount + 1;
          return false;
        }
      }
      waitList := waitList + [t];
      sleeps := true;
    }

    /** kmutex_trylock by task t. */
    method TryLock(t: Task) returns (success: bool)
      requires ValidMutex(State()) && t !in waitList
      modifies this
      ensures ValidMutex(State()) && State() == Tried(old(State()), t)
      ensures success ==> owner == Some(t)
      ensures !success ==> State() == old(State()) && owner.Some? && (owner == Some(t) ==> !recursive)
    {
      success := false;
      if owner.None? {
        owner := Some(t);
        success := true;
        if recursive {
          lockCount := lockCount + 1;
        }
      } else if recursive {
        if owner == Some(t) {
          lockCount := lockCount + 1;
          success := true;
        }
      }
    }

    /** kmutex_unlock by its owner: the task that is woken up, if any. */
    method Unlock() returns (woken: Option<Task>)
      requires ValidMutex(State()) && owner.Some?
      modifies this
      ensures ValidMutex(State()) && State() == Unlocked(old(State()))
      ensures woken == (if old(IsFullRelease(State()) && waitList != []) then old(Some(waitList[0])) else None)
      ensures woken.Some? ==> owner == woken && woken.value !in waitList
    {
      woken := None;
      if recursive {
        lockCount := lockCount - 1;
        if lockCount > 0 {
          return;
        }
      }
      owner := None;
      if waitList != [] {
        woken := Some(waitList[0]);
        owner := woken;
        waitList := waitList[1..];
        if recursive {
          lockCount := lockCount + 1;
        }
      }
    }
  }

  // ---------------------------------------------------------------- runs

  /** What tasks do with a mutex. */
  datatype Op = Lock(t: Task) | Try(t: Task) | Unlock

  /** A sleeping task does nothing; only the owner unlocks; only a recursive mutex is locked by its owner. */
  ghost predicate Enabled(m: Mutex, op: Op)
  {
    match op
    case Lock(t) => t !in m.waiters && (m.owner == Some(t) ==> m.recursive)
    case Try(t) => t !in m.waiters
    case Unlock => m.owner.Some?
  }

  function Done(m: Mutex, op: Op): Mutex
  {
    match op
    case Lock(t) => Locked(m, t)
    case Try(t) => Tried(m, t)
    case Unlock => Unlocked(m)
  }

  lemma {:induction false} DoneValid(m: Mutex, op: Op)
    requires ValidMutex(m) && Enabled(m, op)
    ensures ValidMutex(Done(m, op))
  {
  }

  function After(m: Mutex, ops: seq<Op>): Mutex
  {
    if ops == [] then m else Done(After(m, ops[..|ops| - 1]), ops[|ops| - 1])
  }

  ghost predicate Possible(m: Mutex, ops: seq<Op>)
  {
    ops == [] || (Possible(m, ops[..|ops| - 1]) && Enabled(After(m, ops[..|ops| - 1]), ops[|ops| - 1]))
  }

  ghost predicate EndsInRelease(m: Mutex, ops: seq<Op>)
  {
    ops != [] && ops[|ops| - 1].Unlock? && IsFullRelease(After(m, ops[..|ops| - 1]))
  }

  /** How often the mutex has been given up for good. */
  ghost function Releases(m: Mutex, ops: seq<Op>): nat
  {
    if ops == [] then 0
    else Releases(m, ops[..|ops| - 1]) + if EndsInRelease(m, ops) then 1 else 0
  }

  /** Every run keeps the mutex in order. */
  lemma {:induction false} AlwaysValid(m: Mutex, ops: seq<Op>)
    requires ValidMutex(m) && Possible(m, ops)
    ensures ValidMutex(After(m, ops))
  {
    if ops != [] {
      AlwaysValid(m, ops[..|ops| - 1]);
      DoneValid(After(m, ops[..|ops| - 1]), ops[|ops| - 1]);
    }
  }

  /** First come, first served: in every run, the waiter at position k moves up by one with every release and
      owns the mutex right after release number k + 1. */
  lemma {:induction false} FirstComeFirstServed(m: Mutex, ops: seq<Op>, k: nat)
    requires ValidMutex(m) && Possible(m, ops) && k < |m.waiters|
    ensures var r, n := Releases(m, ops), After(m, ops);
      && (r <= k ==> k - r < |n.waiters| && n.waiters[k - r] == m.waiters[k] && n.owner != Some(m.waiters[k]))
      && (r == k + 1 && EndsInRelease(m, ops) ==> n.owner == Some(m.waiters[k]))
  {
    AlwaysValid(m, ops);
    if ops != [] {
      FirstComeFirstServed(m, ops[..|ops| - 1], k);
    }
  }

  /** A mutex that nobody owns has no waiters, in every run. */
  lemma {:induction false} FreeMeansNoWaiters(recursive: bool, ops: seq<Op>)
    requires Possible(Mutex(recursive, None, 0, []), ops)
    ensures var n := After(Mutex(recursive, None, 0, []), ops); n.owner.None? ==> n.waiters == []
  {
    AlwaysValid(Mutex(recursive, None, 0, []), ops);
  }

  // ---------------------------------------------------------------- nested locks

  /** How often a task has locked the mutex, or tried to. */
  function Locks(ops: seq<Op>, t: Task): nat
  {
    if ops == [] then 0
    else
      var op := ops[|ops| - 1];
      Locks(ops[..|ops| - 1], t) + if (op.Lock? || op.Try?) && op.t == t then 1 else 0
  }

  function Unlocks(ops: seq<Op>): nat
  {
    if ops == [] then 0 else Unlocks(ops[..|ops| - 1]) + if ops[|ops| - 1].Unlock? then 1 else 0
  }

  /** At every point of the run the owner t of a mutex, locked n times before, has more locks than unlocks. */
  ghost predicate Nested(ops: seq<Op>, t: Task, n: nat)
  {
    Unlocks(ops) < n + Locks(ops, t) && (ops == [] || Nested(ops[..|ops| - 1], t, n))
  }

  /** As long as there have been fewer unlocks than locks, the owner keeps a recursive mutex, whatever others do. */
  lemma {:induction false} KeptWhileNested(m: Mutex, ops: seq<Op>, t: Task)
    requires ValidMutex(m) && m.recursive && m.owner == Some(t) && Possible(m, ops) && Nested(ops, t, m.count)
    ensures var u := After(m, ops);
      u.recursive && u.owner == Some(t) && u.count == m.count + Locks(ops, t) - Unlocks(ops)
  {
    if ops != [] {
      KeptWhileNested(m, ops[..|ops| - 1], t);
    }
  }

  /** And the unlock that makes them equal hands it on, to the first waiter if there is one. */
  lemma {:induction false} LastUnlockFrees(m: Mutex, ops: seq<Op>, t: Task)
    requires ValidMutex(m) && m.recursive && m.owner == Some(t) && Possible(m, ops) && Nested(ops, t, m.count)
    requires Unlocks(ops) + 1 == m.count + Locks(ops, t)
    ensures var u, v := After(m, ops), After(m, ops + [Unlock]);
      v.owner == (if u.waiters == [] then None else Some(u.waiters[0])) && v.owner != Some(t)
  {
    KeptWhileNested(m, ops, t);
    AlwaysValid(m, ops);
    assert (ops + [Unlock])[..|ops|] == ops;
    var u := After(m, ops);
    assert u.waiters != [] ==> u.waiters[0] in u.waiters;
  }

  /** A mutex that is not recursive is handed on by the first unlock. */
  lemma {:induction false} PlainUnlockFrees(m: Mutex)
    requires ValidMutex(m) && !m.recursive && m.owner.Some?
    ensures Unlocked(m).owner == (if m.waiters == [] then None else Some(m.waiters[0]))
    ensures Unlocked(m).waiters == (if m.waiters == [] then [] else m.waiters[1..])
  {
  }
}
