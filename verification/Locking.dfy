/** Tasks that run code under a common, not recursive mutex: where each task is, and how the mutex passes. */
module Locking {
  import opened Options
  import opened Mutexes

  /** Where a task is: at a point of its code outside the mutex, about to lock it, asleep in its queue, inside,
      or asleep on a condition. */
  datatype Pc<K> = Out(k: K) | Acquire(k: K) | Queued(k: K) | Run(k: K) | Asleep(k: K)

  /** The owner is the one task inside, the waiters are those in the queue. */
  ghost predicate InOrder<K>(pcs: map<Task, Pc<K>>, m: Mutex)
  {
    && ValidMutex(m) && !m.recursive
    && (forall t :: t in pcs ==> (pcs[t].Run? <==> m.owner == Some(t)))
    && (forall t :: t in pcs ==> (pcs[t].Queued? <==> t in m.waiters))
    && (forall t :: t in m.waiters ==> t in pcs) && (m.owner.Some? ==> m.owner.value in pcs)
  }

  /** A task locks the mutex, or queues for it. */
  ghost function Entered<K>(pcs: map<Task, Pc<K>>, m: Mutex, t: Task): map<Task, Pc<K>>
    requires t in pcs
  {
    pcs[t := if m.owner.None? then Run(pcs[t].k) else Queued(pcs[t].k)]
  }

  /** The owner unlocks the mutex and goes on at p; the first waiter is inside now. */
  ghost function Released<K>(pcs: map<Task, Pc<K>>, m: Mutex, t: Task, p: Pc<K>): map<Task, Pc<K>>
  {
    if m.waiters == [] || m.waiters[0] !in pcs then pcs[t := p]
    else pcs[t := p][m.waiters[0] := Run(pcs[m.waiters[0]].k)]
  }

  lemma {:induction false} EnteredInOrder<K>(pcs: map<Task, Pc<K>>, m: Mutex, t: Task)
    requires InOrder(pcs, m) && t in pcs && pcs[t].Acquire?
    ensures InOrder(Entered(pcs, m, t), Locked(m, t))
  {
  }

  lemma {:induction false} ReleasedInOrder<K>(pcs: map<Task, Pc<K>>, m: Mutex, t: Task, p: Pc<K>)
    requires InOrder(pcs, m) && t in pcs && pcs[t].Run? && !p.Run? && !p.Queued?
    ensures InOrder(Released(pcs, m, t, p), Unlocked(m))
  {
    if m.waiters != [] {
      var h := m.waiters[0];
      assert h != t && h in m.waiters;
      assert forall x :: x in m.waiters[1..] ==> x in m.waiters && x != h;
      assert forall x :: x in m.waiters && x != h ==> x in m.waiters[1..];
    }
  }

  /** A step that does not touch the mutex. */
  lemma {:induction false} StayedInOrder<K>(pcs: map<Task, Pc<K>>, m: Mutex, t: Task, p: Pc<K>)
    requires InOrder(pcs, m) && t in pcs && (p.Run? <==> pcs[t].Run?) && !pcs[t].Queued? && !p.Queued?
    ensures InOrder(pcs[t := p], m)
  {
  }

  // ---------------------------------------------------------------- the tasks at some points

  ghost function Those<K(!new)>(pcs: map<Task, Pc<K>>, s: set<K>): set<Task>
  {
    set t | t in pcs && pcs[t].k in s
  }

  ghost function Count<K(!new)>(pcs: map<Task, Pc<K>>, s: set<K>): nat { |Those(pcs, s)| }

  /** The move of one task. */
  lemma {:induction false} CountMoved<K(!new)>(pcs: map<Task, Pc<K>>, t: Task, p: Pc<K>, s: set<K>)
    requires t in pcs
    ensures Count(pcs[t := p], s) == Count(pcs, s) - (if pcs[t].k in s then 1 else 0) + (if p.k in s then 1 else 0)
  {
    var a, b := Those(pcs, s), Those(pcs[t := p], s);
    assert b == a - {t} + if p.k in s then {t} else {};
    assert |a - {t}| == |a| - if t in a then 1 else 0;
  }
}
