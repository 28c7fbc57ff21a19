/** Time slices of tasks that never sleep: the accounting of run time, and how far it lets tasks get apart. */
module Fairness {

  type Tid = nat

  /** The run time of every task, the list of those that wait, with the idle task, and the one that runs. */
  datatype Cpu = Cpu(v: map<Tid, nat>, list: seq<Tid>, curr: Tid, idle: Tid)

  /** The task at position i of the list is the first of those with the least run time, the idle task aside. */
  ghost predicate FirstLeast(v: map<Tid, nat>, list: seq<Tid>, idle: Tid, i: nat)
  {
    && i < |list| && list[i] != idle && list[i] in v
    && (forall j :: 0 <= j < |list| && list[j] != idle && list[j] in v ==> v[list[i]] <= v[list[j]])
    && (forall j :: 0 <= j < i && list[j] != idle && list[j] in v ==> v[list[i]] < v[list[j]])
  }

  /** What one full slice of the given number of ticks adds to the run time: each tick adds the number of tasks in the
      list, less one for the idle task. */
  ghost function Gain(ticks: nat, c: Cpu): nat { if c.list == [] then 0 else ticks * (|c.list| - 1) }

  /** The state at the scheduling point at the end of the slice. */
  ghost function AtEnd(ticks: nat, c: Cpu): Cpu
  {
    if c.curr in c.v then c.(v := c.v[c.curr := c.v[c.curr] + Gain(ticks, c)]) else c
  }

  /** The task at position i runs next, the other one goes to the end of the list. */
  ghost function Switched(c: Cpu, i: nat): Cpu
    requires i < |c.list|
  {
    c.(list := c.list[..i] + c.list[i + 1..] + [c.curr], curr := c.list[i])
  }

  /** One full slice, then the switch to the task with the least run time. */
  ghost predicate Slice(ticks: nat, c: Cpu, d: Cpu)
  {
    var e := AtEnd(ticks, c);
    exists i :: 0 <= i < |c.list| && FirstLeast(e.v, c.list, c.idle, i) && d == Switched(e, i)
  }

  /** The tasks that compete. */
  ghost predicate Competes(c: Cpu, t: Tid) { t != c.idle && (t in c.list || t == c.curr) }

  /** All tasks are known, each is in one place, and at least two compete. */
  ghost predicate Sound(c: Cpu)
  {
    && |c.list| >= 2 && c.idle in c.list && c.curr != c.idle && c.curr !in c.list && c.curr in c.v
    && (forall t :: t in c.list && t != c.idle ==> t in c.v)
    && (forall i, j :: 0 <= i < j < |c.list| ==> c.list[i] != c.list[j])
  }

  /** Everybody is at `base` or one slice ahead; the one that runs is at `base`. */
  ghost predicate Level(c: Cpu, base: nat, gain: nat)
  {
    && Sound(c) && c.v[c.curr] == base
    && forall t :: t in c.list && t != c.idle ==> c.v[t] == base || c.v[t] == base + gain
  }

  /** Where the elements of the new list were in the old one. */
  lemma {:induction false} SwitchedAt(c: Cpu, i: nat, a: nat)
    requires i < |c.list| && a < |c.list|
    ensures |Switched(c, i).list| == |c.list|
    ensures Switched(c, i).list[a] == if a < i then c.list[a] else if a < |c.list| - 1 then c.list[a + 1] else c.curr
  {
  }

  lemma {:induction false} SwitchedDistinct(c: Cpu, i: nat)
    requires Sound(c) && i < |c.list|
    ensures var l := Switched(c, i).list; forall a, b :: 0 <= a < b < |l| ==> l[a] != l[b]
  {
    var l := Switched(c, i).list;
    forall a, b | 0 <= a < b < |l| ensures l[a] != l[b] {
      SwitchedAt(c, i, a);
      SwitchedAt(c, i, b);
    }
  }

  lemma {:induction false} SwitchedMembers(c: Cpu, i: nat)
    requires Sound(c) && i < |c.list|
    ensures forall t :: t in Switched(c, i).list <==> t == c.curr || (t in c.list && t != c.list[i])
  {
    var l := Switched(c, i).list;
    forall t ensures t in l <==> t == c.curr || (t in c.list && t != c.list[i]) {
      if t in l {
        var a :| 0 <= a < |l| && l[a] == t;
        SwitchedAt(c, i, a);
      }
      if t in c.list && t != c.list[i] {
        var j :| 0 <= j < |c.list| && c.list[j] == t;
        SwitchedAt(c, i, if j < i then j else j - 1);
      }
      SwitchedAt(c, i, |c.list| - 1);
    }
  }

  lemma {:induction false} SwitchedSound(c: Cpu, i: nat)
    requires Sound(c) && i < |c.list| && c.list[i] != c.idle
    ensures Sound(Switched(c, i)) && |Switched(c, i).list| == |c.list|
    ensures forall t :: t in Switched(c, i).list <==> t == c.curr || (t in c.list && t != c.list[i])
  {
    SwitchedDistinct(c, i);
    SwitchedMembers(c, i);
  }

  lemma {:induction false} SliceSound(ticks: nat, c: Cpu, d: Cpu)
    requires Sound(c) && Slice(ticks, c, d)
    ensures Sound(d) && |d.list| == |c.list| && d.idle == c.idle && d.curr in c.list
    ensures forall t :: Competes(d, t) <==> Competes(c, t)
  {
    var e := AtEnd(ticks, c);
    var i :| 0 <= i < |c.list| && FirstLeast(e.v, c.list, c.idle, i) && d == Switched(e, i);
    SwitchedSound(e, i);
  }

  /** Who competes stays the same, and only the task that runs gets more run time. */
  lemma {:induction false} SliceSame(ticks: nat, c: Cpu, d: Cpu, t: Tid)
    requires Sound(c) && Slice(ticks, c, d) && Competes(c, t)
    ensures t in c.v && t in d.v
    ensures d.v[t] == c.v[t] + if t == c.curr then Gain(ticks, c) else 0
    ensures d.curr != c.curr
  {
    var e := AtEnd(ticks, c);
    var i :| 0 <= i < |c.list| && FirstLeast(e.v, c.list, c.idle, i) && d == Switched(e, i);
    SwitchedSound(e, i);
  }

  /** A task is chosen only if it is not ahead of one that waits. */
  lemma {:induction false} ChosenNotAhead(ticks: nat, c: Cpu, d: Cpu, w: Tid)
    requires Sound(c) && Slice(ticks, c, d) && Competes(c, w) && w != c.curr
    ensures d.curr in c.v && w in c.v && c.v[d.curr] <= c.v[w]
  {
    var e := AtEnd(ticks, c);
    var i :| 0 <= i < |c.list| && FirstLeast(e.v, c.list, c.idle, i) && d == Switched(e, i);
    assert c.list[i] in c.list;
    var j :| 0 <= j < |c.list| && c.list[j] == w;
  }

  /** A full slice keeps everybody level, perhaps one step higher. */
  lemma {:induction false} SliceLevel(ticks: nat, c: Cpu, d: Cpu, base: nat)
    requires Level(c, base, Gain(ticks, c)) && Slice(ticks, c, d)
    ensures Gain(ticks, d) == Gain(ticks, c) && d.idle == c.idle
    ensures Level(d, base, Gain(ticks, c)) || Level(d, base + Gain(ticks, c), Gain(ticks, c))
  {
    var g := Gain(ticks, c);
    SliceSound(ticks, c, d);
    SliceSame(ticks, c, d, d.curr);
    var next := d.v[d.curr];
    forall t | t in d.list && t != d.idle ensures d.v[t] == next || d.v[t] == next + g {
      assert Competes(d, t) && Competes(c, t);
      SliceSame(ticks, c, d, t);
      if t != c.curr { ChosenNotAhead(ticks, c, d, t); }
    }
  }

  // ---------------------------------------------------------------- runs

  /** A run of full slices from tasks with the same run time. */
  ghost predicate Ran(ticks: nat, run: seq<Cpu>)
  {
    && run != [] && Sound(run[0]) && (forall t :: Competes(run[0], t) ==> run[0].v[t] == run[0].v[run[0].curr])
    && forall i :: 0 <= i < |run| - 1 ==> SliceAt(ticks, run, i)
  }

  ghost predicate SliceAt(ticks: nat, run: seq<Cpu>, i: nat)
    requires i < |run| - 1
  {
    Slice(ticks, run[i], run[i + 1])
  }

  ghost function GainOf(ticks: nat, run: seq<Cpu>): nat
    requires run != []
  {
    Gain(ticks, run[0])
  }

  lemma {:induction false} RunLevel(ticks: nat, run: seq<Cpu>, i: nat) returns (base: nat)
    requires Ran(ticks, run) && i < |run|
    ensures Level(run[i], base, GainOf(ticks, run)) && Gain(ticks, run[i]) == GainOf(ticks, run)
  {
    if i == 0 {
      base := run[0].v[run[0].curr];
      assert forall t :: t in run[0].list && t != run[0].idle ==> Competes(run[0], t);
    } else {
      base := RunLevel(ticks, run, i - 1);
      assert SliceAt(ticks, run, i - 1);
      SliceLevel(ticks, run[i - 1], run[i], base);
      if !Level(run[i], base, GainOf(ticks, run)) { base := base + GainOf(ticks, run); }
    }
  }

  /** At every scheduling point of every run the run times of two tasks differ by at most one full slice, which is the
      number of its ticks times the number of the other tasks. */
  lemma {:induction false} SpreadBounded(ticks: nat, run: seq<Cpu>, i: nat, x: Tid, y: Tid)
    requires Ran(ticks, run) && i < |run| && Competes(run[i], x) && Competes(run[i], y)
    ensures var e := AtEnd(ticks, run[i]); x in e.v && y in e.v && e.v[x] - e.v[y] <= ticks * (|run[i].list| - 1)
  {
    var base := RunLevel(ticks, run, i);
  }

  /** How often x is chosen between two points of a run. */
  ghost function Choices(run: seq<Cpu>, x: Tid, a: nat, b: nat): nat
    requires a <= b < |run|
  {
    if a == b then 0 else Choices(run, x, a, b - 1) + if run[b].curr == x then 1 else 0
  }

  /** w competes and does not run anywhere between the two points. */
  ghost predicate Waits(run: seq<Cpu>, w: Tid, a: nat, b: nat)
  {
    a <= b < |run| && forall i :: a <= i <= b ==> Competes(run[i], w) && run[i].curr != w
  }

  /** n slices. */
  ghost function Times(n: int, gain: nat): int { if n <= 0 then 0 else if n == 1 then gain else gain + gain }

  /** How far x is behind w at most, after having been chosen n times. */
  ghost predicate Caught(c: Cpu, x: Tid, w: Tid, n: nat, gain: nat)
  {
    && n <= 2 && Competes(c, x) && Competes(c, w) && x in c.v && w in c.v
    && c.v[x] + gain >= c.v[w] + (if c.curr == x then Times(n - 1, gain) else Times(n, gain))
  }

  /** The sums behind it: x has the values a and then b, w has e, and x is chosen for the n-th time or not. */
  lemma {:induction false} CaughtSum(a: nat, b: nat, e: nat, n: nat, gain: nat, ran: bool, chosen: bool)
    requires n <= 2 && gain > 0 && a + gain >= e + (if ran then Times(n - 1, gain) else Times(n, gain))
    requires b == (if ran then a + gain else a) && (chosen ==> !ran && a <= e)
    ensures var k := n + if chosen then 1 else 0;
      k <= 2 && b + gain >= e + if chosen then Times(k - 1, gain) else Times(k, gain)
  {
  }

  lemma {:induction false} CaughtStep(ticks: nat, c: Cpu, d: Cpu, x: Tid, w: Tid, n: nat, gain: nat)
    requires Sound(c) && Slice(ticks, c, d) && gain == Gain(ticks, c) > 0 && w != c.curr && x != w
    requires Caught(c, x, w, n, gain)
    ensures Caught(d, x, w, n + if d.curr == x then 1 else 0, gain)
  {
    SliceCompetes(ticks, c, d, x);
    SliceCompetes(ticks, c, d, w);
    SliceSame(ticks, c, d, x);
    SliceSame(ticks, c, d, w);
    ChosenNotAhead(ticks, c, d, w);
    CaughtSum(c.v[x], d.v[x], c.v[w], n, gain, c.curr == x, d.curr == x);
  }

  lemma {:induction false} SliceCompetes(ticks: nat, c: Cpu, d: Cpu, t: Tid)
    requires Sound(c) && Slice(ticks, c, d) && Competes(c, t)
    ensures Competes(d, t)
  {
    SliceSound(ticks, c, d);
  }

  lemma {:induction false} CaughtStart(c: Cpu, x: Tid, w: Tid, base: nat, gain: nat)
    requires Level(c, base, gain) && Competes(c, x) && Competes(c, w)
    ensures Caught(c, x, w, 0, gain)
  {
  }

  lemma {:induction false} CaughtUp(ticks: nat, run: seq<Cpu>, a: nat, b: nat, x: Tid, w: Tid)
    requires Ran(ticks, run) && GainOf(ticks, run) > 0 && Waits(run, w, a, b) && x != w && Competes(run[a], x)
    ensures Caught(run[b], x, w, Choices(run, x, a, b), GainOf(ticks, run))
    decreases b
  {
    if a == b {
      var base := RunLevel(ticks, run, a);
      CaughtStart(run[a], x, w, base, GainOf(ticks, run));
    } else {
      CaughtUp(ticks, run, a, b - 1, x, w);
      var base := RunLevel(ticks, run, b - 1);
      assert SliceAt(ticks, run, b - 1);
      CaughtStep(ticks, run[b - 1], run[b], x, w, Choices(run, x, a, b - 1), GainOf(ticks, run));
    }
  }

  /** No task is chosen more than twice while another one waits. */
  lemma {:induction false} AtMostTwice(ticks: nat, run: seq<Cpu>, a: nat, b: nat, x: Tid, w: Tid)
    requires Ran(ticks, run) && ticks > 0 && Waits(run, w, a, b) && x != w && Competes(run[a], x)
    ensures Choices(run, x, a, b) <= 2
  {
    GainPositive(ticks, |run[0].list| - 1);
    CaughtUp(ticks, run, a, b, x, w);
  }

  lemma {:induction false} GainPositive(ticks: nat, others: nat)
    requires ticks > 0 && others > 0
    ensures ticks * others > 0
  {
  }
}
