/**
 A pipe: readers and writers share a bounded buffer under a mutex, and sleep on two conditions, on each of which one
 task at a time is woken up.
*/
module Pipe {
  import opened Basics
  import opened Mutexes
  import Ringbuf

  type Byte = bv8

  /** Where a task is: outside, about to run the loop of a read or of a write for the first time, asleep, or woken up
      and about to run the loop again. */
  datatype Pc =
    | Idle
    | Reader(size: nat) | SleepR(size: nat) | WokenR(size: nat)
    | Writer(data: seq<Byte>) | SleepW(data: seq<Byte>) | WokenW(data: seq<Byte>)

  /** The bytes in the buffer, the waiters of the two conditions, and all bytes accepted and handed out so far. */
  datatype Pipe = Pipe(cap: nat, bytes: seq<Byte>, pcs: map<Task, Pc>, notEmpty: seq<Task>, notFull: seq<Task>,
                       accepted: seq<Byte>, given: seq<Byte>)

  ghost function Initial(cap: nat, tasks: set<Task>): Pipe
  {
    Pipe(cap, [], map t | t in tasks :: Idle, [], [], [], [])
  }

  ghost function Woken(p: Pc): Pc
  {
    match p
    case SleepR(size) => WokenR(size)
    case SleepW(data) => WokenW(data)
    case _ => p
  }

  /** kcond_signal_one on the condition of the readers. */
  ghost function SignalReader(s: Pipe): Pipe
  {
    if s.notEmpty == [] || s.notEmpty[0] !in s.pcs then s
    else s.(pcs := s.pcs[s.notEmpty[0] := Woken(s.pcs[s.notEmpty[0]])], notEmpty := s.notEmpty[1..])
  }

  /** kcond_signal_one on the condition of the writers. */
  ghost function SignalWriter(s: Pipe): Pipe
  {
    if s.notFull == [] || s.notFull[0] !in s.pcs then s
    else s.(pcs := s.pcs[s.notFull[0] := Woken(s.pcs[s.notFull[0]])], notFull := s.notFull[1..])
  }

  /** Before the signals of a read that gets n bytes. */
  ghost function Given(s: Pipe, t: Task, n: nat): Pipe
    requires n <= |s.bytes|
  {
    s.(bytes := s.bytes[n..], given := s.given + s.bytes[..n], pcs := s.pcs[t := Idle])
  }

  /** Before the signals of a write that puts n bytes. */
  ghost function Accepted(s: Pipe, t: Task, data: seq<Byte>, n: nat): Pipe
    requires n <= |data|
  {
    s.(bytes := s.bytes + data[..n], accepted := s.accepted + data[..n], pcs := s.pcs[t := Idle])
  }

  /** The loop of pipe_read, from taking the mutex to giving it up. */
  ghost function ReadStep(s: Pipe, t: Task, size: nat): Pipe
  {
    var n := Min(size, |s.bytes|);
    if n == 0 then s.(pcs := s.pcs[t := SleepR(size)], notEmpty := s.notEmpty + [t])
    else
      var u := SignalWriter(Given(s, t, n));
      if u.bytes != [] then SignalReader(u) else u
  }

  /** The loop of pipe_write. */
  ghost function WriteStep(s: Pipe, t: Task, data: seq<Byte>): Pipe
  {
    var n := Min(|data|, if |s.bytes| <= s.cap then s.cap - |s.bytes| else 0);
    if n == 0 then s.(pcs := s.pcs[t := SleepW(data)], notFull := s.notFull + [t])
    else
      var u := SignalReader(Accepted(s, t, data, n));
      if |u.bytes| != u.cap then SignalWriter(u) else u
  }

  /** What happens: an idle task calls read or write, or a task that is not asleep runs its loop.  A call for no bytes
      returns at once. */
  datatype Event = Read(t: Task, size: nat) | Write(t: Task, data: seq<Byte>) | Go(t: Task)

  ghost function Step(s: Pipe, ev: Event): Pipe
  {
    match ev
    case Read(t, size) => if t in s.pcs && s.pcs[t].Idle? && size > 0 then s.(pcs := s.pcs[t := Reader(size)]) else s
    case Write(t, data) => if t in s.pcs && s.pcs[t].Idle? && data != [] then s.(pcs := s.pcs[t := Writer(data)]) else s
    case Go(t) =>
      if t !in s.pcs then s
      else
        match s.pcs[t]
        case Reader(size) => ReadStep(s, t, size)
        case WokenR(size) => ReadStep(s, t, size)
        case Writer(data) => WriteStep(s, t, data)
        case WokenW(data) => WriteStep(s, t, data)
        case _ => s
  }

  // ---------------------------------------------------------------- the invariant

  ghost predicate AnyReaderWoken(pcs: map<Task, Pc>) { exists t :: t in pcs && pcs[t].WokenR? }

  ghost predicate AnyWriterWoken(pcs: map<Task, Pc>) { exists t :: t in pcs && pcs[t].WokenW? }

  /** The two lists hold the tasks that sleep, each once. */
  ghost predicate ListsOk(s: Pipe)
  {
    && NoDuplicates(s.notEmpty) && NoDuplicates(s.notFull)
    && (forall t :: t in s.notEmpty ==> t in s.pcs && s.pcs[t].SleepR?)
    && (forall t :: t in s.notFull ==> t in s.pcs && s.pcs[t].SleepW?)
    && (forall t :: t in s.pcs && s.pcs[t].SleepR? ==> t in s.notEmpty)
    && (forall t :: t in s.pcs && s.pcs[t].SleepW? ==> t in s.notFull)
  }

  /** Calls are for at least one byte. */
  ghost predicate Wants(p: Pc)
  {
    match p
    case Idle => true
    case Reader(n) => n > 0
    case SleepR(n) => n > 0
    case WokenR(n) => n > 0
    case Writer(d) => d != []
    case SleepW(d) => d != []
    case WokenW(d) => d != []
  }

  /** With data there and a reader asleep, another reader has been woken up; with room and a writer asleep, another
      writer has. */
  ghost predicate NoneMissed(s: Pipe)
  {
    && (s.bytes != [] && s.notEmpty != [] ==> AnyReaderWoken(s.pcs))
    && (|s.bytes| < s.cap && s.notFull != [] ==> AnyWriterWoken(s.pcs))
  }

  ghost predicate Basic(s: Pipe)
  {
    && |s.bytes| <= s.cap && s.accepted == s.given + s.bytes && ListsOk(s)
    && forall t :: t in s.pcs ==> Wants(s.pcs[t])
  }

  ghost predicate Inv(s: Pipe) { Basic(s) && NoneMissed(s) }

  /** A signal takes the first sleeper out of the list; nothing else changes. */
  lemma {:induction false} ReaderSignalled(s: Pipe)
    requires Basic(s)
    ensures var u := SignalReader(s);
      && Basic(u) && u.bytes == s.bytes && u.cap == s.cap && u.notFull == s.notFull
      && (u.notEmpty != [] ==> AnyReaderWoken(u.pcs)) && (AnyWriterWoken(s.pcs) ==> AnyWriterWoken(u.pcs))
      && (AnyReaderWoken(s.pcs) ==> AnyReaderWoken(u.pcs)) && |u.notEmpty| <= |s.notEmpty|
  {
    if s.notEmpty != [] {
      var u, h := SignalReader(s), s.notEmpty[0];
      assert h in s.notEmpty && u.pcs[h].WokenR?;
      if AnyReaderWoken(s.pcs) {
        var t :| t in s.pcs && s.pcs[t].WokenR?;
        assert u.pcs[t].WokenR?;
      }
      if AnyWriterWoken(s.pcs) {
        var t :| t in s.pcs && s.pcs[t].WokenW?;
        assert u.pcs[t].WokenW?;
      }
    }
  }

  lemma {:induction false} WriterSignalled(s: Pipe)
    requires Basic(s)
    ensures var u := SignalWriter(s);
      && Basic(u) && u.bytes == s.bytes && u.cap == s.cap && u.notEmpty == s.notEmpty
      && (u.notFull != [] ==> AnyWriterWoken(u.pcs)) && (AnyReaderWoken(s.pcs) ==> AnyReaderWoken(u.pcs))
      && (AnyWriterWoken(s.pcs) ==> AnyWriterWoken(u.pcs)) && |u.notFull| <= |s.notFull|
  {
    if s.notFull != [] {
      var u, h := SignalWriter(s), s.notFull[0];
      assert h in s.notFull && u.pcs[h].WokenW?;
      if AnyReaderWoken(s.pcs) {
        var t :| t in s.pcs && s.pcs[t].WokenR?;
        assert u.pcs[t].WokenR?;
      }
      if AnyWriterWoken(s.pcs) {
        var t :| t in s.pcs && s.pcs[t].WokenW?;
        assert u.pcs[t].WokenW?;
      }
    }
  }

  ghost predicate Runs(p: Pc) { p.Reader? || p.WokenR? || p.Writer? || p.WokenW? }

  lemma {:induction false} GivenBasic(s: Pipe, t: Task, n: nat)
    requires Basic(s) && t in s.pcs && Runs(s.pcs[t]) && n <= |s.bytes|
    ensures Basic(Given(s, t, n))
  {
    assert s.bytes == s.bytes[..n] + s.bytes[n..];
  }

  lemma {:induction false} AcceptedBasic(s: Pipe, t: Task, data: seq<Byte>, n: nat)
    requires Basic(s) && t in s.pcs && Runs(s.pcs[t]) && n <= |data| && |s.bytes| + n <= s.cap
    ensures Basic(Accepted(s, t, data, n))
  {
  }

  /** A task that is not asleep goes to sleep. */
  lemma {:induction false} SleepsBasic(s: Pipe, t: Task, p: Pc)
    requires Basic(s) && t in s.pcs && Runs(s.pcs[t]) && Wants(p)
    ensures p.SleepR? ==> Basic(s.(pcs := s.pcs[t := p], notEmpty := s.notEmpty + [t]))
    ensures p.SleepW? ==> Basic(s.(pcs := s.pcs[t := p], notFull := s.notFull + [t]))
  {
  }

  lemma {:induction false} ReadKeeps(s: Pipe, t: Task, size: nat)
    requires Inv(s) && t in s.pcs && size > 0 && (s.pcs[t] == Reader(size) || s.pcs[t] == WokenR(size))
    ensures Inv(ReadStep(s, t, size))
  {
    var n := Min(size, |s.bytes|);
    if n == 0 {
      SleepsBasic(s, t, SleepR(size));
      if AnyWriterWoken(s.pcs) {
        var x :| x in s.pcs && s.pcs[x].WokenW?;
        assert s.pcs[t := SleepR(size)][x].WokenW?;
      }
    } else {
      GivenBasic(s, t, n);
      ReadSignals(Given(s, t, n));
    }
  }

  lemma {:induction false} WriterWaits(s: Pipe, t: Task, data: seq<Byte>)
    requires Inv(s) && t in s.pcs && data != [] && (s.pcs[t] == Writer(data) || s.pcs[t] == WokenW(data))
    requires |s.bytes| == s.cap
    ensures Inv(s.(pcs := s.pcs[t := SleepW(data)], notFull := s.notFull + [t]))
  {
    SleepsBasic(s, t, SleepW(data));
    if AnyReaderWoken(s.pcs) {
      var x :| x in s.pcs && s.pcs[x].WokenR?;
      assert s.pcs[t := SleepW(data)][x].WokenR?;
    }
  }

  lemma {:induction false} WriterFills(s: Pipe, t: Task, data: seq<Byte>, n: nat)
    requires Inv(s) && t in s.pcs && Runs(s.pcs[t]) && n <= |data| && |s.bytes| + n <= s.cap
    ensures var u := SignalReader(Accepted(s, t, data, n)); Inv(if |u.bytes| != u.cap then SignalWriter(u) else u)
  {
    AcceptedBasic(s, t, data, n);
    WriteSignals(Accepted(s, t, data, n));
  }

  lemma {:induction false} WriteKeeps(s: Pipe, t: Task, data: seq<Byte>)
    requires Inv(s) && t in s.pcs && data != [] && (s.pcs[t] == Writer(data) || s.pcs[t] == WokenW(data))
    ensures Inv(WriteStep(s, t, data))
  {
    if |s.bytes| == s.cap {
      WriterWaits(s, t, data);
    } else {
      WriterFills(s, t, data, Min(|data|, s.cap - |s.bytes|));
    }
  }

  /** The signals at the end of a write. */
  lemma {:induction false} WriteSignals(s: Pipe)
    requires Basic(s)
    ensures var u := SignalReader(s); Inv(if |u.bytes| != u.cap then SignalWriter(u) else u)
  {
    ReaderSignalled(s);
    WriterSignalled(SignalReader(s));
  }

  /** The signals at the end of a read. */
  lemma {:induction false} ReadSignals(s: Pipe)
    requires Basic(s)
    ensures var u := SignalWriter(s); Inv(if u.bytes != [] then SignalReader(u) else u)
  {
    WriterSignalled(s);
    ReaderSignalled(SignalWriter(s));
  }

  /** A task starts a call. */
  lemma {:induction false} CallKeeps(s: Pipe, t: Task, p: Pc)
    requires Inv(s) && t in s.pcs && s.pcs[t].Idle? && (p.Reader? || p.Writer?) && Wants(p)
    ensures Inv(s.(pcs := s.pcs[t := p]))
  {
    var u := s.(pcs := s.pcs[t := p]);
    if AnyReaderWoken(s.pcs) {
      var x :| x in s.pcs && s.pcs[x].WokenR?;
      assert u.pcs[x].WokenR?;
    }
    if AnyWriterWoken(s.pcs) {
      var x :| x in s.pcs && s.pcs[x].WokenW?;
      assert u.pcs[x].WokenW?;
    }
  }

  /** Every event keeps the invariant. */
  lemma {:induction false} StepKeeps(s: Pipe, ev: Event)
    requires Inv(s)
    ensures Inv(Step(s, ev))
  {
    match ev
    case Read(t, size) => if t in s.pcs && s.pcs[t].Idle? && size > 0 { CallKeeps(s, t, Reader(size)); }
    case Write(t, data) => if t in s.pcs && s.pcs[t].Idle? && data != [] { CallKeeps(s, t, Writer(data)); }
    case Go(t) =>
      if t in s.pcs {
        assert Wants(s.pcs[t]);
        match s.pcs[t]
        case Reader(size) => ReadKeeps(s, t, size);
        case WokenR(size) => ReadKeeps(s, t, size);
        case Writer(data) => WriteKeeps(s, t, data);
        case WokenW(data) => WriteKeeps(s, t, data);
        case _ =>
      }
  }

  ghost function After(s: Pipe, evs: seq<Event>): Pipe
  {
    if evs == [] then s else Step(After(s, evs[..|evs| - 1]), evs[|evs| - 1])
  }

  lemma {:induction false} AlwaysInv(cap: nat, tasks: set<Task>, evs: seq<Event>)
    ensures Inv(After(Initial(cap, tasks), evs))
  {
    if evs != [] {
      AlwaysInv(cap, tasks, evs[..|evs| - 1]);
      StepKeeps(After(Initial(cap, tasks), evs[..|evs| - 1]), evs[|evs| - 1]);
    }
  }

  /** Conservation: in every run, all bytes handed out followed by those in the buffer are all bytes accepted, in
      order, and the buffer holds no more than it can. */
  lemma {:induction false} BytesConserved(cap: nat, tasks: set<Task>, evs: seq<Event>)
    ensures var s := After(Initial(cap, tasks), evs); s.given + s.bytes == s.accepted && |s.bytes| <= cap
  {
    AlwaysInv(cap, tasks, evs);
    CapStays(Initial(cap, tasks), evs);
  }

  lemma {:induction false} CapStays(s: Pipe, evs: seq<Event>)
    ensures After(s, evs).cap == s.cap
  {
    if evs != [] { CapStays(s, evs[..|evs| - 1]); }
  }

  /** No missed wake-up, in every run: data and a sleeping reader mean that another reader is already woken up, and
      room and a sleeping writer that another writer is. */
  lemma {:induction false} WakeUpsSuffice(cap: nat, tasks: set<Task>, evs: seq<Event>, t: Task)
    requires t in After(Initial(cap, tasks), evs).pcs
    ensures var s := After(Initial(cap, tasks), evs);
      && (s.bytes != [] && s.pcs[t].SleepR? ==> AnyReaderWoken(s.pcs))
      && (|s.bytes| < s.cap && s.pcs[t].SleepW? ==> AnyWriterWoken(s.pcs))
  {
    AlwaysInv(cap, tasks, evs);
  }

  // ---------------------------------------------------------------- what a call does for its caller

  /** The first of the waiters is off the list and awake, with the call it has made. */
  ghost predicate FirstWoken(before: map<Task, Pc>, waiters: seq<Task>, after: map<Task, Pc>, left: seq<Task>)
  {
    if waiters == [] then left == []
    else
      var h := waiters[0];
      left == waiters[1..] && h in before && h in after
      && (before[h].SleepR? ==> after[h] == WokenR(before[h].size))
      && (before[h].SleepW? ==> after[h] == WokenW(before[h].data))
  }

  /** A reader that runs while there is data gets what fits, from the front, and is done, whether it has slept or not.
      It wakes up the first writer, and the first reader if it has left something. */
  lemma {:induction false} ReaderReads(s: Pipe, t: Task, size: nat)
    requires Inv(s) && t in s.pcs && (s.pcs[t] == Reader(size) || s.pcs[t] == WokenR(size)) && s.bytes != []
    ensures var u, n := Step(s, Go(t)), Min(size, |s.bytes|);
      && n > 0 && u.given == s.given + s.bytes[..n] && u.bytes == s.bytes[n..] && u.accepted == s.accepted
      && t in u.pcs && u.pcs[t].Idle?
      && FirstWoken(s.pcs, s.notFull, u.pcs, u.notFull)
      && if u.bytes == [] then u.notEmpty == s.notEmpty else FirstWoken(s.pcs, s.notEmpty, u.pcs, u.notEmpty)
  {
    assert Wants(s.pcs[t]);
    var g := Given(s, t, Min(size, |s.bytes|));
    SignalsKeep(g);
    SignalsKeep(SignalWriter(g));
    if s.notFull != [] { assert s.notFull[0] in s.notFull; }
    if s.notEmpty != [] { assert s.notEmpty[0] in s.notEmpty; }
  }

  /** A reader that runs while there is nothing sleeps behind the others, with the call it has made. */
  lemma {:induction false} ReaderSleeps(s: Pipe, t: Task, size: nat)
    requires Inv(s) && t in s.pcs && (s.pcs[t] == Reader(size) || s.pcs[t] == WokenR(size)) && s.bytes == []
    ensures Step(s, Go(t)) == s.(pcs := s.pcs[t := SleepR(size)], notEmpty := s.notEmpty + [t])
  {
  }

  /** A writer that runs while there is room puts in what fits, from the front, and is done.  It wakes up the first
      reader, and the first writer if there is still room. */
  lemma {:induction false} WriterWrites(s: Pipe, t: Task, data: seq<Byte>)
    requires Inv(s) && t in s.pcs && (s.pcs[t] == Writer(data) || s.pcs[t] == WokenW(data)) && |s.bytes| < s.cap
    ensures var u, n := Step(s, Go(t)), Min(|data|, s.cap - |s.bytes|);
      && n > 0 && u.accepted == s.accepted + data[..n] && u.bytes == s.bytes + data[..n] && u.given == s.given
      && t in u.pcs && u.pcs[t].Idle?
      && FirstWoken(s.pcs, s.notEmpty, u.pcs, u.notEmpty)
      && if |u.bytes| == s.cap then u.notFull == s.notFull else FirstWoken(s.pcs, s.notFull, u.pcs, u.notFull)
  {
    assert Wants(s.pcs[t]);
    var g := Accepted(s, t, data, Min(|data|, s.cap - |s.bytes|));
    SignalsKeep(g);
    SignalsKeep(SignalReader(g));
    if s.notFull != [] { assert s.notFull[0] in s.notFull; }
    if s.notEmpty != [] { assert s.notEmpty[0] in s.notEmpty; }
  }

  lemma {:induction false} WriterSleeps(s: Pipe, t: Task, data: seq<Byte>)
    requires Inv(s) && t in s.pcs && (s.pcs[t] == Writer(data) || s.pcs[t] == WokenW(data)) && |s.bytes| == s.cap
    ensures Step(s, Go(t)) == s.(pcs := s.pcs[t := SleepW(data)], notFull := s.notFull + [t])
  {
  }

  /** The same call, at most woken up. */
  ghost predicate SameCall(p: Pc, q: Pc)
  {
    q == p || (p.SleepR? && q == WokenR(p.size)) || (p.SleepW? && q == WokenW(p.data))
  }

  lemma {:induction false} SignalsStay(s: Pipe, x: Task)
    requires x in s.pcs
    ensures x in SignalReader(s).pcs && SameCall(s.pcs[x], SignalReader(s).pcs[x])
    ensures x in SignalWriter(s).pcs && SameCall(s.pcs[x], SignalWriter(s).pcs[x])
  {
  }

  lemma {:induction false} LoopsStay(s: Pipe, t: Task, size: nat, data: seq<Byte>, x: Task)
    requires x in s.pcs && x != t
    ensures x in ReadStep(s, t, size).pcs && SameCall(s.pcs[x], ReadStep(s, t, size).pcs[x])
    ensures x in WriteStep(s, t, data).pcs && SameCall(s.pcs[x], WriteStep(s, t, data).pcs[x])
  {
    var n := Min(size, |s.bytes|);
    SignalsStay(Given(s, t, n), x);
    SignalsStay(SignalWriter(Given(s, t, n)), x);
    var m := Min(|data|, if |s.bytes| <= s.cap then s.cap - |s.bytes| else 0);
    SignalsStay(Accepted(s, t, data, m), x);
    SignalsStay(SignalReader(Accepted(s, t, data, m)), x);
  }

  /** The calls of all other tasks stay as they are; at most they are woken up. */
  lemma {:induction false} OthersStay(s: Pipe, ev: Event, x: Task)
    requires x in s.pcs && x != ev.t
    ensures x in Step(s, ev).pcs && SameCall(s.pcs[x], Step(s, ev).pcs[x])
  {
    if ev.Go? && ev.t in s.pcs {
      match s.pcs[ev.t]
      case Reader(size) => LoopsStay(s, ev.t, size, [], x);
      case WokenR(size) => LoopsStay(s, ev.t, size, [], x);
      case Writer(data) => LoopsStay(s, ev.t, 0, data, x);
      case WokenW(data) => LoopsStay(s, ev.t, 0, data, x);
      case _ =>
    }
  }

  /** A call for something begins at its loop; a call for nothing is over. */
  lemma {:induction false} CallBegins(s: Pipe, t: Task, size: nat, data: seq<Byte>)
    requires t in s.pcs && s.pcs[t].Idle?
    ensures Step(s, Read(t, size)) == if size == 0 then s else s.(pcs := s.pcs[t := Reader(size)])
    ensures Step(s, Write(t, data)) == if data == [] then s else s.(pcs := s.pcs[t := Writer(data)])
  {
  }

  /** In every run, a reader asleep while there is data need not wait for a new call: some reader is awake whose next
      step hands out bytes; and likewise for a writer asleep while there is room. */
  lemma {:induction false} AwakeServed(cap: nat, tasks: set<Task>, evs: seq<Event>, t: Task)
    requires t in After(Initial(cap, tasks), evs).pcs
    ensures var s := After(Initial(cap, tasks), evs);
      && (s.bytes != [] && s.pcs[t].SleepR? ==> exists x :: HandsOut(s, x))
      && (|s.bytes| < s.cap && s.pcs[t].SleepW? ==> exists x :: TakesIn(s, x))
  {
    var s := After(Initial(cap, tasks), evs);
    AlwaysInv(cap, tasks, evs);
    if s.bytes != [] && s.pcs[t].SleepR? {
      var x :| x in s.pcs && s.pcs[x].WokenR?;
      ReaderReads(s, x, s.pcs[x].size);
      assert HandsOut(s, x);
    }
    if |s.bytes| < s.cap && s.pcs[t].SleepW? {
      var x :| x in s.pcs && s.pcs[x].WokenW?;
      WriterWrites(s, x, s.pcs[x].data);
      assert TakesIn(s, x);
    }
  }

  ghost predicate HandsOut(s: Pipe, x: Task)
  {
    x in s.pcs && s.pcs[x].WokenR? && |Step(s, Go(x)).given| > |s.given|
  }

  ghost predicate TakesIn(s: Pipe, x: Task)
  {
    x in s.pcs && s.pcs[x].WokenW? && |Step(s, Go(x)).accepted| > |s.accepted|
  }

  // ---------------------------------------------------------------- the buffer of the pipe

  /** The ring buffer holds the bytes of the pipe. */
  ghost predicate Holds(b: Ringbuf.Buffer<Byte>, s: Pipe)
    reads b, b.buf
  {
    b.Valid() && b.buf.Length == s.cap && b.Contents() == s.bytes
  }

  lemma {:induction false} SignalsKeep(s: Pipe)
    ensures var u := SignalReader(s);
      u.cap == s.cap && u.bytes == s.bytes && u.given == s.given && u.accepted == s.accepted
    ensures var u := SignalWriter(s);
      u.cap == s.cap && u.bytes == s.bytes && u.given == s.given && u.accepted == s.accepted
  {
  }

  /** The buffer part of the loop of pipe_read: nothing comes out exactly when the task goes to sleep. */
  method ReadBuffer(b: Ringbuf.Buffer<Byte>, size: nat, ghost s: Pipe, ghost t: Task) returns (out: seq<Byte>)
    requires Holds(b, s) && size > 0
    modifies b
    ensures Holds(b, ReadStep(s, t, size)) && ReadStep(s, t, size).given == s.given + out
    ensures out == [] <==> ReadStep(s, t, size).notEmpty == s.notEmpty + [t]
  {
    out := b.ReadBytes(size);
    if out != [] {
      ghost var g := Given(s, t, |out|);
      SignalsKeep(g);
      SignalsKeep(SignalWriter(g));
      ListsShrink(g);
      ListsShrink(SignalWriter(g));
    }
  }

  lemma {:induction false} ListsShrink(s: Pipe)
    ensures |SignalReader(s).notEmpty| <= |s.notEmpty| && |SignalReader(s).notFull| == |s.notFull|
    ensures |SignalWriter(s).notEmpty| == |s.notEmpty| && |SignalWriter(s).notFull| <= |s.notFull|
  {
  }

  /** The buffer part of the loop of pipe_write: nothing goes in exactly when the task goes to sleep. */
  method WriteBuffer(b: Ringbuf.Buffer<Byte>, data: seq<Byte>, ghost s: Pipe, ghost t: Task) returns (n: nat)
    requires Holds(b, s) && data != []
    modifies b, b.buf
    ensures n <= |data| && Holds(b, WriteStep(s, t, data)) && WriteStep(s, t, data).accepted == s.accepted + data[..n]
    ensures n == 0 <==> WriteStep(s, t, data).notFull == s.notFull + [t]
  {
    n := b.WriteBytes(data);
    if n > 0 {
      ghost var g := Accepted(s, t, data, n);
      SignalsKeep(g);
      SignalsKeep(SignalReader(g));
      ListsShrink(g);
      ListsShrink(SignalReader(g));
    }
  }
}
