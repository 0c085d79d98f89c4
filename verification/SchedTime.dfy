/**
  What the scheduler does over time: how long a thread runs before the timer takes it off, and
  which threads ever get to run.
 */
module SchedTime {
  import opened CTypes
  import opened Options
  import opened SchedModel

  /** n timer interrupts. */
  function Ticks<T>(s: Sched<T>, n: nat): Sched<T> { if n == 0 then s else Tick(Ticks(s, n - 1)) }

  /** A thread is running, another one is ready, and preemption is on with quantum q. */
  ghost predicate Busy<T>(s: Sched<T>, q: int) {
    && Inv(s) && s.preempt && s.quantum == q && q > 0
    && s.current.Some? && s.Is(s.current.value, Running) && s.ready != []
  }

  function Left<T>(s: Sched<T>): int
    requires s.current.Some? && s.current.value in s.slice
  {
    s.slice[s.current.value]
  }

  /** The wake-up sweep leaves the running thread running. */
  lemma WakeKeepsCurrent<T>(s: Sched<T>)
    requires Inv(s) && s.current.Some? && s.Is(s.current.value, Running)
    ensures WakeUp(s).Is(s.current.value, Running)
    ensures |WakeUp(s).ready| >= |s.ready|
  {
    var c := s.current.value;
    assert Placed(s, c);
    SweepMembers(s.sleeping, s.wake, s.ticks, c);
    SetAllAt(s.st, Sweep(s.sleeping, s.wake, s.ticks).1, Ready, c);
  }

  lemma YieldSwitches<T>(s: Sched<T>)
    requires Inv(s) && s.current.Some? && s.Is(s.current.value, Running) && s.ready != []
    ensures var r := Yield(s);
            && r.current == Some(s.ready[0]) && s.ready[0] != s.current.value
            && r.ready == [s.current.value] + s.ready[1..]
            && r.Is(s.ready[0], Running)
  {
    assert s.ready[0] in s.ready && Placed(s, s.ready[0]);
  }

  /** One tick of a slice that is not used up. */
  lemma TickWithin<T>(s: Sched<T>, q: int)
    requires Busy(s, q) && s.current.value in s.slice && Left(s) > 1
    ensures var r := Tick(s);
            Busy(r, q) && r.current == s.current && r.current.value in r.slice && Left(r) == Left(s) - 1
  {
    hide Inv, WakeUp, Yield;
    var t := s.(ticks := Wrap32(s.ticks + 1));
    TickInv(s);
    ClockOnly(s, t.ticks);
    ChargeInv(t);
    WakeKeepsCurrent(Charge(t));
    WakeFrame(Charge(t));
  }

  lemma WakeFrame<T>(s: Sched<T>)
    ensures var r := WakeUp(s);
            r.current == s.current && r.slice == s.slice && r.quantum == s.quantum && r.preempt == s.preempt
  {
  }

  /** The tick that uses the slice up. */
  lemma TickOver<T>(s: Sched<T>, q: int)
    requires Busy(s, q) && s.current.value in s.slice && Left(s) == 1
    ensures var r := Tick(s);
            && Busy(r, q) && r.current == Some(s.ready[0]) && r.current != s.current
            && r.current.value in r.slice && Left(r) == q
  {
    hide Inv, WakeUp;
    var t := s.(ticks := Wrap32(s.ticks + 1));
    TickInv(s);
    ClockOnly(s, t.ticks);
    var u := t.(slice := t.slice[t.current.value := t.quantum]);
    SliceOnly(t, u.slice);
    YieldSwitches(u);
    YieldInv(u);
    WakeKeepsCurrent(Yield(u));
    WakeFrame(Yield(u));
  }

  lemma ModNext(n: nat, q: int)
    requires q > 0
    ensures (n + 1) % q == if n % q == q - 1 then 0 else n % q + 1
  {
    var (d, m) := (n / q, n % q);
    if m == q - 1 {
      assert n + 1 == (d + 1) * q + 0;
      ModOf(n + 1, d + 1, 0, q);
    } else {
      ModOf(n + 1, d, m + 1, q);
    }
  }

  lemma ModOf(n: int, d: int, m: int, q: int)
    requires 0 <= m < q && n == d * q + m
    ensures n % q == m
  {
    Multiple(d - n / q, n % q - m, q);
  }

  lemma Multiple(k: int, r: int, q: int)
    requires -q < r < q && k * q == r
    ensures r == 0
  {
    assert k >= 1 ==> (k - 1) * q >= 0;
    assert k <= -1 ==> (-k - 1) * q >= 0;
  }

  /** The quantum bound: from the moment a thread has been switched in, every later thread runs
      for exactly q ticks. After n ticks n % q of the slice are used, and the current thread
      changes with the next tick exactly when that tick completes a quantum. */
  lemma {:induction false} QuantumBound<T>(s: Sched<T>, q: int, n: nat)
    requires Busy(s, q) && s.current.value in s.slice && Left(s) == q
    ensures var r := Ticks(s, n);
            Busy(r, q) && r.current.value in r.slice && Left(r) == q - n % q
    ensures Ticks(s, n + 1).current != Ticks(s, n).current <==> (n + 1) % q == 0
  {
    hide Inv, Left, Tick;
    if n > 0 {
      QuantumBound(s, q, n - 1);
      TickOnce(Ticks(s, n - 1), q);
      ModNext(n - 1, q);
    } else {
      ModOf(0, 0, 0, q);
    }
    TickOnce(Ticks(s, n), q);
    ModNext(n, q);
  }

  lemma TickOnce<T>(s: Sched<T>, q: int)
    requires Busy(s, q) && s.current.value in s.slice && Left(s) >= 1
    ensures var r := Tick(s);
            && Busy(r, q) && r.current.value in r.slice
            && Left(r) == (if Left(s) == 1 then q else Left(s) - 1)
            && (r.current != s.current <==> Left(s) == 1)
  {
    hide Tick, Inv;
    if Left(s) == 1 { TickOver(s, q); } else { TickWithin(s, q); }
  }

  // ---------------------------------------------------------------- the quantum after any switch

  /** What a yield with somebody ready leaves: the head of the ready list runs with a whole quantum,
      whatever the state of the thread before it; that thread goes to the front of the list if it was
      running; and nobody else's slice, state or time changes. */
  lemma YieldGives<T>(s: Sched<T>, t: T)
    requires s.ready != []
    ensures var (next, r) := (s.ready[0], Yield(s));
            && r.current == Some(next) && r.Is(next, Running)
            && next in r.slice && r.slice[next] == s.quantum
            && (t != next ==> (t in r.slice <==> t in s.slice) && (t in s.slice ==> r.slice[t] == s.slice[t]))
            && (t != next ==> (t in r.st <==> t in s.st))
            && (t != next && t in s.st ==>
                  r.st[t] == if s.current == Some(t) && s.st[t] == Running then Ready else s.st[t])
            && (s.current.Some? && s.Is(s.current.value, Running) ==> r.ready == [s.current.value] + s.ready[1..])
            && (s.current.Some? && !s.Is(s.current.value, Running) ==> r.ready == s.ready[1..])
            && (s.current.None? ==> r.ready == s.ready[1..])
            && (r.sleeping, r.wake, r.ticks) == (s.sleeping, s.wake, s.ticks)
            && (r.quantum, r.preempt) == (s.quantum, s.preempt)
  {
    assert [] + s.ready[1..] == s.ready[1..];
  }

  /** A thread that has just been switched in. */
  ghost predicate Fresh<T>(s: Sched<T>, q: int) {
    && Inv(s) && s.preempt && s.quantum == q
    && s.current.Some? && s.Is(s.current.value, Running) && s.current.value in s.slice && Left(s) == q
  }

  lemma YieldFresh<T>(s: Sched<T>)
    requires Inv(s) && s.preempt && s.ready != []
    ensures Fresh(Yield(s), s.quantum)
  {
    hide Inv, Yield;
    YieldInv(s);
    YieldGives(s, s.ready[0]);
  }

  lemma ChargeFresh<T>(s: Sched<T>)
    requires Inv(s) && s.preempt && Charge(s).current != s.current
    ensures Fresh(Charge(s), s.quantum)
  {
    hide Inv, Fresh;
    var r := s.(slice := s.slice[s.current.value := s.quantum]);
    CurrentSliced(s);
    assert Charge(s) == Yield(r);
    SliceOnly(s, r.slice);
    YieldFresh(r);
  }

  lemma TickFresh<T>(s: Sched<T>)
    requires Inv(s) && s.preempt && Tick(s).current != s.current
    ensures Fresh(Tick(s), s.quantum)
  {
    hide Inv, Charge, WakeUp;
    var t := s.(ticks := Wrap32(s.ticks + 1));
    ClockOnly(s, t.ticks);
    WakeFrame(Charge(t));
    ChargeFresh(t);
    TickInv(s);
    WakeKeepsCurrent(Charge(t));
  }

  /** Whatever step other than sched_start changes the current thread, a yield, a tick, a sleep or an
      exit, the thread it switches to is running and has its whole quantum. */
  lemma SwitchFresh<T>(s: Sched<T>, op: Op<T>)
    requires Inv(s) && Enabled(s, op) && !op.StartOp? && s.preempt && Step(s, op).current != s.current
    ensures Fresh(Step(s, op), s.quantum)
  {
    hide Inv, Fresh, Tick, Yield;
    YieldNone(s);
    match op
    case YieldOp => YieldFresh(s);
    case TickOp => TickFresh(s);
    case SleepOp(until) =>
      BlockingInv(s, until);
      YieldNone(Blocking(s, until));
      YieldFresh(Blocking(s, until));
    case ExitOp =>
      EndingInv(s);
      YieldNone(Ending(s));
      YieldFresh(Ending(s));
    case SleepTickOp(until) =>
      BlockingInv(s, until);
      TickFresh(Blocking(s, until));
    case ExitTickOp =>
      EndingInv(s);
      TickFresh(Ending(s));
    case AddOp(_, _, _) =>
  }

  lemma YieldNone<T>(s: Sched<T>)
    ensures s.ready == [] ==> Yield(s) == s
  {
  }

  /** The quantum bound after any switch: if somebody is ready then, the thread switched to runs for
      exactly a quantum, and so does every thread after it. */
  lemma QuantumAfterSwitch<T>(s: Sched<T>, op: Op<T>, n: nat)
    requires Inv(s) && Enabled(s, op) && !op.StartOp? && s.preempt && s.quantum > 0
    requires Step(s, op).current != s.current && Step(s, op).ready != []
    ensures var r := Ticks(Step(s, op), n);
            Busy(r, s.quantum) && r.current.value in r.slice && Left(r) == s.quantum - n % s.quantum
    ensures Ticks(Step(s, op), n + 1).current != Ticks(Step(s, op), n).current <==> (n + 1) % s.quantum == 0
  {
    hide Inv, Step, Ticks;
    SwitchFresh(s, op);
    QuantumBound(Step(s, op), s.quantum, n);
  }

  lemma StepSettings<T>(s: Sched<T>, op: Op<T>)
    requires Enabled(s, op)
    ensures Step(s, op).preempt == s.preempt && Step(s, op).quantum == s.quantum
  {
    hide Yield, Charge, WakeUp;
    YieldSettings(s);
    TickSettings(s);
    if op.OfCurrent() {
      YieldSettings(Ending(s));
      TickSettings(Ending(s));
    }
    match op
    case SleepOp(until) => YieldSettings(Blocking(s, until));
    case SleepTickOp(until) => TickSettings(Blocking(s, until));
    case _ =>
  }

  lemma YieldSettings<T>(s: Sched<T>)
    ensures Yield(s).preempt == s.preempt && Yield(s).quantum == s.quantum
  {
  }

  lemma TickSettings<T>(s: Sched<T>)
    ensures Tick(s).preempt == s.preempt && Tick(s).quantum == s.quantum
  {
    WakeFrame(Charge(s.(ticks := Wrap32(s.ticks + 1))));
  }

  /** In every run from sched_init preemption is on and the quantum is 5. */
  lemma {:induction false} BootSettings<T>(ss: seq<Sched<T>>, ops: seq<Op<T>>, i: nat)
    requires Run(ss, ops) && ss[0] == Boot() && i < |ss|
    ensures ss[i].preempt && ss[i].quantum == 5
  {
    hide Step, Enabled;
    if i > 0 {
      BootSettings(ss, ops, i - 1);
      assert Follows(ss, ops, i - 1);
      StepSettings(ss[i - 1], ops[i - 1]);
    }
  }

  /** And after every switch of such a run threads run for 5 ticks each while somebody else is ready. */
  lemma BootQuantum<T>(ss: seq<Sched<T>>, ops: seq<Op<T>>, i: nat, n: nat)
    requires Run(ss, ops) && ss[0] == Boot() && i < |ops| && !ops[i].StartOp?
    requires ss[i + 1].current != ss[i].current && ss[i + 1].ready != []
    ensures var r := Ticks(ss[i + 1], n);
            r.current.Some? && r.current.value in r.slice && Left(r) == 5 - n % 5
    ensures Ticks(ss[i + 1], n + 1).current != Ticks(ss[i + 1], n).current <==> (n + 1) % 5 == 0
  {
    hide Step, Enabled, Ticks, Inv;
    RunInv(ss, ops, i);
    BootSettings(ss, ops, i);
    assert Follows(ss, ops, i);
    QuantumAfterSwitch(ss[i], ops[i], n);
  }

  // ---------------------------------------------------------------- the slice of the current thread

  /** Between steps the current thread has some of its quantum left, and no more than all of it. */
  ghost predicate Sliced<T>(s: Sched<T>) {
    s.current.Some? ==> s.current.value in s.slice && 1 <= Left(s) <= s.quantum
  }

  /** Every step but sched_start keeps this, and every step but sched_start that changes the
      current thread makes it so. */
  lemma SliceKept<T>(s: Sched<T>, op: Op<T>)
    requires Inv(s) && Enabled(s, op) && !op.StartOp? && s.quantum > 0
    requires Sliced(s) || Step(s, op).current != s.current
    ensures Sliced(Step(s, op)) && Step(s, op).quantum == s.quantum
  {
    hide Inv, Tick;
    match op
    case AddOp(t, wake, slice) => assert Inv(s) && t !in s.st ==> s.current != Some(t) by { CurrentKnown(s); }
    case TickOp => TickSliced(s);
    case SleepTickOp(until) => TickSliced(Blocking(s, until));
    case ExitTickOp => TickSliced(Ending(s));
    case _ =>
  }

  lemma TickSliced<T>(s: Sched<T>)
    requires s.quantum > 0 && (Sliced(s) || Tick(s).current != s.current)
    ensures Sliced(Tick(s)) && Tick(s).quantum == s.quantum
  {
    hide WakeUp;
    WakeFrame(Charge(s.(ticks := Wrap32(s.ticks + 1))));
  }

  lemma CurrentKnown<T>(s: Sched<T>)
    requires Inv(s)
    ensures s.current.Some? ==> s.current.value in s.st
  {
  }

  /** Started with the time slice it happens to have, a thread is within its quantum exactly
      when that slice already is. */
  lemma StartSliced<T>(s: Sched<T>)
    requires Inv(s) && s.current.None? && s.ready != []
    ensures Sliced(Start(s)) <==> s.ready[0] in s.slice && 1 <= s.slice[s.ready[0]] <= s.quantum
  {
    assert s.ready[0] in s.ready && Placed(s, s.ready[0]);
  }

  /** Of two sleepers due at once, the one that went to sleep first comes first in the ready list. */
  lemma EarlierFirst<T>(s: Sched<T>, until: u32, ticks: u32, a: T)
    requires s.current.Some? && a in s.sleeping && a != s.current.value
    requires a in s.wake && s.wake[a] <= ticks && until <= ticks
    ensures var r := WakeUp(Blocking(s, until).(ticks := ticks)).ready;
            exists i, j :: 0 <= i < j < |r| && r[i] == a && r[j] == s.current.value
  {
    var (b, t) := (s.current.value, Blocking(s, until).(ticks := ticks));
    assert t.sleeping[1..] == s.sleeping;
    SweepMembers(s.sleeping, t.wake, ticks, a);
    var woken := Sweep(s.sleeping, t.wake, ticks).1;
    var i :| 0 <= i < |woken| && woken[i] == a;
    var r := WakeUp(t).ready;
    assert r == (woken + [b]) + s.ready;
    assert r[i] == a && r[|woken|] == b;
  }

  // ---------------------------------------------------------------- who gets to run

  /** With nobody asleep, the running thread and the head of the ready list pass the processor
      to each other; the rest of the list stands still. */
  ghost predicate Pair<T>(s: Sched<T>, a: T, b: T, rest: seq<T>) {
    && Inv(s) && s.sleeping == [] && s.current.Some? && s.Is(s.current.value, Running)
    && ((s.current == Some(a) && s.ready == [b] + rest) || (s.current == Some(b) && s.ready == [a] + rest))
  }

  lemma PairYield<T>(s: Sched<T>, a: T, b: T, rest: seq<T>)
    requires Pair(s, a, b, rest)
    ensures Pair(Yield(s), a, b, rest)
  {
    YieldInv(s);
    YieldSwitches(s);
    assert s.ready[1..] == rest;
    assert Yield(s).sleeping == [];
  }

  lemma PairTick<T>(s: Sched<T>, a: T, b: T, rest: seq<T>)
    requires Pair(s, a, b, rest)
    ensures Pair(Tick(s), a, b, rest)
  {
    hide Inv, Yield;
    var t := s.(ticks := Wrap32(s.ticks + 1));
    ClockOnly(s, t.ticks);
    TickInv(s);
    CurrentSliced(t);
    var c := t.current.value;
    var u := t.(slice := t.slice[c := t.slice[c] - 1]);
    var v := t.(slice := t.slice[c := t.quantum]);
    SliceOnly(t, u.slice);
    SliceOnly(t, v.slice);
    PairYield(v, a, b, rest);
    assert Pair(Charge(t), a, b, rest);
    WakeNone(Charge(t));
  }

  lemma CurrentSliced<T>(s: Sched<T>)
    requires Inv(s) && s.current.Some?
    ensures s.current.value in s.slice
  {
    assert Placed(s, s.current.value);
  }

  lemma WakeNone<T>(s: Sched<T>)
    requires s.sleeping == []
    ensures WakeUp(s) == s
  {
    assert Sweep(s.sleeping, s.wake, s.ticks) == ([], []);
    assert [] + s.ready == s.ready;
  }

  /** Over every run of ticks and yields in any order, the third and later threads never run:
      this is no round robin. */
  lemma {:induction false} PairRun<T>(ss: seq<Sched<T>>, ops: seq<Op<T>>, a: T, b: T, rest: seq<T>, i: nat)
    requires Run(ss, ops) && Pair(ss[0], a, b, rest) && i < |ss|
    requires forall k :: 0 <= k < |ops| ==> ops[k].TickOp? || ops[k].YieldOp?
    ensures Pair(ss[i], a, b, rest)
  {
    hide Pair, Yield, Tick;
    if i > 0 {
      PairRun(ss, ops, a, b, rest, i - 1);
      assert Follows(ss, ops, i - 1);
      PairYield(ss[i - 1], a, b, rest);
      PairTick(ss[i - 1], a, b, rest);
    }
  }

  lemma {:induction false} PairTicks<T>(s: Sched<T>, a: T, b: T, rest: seq<T>, n: nat)
    requires Pair(s, a, b, rest)
    ensures Pair(Ticks(s, n), a, b, rest)
  {
    hide Pair, Tick;
    if n > 0 {
      PairTicks(s, a, b, rest, n - 1);
      PairTick(Ticks(s, n - 1), a, b, rest);
    }
  }

  ghost predicate RunsAt<T>(s: Sched<T>, t: T, n: nat) { Ticks(s, n).current == Some(t) }

  /** The one other thread gets to run after a quantum. */
  lemma OtherRuns<T>(s: Sched<T>, q: int, a: T, b: T)
    requires q > 0 && Busy(s, q) && s.current.value in s.slice && Left(s) == q
    requires Pair(s, a, b, []) && s.current == Some(a)
    ensures RunsAt(s, b, q)
  {
    hide Busy, Tick, Left, Inv;
    QuantumBound(s, q, q - 1);
    ModOf(q, 1, 0, q);
    PairTicks(s, a, b, [], q);
    SameUntil(s, q, q - 1);
  }

  lemma ThirdNever<T>(s: Sched<T>, a: T, b: T, rest: seq<T>, t: T, n: nat)
    requires Pair(s, a, b, rest) && t != a && t != b
    ensures !RunsAt(s, t, n)
  {
    hide Tick, Ticks, Inv;
    PairTicks(s, a, b, rest, n);
  }

  lemma ThirdElse<T>(s: Sched<T>)
    requires Inv(s) && s.current.Some? && s.Is(s.current.value, Running) && |s.ready| > 1
    ensures s.ready[1] in s.ready && s.ready[1] != s.ready[0] && s.ready[1] != s.current.value
  {
    assert s.ready[1] in s.ready && Placed(s, s.ready[1]);
  }

  /** With nobody asleep and nobody coming, the timer gets every ready thread to run exactly
      when there is only one. */
  lemma FairIff<T>(s: Sched<T>, q: int)
    requires Busy(s, q) && s.sleeping == [] && s.current.value in s.slice && Left(s) == q
    ensures (forall t :: t in s.ready ==> exists n :: RunsAt(s, t, n)) <==> |s.ready| == 1
  {
    hide Inv, RunsAt, Left;
    var (a, b, rest) := (s.current.value, s.ready[0], s.ready[1..]);
    assert s.ready == [b] + rest;
    assert Pair(s, a, b, rest);
    if |s.ready| == 1 {
      OtherRuns(s, q, a, b);
    } else {
      var t := s.ready[1];
      ThirdElse(s);
      forall n: nat ensures !RunsAt(s, t, n) { ThirdNever(s, a, b, rest, t, n); }
    }
  }

  function Three(): Sched<int> { Add(Add(Add(Boot(), 0, 0, 5), 1, 0, 5), 2, 0, 5) }

  /** Three threads started in turn: the first one made never runs. */
  lemma UnfairExample(n: nat)
    ensures Inv(Start(Three())) && Start(Three()).ready == [1, 0] && !RunsAt(Start(Three()), 0, n)
  {
    hide Inv;
    ThreeStarted();
    PairTicks(Start(Three()), 2, 1, [0], n);
  }

  lemma ThreeStarted()
    ensures Pair(Start(Three()), 2, 1, [0]) && Start(Three()).ready == [1, 0]
  {
    hide Inv;
    var a := Add(Boot(), 0, 0, 5);
    var b := Add(a, 1, 0, 5);
    BootInv<int>();
    AddInv(Boot(), 0, 0, 5);
    AddInv(a, 1, 0, 5);
    AddInv(b, 2, 0, 5);
    StartInv(Three());
    assert a.ready == [0] && b.ready == [1, 0] && Three().ready == [2, 1, 0];
    assert [2, 1, 0][1..] == [1, 0] == [1] + [0];
  }

  /** Up to the end of its quantum the thread stays the current one. */
  lemma {:induction false} SameUntil<T>(s: Sched<T>, q: int, n: nat)
    requires Busy(s, q) && s.current.value in s.slice && Left(s) == q && n < q
    ensures Ticks(s, n).current == s.current
  {
    hide Busy, Left, Tick;
    if n > 0 {
      SameUntil(s, q, n - 1);
      QuantumBound(s, q, n - 1);
      ModOf(n, 0, n, q);
    }
  }

  /** A thread that sleeps with nobody to run instead stays current while it is blocked, and the
      tick that reaches its time makes it ready while it is still current. */
  lemma WokenWhileCurrent<T>(s: Sched<T>, until: u32)
    requires Inv(s) && s.current.Some? && s.Is(s.current.value, Running) && s.ready == []
    ensures var r := Sleep(s, until);
            && r.current == s.current && s.current.value in r.sleeping
            && (s.current.value in Tick(r).ready <==> until <= Wrap32(s.ticks + 1))
            && Tick(r).current == s.current
  {
    hide Inv;
    var (c, r) := (s.current.value, Sleep(s, until));
    SleepInv(s, until);
    TickInv(r);
    var u := Charge(r.(ticks := Wrap32(r.ticks + 1)));
    assert u.ready == [] && u.sleeping == r.sleeping && u.current == s.current;
    SweepMembers(u.sleeping, u.wake, u.ticks, c);
  }
}
