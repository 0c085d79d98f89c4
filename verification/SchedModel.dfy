/**
  The thread scheduler as a machine whose steps are the calls that reach it (kernel/sched.c,
  with sleep and exit as kernel/thread.c does them), and what every run of steps keeps.
 */
module SchedModel {
  import opened CTypes
  import opened Options

  datatype Status = New | Ready | Running | Blocked | Terminated

  /** The ready list and the sleep list from their heads, the current thread, and per thread
      its state, wake-up time and time slice. */
  datatype Sched<T> = Sched(
    ready: seq<T>, sleeping: seq<T>, current: Option<T>,
    st: map<T, Status>, wake: map<T, u32>, slice: map<T, int>,
    ticks: u32, quantum: int, preempt: bool)
  {
    ghost predicate Is(t: T, x: Status) { t in st && st[t] == x }
  }

  ghost predicate Distinct<T>(s: seq<T>) { forall i, j :: 0 <= i < j < |s| ==> s[i] != s[j] }

  // ---------------------------------------------------------------- steps

  /** sched_yield: the head of the ready list becomes current; a running current thread goes
      back to the front of the list first. */
  function Yield<T>(s: Sched<T>): Sched<T> {
    if s.ready == [] then s
    else
      var next := s.ready[0];
      var back := s.current.Some? && s.current.value in s.st && s.st[s.current.value] == Running;
      s.(ready := (if back then [s.current.value] else []) + s.ready[1..],
         st := (if back then s.st[s.current.value := Ready] else s.st)[next := Running],
         slice := s.slice[next := s.quantum],
         current := Some(next))
  }

  /** A sleeper whose time has come. */
  predicate Due<T>(wake: map<T, u32>, ticks: u32, t: T) { t in wake && wake[t] <= ticks }

  /** check_sleeping_threads on the rest of the sleep list: what stays, and what was woken, the
      last one first. */
  function Sweep<T>(sleeping: seq<T>, wake: map<T, u32>, ticks: u32): (r: (seq<T>, seq<T>)) {
    if sleeping == [] then ([], [])
    else
      var (stay, woken) := Sweep(sleeping[1..], wake, ticks);
      if Due(wake, ticks, sleeping[0]) then (stay, woken + [sleeping[0]])
      else ([sleeping[0]] + stay, woken)
  }

  function SetAll<T>(st: map<T, Status>, ts: seq<T>, x: Status): map<T, Status> {
    if ts == [] then st else SetAll(st, ts[1..], x)[ts[0] := x]
  }

  /** check_sleeping_threads. */
  function WakeUp<T>(s: Sched<T>): Sched<T> {
    var (stay, woken) := Sweep(s.sleeping, s.wake, s.ticks);
    s.(sleeping := stay, ready := woken + s.ready, st := SetAll(s.st, woken, Ready))
  }

  /** The slice part of sched_tick. */
  function Charge<T>(s: Sched<T>): Sched<T> {
    if s.current.None? || s.current.value !in s.slice then s
    else
      var c := s.current.value;
      if s.slice[c] - 1 > 0 then s.(slice := s.slice[c := s.slice[c] - 1])
      else
        var r := s.(slice := s.slice[c := s.quantum]);
        if s.preempt then Yield(r) else r
  }

  /** A timer interrupt: the tick counter, then sched_tick, which does nothing more when no
      thread is current. */
  function Tick<T>(s: Sched<T>): Sched<T> {
    var t := s.(ticks := Wrap32(s.ticks + 1));
    if t.current.None? then t else WakeUp(Charge(t))
  }

  /** A created thread is put at the front of the ready list: sched_add_thread. Its time slice
      is whatever the memory held. */
  function Add<T>(s: Sched<T>, t: T, wake: u32, slice: int): Sched<T> {
    s.(ready := [t] + s.ready, st := s.st[t := Ready], wake := s.wake[t := wake], slice := s.slice[t := slice])
  }

  /** The current thread is put to sleep, and marked as ended. */
  function Blocking<T>(s: Sched<T>, until: u32): Sched<T>
    requires s.current.Some?
  {
    var c := s.current.value;
    s.(st := s.st[c := Blocked], wake := s.wake[c := until], sleeping := [c] + s.sleeping)
  }

  function Ending<T>(s: Sched<T>): Sched<T>
    requires s.current.Some?
  {
    s.(st := s.st[s.current.value := Terminated])
  }

  /** thread_sleep and thread_exit, followed by a yield. */
  function Sleep<T>(s: Sched<T>, until: u32): Sched<T>
    requires s.current.Some?
  {
    Yield(Blocking(s, until))
  }

  function Exit<T>(s: Sched<T>): Sched<T>
    requires s.current.Some?
  {
    Yield(Ending(s))
  }

  /** sched_start: the head of the ready list runs, with the time slice it has. */
  function Start<T>(s: Sched<T>): Sched<T> {
    if s.ready == [] then s
    else s.(ready := s.ready[1..], st := s.st[s.ready[0] := Running], current := Some(s.ready[0]))
  }

  /** thread_yield is the timer's interrupt, so what follows a sleep or an exit may be a tick in
      place of a yield. */
  datatype Op<T> =
    | AddOp(t: T, wake: u32, slice: int) | YieldOp | TickOp | StartOp
    | SleepOp(until: u32) | ExitOp | SleepTickOp(until: u32) | ExitTickOp
  {
    predicate OfCurrent() { SleepOp? || ExitOp? || SleepTickOp? || ExitTickOp? }
  }

  /** When a step can be taken: a new thread is added, the running thread sleeps or exits, and
      the scheduler is started once. */
  ghost predicate Enabled<T>(s: Sched<T>, op: Op<T>) {
    if op.AddOp? then op.t !in s.st
    else if op.StartOp? then s.current.None?
    else op.OfCurrent() ==> s.current.Some? && s.Is(s.current.value, Running)
  }

  function Step<T>(s: Sched<T>, op: Op<T>): Sched<T>
    requires op.OfCurrent() ==> s.current.Some?
  {
    match op
    case AddOp(t, wake, slice) => Add(s, t, wake, slice)
    case YieldOp => Yield(s)
    case TickOp => Tick(s)
    case StartOp => Start(s)
    case SleepOp(until) => Sleep(s, until)
    case ExitOp => Exit(s)
    case SleepTickOp(until) => Tick(Blocking(s, until))
    case ExitTickOp => Tick(Ending(s))
  }

  // ---------------------------------------------------------------- the invariant

  /** Where a thread is says what its state is, and the other way round. */
  ghost predicate Placed<T>(s: Sched<T>, t: T)
    requires t in s.st
  {
    && t in s.wake && t in s.slice && s.st[t] != New
    && (t in s.ready <==> s.st[t] == Ready)
    && (t in s.sleeping <==> s.st[t] == Blocked)
    && (s.st[t] == Running ==> s.current == Some(t))
  }

  ghost predicate Inv<T>(s: Sched<T>) {
    && Distinct(s.ready) && Distinct(s.sleeping)
    && (forall t :: t in s.ready ==> t in s.st)
    && (forall t :: t in s.sleeping ==> t in s.st)
    && (s.current.Some? ==> s.current.value in s.st)
    && (forall t :: t in s.st ==> Placed(s, t))
  }

  /** The threads that have not terminated. */
  ghost function Live<T>(s: Sched<T>): set<T> {
    set t | t in s.st && s.st[t] != Terminated
  }

  /** They are the current thread, the ready ones and the sleeping ones, leaving out a current
      thread that has terminated and not been replaced yet. */
  lemma LiveAre<T>(s: Sched<T>, t: T)
    requires Inv(s)
    ensures t in Live(s) <==>
            t in s.ready || t in s.sleeping || (s.current == Some(t) && !s.Is(t, Terminated))
  {
    if t in s.st { assert Placed(s, t); }
  }

  /** A yield puts every thread where its new state says. */
  lemma YieldPlaced<T>(s: Sched<T>, t: T)
    requires Inv(s) && s.ready != [] && t in s.st
    ensures t in Yield(s).st && Placed(Yield(s), t)
    ensures Yield(s).st[t] == Terminated <==> s.st[t] == Terminated
  {
    var next := s.ready[0];
    assert next in s.ready && Placed(s, next) && Placed(s, t);
    assert t in s.ready <==> t == next || t in s.ready[1..];
    assert next !in s.ready[1..] by { assert forall j :: 0 < j < |s.ready| ==> s.ready[0] != s.ready[j]; }
    if s.current.Some? { assert Placed(s, s.current.value); }
  }

  lemma DistinctRest<T>(s: seq<T>)
    requires Distinct(s) && s != []
    ensures Distinct(s[1..])
  {
  }

  lemma DistinctFront<T>(t: T, s: seq<T>)
    requires Distinct(s) && t !in s
    ensures Distinct([t] + s)
  {
    DistinctConcat([t], s);
  }

  lemma YieldDistinct<T>(s: Sched<T>)
    requires Inv(s)
    ensures Distinct(Yield(s).ready)
  {
    hide Distinct;
    if s.ready != [] {
      var rest := s.ready[1..];
      DistinctRest(s.ready);
      if s.current.Some? && s.Is(s.current.value, Running) {
        var c := s.current.value;
        assert Placed(s, c) && forall t :: t in rest ==> t in s.ready;
        DistinctFront(c, rest);
        assert Yield(s).ready == [c] + rest;
      } else {
        assert Yield(s).ready == [] + rest == rest;
      }
    }
  }

  lemma YieldInv<T>(s: Sched<T>)
    requires Inv(s)
    ensures Inv(Yield(s)) && Live(Yield(s)) == Live(s)
  {
    hide Distinct;
    if s.ready != [] {
      var r := Yield(s);
      YieldDistinct(s);
      assert s.ready[0] in s.ready && forall t :: t in s.ready[1..] ==> t in s.ready;
      forall t | t in r.st ensures t in s.st && Placed(r, t) && (r.st[t] == Terminated <==> s.st[t] == Terminated) {
        YieldPlaced(s, t);
      }
    }
  }

  // ---------------------------------------------------------------- the wake-up sweep

  /** The members of s that p picks, in order. */
  function Pick<T>(s: seq<T>, wake: map<T, u32>, ticks: u32, due: bool): seq<T> {
    if s == [] then []
    else (if Due(wake, ticks, s[0]) == due then [s[0]] else []) + Pick(s[1..], wake, ticks, due)
  }

  function Reverse<T>(s: seq<T>): seq<T> {
    if s == [] then [] else Reverse(s[1..]) + [s[0]]
  }

  /** The sweep keeps exactly the sleepers that are not due, in order, and wakes exactly those
      that are, in reverse. */
  lemma {:induction false} SweepIs<T>(sleeping: seq<T>, wake: map<T, u32>, ticks: u32)
    ensures Sweep(sleeping, wake, ticks) ==
        (Pick(sleeping, wake, ticks, false), Reverse(Pick(sleeping, wake, ticks, true)))
  {
    if sleeping != [] {
      SweepIs(sleeping[1..], wake, ticks);
      var (t, rest) := (sleeping[0], Pick(sleeping[1..], wake, ticks, true));
      assert ([t] + rest)[1..] == rest && Reverse([t] + rest) == Reverse(rest) + [t];
      var stay := Pick(sleeping[1..], wake, ticks, false);
      if Due(wake, ticks, t) {
        assert Pick(sleeping, wake, ticks, true) == [t] + rest &&
            Pick(sleeping, wake, ticks, false) == [] + stay == stay;
      } else {
        assert Pick(sleeping, wake, ticks, true) == [] + rest == rest &&
            Pick(sleeping, wake, ticks, false) == [t] + stay;
      }
    }
  }

  lemma {:induction false} SweepMembers<T>(sleeping: seq<T>, wake: map<T, u32>, ticks: u32, t: T)
    ensures var (stay, woken) := Sweep(sleeping, wake, ticks);
            && (t in stay <==> t in sleeping && !Due(wake, ticks, t))
            && (t in woken <==> t in sleeping && Due(wake, ticks, t))
  {
    if sleeping != [] { SweepMembers(sleeping[1..], wake, ticks, t); }
  }

  lemma {:induction false} SweepDistinct<T>(sleeping: seq<T>, wake: map<T, u32>, ticks: u32)
    requires Distinct(sleeping)
    ensures Distinct(Sweep(sleeping, wake, ticks).0) && Distinct(Sweep(sleeping, wake, ticks).1)
  {
    if sleeping != [] {
      var rest := sleeping[1..];
      SweepDistinct(rest, wake, ticks);
      var (stay, woken) := Sweep(rest, wake, ticks);
      assert sleeping[0] !in rest by { assert forall j :: 0 < j < |sleeping| ==> sleeping[0] != sleeping[j]; }
      forall i | 0 <= i < |stay| ensures stay[i] != sleeping[0] { SweepMembers(rest, wake, ticks, stay[i]); }
      forall i | 0 <= i < |woken| ensures woken[i] != sleeping[0] { SweepMembers(rest, wake, ticks, woken[i]); }
    }
  }

  lemma {:induction false} SetAllAt<T>(st: map<T, Status>, ts: seq<T>, x: Status, t: T)
    ensures t in SetAll(st, ts, x) <==> t in st || t in ts
    ensures t in SetAll(st, ts, x) ==> SetAll(st, ts, x)[t] == if t in ts then x else st[t]
  {
    if ts != [] { SetAllAt(st, ts[1..], x, t); }
  }

  lemma DistinctConcat<T>(a: seq<T>, b: seq<T>)
    requires Distinct(a) && Distinct(b) && forall t :: t in a ==> t !in b
    ensures Distinct(a + b)
  {
    forall i, j | 0 <= i < j < |a + b| ensures (a + b)[i] != (a + b)[j] {
      if i < |a| <= j { assert a[i] !in b; }
    }
  }

  lemma WakePlaced<T>(s: Sched<T>, t: T)
    requires Inv(s)
    ensures t in WakeUp(s).st <==> t in s.st
    ensures t in s.st ==> Placed(WakeUp(s), t)
    ensures t in s.st ==> (WakeUp(s).st[t] == Terminated <==> s.st[t] == Terminated)
    ensures (t in WakeUp(s).ready ==> t in s.st) && (t in WakeUp(s).sleeping ==> t in s.st)
  {
    SweepMembers(s.sleeping, s.wake, s.ticks, t);
    SetAllAt(s.st, Sweep(s.sleeping, s.wake, s.ticks).1, Ready, t);
    if t in s.st { assert Placed(s, t); }
  }

  lemma WakeInv<T>(s: Sched<T>)
    requires Inv(s)
    ensures Inv(WakeUp(s)) && Live(WakeUp(s)) == Live(s)
  {
    var (r, (stay, woken)) := (WakeUp(s), Sweep(s.sleeping, s.wake, s.ticks));
    SweepDistinct(s.sleeping, s.wake, s.ticks);
    forall t | t in woken ensures t !in s.ready {
      SweepMembers(s.sleeping, s.wake, s.ticks, t);
      assert Placed(s, t);
    }
    DistinctConcat(woken, s.ready);
    forall t | t in r.st || t in s.st || t in r.ready || t in r.sleeping
      ensures t in r.st && t in s.st && Placed(r, t) && (r.st[t] == Terminated <==> s.st[t] == Terminated)
    {
      WakePlaced(s, t);
    }
    assert s.current.Some? ==> s.current.value in r.st;
  }

  /** WakeUp when the sweep has reached sleeper k. */
  function WakeFrom<T>(s: Sched<T>, k: nat): Sched<T>
    requires k <= |s.sleeping|
  {
    var (stay, woken) := Sweep(s.sleeping[k..], s.wake, s.ticks);
    s.(sleeping := s.sleeping[..k] + stay, ready := woken + s.ready, st := SetAll(s.st, woken, Ready))
  }

  /** Sleeper k woken. */
  function WakeAt<T>(s: Sched<T>, k: nat): Sched<T>
    requires k < |s.sleeping|
  {
    var t := s.sleeping[k];
    s.(sleeping := s.sleeping[..k] + s.sleeping[k + 1..], ready := [t] + s.ready, st := s.st[t := Ready])
  }

  lemma WakeFromStart<T>(s: Sched<T>)
    ensures WakeFrom(s, 0) == WakeUp(s)
  {
    assert s.sleeping[0..] == s.sleeping;
    var (stay, woken) := Sweep(s.sleeping, s.wake, s.ticks);
    assert [] + stay == stay;
  }

  lemma WakeFromEnd<T>(s: Sched<T>)
    ensures WakeFrom(s, |s.sleeping|) == s
  {
    assert s.sleeping[|s.sleeping|..] == [];
    assert s.sleeping[..|s.sleeping|] + [] == s.sleeping && [] + s.ready == s.ready;
  }

  lemma WakeFromStay<T>(s: Sched<T>, k: nat)
    requires k < |s.sleeping| && !Due(s.wake, s.ticks, s.sleeping[k])
    ensures WakeFrom(s, k + 1) == WakeFrom(s, k)
  {
    var (t, rest) := (s.sleeping[k], s.sleeping[k..][1..]);
    assert rest == s.sleeping[k + 1..];
    var stay := Sweep(rest, s.wake, s.ticks).0;
    assert s.sleeping[..k + 1] + stay == s.sleeping[..k] + ([t] + stay);
  }

  lemma WakeFromWake<T>(s: Sched<T>, k: nat)
    requires k < |s.sleeping| && Due(s.wake, s.ticks, s.sleeping[k])
    ensures WakeFrom(WakeAt(s, k), k) == WakeFrom(s, k)
  {
    var (t, rest) := (s.sleeping[k], s.sleeping[k..][1..]);
    assert rest == s.sleeping[k + 1..];
    assert WakeAt(s, k).sleeping[k..] == rest && WakeAt(s, k).sleeping[..k] == s.sleeping[..k];
    var woken := Sweep(rest, s.wake, s.ticks).1;
    assert woken + ([t] + s.ready) == (woken + [t]) + s.ready;
    SetAllSnoc(s.st, woken, Ready, t);
  }

  lemma {:induction false} SetAllSnoc<T>(st: map<T, Status>, ts: seq<T>, x: Status, t: T)
    ensures SetAll(st, ts + [t], x) == SetAll(st[t := x], ts, x)
  {
    if ts != [] {
      assert (ts + [t])[1..] == ts[1..] + [t];
      SetAllSnoc(st, ts[1..], x, t);
    }
  }

  lemma NobodyTwice<T>(s: Sched<T>)
    requires Inv(s)
    ensures forall t :: t in s.sleeping ==> t !in s.ready
  {
    forall t | t in s.sleeping ensures t !in s.ready { assert Placed(s, t); }
  }

  lemma RunningNowhere<T>(s: Sched<T>)
    requires Inv(s) && s.current.Some? && s.Is(s.current.value, Running)
    ensures s.current.value !in s.ready && s.current.value !in s.sleeping
  {
    assert Placed(s, s.current.value);
  }

  // ---------------------------------------------------------------- every step keeps the invariant

  lemma ChargeInv<T>(s: Sched<T>)
    requires Inv(s)
    ensures Inv(Charge(s)) && Live(Charge(s)) == Live(s)
  {
    if s.current.Some? {
      var c := s.current.value;
      assert Placed(s, c);
      var r := s.(slice := s.slice[c := s.quantum]);
      SliceOnly(s, s.slice[c := s.quantum]);
      SliceOnly(s, s.slice[c := s.slice[c] - 1]);
      if s.preempt { YieldInv(r); }
    }
  }

  lemma SliceOnly<T>(s: Sched<T>, slice: map<T, int>)
    requires Inv(s) && slice.Keys >= s.slice.Keys
    ensures Inv(s.(slice := slice)) && Live(s.(slice := slice)) == Live(s)
  {
    forall t | t in s.st ensures Placed(s.(slice := slice), t) { assert Placed(s, t); }
  }

  lemma ClockOnly<T>(s: Sched<T>, ticks: u32)
    requires Inv(s)
    ensures Inv(s.(ticks := ticks)) && Live(s.(ticks := ticks)) == Live(s)
  {
    forall x | x in s.st ensures Placed(s.(ticks := ticks), x) { assert Placed(s, x); }
  }

  lemma TickInv<T>(s: Sched<T>)
    requires Inv(s)
    ensures Inv(Tick(s)) && Live(Tick(s)) == Live(s)
  {
    hide Charge, WakeUp;
    var t := s.(ticks := Wrap32(s.ticks + 1));
    ClockOnly(s, t.ticks);
    if t.current.Some? {
      ChargeInv(t);
      WakeInv(Charge(t));
    }
  }

  lemma AddInv<T>(s: Sched<T>, t: T, wake: u32, slice: int)
    requires Inv(s) && t !in s.st
    ensures Inv(Add(s, t, wake, slice)) && Live(Add(s, t, wake, slice)) == Live(s) + {t}
  {
    var r := Add(s, t, wake, slice);
    DistinctConcat([t], s.ready);
    forall x | x in r.st ensures Placed(r, x) { if x != t { assert Placed(s, x); } }
  }

  lemma BlockingInv<T>(s: Sched<T>, until: u32)
    requires Inv(s) && s.current.Some? && s.Is(s.current.value, Running)
    ensures Inv(Blocking(s, until)) && Live(Blocking(s, until)) == Live(s)
  {
    var (c, b) := (s.current.value, Blocking(s, until));
    assert Placed(s, c);
    DistinctConcat([c], s.sleeping);
    forall x | x in b.st ensures Placed(b, x) { assert Placed(s, x); }
  }

  lemma EndingInv<T>(s: Sched<T>)
    requires Inv(s) && s.current.Some? && s.Is(s.current.value, Running)
    ensures Inv(Ending(s)) && Live(Ending(s)) == Live(s) - {s.current.value}
  {
    var b := Ending(s);
    assert Placed(s, s.current.value);
    forall x | x in b.st ensures Placed(b, x) { assert Placed(s, x); }
  }

  lemma SleepInv<T>(s: Sched<T>, until: u32)
    requires Inv(s) && s.current.Some? && s.Is(s.current.value, Running)
    ensures Inv(Sleep(s, until)) && Live(Sleep(s, until)) == Live(s)
  {
    BlockingInv(s, until);
    YieldInv(Blocking(s, until));
  }

  lemma ExitInv<T>(s: Sched<T>)
    requires Inv(s) && s.current.Some? && s.Is(s.current.value, Running)
    ensures Inv(Exit(s)) && Live(Exit(s)) == Live(s) - {s.current.value}
  {
    EndingInv(s);
    YieldInv(Ending(s));
  }

  lemma StartInv<T>(s: Sched<T>)
    requires Inv(s) && s.current.None?
    ensures Inv(Start(s)) && Live(Start(s)) == Live(s)
  {
    if s.ready != [] {
      var (r, next) := (Start(s), s.ready[0]);
      assert next in s.ready && Placed(s, next);
      assert forall t :: t in s.ready <==> t == next || t in s.ready[1..];
      assert next !in s.ready[1..] by { assert forall j :: 0 < j < |s.ready| ==> s.ready[0] != s.ready[j]; }
      forall t | t in r.st ensures Placed(r, t) { assert Placed(s, t); }
    }
  }

  /** The live threads after a step: only a new thread joins, only the one that exits leaves. */
  ghost function LiveAfter<T>(s: Sched<T>, op: Op<T>): set<T>
    requires Enabled(s, op)
  {
    match op
    case AddOp(t, _, _) => Live(s) + {t}
    case ExitOp => Live(s) - {s.current.value}
    case ExitTickOp => Live(s) - {s.current.value}
    case _ => Live(s)
  }

  lemma StepInv<T>(s: Sched<T>, op: Op<T>)
    requires Inv(s) && Enabled(s, op)
    ensures Inv(Step(s, op)) && Live(Step(s, op)) == LiveAfter(s, op)
  {
    match op
    case AddOp(t, wake, slice) => AddInv(s, t, wake, slice);
    case YieldOp => YieldInv(s);
    case TickOp => TickInv(s);
    case SleepOp(until) => SleepInv(s, until);
    case ExitOp => ExitInv(s);
    case StartOp => StartInv(s);
    case SleepTickOp(until) => BlockingInv(s, until); TickInv(Blocking(s, until));
    case ExitTickOp => EndingInv(s); TickInv(Ending(s));
  }

  /** State i + 1 of a run is what an enabled step makes of state i. */
  ghost predicate Follows<T>(ss: seq<Sched<T>>, ops: seq<Op<T>>, i: nat)
    requires i + 1 < |ss| && i < |ops|
  {
    Enabled(ss[i], ops[i]) && ss[i + 1] == Step(ss[i], ops[i])
  }

  ghost predicate Run<T>(ss: seq<Sched<T>>, ops: seq<Op<T>>) {
    |ss| == |ops| + 1 && Inv(ss[0]) && forall i :: 0 <= i < |ops| ==> Follows(ss, ops, i)
  }

  /** Scheduler safety over every run. */
  lemma {:induction false} RunInv<T>(ss: seq<Sched<T>>, ops: seq<Op<T>>, i: nat)
    requires Run(ss, ops) && i < |ss|
    ensures Inv(ss[i])
    ensures i < |ops| ==> Enabled(ss[i], ops[i]) && Live(ss[i + 1]) == LiveAfter(ss[i], ops[i])
  {
    if i > 0 {
      RunInv(ss, ops, i - 1);
      assert Follows(ss, ops, i - 1);
      StepInv(ss[i - 1], ops[i - 1]);
    }
    if i < |ops| {
      assert Follows(ss, ops, i);
      StepInv(ss[i], ops[i]);
    }
  }

  /** Sleeping twice: a current thread that has been woken into the ready list, or still
      sleeps, may not sleep again. The step keeps the invariant exactly when it is running. */
  lemma SleepKeepsIff<T>(s: Sched<T>, until: u32)
    requires Inv(s) && s.current.Some? && !s.Is(s.current.value, Terminated)
    ensures Inv(Sleep(s, until)) <==> s.Is(s.current.value, Running)
  {
    var (c, r) := (s.current.value, Sleep(s, until));
    assert Placed(s, c);
    if s.st[c] == Running {
      SleepInv(s, until);
    } else {
      var b := Blocking(s, until);
      if s.st[c] == Blocked {
        var i :| 0 <= i < |s.sleeping| && s.sleeping[i] == c;
        assert r.sleeping[0] == r.sleeping[i + 1];
      } else {
        assert c in s.ready && c in r.sleeping;
        assert c in r.ready || r.st[c] == Running by {
          assert forall t :: t in s.ready <==> t == s.ready[0] || t in s.ready[1..];
        }
        assert Inv(r) ==> Placed(r, c);
      }
    }
  }

  /** Exiting is for the running thread too: the step keeps the invariant and takes just that
      thread away exactly when it is running. */
  lemma ExitKeepsIff<T>(s: Sched<T>)
    requires Inv(s) && s.current.Some? && !s.Is(s.current.value, Terminated)
    ensures Inv(Exit(s)) && Live(Exit(s)) == Live(s) - {s.current.value} <==> s.Is(s.current.value, Running)
  {
    var (c, r) := (s.current.value, Exit(s));
    assert Placed(s, c);
    if s.st[c] == Running {
      ExitInv(s);
    } else {
      assert s.st[c] == Ready ==> c in s.ready;
      assert forall t :: t in s.ready ==> t == s.ready[0] || t in s.ready[1..];
      assert Inv(r) ==> Placed(r, c);
      assert r.Is(c, Running) ==> c in Live(r);
    }
  }

  /** A thread that sleeps with nobody ready stays current. Exiting then leaves an ended thread in
      the sleep list, and the sweep makes it ready again. */
  lemma ExitAsleep<T>(s: Sched<T>, until: u32)
    requires Inv(s) && s.current.Some? && s.Is(s.current.value, Running) && s.ready == []
    ensures var (c, r) := (s.current.value, Exit(Sleep(s, until)));
            && !Inv(r) && r.Is(c, Terminated) && c in r.sleeping
            && (until <= Wrap32(s.ticks + 1) ==> Tick(r).Is(c, Ready) && c in Tick(r).ready)
  {
    hide Inv, Tick;
    var (c, b) := (s.current.value, Blocking(s, until));
    var r := Ending(b);
    assert Sleep(s, until) == b && Exit(Sleep(s, until)) == r;
    assert r.sleeping[0] == c;
    EndedAsleep(r, c);
    EndedWakes(r, c);
  }

  lemma EndedAsleep<T>(r: Sched<T>, c: T)
    requires c in r.sleeping && r.Is(c, Terminated)
    ensures !Inv(r)
  {
    assert Inv(r) ==> Placed(r, c);
  }

  lemma EndedWakes<T>(r: Sched<T>, c: T)
    requires r.current == Some(c) && c in r.sleeping && c in r.wake && r.ready == []
    ensures r.wake[c] <= Wrap32(r.ticks + 1) ==> Tick(r).Is(c, Ready) && c in Tick(r).ready
  {
    var u := Charge(r.(ticks := Wrap32(r.ticks + 1)));
    assert u.ready == [] && u.sleeping == r.sleeping && u.wake == r.wake && u.st == r.st;
    SweepMembers(u.sleeping, u.wake, u.ticks, c);
    SetAllAt(u.st, Sweep(u.sleeping, u.wake, u.ticks).1, Ready, c);
  }

  const BOOT_QUANTUM := 5

  /** sched_init. */
  function Boot<T(==)>(): Sched<T> { Sched([], [], None, map[], map[], map[], 0, BOOT_QUANTUM, true) }

  lemma BootInv<T>()
    ensures Inv(Boot<T>()) && Live(Boot<T>()) == {}
  {
  }

  /** Such a state is reached by adding one thread and starting. */
  lemma ExitAsleepReached<T>(t: T, wake: u32, slice: int, until: u32)
    ensures var s := Start(Add(Boot(), t, wake, slice));
            && Inv(s) && s.current == Some(t) && s.Is(t, Running) && s.ready == []
            && !Inv(Exit(Sleep(s, until)))
  {
    var s := Start(Add(Boot(), t, wake, slice));
    BootInv<T>();
    AddInv(Boot(), t, wake, slice);
    StartInv(Add(Boot(), t, wake, slice));
    assert ([t] + [])[1..] == [];
    ExitAsleep(s, until);
  }
}
