/**
  The scheduler on its linked lists (kernel/sched.c): threads joined through their own link
  fields, and every routine equal to its step of SchedModel on the lists those links spell.
 */
module Sched {
  import opened CTypes
  import opened Options
  import opened SchedModel

  class Thread {
    var next: Thread?
    var nextSleeping: Thread?
    var state: Status
    var wakeup: u32
    var timeSlice: int

    /** thread_create, as far as scheduling goes; what is not set is whatever was there. */
    constructor (wakeup: u32, timeSlice: int)
      ensures state == Ready && this.wakeup == wakeup && this.timeSlice == timeSlice
    {
      state := Ready;
      this.wakeup := wakeup;
      this.timeSlice := timeSlice;
    }
  }

  function At(ts: seq<Thread>, i: nat): Thread? { if i < |ts| then ts[i] else null }

  function Opt(t: Thread?): Option<Thread> { if t == null then None else Some(t) }

  lemma DistinctCut(ts: seq<Thread>, k: nat)
    requires Distinct(ts) && k < |ts|
    ensures Distinct(ts[..k] + ts[k + 1..]) && ts[k] !in ts[..k] + ts[k + 1..]
  {
    var r := ts[..k] + ts[k + 1..];
    assert forall i :: 0 <= i < |r| ==> r[i] == ts[if i < k then i else i + 1];
  }

  lemma DistinctTail(ts: seq<Thread>)
    requires Distinct(ts) && ts != []
    ensures Distinct(ts[1..]) && ts[0] !in ts[1..] && forall t :: t in ts[1..] ==> t in ts
  {
    assert forall j :: 0 < j < |ts| ==> ts[0] != ts[j];
  }

  lemma Apart(ts: seq<Thread>, i: nat, j: nat)
    requires Distinct(ts) && i < |ts| && j < |ts| && i != j
    ensures ts[i] != ts[j]
  {
  }

  /** The list without a thread. */
  function Without(ts: seq<Thread>, t: Thread): seq<Thread> {
    if ts == [] then [] else if ts[0] == t then ts[1..] else [ts[0]] + Without(ts[1..], t)
  }

  lemma {:induction false} WithoutAt(ts: seq<Thread>, t: Thread, i: nat)
    requires i < |ts| && ts[i] == t && forall k :: 0 <= k < i ==> ts[k] != t
    ensures Without(ts, t) == ts[..i] + ts[i + 1..]
  {
    if i > 0 { WithoutAt(ts[1..], t, i - 1); }
  }

  lemma {:induction false} WithoutNone(ts: seq<Thread>, t: Thread)
    requires t !in ts
    ensures Without(ts, t) == ts
  {
    if ts != [] { WithoutNone(ts[1..], t); }
  }

  class Scheduler {
    var readyQueue: Thread?
    var sleepingThreads: Thread?
    var currentThread: Thread?
    var timerTicks: u32
    var rrQuantum: int
    var preemptEnabled: bool

    ghost var ready: seq<Thread>
    ghost var sleeping: seq<Thread>
    ghost var pool: set<Thread>

    ghost predicate NextOk(i: nat)
      requires i < |ready|
      reads this`ready, {ready[i]}`next
    {
      ready[i].next == At(ready, i + 1)
    }

    ghost predicate SleepOk(i: nat)
      requires i < |sleeping|
      reads this`sleeping, {sleeping[i]}`nextSleeping
    {
      sleeping[i].nextSleeping == At(sleeping, i + 1)
    }

    ghost predicate ReadyLinked()
      reads this`ready, this`readyQueue, this`pool, pool`next
    {
      && (forall t :: t in ready ==> t in pool) && Distinct(ready)
      && readyQueue == At(ready, 0) && forall i :: 0 <= i < |ready| ==> NextOk(i)
    }

    ghost predicate SleepLinked()
      reads this`sleeping, this`sleepingThreads, this`pool, pool`nextSleeping
    {
      && (forall t :: t in sleeping ==> t in pool) && Distinct(sleeping)
      && sleepingThreads == At(sleeping, 0) && forall i :: 0 <= i < |sleeping| ==> SleepOk(i)
    }

    /** The links spell the two lists. */
    ghost predicate Linked()
      reads this`ready, this`readyQueue, this`sleeping, this`sleepingThreads, this`currentThread, this`pool, pool`next,
          pool`nextSleeping
    {
      ReadyLinked() && SleepLinked() && (currentThread != null ==> currentThread in pool)
    }

    ghost function States(): map<Thread, Status>
      reads this`pool, pool`state
    {
      map t | t in pool :: t.state
    }

    ghost function Wakeups(): map<Thread, u32>
      reads this`pool, pool`wakeup
    {
      map t | t in pool :: t.wakeup
    }

    ghost function Slices(): map<Thread, int>
      reads this`pool, pool`timeSlice
    {
      map t | t in pool :: t.timeSlice
    }

    ghost function Abs(): Sched<Thread>
      reads this, pool
    {
      Sched(ready, sleeping, Opt(currentThread),
        States(), Wakeups(), Slices(),
        timerTicks, rrQuantum, preemptEnabled)
    }

    ghost predicate Valid()
      reads this, pool
    {
      Linked() && Inv(Abs())
    }

    /** sched_init. */
    constructor ()
      ensures Valid() && pool == {} && Abs() == Boot()
    {
      readyQueue, sleepingThreads, currentThread := null, null, null;
      timerTicks, rrQuantum, preemptEnabled := 0, 5, true;
      ready, sleeping, pool := [], [], {};
    }

    method SetState(t: Thread, x: Status)
      requires Linked() && t in pool
      modifies t`state
      ensures Linked() && t.state == x && Abs() == old(Abs()).(st := old(Abs()).st[t := x])
    {
      t.state := x;
    }

    method SetSlice(t: Thread, x: int)
      requires Linked() && t in pool
      modifies t`timeSlice
      ensures Linked() && Abs() == old(Abs()).(slice := old(Abs()).slice[t := x])
    {
      t.timeSlice := x;
    }

    /** sched_add_thread. */
    method AddThread(t: Thread)
      requires Linked() && t in pool && t !in ready
      modifies this`readyQueue, this`ready, t`next
      ensures Linked() && Abs() == old(Abs()).(ready := [t] + old(ready))
    {
      hide Distinct, States, Wakeups, Slices;
      t.next := readyQueue;
      readyQueue := t;
      DistinctConcat([t], ready);
      ready := [t] + ready;
      forall i | 0 <= i < |ready| ensures NextOk(i) { assert i > 0 ==> old(NextOk(i - 1)); }
    }

    /** Takes the head off the ready list. */
    method PopReady()
      requires Linked() && ready != []
      modifies this`readyQueue, this`ready
      ensures Linked() && Abs() == old(Abs()).(ready := old(ready)[1..])
      ensures old(ready)[0] !in ready
    {
      hide Distinct, States, Wakeups, Slices;
      assert NextOk(0);
      DistinctTail(ready);
      readyQueue := readyQueue.next;
      ready := ready[1..];
      forall i | 0 <= i < |ready| ensures NextOk(i) { assert old(NextOk(i + 1)); }
    }

    method ClearNext(t: Thread)
      requires Linked() && t !in ready
      modifies t`next
      ensures Linked() && Abs() == old(Abs())
    {
      hide Distinct, States, Wakeups, Slices;
      t.next := null;
      forall i | 0 <= i < |ready| ensures NextOk(i) { assert old(NextOk(i)) && ready[i] in ready; }
    }

    /** pick_next_thread. */
    method PickNext() returns (t: Thread?)
      requires Linked()
      modifies this`readyQueue, this`ready, pool`next
      ensures Linked() && t == At(old(ready), 0) && (t != null ==> t in pool)
      ensures Abs() == old(Abs()).(ready := if old(ready) == [] then [] else old(ready)[1..])
    {
      if readyQueue == null { return null; }
      t := readyQueue;
      PopReady();
      ClearNext(t);
    }

    /** sched_add_sleeping_thread. */
    method AddSleeping(t: Thread)
      requires Linked() && t in pool && t !in sleeping
      modifies this`sleepingThreads, this`sleeping, t`nextSleeping
      ensures Linked() && Abs() == old(Abs()).(sleeping := [t] + old(sleeping))
    {
      hide Distinct, States, Wakeups, Slices;
      t.nextSleeping := sleepingThreads;
      sleepingThreads := t;
      DistinctConcat([t], sleeping);
      sleeping := [t] + sleeping;
      forall i | 0 <= i < |sleeping| ensures SleepOk(i) { assert i > 0 ==> old(SleepOk(i - 1)); }
    }

    /** sched_remove_thread. */
    method RemoveThread(t: Thread)
      requires Linked()
      modifies this`readyQueue, this`ready, pool`next
      ensures Linked() && Abs() == old(Abs()).(ready := Without(old(ready), t))
    {
      if readyQueue == null { return; }
      if readyQueue == t {
        WithoutAt(ready, t, 0);
        PopReady();
        return;
      }
      var prev := readyQueue;
      ghost var k := 0;
      while prev.next != null && prev.next != t
        invariant 0 <= k < |ready| && prev == ready[k]
        invariant forall i :: 0 <= i <= k ==> ready[i] != t
        decreases |ready| - k
      {
        assert NextOk(k);
        prev := prev.next;
        k := k + 1;
      }
      assert NextOk(k);
      if prev.next == t {
        WithoutAt(ready, t, k + 1);
        Unlink(prev, t, k);
      } else {
        WithoutNone(ready, t);
      }
    }

    /** Splices out the thread after prev. */
    method Unlink(prev: Thread, t: Thread, ghost k: nat)
      requires Linked() && k + 1 < |ready| && prev == ready[k] && t == ready[k + 1]
      modifies this`ready, prev`next
      ensures Linked() && Abs() == old(Abs()).(ready := old(ready)[..k + 1] + old(ready)[k + 2..])
    {
      hide Distinct, States, Wakeups, Slices;
      DistinctCut(ready, k + 1);
      assert NextOk(k + 1);
      prev.next := t.next;
      ghost var was := ready;
      ready := ready[..k + 1] + ready[k + 2..];
      assert forall i :: 0 <= i < |ready| ==> ready[i] == was[if i <= k then i else i + 1];
      forall i | 0 <= i < |ready| ensures NextOk(i) {
        assert i != k ==> ready[i] != prev by { Apart(was, k, if i < k then i else i + 1); }
        assert old(NextOk(if i <= k then i else i + 1));
      }
    }

    method SetCurrent(t: Thread)
      requires Linked() && t in pool
      modifies this`currentThread
      ensures Linked() && Abs() == old(Abs()).(current := Some(t))
    {
      currentThread := t;
    }

    method SetWakeup(t: Thread, x: u32)
      requires Linked() && t in pool
      modifies t`wakeup
      ensures Linked() && Abs() == old(Abs()).(wake := old(Abs()).wake[t := x])
    {
      t.wakeup := x;
    }

    /** sched_yield; switch_threads is the change of currentThread. */
    method Yield()
      requires Valid()
      modifies this`readyQueue, this`ready, this`currentThread, pool`next, pool`state, pool`timeSlice
      ensures Valid() && Abs() == SchedModel.Yield(old(Abs()))
    {
      YieldInv(Abs());
      YieldLists();
    }

    method YieldLists()
      requires Linked() && (currentThread != null && currentThread.state == Running ==> currentThread !in ready)
      modifies this`readyQueue, this`ready, this`currentThread, pool`next, pool`state, pool`timeSlice
      ensures Linked() && Abs() == SchedModel.Yield(old(Abs()))
    {
      hide ReadyLinked, SleepLinked, Distinct;
      var next := PickNext();
      if next == null { return; }
      var current := currentThread;
      if current != null && current.state == Running {
        SetState(current, Ready);
        AddThread(current);
      }
      SetState(next, Running);
      SetSlice(next, rrQuantum);
      SetCurrent(next);
    }

    /** Takes the sleeper after prev off the sleep list; a null prev stands for its head. */
    method Splice(prev: Thread?, current: Thread, ghost k: nat)
      requires Linked() && k < |sleeping| && current == sleeping[k]
      requires prev == if k == 0 then null else sleeping[k - 1]
      modifies this`sleepingThreads, this`sleeping, pool`nextSleeping
      ensures Linked() && Abs() == old(Abs()).(sleeping := old(sleeping)[..k] + old(sleeping)[k + 1..])
    {
      hide Distinct, States, Wakeups, Slices;
      assert SleepOk(k);
      ghost var was := sleeping;
      DistinctCut(was, k);
      if prev == null { sleepingThreads := current.nextSleeping; }
      else { prev.nextSleeping := current.nextSleeping; }
      sleeping := was[..k] + was[k + 1..];
      assert forall i :: 0 <= i < |sleeping| ==> sleeping[i] == was[if i < k then i else i + 1];
      forall i | 0 <= i < |sleeping| ensures SleepOk(i) {
        assert i + 1 != k && k > 0 ==> sleeping[i] != prev by {
          if i + 1 != k && k > 0 { Apart(was, k - 1, if i < k then i else i + 1); }
        }
        assert old(SleepOk(if i < k then i else i + 1));
      }
    }

    /** Wakes the sleeper after prev. */
    method WakeOne(prev: Thread?, current: Thread, ghost k: nat)
      requires Linked() && k < |sleeping| && current == sleeping[k] && current !in ready
      requires prev == if k == 0 then null else sleeping[k - 1]
      modifies this`readyQueue, this`ready, this`sleepingThreads, this`sleeping, pool`next, pool`nextSleeping,
          pool`state
      ensures Linked() && Abs() == WakeAt(old(Abs()), k)
    {
      hide SleepLinked;
      assert current in pool by { InPool(k); }
      Splice(prev, current, k);
      SetState(current, Ready);
      AddThread(current);
    }

    lemma InPool(k: nat)
      requires Linked() && k < |sleeping|
      ensures sleeping[k] in pool && sleeping[k].nextSleeping == At(sleeping, k + 1)
    {
      assert SleepOk(k);
    }

    /** check_sleeping_threads. The pointer to the link that leads to the current sleeper is
        kept as the sleeper that holds the link, or null when the head does. */
    method CheckSleeping()
      requires Linked() && forall t :: t in sleeping ==> t !in ready
      modifies this`readyQueue, this`ready, this`sleepingThreads, this`sleeping, pool`next, pool`nextSleeping,
          pool`state
      ensures Linked() && Abs() == WakeUp(old(Abs()))
    {
      hide ReadyLinked, Distinct, WakeUp;
      var prev: Thread? := null;
      var current := sleepingThreads;
      ghost var k: nat := 0;
      WakeFromStart(Abs());
      while current != null
        invariant Linked() && k <= |sleeping| && current == At(sleeping, k)
        invariant prev == if k == 0 then null else sleeping[k - 1]
        invariant forall t :: t in sleeping ==> t !in ready
        invariant WakeFrom(Abs(), k) == WakeUp(old(Abs()))
        decreases |sleeping| - k
      {
        prev, current, k := CheckOne(prev, current, k);
      }
      WakeFromEnd(Abs());
    }

    /** One turn of the loop: wakes the current sleeper or steps over it. */
    method CheckOne(prev: Thread?, current: Thread, ghost k: nat)
      returns (prev': Thread?, current': Thread?, ghost k': nat)
      requires Linked() && k < |sleeping| && current == sleeping[k] && forall t :: t in sleeping ==> t !in ready
      requires prev == if k == 0 then null else sleeping[k - 1]
      modifies this`readyQueue, this`ready, this`sleepingThreads, this`sleeping, pool`next, pool`nextSleeping,
          pool`state
      ensures Linked() && k' <= |sleeping| && current' == At(sleeping, k')
      ensures prev' == if k' == 0 then null else sleeping[k' - 1]
      ensures forall t :: t in sleeping ==> t !in ready
      ensures WakeFrom(Abs(), k') == WakeFrom(old(Abs()), k)
      ensures |sleeping| - k' < |old(sleeping)| - k
    {
      hide ReadyLinked, SleepLinked, Distinct, WakeFrom;
      InPool(k);
      if current.wakeup <= timerTicks {
        WakeFromWake(Abs(), k);
        SleepersApart(k);
        WakeOne(prev, current, k);
        if prev == null { current' := sleepingThreads; } else { current' := prev.nextSleeping; }
        if k == 0 { HeadIs(); } else { InPool(k - 1); }
        prev', k' := prev, k;
      } else {
        WakeFromStay(Abs(), k);
        prev', current', k' := current, current.nextSleeping, k + 1;
      }
    }

    lemma HeadIs()
      requires Linked()
      ensures sleepingThreads == At(sleeping, 0)
    {
    }

    lemma SleepersApart(k: nat)
      requires Linked() && k < |sleeping|
      ensures sleeping[k] !in sleeping[..k] + sleeping[k + 1..]
    {
      DistinctCut(sleeping, k);
    }

    /** timer_handler, before its callback. */
    method CountTick()
      requires Linked()
      modifies this`timerTicks
      ensures Linked() && Abs() == old(Abs()).(ticks := Wrap32(old(timerTicks) + 1))
    {
      timerTicks := Wrap32(timerTicks + 1);
    }

    /** sched_tick, after the timer interrupt has counted the tick. */
    method Tick()
      requires Valid()
      modifies this, pool
      ensures Valid() && pool == old(pool) && Abs() == SchedModel.Tick(old(Abs()))
    {
      hide Inv, ReadyLinked, SleepLinked, Charge, WakeUp;
      TickInv(Abs());
      ClockOnly(Abs(), Wrap32(timerTicks + 1));
      CountTick();
      if currentThread == null { return; }
      ChargeInv(Abs());
      ChargeCurrent();
      NobodyTwice(Abs());
      CheckSleeping();
    }

    method ChargeCurrent()
      requires Valid() && currentThread != null
      modifies this`readyQueue, this`ready, this`currentThread, pool`next, pool`state, pool`timeSlice
      ensures Valid() && Abs() == Charge(old(Abs()))
    {
      hide Inv, ReadyLinked, SleepLinked;
      ChargeInv(Abs());
      var t := currentThread;
      ghost var slice: map<Thread, int> := Abs().slice;
      SliceOnly(Abs(), slice[t := t.timeSlice - 1]);
      SliceOnly(Abs(), slice[t := rrQuantum]);
      ghost var once: map<Thread, int> := slice[t := t.timeSlice - 1];
      assert once[t := rrQuantum] == slice[t := rrQuantum];
      SetSlice(t, t.timeSlice - 1);
      if t.timeSlice <= 0 {
        SetSlice(t, rrQuantum);
        if preemptEnabled { Yield(); }
      }
    }

    ghost method Admit(t: Thread)
      requires Linked() && t !in pool
      modifies this`pool
      ensures Linked() && t !in ready && pool == old(pool) + {t}
      ensures States() == old(States())[t := t.state] && Wakeups() == old(Wakeups())[t := t.wakeup]
      ensures Slices() == old(Slices())[t := t.timeSlice]
    {
      hide Distinct;
      pool := pool + {t};
      forall i | 0 <= i < |ready| ensures NextOk(i) { assert old(NextOk(i)); }
      forall i | 0 <= i < |sleeping| ensures SleepOk(i) { assert old(SleepOk(i)); }
    }

    /** thread_create: a new thread at the front of the ready list. */
    method Create(wakeup: u32, timeSlice: int) returns (t: Thread)
      requires Valid()
      modifies this`readyQueue, this`ready, this`pool
      ensures Valid() && fresh(t) && pool == old(pool) + {t}
      ensures Abs() == Add(old(Abs()), t, wakeup, timeSlice)
    {
      hide Inv;
      t := new Thread(wakeup, timeSlice);
      AddInv(Abs(), t, wakeup, timeSlice);
      Admit(t);
      AddThread(t);
    }

    method Block(t: Thread, until: u32)
      requires Linked() && Opt(currentThread) == Some(t) && t !in sleeping
      modifies this`sleepingThreads, this`sleeping, t`nextSleeping, t`state, t`wakeup
      ensures Linked() && Abs() == Blocking(old(Abs()), until)
    {
      hide ReadyLinked, SleepLinked, Distinct;
      SetState(t, Blocked);
      SetWakeup(t, until);
      AddSleeping(t);
    }

    /** thread_sleep on the scheduler's current thread. */
    method Sleep(until: u32)
      requires Valid() && currentThread != null && currentThread.state == Running
      modifies this, pool
      ensures Valid() && pool == old(pool) && Abs() == SchedModel.Sleep(old(Abs()), until)
    {
      hide ReadyLinked, SleepLinked, Inv;
      SleepInv(Abs(), until);
      var t := currentThread;
      RunningNowhere(Abs());
      Block(t, until);
      YieldLists();
    }

    /** thread_exit on the scheduler's current thread. A thread that is not running is ended too,
        and may be left in a list. */
    method Exit()
      requires Valid() && currentThread != null
      modifies this, pool
      ensures Linked() && pool == old(pool) && Abs() == SchedModel.Exit(old(Abs()))
      ensures old(currentThread.state) == Running ==> Valid()
    {
      hide ReadyLinked, SleepLinked, Inv;
      if currentThread.state == Running { ExitInv(Abs()); }
      SetState(currentThread, Terminated);
      YieldLists();
    }

    /** The same two, when the interrupt thread_yield raises is taken as a timer tick. */
    method SleepTick(until: u32)
      requires Valid() && currentThread != null && currentThread.state == Running
      modifies this, pool
      ensures Valid() && pool == old(pool) && Abs() == SchedModel.Tick(Blocking(old(Abs()), until))
    {
      hide ReadyLinked, SleepLinked, Inv;
      BlockingInv(Abs(), until);
      RunningNowhere(Abs());
      Block(currentThread, until);
      Tick();
    }

    method ExitTick()
      requires Valid() && currentThread != null && currentThread.state == Running
      modifies this, pool
      ensures Valid() && pool == old(pool) && Abs() == SchedModel.Tick(Ending(old(Abs())))
    {
      hide ReadyLinked, SleepLinked, Inv;
      EndingInv(Abs());
      SetState(currentThread, Terminated);
      Tick();
    }

    /** sched_start. */
    method Start()
      requires Valid() && currentThread == null
      modifies this`readyQueue, this`ready, this`currentThread, pool`state
      ensures Valid() && Abs() == SchedModel.Start(old(Abs()))
    {
      hide SleepLinked, Inv;
      StartInv(Abs());
      if readyQueue == null { return; }
      var next := readyQueue;
      PopReady();
      SetState(next, Running);
      SetCurrent(next);
    }
  }
}
