/**
  Sleep and exit when the interrupt that thread_yield raises is taken as a timer tick: exactly when
  these steps keep the scheduler's invariant.
 */
module SchedYield {
  import opened CTypes
  import opened Options
  import opened SchedModel

  /** The next tick makes the current thread yield. */
  predicate Expires<T>(s: Sched<T>) {
    s.preempt && s.current.Some? && s.current.value in s.slice && s.slice[s.current.value] - 1 <= 0
  }

  /** Somebody asleep twice stays in a list twice. */
  lemma {:induction false} SweepTwice<T>(sleeping: seq<T>, wake: map<T, u32>, ticks: u32)
    requires !Distinct(sleeping)
    ensures !Distinct(Sweep(sleeping, wake, ticks).0) || !Distinct(Sweep(sleeping, wake, ticks).1)
  {
    if sleeping != [] {
      var (t, rest) := (sleeping[0], sleeping[1..]);
      var (stay, woken) := Sweep(rest, wake, ticks);
      if Distinct(rest) {
        assert sleeping == [t] + rest;
        assert t in rest by { if t !in rest { DistinctConcat([t], rest); } }
        SweepMembers(rest, wake, ticks, t);
      } else {
        SweepTwice(rest, wake, ticks);
      }
      TwiceMore(stay, t);
      TwiceMore(woken, t);
    }
  }

  lemma TwiceMore<T>(s: seq<T>, t: T)
    ensures t in s || !Distinct(s) ==> !Distinct([t] + s) && !Distinct(s + [t])
  {
    if t in s {
      var i :| 0 <= i < |s| && s[i] == t;
      assert ([t] + s)[0] == ([t] + s)[i + 1] && (s + [t])[i] == (s + [t])[|s|];
    }
    if !Distinct(s) {
      var i, j :| 0 <= i < j < |s| && s[i] == s[j];
      assert ([t] + s)[i + 1] == ([t] + s)[j + 1] && (s + [t])[i] == (s + [t])[j];
    }
  }

  /** What the slice part of a tick leaves alone, and what it does when the slice is used up. */
  lemma ChargeIs<T>(s: Sched<T>)
    ensures var u := Charge(s);
            && u.sleeping == s.sleeping && u.wake == s.wake && u.ticks == s.ticks
            && (!Expires(s) ==> u.ready == s.ready && u.st == s.st)
            && (Expires(s) ==> u == Yield(s.(slice := s.slice[s.current.value := s.quantum])))
  {
  }

  /** A thread in both lists: no state fits. */
  lemma InBoth<T>(r: Sched<T>, c: T)
    requires c in r.ready && c in r.sleeping
    ensures !Inv(r)
  {
    if Inv(r) { Never(r, c); }
  }

  lemma Never<T>(r: Sched<T>, c: T)
    requires Inv(r)
    ensures !(c in r.ready && c in r.sleeping)
  {
    if c in r.ready { assert Placed(r, c); }
  }

  lemma SleepingRunning<T>(r: Sched<T>, c: T)
    requires Inv(r)
    ensures c in r.sleeping ==> r.Is(c, Blocked)
    ensures c in r.ready ==> r.Is(c, Ready)
  {
    if c in r.sleeping || c in r.ready { assert Placed(r, c); }
  }

  /** A current thread that still sleeps. */
  lemma AsleepAgain<T>(s: Sched<T>, until: u32)
    requires Inv(s) && s.current.Some? && s.Is(s.current.value, Blocked)
    ensures !Inv(Tick(Blocking(s, until)))
  {
    hide Inv;
    var (c, b) := (s.current.value, Blocking(s, until));
    var t := b.(ticks := Wrap32(b.ticks + 1));
    SleepsStill(s, c);
    assert !Distinct(b.sleeping) by { TwiceMore(s.sleeping, c); }
    ChargeIs(t);
    var u := Charge(t);
    SweepTwice(u.sleeping, u.wake, u.ticks);
    NotTwice(WakeUp(u), Sweep(u.sleeping, u.wake, u.ticks).1, u.ready);
  }

  lemma SleepsStill<T>(s: Sched<T>, c: T)
    requires Inv(s)
    ensures s.Is(c, Blocked) ==> c in s.sleeping && c !in s.ready
    ensures s.Is(c, Ready) ==> c in s.ready && c !in s.sleeping
    ensures c in s.st ==> c in s.slice
  {
    if c in s.st { assert Placed(s, c); }
  }

  lemma NotTwice<T>(r: Sched<T>, woken: seq<T>, ready: seq<T>)
    requires r.ready == woken + ready
    ensures !Distinct(r.sleeping) || !Distinct(woken) ==> !Inv(r)
  {
    if !Distinct(woken) {
      var i, j :| 0 <= i < j < |woken| && woken[i] == woken[j];
      assert r.ready[i] == r.ready[j];
    }
  }

  /** A current thread that has been woken into the ready list and stays there. */
  lemma ReadyAgain<T>(s: Sched<T>, until: u32)
    requires Inv(s) && s.current.Some? && s.Is(s.current.value, Ready)
    requires !(Expires(s) && s.ready[0] == s.current.value)
    ensures !Inv(Tick(Blocking(s, until)))
  {
    hide Inv;
    var (c, b) := (s.current.value, Blocking(s, until));
    var t := b.(ticks := Wrap32(b.ticks + 1));
    SleepsStill(s, c);
    assert forall x :: x in s.ready ==> x == s.ready[0] || x in s.ready[1..];
    ChargeIs(t);
    var u := Charge(t);
    assert c in u.ready && u.sleeping == b.sleeping && c in u.sleeping;
    SweepMembers(u.sleeping, u.wake, u.ticks, c);
    var r := WakeUp(u);
    if Due(u.wake, u.ticks, c) {
      InTwice(r, Sweep(u.sleeping, u.wake, u.ticks).1, u.ready, c);
    } else {
      InBoth(r, c);
    }
  }

  lemma InTwice<T>(r: Sched<T>, woken: seq<T>, ready: seq<T>, c: T)
    requires r.ready == woken + ready && c in woken && c in ready
    ensures !Inv(r)
  {
    var i :| 0 <= i < |woken| && woken[i] == c;
    var j :| 0 <= j < |ready| && ready[j] == c;
    assert r.ready[i] == r.ready[|woken| + j];
  }

  /** The one case in which it goes well: the tick takes the thread off the ready list to run it, and
      the sweep finds it due at once. All that is left is its new slice and time. */
  function Renewed<T>(s: Sched<T>, until: u32): Sched<T>
    requires s.current.Some?
  {
    var c := s.current.value;
    s.(ticks := Wrap32(s.ticks + 1), wake := s.wake[c := until], slice := s.slice[c := s.quantum])
  }

  lemma RenewedInv<T>(s: Sched<T>, until: u32)
    requires Inv(s) && s.current.Some?
    ensures Inv(Renewed(s, until))
  {
    forall x | x in s.st ensures Placed(Renewed(s, until), x) { assert Placed(s, x); }
  }

  /** What the tick's slice part makes of it. */
  lemma PickedUp<T>(s: Sched<T>, until: u32)
    requires Inv(s) && s.current.Some? && s.Is(s.current.value, Ready)
    requires Expires(s) && s.ready != [] && s.ready[0] == s.current.value
    ensures var (c, b, n) := (s.current.value, Blocking(s, until), Renewed(s, until));
            Charge(b.(ticks := n.ticks)) ==
            n.(sleeping := [c] + s.sleeping, ready := s.ready[1..], st := s.st[c := Running])
  {
    hide Inv;
    var (c, b) := (s.current.value, Blocking(s, until));
    var t := b.(ticks := Wrap32(b.ticks + 1));
    SleepsStill(s, c);
    ChargeIs(t);
    assert b.st[c := Running] == s.st[c := Running];
    assert [] + s.ready[1..] == s.ready[1..];
  }

  lemma WokenAtOnce<T>(s: Sched<T>, until: u32)
    requires Inv(s) && s.current.Some? && s.Is(s.current.value, Ready)
    requires Expires(s) && s.ready != [] && s.ready[0] == s.current.value && until <= Wrap32(s.ticks + 1)
    ensures Tick(Blocking(s, until)) == WakeUp(Renewed(s, until))
  {
    hide Inv, Charge, SetAll;
    var (c, n) := (s.current.value, Renewed(s, until));
    PickedUp(s, until);
    var u := n.(sleeping := [c] + s.sleeping, ready := s.ready[1..], st := s.st[c := Running]);
    var (stay, woken) := Sweep(s.sleeping, n.wake, n.ticks);
    assert u.sleeping[1..] == s.sleeping && Due(u.wake, u.ticks, c);
    assert Sweep(u.sleeping, u.wake, u.ticks) == (stay, woken + [c]);
    assert (woken + [c]) + u.ready == woken + s.ready by { assert s.ready == [c] + s.ready[1..]; }
    SetAllSame(s, u.st, woken, c);
  }

  lemma SetAllSame<T>(s: Sched<T>, st: map<T, Status>, woken: seq<T>, c: T)
    requires s.Is(c, Ready) && st == s.st[c := Running]
    ensures SetAll(st, woken + [c], Ready) == SetAll(s.st, woken, Ready)
  {
    var (a, b) := (SetAll(st, woken + [c], Ready), SetAll(s.st, woken, Ready));
    forall x ensures (x in a <==> x in b) && (x in a ==> a[x] == b[x]) {
      SetAllAt(st, woken + [c], Ready, x);
      SetAllAt(s.st, woken, Ready, x);
    }
  }

  /** Run by the tick, but not due: it sleeps while it runs. */
  lemma RunsAsleep<T>(s: Sched<T>, until: u32)
    requires Inv(s) && s.current.Some? && s.Is(s.current.value, Ready)
    requires Expires(s) && s.ready[0] == s.current.value && until > Wrap32(s.ticks + 1)
    ensures !Inv(Tick(Blocking(s, until)))
  {
    hide Inv;
    var (c, b) := (s.current.value, Blocking(s, until));
    var t := b.(ticks := Wrap32(b.ticks + 1));
    SleepsStill(s, c);
    ChargeIs(t);
    var u := Charge(t);
    SweepMembers(u.sleeping, u.wake, u.ticks, c);
    SetAllAt(u.st, Sweep(u.sleeping, u.wake, u.ticks).1, Ready, c);
    var r := WakeUp(u);
    assert c in r.sleeping && r.Is(c, Running);
    assert Inv(r) ==> r.Is(c, Blocked) by { if Inv(r) { SleepingRunning(r, c); } }
  }

  /** Sleep, the yield taken as a tick, keeps the invariant exactly when the current thread is
      running, or is at the head of the ready list, picked by this very tick, and due by it. */
  lemma SleepTickKeepsIff<T>(s: Sched<T>, until: u32)
    requires Inv(s) && s.current.Some? && !s.Is(s.current.value, Terminated)
    ensures Inv(Tick(Blocking(s, until))) <==>
            || s.Is(s.current.value, Running)
            || (&& s.Is(s.current.value, Ready) && Expires(s) && s.ready != [] && s.ready[0] == s.current.value
                && until <= Wrap32(s.ticks + 1))
  {
    var c := s.current.value;
    SleepsStill(s, c);
    assert Placed(s, c);
    hide Inv;
    if s.Is(c, Running) {
      BlockingInv(s, until);
      TickInv(Blocking(s, until));
    } else if s.Is(c, Blocked) {
      AsleepAgain(s, until);
    } else if !(Expires(s) && s.ready[0] == c) {
      ReadyAgain(s, until);
    } else if until <= Wrap32(s.ticks + 1) {
      WokenAtOnce(s, until);
      RenewedInv(s, until);
      WakeInv(Renewed(s, until));
    } else {
      RunsAsleep(s, until);
    }
  }

  /** An ended thread that is in a list, after a tick: badly placed, or alive again. */
  lemma EndedInList<T>(s: Sched<T>)
    requires Inv(s) && s.current.Some? && (s.Is(s.current.value, Blocked) || s.Is(s.current.value, Ready))
    ensures !Inv(Tick(Ending(s))) || s.current.value in Live(Tick(Ending(s)))
  {
    hide Inv;
    var (c, e) := (s.current.value, Ending(s));
    var t := e.(ticks := Wrap32(e.ticks + 1));
    SleepsStill(s, c);
    assert forall x :: x in s.ready ==> x == s.ready[0] || x in s.ready[1..];
    ChargeIs(t);
    var u := Charge(t);
    var r := WakeUp(u);
    SweepMembers(u.sleeping, u.wake, u.ticks, c);
    SetAllAt(u.st, Sweep(u.sleeping, u.wake, u.ticks).1, Ready, c);
    assert c in r.st;
    if r.st[c] == Terminated {
      assert c in r.ready || c in r.sleeping;
      assert !Inv(r) by { if Inv(r) { SleepingRunning(r, c); } }
    }
  }

  /** Exit, the yield taken as a tick, keeps the invariant and takes just the current thread away
      exactly when that is running. */
  lemma ExitTickKeepsIff<T>(s: Sched<T>)
    requires Inv(s) && s.current.Some? && !s.Is(s.current.value, Terminated)
    ensures Inv(Tick(Ending(s))) && Live(Tick(Ending(s))) == Live(s) - {s.current.value} <==>
            s.Is(s.current.value, Running)
  {
    var c := s.current.value;
    assert Placed(s, c);
    hide Inv;
    if s.Is(c, Running) {
      EndingInv(s);
      TickInv(Ending(s));
    } else {
      EndedInList(s);
    }
  }
}
