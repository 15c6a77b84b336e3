/** What the scheduler promises to a waiting task, and where it does not keep the promise. */
module SchedulerLiveness {
  import opened SchedulerModel

  // The state after n ticks, None if a lookup on the way finds nothing runnable.
  function Ticks(s: State, n: nat): Option<State>
    decreases n
  {
    if n == 0 then Some(s)
    else if |s.ring| == 0 then None
    else match Step(s, Tick) case None => None case Some(t) => Ticks(t, n - 1)
  }

  // ---- Bounded waiting ----

  ghost predicate IsCurrentAfter(s: State, n: nat, pid: nat) {
    Ticks(s, n).Some? && Inv(Ticks(s, n).value) && Ticks(s, n).value.ring[0].pid == pid
  }

  /** One tick brings a runnable task at ring distance i nearer, or makes it current. */
  lemma TickMoves(s: State, i: nat) returns (k: nat)
    requires Inv(s) && 0 < i < |s.ring| && Runnable(s.ring[i].status)
    ensures Step(s, Tick).Some? && 1 <= k <= i
    ensures var t := Step(s, Tick).value;
      && |t.ring| == |s.ring| && t.ring[i - k].pid == s.ring[i].pid
      && (k < i ==> Runnable(t.ring[i - k].status))
  {
    hide Inv, Step, Dispatch, Walk, FirstRunnable, SetStatus;
    var ring := if s.total == 0 then SetStatus(s.ring, IDLE_PID, SchedulerIdle) else s.ring;
    IdleWoken(s, i);
    NearestAhead(ring, i);
    k := FirstRunnable(Walk(ring)) + 1;
    var parked := if ring[0].status != SchedulerIdle then ring[0 := Slot(ring[0].pid, Ready)] else ring;
    TwoLookupsAgree(ring, parked);
    DispatchMoves(parked, k - 1, i);
    TickSwitches(s, ring);
  }

  lemma IdleWoken(s: State, i: nat)
    requires i < |s.ring| && Runnable(s.ring[i].status)
    ensures var ring := if s.total == 0 then SetStatus(s.ring, IDLE_PID, SchedulerIdle) else s.ring;
      |ring| == |s.ring| && ring[i].pid == s.ring[i].pid && Runnable(ring[i].status)
  {
  }

  // A tick that finds another task switches to it.
  lemma TickSwitches(s: State, ring: seq<Slot>)
    requires |s.ring| > 0 && ring == if s.total == 0 then SetStatus(s.ring, IDLE_PID, SchedulerIdle) else s.ring
    requires FirstRunnable(Walk(ring)) < |ring| - 1
    ensures var parked := if ring[0].status != SchedulerIdle then ring[0 := Slot(ring[0].pid, Ready)] else ring;
      Step(s, Tick) == Some(s.(ring := Dispatch(Walk(parked), FirstRunnable(Walk(ring)))))
  {
    hide SetStatus, FirstRunnable, Dispatch;
  }

  // A lookup goes no further than a runnable task.
  lemma NearestAhead(ring: seq<Slot>, i: nat)
    requires 0 < i < |ring| && Runnable(ring[i].status)
    ensures FirstRunnable(Walk(ring)) <= i - 1
  {
    var walk := Walk(ring);
    assert walk[i - 1] == ring[i];
    FirstRunnableIsNearest(walk);
    assert Runnable(walk[i - 1].status);
    hide FirstRunnable;
  }

  // Switching to slot f of the walk brings a later task f + 1 places nearer.
  lemma DispatchMoves(ring: seq<Slot>, f: nat, i: nat)
    requires 0 < i < |ring| && f <= i - 1 && f < |ring| - 1
    ensures |Walk(ring)| == |ring|
    ensures var t := Dispatch(Walk(ring), f);
      |t| == |ring| && t[i - 1 - f].pid == ring[i].pid && (i - 1 - f > 0 ==> t[i - 1 - f] == ring[i])
  {
    assert Walk(ring)[f..][i - 1 - f] == ring[i];
  }

  /** While only scheduler_tick occurs, a task that is ready at ring distance i is current after at
      most i ticks. */
  lemma {:induction false} BoundedWaiting(s: State, i: nat)
    requires Inv(s) && 0 < i < |s.ring| && Runnable(s.ring[i].status)
    ensures exists n: nat :: 1 <= n <= i && IsCurrentAfter(s, n, s.ring[i].pid)
    decreases i
  {
    hide Inv;
    assert |s.ring| > 0;
    var k := TickMoves(s, i);
    TickKeeps(s);
    var t := Step(s, Tick).value;
    if k == i {
      assert Ticks(s, 1) == Some(t) by { OneTick(s); }
      assert IsCurrentAfter(s, 1, s.ring[i].pid);
    } else {
      BoundedWaiting(t, i - k);
      var n: nat :| 1 <= n <= i - k && IsCurrentAfter(t, n, t.ring[i - k].pid);
      assert Ticks(s, n + 1) == Ticks(t, n);
      assert IsCurrentAfter(s, n + 1, s.ring[i].pid);
    }
  }

  lemma OneTick(s: State)
    requires |s.ring| > 0
    ensures Ticks(s, 1) == Step(s, Tick)
  {
    hide Step;
    if Step(s, Tick).Some? {
      assert Ticks(Step(s, Tick).value, 0) == Step(s, Tick);
    }
  }

  /** A non-empty dead queue is reached: the reaper is current already, or becomes current within
      one round of ticks. */
  lemma DeadQueueIsReached(s: State)
    requires Inv(s) && s.dead != []
    ensures s.ring[0].pid == REAPER_PID || exists n: nat :: 1 <= n < |s.ring| && IsCurrentAfter(s, n, REAPER_PID)
  {
    assert REAPER_PID in Pids(s.ring);
    var i :| 0 <= i < |s.ring| && Pids(s.ring)[i] == REAPER_PID;
    if i > 0 {
      assert s.ring[i] in s.ring && s.ring[i] != Slot(REAPER_PID, Sleep);
      BoundedWaiting(s, i);
    }
  }

  // ---- The hang ----

  /** A reachable state in which the next tick never returns: a task is enqueued while another user
      task runs, which puts the idle task to sleep, and then one of the two exits and is reaped.  The
      remaining task is running and every other task asleep, so next_task finds nothing. */
  lemma TickCanHang() returns (states: seq<State>, events: seq<Event>)
    ensures Run(states, events) && states[0] == INITIAL && |states| == 7
    ensures Inv(states[6]) && Step(states[6], Tick).None?
  {
    hide Step, Inv;
    var s0 := INITIAL;
    var s1 := State([Slot(0, Sleep), Slot(1, Sleep), Slot(2, Ready)], [], None, 1, 3);
    var s2 := State([Slot(2, Running), Slot(0, Ready), Slot(1, Sleep)], [], None, 1, 3);
    var s3 := State([Slot(2, Running), Slot(0, Sleep), Slot(1, Sleep), Slot(3, Ready)], [], None, 2, 4);
    var s4 := State([Slot(3, Running), Slot(0, Sleep), Slot(1, Ready)], [2], None, 1, 4);
    var s5 := State([Slot(1, Running), Slot(3, Ready), Slot(0, Sleep)], [2], None, 1, 4);
    var s6 := State([Slot(3, Running), Slot(0, Sleep), Slot(1, Sleep)], [], None, 1, 4);
    states := [s0, s1, s2, s3, s4, s5, s6];
    events := [Enqueue, Tick, Enqueue, Exit, Tick, Reap];
    HangPrefix(s0, s1, s2, s3);
    HangMiddle(s3, s4, s5);
    HangEnd(s5, s6);
    InitialOk();
    RunKeeps(states, events, 6);
  }

  /** A second reachable hang: two user tasks read from stdin one after the other.  The second one
      finds two tasks counted, so it leaves the idle task asleep, and next_task finds nothing. */
  lemma TwoReadersHang() returns (states: seq<State>, events: seq<Event>)
    ensures Run(states, events) && states[0] == INITIAL && |states| == 5
    ensures Inv(states[4]) && Enabled(states[4], AwaitStdin) && Step(states[4], AwaitStdin).None?
  {
    hide Step, Inv;
    var s0 := INITIAL;
    var s1 := State([Slot(0, Sleep), Slot(1, Sleep), Slot(2, Ready)], [], None, 1, 3);
    var s2 := State([Slot(2, Running), Slot(0, Ready), Slot(1, Sleep)], [], None, 1, 3);
    var s3 := State([Slot(2, Running), Slot(0, Sleep), Slot(1, Sleep), Slot(3, Ready)], [], None, 2, 4);
    var s4 := State([Slot(3, Running), Slot(2, Sleep), Slot(0, Sleep), Slot(1, Sleep)], [], Some(2), 2, 4);
    states := [s0, s1, s2, s3, s4];
    events := [Enqueue, Tick, Enqueue, AwaitStdin];
    HangPrefix(s0, s1, s2, s3);
    TwoReaders(s3, s4);
    InitialOk();
    RunKeeps(states, events, 4);
  }

  lemma TwoReaders(s3: State, s4: State)
    requires s3 == State([Slot(2, Running), Slot(0, Sleep), Slot(1, Sleep), Slot(3, Ready)], [], None, 2, 4)
    requires s4 == State([Slot(3, Running), Slot(2, Sleep), Slot(0, Sleep), Slot(1, Sleep)], [], Some(2), 2, 4)
    ensures Step(s3, AwaitStdin) == Some(s4) && Step(s4, AwaitStdin).None?
  {
    var walk := Walk(s3.ring[0 := Slot(2, Sleep)]);
    assert walk == [Slot(0, Sleep), Slot(1, Sleep), Slot(3, Ready), Slot(2, Sleep)];
    FirstRunnableIsNearest(walk);
    assert FirstRunnable(walk) == 2 by { assert !Runnable(walk[0].status) && !Runnable(walk[1].status) && Runnable(walk[2].status); }
    assert Dispatch(walk, 2) == s4.ring;
    var again := Walk(s4.ring[0 := Slot(3, Sleep)]);
    FirstRunnableIsNearest(again);
    assert again == [Slot(2, Sleep), Slot(0, Sleep), Slot(1, Sleep), Slot(3, Sleep)];
  }

  lemma HangPrefix(s0: State, s1: State, s2: State, s3: State)
    requires s0 == INITIAL
    requires s1 == State([Slot(0, Sleep), Slot(1, Sleep), Slot(2, Ready)], [], None, 1, 3)
    requires s2 == State([Slot(2, Running), Slot(0, Ready), Slot(1, Sleep)], [], None, 1, 3)
    requires s3 == State([Slot(2, Running), Slot(0, Sleep), Slot(1, Sleep), Slot(3, Ready)], [], None, 2, 4)
    ensures Step(s0, Enqueue) == Some(s1) && Step(s1, Tick) == Some(s2) && Step(s2, Enqueue) == Some(s3)
  {
    assert Step(s0, Enqueue).value.ring == s1.ring;
    TickFrom(s1, 1, [Slot(0, Ready), Slot(1, Sleep), Slot(2, Ready)], s2);
    assert Step(s2, Enqueue).value.ring == s3.ring;
  }

  // A tick that moves on, with the slots of the walk before k all asleep.
  lemma TickFrom(s: State, k: nat, parked: seq<Slot>, t: State)
    requires s.total != 0 && k + 1 < |s.ring| && s.ring[0].status != SchedulerIdle
    requires forall i :: 0 < i <= k ==> s.ring[i].status == Sleep
    requires Runnable(s.ring[k + 1].status) && s.ring[k + 1].pid != IDLE_PID
    requires parked == s.ring[0 := Slot(s.ring[0].pid, Ready)]
    requires t == s.(ring := [Slot(parked[k + 1].pid, Running)] + parked[k + 2..] + parked[..k + 1])
    ensures Step(s, Tick) == Some(t)
  {
    hide Dispatch;
    var walk := Walk(s.ring);
    FirstRunnableIsNearest(walk);
    assert walk[k] == s.ring[k + 1];
    assert forall i :: 0 <= i < k ==> walk[i] == s.ring[i + 1];
    assert FirstRunnable(walk) == k;
    DispatchParked(parked, k, t.ring);
  }

  lemma DispatchParked(parked: seq<Slot>, k: nat, r: seq<Slot>)
    requires k + 1 < |parked| && parked[k + 1].pid != IDLE_PID
    requires r == [Slot(parked[k + 1].pid, Running)] + parked[k + 2..] + parked[..k + 1]
    ensures Dispatch(Walk(parked), k) == r
  {
    var ring := RotateTo(Walk(parked), k);
    assert ring == parked[k + 1..] + parked[..k + 1];
  }

  lemma HangMiddle(s3: State, s4: State, s5: State)
    requires s3 == State([Slot(2, Running), Slot(0, Sleep), Slot(1, Sleep), Slot(3, Ready)], [], None, 2, 4)
    requires s4 == State([Slot(3, Running), Slot(0, Sleep), Slot(1, Ready)], [2], None, 1, 4)
    requires s5 == State([Slot(1, Running), Slot(3, Ready), Slot(0, Sleep)], [2], None, 1, 4)
    ensures Step(s3, Exit) == Some(s4) && Step(s4, Tick) == Some(s5)
  {
    var rest := s3.ring[1..];
    assert rest == [Slot(0, Sleep), Slot(1, Sleep), Slot(3, Ready)];
    FirstRunnableIsNearest(rest);
    assert FirstRunnable(rest) == 2 by { assert !Runnable(rest[0].status) && !Runnable(rest[1].status) && Runnable(rest[2].status); }
    assert Dispatch(rest, 2) == [Slot(3, Running), Slot(0, Sleep), Slot(1, Sleep)];
    assert s3.dead + [s3.ring[0].pid] == [2];
    assert Step(s3, Exit).value.ring == s4.ring;
    TickFrom(s4, 1, [Slot(3, Ready), Slot(0, Sleep), Slot(1, Ready)], s5);
  }

  lemma HangEnd(s5: State, s6: State)
    requires s5 == State([Slot(1, Running), Slot(3, Ready), Slot(0, Sleep)], [2], None, 1, 4)
    requires s6 == State([Slot(3, Running), Slot(0, Sleep), Slot(1, Sleep)], [], None, 1, 4)
    ensures Step(s5, Reap) == Some(s6) && Step(s6, Tick).None?
  {
    var ring := SetStatus(s5.ring, REAPER_PID, Sleep);
    assert ring == [Slot(1, Sleep), Slot(3, Ready), Slot(0, Sleep)];
    var walk := Walk(ring);
    assert walk == [Slot(3, Ready), Slot(0, Sleep), Slot(1, Sleep)];
    FirstRunnableIsNearest(walk);
    assert FirstRunnable(walk) == 0;
    assert Dispatch(walk, 0) == s6.ring;
    FirstRunnableIsNearest(Walk(s6.ring));
    assert Walk(s6.ring) == [Slot(0, Sleep), Slot(1, Sleep), Slot(3, Running)];
  }

  // ---- The single stdin waiter ----

  // Every sleeping user task is the one recorded in awaiting_stdin.
  ghost predicate WaiterRecorded(s: State) {
    forall p: nat :: p > REAPER_PID && Slot(p, Sleep) in s.ring ==> s.awaiting == Some(p)
  }

  lemma DispatchSleepers(walk: seq<Slot>, k: nat)
    requires k < |walk| && Runnable(walk[k].status)
    ensures forall p: nat :: Slot(p, Sleep) in Dispatch(walk, k) <==> Slot(p, Sleep) in walk
  {
    assert walk[..k] + walk[k..] == walk;
    var ring := RotateTo(walk, k);
    var r := Dispatch(walk, k);
    forall p: nat ensures Slot(p, Sleep) in r <==> Slot(p, Sleep) in ring {
      if Slot(p, Sleep) in ring {
        var i :| 0 <= i < |ring| && ring[i] == Slot(p, Sleep);
        assert r[i] == Slot(p, Sleep);
      }
    }
  }

  // Which user tasks sleep after an event.
  ghost predicate SleepsAfter(s: State, e: Event, p: nat)
    requires |s.ring| > 0
  {
    match e
    case AwaitStdin => Slot(p, Sleep) in s.ring || p == s.ring[0].pid
    case WakeStdin => Slot(p, Sleep) in s.ring && s.awaiting != Some(p)
    case _ => Slot(p, Sleep) in s.ring
  }

  lemma RedispatchSleepers(ring: seq<Slot>)
    requires |ring| > 0 && FirstRunnable(Walk(ring)) < |ring|
    ensures |Walk(ring)| == |ring|
    ensures forall p: nat :: Slot(p, Sleep) in Dispatch(Walk(ring), FirstRunnable(Walk(ring))) <==> Slot(p, Sleep) in ring
  {
    FirstRunnableIsNearest(Walk(ring));
    DispatchSleepers(Walk(ring), FirstRunnable(Walk(ring)));
    assert [ring[0]] + ring[1..] == ring;
  }

  /** A user task falls asleep only by reading stdin, and is woken only as the recorded waiter. */
  lemma SleepersChange(s: State, e: Event)
    requires Inv(s) && Enabled(s, e) && Step(s, e).Some?
    ensures forall p: nat :: p > REAPER_PID ==> (Slot(p, Sleep) in Step(s, e).value.ring <==> SleepsAfter(s, e, p))
  {
    hide Dispatch, FirstRunnable, Walk;
    SetStatusKeeps(s.ring, IDLE_PID, SchedulerIdle, s.nextPid);
    match e
    case Tick =>
      var ring := if s.total == 0 then SetStatus(s.ring, IDLE_PID, SchedulerIdle) else s.ring;
      if FirstRunnable(Walk(ring)) < |ring| - 1 {
        var parked := if ring[0].status != SchedulerIdle then ring[0 := Slot(ring[0].pid, Ready)] else ring;
        TwoLookupsAgree(ring, parked);
        ParkKeeps(ring, Ready, s.nextPid);
        RedispatchSleepers(parked);
        UserSleepersPark(ring, s.nextPid);
      }
    case Enqueue =>
      EnqueueSleepers(s);
    case Exit =>
      ExitSleepers(s);
    case AwaitStdin =>
      var asleep := s.ring[0 := Slot(s.ring[0].pid, Sleep)];
      ParkKeeps(s.ring, Sleep, s.nextPid);
      SetStatusKeeps(asleep, IDLE_PID, SchedulerIdle, s.nextPid);
      assert asleep[0] in asleep;
      RedispatchSleepers(if s.total == 1 then SetStatus(asleep, IDLE_PID, SchedulerIdle) else asleep);
    case WakeStdin =>
      if s.awaiting.Some? {
        SetStatusKeeps(s.ring, s.awaiting.value, Ready, s.nextPid);
      }
    case Reap =>
      SetStatusKeeps(s.ring, REAPER_PID, Sleep, s.nextPid);
      RedispatchSleepers(SetStatus(s.ring, REAPER_PID, Sleep));
  }

  lemma UserSleepersPark(ring: seq<Slot>, nextPid: nat)
    requires |ring| > 0 && RingOk(ring, nextPid) && (ring[0].pid > REAPER_PID ==> ring[0].status == Running)
    ensures forall p: nat :: p > REAPER_PID ==> (Slot(p, Sleep) in ring[0 := Slot(ring[0].pid, Ready)] <==> Slot(p, Sleep) in ring)
  {
    ParkKeeps(ring, Ready, nextPid);
    forall x | x in ring && x != ring[0] ensures x.pid != ring[0].pid {
      OnePerPid(ring, x);
    }
  }

  lemma EnqueueSleepers(s: State)
    requires Inv(s)
    ensures forall p: nat :: p > REAPER_PID ==> (Slot(p, Sleep) in Step(s, Enqueue).value.ring <==> Slot(p, Sleep) in s.ring)
  {
    var longer := s.ring + [Slot(s.nextPid, Ready)];
    PidsConcat(s.ring, [Slot(s.nextPid, Ready)]);
    assert Pids([Slot(s.nextPid, Ready)]) == [s.nextPid];
    AppendPid(Pids(s.ring), s.nextPid);
    SetStatusKeeps(longer, IDLE_PID, Sleep, s.nextPid + 1);
  }

  lemma ExitSleepers(s: State)
    requires Inv(s) && Enabled(s, Exit) && Step(s, Exit).Some?
    ensures forall p: nat :: p > REAPER_PID ==> (Slot(p, Sleep) in Step(s, Exit).value.ring <==> Slot(p, Sleep) in s.ring)
  {
    hide Dispatch, FirstRunnable, PidsOk;
    WakeIdleKeeps(s);
    SetStatusKeeps(s.ring, IDLE_PID, SchedulerIdle, s.nextPid);
    var ring := if s.total == 1 then SetStatus(s.ring, IDLE_PID, SchedulerIdle) else s.ring;
    var m := s.(ring := ring);
    UnlinkSlots(m);
    UnlinkRing(m);
    var rest := ring[1..];
    FirstRunnableIsNearest(rest);
    DispatchKeeps(rest, FirstRunnable(rest), s.nextPid);
    WakeReaper(Dispatch(rest, FirstRunnable(rest)), s.nextPid);
  }

  /** awaiting_stdin holds one task.  Every sleeping user task stays recorded through every event
      but one: AwaitStdin keeps this exactly when no other task is waiting. */
  lemma WaiterStaysRecordedIff(s: State, e: Event)
    requires Inv(s) && WaiterRecorded(s) && Enabled(s, e) && Step(s, e).Some?
    ensures WaiterRecorded(Step(s, e).value) <==> e != AwaitStdin || s.awaiting.None?
  {
    hide RingOk, DeadOk, Dispatch;
    SleepersChange(s, e);
    var t := Step(s, e).value;
    if e == AwaitStdin {
      if s.awaiting.Some? {
        assert SleepsAfter(s, e, s.awaiting.value);
        assert s.awaiting.value != s.ring[0].pid by { SleeperIsNotCurrent(s, s.awaiting.value); }
      }
    }
  }

  lemma SleeperIsNotCurrent(s: State, p: nat)
    requires Inv(s) && p > REAPER_PID && Slot(p, Sleep) in s.ring
    ensures s.ring[0].pid != p
  {
    if s.ring[0] != Slot(p, Sleep) {
      OnePerPid(s.ring, Slot(p, Sleep));
    }
  }

  /** A waiter that is overwritten sleeps for ever. */
  lemma {:induction false} LostWaiterSleepsForever(states: seq<State>, events: seq<Event>, p: nat, i: nat)
    requires Run(states, events) && Inv(states[0]) && i < |states|
    requires p > REAPER_PID && Slot(p, Sleep) in states[0].ring && states[0].awaiting != Some(p)
    ensures Slot(p, Sleep) in states[i].ring && states[i].awaiting != Some(p)
  {
    hide Step, Inv;
    if i > 0 {
      LostWaiterSleepsForever(states, events, p, i - 1);
      RunKeeps(states, events, i - 1);
      var j := i - 1;
      assert |states[j].ring| > 0 && Enabled(states[j], events[j]) && Step(states[j], events[j]) == Some(states[j + 1]);
      SleepersChange(states[j], events[j]);
      SleeperIsNotCurrent(states[j], p);
      AwaitingChange(states[j], events[j]);
    }
  }

  lemma AwaitingChange(s: State, e: Event)
    requires |s.ring| > 0 && Step(s, e).Some?
    ensures Step(s, e).value.awaiting ==
      match e case AwaitStdin => Some(s.ring[0].pid) case WakeStdin => None case _ => s.awaiting
  {
    hide Dispatch, FirstRunnable;
  }
}
