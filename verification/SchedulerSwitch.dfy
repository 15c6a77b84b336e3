/** Who runs next, and in what order everybody waits, after each scheduler event
    (kernel/scheduler/scheduler.c:46-293).  The statements count places round the ring and name
    neither the lookup nor the switch of the model. */
module SchedulerSwitch {
  import opened SchedulerModel

  // Place i counted round a ring of n tasks.
  function Round(i: nat, n: nat): (p: nat)
    requires i < 2 * n
    ensures p < n && (p == i || p == i - n)
  {
    if i < n then i else i - n
  }

  // The ring `before`, entered at its nearest runnable task: the places from 1 to i - 1 after the
  // current one hold no runnable task, place i does, and every task keeps its place.  Place |before|
  // is the current task again.
  ghost predicate Entered(before: seq<Slot>, i: nat, after: seq<Slot>) {
    && 0 < i <= |before| == |after|
    && (forall j :: 0 < j < i ==> before[j].status != Ready && before[j].status != SchedulerIdle)
    && (var next := before[Round(i, |before|)];
        && (next.status == Ready || next.status == SchedulerIdle)
        && after[0] == (if next.pid == IDLE_PID then next else Slot(next.pid, Running)))
    && (forall k :: 0 < k < |before| ==> after[k] == before[Round(i + k, |before|)])
  }

  lemma LookupEnters(ring: seq<Slot>) returns (i: nat)
    requires |ring| > 0 && FirstRunnable(Walk(ring)) < |ring|
    ensures i == FirstRunnable(Walk(ring)) + 1
    ensures Entered(ring, i, Dispatch(Walk(ring), i - 1))
    ensures !Runnable(ring[0].status) ==> i < |ring|
  {
    var walk := Walk(ring);
    FirstRunnableIsNearest(walk);
    i := FirstRunnable(walk) + 1;
    forall j | 0 < j < i ensures ring[j].status != Ready && ring[j].status != SchedulerIdle {
      assert walk[j - 1] == ring[j];
    }
    PlacesKept(ring, i);
    var after := Dispatch(walk, i - 1);
    assert RotateTo(walk, i - 1)[0] == ring[Round(i, |ring|)];
  }

  // Place k of a walk entered at slot i.
  lemma PlacesOfWalk(walk: seq<Slot>, i: nat)
    requires i < |walk|
    ensures var r := RotateTo(walk, i);
      |r| == |walk| && forall k :: 0 <= k < |walk| ==> r[k] == walk[Round(i + k, |walk|)]
  {
  }

  // Place k of the ring entered at place i.
  lemma PlacesKept(ring: seq<Slot>, i: nat)
    requires 0 < i <= |ring|
    ensures var r := RotateTo(Walk(ring), i - 1);
      |r| == |ring| && forall k :: 0 <= k < |ring| ==> r[k] == ring[Round(i + k, |ring|)]
  {
    PlacesOfWalk(Walk(ring), i - 1);
  }

  // ---- The events ----

  lemma RingHasTasks(s: State)
    requires Inv(s)
    ensures |s.ring| > 0
  {
  }

  /** await_stdin: the reader sleeps and is recorded, the idle task is woken if the reader was the only
      task counted, and the nearest task that is runnable then runs.  Nobody changes place. */
  lemma AwaitSwitches(s: State) returns (before: seq<Slot>, i: nat)
    requires Inv(s) && Enabled(s, AwaitStdin) && Step(s, AwaitStdin).Some?
    ensures |before| == |s.ring|
    ensures forall j :: 0 <= j < |s.ring| ==>
      before[j] == Slot(s.ring[j].pid,
                        if j == 0 then Sleep
                        else if s.total == 1 && s.ring[j].pid == IDLE_PID then SchedulerIdle
                        else s.ring[j].status)
    ensures i < |before| && Entered(before, i, Step(s, AwaitStdin).value.ring)
    ensures Step(s, AwaitStdin).value == s.(ring := Step(s, AwaitStdin).value.ring, awaiting := Some(s.ring[0].pid))
  {
    hide Inv, Entered, Dispatch, FirstRunnable, Step, Walk;
    RingHasTasks(s);
    var asleep := s.ring[0 := Slot(s.ring[0].pid, Sleep)];
    before := if s.total == 1 then SetStatus(asleep, IDLE_PID, SchedulerIdle) else asleep;
    AwaitIs(s, before);
    i := LookupEnters(before);
  }

  lemma AwaitIs(s: State, before: seq<Slot>)
    requires |s.ring| > 0 && s.ring[0].pid > REAPER_PID && Step(s, AwaitStdin).Some?
    requires var asleep := s.ring[0 := Slot(s.ring[0].pid, Sleep)];
      before == if s.total == 1 then SetStatus(asleep, IDLE_PID, SchedulerIdle) else asleep
    ensures |before| == |s.ring| && before[0] == Slot(s.ring[0].pid, Sleep) && FirstRunnable(Walk(before)) < |before|
    ensures Step(s, AwaitStdin).value ==
      s.(ring := Dispatch(Walk(before), FirstRunnable(Walk(before))), awaiting := Some(s.ring[0].pid))
  {
    hide Dispatch, FirstRunnable, Walk;
  }

  /** The reaper's pass: the queue is emptied, the reaper sleeps, and the nearest runnable task runs. */
  lemma ReapSwitches(s: State) returns (before: seq<Slot>, i: nat)
    requires Inv(s) && Enabled(s, Reap) && Step(s, Reap).Some?
    ensures |before| == |s.ring|
    ensures forall j :: 0 <= j < |s.ring| ==> before[j] == Slot(s.ring[j].pid, if j == 0 then Sleep else s.ring[j].status)
    ensures i < |before| && Entered(before, i, Step(s, Reap).value.ring)
    ensures Step(s, Reap).value == s.(ring := Step(s, Reap).value.ring, dead := [])
  {
    before := SetStatus(s.ring, REAPER_PID, Sleep);
    forall j | 0 < j < |s.ring| ensures s.ring[j].pid != REAPER_PID {
      assert Pids(s.ring)[j] != Pids(s.ring)[0];
    }
    i := LookupEnters(before);
  }

  /** task_exit: the task leaves the ring for the end of the dead queue, and of the others, in the order
      they waited, the first runnable one runs; the idle task is woken first if no task is left, and the
      reaper afterwards, so the reaper itself is not chosen for being woken. */
  lemma ExitSwitches(s: State) returns (before: seq<Slot>, i: nat, after: seq<Slot>)
    requires Inv(s) && Enabled(s, Exit) && Step(s, Exit).Some?
    ensures |before| == |s.ring| == |after| + 1
    ensures forall j :: 0 <= j < |s.ring| ==>
      before[j] == Slot(s.ring[j].pid, if s.total == 1 && s.ring[j].pid == IDLE_PID then SchedulerIdle else s.ring[j].status)
    ensures 0 < i < |before| && (before[i].status == Ready || before[i].status == SchedulerIdle)
    ensures forall j :: 0 < j < i ==> before[j].status != Ready && before[j].status != SchedulerIdle
    ensures after[0] == if before[i].pid == IDLE_PID then before[i] else Slot(before[i].pid, Running)
    ensures forall k :: 0 < k < |after| ==> after[k] == before[1 + Round(i - 1 + k, |after|)]
    ensures var t := Step(s, Exit).value;
      && |t.ring| == |after| && t == s.(ring := t.ring, dead := s.dead + [s.ring[0].pid], total := s.total - 1)
      && (forall k :: 0 <= k < |after| ==> t.ring[k] == if after[k].pid == REAPER_PID then Slot(REAPER_PID, Ready) else after[k])
  {
    hide Inv, Dispatch, FirstRunnable, Step;
    RingHasTasks(s);
    before := if s.total == 1 then SetStatus(s.ring, IDLE_PID, SchedulerIdle) else s.ring;
    var rest := before[1..];
    i := FirstRunnable(rest) + 1;
    ExitIs(s, before, i);
    NearestOf(before, rest, i);
    after := Dispatch(rest, i - 1);
    DispatchPlaces(before, rest, i);
  }

  lemma NearestOf(before: seq<Slot>, rest: seq<Slot>, i: nat)
    requires |before| > 0 && rest == before[1..] && i == FirstRunnable(rest) + 1 < |before|
    ensures Runnable(before[i].status) && forall j :: 0 < j < i ==> !Runnable(before[j].status)
  {
    FirstRunnableIsNearest(rest);
    forall j | 0 < j < i ensures !Runnable(before[j].status) {
      assert rest[j - 1] == before[j];
    }
  }

  lemma DispatchPlaces(before: seq<Slot>, rest: seq<Slot>, i: nat)
    requires |before| > 0 && rest == before[1..] && 0 < i < |before|
    ensures var after := Dispatch(rest, i - 1);
      && |after| == |rest| && after[0] == (if before[i].pid == IDLE_PID then before[i] else Slot(before[i].pid, Running))
      && forall k :: 0 < k < |after| ==> after[k] == before[1 + Round(i - 1 + k, |after|)]
  {
    PlacesOfWalk(rest, i - 1);
    assert RotateTo(rest, i - 1)[0] == before[i];
    hide RotateTo;
    var after := Dispatch(rest, i - 1);
    forall k | 0 < k < |after| ensures after[k] == before[1 + Round(i - 1 + k, |after|)] {
      assert after[k] == rest[Round(i - 1 + k, |rest|)];
    }
  }

  lemma ExitIs(s: State, before: seq<Slot>, i: nat)
    requires |s.ring| > 0 && Step(s, Exit).Some?
    requires before == (if s.total == 1 then SetStatus(s.ring, IDLE_PID, SchedulerIdle) else s.ring)
    requires i == FirstRunnable(before[1..]) + 1
    ensures i < |before| == |s.ring|
    ensures Step(s, Exit).value ==
      s.(ring := SetStatus(Dispatch(before[1..], i - 1), REAPER_PID, Ready), dead := s.dead + [s.ring[0].pid], total := s.total - 1)
  {
    hide Dispatch, FirstRunnable;
  }

  /** scheduler_tick: the idle task is woken if no task is counted; if the nearest runnable task is the
      current one again nothing else changes, otherwise the current task becomes ready, unless it is
      idle, and gives way to it. */
  lemma TickSwitches(s: State) returns (woken: seq<Slot>, i: nat)
    requires Inv(s) && Step(s, Tick).Some?
    ensures |woken| == |s.ring|
    ensures forall j :: 0 <= j < |s.ring| ==>
      woken[j] == Slot(s.ring[j].pid, if s.total == 0 && s.ring[j].pid == IDLE_PID then SchedulerIdle else s.ring[j].status)
    ensures 0 < i <= |woken| && forall j :: 0 < j < i ==> woken[j].status != Ready && woken[j].status != SchedulerIdle
    ensures Step(s, Tick).value == s.(ring := Step(s, Tick).value.ring)
    ensures i == |woken| ==> Step(s, Tick).value.ring == woken
    ensures i < |woken| ==>
      Entered(if woken[0].status == SchedulerIdle then woken else woken[0 := Slot(woken[0].pid, Ready)], i, Step(s, Tick).value.ring)
  {
    hide Inv, Entered, Dispatch, FirstRunnable, Step, Walk;
    RingHasTasks(s);
    woken := if s.total == 0 then SetStatus(s.ring, IDLE_PID, SchedulerIdle) else s.ring;
    i := FirstRunnable(Walk(woken)) + 1;
    TickIs(s, woken, i);
    NearestInWalk(woken, i);
    if i < |woken| {
      var parked := if woken[0].status == SchedulerIdle then woken else woken[0 := Slot(woken[0].pid, Ready)];
      ParkedLookup(woken, parked, i);
      var k := LookupEnters(parked);
    }
  }

  lemma NearestInWalk(ring: seq<Slot>, i: nat)
    requires |ring| > 0 && i == FirstRunnable(Walk(ring)) + 1 <= |ring|
    ensures forall j :: 0 < j < i ==> !Runnable(ring[j].status)
  {
    FirstRunnableIsNearest(Walk(ring));
    forall j | 0 < j < i ensures !Runnable(ring[j].status) {
      assert Walk(ring)[j - 1] == ring[j];
    }
  }

  lemma TickIs(s: State, woken: seq<Slot>, i: nat)
    requires |s.ring| > 0 && Step(s, Tick).Some?
    requires woken == (if s.total == 0 then SetStatus(s.ring, IDLE_PID, SchedulerIdle) else s.ring)
    requires i == FirstRunnable(Walk(woken)) + 1
    ensures i <= |woken| == |s.ring|
    ensures i == |woken| ==> Step(s, Tick).value == s.(ring := woken)
    ensures i < |woken| ==>
      Step(s, Tick).value ==
      s.(ring := Dispatch(Walk(if woken[0].status == SchedulerIdle then woken else woken[0 := Slot(woken[0].pid, Ready)]), i - 1))
  {
    hide Dispatch, FirstRunnable;
  }

  // The lookup before the current task was made ready and the one after it find the same place.
  lemma ParkedLookup(woken: seq<Slot>, parked: seq<Slot>, i: nat)
    requires 0 < i < |woken| == |parked| && i == FirstRunnable(Walk(woken)) + 1
    requires forall j :: 0 < j < |woken| ==> parked[j] == woken[j]
    ensures FirstRunnable(Walk(parked)) + 1 == i
  {
    FirstRunnableIsNearest(Walk(woken));
    FirstRunnableIsNearest(Walk(parked));
    assert forall j :: 0 <= j < |woken| - 1 ==> Walk(parked)[j] == Walk(woken)[j];
  }

  /** enqueue_task: the new task is the last to be looked at from the current one, ready and with the next
      pid; the idle task sleeps, whether or not another task can run; nothing else changes. */
  lemma EnqueueAppends(s: State)
    requires Inv(s)
    ensures Step(s, Enqueue).Some?
    ensures var t := Step(s, Enqueue).value;
      && t == s.(ring := t.ring, total := s.total + 1, nextPid := s.nextPid + 1) && |t.ring| == |s.ring| + 1
      && (forall j :: 0 <= j < |s.ring| ==>
            t.ring[j] == Slot(s.ring[j].pid, if s.ring[j].pid == IDLE_PID then Sleep else s.ring[j].status))
      && t.ring[|s.ring|] == Slot(s.nextPid, Ready)
  {
    assert IDLE_PID in Pids(s.ring);
  }

  /** wake_stdin_task: the recorded reader becomes ready in its place, and nobody is recorded. */
  lemma WakeReadies(s: State)
    requires Inv(s)
    ensures Step(s, WakeStdin).Some?
    ensures var t := Step(s, WakeStdin).value;
      && t == s.(ring := t.ring, awaiting := None) && |t.ring| == |s.ring|
      && (forall j :: 0 <= j < |s.ring| ==>
            t.ring[j] == Slot(s.ring[j].pid, if s.awaiting == Some(s.ring[j].pid) then Ready else s.ring[j].status))
  {
  }
}
