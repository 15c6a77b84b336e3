/** The scheduler as a state machine over values (kernel/scheduler/scheduler.c).
    The ring is a sequence that starts at the current task and follows the next pointers.  Every
    event is atomic, because every IDT gate is an interrupt gate (kernel/idt/idt.c:92-97).
 */
module SchedulerModel {
  import opened Sequences

  datatype Status = SchedulerIdle | Ready | Running | Sleep

  datatype Slot = Slot(pid: nat, status: Status)

  datatype Option<T> = None | Some(value: T)

  const IDLE_PID: nat := 0
  const REAPER_PID: nat := 1

  datatype State = State(
    ring: seq<Slot>,            // from the current task on, in next order
    dead: seq<nat>,             // dead queue, oldest first
    awaiting: Option<nat>,      // awaiting_stdin
    total: int,                 // task_total
    nextPid: nat)

  datatype Event = Tick | Enqueue | Exit | AwaitStdin | WakeStdin | Reap

  predicate Runnable(s: Status) { s == Ready || s == SchedulerIdle }

  ghost predicate HasRunnable(walk: seq<Slot>) {
    exists i :: 0 <= i < |walk| && Runnable(walk[i].status)
  }

  // The first runnable slot of a walk, |walk| when there is none.
  function FirstRunnable(walk: seq<Slot>): nat {
    if walk == [] || Runnable(walk[0].status) then 0 else 1 + FirstRunnable(walk[1..])
  }

  function SetStatus(ring: seq<Slot>, pid: nat, status: Status): seq<Slot> {
    seq(|ring|, i requires 0 <= i < |ring| => if ring[i].pid == pid then Slot(pid, status) else ring[i])
  }

  // The order in which next_task visits the ring: the current task comes last.
  function Walk(ring: seq<Slot>): seq<Slot>
    requires |ring| > 0
  {
    ring[1..] + [ring[0]]
  }

  // The ring as seen from slot k of a walk.
  function RotateTo(walk: seq<Slot>, k: nat): seq<Slot>
    requires k < |walk|
  {
    walk[k..] + walk[..k]
  }

  // load_context once the lookup has found slot k of the walk.
  function Dispatch(walk: seq<Slot>, k: nat): seq<Slot>
    requires k < |walk|
  {
    var ring := RotateTo(walk, k);
    if ring[0].pid != IDLE_PID then ring[0 := Slot(ring[0].pid, Running)] else ring
  }

  // ---- Events ----

  // None when a lookup finds no runnable task: next_task then never returns.
  function Step(s: State, e: Event): Option<State>
    requires |s.ring| > 0
  {
    match e
    case Tick =>
      var ring := if s.total == 0 then SetStatus(s.ring, IDLE_PID, SchedulerIdle) else s.ring;
      var k := FirstRunnable(Walk(ring));
      if k >= |ring| then None
      else if k == |ring| - 1 then Some(s.(ring := ring))
      else
        var parked := if ring[0].status != SchedulerIdle then ring[0 := Slot(ring[0].pid, Ready)] else ring;
        Some(s.(ring := Dispatch(Walk(parked), k)))
    case Enqueue =>
      Some(s.(ring := SetStatus(s.ring + [Slot(s.nextPid, Ready)], IDLE_PID, Sleep),
              total := s.total + 1, nextPid := s.nextPid + 1))
    case Exit =>
      var ring := if s.total == 1 then SetStatus(s.ring, IDLE_PID, SchedulerIdle) else s.ring;
      var k := FirstRunnable(ring[1..]);
      if k >= |ring| - 1 then None
      else
        Some(s.(ring := SetStatus(Dispatch(ring[1..], k), REAPER_PID, Ready),
                dead := s.dead + [ring[0].pid], total := s.total - 1))
    case AwaitStdin =>
      var asleep := s.ring[0 := Slot(s.ring[0].pid, Sleep)];
      var ring := if s.total == 1 then SetStatus(asleep, IDLE_PID, SchedulerIdle) else asleep;
      var k := FirstRunnable(Walk(ring));
      if k >= |ring| then None
      else Some(s.(ring := Dispatch(Walk(ring), k), awaiting := Some(s.ring[0].pid)))
    case WakeStdin =>
      if s.awaiting.None? then Some(s)
      else Some(s.(ring := SetStatus(s.ring, s.awaiting.value, Ready), awaiting := None))
    case Reap =>
      var ring := SetStatus(s.ring, REAPER_PID, Sleep);
      var k := FirstRunnable(Walk(ring));
      if k >= |ring| then None
      else Some(s.(ring := Dispatch(Walk(ring), k), dead := []))
  }

  // Who may cause an event: idle and reaper neither exit nor read, and only the reaper reaps.
  predicate Enabled(s: State, e: Event)
    requires |s.ring| > 0
  {
    match e
    case Exit => s.ring[0].pid > REAPER_PID
    case AwaitStdin => s.ring[0].pid > REAPER_PID
    case Reap => s.ring[0].pid == REAPER_PID
    case _ => true
  }

  const INITIAL: State :=
    State([Slot(IDLE_PID, SchedulerIdle), Slot(REAPER_PID, Sleep)], [], None, 0, 2)

  // ---- The invariant ----

  function Pids(ring: seq<Slot>): (r: seq<nat>)
    ensures |r| == |ring|
  {
    seq(|ring|, i requires 0 <= i < |ring| => ring[i].pid)
  }

  // Each task once; idle and reaper among them.
  ghost predicate PidsOk(pids: seq<nat>, nextPid: nat) {
    NoDup(pids) && (forall p :: p in pids ==> p < nextPid) && IDLE_PID in pids && REAPER_PID in pids
  }

  // Only the idle task may have the idle status.
  ghost predicate RingOk(ring: seq<Slot>, nextPid: nat) {
    PidsOk(Pids(ring), nextPid) && forall x :: x in ring && x.status == SchedulerIdle ==> x.pid == IDLE_PID
  }

  // A running task is the current one, and a current user task is running.
  ghost predicate CurrentOk(ring: seq<Slot>)
    requires |ring| > 0
  {
    && (forall i :: 0 < i < |ring| ==> ring[i].status != Running)
    && (ring[0].pid > REAPER_PID ==> ring[0].status == Running)
    && (ring[0].pid == REAPER_PID ==> ring[0].status == Running || ring[0].status == Ready)
    && (ring[0].pid == IDLE_PID ==> ring[0].status != Running)
  }

  ghost predicate DeadOk(s: State) {
    && (forall i, j :: 0 <= i < j < |s.dead| ==> s.dead[i] != s.dead[j])
    && (forall i :: 0 <= i < |s.dead| ==> REAPER_PID < s.dead[i] < s.nextPid && s.dead[i] !in Pids(s.ring))
  }

  ghost predicate Inv(s: State) {
    && |s.ring| >= 2 && s.total == |s.ring| - 2
    && RingOk(s.ring, s.nextPid) && CurrentOk(s.ring) && DeadOk(s)
    && (s.awaiting.Some? ==> s.awaiting.value > REAPER_PID && Slot(s.awaiting.value, Sleep) in s.ring)
    && (s.dead != [] ==> Slot(REAPER_PID, Sleep) !in s.ring)
  }

  lemma InitialOk()
    ensures Inv(INITIAL)
  {
    assert Pids(INITIAL.ring) == [IDLE_PID, REAPER_PID];
  }

  // ---- The lookup ----

  /** next_task finds the nearest runnable task of the walk, if there is one. */
  lemma {:induction false} FirstRunnableIsNearest(walk: seq<Slot>)
    ensures FirstRunnable(walk) <= |walk|
    ensures FirstRunnable(walk) < |walk| <==> HasRunnable(walk)
    ensures FirstRunnable(walk) < |walk| ==> Runnable(walk[FirstRunnable(walk)].status)
    ensures forall i :: 0 <= i < FirstRunnable(walk) ==> !Runnable(walk[i].status)
  {
    if walk != [] && !Runnable(walk[0].status) {
      FirstRunnableIsNearest(walk[1..]);
      forall i | 0 < i < |walk| ensures walk[i] == walk[1..][i - 1] {
      }
    }
  }

  /** next_task walks round the ring for ever exactly when no task of the ring is runnable: the task
      looked at after m steps is slot m modulo the length of the walk. */
  lemma LookupEndsIffRunnable(walk: seq<Slot>)
    requires |walk| > 0
    ensures HasRunnable(walk) <==> exists m: nat :: Runnable(walk[m % |walk|].status)
  {
    if i :| 0 <= i < |walk| && Runnable(walk[i].status) {
      assert i % |walk| == i;
    }
  }

  // ---- Elementary changes of the ring ----

  lemma SetStatusKeeps(ring: seq<Slot>, pid: nat, status: Status, nextPid: nat)
    requires RingOk(ring, nextPid) && (status == SchedulerIdle ==> pid == IDLE_PID)
    ensures var r := SetStatus(ring, pid, status);
      && RingOk(r, nextPid) && Pids(r) == Pids(ring)
      && (forall x :: x in r && x.pid != pid ==> x in ring)
      && (forall x :: x in r && x.pid == pid ==> x.status == status)
      && (forall x :: x in ring && x.pid != pid ==> x in r)
  {
    var r := SetStatus(ring, pid, status);
    assert Pids(r) == Pids(ring);
    forall x | x in ring && x.pid != pid ensures x in r {
      var i :| 0 <= i < |ring| && ring[i] == x;
      assert r[i] == x;
    }
  }

  lemma PidsConcat(a: seq<Slot>, b: seq<Slot>)
    ensures Pids(a + b) == Pids(a) + Pids(b)
  {
  }

  lemma RotateKeepsPids(a: seq<nat>, b: seq<nat>, nextPid: nat)
    requires PidsOk(a + b, nextPid)
    ensures PidsOk(b + a, nextPid)
  {
    var s, r := a + b, b + a;
    forall i, j | 0 <= i < j < |r| ensures r[i] != r[j] {
      var i', j' := if i < |b| then |a| + i else i - |b|, if j < |b| then |a| + j else j - |b|;
      assert r[i] == s[i'] && r[j] == s[j'];
      assert if i' < j' then s[i'] != s[j'] else s[j'] != s[i'];
    }
    forall p | p in r ensures p < nextPid {
      assert p in s;
    }
    assert IDLE_PID in s && REAPER_PID in s;
  }

  lemma RotateKeeps(a: seq<Slot>, b: seq<Slot>, nextPid: nat)
    requires RingOk(a + b, nextPid)
    ensures RingOk(b + a, nextPid)
    ensures forall p: nat :: p in Pids(b + a) <==> p in Pids(a + b)
    ensures forall x :: x in b + a <==> x in a + b
  {
    PidsConcat(a, b);
    PidsConcat(b, a);
    RotateKeepsPids(Pids(a), Pids(b), nextPid);
  }

  lemma WalkKeeps(ring: seq<Slot>, nextPid: nat)
    requires |ring| > 0 && RingOk(ring, nextPid)
    ensures RingOk(Walk(ring), nextPid)
    ensures forall p: nat :: p in Pids(Walk(ring)) <==> p in Pids(ring)
    ensures forall x :: x in Walk(ring) <==> x in ring
  {
    assert [ring[0]] + ring[1..] == ring;
    RotateKeeps([ring[0]], ring[1..], nextPid);
  }

  // The current slot gets another status.
  lemma ParkKeeps(ring: seq<Slot>, status: Status, nextPid: nat)
    requires |ring| > 0 && RingOk(ring, nextPid) && status != SchedulerIdle
    ensures var r := ring[0 := Slot(ring[0].pid, status)];
      && RingOk(r, nextPid) && Pids(r) == Pids(ring)
      && (forall x :: x in r && x.pid != ring[0].pid ==> x in ring)
      && (forall x :: x in r && x.pid == ring[0].pid ==> x.status == status)
      && (forall x :: x in ring && x.pid != ring[0].pid ==> x in r)
  {
    forall i | 0 < i < |ring| ensures ring[i].pid != ring[0].pid {
      assert Pids(ring)[i] != Pids(ring)[0];
    }
    assert ring[0 := Slot(ring[0].pid, status)] == SetStatus(ring, ring[0].pid, status);
    SetStatusKeeps(ring, ring[0].pid, status, nextPid);
  }

  /** load_context on a walk without running tasks keeps the ring sound, makes the task found the
      current one, and puts no task to sleep and wakes none. */
  lemma DispatchKeeps(walk: seq<Slot>, k: nat, nextPid: nat)
    requires RingOk(walk, nextPid) && k < |walk| && Runnable(walk[k].status)
    requires forall x :: x in walk ==> x.status != Running
    ensures var r := Dispatch(walk, k);
      && |r| == |walk| && r[0].pid == walk[k].pid && RingOk(r, nextPid) && CurrentOk(r)
      && (forall p: nat :: p in Pids(r) <==> p in Pids(walk))
      && (forall p: nat :: Slot(p, Sleep) in r <==> Slot(p, Sleep) in walk)
  {
    assert walk[..k] + walk[k..] == walk;
    RotateKeeps(walk[..k], walk[k..], nextPid);
    var ring := RotateTo(walk, k);
    assert forall i :: 0 <= i < |ring| ==> ring[i] in walk;
    if ring[0].pid != IDLE_PID {
      ParkKeeps(ring, Running, nextPid);
      forall p: nat ensures Slot(p, Sleep) in Dispatch(walk, k) <==> Slot(p, Sleep) in ring {
        if Slot(p, Sleep) in ring {
          assert Slot(p, Sleep) != ring[0];
          OnePerPid(ring, Slot(p, Sleep));
        }
      }
    }
  }

  lemma OnePerPid(ring: seq<Slot>, x: Slot)
    requires |ring| > 0 && NoDup(Pids(ring)) && x in ring && x != ring[0]
    ensures x.pid != ring[0].pid
  {
    var i :| 0 <= i < |ring| && ring[i] == x;
    assert Pids(ring)[i] != Pids(ring)[0];
  }

  /** The lookup that scheduler_tick makes to decide and the one load_context makes afterwards find
      the same task, although the current task's status changed in between. */
  lemma TwoLookupsAgree(ring: seq<Slot>, parked: seq<Slot>)
    requires |ring| > 0 && |parked| == |ring| && parked[1..] == ring[1..]
    requires FirstRunnable(Walk(ring)) < |ring| - 1
    ensures FirstRunnable(Walk(parked)) == FirstRunnable(Walk(ring))
  {
    FirstRunnablePrefix(ring[1..], [ring[0]]);
    FirstRunnablePrefix(parked[1..], [parked[0]]);
  }

  lemma {:induction false} FirstRunnablePrefix(a: seq<Slot>, b: seq<Slot>)
    ensures FirstRunnable(a + b) == if FirstRunnable(a) < |a| then FirstRunnable(a) else |a| + FirstRunnable(b)
    ensures FirstRunnable(a) <= |a|
  {
    if a == [] {
      assert a + b == b;
    } else {
      assert (a + b)[1..] == a[1..] + b;
      FirstRunnablePrefix(a[1..], b);
    }
  }

  // ---- Every event keeps the invariant ----

  // Everything Inv says, for a ring in which no task is running yet.
  ghost predicate Parked(s: State) {
    && |s.ring| >= 2 && s.total == |s.ring| - 2
    && RingOk(s.ring, s.nextPid) && DeadOk(s)
    && (forall x :: x in s.ring ==> x.status != Running)
    && (s.awaiting.Some? ==> s.awaiting.value > REAPER_PID && Slot(s.awaiting.value, Sleep) in s.ring)
    && (s.dead != [] ==> Slot(REAPER_PID, Sleep) !in s.ring)
  }

  /** Dispatching from a parked state gives a state that satisfies the invariant. */
  lemma DispatchFromParked(s: State)
    requires Parked(s) && FirstRunnable(Walk(s.ring)) < |s.ring|
    ensures Inv(s.(ring := Dispatch(Walk(s.ring), FirstRunnable(Walk(s.ring)))))
  {
    hide Walk, Dispatch;
    assert |Walk(s.ring)| == |s.ring| by { WalkLength(s.ring); }
    WalkKeeps(s.ring, s.nextPid);
    FirstRunnableIsNearest(Walk(s.ring));
    DispatchKeeps(Walk(s.ring), FirstRunnable(Walk(s.ring)), s.nextPid);
  }

  lemma WalkLength(ring: seq<Slot>)
    requires |ring| > 0
    ensures |Walk(ring)| == |ring|
  {
  }

  lemma TickKeeps(s: State)
    requires Inv(s) && Step(s, Tick).Some?
    ensures Inv(Step(s, Tick).value)
  {
    hide Dispatch;
    var ring := if s.total == 0 then SetStatus(s.ring, IDLE_PID, SchedulerIdle) else s.ring;
    var k := FirstRunnable(Walk(ring));
    WakeIdleKeeps(s);
    if k < |ring| - 1 {
      var parked := if ring[0].status != SchedulerIdle then ring[0 := Slot(ring[0].pid, Ready)] else ring;
      ParkedTick(s.(ring := ring), parked);
      TwoLookupsAgree(ring, parked);
      DispatchFromParked(s.(ring := parked));
    }
  }

  // wake_idle_task.
  lemma WakeIdleKeeps(s: State)
    requires Inv(s)
    ensures Inv(s.(ring := SetStatus(s.ring, IDLE_PID, SchedulerIdle)))
  {
    SetStatusKeeps(s.ring, IDLE_PID, SchedulerIdle, s.nextPid);
  }

  lemma ParkedTick(s: State, parked: seq<Slot>)
    requires Inv(s)
    requires parked == if s.ring[0].status != SchedulerIdle then s.ring[0 := Slot(s.ring[0].pid, Ready)] else s.ring
    ensures Parked(s.(ring := parked))
  {
    ParkKeeps(s.ring, Ready, s.nextPid);
    forall x | x in s.ring && x != s.ring[0] ensures x.pid != s.ring[0].pid {
      OnePerPid(s.ring, x);
    }
  }

  lemma AwaitKeeps(s: State)
    requires Inv(s) && Enabled(s, AwaitStdin) && Step(s, AwaitStdin).Some?
    ensures Inv(Step(s, AwaitStdin).value)
  {
    hide Dispatch;
    var pid := s.ring[0].pid;
    var asleep := s.ring[0 := Slot(pid, Sleep)];
    ParkKeeps(s.ring, Sleep, s.nextPid);
    assert Slot(pid, Sleep) == asleep[0];
    var p := s.(ring := asleep, awaiting := Some(pid));
    assert Parked(p);
    if s.total == 1 {
      SetStatusKeeps(asleep, IDLE_PID, SchedulerIdle, s.nextPid);
      p := p.(ring := SetStatus(asleep, IDLE_PID, SchedulerIdle));
      assert Parked(p);
    }
    DispatchFromParked(p);
  }

  lemma ReapKeeps(s: State)
    requires Inv(s) && Enabled(s, Reap) && Step(s, Reap).Some?
    ensures Inv(Step(s, Reap).value)
  {
    hide Dispatch;
    SetStatusKeeps(s.ring, REAPER_PID, Sleep, s.nextPid);
    var p := s.(ring := SetStatus(s.ring, REAPER_PID, Sleep), dead := []);
    forall x | x in s.ring && x != s.ring[0] ensures x.pid != s.ring[0].pid {
      OnePerPid(s.ring, x);
    }
    assert Parked(p);
    DispatchFromParked(p);
  }

  lemma WakeStdinKeeps(s: State)
    requires Inv(s)
    ensures Step(s, WakeStdin).Some? && Inv(Step(s, WakeStdin).value)
  {
    if s.awaiting.Some? {
      SetStatusKeeps(s.ring, s.awaiting.value, Ready, s.nextPid);
      assert Pids(s.ring)[0] == s.ring[0].pid;
      forall x | x in s.ring && x != s.ring[0] ensures x.pid != s.ring[0].pid {
        OnePerPid(s.ring, x);
      }
      assert s.ring[0].pid != s.awaiting.value;
    }
  }

  lemma AppendPid(pids: seq<nat>, p: nat)
    requires PidsOk(pids, p)
    ensures PidsOk(pids + [p], p + 1)
  {
    forall i | 0 <= i < |pids| ensures pids[i] != p {
      assert pids[i] in pids;
    }
  }

  lemma EnqueueKeeps(s: State)
    requires Inv(s)
    ensures Step(s, Enqueue).Some? && Inv(Step(s, Enqueue).value)
  {
    var longer := s.ring + [Slot(s.nextPid, Ready)];
    PidsConcat(s.ring, [Slot(s.nextPid, Ready)]);
    assert Pids([Slot(s.nextPid, Ready)]) == [s.nextPid];
    AppendPid(Pids(s.ring), s.nextPid);
    assert Pids(longer)[0] == s.ring[0].pid;
    SetStatusKeeps(longer, IDLE_PID, Sleep, s.nextPid + 1);
  }

  lemma ExitKeeps(s: State)
    requires Inv(s) && Enabled(s, Exit) && Step(s, Exit).Some?
    ensures Inv(Step(s, Exit).value)
  {
    hide Dispatch, SetStatus, PidsOk;
    WakeIdleKeeps(s);
    var ring := if s.total == 1 then SetStatus(s.ring, IDLE_PID, SchedulerIdle) else s.ring;
    assert ring[0] == s.ring[0] && |ring| == |s.ring| by { SetStatusElsewhere(s.ring); }
    var p := s.(ring := ring);
    assert Inv(p);
    ExitFrom(p);
  }

  lemma SetStatusElsewhere(ring: seq<Slot>)
    requires |ring| > 0
    ensures |SetStatus(ring, IDLE_PID, SchedulerIdle)| == |ring|
    ensures ring[0].pid > REAPER_PID ==> SetStatus(ring, IDLE_PID, SchedulerIdle)[0] == ring[0]
  {
  }

  // task_exit after the idle task has been woken if need be.
  lemma ExitFrom(s: State)
    requires Inv(s) && s.ring[0].pid > REAPER_PID && FirstRunnable(s.ring[1..]) < |s.ring| - 1
    ensures Inv(s.(ring := SetStatus(Dispatch(s.ring[1..], FirstRunnable(s.ring[1..])), REAPER_PID, Ready),
                   dead := s.dead + [s.ring[0].pid], total := s.total - 1))
  {
    hide Dispatch, SetStatus, RingOk, CurrentOk, FirstRunnable;
    UnlinkPids(s);
    UnlinkSlots(s);
    UnlinkRing(s);
    var rest := s.ring[1..];
    FirstRunnableIsNearest(rest);
    DispatchKeeps(rest, FirstRunnable(rest), s.nextPid);
    var r := Dispatch(rest, FirstRunnable(rest));
    WakeReaper(r, s.nextPid);
    var t := SetStatus(r, REAPER_PID, Ready);
    forall i | 0 <= i < |s.dead| ensures s.dead[i] != s.ring[0].pid && s.dead[i] !in Pids(t) {
    }
  }

  lemma UnlinkPids(s: State)
    requires Inv(s) && s.ring[0].pid > REAPER_PID
    ensures PidsOk(Pids(s.ring[1..]), s.nextPid) && s.ring[0].pid !in Pids(s.ring[1..])
    ensures forall p: nat :: p in Pids(s.ring[1..]) ==> p in Pids(s.ring)
    ensures s.ring[0].pid in Pids(s.ring) && s.ring[0].pid < s.nextPid
  {
    var pids := Pids(s.ring);
    assert pids[0] == s.ring[0].pid && pids == [pids[0]] + pids[1..];
    assert Pids(s.ring[1..]) == pids[1..];
    assert IDLE_PID in pids && REAPER_PID in pids;
    forall p: nat | p in pids[1..] ensures p in pids && p != pids[0] {
    }
  }

  lemma UnlinkRing(s: State)
    requires Inv(s) && s.ring[0].pid > REAPER_PID
    ensures RingOk(s.ring[1..], s.nextPid)
  {
    UnlinkPids(s);
    UnlinkSlots(s);
  }

  lemma UnlinkSlots(s: State)
    requires Inv(s) && s.ring[0].pid > REAPER_PID
    ensures forall x :: x in s.ring[1..] ==> x.status != Running && x in s.ring
    ensures forall x :: x in s.ring && x.status != Running ==> x in s.ring[1..]
  {
    hide PidsOk;
    assert s.ring == [s.ring[0]] + s.ring[1..];
  }

  lemma WakeReaper(ring: seq<Slot>, nextPid: nat)
    requires |ring| > 0 && RingOk(ring, nextPid) && CurrentOk(ring)
    ensures var r := SetStatus(ring, REAPER_PID, Ready);
      && |r| == |ring| && RingOk(r, nextPid) && CurrentOk(r) && Pids(r) == Pids(ring) && Slot(REAPER_PID, Sleep) !in r
      && (forall p: nat :: p != REAPER_PID ==> (Slot(p, Sleep) in r <==> Slot(p, Sleep) in ring))
  {
    SetStatusKeeps(ring, REAPER_PID, Ready, nextPid);
  }

  // ---- All runs ----

  /** Every event keeps the scheduler invariant. */
  lemma StepKeeps(s: State, e: Event)
    requires Inv(s) && Enabled(s, e) && Step(s, e).Some?
    ensures Inv(Step(s, e).value)
  {
    hide Step, Inv;
    match e
    case Tick => TickKeeps(s);
    case Enqueue => EnqueueKeeps(s);
    case Exit => ExitKeeps(s);
    case AwaitStdin => AwaitKeeps(s);
    case WakeStdin => WakeStdinKeeps(s);
    case Reap => ReapKeeps(s);
  }

  // A run: every event is enabled, and every lookup ends.
  ghost predicate Run(states: seq<State>, events: seq<Event>) {
    && |states| == |events| + 1
    && forall i :: 0 <= i < |events| ==>
         |states[i].ring| > 0 && Enabled(states[i], events[i]) && Step(states[i], events[i]) == Some(states[i + 1])
  }

  /** The scheduler invariant holds after every event of every run in which idle and reaper never
      exit and every lookup has a runnable task. */
  lemma {:induction false} RunKeeps(states: seq<State>, events: seq<Event>, i: nat)
    requires Run(states, events) && Inv(states[0]) && i < |states|
    ensures Inv(states[i])
  {
    hide Inv, Step;
    if i > 0 {
      RunKeeps(states, events, i - 1);
      var j := i - 1;
      assert |states[j].ring| > 0 && Enabled(states[j], events[j]) && Step(states[j], events[j]) == Some(states[j + 1]);
      StepKeeps(states[j], events[j]);
    }
  }

  /** The only thing that can go wrong in a lookup: an event is undefined exactly when no task of
      the ring it searches is runnable. */
  lemma StepDefinedIffRunnable(s: State, e: Event)
    requires Inv(s) && Enabled(s, e)
    ensures e == Tick ==> (Step(s, e).Some? <==>
      HasRunnable(Walk(if s.total == 0 then SetStatus(s.ring, IDLE_PID, SchedulerIdle) else s.ring)))
    ensures e == Exit ==> (Step(s, e).Some? <==>
      HasRunnable((if s.total == 1 then SetStatus(s.ring, IDLE_PID, SchedulerIdle) else s.ring)[1..]))
    ensures e == AwaitStdin ==> (Step(s, e).Some? <==>
      var asleep := s.ring[0 := Slot(s.ring[0].pid, Sleep)];
      HasRunnable(Walk(if s.total == 1 then SetStatus(asleep, IDLE_PID, SchedulerIdle) else asleep)))
    ensures e == Reap ==> (Step(s, e).Some? <==> HasRunnable(Walk(SetStatus(s.ring, REAPER_PID, Sleep))))
    ensures e == Enqueue || e == WakeStdin ==> Step(s, e).Some?
  {
    match e
    case Tick => FirstRunnableIsNearest(Walk(if s.total == 0 then SetStatus(s.ring, IDLE_PID, SchedulerIdle) else s.ring));
    case Exit => FirstRunnableIsNearest((if s.total == 1 then SetStatus(s.ring, IDLE_PID, SchedulerIdle) else s.ring)[1..]);
    case AwaitStdin =>
      var asleep := s.ring[0 := Slot(s.ring[0].pid, Sleep)];
      FirstRunnableIsNearest(Walk(if s.total == 1 then SetStatus(asleep, IDLE_PID, SchedulerIdle) else asleep));
    case Reap => FirstRunnableIsNearest(Walk(SetStatus(s.ring, REAPER_PID, Sleep)));
    case _ =>
  }

  // ---- No lost reaping ----

  // The tasks that left the ring during the first i events, and those the reaper took, in order.
  ghost function Exited(states: seq<State>, events: seq<Event>, i: nat): seq<nat>
    requires Run(states, events) && i < |states|
  {
    if i == 0 then []
    else Exited(states, events, i - 1) + if events[i - 1] == Exit then [states[i - 1].ring[0].pid] else []
  }

  ghost function Reaped(states: seq<State>, events: seq<Event>, i: nat): seq<nat>
    requires Run(states, events) && i < |states|
  {
    if i == 0 then []
    else Reaped(states, events, i - 1) + if events[i - 1] == Reap then states[i - 1].dead else []
  }

  /** Exited tasks are reaped at most once and in exit order: what was reaped followed by what is
      still queued is what exited, and no task exits twice. */
  lemma {:induction false} ReapedOnceInOrder(states: seq<State>, events: seq<Event>, i: nat)
    requires Run(states, events) && Inv(states[0]) && states[0].dead == [] && i < |states|
    ensures Exited(states, events, i) == Reaped(states, events, i) + states[i].dead
    ensures NoDup(Exited(states, events, i))
    ensures forall p :: p in Exited(states, events, i) ==> p < states[i].nextPid && p !in Pids(states[i].ring)
  {
    hide Step, Inv, Pids, NoDup, Enabled;
    if i == 0 {
      EmptyNoDup();
    } else {
      ReapedOnceInOrder(states, events, i - 1);
      RunKeeps(states, events, i - 1);
      var j := i - 1;
      assert |states[j].ring| > 0 && Enabled(states[j], events[j]) && Step(states[j], events[j]) == Some(states[j + 1]);
      DeadChange(states[j], events[j]);
      ExitedBefore(states[j], events[j], Exited(states, events, j), Exited(states, events, i));
      var gone, reaped, s := Exited(states, events, j), Reaped(states, events, j), states[j];
      assert gone + [s.ring[0].pid] == reaped + (s.dead + [s.ring[0].pid]);
      assert gone + [] == reaped + s.dead == (reaped + []) + s.dead == (reaped + s.dead) + [];
    }
  }

  lemma EmptyNoDup()
    ensures NoDup<nat>([])
  {
  }

  lemma DeadChange(s: State, e: Event)
    requires |s.ring| > 0 && Step(s, e).Some?
    ensures Step(s, e).value.dead ==
      match e case Exit => s.dead + [s.ring[0].pid] case Reap => [] case _ => s.dead
    ensures Step(s, e).value.nextPid >= s.nextPid
  {
    hide Dispatch, FirstRunnable;
    var ring := if s.total == 1 then SetStatus(s.ring, IDLE_PID, SchedulerIdle) else s.ring;
    assert ring[0].pid == s.ring[0].pid;
  }

  lemma DispatchPids(walk: seq<Slot>, k: nat)
    requires k < |walk|
    ensures forall p: nat :: p in Pids(Dispatch(walk, k)) <==> p in Pids(walk)
  {
    assert Pids(Dispatch(walk, k)) == Pids(RotateTo(walk, k));
    PidsConcat(walk[k..], walk[..k]);
    PidsConcat(walk[..k], walk[k..]);
    assert walk[..k] + walk[k..] == walk;
  }

  lemma SetStatusPids(ring: seq<Slot>, pid: nat, status: Status)
    ensures Pids(SetStatus(ring, pid, status)) == Pids(ring)
  {
  }

  lemma WalkPids(ring: seq<Slot>)
    requires |ring| > 0
    ensures forall p: nat :: p in Pids(Walk(ring)) <==> p in Pids(ring)
  {
    PidsConcat([ring[0]], ring[1..]);
    PidsConcat(ring[1..], [ring[0]]);
    assert [ring[0]] + ring[1..] == ring;
  }

  lemma RedispatchPids(ring: seq<Slot>, before: seq<Slot>)
    requires |ring| > 0 && FirstRunnable(Walk(ring)) < |ring| && Pids(ring) == Pids(before)
    ensures |Walk(ring)| == |ring|
    ensures forall p: nat :: p in Pids(Dispatch(Walk(ring), FirstRunnable(Walk(ring)))) <==> p in Pids(before)
  {
    WalkPids(ring);
    DispatchPids(Walk(ring), FirstRunnable(Walk(ring)));
  }

  /** Only Enqueue brings a task into the ring, with a new pid; only Exit takes one out, the
      current one. */
  lemma PidsChange(s: State, e: Event)
    requires Inv(s) && Enabled(s, e) && Step(s, e).Some?
    ensures var t := Step(s, e).value;
      match e
      case Enqueue => Pids(t.ring) == Pids(s.ring) + [s.nextPid]
      case Exit => forall p: nat :: p in Pids(t.ring) <==> p in Pids(s.ring) && p != s.ring[0].pid
      case _ => forall p: nat :: p in Pids(t.ring) <==> p in Pids(s.ring)
  {
    hide RingOk, CurrentOk, DeadOk, Dispatch, FirstRunnable, Walk;
    SetStatusPids(s.ring, IDLE_PID, SchedulerIdle);
    match e
    case Tick =>
      var ring := if s.total == 0 then SetStatus(s.ring, IDLE_PID, SchedulerIdle) else s.ring;
      var k := FirstRunnable(Walk(ring));
      if k < |ring| - 1 {
        var parked := if ring[0].status != SchedulerIdle then ring[0 := Slot(ring[0].pid, Ready)] else ring;
        TwoLookupsAgree(ring, parked);
        assert Pids(parked) == Pids(s.ring);
        RedispatchPids(parked, s.ring);
      }
    case Enqueue =>
      SetStatusPids(s.ring + [Slot(s.nextPid, Ready)], IDLE_PID, Sleep);
      PidsConcat(s.ring, [Slot(s.nextPid, Ready)]);
    case Exit =>
      ExitPids(s);
    case AwaitStdin =>
      var asleep := s.ring[0 := Slot(s.ring[0].pid, Sleep)];
      assert Pids(asleep) == Pids(s.ring);
      SetStatusPids(asleep, IDLE_PID, SchedulerIdle);
      RedispatchPids(if s.total == 1 then SetStatus(asleep, IDLE_PID, SchedulerIdle) else asleep, s.ring);
    case WakeStdin =>
      if s.awaiting.Some? {
        SetStatusPids(s.ring, s.awaiting.value, Ready);
      }
    case Reap =>
      SetStatusPids(s.ring, REAPER_PID, Sleep);
      RedispatchPids(SetStatus(s.ring, REAPER_PID, Sleep), s.ring);
  }

  lemma ExitPids(s: State)
    requires Inv(s) && Enabled(s, Exit) && Step(s, Exit).Some?
    ensures forall p: nat :: p in Pids(Step(s, Exit).value.ring) <==> p in Pids(s.ring) && p != s.ring[0].pid
  {
    hide Dispatch, FirstRunnable, PidsOk;
    WakeIdleKeeps(s);
    var ring := if s.total == 1 then SetStatus(s.ring, IDLE_PID, SchedulerIdle) else s.ring;
    SetStatusPids(s.ring, IDLE_PID, SchedulerIdle);
    assert Pids(ring)[0] == Pids(s.ring)[0];
    var p := s.(ring := ring);
    UnlinkPids(p);
    var rest := ring[1..];
    DispatchPids(rest, FirstRunnable(rest));
    SetStatusPids(Dispatch(rest, FirstRunnable(rest)), REAPER_PID, Ready);
    PidsConcat([ring[0]], rest);
    assert [ring[0]] + rest == ring;
    assert Pids([ring[0]]) == [ring[0].pid];
  }

  lemma ExitedBefore(s: State, e: Event, exited: seq<nat>, after: seq<nat>)
    requires Inv(s) && Enabled(s, e) && Step(s, e).Some?
    requires NoDup(exited) && forall p :: p in exited ==> p < s.nextPid && p !in Pids(s.ring)
    requires after == exited + if e == Exit then [s.ring[0].pid] else []
    ensures var t := Step(s, e).value;
      NoDup(after) && forall p :: p in after ==> p < t.nextPid && p !in Pids(t.ring)
  {
    hide Step;
    PidsChange(s, e);
    DeadChange(s, e);
    assert Pids(s.ring)[0] == s.ring[0].pid;
    assert s.ring[0].pid in Pids(s.ring);
  }
}
