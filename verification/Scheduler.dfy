/** The scheduler's linked tasks (kernel/scheduler/scheduler.c:46-293), proved against
    SchedulerModel.  Saving and restoring registers, loading CR3 and the interrupt controller have
    no state here; `restore_task_context` means that control passes to `current`.
 */
module Scheduler {
  import opened SchedulerModel

  class Task {
    const pid: nat
    var status: Status
    var next: Task?

    constructor (pid: nat, status: Status)
      ensures this.pid == pid && this.status == status && next == null
    {
      this.pid := pid;
      this.status := status;
      next := null;
    }
  }

  ghost function Slots(tasks: seq<Task>): (r: seq<Slot>)
    reads tasks
    ensures |r| == |tasks|
  {
    seq(|tasks|, i requires 0 <= i < |tasks| reads tasks => Slot(tasks[i].pid, tasks[i].status))
  }

  ghost function PidsOf(tasks: seq<Task>): (r: seq<nat>)
    ensures |r| == |tasks|
  {
    seq(|tasks|, i requires 0 <= i < |tasks| => tasks[i].pid)
  }

  // Tasks that differ from each other, also in their pids.
  ghost predicate Apart(tasks: seq<Task>) {
    forall i, j :: 0 <= i < j < |tasks| ==> tasks[i] != tasks[j] && tasks[i].pid != tasks[j].pid
  }

  ghost predicate SameTasks(a: seq<Task>, b: seq<Task>) {
    (forall i :: 0 <= i < |a| ==> a[i] in b) && (forall i :: 0 <= i < |b| ==> b[i] in a)
  }

  // Each task of the chain points to the next one.
  ghost predicate Chain(tasks: seq<Task>)
    reads tasks`next
  {
    forall i :: 0 <= i < |tasks| - 1 ==> tasks[i].next == tasks[i + 1]
  }

  ghost predicate Circular(tasks: seq<Task>)
    reads tasks`next
  {
    |tasks| > 0 && Chain(tasks) && tasks[|tasks| - 1].next == tasks[0]
  }

  // A circle may be entered anywhere.
  lemma CircularRotate(a: seq<Task>, b: seq<Task>)
    requires Circular(a + b)
    ensures Circular(b + a)
  {
    var s, r := a + b, b + a;
    forall i | 0 <= i < |r| - 1 ensures r[i].next == r[i + 1] {
      if i < |b| - 1 {
        assert s[|a| + i].next == s[|a| + i + 1];
      } else if i >= |b| {
        assert s[i - |b|].next == s[i - |b| + 1];
      }
    }
    if a != [] && b != [] {
      assert s[|a| - 1].next == s[|a|];
    }
  }

  class Scheduler {
    var current: Task
    var idle: Task
    var reaper: Task
    var dead: Task?
    var awaiting: Task?
    var total: int
    var nextPid: nat

    ghost var ring: seq<Task>     // from current, in next order
    ghost var queue: seq<Task>    // the dead queue

    ghost predicate Shape()
      reads this, ring, queue
    {
      && Circular(ring) && current == ring[0]
      && Chain(queue) && (if queue == [] then dead == null else dead == queue[0] && queue[|queue| - 1].next == null)
      && idle in ring && idle.pid == IDLE_PID && reaper in ring && reaper.pid == REAPER_PID
      && (awaiting != null ==> awaiting in ring)
    }

    ghost function View(): State
      reads this, ring, queue
    {
      State(Slots(ring), PidsOf(queue), if awaiting == null then None else Some(awaiting.pid), total, nextPid)
    }

    ghost predicate Valid()
      reads this, ring, queue
    {
      Shape() && Inv(View())
    }

    // Tasks of the ring differ from each other and from the queued ones, because their pids do.
    lemma TasksDiffer()
      requires Valid()
      ensures Distinct()
      ensures forall i, j :: 0 <= i < j < |queue| ==> queue[i] != queue[j]
      ensures forall i :: 0 <= i < |ring| ==> ring[i].pid < nextPid
      ensures forall i, j :: 0 <= i < |ring| && 0 <= j < |queue| ==> ring[i] != queue[j]
    {
      var s := View();
      forall i, j | 0 <= i < j < |ring| ensures ring[i] != ring[j] && ring[i].pid != ring[j].pid {
        assert Pids(s.ring)[i] != Pids(s.ring)[j];
      }
      forall i | 0 <= i < |ring| ensures ring[i].pid < nextPid {
        assert Pids(s.ring)[i] in Pids(s.ring);
      }
      forall i, j | 0 <= i < j < |queue| ensures queue[i] != queue[j] {
        assert s.dead[i] != s.dead[j];
      }
      forall i, j | 0 <= i < |ring| && 0 <= j < |queue| ensures ring[i] != queue[j] {
        assert Pids(s.ring)[i] in Pids(s.ring);
        assert s.dead[j] !in Pids(s.ring);
      }
    }

    /** next_task, on the tasks it visits in turn. */
    method NextTask(ghost walk: seq<Task>) returns (t: Task)
      requires |walk| > 0 && Chain(walk) && current.next == walk[0]
      requires FirstRunnable(Slots(walk)) < |walk|
      ensures t == walk[FirstRunnable(Slots(walk))]
    {
      FirstRunnableIsNearest(Slots(walk));
      ghost var i := 0;
      t := current.next;
      while t.status != Ready && t.status != SchedulerIdle
        invariant 0 <= i <= FirstRunnable(Slots(walk)) && t == walk[i]
        decreases |walk| - i
      {
        assert Slots(walk)[i].status == t.status;
        assert i < |walk| - 1 && walk[i].next == walk[i + 1];
        t := t.next;
        i := i + 1;
      }
      assert Slots(walk)[i].status == t.status;
    }

    // The parts of Shape other than the ring.
    ghost predicate QueueShape()
      reads this`dead, this`queue, queue`next
    {
      Chain(queue) && if queue == [] then dead == null else dead == queue[0] && queue[|queue| - 1].next == null
    }

    /** load_context: makes the nearest runnable task of the walk current. */
    method LoadContext(ghost walk: seq<Task>)
      requires Circular(walk) && current.next == walk[0] && QueueShape()
      requires idle in walk && idle.pid == IDLE_PID && reaper in walk && reaper.pid == REAPER_PID
      requires awaiting != null ==> awaiting in walk
      requires Apart(walk)
      requires forall t :: t in walk ==> t !in queue
      requires FirstRunnable(Slots(walk)) < |walk|
      modifies this`current, this`ring, walk`status
      ensures Shape() && Distinct() && |ring| == |walk| && SameTasks(ring, walk)
      ensures View() == old(View()).(ring := old(Dispatch(Slots(walk), FirstRunnable(Slots(walk)))))
    {
      hide Circular, Dispatch, FirstRunnable, Chain, Slots, Distinct, Apart, Shape, QueueShape, PidsOf;
      ghost var k := FirstRunnable(Slots(walk));
      ghost var after := walk[k..] + walk[..k];
      CircularAt(walk, k);
      DistinctAt(walk, k);
      assert forall t :: t in after ==> t !in queue;
      var task := NextTask(walk);
      assert task == after[0];
      EnterRing(task, after);
      RunCurrent(walk, k);
    }

    // The new current task runs, unless it is the idle task.
    method RunCurrent(ghost walk: seq<Task>, ghost k: nat)
      requires Shape() && Distinct() && k < |walk| && Apart(walk) && ring == walk[k..] + walk[..k]
      modifies current`status
      ensures Shape() && Distinct() && View() == old(View()).(ring := old(Dispatch(Slots(walk), k)))
    {
      hide Circular, Chain, Slots, Dispatch, Distinct, Apart;
      Activate(current, walk, k);
    }

    // The ring is entered at another task.
    method EnterRing(task: Task, ghost after: seq<Task>)
      requires Circular(after) && task == after[0] && Apart(after) && QueueShape()
      requires idle in after && idle.pid == IDLE_PID && reaper in after && reaper.pid == REAPER_PID
      requires (awaiting != null ==> awaiting in after) && forall t :: t in after ==> t !in queue
      modifies this`current, this`ring
      ensures Shape() && Distinct() && ring == after && View() == old(View()).(ring := old(Slots(after)))
    {
      current := task;
      ring := after;
    }

    lemma DistinctAt(walk: seq<Task>, k: nat)
      requires k < |walk| && Apart(walk)
      ensures var r := walk[k..] + walk[..k];
        Apart(r)
    {
      var r := walk[k..] + walk[..k];
      forall i, j | 0 <= i < j < |r| ensures r[i] != r[j] && r[i].pid != r[j].pid {
        var i', j' := if i < |walk| - k then k + i else i - (|walk| - k), if j < |walk| - k then k + j else j - (|walk| - k);
        assert r[i] == walk[i'] && r[j] == walk[j'];
        assert if i' < j' then walk[i'].pid != walk[j'].pid else walk[j'].pid != walk[i'].pid;
      }
    }

    // The status of the task that becomes current.
    method Activate(task: Task, ghost walk: seq<Task>, ghost k: nat)
      requires k < |walk| && task == walk[k] && Apart(walk)
      modifies task`status
      ensures Slots(walk[k..] + walk[..k]) == Dispatch(old(Slots(walk)), k)
    {
      ghost var before := Slots(walk);
      if task.pid != IDLE_PID {
        task.status := Running;
      }
      ghost var after := walk[k..] + walk[..k];
      forall i | 0 < i < |walk| ensures Slots(after)[i] == RotateTo(before, k)[i] {
        var j := if i < |walk| - k then k + i else i - (|walk| - k);
        assert after[i] == walk[j] && walk[j] != task;
      }
    }

    // A circle entered at slot k.
    lemma CircularAt(walk: seq<Task>, k: nat)
      requires Circular(walk) && k < |walk|
      ensures |walk| > 0 && Chain(walk) && Circular(walk[k..] + walk[..k])
      ensures SameTasks(walk[k..] + walk[..k], walk)
    {
      assert walk[..k] + walk[k..] == walk;
      CircularRotate(walk[..k], walk[k..]);
      forall t ensures t in walk[k..] + walk[..k] <==> t in walk {
        assert t in walk[..k] + walk[k..] <==> t in walk;
      }
    }

    /** init_scheduler. */
    constructor ()
      ensures Valid() && View() == INITIAL && fresh(ring)
    {
      idle := new Task(IDLE_PID, SchedulerIdle);
      reaper := new Task(REAPER_PID, Sleep);
      current := idle;
      dead := null;
      awaiting := null;
      total := 0;
      nextPid := 2;
      ring := [idle, reaper];
      queue := [];
      new;
      idle.next := reaper;
      reaper.next := idle;
      assert Slots(ring) == INITIAL.ring;
      assert PidsOf(queue) == [];
      InitialOk();
    }

    // One task of the ring gets another status.
    method SetTaskStatus(t: Task, status: Status)
      requires Shape() && t in ring
      requires Distinct()
      modifies t`status
      ensures Shape() && View() == old(View()).(ring := SetStatus(old(Slots(ring)), t.pid, status))
    {
      ghost var before := Slots(ring);
      t.status := status;
      assert Slots(ring) == SetStatus(before, t.pid, status);
    }

    // The order in which next_task visits the ring.
    lemma RingWalk(walk: seq<Task>)
      requires Circular(ring) && walk == ring[1..] + [ring[0]]
      ensures Circular(walk) && walk[0] == ring[0].next && Slots(walk) == Walk(Slots(ring))
      ensures forall t :: t in walk <==> t in ring
      ensures Distinct() ==> Apart(walk)
    {
      assert [ring[0]] + ring[1..] == ring;
      CircularRotate([ring[0]], ring[1..]);
    }

    lemma RingNotEmpty()
      requires Circular(ring)
      ensures |ring| > 0
    {
    }

    // next_task on the whole ring.
    method Lookup() returns (t: Task)
      requires Shape() && FirstRunnable(Walk(Slots(ring))) < |ring|
      requires Distinct()
      ensures t == current <==> FirstRunnable(Walk(Slots(ring))) == |ring| - 1
    {
      ghost var walk := ring[1..] + [ring[0]];
      RingWalk(walk);
      t := NextTask(walk);
    }

    // load_context on the whole ring, from the current task's successor on.
    method Redispatch()
      requires Shape() && FirstRunnable(Walk(Slots(ring))) < |ring|
      requires Distinct()
      modifies this`current, this`ring, ring`status
      ensures Shape()
      ensures View() == old(View()).(ring := old(Dispatch(Walk(Slots(ring)), FirstRunnable(Walk(Slots(ring))))))
      ensures forall t :: t in ring <==> t in old(ring)
    {
      hide Circular, Chain, Dispatch, FirstRunnable, Slots;
      RingNotEmpty();
      ghost var walk := ring[1..] + [ring[0]];
      RingWalk(walk);
      LoadContext(walk);
    }

    // Tasks of the ring differ, by object and by pid, and none is queued.
    ghost predicate Distinct()
      reads this
    {
      && Apart(ring)
      && (forall t :: t in ring ==> t !in queue)
    }

    /** scheduler_tick. */
    method Tick()
      requires Valid() && Step(View(), SchedulerModel.Tick).Some?
      modifies this`current, this`ring, ring`status
      ensures Valid() && View() == Step(old(View()), SchedulerModel.Tick).value
    {
      hide Inv, Step, Circular, Chain, Slots, TickRing;
      ghost var s := View();
      TickKeeps(s);
      TasksDiffer();
      RingNotEmpty();
      TickOutcome(s);
      if total == 0 {
        SetTaskStatus(idle, SchedulerIdle);
      }
      TickAwake();
    }

    // The ring after a tick, once the idle task has been woken if need be.
    ghost function TickRing(mid: seq<Slot>): seq<Slot>
      requires |mid| > 0 && FirstRunnable(Walk(mid)) < |mid|
    {
      var parked := if mid[0].status != SchedulerIdle then mid[0 := Slot(mid[0].pid, Ready)] else mid;
      var k := FirstRunnable(Walk(mid));
      if k == |mid| - 1 then mid else Dispatch(Walk(parked), k)
    }

    lemma TickOutcome(s: State)
      requires |s.ring| > 0 && Step(s, SchedulerModel.Tick).Some?
      ensures var mid := if s.total == 0 then SetStatus(s.ring, IDLE_PID, SchedulerIdle) else s.ring;
        && FirstRunnable(Walk(mid)) < |mid|
        && Step(s, SchedulerModel.Tick) == Some(s.(ring := TickRing(mid)))
    {
    }

    method TickAwake()
      requires Shape() && Distinct() && FirstRunnable(Walk(Slots(ring))) < |ring|
      modifies this`current, this`ring, ring`status
      ensures Shape() && View() == old(View()).(ring := TickRing(old(Slots(ring))))
    {
      hide Dispatch, Circular, Chain, Slots, Walk, FirstRunnable;
      RingNotEmpty();
      ghost var mid := Slots(ring);
      assert mid[0] == Slot(current.pid, current.status) by { FirstSlot(ring); }
      var task := Lookup();
      if task == current {
        return;
      }
      if current.status != SchedulerIdle {
        ParkCurrent(Ready);
      }
      TwoLookupsAgree(mid, Slots(ring));
      Redispatch();
    }

    lemma FirstSlot(tasks: seq<Task>)
      requires |tasks| > 0
      ensures Slots(tasks)[0] == Slot(tasks[0].pid, tasks[0].status)
    {
    }

    method ParkCurrent(status: Status)
      requires Shape()
      requires Distinct()
      modifies current`status
      ensures Shape()
      ensures View() == old(View()).(ring := old(Slots(ring))[0 := Slot(current.pid, status)])
    {
      ghost var before := Slots(ring);
      current.status := status;
      assert Slots(ring) == before[0 := Slot(current.pid, status)];
    }

    /** await_stdin: the current task sleeps, becomes the recorded waiter and gives way. */
    method AwaitStdin()
      requires Valid() && Enabled(View(), SchedulerModel.AwaitStdin) && Step(View(), SchedulerModel.AwaitStdin).Some?
      modifies this`current, this`ring, this`awaiting, ring`status
      ensures Valid() && View() == Step(old(View()), SchedulerModel.AwaitStdin).value
    {
      hide Inv, Circular, Chain, Slots, Dispatch, Walk, FirstRunnable;
      AwaitKeeps(View());
      TasksDiffer();
      RingNotEmpty();
      assert View().ring[0].pid == current.pid by { FirstSlot(ring); }
      ParkCurrent(Sleep);
      if total == 1 {
        SetTaskStatus(idle, SchedulerIdle);
      }
      awaiting := current;
      Redispatch();
    }

    /** wake_stdin_task. */
    method WakeStdin()
      requires Valid()
      modifies this`awaiting, ring`status
      ensures Valid() && Step(old(View()), SchedulerModel.WakeStdin).Some?
      ensures View() == Step(old(View()), SchedulerModel.WakeStdin).value
    {
      hide Inv, Circular, Chain, Slots;
      WakeStdinKeeps(View());
      TasksDiffer();
      RingNotEmpty();
      if awaiting != null {
        SetTaskStatus(awaiting, Ready);
        awaiting := null;
      }
    }

    /** The reaper's loop body: it empties the dead queue from the front, sleeps and gives way.
        What it does for each task is modelled in TaskSpace and Lifecycle. */
    method Reap() returns (ghost reaped: seq<nat>)
      requires Valid() && Enabled(View(), SchedulerModel.Reap) && Step(View(), SchedulerModel.Reap).Some?
      modifies this`current, this`ring, this`dead, this`queue, ring`status
      ensures Valid() && View() == Step(old(View()), SchedulerModel.Reap).value
      ensures reaped == old(View().dead)
    {
      hide Inv, Circular, Slots, Dispatch, Walk, FirstRunnable;
      ReapKeeps(View());
      TasksDiffer();
      RingNotEmpty();
      reaped := DrainQueue();
      SetTaskStatus(reaper, Sleep);
      Redispatch();
    }

    // pop_dead_queue until the queue is empty.
    method DrainQueue() returns (ghost reaped: seq<nat>)
      requires QueueShape()
      modifies this`dead, this`queue
      ensures queue == [] && dead == null && reaped == old(PidsOf(queue))
    {
      reaped := [];
      while dead != null
        invariant QueueShape() && reaped + PidsOf(queue) == old(PidsOf(queue))
        decreases |queue|
      {
        assert queue != [] && PidsOf(queue) == [dead.pid] + PidsOf(queue[1..]);
        reaped := reaped + [dead.pid];
        dead := dead.next;
        queue := queue[1..];
      }
    }

    /** enqueue_task: the new task is linked in just before the current one, and idle sleeps. */
    method Enqueue()
      requires Valid()
      modifies this, ring
      ensures Valid() && Step(old(View()), SchedulerModel.Enqueue).Some?
      ensures View() == Step(old(View()), SchedulerModel.Enqueue).value
    {
      hide Inv, Slots, Circular, Chain, Step, SetStatus;
      RingNotEmpty();
      EnqueueKeeps(View());
      EnqueueOutcome(View());
      TasksDiffer();
      LinkNewTask();
    }

    method LinkNewTask()
      requires Shape() && Distinct() && forall i :: 0 <= i < |ring| ==> ring[i].pid < nextPid
      modifies this, ring
      ensures Shape()
      ensures var s := old(View());
        View() == s.(ring := SetStatus(s.ring + [Slot(s.nextPid, Ready)], IDLE_PID, Sleep), total := s.total + 1, nextPid := s.nextPid + 1)
    {
      hide Slots, Circular, Chain, SetStatus, PidsOf;
      var task := CreateTask();
      LinkLast(task);
      CountTask();
    }

    // task_total++ and sleep_idle_task.
    method CountTask()
      requires Shape() && Distinct()
      modifies this`total, ring`status
      ensures Shape() && View() == old(View()).(ring := SetStatus(old(Slots(ring)), IDLE_PID, Sleep), total := old(total) + 1)
    {
      hide Slots, Circular, Chain, SetStatus, PidsOf;
      total := total + 1;
      SetTaskStatus(idle, Sleep);
    }

    // create_task, without the memory it takes (see Lifecycle).
    method CreateTask() returns (task: Task)
      requires Shape() && Distinct()
      modifies this`nextPid
      ensures Shape() && Distinct() && fresh(task) && task.pid == old(nextPid) && task.status == Ready
      ensures View() == old(View()).(nextPid := old(nextPid) + 1)
    {
      task := new Task(nextPid, Ready);
      nextPid := nextPid + 1;
      assert Slots(ring) == old(Slots(ring));
    }

    lemma EnqueueOutcome(s: State)
      requires |s.ring| > 0
      ensures Step(s, SchedulerModel.Enqueue) ==
        Some(s.(ring := SetStatus(s.ring + [Slot(s.nextPid, Ready)], IDLE_PID, Sleep), total := s.total + 1, nextPid := s.nextPid + 1))
    {
    }

    // The loop that finds the last task of the ring, and the insertion behind it.
    method LinkLast(task: Task)
      requires Shape() && Distinct() && task !in ring && task !in queue
      requires forall i :: 0 <= i < |ring| ==> ring[i].pid != task.pid
      modifies this`ring, task`next, ring`next
      ensures Shape() && Distinct() && ring == old(ring) + [task]
      ensures View() == old(View()).(ring := old(Slots(ring)) + [Slot(task.pid, task.status)])
    {
      hide Slots;
      var tmp := LastTask();
      SlotsConcat(ring, task);
      InsertBehind(tmp, task);
      SlotsKept(ring);
    }

    method InsertBehind(tmp: Task, task: Task)
      requires Shape() && Distinct() && task !in ring && task !in queue && tmp == ring[|ring| - 1]
      requires forall i :: 0 <= i < |ring| ==> ring[i].pid != task.pid
      modifies this`ring, task`next, tmp`next
      ensures Shape() && Distinct() && ring == old(ring) + [task]
    {
      hide Slots;
      ghost var longer := ring + [task];
      assert longer[0] == current && idle in longer && reaper in longer && (awaiting != null ==> awaiting in longer);
      assert tmp in ring && forall i :: 0 <= i < |queue| ==> queue[i] != tmp && queue[i] != task;
      tmp.next := task;
      task.next := current;
      ring := longer;
    }

    // Changing links changes no slot.
    twostate lemma SlotsKept(tasks: seq<Task>)
      requires forall t :: t in tasks ==> t.status == old(t.status)
      ensures Slots(tasks) == old(Slots(tasks))
    {
    }

    lemma SlotsConcat(tasks: seq<Task>, task: Task)
      ensures Slots(tasks + [task]) == Slots(tasks) + [Slot(task.pid, task.status)]
    {
    }

    // The loop that walks round to the task whose successor is current.
    method LastTask() returns (tmp: Task)
      requires Shape() && Distinct()
      ensures tmp == ring[|ring| - 1]
    {
      tmp := current;
      ghost var i := 0;
      while tmp.next != current
        invariant 0 <= i < |ring| && tmp == ring[i]
        invariant if i < |ring| - 1 then tmp.next == ring[i + 1] else tmp.next == ring[0]
        decreases |ring| - i
      {
        tmp := tmp.next;
        i := i + 1;
      }
    }

    /** task_exit: the current task is unlinked from the ring, the next runnable task becomes
        current, the dead one is queued and the reaper woken. */
    method Exit()
      requires Valid() && Enabled(View(), SchedulerModel.Exit) && Step(View(), SchedulerModel.Exit).Some?
      modifies this, ring, queue
      ensures Valid() && View() == Step(old(View()), SchedulerModel.Exit).value
    {
      hide Inv, Slots, Circular, Chain, Step, SetStatus, Dispatch, FirstRunnable;
      RingNotEmpty();
      ExitKeeps(View());
      ExitOutcome(View());
      TasksDiffer();
      ExitingTask();
      assert View().ring[0].pid == current.pid by { FirstSlot(ring); }
      ExitCurrent();
    }

    // The task that exits is neither idle, reaper nor the recorded waiter.
    lemma ExitingTask()
      requires Valid() && View().ring[0].pid > REAPER_PID
      ensures current != idle && current != reaper && current != awaiting && current.pid > REAPER_PID
    {
      FirstSlot(ring);
      if awaiting != null {
        assert Slot(awaiting.pid, Sleep) in View().ring;
        if View().ring[0] != Slot(awaiting.pid, Sleep) {
          OnePerPid(View().ring, Slot(awaiting.pid, Sleep));
        }
      }
    }

    ghost function ExitRing(mid: seq<Slot>): seq<Slot>
      requires |mid| > 0 && FirstRunnable(mid[1..]) < |mid| - 1
    {
      SetStatus(Dispatch(mid[1..], FirstRunnable(mid[1..])), REAPER_PID, Ready)
    }

    lemma ExitOutcome(s: State)
      requires |s.ring| > 0 && s.ring[0].pid > REAPER_PID && Step(s, SchedulerModel.Exit).Some?
      ensures var mid := if s.total == 1 then SetStatus(s.ring, IDLE_PID, SchedulerIdle) else s.ring;
        && |mid| == |s.ring| && FirstRunnable(mid[1..]) < |mid| - 1
        && Step(s, SchedulerModel.Exit) == Some(s.(ring := ExitRing(mid), dead := s.dead + [s.ring[0].pid], total := s.total - 1))
    {
      var mid := if s.total == 1 then SetStatus(s.ring, IDLE_PID, SchedulerIdle) else s.ring;
      assert mid[0] == s.ring[0];
    }

    method ExitCurrent()
      requires Shape() && Distinct() && current != idle && current != reaper && current != awaiting
      requires forall i, j :: 0 <= i < j < |queue| ==> queue[i] != queue[j]
      requires var mid := if total == 1 then SetStatus(Slots(ring), IDLE_PID, SchedulerIdle) else Slots(ring);
        FirstRunnable(mid[1..]) < |mid| - 1
      modifies this, ring, queue
      ensures Shape()
      ensures var s := old(View());
        var mid := if s.total == 1 then SetStatus(s.ring, IDLE_PID, SchedulerIdle) else s.ring;
        View() == s.(ring := ExitRing(mid), dead := s.dead + [old(current.pid)], total := s.total - 1)
    {
      hide Slots, Circular, Chain, SetStatus, Dispatch, FirstRunnable;
      RingNotEmpty();
      total := total - 1;
      if total == 0 {
        SetTaskStatus(idle, SchedulerIdle);
      }
      ghost var mid := Slots(ring);
      UnlinkAndSwitch();
      SetTaskStatus(reaper, Ready);
    }

    // Unlinks the current task, dispatches the next one and queues the unlinked task.
    method UnlinkAndSwitch()
      requires Shape() && Distinct() && current != idle && current != reaper && current != awaiting
      requires FirstRunnable(Slots(ring)[1..]) < |ring| - 1
      modifies this`current, this`ring, this`dead, this`queue, ring, queue`next
      ensures Shape() && Distinct()
      ensures var s := old(View());
        View() == s.(ring := Dispatch(s.ring[1..], FirstRunnable(s.ring[1..])), dead := s.dead + [old(current.pid)])
    {
      hide Slots, Circular, Chain, Dispatch, FirstRunnable, Distinct, QueueShape, PidsOf;
      ghost var walk := ring[1..];
      RestOfRing(walk);
      var tmp := LastTask();
      Unlink(tmp);
      var deadTask := current;
      LoadContext(walk);
      PushDead(deadTask);
    }

    lemma RestOfRing(walk: seq<Task>)
      requires Shape() && Distinct() && current != idle && current != reaper && current != awaiting && walk == ring[1..]
      ensures |walk| > 0 && idle in walk && reaper in walk && (awaiting != null ==> awaiting in walk)
      ensures current !in walk && current !in queue && QueueShape()
      ensures Apart(walk)
      ensures forall t :: t in walk ==> t !in queue && t in ring
    {
      assert ring == [ring[0]] + walk;
    }

    // tmp->next = current->next: the rest of the ring is a circle of its own.
    method Unlink(tmp: Task)
      requires Shape() && Distinct() && |ring| > 1 && tmp == ring[|ring| - 1]
      modifies tmp`next
      ensures Circular(ring[1..]) && current.next == ring[1] && QueueShape()
      ensures Slots(ring[1..]) == old(Slots(ring))[1..] && View() == old(View())
    {
      assert tmp in ring && forall i :: 0 <= i < |queue| ==> queue[i] != tmp;
      tmp.next := current.next;
    }

    /** push_dead_queue. */
    method PushDead(task: Task)
      requires Shape() && task !in ring && task !in queue && Distinct()
      modifies this`dead, this`queue, task`next, queue`next
      ensures Shape()
      ensures View() == old(View()).(dead := old(View()).dead + [task.pid])
      ensures Distinct()
    {
      hide Slots, Circular;
      assert PidsOf(queue + [task]) == PidsOf(queue) + [task.pid];
      if dead == null {
        task.next := null;
        dead := task;
        assert queue + [task] == [task];
        queue := queue + [task];
      } else {
        var tmp := LastQueued();
        assert tmp in queue && forall t :: t in ring ==> t != tmp && t != task;
        queue := queue + [task];
        task.next := null;
        tmp.next := task;
      }
      SlotsKept(ring);
    }

    // The loop that finds the end of the dead queue.
    method LastQueued() returns (tmp: Task)
      requires QueueShape() && dead != null
      ensures queue != [] && tmp == queue[|queue| - 1]
    {
      tmp := dead;
      ghost var i := 0;
      while tmp.next != null
        invariant 0 <= i < |queue| && tmp == queue[i]
        invariant if i < |queue| - 1 then tmp.next == queue[i + 1] else tmp.next == null
        decreases |queue| - i
      {
        tmp := tmp.next;
        i := i + 1;
      }
    }
  }
}
