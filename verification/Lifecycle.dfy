/** The life of a task's memory: create_task, sys_mmap, sys_munmap, task_exit and the reaper
    (kernel/scheduler/scheduler.c:158-253, kernel/memory.c:291-385, kernel/syscall/mmap.c,
    kernel/syscall/munmap.c).
    `holder` and `spaces` say which task a heap block or a page directory belongs to; `frames` is
    the log of the frames a task took and has not given back, by comparing the owners before and
    after each call.
 */
module Lifecycle {
  import opened Paging
  import opened Memory
  import opened UserSpace
  import opened TaskSpace
  import opened KernelMemory
  import opened Sequences
  import SM = SlabModel
  import SI = SlabInvariant
  import MU = Munmap

  type Pid = nat

  // sizeof(task_t), three times sizeof(file_t), PAGE_SIZE for the kernel stack.
  const TASK_SIZES: seq<nat> := [168, 12, 12, 12, 4096]

  datatype Task = Task(user: bool, dir: nat, blocks: seq<SM.Block>, frames: set<nat>)

  datatype Kernel = Kernel(
    world: World,
    tasks: map<Pid, Task>,
    dead: seq<Pid>,               // the dead queue
    nextPid: Pid,
    holder: map<SM.Block, Pid>,
    spaces: map<nat, Pid>)

  datatype Event =
    | Create(user: bool, code: Page, pages: seq<nat>)   // pages: where mmap places new kernel heap pages
    | Mmap(pid: Pid, n: nat, end: nat)                  // sys_mmap of n pages; the scan stops at page end
    | Munmap(pid: Pid, start: nat, n: nat)              // sys_munmap that visits mapped pages only
    | Exit(pid: Pid)
    | Reap

  function UserFrames(owner: seq<Use>): set<nat> {
    set g | 0 <= g < |owner| && IsUser(owner[g])
  }

  function SpaceFrames(owner: seq<Use>, d: nat): set<nat> {
    set g | 0 <= g < |owner| && InSpace(owner, d, g)
  }

  // ---- The invariant ----

  ghost predicate TaskOk(s: Kernel, p: Pid, t: Task) {
    && p < s.nextPid && |t.blocks| == |TASK_SIZES| && NoDup(t.blocks)
    && (forall b :: b in t.blocks ==> b in s.holder && s.holder[b] == p)
    && (t.user ==> t.dir in s.spaces && s.spaces[t.dir] == p)
    && t.frames == if t.user then SpaceFrames(s.world.mem.owner, t.dir) else {}
  }

  ghost predicate HolderOk(s: Kernel, b: SM.Block) {
    b in s.holder ==> SM.Live(s.world.heap, b) && s.holder[b] in s.tasks && b in s.tasks[s.holder[b]].blocks
  }

  ghost predicate SpaceOk(s: Kernel, d: nat) {
    && (IsDir(s.world.mem, d) <==> d in s.spaces)
    && (d in s.spaces ==> s.spaces[d] in s.tasks && s.tasks[s.spaces[d]].user && s.tasks[s.spaces[d]].dir == d)
  }

  ghost predicate DeadOk(s: Kernel) {
    && NoDup(s.dead)
    && (forall p :: p in s.dead ==> p in s.tasks)
  }

  ghost predicate Good(s: Kernel) {
    && Sound(s.world) && DeadOk(s)
    && (forall p :: p in s.tasks ==> TaskOk(s, p, s.tasks[p]))
    && (forall b: SM.Block :: HolderOk(s, b))
    && (forall d: nat :: SpaceOk(s, d))
  }

  // ---- Steps ----

  ghost predicate Enabled(s: Kernel, e: Event)
    requires Good(s)
  {
    match e
    case Create(user, code, pages) =>
      && |code| == ENTRIES && AllFit(s.world, TASK_SIZES, pages)
      && (user ==> BuildFits(KmallocAll(s.world, TASK_SIZES, pages).0.mem))
    case Mmap(p, n, end) =>
      && p in s.tasks && s.tasks[p].user && p !in s.dead && n >= 1 && 1 < end <= USER_LIMIT_PAGE
      && FillFits(s.world.mem, s.tasks[p].dir, n) && Holes(s.world.mem, s.tasks[p].dir, end) == n
    case Munmap(p, start, n) =>
      p in s.tasks && s.tasks[p].user && p !in s.dead && MU.AllMapped(s.world.mem, s.tasks[p].dir, start, n)
    case Exit(p) => p in s.tasks && p !in s.dead
    case Reap => s.dead != []
  }

  // create_task.
  ghost function Created(s: Kernel, e: Event): Kernel
    requires Good(s) && e.Create? && Enabled(s, e)
  {
    var (w, blocks) := KmallocAll(s.world, TASK_SIZES, e.pages);
    KmallocAllKeeps(s.world, TASK_SIZES, e.pages);
    var d := Directory(w.mem);
    var mem := if e.user then Build(w.mem, e.code) else w.mem;
    var t := Task(e.user, d, blocks, UserFrames(mem.owner) - UserFrames(s.world.mem.owner));
    Kernel(World(mem, w.heap), s.tasks[s.nextPid := t], s.dead, s.nextPid + 1,
           Assign(s.holder, blocks, s.nextPid),
           if e.user then s.spaces[d := s.nextPid] else s.spaces)
  }

  ghost function Assign(holder: map<SM.Block, Pid>, blocks: seq<SM.Block>, p: Pid): map<SM.Block, Pid> {
    map b | b in holder.Keys + (set x | x in blocks) :: if b in blocks then p else holder[b]
  }

  // The order in which the reaper frees the blocks: the files, the kernel stack, the task.
  function ReapOrder(t: Task): seq<SM.Block>
    requires |t.blocks| == |TASK_SIZES|
  {
    t.blocks[1..] + [t.blocks[0]]
  }

  ghost function Mapped(s: Kernel, e: Event): Kernel
    requires Good(s) && e.Mmap? && Enabled(s, e)
  {
    var t := s.tasks[e.pid];
    var mem := Fill(s.world.mem, t.dir, e.end);
    s.(world := s.world.(mem := mem),
       tasks := s.tasks[e.pid := t.(frames := t.frames + (UserFrames(mem.owner) - UserFrames(s.world.mem.owner)))])
  }

  ghost function Unmapped(s: Kernel, e: Event): Kernel
    requires Good(s) && e.Munmap? && Enabled(s, e)
  {
    var t := s.tasks[e.pid];
    var mem := MU.Unmap(s.world.mem, t.dir, e.start, e.n);
    s.(world := s.world.(mem := mem),
       tasks := s.tasks[e.pid := t.(frames := t.frames - (UserFrames(s.world.mem.owner) - UserFrames(mem.owner)))])
  }

  // The memory after the reaper took the space of a user task down.
  ghost function Unspaced(s: Kernel, t: Task): World {
    if t.user then s.world.(mem := Teardown(s.world.mem, t.dir)) else s.world
  }

  ghost function Reaped(s: Kernel): Kernel
    requires Good(s) && s.dead != []
  {
    var p := s.dead[0];
    var t := s.tasks[p];
    ReapIsSafe(s);
    Kernel(KfreeAll(Unspaced(s, t), ReapOrder(t)), s.tasks - {p}, s.dead[1..], s.nextPid,
           s.holder - (set b | b in t.blocks), if t.user then s.spaces - {t.dir} else s.spaces)
  }

  ghost function Step(s: Kernel, e: Event): Kernel
    requires Good(s) && Enabled(s, e)
  {
    match e
    case Create(_, _, _) => Created(s, e)
    case Mmap(_, _, _) => Mapped(s, e)
    case Munmap(_, _, _) => Unmapped(s, e)
    case Exit(p) => s.(dead := s.dead + [p])
    case Reap => Reaped(s)
  }

  // ---- The reaper ----

  lemma TaskOf(s: Kernel, p: Pid)
    requires Good(s) && p in s.tasks
    ensures TaskOk(s, p, s.tasks[p])
    ensures forall b :: b in s.tasks[p].blocks ==> SM.Live(s.world.heap, b)
    ensures s.tasks[p].user ==> IsDir(s.world.mem, s.tasks[p].dir)
  {
    assert TaskOk(s, p, s.tasks[p]);
    forall b | b in s.tasks[p].blocks ensures SM.Live(s.world.heap, b) {
      assert HolderOk(s, b);
    }
    assert SpaceOk(s, s.tasks[p].dir);
  }

  lemma ReapOrderIs(t: Task)
    requires |t.blocks| == |TASK_SIZES| && NoDup(t.blocks)
    ensures NoDup(ReapOrder(t)) && forall b :: b in ReapOrder(t) <==> b in t.blocks
  {
    var o := ReapOrder(t);
    assert t.blocks == [t.blocks[0]] + t.blocks[1..];
    assert forall i :: 0 <= i < |o| ==> o[i] == if i < |o| - 1 then t.blocks[i + 1] else t.blocks[0];
  }

  lemma ReapIsSafe(s: Kernel)
    requires Good(s) && s.dead != []
    ensures s.dead[0] in s.tasks && TaskOk(s, s.dead[0], s.tasks[s.dead[0]])
    ensures var t := s.tasks[s.dead[0]];
      Sound(Unspaced(s, t)) && NoDup(ReapOrder(t)) && (forall b :: b in ReapOrder(t) ==> SM.Live(Unspaced(s, t).heap, b))
  {
    var p := s.dead[0];
    var t := s.tasks[p];
    TaskOf(s, p);
    ReapOrderIs(t);
    hide Memory.Inv, SM.Inv, SM.Live, Teardown, SpaceOnly;
    if t.user {
      TeardownKeeps(s.world.mem, t.dir);
      SpaceKeepsHeap(s.world.mem, Teardown(s.world.mem, t.dir), t.dir);
    }
  }

  /** The record of the task being reaped outlives the pointers the reaper reads from it: it is in use until
      all the other blocks are gone. */
  lemma RecordIsFreedLast(s: Kernel, i: nat)
    requires Good(s) && s.dead != []
    ensures s.dead[0] in s.tasks && |s.tasks[s.dead[0]].blocks| == |TASK_SIZES|
    ensures var t := s.tasks[s.dead[0]];
      var part := ReapOrder(t)[..if i < 4 then i else 4];
      && Sound(Unspaced(s, t)) && NoDup(part) && (forall b :: b in part ==> SM.Live(Unspaced(s, t).heap, b))
      && SM.Live(KfreeAll(Unspaced(s, t), part).heap, t.blocks[0])
  {
    ReapIsSafe(s);
    var t := s.tasks[s.dead[0]];
    ReapOrderIs(t);
    var o := ReapOrder(t);
    var part := o[..if i < 4 then i else 4];
    assert o[4] == t.blocks[0] && o[4] in o;
    assert forall b :: b in part ==> b in o;
    assert o[4] !in part;
    hide Good, TaskOk, Sound, SM.Live, Unspaced, ReapOrder;
    KfreeAllKeeps(Unspaced(s, t), part);
  }

  lemma SpaceKeepsHeap(m: Mem, r: Mem, d: nat)
    requires SpaceOnly(m, r, d)
    ensures r.heap == m.heap && r.kpd == m.kpd && |r.owner| == |m.owner|
    ensures forall k: nat :: k < KHEAP_PAGES ==> KEntry(r, k) == KEntry(m, k)
  {
    forall k: nat | k < KHEAP_PAGES ensures KEntry(r, k) == KEntry(m, k) {
      assert Slot(r, KPage(k)) == Slot(m, KPage(k));
    }
  }

  // ---- Frames of a space ----

  lemma SameFrames(o: seq<Use>, r: seq<Use>, d: nat)
    requires UsersSame(o, r)
    ensures SpaceFrames(r, d) == SpaceFrames(o, d) && UserFrames(r) == UserFrames(o)
    ensures (d < |r| && r[d] == UDir) <==> (d < |o| && o[d] == UDir)
  {
    forall g | 0 <= g < |o| ensures InSpace(r, d, g) == InSpace(o, d, g) && IsUser(r[g]) == IsUser(o[g]) {
    }
  }

  // Only free frames became user frames, all of the space d.
  ghost predicate Joined(o: seq<Use>, r: seq<Use>, d: nat) {
    |r| == |o| && forall g :: 0 <= g < |o| ==> r[g] == o[g] || (o[g] == Free && InSpace(r, d, g))
  }

  lemma JoinedFrames(o: seq<Use>, r: seq<Use>, d: nat)
    requires Joined(o, r, d)
    ensures SpaceFrames(r, d) == SpaceFrames(o, d) + (UserFrames(r) - UserFrames(o))
    ensures forall e: nat :: e != d ==> SpaceFrames(r, e) == SpaceFrames(o, e)
    ensures forall e: nat :: e != d ==> ((e < |r| && r[e] == UDir) <==> (e < |o| && o[e] == UDir))
  {
    forall e: nat | e != d ensures SpaceFrames(r, e) == SpaceFrames(o, e) {
      forall g | 0 <= g < |o| ensures InSpace(r, e, g) == InSpace(o, e, g) {
      }
    }
  }

  // Only user frames of the space d other than its directory became free.
  ghost predicate Left(o: seq<Use>, r: seq<Use>, d: nat) {
    |r| == |o| && forall g :: 0 <= g < |o| ==> r[g] == o[g] || (r[g] == Free && InSpace(o, d, g) && o[g] != UDir)
  }

  lemma LeftFrames(o: seq<Use>, r: seq<Use>, d: nat)
    requires Left(o, r, d)
    ensures SpaceFrames(r, d) == SpaceFrames(o, d) - (UserFrames(o) - UserFrames(r))
    ensures forall e: nat :: e != d ==> SpaceFrames(r, e) == SpaceFrames(o, e)
    ensures forall e: nat :: (e < |r| && r[e] == UDir) <==> (e < |o| && o[e] == UDir)
  {
    forall e: nat | e != d ensures SpaceFrames(r, e) == SpaceFrames(o, e) {
      forall g | 0 <= g < |o| ensures InSpace(r, e, g) == InSpace(o, e, g) {
      }
    }
  }

  // A frame that is no directory has no space.
  lemma NoSpace(m: Mem, d: nat)
    requires Inv(m) && !IsDir(m, d)
    ensures SpaceFrames(m.owner, d) == {}
  {
    forall g | 0 <= g < |m.owner| ensures !InSpace(m.owner, d, g) {
      assert OwnIsNamed(m, g);
    }
  }

  // The frames of the space d were freed.
  ghost predicate Vacated(o: seq<Use>, r: seq<Use>, d: nat) {
    |r| == |o| && forall g :: 0 <= g < |o| ==> r[g] == if InSpace(o, d, g) then Free else o[g]
  }

  lemma VacatedFrames(o: seq<Use>, r: seq<Use>, d: nat)
    requires Vacated(o, r, d)
    ensures UserFrames(o) - UserFrames(r) == SpaceFrames(o, d)
    ensures forall e: nat :: e != d ==> SpaceFrames(r, e) == SpaceFrames(o, e)
    ensures !(d < |r| && r[d] == UDir)
    ensures forall e: nat :: e != d ==> ((e < |r| && r[e] == UDir) <==> (e < |o| && o[e] == UDir))
  {
    forall e: nat | e != d ensures SpaceFrames(r, e) == SpaceFrames(o, e) {
      forall g | 0 <= g < |o| ensures InSpace(r, e, g) == InSpace(o, e, g) {
      }
    }
  }

  // ---- create_task ----

  // The world after create_task: what changed for blocks and for frames.
  ghost predicate CreateEffect(w: World, r: World, user: bool, d: nat, blocks: seq<SM.Block>) {
    && Sound(r) && GainedAll(w, r, blocks)
    && (!user ==> UsersSame(w.mem.owner, r.mem.owner))
    && (user ==>
          && !IsDir(w.mem, d) && IsDir(r.mem, d)
          && SpaceFrames(r.mem.owner, d) == UserFrames(r.mem.owner) - UserFrames(w.mem.owner)
          && (forall e: nat :: e != d ==> SpaceFrames(r.mem.owner, e) == SpaceFrames(w.mem.owner, e))
          && (forall e: nat :: e != d ==> (IsDir(r.mem, e) <==> IsDir(w.mem, e))))
  }

  lemma CreatedWorld(s: Kernel, e: Event)
    requires Good(s) && e.Create? && Enabled(s, e)
    ensures var (w, blocks) := KmallocAll(s.world, TASK_SIZES, e.pages);
      CreateEffect(s.world, Created(s, e).world, e.user, Directory(w.mem), blocks)
  {
    hide TaskOk, HolderOk, SpaceOk, DeadOk, SM.Inv, SM.Live, Memory.Inv, Build, AllFit, SpaceOnly, KmallocAll, Directory;
    var (w, blocks) := KmallocAll(s.world, TASK_SIZES, e.pages);
    KmallocAllKeeps(s.world, TASK_SIZES, e.pages);
    var d := Directory(w.mem);
    if e.user {
      InvShape(w.mem);
      BuildKeeps(w.mem, e.code);
      var m := Build(w.mem, e.code);
      SpaceKeepsHeap(w.mem, m, d);
      BuiltFrames(s.world.mem, w.mem, m, d);
    }
  }

  lemma BuiltFrames(o: Mem, m: Mem, r: Mem, d: nat)
    requires Inv(m) && UsersSame(o.owner, m.owner) && OnlyJoins(m, r, d) && IsFree(m, d) && IsDir(r, d)
    ensures !IsDir(o, d) && SpaceFrames(r.owner, d) == UserFrames(r.owner) - UserFrames(o.owner)
    ensures forall e: nat :: e != d ==> SpaceFrames(r.owner, e) == SpaceFrames(o.owner, e)
    ensures forall e: nat :: e != d ==> (IsDir(r, e) <==> IsDir(o, e))
  {
    NoSpace(m, d);
    JoinedFrames(m.owner, r.owner, d);
    SameFrames(o.owner, m.owner, d);
    forall e: nat | e != d ensures SpaceFrames(r.owner, e) == SpaceFrames(o.owner, e) && (IsDir(r, e) <==> IsDir(o, e)) {
      SameFrames(o.owner, m.owner, e);
    }
  }

  lemma CreateKeeps(s: Kernel, e: Event)
    requires Good(s) && e.Create? && Enabled(s, e)
    ensures Good(Created(s, e))
  {
    hide Sound, KmallocAll, Created, TaskOk, HolderOk, SpaceOk, SM.Live, SpaceFrames, UserFrames, Booked, DeadOk, Directory;
    var (w, blocks) := KmallocAll(s.world, TASK_SIZES, e.pages);
    var d, r := Directory(w.mem), Created(s, e);
    CreatedParts(s, e);
    BookedSound(s, r, e.user, d, blocks);
    forall p | p in r.tasks ensures TaskOk(r, p, r.tasks[p]) {
      if p in s.tasks {
        OldTaskOk(s, r, e.user, d, blocks, p);
      } else {
        NewTaskOk(s, r, e.user, d, blocks);
      }
    }
    forall b: SM.Block ensures HolderOk(r, b) {
      HolderAfterCreate(s, r, e.user, d, blocks, b);
    }
    forall x: nat ensures SpaceOk(r, x) {
      SpaceAfterCreate(s, r, e.user, d, blocks, x);
    }
  }

  /** A new task's blocks have room for a task_t, three file_t and a kernel stack of one page, which is
      where the processor's ring 0 stack pointer is set to end. */
  lemma CreatedBlocksFit(s: Kernel, e: Event)
    requires Good(s) && e.Create? && Enabled(s, e)
    ensures var r := Created(s, e);
      && s.nextPid in r.tasks && |r.tasks[s.nextPid].blocks| == 5
      && var b, h := r.tasks[s.nextPid].blocks, r.world.heap;
      && SM.Capacity(h, b[0]) >= 168 && SM.Capacity(h, b[1]) >= 12 && SM.Capacity(h, b[2]) >= 12 && SM.Capacity(h, b[3]) >= 12
      && SM.Capacity(h, b[4]) >= 4096
  {
    KmallocAllSizes(s.world, TASK_SIZES, e.pages);
    hide Good, KmallocAll, SM.Capacity, Sound, AllFit;
  }

  lemma BookedSound(s: Kernel, r: Kernel, user: bool, d: nat, blocks: seq<SM.Block>)
    requires Good(s) && Booked(s, r, user, d, blocks) && s.nextPid !in s.tasks
    ensures Sound(r.world) && DeadOk(r)
    ensures forall p :: p in r.tasks <==> p in s.tasks || p == s.nextPid
    ensures forall p :: p in s.tasks ==> r.tasks[p] == s.tasks[p]
  {
    hide Sound, TaskOk, HolderOk, SpaceOk;
  }

  // The books after create_task.
  ghost predicate Booked(s: Kernel, r: Kernel, user: bool, d: nat, blocks: seq<SM.Block>) {
    && CreateEffect(s.world, r.world, user, d, blocks) && |blocks| == |TASK_SIZES|
    && r.nextPid == s.nextPid + 1 && r.dead == s.dead
    && r.tasks == s.tasks[s.nextPid := Task(user, d, blocks, UserFrames(r.world.mem.owner) - UserFrames(s.world.mem.owner))]
    && r.holder == Assign(s.holder, blocks, s.nextPid)
    && r.spaces == if user then s.spaces[d := s.nextPid] else s.spaces
  }

  lemma CreatedParts(s: Kernel, e: Event)
    requires Good(s) && e.Create? && Enabled(s, e)
    ensures var (w, blocks) := KmallocAll(s.world, TASK_SIZES, e.pages);
      Booked(s, Created(s, e), e.user, Directory(w.mem), blocks) && s.nextPid !in s.tasks
  {
    CreatedWorld(s, e);
    FreshPid(s);
    hide CreateEffect, Sound, HolderOk, SpaceOk, DeadOk, TaskOk, Enabled, KmallocAll, SpaceFrames;
  }

  lemma FreshPid(s: Kernel)
    requires Good(s)
    ensures s.nextPid !in s.tasks
  {
    assert forall p :: p in s.tasks ==> TaskOk(s, p, s.tasks[p]) && p < s.nextPid;
  }

  lemma OldTaskOk(s: Kernel, r: Kernel, user: bool, d: nat, blocks: seq<SM.Block>, p: Pid)
    requires Good(s) && Booked(s, r, user, d, blocks) && p in s.tasks
    ensures TaskOk(r, p, s.tasks[p])
  {
    var t := s.tasks[p];
    TaskOf(s, p);
    hide Sound, SM.Live, UserFrames, DeadOk, HolderOk, SpaceFrames, IsDir;
    forall b | b in t.blocks ensures b in r.holder && r.holder[b] == p {
      assert b !in blocks;
    }
    if t.user {
      SameSpaces(s.world, r.world, user, d, blocks, t.dir);
    }
  }

  lemma SameSpaces(w: World, r: World, user: bool, d: nat, blocks: seq<SM.Block>, e: nat)
    requires CreateEffect(w, r, user, d, blocks) && IsDir(w.mem, e)
    ensures SpaceFrames(r.mem.owner, e) == SpaceFrames(w.mem.owner, e) && (user ==> e != d)
  {
    hide Sound, GainedAll;
    if !user {
      SameFrames(w.mem.owner, r.mem.owner, e);
    }
  }

  lemma NewTaskOk(s: Kernel, r: Kernel, user: bool, d: nat, blocks: seq<SM.Block>)
    requires Booked(s, r, user, d, blocks)
    ensures TaskOk(r, s.nextPid, r.tasks[s.nextPid])
  {
    hide Sound, SM.Live;
    if !user {
      SameFrames(s.world.mem.owner, r.world.mem.owner, d);
    }
  }

  lemma HolderAfterCreate(s: Kernel, r: Kernel, user: bool, d: nat, blocks: seq<SM.Block>, b: SM.Block)
    requires Good(s) && Booked(s, r, user, d, blocks) && s.nextPid !in s.tasks
    ensures HolderOk(r, b)
  {
    assert HolderOk(s, b);
    hide Sound, SM.Live, TaskOk, SpaceOk, DeadOk;
  }

  lemma SpaceAfterCreate(s: Kernel, r: Kernel, user: bool, d: nat, blocks: seq<SM.Block>, x: nat)
    requires Good(s) && Booked(s, r, user, d, blocks) && s.nextPid !in s.tasks
    ensures SpaceOk(r, x)
  {
    assert SpaceOk(s, x);
    if !user {
      SameFrames(s.world.mem.owner, r.world.mem.owner, x);
    }
    hide Sound, SM.Live, TaskOk, HolderOk, DeadOk, SpaceFrames, UserFrames;
  }

  // ---- sys_mmap and sys_munmap ----

  // The books after task p's space changed to what mem says.
  ghost predicate Rebooked(s: Kernel, r: Kernel, p: Pid, mem: Mem) {
    && p in s.tasks && s.tasks[p].user
    && r == s.(world := s.world.(mem := mem), tasks := s.tasks[p := s.tasks[p].(frames := SpaceFrames(mem.owner, s.tasks[p].dir))])
    && SpaceChanged(s.world.mem, mem, s.tasks[p].dir)
  }

  // Only the frames of the space d changed hands.
  ghost predicate SpaceChanged(m: Mem, r: Mem, d: nat) {
    && Inv(r) && r.heap == m.heap
    && (forall e: nat :: e != d ==> SpaceFrames(r.owner, e) == SpaceFrames(m.owner, e))
    && (forall e: nat :: IsDir(r, e) <==> IsDir(m, e))
  }

  lemma RebookedKeeps(s: Kernel, r: Kernel, p: Pid, mem: Mem)
    requires Good(s) && Rebooked(s, r, p, mem)
    ensures Good(r)
  {
    hide Memory.Inv, SM.Inv, SM.Live, SpaceFrames, UserFrames, IsDir;
    forall q | q in r.tasks ensures TaskOk(r, q, r.tasks[q]) {
      assert TaskOk(s, q, s.tasks[q]) && TaskOk(s, p, s.tasks[p]);
    }
    forall b: SM.Block ensures HolderOk(r, b) {
      assert HolderOk(s, b);
    }
    forall x: nat ensures SpaceOk(r, x) {
      assert SpaceOk(s, x);
    }
  }

  lemma MmapKeeps(s: Kernel, e: Event)
    requires Good(s) && e.Mmap? && Enabled(s, e)
    ensures Good(Mapped(s, e))
  {
    var t := s.tasks[e.pid];
    var m, mem := s.world.mem, Fill(s.world.mem, t.dir, e.end);
    TaskOf(s, e.pid);
    hide Fill, FillFits, Holes, Memory.Inv, SM.Inv, SM.Live, SpaceFrames, UserFrames, IsDir, HolderOk, SpaceOk;
    MappedWorld(m, t.dir, e.n, e.end);
    RebookedKeeps(s, Mapped(s, e), e.pid, mem);
  }

  lemma MunmapKeeps(s: Kernel, e: Event)
    requires Good(s) && e.Munmap? && Enabled(s, e)
    ensures Good(Unmapped(s, e))
  {
    var t := s.tasks[e.pid];
    var m, mem := s.world.mem, MU.Unmap(s.world.mem, t.dir, e.start, e.n);
    TaskOf(s, e.pid);
    hide MU.Unmap, MU.AllMapped, Memory.Inv, SM.Inv, SM.Live, SpaceFrames, UserFrames, IsDir, HolderOk, SpaceOk;
    UnmappedWorld(m, t.dir, e.start, e.n);
    RebookedKeeps(s, Unmapped(s, e), e.pid, mem);
  }

  lemma UnmappedWorld(m: Mem, d: nat, start: nat, n: nat)
    requires Inv(m) && IsDir(m, d) && MU.AllMapped(m, d, start, n)
    ensures var r := MU.Unmap(m, d, start, n);
      && SpaceChanged(m, r, d)
      && SpaceFrames(r.owner, d) == SpaceFrames(m.owner, d) - (UserFrames(m.owner) - UserFrames(r.owner))
  {
    MU.UnmapKeeps(m, d, start, n);
    hide MU.Unmap, MU.AllMapped, MU.Visited, MU.OnlyTablesWritten, Memory.Inv, SpaceOnly, UEntry, Slot;
    SpaceKeepsHeap(m, MU.Unmap(m, d, start, n), d);
    LeftFrames(m.owner, MU.Unmap(m, d, start, n).owner, d);
  }

  lemma MappedWorld(m: Mem, d: nat, n: nat, end: nat)
    requires Inv(m) && IsDir(m, d) && FillFits(m, d, n) && 1 <= end <= USER_LIMIT_PAGE && Holes(m, d, end) <= n
    ensures var r := Fill(m, d, end);
      && SpaceChanged(m, r, d)
      && SpaceFrames(r.owner, d) == SpaceFrames(m.owner, d) + (UserFrames(r.owner) - UserFrames(m.owner))
  {
    FillKeeps(m, d, n, end);
    hide Fill, FillFits, Holes, Memory.Inv, SpaceOnly, ContentsKept, UEntry;
    SpaceKeepsHeap(m, Fill(m, d, end), d);
    JoinedFrames(m.owner, Fill(m, d, end).owner, d);
  }

  // ---- task_exit and the reaper ----

  lemma ExitKeeps(s: Kernel, p: Pid)
    requires Good(s) && Enabled(s, Exit(p))
    ensures Good(Step(s, Exit(p)))
  {
    hide Sound, SM.Live, SpaceFrames;
    var r := Step(s, Exit(p));
    forall q | q in r.tasks ensures TaskOk(r, q, r.tasks[q]) {
      assert TaskOk(s, q, s.tasks[q]);
    }
    forall b: SM.Block ensures HolderOk(r, b) {
      assert HolderOk(s, b);
    }
    forall x: nat ensures SpaceOk(r, x) {
      assert SpaceOk(s, x);
    }
  }

  // The world after the reaper released task t.
  ghost predicate ReapEffect(w: World, r: World, t: Task) {
    && Sound(r) && LostAll(w, r, t.blocks) && StayFree(w, r)
    && (t.user ==> forall g :: g in SpaceFrames(w.mem.owner, t.dir) ==> IsFree(r.mem, g))
    && (!t.user ==> UsersSame(w.mem.owner, r.mem.owner))
    && (t.user ==>
          && !IsDir(r.mem, t.dir) && UserFrames(w.mem.owner) - UserFrames(r.mem.owner) == SpaceFrames(w.mem.owner, t.dir)
          && (forall e: nat :: e != t.dir ==> SpaceFrames(r.mem.owner, e) == SpaceFrames(w.mem.owner, e))
          && (forall e: nat :: e != t.dir ==> (IsDir(r.mem, e) <==> IsDir(w.mem, e))))
  }

  lemma ReapedWorld(s: Kernel)
    requires Good(s) && s.dead != []
    ensures s.dead[0] in s.tasks && ReapEffect(s.world, Reaped(s).world, s.tasks[s.dead[0]])
  {
    hide TaskOk, HolderOk, SpaceOk, DeadOk, SM.Inv, SM.Live, Memory.Inv, KfreeAll, ReapOrder, Unspaced, ReapEffect;
    ReapIsSafe(s);
    var t := s.tasks[s.dead[0]];
    TaskOf(s, s.dead[0]);
    BlocksOf(s, s.dead[0]);
    ReapOrderIs(t);
    var u := Unspaced(s, t);
    KfreeAllKeeps(u, ReapOrder(t));
    ReapedFrom(s, t, KfreeAll(u, ReapOrder(t)));
  }

  lemma BlocksOf(s: Kernel, p: Pid)
    requires p in s.tasks && TaskOk(s, p, s.tasks[p])
    ensures |s.tasks[p].blocks| == |TASK_SIZES| && NoDup(s.tasks[p].blocks)
  {
  }

  lemma ReapedFrom(s: Kernel, t: Task, r: World)
    requires Sound(s.world) && (t.user ==> IsDir(s.world.mem, t.dir)) && |t.blocks| == |TASK_SIZES| && NoDup(t.blocks)
    requires Sound(r) && LostAll(Unspaced(s, t), r, ReapOrder(t)) && StayFree(Unspaced(s, t), r)
    requires UsersSame(Unspaced(s, t).mem.owner, r.mem.owner)
    ensures ReapEffect(s.world, r, t)
  {
    ReapOrderIs(t);
    var u := Unspaced(s, t);
    if t.user {
      TeardownKeeps(s.world.mem, t.dir);
    }
    hide SM.Inv, SM.Live, Memory.Inv, Teardown, SpaceOnly, ReapOrder, InSpace, LostAll, SpaceFrames, UserFrames, IsDir;
    SameLost(s.world, u, r, ReapOrder(t), t.blocks);
    if t.user {
      TornFrames(s.world.mem, u.mem, r.mem, t.dir);
      StillFree(s.world, u, r, t.dir);
    }
  }

  lemma StillFree(w: World, u: World, r: World, d: nat)
    requires Vacated(w.mem.owner, u.mem.owner, d) && StayFree(u, r)
    ensures StayFree(w, r) && forall g :: g in SpaceFrames(w.mem.owner, d) ==> IsFree(r.mem, g)
  {
  }

  lemma SameLost(w: World, u: World, r: World, order: seq<SM.Block>, blocks: seq<SM.Block>)
    requires LostAll(u, r, order) && u.heap == w.heap && NoDup(blocks) && forall b :: b in order <==> b in blocks
    ensures LostAll(w, r, blocks)
  {
    hide SM.Live, SI.SameBlock;
  }

  lemma TornFrames(o: Mem, u: Mem, r: Mem, d: nat)
    requires Vacated(o.owner, u.owner, d) && UsersSame(u.owner, r.owner)
    ensures !IsDir(r, d) && UserFrames(o.owner) - UserFrames(r.owner) == SpaceFrames(o.owner, d)
    ensures forall e: nat :: e != d ==> SpaceFrames(r.owner, e) == SpaceFrames(o.owner, e)
    ensures forall e: nat :: e != d ==> (IsDir(r, e) <==> IsDir(o, e))
  {
    VacatedFrames(o.owner, u.owner, d);
    SameFrames(u.owner, r.owner, d);
    forall e: nat | e != d ensures SpaceFrames(r.owner, e) == SpaceFrames(o.owner, e) && (IsDir(r, e) <==> IsDir(o, e)) {
      SameFrames(u.owner, r.owner, e);
    }
  }

  lemma ReapKeeps(s: Kernel)
    requires Good(s) && s.dead != []
    ensures Good(Reaped(s))
  {
    ReapedWorld(s);
    var p := s.dead[0];
    var t := s.tasks[p];
    var r := Reaped(s);
    ReapedParts(s);
    hide Sound, TaskOk, HolderOk, SpaceOk, SM.Live, SpaceFrames, UserFrames, ReapEffect, Reaped;
    forall q | q in r.tasks ensures TaskOk(r, q, r.tasks[q]) {
      OtherTaskOk(s, r, p, t, q);
    }
    forall b: SM.Block ensures HolderOk(r, b) {
      HolderAfterReap(s, r, p, t, b);
    }
    forall x: nat ensures SpaceOk(r, x) {
      SpaceAfterReap(s, r, p, t, x);
    }
  }

  // The books after the reaper released task p.
  ghost predicate Struck(s: Kernel, r: Kernel, p: Pid, t: Task) {
    && p in s.tasks && s.tasks[p] == t && ReapEffect(s.world, r.world, t)
    && r.tasks == s.tasks - {p} && r.nextPid == s.nextPid
    && r.holder == s.holder - (set b | b in t.blocks)
    && r.spaces == if t.user then s.spaces - {t.dir} else s.spaces
  }

  lemma ReapedParts(s: Kernel)
    requires Good(s) && s.dead != []
    ensures s.dead[0] in s.tasks && Struck(s, Reaped(s), s.dead[0], s.tasks[s.dead[0]])
    ensures Sound(Reaped(s).world) && DeadOk(Reaped(s))
  {
    ReapedWorld(s);
    hide Sound, TaskOk, HolderOk, SpaceOk;
  }

  lemma OtherTaskOk(s: Kernel, r: Kernel, p: Pid, t: Task, q: Pid)
    requires Good(s) && Struck(s, r, p, t) && q in r.tasks
    ensures TaskOk(r, q, r.tasks[q])
  {
    assert TaskOk(s, q, s.tasks[q]) && TaskOk(s, p, t);
    assert SpaceOk(s, s.tasks[q].dir);
    if !t.user {
      SameFrames(s.world.mem.owner, r.world.mem.owner, s.tasks[q].dir);
    }
    hide Sound, SM.Live, HolderOk, DeadOk, SpaceFrames, UserFrames;
  }

  lemma HolderAfterReap(s: Kernel, r: Kernel, p: Pid, t: Task, b: SM.Block)
    requires Good(s) && Struck(s, r, p, t)
    ensures HolderOk(r, b)
  {
    assert HolderOk(s, b) && TaskOk(s, p, t);
    hide Sound, SM.Live, SpaceOk, DeadOk, SpaceFrames, UserFrames;
  }

  lemma SpaceAfterReap(s: Kernel, r: Kernel, p: Pid, t: Task, x: nat)
    requires Good(s) && Struck(s, r, p, t)
    ensures SpaceOk(r, x)
  {
    assert SpaceOk(s, x) && TaskOk(s, p, t);
    if !t.user {
      SameFrames(s.world.mem.owner, r.world.mem.owner, x);
    }
    hide Sound, SM.Live, HolderOk, DeadOk, SpaceFrames, UserFrames;
  }

  /** Every step of a task's life keeps the books straight: each heap block and each address space
      in use belongs to one task, and the log of a task names exactly the frames of its space. */
  lemma StepKeeps(s: Kernel, e: Event)
    requires Good(s) && Enabled(s, e)
    ensures Good(Step(s, e))
  {
    hide Good, Enabled, Step, Created, Mapped, Unmapped, Reaped;
    match e {
      case Create(_, _, _) => CreateKeeps(s, e); StepIs(s, e);
      case Mmap(_, _, _) => MmapKeeps(s, e); StepIs(s, e);
      case Munmap(_, _, _) => MunmapKeeps(s, e); StepIs(s, e);
      case Exit(p) => ExitKeeps(s, p);
      case Reap => StepIs(s, e); ReapKeeps(s);
    }
  }

  lemma StepIs(s: Kernel, e: Event)
    requires Good(s) && Enabled(s, e)
    ensures e.Create? ==> Step(s, e) == Created(s, e)
    ensures e.Mmap? ==> Step(s, e) == Mapped(s, e)
    ensures e.Munmap? ==> Step(s, e) == Unmapped(s, e)
    ensures e.Reap? ==> s.dead != [] && Step(s, e) == Reaped(s)
  {
  }

  /** The reaper releases exactly what the task at the head of the dead queue acquired: the frames
      in its log become free, its blocks stop being live, and no other task's frames, blocks or
      spaces change. */
  lemma ReapReleasesWhatWasTaken(s: Kernel)
    requires Good(s) && Enabled(s, Reap)
    ensures s.dead != [] && s.dead[0] in s.tasks
    ensures var t, r := s.tasks[s.dead[0]], Step(s, Reap);
      && UserFrames(s.world.mem.owner) - UserFrames(r.world.mem.owner) == t.frames
      && (forall g :: g in t.frames ==> IsFree(r.world.mem, g))
      && (forall b: SM.Block :: SM.Live(s.world.heap, b) && !SM.Live(r.world.heap, b) <==> b in t.blocks)
      && (forall b: SM.Block :: SM.Live(r.world.heap, b) ==> SM.Live(s.world.heap, b) && SI.SameBlock(s.world.heap, r.world.heap, b))
      && s.dead[0] !in r.tasks && s.dead[0] < r.nextPid
      && (forall p :: p in r.tasks ==> p in s.tasks && r.tasks[p] == s.tasks[p])
  {
    ReapedParts(s);
    StepIs(s, Reap);
    var p := s.dead[0];
    assert TaskOk(s, p, s.tasks[p]);
    if !s.tasks[p].user {
      SameFrames(s.world.mem.owner, Reaped(s).world.mem.owner, 0);
    }
    hide Good, Sound, SM.Live, SpaceFrames, UserFrames, Reaped, Step;
  }
}
