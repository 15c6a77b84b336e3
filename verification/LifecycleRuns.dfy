/** Memory is conserved over whole runs of task creation, sys_mmap, sys_munmap, task_exit and reaping
    (kernel/scheduler/scheduler.c:158-253, kernel/memory.c:205-492, kernel/syscall). */
module LifecycleRuns {
  import opened Paging
  import opened Memory
  import opened UserSpace
  import opened TaskSpace
  import opened KernelMemory
  import opened Access
  import opened Lifecycle
  import opened Sequences
  import KH = KernelHeap
  import SM = SlabModel
  import SI = SlabInvariant
  import MU = Munmap

  // ---- Pages in use hold a live block ----

  // Block b lies on page k.
  predicate OnPage(h: SM.Heap, b: SM.Block, k: nat) {
    match b
    case Obj(q, _) => q == k
    case Large(q) => q < |h.use| && h.use[q].Big? && q <= k < q + h.use[q].n
  }

  lemma {:induction false} SomeMissing(s: seq<nat>, n: nat) returns (j: nat)
    requires NoDup(s) && |s| < n
    ensures j < n && j !in s
  {
    SI.ElementsCount(s);
    if SI.Below(n) <= SI.Elements(s) {
      SI.SubsetSize(SI.Below(n), SI.Elements(s));
    }
    j :| j in SI.Below(n) && j !in SI.Elements(s);
  }

  // No empty slab survives, so every page in use holds a live block.
  lemma PageHasBlock(h: SM.Heap, k: nat) returns (b: SM.Block)
    requires SM.Inv(h) && InUse(h, k)
    ensures SM.Live(h, b) && OnPage(h, b, k)
  {
    if h.use[k].SlabPage? {
      var c := h.use[k].cls;
      assert SM.SlabOk(h, k) && SM.PartialOk(h, c) && SM.FullOk(h, c);
      SI.TotalAtLeastThree(c);
      var j := SomeMissing(h.free[k], SM.Total(c));
      b := SM.Obj(k, j);
    } else {
      assert SM.BigOk(h, k);
      b := SM.Large(h.use[k].head);
    }
  }

  // A block that stays where it is keeps its pages in use.
  lemma BlockKeepsPage(h: SM.Heap, r: SM.Heap, b: SM.Block, k: nat)
    requires SM.Inv(h) && SM.Inv(r) && InUse(h, k)
    requires SM.Live(h, b) && SM.Live(r, b) && OnPage(h, b, k) && SI.SameBlock(h, r, b)
    ensures InUse(r, k)
  {
    if b.Large? {
      assert SM.BigOk(h, b.head) && SM.BigOk(r, b.head);
      assert r.use[b.head].n == h.use[b.head].n;
    }
  }

  lemma SameBlockBack(h: SM.Heap, r: SM.Heap, b: SM.Block)
    requires SI.SameBlock(h, r, b)
    ensures SI.SameBlock(r, h, b)
  {
  }

  // ---- What was there at the start stays ----

  // Blocks, boot frames, directory entries and heap pages of w0 are still as they were in w.
  ghost predicate Anchored(w0: World, w: World) {
    && (forall b: SM.Block :: SM.Live(w0.heap, b) ==> SM.Live(w.heap, b) && SI.SameBlock(w0.heap, w.heap, b))
    && PagesStay(w0, w) && BootStays(w0, w)
  }

  ghost predicate PagesStay(w0: World, w: World) {
    forall k: nat :: InUse(w0.heap, k) ==> KEntry(w.mem, k) == KEntry(w0.mem, k)
  }

  ghost predicate BootStays(w0: World, w: World) {
    && |w.mem.kpd| == |w0.mem.kpd| && |w.mem.owner| == |w0.mem.owner|
    && (forall i :: 0 <= i < |w0.mem.kpd| && w0.mem.kpd[i] != 0 ==> w.mem.kpd[i] == w0.mem.kpd[i])
    && (forall g :: 0 <= g < |w0.mem.owner| ==> (w.mem.owner[g] == Reserved <==> w0.mem.owner[g] == Reserved))
  }

  lemma StillInUse(w0: World, w: World, k: nat)
    requires Sound(w0) && Sound(w) && InUse(w0.heap, k)
    requires forall b: SM.Block :: SM.Live(w0.heap, b) ==> SM.Live(w.heap, b) && SI.SameBlock(w0.heap, w.heap, b)
    ensures InUse(w.heap, k)
  {
    hide SM.Live, SI.SameBlock, InUse, OnPage, Memory.Inv, SM.Inv;
    var b := PageHasBlock(w0.heap, k);
    BlockKeepsPage(w0.heap, w.heap, b, k);
  }

  // One kmalloc or kfree, for what concerns pages and frames.
  lemma SteadyAnchors(w0: World, w: World, r: World)
    requires Sound(w0) && Sound(w) && Sound(r) && Anchored(w0, w) && Steady(w, r)
    requires forall b: SM.Block :: SM.Live(w0.heap, b) ==> SM.Live(r.heap, b) && SI.SameBlock(w.heap, r.heap, b)
    ensures Anchored(w0, r)
  {
    hide Sound, SM.Live, SI.SameBlock, KEntry, InUse, Slot;
    forall b: SM.Block | SM.Live(w0.heap, b) ensures SI.SameBlock(w0.heap, r.heap, b) {
      SameBlockJoin(w0.heap, w.heap, r.heap, b);
    }
    forall k: nat | InUse(w0.heap, k) ensures KEntry(r.mem, k) == KEntry(w0.mem, k) {
      StillInUse(w0, w, k);
      StillInUse(w0, r, k);
    }
  }

  lemma {:induction false} KmallocAllAnchors(w0: World, w: World, sizes: seq<nat>, pages: seq<nat>)
    requires Sound(w0) && Sound(w) && Anchored(w0, w) && AllFit(w, sizes, pages)
    ensures Anchored(w0, KmallocAll(w, sizes, pages).0)
    decreases sizes
  {
    hide Sound, Fits, Kmalloc, SM.Live, Steady, PagesStay, BootStays, SI.SameBlock;
    if sizes != [] {
      KmallocKeeps(w, sizes[0], pages[0]);
      var w1 := Kmalloc(w, sizes[0], pages[0]).0;
      SteadyAnchors(w0, w, w1);
      KmallocAllAnchors(w0, w1, sizes[1..], pages[1..]);
    }
  }

  lemma {:induction false} KfreeAllAnchors(w0: World, w: World, blocks: seq<SM.Block>)
    requires Sound(w0) && Sound(w) && Anchored(w0, w)
    requires NoDup(blocks) && (forall b :: b in blocks ==> SM.Live(w.heap, b) && !SM.Live(w0.heap, b))
    ensures Anchored(w0, KfreeAll(w, blocks))
    decreases blocks
  {
    hide Sound, Kfree, SM.Live, Steady, PagesStay, BootStays, SI.SameBlock;
    if blocks != [] {
      KfreeKeeps(w, blocks[0]);
      var w1 := Kfree(w, blocks[0]);
      assert blocks[0] in blocks;
      SteadyAnchors(w0, w, w1);
      RestIsLive(w, blocks);
      KfreeAllAnchors(w0, w1, blocks[1..]);
    }
  }

  // A change of one address space, for what concerns the kernel.
  lemma SpaceAnchors(w0: World, w: World, m: Mem, d: nat)
    requires Anchored(w0, w) && SpaceOnly(w.mem, m, d)
    requires forall g :: 0 <= g < |w.mem.owner| && g < |m.owner| ==> (m.owner[g] == Reserved <==> w.mem.owner[g] == Reserved)
    ensures Anchored(w0, World(m, w.heap))
  {
    SpaceKeepsHeap(w.mem, m, d);
    hide SM.Live, SI.SameBlock, SpaceOnly, KEntry;
  }

  // ---- Runs ----

  // The blocks in use are those of the start and those the tasks hold.
  ghost predicate Accounted(w0: World, s: Kernel) {
    && (forall b: SM.Block :: b in s.holder ==> !SM.Live(w0.heap, b))
    && (forall b: SM.Block :: SM.Live(s.world.heap, b) ==> SM.Live(w0.heap, b) || b in s.holder)
  }

  lemma CreateAnchors(w0: World, s: Kernel, e: Event)
    requires Good(s) && Sound(w0) && Anchored(w0, s.world) && Accounted(w0, s) && e.Create? && Enabled(s, e)
    ensures Anchored(w0, Created(s, e).world) && Accounted(w0, Created(s, e))
  {
    hide TaskOk, HolderOk, SpaceOk, DeadOk, SM.Inv, SM.Live, Memory.Inv, Build, AllFit, SpaceOnly, KmallocAll, Directory,
      Anchored, SI.SameBlock, UserFrames;
    var (w, blocks) := KmallocAll(s.world, TASK_SIZES, e.pages);
    KmallocAllKeeps(s.world, TASK_SIZES, e.pages);
    KmallocAllAnchors(w0, s.world, TASK_SIZES, e.pages);
    var d := Directory(w.mem);
    if e.user {
      InvShape(w.mem);
      BuildKeeps(w.mem, e.code);
      SpaceAnchors(w0, w, Build(w.mem, e.code), d);
    }
    AnchorMeans(w0, s.world);
    assert Created(s, e).holder == Assign(s.holder, blocks, s.nextPid);
  }

  lemma AnchorMeans(w0: World, w: World)
    requires Anchored(w0, w)
    ensures forall b: SM.Block :: SM.Live(w0.heap, b) ==> SM.Live(w.heap, b)
  {
    hide SM.Live;
  }

  lemma MmapAnchors(w0: World, s: Kernel, e: Event)
    requires Good(s) && Anchored(w0, s.world) && Accounted(w0, s) && e.Mmap? && Enabled(s, e)
    ensures Anchored(w0, Mapped(s, e).world) && Accounted(w0, Mapped(s, e))
  {
    var t := s.tasks[e.pid];
    TaskOf(s, e.pid);
    FillKeeps(s.world.mem, t.dir, e.n, e.end);
    hide Fill, FillFits, Holes, Memory.Inv, SM.Inv, SM.Live, SpaceOnly, ContentsKept, UEntry, Anchored;
    SpaceAnchors(w0, s.world, Fill(s.world.mem, t.dir, e.end), t.dir);
  }

  lemma MunmapAnchors(w0: World, s: Kernel, e: Event)
    requires Good(s) && Anchored(w0, s.world) && Accounted(w0, s) && e.Munmap? && Enabled(s, e)
    ensures Anchored(w0, Unmapped(s, e).world) && Accounted(w0, Unmapped(s, e))
  {
    var t := s.tasks[e.pid];
    TaskOf(s, e.pid);
    MU.UnmapKeeps(s.world.mem, t.dir, e.start, e.n);
    hide MU.Unmap, MU.AllMapped, MU.Visited, MU.OnlyTablesWritten, Memory.Inv, SM.Inv, SM.Live, SpaceOnly, UEntry, Slot, Anchored;
    SpaceAnchors(w0, s.world, MU.Unmap(s.world.mem, t.dir, e.start, e.n), t.dir);
  }

  lemma ReapAnchors(w0: World, s: Kernel)
    requires Good(s) && Sound(w0) && Anchored(w0, s.world) && Accounted(w0, s) && s.dead != []
    ensures Anchored(w0, Reaped(s).world) && Accounted(w0, Reaped(s))
  {
    var p := s.dead[0];
    var t := s.tasks[p];
    ReapIsSafe(s);
    ReapOrderIs(t);
    ReapedParts(s);
    var u := Unspaced(s, t);
    TaskOf(s, p);
    hide Sound, HolderOk, SpaceOk, DeadOk, SM.Live, Teardown, SpaceOnly, KfreeAll, ReapOrder, InSpace, Anchored, SI.SameBlock;
    if t.user {
      TornAnchors(w0, s.world, t.dir);
    }
    assert forall b :: b in t.blocks ==> b in s.holder;
    KfreeAllAnchors(w0, u, ReapOrder(t));
    ReapedIs(s);
  }

  lemma ReapedIs(s: Kernel)
    requires Good(s) && s.dead != []
    ensures s.dead[0] in s.tasks && |s.tasks[s.dead[0]].blocks| == |TASK_SIZES|
    ensures var t := s.tasks[s.dead[0]];
      && Sound(Unspaced(s, t)) && NoDup(ReapOrder(t)) && (forall b :: b in ReapOrder(t) ==> SM.Live(Unspaced(s, t).heap, b))
      && Reaped(s).world == KfreeAll(Unspaced(s, t), ReapOrder(t))
  {
    ReapIsSafe(s);
    hide Good, Sound, SM.Live, Unspaced;
  }

  lemma TornAnchors(w0: World, w: World, d: nat)
    requires Sound(w) && Anchored(w0, w) && IsDir(w.mem, d)
    ensures Anchored(w0, World(Teardown(w.mem, d), w.heap))
  {
    hide Teardown, SpaceOnly, Anchored;
    TeardownKeeps(w.mem, d);
    SpaceAnchors(w0, w, Teardown(w.mem, d), d);
  }

  lemma StepAnchors(w0: World, s: Kernel, e: Event)
    requires Good(s) && Sound(w0) && Anchored(w0, s.world) && Accounted(w0, s) && Enabled(s, e)
    ensures Anchored(w0, Step(s, e).world) && Accounted(w0, Step(s, e))
  {
    StepIs(s, e);
    hide Sound, Anchored, Accounted, Created, Mapped, Unmapped, Reaped;
    match e {
      case Create(_, _, _) => CreateAnchors(w0, s, e);
      case Mmap(_, _, _) => MmapAnchors(w0, s, e);
      case Munmap(_, _, _) => MunmapAnchors(w0, s, e);
      case Exit(p) => ExitAnchors(w0, s, p);
      case Reap => ReapAnchors(w0, s);
    }
  }

  lemma ExitAnchors(w0: World, s: Kernel, p: Pid)
    requires Good(s) && Accounted(w0, s) && Enabled(s, Exit(p))
    ensures Step(s, Exit(p)).world == s.world && Accounted(w0, Step(s, Exit(p)))
  {
    hide SM.Live;
  }

  // Every event of the run is enabled where it happens.
  ghost predicate Runs(s: Kernel, events: seq<Event>)
    requires Good(s)
    decreases events
  {
    events != [] ==> Enabled(s, events[0]) && (StepKeeps(s, events[0]); Runs(Step(s, events[0]), events[1..]))
  }

  ghost function Final(s: Kernel, events: seq<Event>): Kernel
    requires Good(s) && Runs(s, events)
    decreases events
  {
    if events == [] then s
    else
      StepKeeps(s, events[0]);
      Final(Step(s, events[0]), events[1..])
  }

  lemma {:induction false} RunAnchors(w0: World, s: Kernel, events: seq<Event>)
    requires Good(s) && Runs(s, events) && Sound(w0) && Anchored(w0, s.world) && Accounted(w0, s)
    ensures var r := Final(s, events); Good(r) && Anchored(w0, r.world) && Accounted(w0, r)
    decreases events
  {
    hide Good, Sound, Anchored, Accounted, Enabled, Step;
    if events != [] {
      StepKeeps(s, events[0]);
      StepAnchors(w0, s, events[0]);
      RunAnchors(w0, Step(s, events[0]), events[1..]);
    }
  }

  lemma {:induction false} RunKeeps(s: Kernel, events: seq<Event>)
    requires Good(s) && Runs(s, events)
    ensures Good(Final(s, events))
    decreases events
  {
    hide Good, Enabled, Step;
    if events != [] {
      StepKeeps(s, events[0]);
      RunKeeps(Step(s, events[0]), events[1..]);
    }
  }

  // ---- Isolation ----

  // What ring 3 may do at address p while the task runs, and where p goes.
  predicate TaskMay(s: Kernel, t: Task, p: nat) {
    t.dir < |s.world.mem.ram| && UserMay(s.world.mem.ram, s.world.mem.ram[t.dir], p)
  }

  function TaskPhysical(s: Kernel, t: Task, p: nat): nat {
    if t.dir < |s.world.mem.ram| then Physical(s.world.mem.ram, s.world.mem.ram[t.dir], p) else 0
  }

  /** Isolation: at every moment of every run no physical byte is reached by two user tasks, or by one at
      two addresses, and no user task reaches the kernel heap's addresses or a byte of a live kernel
      block. */
  lemma TasksAreIsolated(s: Kernel, events: seq<Event>, a: Pid, p: nat, b: Pid, q: nat)
    requires Good(s) && Runs(s, events) && p < 0xC000_0000 && q < 0xC000_0000
    requires var f := Final(s, events); a in f.tasks && b in f.tasks && f.tasks[a].user && f.tasks[b].user
    ensures var f := Final(s, events);
      && (TaskMay(f, f.tasks[a], p) && TaskMay(f, f.tasks[b], q) ==>
            (TaskPhysical(f, f.tasks[a], p) == TaskPhysical(f, f.tasks[b], q) <==> a == b && p == q))
      && (forall x: nat :: 0xC040_0000 <= x < 0xE000_0000 ==> !TaskMay(f, f.tasks[a], x))
      && (TaskMay(f, f.tasks[a], p) ==> forall k: SM.Block, x: nat :: InBlock(f.world.heap, k, x) ==>
            TaskPhysical(f, f.tasks[a], p) != Physical(f.world.mem.ram, f.world.mem.kpd, x))
  {
    RunKeeps(s, events);
    var f := Final(s, events);
    TaskOf(f, a);
    TaskOf(f, b);
    var m, d, e := f.world.mem, f.tasks[a].dir, f.tasks[b].dir;
    assert a != b ==> d != e;
    SpacesAreIsolated(m, d, p, e, q);
    hide Good, Sound, Runs, Final, UserMay, Physical, InBlock, IsDir;
    SoundOf(f);
    forall x: nat | 0xC040_0000 <= x < 0xE000_0000 ensures !TaskMay(f, f.tasks[a], x) {
      HeapIsClosedToUsers(m, d, x);
    }
    forall k: SM.Block, x: nat | InBlock(f.world.heap, k, x) && TaskMay(f, f.tasks[a], p)
      ensures TaskPhysical(f, f.tasks[a], p) != Physical(m.ram, m.kpd, x)
    {
      LiveBytesArePrivate(f.world, k, x, k, x);
    }
  }

  // ---- Conservation ----

  lemma NoTasksNoHolders(s: Kernel)
    requires Good(s) && s.tasks == map[]
    ensures s.holder == map[] && forall d: nat :: !IsDir(s.world.mem, d)
  {
    forall b: SM.Block ensures b !in s.holder {
      assert HolderOk(s, b);
    }
    forall d: nat ensures !IsDir(s.world.mem, d) {
      assert SpaceOk(s, d);
    }
  }

  lemma NoUserFrames(m: Mem)
    requires Inv(m) && forall d: nat :: !IsDir(m, d)
    ensures forall g :: 0 <= g < |m.owner| ==> !IsUser(m.owner[g])
  {
    forall g | 0 <= g < |m.owner| ensures !IsUser(m.owner[g]) {
      assert OwnIsNamed(m, g);
      assert !IsDir(m, g);
    }
  }

  // A frame named by the same slot in both has the same owner in both.
  lemma SameSlotSameOwner(a: Mem, b: Mem, g: nat)
    requires Inv(a) && Inv(b) && g < |a.owner| == |b.owner| && a.owner[g].IsSlot()
    requires Slot(b, a.owner[g]) == Slot(a, a.owner[g])
    ensures b.owner[g] == a.owner[g]
  {
    assert OwnIsNamed(a, g) && NamesOwn(b, a.owner[g]);
  }

  // Every frame is back in its old use, unless it became a page table of the kernel heap.
  lemma OwnersBack(a: Mem, b: Mem, g: nat)
    requires Inv(a) && Inv(b) && g < |a.owner| == |b.owner| && |a.kpd| == |b.kpd|
    requires forall i :: 0 <= i < |a.kpd| && a.kpd[i] != 0 ==> b.kpd[i] == a.kpd[i]
    requires b.owner[g] == Reserved <==> a.owner[g] == Reserved
    requires !IsUser(a.owner[g]) && !IsUser(b.owner[g])
    requires forall k: nat :: k < KHEAP_PAGES ==> KEntry(b, k) == KEntry(a, k)
    ensures b.owner[g] == a.owner[g] || (a.owner[g] == Free && b.owner[g].KTable?)
  {
    hide Memory.Inv, KEntry;
    if a.owner[g].KPage? || a.owner[g].KTable? {
      SlotIsSet(a, g);
      SameSlotSameOwner(a, b, g);
    } else if b.owner[g].KPage? {
      SlotIsSet(b, g);
      SameSlotSameOwner(b, a, g);
    }
  }

  lemma SlotIsSet(m: Mem, g: nat)
    requires Inv(m) && g < |m.owner| && m.owner[g].IsSlot()
    ensures Slot(m, m.owner[g]) != 0
  {
    assert OwnIsNamed(m, g);
  }

  // With the same live blocks the same pages are in use, and map the same frames.
  lemma PagesBack(w0: World, w: World)
    requires Sound(w0) && Sound(w) && Anchored(w0, w)
    requires forall b: SM.Block :: SM.Live(w.heap, b) ==> SM.Live(w0.heap, b)
    ensures w.mem.heap == w0.mem.heap
    ensures forall k: nat :: k < KHEAP_PAGES ==> KEntry(w.mem, k) == KEntry(w0.mem, k)
  {
    hide SM.Live, SI.SameBlock, KEntry, SM.Inv, BootStays, SharesKernelHalf, Linked;
    forall b: SM.Block | SM.Live(w.heap, b) ensures SI.SameBlock(w.heap, w0.heap, b) {
      SameBlockBack(w0.heap, w.heap, b);
    }
    forall k: nat | k < KHEAP_PAGES
      ensures w.mem.heap[k] == w0.mem.heap[k] && KEntry(w.mem, k) == KEntry(w0.mem, k)
    {
      HeapIsUse(w0, k);
      HeapIsUse(w, k);
      if InUse(w0.heap, k) {
        StillInUse(w0, w, k);
      } else if InUse(w.heap, k) {
        StillInUse(w, w0, k);
      }
    }
  }

  lemma HeapIsUse(w: World, k: nat)
    requires Sound(w) && k < KHEAP_PAGES
    ensures |w.mem.heap| == KHEAP_PAGES && (w.mem.heap[k] <==> InUse(w.heap, k)) && (w.mem.heap[k] <==> KEntry(w.mem, k) != 0)
  {
    assert w.mem.heap[k] == SM.UsedPages(w.heap)[k];
  }

  /** Conservation: however tasks are created, map and unmap memory, exit and are reaped, once all of them are
      gone the kernel heap holds the same blocks on the same pages in the same frames as before, and
      every frame has its former use again, except that free frames may have become page tables of
      the kernel heap, which are kept. */
  lemma MemoryIsConserved(s: Kernel, events: seq<Event>)
    requires Good(s) && Runs(s, events) && s.tasks == map[] && Final(s, events).tasks == map[]
    ensures var m, r := s.world.mem, Final(s, events).world.mem;
      && (forall b: SM.Block :: SM.Live(Final(s, events).world.heap, b) <==> SM.Live(s.world.heap, b))
      && r.heap == m.heap && (forall k: nat :: k < KHEAP_PAGES ==> KEntry(r, k) == KEntry(m, k))
      && |r.owner| == |m.owner|
      && (forall g :: 0 <= g < |m.owner| ==> r.owner[g] == m.owner[g] || (m.owner[g] == Free && r.owner[g].KTable?))
  {
    var w0, f := s.world, Final(s, events);
    NoTasksNoHolders(s);
    StartAnchored(s);
    RunAnchors(w0, s, events);
    NoTasksNoHolders(f);
    SoundOf(s);
    SoundOf(f);
    NoUserFrames(w0.mem);
    NoUserFrames(f.world.mem);
    hide Good, Sound, SM.Live, SI.SameBlock, KEntry, Runs, Final, Memory.Inv, PagesStay, IsDir;
    PagesBack(w0, f.world);
    forall g | 0 <= g < |w0.mem.owner|
      ensures f.world.mem.owner[g] == w0.mem.owner[g] || (w0.mem.owner[g] == Free && f.world.mem.owner[g].KTable?)
    {
      OwnersBack(w0.mem, f.world.mem, g);
    }
  }

  lemma SoundOf(s: Kernel)
    requires Good(s)
    ensures Sound(s.world) && Memory.Inv(s.world.mem)
  {
  }

  lemma StartAnchored(s: Kernel)
    requires Good(s) && s.holder == map[]
    ensures Sound(s.world) && Anchored(s.world, s.world) && Accounted(s.world, s)
  {
  }
}
