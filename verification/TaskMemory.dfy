/** What create_task takes from the kernel's memory and what the reaper gives back
    (kernel/scheduler/scheduler.c:158-205, 230-253), over the allocators, proved against Lifecycle. */
module TaskMemory {
  import opened Paging
  import Memory
  import FrameBitmap
  import Machine
  import opened KernelMemory
  import opened Lifecycle
  import opened TaskSpace
  import opened Sequences
  import UserSpace
  import Kmalloc
  import SM = SlabModel
  import SI = SlabInvariant

  // The pointers a task_t keeps.
  datatype Record = Record(self: nat, fds: seq<nat>, stack: nat, cr3: nat, user: bool)

  // Each pointer is the address of the live block beside it.
  ghost predicate Point(h: SM.Heap, ptrs: seq<nat>, blocks: seq<SM.Block>) {
    |ptrs| == |blocks| && forall i :: 0 <= i < |blocks| ==> PointsTo(h, ptrs[i], blocks[i])
  }

  ghost predicate PointsTo(h: SM.Heap, ptr: nat, b: SM.Block) {
    SM.Live(h, b) && (b.Obj? ==> b.slab < |h.use|) && ptr == SM.Address(h, b)
  }

  // A block that stays keeps its address.
  lemma StillPointsTo(h: SM.Heap, r: SM.Heap, ptr: nat, b: SM.Block)
    requires PointsTo(h, ptr, b) && SM.Live(r, b) && SI.SameBlock(h, r, b)
    ensures PointsTo(r, ptr, b)
  {
  }

  // mmap places a request at the only leftmost run there is.
  lemma PageIsUnique(u: seq<bool>, a: nat, b: nat, n: nat)
    requires FrameBitmap.Leftmost(u, a, n) && FrameBitmap.Leftmost(u, b, n)
    ensures a == b
  {
  }

  lemma SamePage(w: World, size: nat, a: nat, b: nat)
    requires Fits(w, size, a) && Fits(w, size, b)
    ensures KernelMemory.Kmalloc(w, size, a) == KernelMemory.Kmalloc(w, size, b)
  {
    if NewPages(w.heap, size) > 0 {
      PageIsUnique(w.mem.heap, a, b, NewPages(w.heap, size));
    } else {
      SI.ClassOf(size);
    }
  }

  // kmalloc where the world has room at `page`.
  method Allocate(alloc: Kmalloc.Allocator, size: nat, ghost page: nat) returns (ptr: nat, ghost block: SM.Block)
    requires alloc.Valid() && Fits(alloc.Layers(), size, page) && SM.BigPages(size) < 0x1_0000
    modifies alloc, alloc.machine, alloc.machine.bitmap.bytes, alloc.machine.kpd, alloc.machine.kheap
    ensures alloc.Valid() && (alloc.Layers(), block) == KernelMemory.Kmalloc(old(alloc.Layers()), size, page)
    ensures PointsTo(alloc.heap, ptr, block)
  {
    ghost var w := alloc.Layers();
    RoomThere(alloc, size, page);
    hide Memory.Inv, SM.Inv, SM.Malloc, SM.Live;
    ghost var at;
    ptr, block, at := alloc.Kmalloc(size);
    SamePage(w, size, at, page);
    KmallocKeeps(w, size, at);
  }

  lemma RoomThere(alloc: Kmalloc.Allocator, size: nat, page: nat)
    requires alloc.Valid() && Fits(alloc.Layers(), size, page)
    ensures |alloc.heap.partial| == SM.NUM_CLASSES && SM.SizeToClass(size) <= SM.NUM_CLASSES
    ensures size <= 1024 ==> SM.SizeToClass(size) < SM.NUM_CLASSES - 1
    ensures size <= 1024 && alloc.heap.partial[SM.SizeToClass(size)] == [] ==> alloc.PagesFor(1)
    ensures size > 2048 ==> alloc.PagesFor(SM.BigPages(size))
  {
    SI.ClassOf(size);
    var n := NewPages(alloc.heap, size);
    if n > 0 {
      forall start: nat | FrameBitmap.Leftmost(alloc.machine.View().heap, start, n) ensures start == page {
        PageIsUnique(alloc.machine.View().heap, start, page, n);
      }
    }
  }

  // kmalloc for several sizes in a row.
  method AllocateAll(alloc: Kmalloc.Allocator, sizes: seq<nat>, ghost pages: seq<nat>) returns (ptrs: seq<nat>, ghost blocks: seq<SM.Block>)
    requires alloc.Valid() && AllFit(alloc.Layers(), sizes, pages) && forall i :: 0 <= i < |sizes| ==> SM.BigPages(sizes[i]) < 0x1_0000
    modifies alloc, alloc.machine, alloc.machine.bitmap.bytes, alloc.machine.kpd, alloc.machine.kheap
    ensures alloc.Valid() && (alloc.Layers(), blocks) == KmallocAll(old(alloc.Layers()), sizes, pages)
    ensures Point(alloc.heap, ptrs, blocks)
    decreases |sizes|
  {
    hide Memory.Inv, SM.Inv, SM.Live, Fits, KernelMemory.Kmalloc, PointsTo;
    ghost var w := alloc.Layers();
    if |sizes| == 0 {
      return [], [];
    }
    var ptr;
    ghost var block;
    ptr, block := Allocate(alloc, sizes[0], pages[0]);
    ghost var w1 := alloc.Layers();
    var rest;
    ghost var others;
    rest, others := AllocateAll(alloc, sizes[1..], pages[1..]);
    KmallocAllKeeps(w1, sizes[1..], pages[1..]);
    FirstStays(w1, alloc.Layers(), ptr, block, others);
    ptrs, blocks := [ptr] + rest, [block] + others;
  }

  lemma FirstStays(w: World, r: World, ptr: nat, b: SM.Block, others: seq<SM.Block>)
    requires PointsTo(w.heap, ptr, b) && GainedAll(w, r, others)
    ensures PointsTo(r.heap, ptr, b)
  {
    StillPointsTo(w.heap, r.heap, ptr, b);
  }

  // kfree for several blocks in a row.
  method FreeAll(alloc: Kmalloc.Allocator, ptrs: seq<nat>, ghost blocks: seq<SM.Block>)
    requires alloc.Valid() && Point(alloc.heap, ptrs, blocks) && NoDup(blocks)
    modifies alloc, alloc.machine, alloc.machine.bitmap.bytes, alloc.machine.kheap
    ensures alloc.Valid() && (forall b :: b in blocks ==> SM.Live(old(alloc.heap), b))
    ensures alloc.Layers() == KfreeAll(old(alloc.Layers()), blocks)
    decreases |ptrs|
  {
    hide Memory.Inv, SM.Inv, SM.Live, KernelMemory.Kfree, SM.Address;
    ghost var w := alloc.Layers();
    assert forall b :: b in blocks ==> SM.Live(w.heap, b);
    if |ptrs| == 0 {
      return;
    }
    assert PointsTo(alloc.heap, ptrs[0], blocks[0]);
    KfreeKeeps(w, blocks[0]);
    alloc.Kfree(ptrs[0], blocks[0]);
    RestIsLive(w, blocks);
    OthersStay(w, alloc.Layers(), ptrs, blocks);
    FreeAll(alloc, ptrs[1..], blocks[1..]);
  }

  lemma OthersStay(w: World, r: World, ptrs: seq<nat>, blocks: seq<SM.Block>)
    requires Point(w.heap, ptrs, blocks) && blocks != [] && SI.Lost(w.heap, r.heap, blocks[0])
    requires forall b :: b in blocks[1..] ==> SM.Live(r.heap, b)
    ensures Point(r.heap, ptrs[1..], blocks[1..])
  {
    hide SM.Live, PointsTo, SI.SameBlock;
    forall i | 0 <= i < |blocks[1..]| ensures PointsTo(r.heap, ptrs[1..][i], blocks[1..][i]) {
      assert blocks[1..][i] in blocks[1..];
      assert PointsTo(w.heap, ptrs[i + 1], blocks[i + 1]);
      StillPointsTo(w.heap, r.heap, ptrs[i + 1], blocks[i + 1]);
    }
  }

  // The record describes the task.
  ghost predicate Describes(h: SM.Heap, r: Record, t: Task) {
    && r.user == t.user && (t.user ==> r.cr3 == t.dir) && |r.fds| == 3
    && Point(h, [r.self] + r.fds + [r.stack], t.blocks)
  }

  /** create_task: the task structure, three files, the kernel stack and, for a user task, its
      address space. */
  method CreateTask(alloc: Kmalloc.Allocator, user: bool, program: seq<nat>, ghost s: Kernel, ghost pages: seq<nat>) returns (r: Record)
    requires alloc.Valid() && Good(s) && s.world == alloc.Layers() && |program| <= ENTRIES
    requires Enabled(s, Create(user, Image(program), pages))
    modifies alloc, alloc.machine, alloc.machine.bitmap.bytes, alloc.machine.kpd, alloc.machine.kheap
    ensures alloc.Valid() && alloc.Layers() == Created(s, Create(user, Image(program), pages)).world
    ensures Describes(alloc.heap, r, Created(s, Create(user, Image(program), pages)).tasks[s.nextPid])
  {
    hide Good, SM.Inv, SM.Live, Memory.Inv, Fits, KernelMemory.Kmalloc, PointsTo, KmallocAll, AllFit, Directory, Build, Image,
      Created, Enabled, SM.UsedPages;
    CreatedIs(s, user, Image(program), pages);
    var ptrs;
    ghost var blocks;
    ptrs, blocks := AllocateAll(alloc, TASK_SIZES, pages);
    var cr3 := 0;
    if user {
      cr3 := AddSpace(alloc, program);
    }
    r := Record(ptrs[0], ptrs[1..4], ptrs[4], cr3, user);
    assert [r.self] + r.fds + [r.stack] == ptrs;
  }

  // create_task taken apart.
  lemma CreatedIs(s: Kernel, user: bool, code: Memory.Page, pages: seq<nat>)
    requires Good(s) && Enabled(s, Create(user, code, pages))
    ensures AllFit(s.world, TASK_SIZES, pages)
    ensures var (w, blocks) := KmallocAll(s.world, TASK_SIZES, pages);
      var k := Created(s, Create(user, code, pages));
      && (user ==> BuildFits(w.mem) && |w.mem.ram| == |w.mem.owner| && |w.mem.kpd| == ENTRIES)
      && k.world == World(if user then Build(w.mem, code) else w.mem, w.heap)
      && s.nextPid in k.tasks
      && var t := k.tasks[s.nextPid];
      t.user == user && t.dir == Directory(w.mem) && t.blocks == blocks
  {
    KmallocAllKeeps(s.world, TASK_SIZES, pages);
    hide Good, Directory, Build, KmallocAll, AllFit;
  }

  // mmap_ring3 beside the heap.
  method AddSpace(alloc: Kmalloc.Allocator, program: seq<nat>) returns (cr3: nat)
    requires alloc.Valid() && BuildFits(alloc.machine.View()) && |program| <= ENTRIES
    modifies alloc.machine, alloc.machine.bitmap.bytes
    ensures |old(alloc.machine.View()).ram| == |old(alloc.machine.View()).owner| && |old(alloc.machine.View()).kpd| == ENTRIES
    ensures alloc.Valid() && cr3 == Directory(old(alloc.machine.View()))
    ensures alloc.Layers() == World(Build(old(alloc.machine.View()), Image(program)), old(alloc.heap))
  {
    ghost var m := alloc.machine.View();
    BuildKeeps(m, Image(program));
    hide SM.Inv, Memory.Inv, Build, Image, Directory, UserSpace.SpaceOnly;
    cr3 := MmapRing3(alloc.machine, program);
    SpaceKeepsHeap(m, alloc.machine.View(), cr3);
  }

  /** The reaper: the address space, the three files, the kernel stack and the task structure. */
  method ReapTask(alloc: Kmalloc.Allocator, r: Record, ghost s: Kernel)
    requires alloc.Valid() && Good(s) && s.world == alloc.Layers() && s.dead != []
    requires s.dead[0] in s.tasks && Describes(alloc.heap, r, s.tasks[s.dead[0]])
    modifies alloc, alloc.machine, alloc.machine.bitmap.bytes, alloc.machine.kheap
    ensures alloc.Valid() && alloc.Layers() == Reaped(s).world
  {
    ghost var t := s.tasks[s.dead[0]];
    ReapIsSafe(s);
    TaskOf(s, s.dead[0]);
    hide Good, SM.Inv, SM.Live, Memory.Inv, PointsTo, KfreeAll, Teardown;
    if r.user {
      DropSpace(alloc, r.cr3);
    }
    var ptrs := r.fds + [r.stack, r.self];
    assert Point(alloc.heap, ptrs, ReapOrder(t)) by {
      Reordered(alloc.heap, r, t);
    }
    FreeAll(alloc, ptrs, ReapOrder(t));
  }

  lemma Reordered(h: SM.Heap, r: Record, t: Task)
    requires Describes(h, r, t) && |t.blocks| == |TASK_SIZES|
    ensures Point(h, r.fds + [r.stack, r.self], ReapOrder(t))
  {
    hide PointsTo;
    var all, o, ptrs := [r.self] + r.fds + [r.stack], ReapOrder(t), r.fds + [r.stack, r.self];
    forall i | 0 <= i < |o| ensures PointsTo(h, ptrs[i], o[i]) {
      var j := if i < 4 then i + 1 else 0;
      assert PointsTo(h, all[j], t.blocks[j]);
    }
  }

  // unmmap_ring3 beside the heap.
  method DropSpace(alloc: Kmalloc.Allocator, cr3: nat)
    requires alloc.Valid() && Memory.IsDir(alloc.machine.View(), cr3)
    modifies alloc.machine, alloc.machine.bitmap.bytes
    ensures alloc.Valid() && alloc.Layers() == World(Teardown(old(alloc.machine.View()), cr3), old(alloc.heap))
  {
    ghost var m := alloc.machine.View();
    TeardownKeeps(m, cr3);
    hide SM.Inv, Memory.Inv, Teardown, UserSpace.SpaceOnly;
    UnmmapRing3(alloc.machine, cr3);
    SpaceKeepsHeap(m, alloc.machine.View(), cr3);
  }
}
