/** kmalloc and kfree over slab headers, cache heads and the kernel heap's pages
    (kernel/memory.c:387-492), proved against SlabModel. */
module Kmalloc {
  import opened Paging
  import opened SlabModel
  import opened SlabLists
  import opened SlabRep
  import SlabInvariant
  import SlabAnswers
  import FrameBitmap
  import Memory
  import Machine
  import KernelHeap
  import KernelMemory

  // ---- What the new states represent ----

  lemma TakeCountRep(s: Caches, h: Heap, c: nat)
    requires Rep(s, h) && Inv(h) && c < NUM_CLASSES - 1 && h.partial[c] != []
    ensures var k := h.partial[c][0];
      && k in h.free && h.free[k] != [] && s.partial[c] == PageAddr(k) && PageAddr(k) in s.hdr
      && var header := s.hdr[PageAddr(k)];
      && header.freeCount == |h.free[k]| <= |header.freeList|
      && header.freeList[header.freeCount - 1] == ObjAddr(c, k, h.free[k][|h.free[k]| - 1])
      && Rep(s.(hdr := s.hdr[PageAddr(k) := header.(freeCount := header.freeCount - 1)]),
             h.(free := h.free[k := h.free[k][..|h.free[k]| - 1]]))
  {
    SlabInvariant.PartialHead(h, c);
    var k := h.partial[c][0];
    assert SlabHeader(s.hdr, h, k);
    assert Linked(s.hdr, s.partial[c], h.partial[c]);
    var header := s.hdr[PageAddr(k)];
    CountedHeaders(s, h, k, header.freeCount - 1, header.freeList, h.free[k][..|h.free[k]| - 1]);
    assert header.(freeCount := header.freeCount - 1) == header.(freeCount := header.freeCount - 1, freeList := header.freeList);
  }

  // kfree stores the pointer behind the used part of the free list.
  lemma GiveCountRep(s: Caches, h: Heap, k: nat, j: nat)
    requires Rep(s, h) && Inv(h) && Live(h, Obj(k, j))
    ensures h.use[k].cls < NUM_CLASSES && PageAddr(k) in s.hdr
    ensures var header := s.hdr[PageAddr(k)];
      && header.owner == Cache(h.use[k].cls) && header.total == Total(h.use[k].cls)
      && header.freeCount == |h.free[k]| < |header.freeList|
      && Rep(s.(hdr := s.hdr[PageAddr(k) := header.(freeCount := header.freeCount + 1,
                                                    freeList := header.freeList[header.freeCount := ObjAddr(h.use[k].cls, k, j)])]),
             h.(free := h.free[k := h.free[k] + [j]]))
  {
    SlabInvariant.LiveObject(h, k, j);
    assert SlabHeader(s.hdr, h, k);
    var header := s.hdr[PageAddr(k)];
    CountedHeaders(s, h, k, header.freeCount + 1, header.freeList[header.freeCount := ObjAddr(h.use[k].cls, k, j)], h.free[k] + [j]);
  }

  lemma NewSlabRep(s: Caches, h: Heap, c: nat, page: nat, header: Header)
    requires Rep(s, h) && Inv(h) && c < NUM_CLASSES && h.partial[c] == [] && page < |h.use| && h.use[page] == Unused
    requires header.next == header.prev == NULL && header.owner == Cache(c) && header.total == Total(c) == |header.freeList|
    requires header.freeCount == Total(c) - 1 && forall i :: 0 <= i < Total(c) ==> header.freeList[i] == ObjAddr(c, page, i)
    ensures Rep(Caches(s.hdr[PageAddr(page) := header], s.partial[c := PageAddr(page)], s.full), SlabInvariant.WithSlab(h, c, page))
  {
    hide ObjAddr;
    var r, t := s.hdr[PageAddr(page) := header], SlabInvariant.WithSlab(h, c, page);
    forall d: nat | d < NUM_CLASSES ensures page !in h.partial[d] && page !in h.full[d] {
      assert PartialOk(h, d) && FullOk(h, d);
    }
    FreshHeaders(s, h, page, header);
    assert Linked(r, PageAddr(page), [page]);
    NewSlabHeaders(s.hdr, h, c, page, header);
  }

  lemma NewSlabHeaders(hdr: Headers, h: Heap, c: nat, page: nat, header: Header)
    requires HeadersOk(hdr, h) && c < |h.partial| && page < |h.use|
    requires header.owner == Cache(c) && header.total == Total(c) == |header.freeList|
    requires header.freeCount == Total(c) - 1 && forall i :: 0 <= i < Total(c) ==> header.freeList[i] == ObjAddr(c, page, i)
    ensures HeadersOk(hdr[PageAddr(page) := header], SlabInvariant.WithSlab(h, c, page))
  {
    hide ObjAddr;
    var r, t := hdr[PageAddr(page) := header], SlabInvariant.WithSlab(h, c, page);
    forall k: nat ensures SlabHeader(r, t, k) && LargeHeader(r, t, k) {
      assert SlabHeader(hdr, h, k) && LargeHeader(hdr, h, k);
    }
  }

  lemma NewLargeRep(s: Caches, h: Heap, size: nat, page: nat, header: Header)
    requires Rep(s, h) && Inv(h) && size > 2048 && FrameBitmap.FreeRun(UsedPages(h), page, BigPages(size))
    requires header.owner == NoCache && header.total == BigPages(size)
    ensures Malloc(h, size, page).Got?
    ensures Rep(s.(hdr := s.hdr[PageAddr(page) := header]), Malloc(h, size, page).heap)
  {
    SlabInvariant.ClassOf(size);
    var r, t := s.hdr[PageAddr(page) := header], Malloc(h, size, page).heap;
    assert !UsedPages(h)[page];
    forall d: nat | d < NUM_CLASSES ensures page !in h.partial[d] && page !in h.full[d] {
      assert PartialOk(h, d) && FullOk(h, d);
    }
    FreshHeaders(s, h, page, header);
    forall q | page <= q < page + BigPages(size) ensures h.use[q] == Unused {
      assert !UsedPages(h)[q];
    }
    forall k: nat ensures SlabHeader(r, t, k) && LargeHeader(r, t, k) {
      assert SlabHeader(s.hdr, h, k) && LargeHeader(s.hdr, h, k) && BigOk(h, k);
    }
  }

  lemma DropLargeRep(s: Caches, h: Heap, k: nat)
    requires Rep(s, h) && Inv(h) && Live(h, Large(k))
    ensures PageAddr(k) in s.hdr && s.hdr[PageAddr(k)].owner == NoCache && s.hdr[PageAddr(k)].total == h.use[k].n
    ensures Rep(s.(hdr := s.hdr - {PageAddr(k)}), Free(h, Large(k)))
  {
    assert LargeHeader(s.hdr, h, k);
    var r, t := s.hdr - {PageAddr(k)}, Free(h, Large(k));
    forall d: nat | d < NUM_CLASSES
      ensures Linked(r, s.partial[d], h.partial[d]) && Linked(r, s.full[d], h.full[d])
    {
      assert PartialOk(h, d) && FullOk(h, d);
      HeaderGone(s.hdr, s.partial[d], h.partial[d], k);
      HeaderGone(s.hdr, s.full[d], h.full[d], k);
    }
    forall q: nat ensures SlabHeader(r, t, q) && LargeHeader(r, t, q) {
      assert SlabHeader(s.hdr, h, q) && LargeHeader(s.hdr, h, q) && BigOk(h, q) && BigOk(h, k);
    }
  }

  // Dropping slab k leaves the other headers as they are.
  lemma DropHeaders(hdr: Headers, r: Headers, h: Heap, c: nat, k: nat)
    requires HeadersOk(hdr, h) && OnlyLinks(hdr, r) && c < |h.partial| && k < |h.use|
    ensures HeadersOk(r - {PageAddr(k)}, DropSlab(h, c, k))
  {
    var t := DropSlab(h, c, k);
    forall q: nat ensures SlabHeader(r - {PageAddr(k)}, t, q) && LargeHeader(r - {PageAddr(k)}, t, q) {
      assert SlabHeader(hdr, h, q) && LargeHeader(hdr, h, q);
    }
  }

  // ---- The code ----

  class Allocator {
    const machine: Machine.Machine
    var hdr: Headers
    var partial: seq<nat>
    var full: seq<nat>
    ghost var heap: Heap

    constructor (machine: Machine.Machine)
      requires machine.Valid() && forall k :: 0 <= k < KHEAP_PAGES ==> machine.kheap[k] == 0
      ensures Valid() && this.machine == machine && heap == EMPTY_HEAP
    {
      this.machine := machine;
      hdr := map[];
      partial := seq(NUM_CLASSES, _ => NULL);
      full := seq(NUM_CLASSES, _ => NULL);
      heap := EMPTY_HEAP;
      new;
      SlabInvariant.EmptyOk();
    }

    ghost function State(): Caches
      reads this
    {
      Caches(hdr, partial, full)
    }

    // The heap over the memory.
    ghost function Layers(): KernelMemory.World
      reads this, machine, machine.bitmap.bytes, machine.kpd, machine.kheap
    {
      KernelMemory.World(machine.View(), heap)
    }

    // The slabs and large blocks occupy exactly the pages marked in kheap_pages.
    ghost predicate Valid()
      reads this, machine, machine.bitmap.bytes, machine.kpd, machine.kheap
    {
      && machine.Valid() && Inv(heap) && Rep(State(), heap)
      && UsedPages(heap) == machine.View().heap
    }

    /** size_to_class. */
    static method ClassIndex(size: nat) returns (c: int)
      ensures c == if SizeToClass(size) == NUM_CLASSES then -1 else SizeToClass(size)
    {
      SlabInvariant.ClassOf(size);
      for i := 0 to NUM_CLASSES
        invariant ClassFrom(size, 0) == ClassFrom(size, i)
      {
        if size <= ObjSize(i) {
          return i;
        }
      }
      return -1;
    }

    // kmalloc from the slab at the head of the partial list.
    method TakeObject(c: nat) returns (addr: nat, ghost block: Block)
      requires Inv(heap) && Rep(State(), heap) && c < NUM_CLASSES - 1 && heap.partial[c] != []
      modifies this
      ensures old(heap).partial[c][0] in old(heap).free && old(heap).free[old(heap).partial[c][0]] != []
      ensures heap == SlabInvariant.Taken(old(heap), c) && Rep(State(), heap)
      ensures var k := old(heap).partial[c][0];
        var j := old(heap).free[k][|old(heap).free[k]| - 1];
        block == Obj(k, j) && addr == ObjAddr(c, k, j)
    {
      hide Inv, HeadersOk, Linked, ObjAddr;
      ghost var h := heap;
      TakeCountRep(State(), h, c);
      InvListsApart(h);
      ghost var k := h.partial[c][0];
      block := Obj(k, h.free[k][|h.free[k]| - 1]);
      var slab := partial[c];
      var header := hdr[slab];
      addr := header.freeList[header.freeCount - 1];
      hdr := hdr[slab := header.(freeCount := header.freeCount - 1)];
      heap := h.(free := h.free[k := h.free[k][..|h.free[k]| - 1]]);
      if hdr[slab].freeCount == 0 {
        RetireSlab(c, k);
      }
    }

    // A slab whose last object was handed out moves from the partial to the full list.
    method RetireSlab(c: nat, ghost k: nat)
      requires Rep(State(), heap) && ListsApart(heap) && c < NUM_CLASSES && heap.partial[c] != [] && k == heap.partial[c][0]
      modifies this
      ensures heap == MoveToFull(old(heap), c, k) && Rep(State(), heap)
    {
      hide ListsApart, Linked;
      ghost var before, h := State(), heap;
      MoveToFullLists(before, h, c);
      var slab := partial[c];
      var next := hdr[slab].next;
      if next != NULL {
        hdr := SetPrev(hdr, next, NULL);
      }
      partial := partial[c := next];
      assert hdr == Unlink(before.hdr, slab);
      if full[c] != NULL {
        hdr := SetPrev(hdr, full[c], slab);
      }
      hdr := SetNext(hdr, slab, full[c]);
      hdr := SetPrev(hdr, slab, NULL);
      assert hdr == PushFront(Unlink(before.hdr, slab), before.full[c], slab);
      full := full[c := slab];
      heap := MoveToFull(h, c, k);
      RelinkedHeaders(before.hdr, hdr, h, heap);
    }

    // The pages a request needs are available: a virtual run, and frames for it.
    ghost predicate PagesFor(n: nat)
      reads this, machine, machine.kpd, machine.kheap
    {
      && FrameBitmap.HasRun(machine.View().heap, n)
      && forall start: nat :: FrameBitmap.Leftmost(machine.View().heap, start, n) ==> KernelHeap.MapFits(machine.View(), start, n)
    }

    // mmap keeps the kernel memory sound.
    method MapPages(n: nat) returns (addr: nat, ghost start: nat)
      requires machine.Valid() && n >= 1 && PagesFor(n)
      modifies machine, machine.bitmap.bytes, machine.kpd, machine.kheap
      ensures machine.Valid() && addr == PageAddr(start)
      ensures FrameBitmap.Leftmost(old(machine.View()).heap, start, n) && KernelHeap.MapFits(old(machine.View()), start, n)
      ensures machine.View() == KernelHeap.MapRun(old(machine.View()), start, n)
      ensures machine.View().heap == FrameBitmap.Mark(old(machine.View()).heap, start, n, true)
    {
      ghost var m := machine.View();
      addr, start := KernelHeap.Mmap(machine, n);
      KernelHeap.MapRunKeeps(m, start, n);
    }

    method UnmapPages(addr: nat, n: nat, ghost start: nat)
      requires machine.Valid() && addr == PageAddr(start) && start + n <= KHEAP_PAGES
      requires forall q :: start <= q < start + n ==> machine.View().heap[q]
      modifies machine, machine.bitmap.bytes, machine.kheap
      ensures machine.Valid()
      ensures |old(machine.View()).kpd| == ENTRIES && |old(machine.View()).heap| == KHEAP_PAGES
      ensures machine.View() == KernelHeap.UnmapRun(old(machine.View()), start, n)
      ensures machine.View().heap == FrameBitmap.Mark(old(machine.View()).heap, start, n, false)
    {
      ghost var m := machine.View();
      KernelHeap.MappedPagesFit(m, start, n);
      assert (addr - KHEAP_START) / PAGE_SIZE == start;
      KernelHeap.Unmmap(machine, addr, n);
      KernelHeap.UnmapRunKeeps(m, start, n);
    }

    // kmalloc when the partial list is empty: a new slab, whose last object is handed out.
    method NewSlab(c: nat) returns (addr: nat, ghost block: Block, ghost page: nat)
      requires Valid() && c < NUM_CLASSES - 1 && heap.partial[c] == [] && PagesFor(1)
      modifies this, machine, machine.bitmap.bytes, machine.kpd, machine.kheap
      ensures Valid() && page < |old(heap).use| && heap == SlabInvariant.WithSlab(old(heap), c, page)
      ensures FrameBitmap.Leftmost(old(machine.View()).heap, page, 1) && KernelHeap.MapFits(old(machine.View()), page, 1)
      ensures machine.View() == KernelHeap.MapRun(old(machine.View()), page, 1)
      ensures block == Obj(page, Total(c) - 1) && addr == ObjAddr(c, page, Total(c) - 1)
    {
      SlabInvariant.TotalAtLeastThree(c);
      hide Inv, Rep, Memory.Inv, Total, ObjSize, ObjAddr, PageAddr;
      ghost var h := heap;
      var base;
      base, page := MapPages(1);
      assert !UsedPages(h)[page];
      var header := SlabAt(base, c, page);
      addr := header.freeList[header.freeCount - 1];
      header := header.(freeCount := header.freeCount - 1);
      RepLengths(State(), h);
      hdr := hdr[base := header];
      ghost var before := Caches(old(hdr), partial, full);
      partial := partial[c := base];
      NewSlabRep(before, h, c, page, header);
      InvShape(h);
      SlabInvariant.NewSlabKeeps(h, c, page);
      FrameBitmap.MarkOne(UsedPages(h), page, true);
      heap := SlabInvariant.WithSlab(h, c, page);
      block := Obj(page, Total(c) - 1);
    }

    static lemma InvShape(h: Heap)
      requires Inv(h)
      ensures |h.use| == KHEAP_PAGES && |h.partial| == |h.full| == NUM_CLASSES
    {
    }

    static lemma RepLengths(s: Caches, h: Heap)
      requires Rep(s, h)
      ensures |s.partial| == |s.full| == NUM_CLASSES
    {
    }

    // The header of a new slab, with every object on its free list.
    static method SlabAt(base: nat, c: nat, ghost page: nat) returns (header: Header)
      requires c < NUM_CLASSES && base == PageAddr(page)
      ensures header.next == header.prev == NULL && header.owner == Cache(c)
      ensures header.total == header.freeCount == Total(c) == |header.freeList|
      ensures forall i :: 0 <= i < Total(c) ==> header.freeList[i] == ObjAddr(c, page, i)
      ensures HEADER + ObjSize(c) * |header.freeList| <= PAGE_SIZE < HEADER + ObjSize(c) * (|header.freeList| + 1)
    {
      var total := Total(c);
      var list: seq<nat> := [];
      for i := 0 to total
        invariant |list| == i && forall q :: 0 <= q < i ==> list[q] == ObjAddr(c, page, q)
      {
        list := list + [base + HEADER + ObjSize(c) * i];
      }
      SlabAnswers.SlabIsFilled(c);
      header := Header(NULL, NULL, Cache(c), total, total, list);
    }

    // A large request according to the model.
    static lemma LargeGot(h: Heap, size: nat, page: nat)
      requires Inv(h) && size > 2048 && FrameBitmap.FreeRun(UsedPages(h), page, BigPages(size))
      ensures Malloc(h, size, page).Got?
      ensures var Got(r, b) := Malloc(h, size, page);
        Inv(r) && b == Large(page) && UsedPages(r) == FrameBitmap.Mark(UsedPages(h), page, BigPages(size), true)
    {
      SlabInvariant.NewLargeKeeps(h, size, page);
      SlabInvariant.ClassOf(size);
    }

    /** fp_allocation.  The header keeps the page count in 16 bits, so it must fit. */
    method FpAllocation(size: nat) returns (addr: nat, ghost block: Block, ghost page: nat)
      requires Valid() && size > 2048 && PagesFor(BigPages(size)) && BigPages(size) < 0x1_0000
      modifies this, machine, machine.bitmap.bytes, machine.kpd, machine.kheap
      ensures Valid() && Malloc(old(heap), size, page) == Got(heap, block)
      ensures FrameBitmap.Leftmost(old(machine.View()).heap, page, BigPages(size))
      ensures KernelHeap.MapFits(old(machine.View()), page, BigPages(size))
      ensures machine.View() == KernelHeap.MapRun(old(machine.View()), page, BigPages(size))
      ensures block == Large(page) && addr == PageAddr(page) + HEADER
    {
      hide Inv, Rep, Memory.Inv, Malloc, UsedPages;
      ghost var h := heap;
      InvShape(h);
      var npages := (size + HEADER) / PAGE_SIZE + 1;
      var base;
      base, page := MapPages(npages);
      var header := Header(NULL, NULL, NoCache, npages % 0x1_0000, 0, []);
      ghost var before := State();
      hdr := hdr[base := header];
      NewLargeRep(before, h, size, page, header);
      LargeGot(h, size, page);
      block := Large(page);
      heap := Malloc(h, size, page).heap;
      addr := base + HEADER;
    }

    /** kmalloc, for a size outside 1025 .. 2048. */
    method Kmalloc(size: nat) returns (addr: nat, ghost block: Block, ghost page: nat)
      requires Valid() && (size <= 1024 || size > 2048) && BigPages(size) < 0x1_0000
      requires size <= 1024 && heap.partial[SizeToClass(size)] == [] ==> PagesFor(1)
      requires size > 2048 ==> PagesFor(BigPages(size))
      modifies this, machine, machine.bitmap.bytes, machine.kpd, machine.kheap
      ensures Valid() && Malloc(old(heap), size, page) == Got(heap, block)
      ensures block.Obj? ==> block.slab < |heap.use|
      ensures addr == Address(heap, block)
      ensures KernelMemory.Fits(old(Layers()), size, page) && (Layers(), block) == KernelMemory.Kmalloc(old(Layers()), size, page)
    {
      hide Rep, Memory.Inv, Total, PartialOk, FullOk, SlabOk, BigOk, Live;
      ghost var h := heap;
      SlabInvariant.ClassOf(size);
      page := 0;
      var index := ClassIndex(size);
      if index < 0 {
        addr, block, page := FpAllocation(size);
        return;
      }
      PartialHeadAddress(State(), h, index);
      if partial[index] != NULL {
        SlabInvariant.PartialHead(h, index);
        SlabInvariant.TakeObjectKeeps(h, index);
        addr, block := TakeObject(index);
      } else {
        addr, block, page := NewSlab(index);
      }
    }

    // The head of a cache's partial list is NULL exactly when the list is empty.
    static lemma PartialHeadAddress(s: Caches, h: Heap, c: nat)
      requires Rep(s, h) && c < NUM_CLASSES
      ensures c < |s.partial| && c < |h.partial| && (s.partial[c] == NULL <==> h.partial[c] == [])
    {
      assert Linked(s.hdr, s.partial[c], h.partial[c]);
    }

    /** kfree of a block that is in use. */
    method Kfree(ptr: nat, ghost block: Block)
      requires Valid() && Live(heap, block) && ptr == Address(heap, block)
      modifies this, machine, machine.bitmap.bytes, machine.kheap
      ensures old(block.Obj? ==> heap.use[block.slab].cls < NUM_CLASSES)
      ensures old(|heap.partial| == |heap.full| == NUM_CLASSES)
      ensures Valid() && heap == Free(old(heap), block)
      ensures Layers() == KernelMemory.Kfree(old(Layers()), block)
    {
      hide Rep, Memory.Inv, Inv, Total, Live;
      ghost var h := heap;
      InvShape(h);
      SlabInvariant.FreeKeeps(h, block);
      SlabInvariant.HeaderIsRecovered(h, block, 0);
      var slab := AlignDown4k(ptr);
      if block.Large? {
        DropLargeRep(State(), h, block.head);
        SlabInvariant.GiveLarge(h, block.head);
        LargeInUse(h, block.head);
      } else {
        GiveCountRep(State(), h, block.slab, block.index);
      }
      if hdr[slab].owner == NoCache {
        UnmapPages(slab, hdr[slab].total, block.head);
        hdr := hdr - {slab};
        heap := Free(h, block);
        return;
      }
      FreeObject(slab, ptr, block.slab, block.index);
    }

    static lemma LargeInUse(h: Heap, k: nat)
      requires Inv(h) && Live(h, Large(k))
      ensures k + h.use[k].n <= KHEAP_PAGES && forall q :: k <= q < k + h.use[k].n ==> UsedPages(h)[q]
    {
      assert BigOk(h, k);
    }

    // kfree of a slab object: the pointer is pushed, and the slab changes lists or goes.
    method FreeObject(slab: nat, ptr: nat, ghost k: nat, ghost j: nat)
      requires Valid() && Live(heap, Obj(k, j)) && slab == PageAddr(k) && ptr == Address(heap, Obj(k, j))
      modifies this, machine, machine.bitmap.bytes, machine.kheap
      ensures old(heap.use[k].cls) < NUM_CLASSES && old(|heap.partial| == |heap.full| == NUM_CLASSES)
      ensures Valid() && heap == Free(old(heap), Obj(k, j))
      ensures |old(machine.View()).kpd| == ENTRIES && |old(machine.View()).heap| == KHEAP_PAGES && k < KHEAP_PAGES
      ensures machine.View() == KernelHeap.UnmapRun(old(machine.View()), k, KernelMemory.FreedPages(old(heap), Obj(k, j)))
    {
      hide Memory.Inv, Inv, Total, HeadersOk, Linked;
      ghost var h := heap;
      InvShape(h);
      SlabInvariant.FreeKeeps(h, Obj(k, j));
      SlabInvariant.LiveObject(h, k, j);
      SlabInvariant.TotalAtLeastThree(h.use[k].cls);
      InvListsApart(h);
      GiveCountRep(State(), h, k, j);
      ghost var c := h.use[k].cls;
      var header := hdr[slab];
      hdr := hdr[slab := header.(freeCount := header.freeCount + 1, freeList := header.freeList[header.freeCount := ptr])];
      heap := h.(free := h.free[k := h.free[k] + [j]]);
      ghost var given := heap;
      if hdr[slab].freeCount == 1 {
        ReviveSlab(slab, c, k);
      }
      assert hdr[slab].freeCount == |given.free[k]| && hdr[slab].total == Total(c) by { SlabHeaderAt(State(), heap, k); }
      if hdr[slab].freeCount == hdr[slab].total {
        assert heap == given;
        UnlinkEmpty(slab, c, k);
        UnmapPages(slab, 1, k);
        SlabInvariant.GiveLast(h, k, j);
        FrameBitmap.MarkOne(UsedPages(h), k, false);
      }
    }

    static lemma SlabHeaderAt(s: Caches, h: Heap, k: nat)
      requires Rep(s, h) && k < |h.use| && h.use[k].SlabPage? && k in h.free
      ensures PageAddr(k) in s.hdr && s.hdr[PageAddr(k)].freeCount == |h.free[k]|
      ensures s.hdr[PageAddr(k)].owner == Cache(h.use[k].cls) && s.hdr[PageAddr(k)].total == Total(h.use[k].cls)
    {
      assert SlabHeader(s.hdr, h, k);
    }

    // A full slab that got an object back moves to the head of the partial list.
    method ReviveSlab(slab: nat, ghost c: nat, ghost k: nat)
      requires Rep(State(), heap) && ListsApart(heap) && c < NUM_CLASSES && k in heap.full[c] && slab == PageAddr(k)
      requires k < |heap.use| && heap.use[k] == SlabPage(c) && k in heap.free
      modifies this
      ensures heap == MoveToPartial(old(heap), c, k) && Rep(State(), heap)
    {
      hide ListsApart, Linked;
      ghost var before, h := State(), heap;
      MoveToPartialLists(before, h, c, k);
      SlabHeaderAt(before, h, k);
      var owner := hdr[slab].owner.cls;
      var next, prev := hdr[slab].next, hdr[slab].prev;
      if prev != NULL {
        hdr := SetNext(hdr, prev, next);
      }
      if next != NULL {
        hdr := SetPrev(hdr, next, prev);
      }
      assert hdr == Unlink(before.hdr, slab);
      if full[owner] == slab {
        full := full[owner := next];
      }
      assert full == before.full[c := if before.full[c] == slab then next else before.full[c]];
      if partial[owner] != NULL {
        hdr := SetPrev(hdr, partial[owner], slab);
      }
      hdr := SetNext(hdr, slab, partial[owner]);
      hdr := SetPrev(hdr, slab, NULL);
      assert hdr == PushFront(Unlink(before.hdr, slab), before.partial[c], slab);
      partial := partial[owner := slab];
      heap := MoveToPartial(h, c, k);
      RelinkedHeaders(before.hdr, hdr, h, heap);
    }

    // A slab all of whose objects are free leaves the partial list; its header goes with the page.
    method UnlinkEmpty(slab: nat, ghost c: nat, ghost k: nat)
      requires Rep(State(), heap) && ListsApart(heap) && c < NUM_CLASSES && k in heap.partial[c] && slab == PageAddr(k)
      requires k < |heap.use| && heap.use[k] == SlabPage(c) && k in heap.free
      modifies this
      ensures heap == DropSlab(old(heap), c, k) && Rep(State(), heap)
    {
      hide ListsApart, Linked;
      ghost var before, h := State(), heap;
      DropLists(before, h, c, k);
      SlabHeaderAt(before, h, k);
      var owner := hdr[slab].owner.cls;
      var next, prev := hdr[slab].next, hdr[slab].prev;
      if prev != NULL {
        hdr := SetNext(hdr, prev, next);
      }
      if next != NULL {
        hdr := SetPrev(hdr, next, prev);
      }
      assert hdr == Unlink(before.hdr, slab);
      if partial[owner] == slab {
        partial := partial[owner := next];
      }
      assert partial == before.partial[c := if before.partial[c] == slab then next else before.partial[c]];
      DropHeaders(before.hdr, hdr, h, c, k);
      hdr := hdr - {slab};
      heap := DropSlab(h, c, k);
    }
  }
}
