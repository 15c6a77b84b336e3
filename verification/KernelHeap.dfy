/** Mapping and unmapping pages of the kernel heap (kernel/memory.c:205-289). */
module KernelHeap {
  import opened Paging
  import opened Memory
  import opened FrameBitmap
  import opened Machine
  import opened Access

  // ---- One page ----

  function PdeOf(k: nat): nat { PdeIndex(KHEAP_FIRST_PAGE + k) }

  // Every pmm_alloc made while mapping heap page k finds a free frame.
  predicate StepFits(m: Mem, k: nat) {
    && |m.kpd| == ENTRIES && |m.heap| == KHEAP_PAGES && |m.ram| == |m.owner|
    && k < KHEAP_PAGES
    && FirstFree(m.owner) < |m.owner|
    && (m.kpd[PdeOf(k)] == 0 ==> FirstFree(m.owner[FirstFree(m.owner) := KPage(k)]) < |m.owner|)
  }

  // One turn of mmap's loop: a frame for the page, a table if the directory lacks one, the entry.
  // The code does not handle exhaustion; that case is left unchanged here and excluded by MapFits.
  function MapStep(m: Mem, k: nat): (r: Mem)
    ensures Shape(m) ==> Shape(r)
  {
    if !StepFits(m, k) then m else
      var f := FirstFree(m.owner);
      if m.kpd[PdeOf(k)] == 0 then
        AddKPage(AddKTable(m, PdeOf(k), FirstFree(m.owner[f := KPage(k)])), k, f)
      else
        AddKPage(m, k, f)
  }

  // What any kernel heap operation leaves alone: directory entries once set, user directories and
  // every frame that is neither free nor part of the kernel heap.
  ghost predicate KernelOnly(m: Mem, r: Mem) {
    && |r.owner| == |m.owner| && |r.ram| == |m.ram| && |r.kpd| == |m.kpd|
    && (forall i :: 0 <= i < |m.kpd| && (m.kpd[i] != 0 || !(KHEAP_FIRST_PDE <= i < KHEAP_LIMIT_PDE)) ==> r.kpd[i] == m.kpd[i])
    && (forall g :: 0 <= g < |m.owner| && !m.owner[g].Free? && !m.owner[g].KTable? && !m.owner[g].KPage? ==>
          r.owner[g] == m.owner[g])
    && (forall g :: 0 <= g < |m.owner| && g < |m.ram| && !m.owner[g].Free? && !m.owner[g].KTable? && !m.owner[g].KPage? ==>
          r.ram[g] == m.ram[g])
    && (forall g :: 0 <= g < |m.owner| && (r.owner[g].UDir? || r.owner[g].UTable? || r.owner[g].UPage?) ==> r.owner[g] == m.owner[g])
    && (forall u: Use :: u.UTable? || u.UPage? ==> Slot(r, u) == Slot(m, u))
  }

  // Owners change only where a free frame becomes a table or a page of the kernel heap.
  ghost predicate OnlyTakes(m: Mem, r: Mem) {
    && |r.owner| == |m.owner|
    && (forall g :: 0 <= g < |m.owner| ==>
          r.owner[g] == m.owner[g] || (m.owner[g] == Free && (r.owner[g].KTable? || r.owner[g].KPage?)))
  }

  lemma KernelOnlyTransitive(a: Mem, b: Mem, c: Mem)
    requires Shape(a) && Shape(b) && Shape(c) && KernelOnly(a, b) && KernelOnly(b, c)
    ensures KernelOnly(a, c)
  {
    forall u: Use | u.UTable? || u.UPage? ensures Slot(c, u) == Slot(a, u) {
      assert Slot(b, u) == Slot(a, u);
    }
    forall g | 0 <= g < |a.owner| && !a.owner[g].Free? && !a.owner[g].KTable? && !a.owner[g].KPage?
      ensures c.owner[g] == a.owner[g] && c.ram[g] == a.ram[g]
    {
      assert b.owner[g] == a.owner[g];
    }
    forall g | 0 <= g < |a.owner| && (c.owner[g].UDir? || c.owner[g].UTable? || c.owner[g].UPage?)
      ensures c.owner[g] == a.owner[g]
    {
      assert c.owner[g] == b.owner[g];
    }
  }

  // ---- A run of pages ----

  function MapRun(m: Mem, start: nat, n: nat): (r: Mem)
    ensures Shape(m) ==> Shape(r)
  {
    if n == 0 then m else MapStep(MapRun(m, start, n - 1), start + n - 1)
  }

  // Every pmm_alloc made while mapping the n heap pages from start finds a free frame.
  ghost predicate MapFits(m: Mem, start: nat, n: nat) {
    forall i: nat :: i < n ==> StepFits(MapRun(m, start, i), start + i)
  }

  // The effect of mapping the n heap pages from start.
  ghost predicate MapEffect(m: Mem, r: Mem, start: nat, n: nat) {
    && KernelOnly(m, r) && OnlyTakes(m, r)
    && (forall q: nat :: q < KHEAP_PAGES && !(start <= q < start + n) ==> KEntry(r, q) == KEntry(m, q))
    && (forall q: nat :: start <= q < start + n ==> NewPage(m, r, q))
    && (forall g :: 0 <= g < |m.owner| && g < |m.ram| && m.owner[g] != Free && !m.owner[g].KTable? ==> r.ram[g] == m.ram[g])
  }

  // Heap page q got a frame that was free, and reads as zero.
  ghost predicate NewPage(m: Mem, r: Mem, q: nat) {
    var f := FrameOf(KEntry(r, q));
    KEntry(r, q) != 0 && IsFree(m, f) && f < |r.owner| && f < |r.ram| && r.owner[f] == KPage(q) && r.ram[f] == ZeroPage()
  }

  lemma AddTableStep(m: Mem, k: nat, t: nat)
    requires Inv(m) && k < KHEAP_PAGES && IsFree(m, t) && m.kpd[PdeOf(k)] == 0
    ensures var r := AddKTable(m, PdeOf(k), t);
      Inv(r) && r.heap == m.heap && MapEffect(m, r, k, 0)
  {
    var i := PdeOf(k);
    TableOfKPage(m, k);
    AddKTableSlots(m, i, t);
    AddKTableKeeps(m, i, t);
    var r := AddKTable(m, i, t);
    forall q: nat | q < KHEAP_PAGES ensures KEntry(r, q) == KEntry(m, q) {
      assert Slot(r, KPage(q)) == Slot(m, KPage(q));
    }
  }

  lemma AddPageStep(m: Mem, k: nat, f: nat)
    requires Inv(m) && k < KHEAP_PAGES && IsFree(m, f) && m.kpd[PdeOf(k)] != 0 && !m.heap[k]
    ensures var r := AddKPage(m, k, f);
      Inv(r) && r.heap == m.heap[k := true] && MapEffect(m, r, k, 1)
  {
    TableOfKPage(m, k);
    AddKPageSlots(m, k, f);
    AddKPageKeeps(m, k, f);
    var r := AddKPage(m, k, f);
    forall q: nat | q < KHEAP_PAGES && q != k ensures KEntry(r, q) == KEntry(m, q) {
      assert Slot(r, KPage(q)) == Slot(m, KPage(q));
    }
    assert Slot(r, KPage(k)) == Word(f, KERNEL_FLAGS);
  }

  lemma MapStepKeeps(m: Mem, k: nat)
    requires Inv(m) && StepFits(m, k) && !m.heap[k]
    ensures var r := MapStep(m, k);
      Inv(r) && r.heap == m.heap[k := true] && MapEffect(m, r, k, 1)
  {
    var f := FirstFree(m.owner);
    FirstFreeIsLeast(m.owner);
    FirstFreeIsLeast(m.owner[f := KPage(k)]);
    if m.kpd[PdeOf(k)] == 0 {
      var t := FirstFree(m.owner[f := KPage(k)]);
      var mid := AddKTable(m, PdeOf(k), t);
      AddTableStep(m, k, t);
      AddPageStep(mid, k, f);
      MapEffectJoin(m, mid, AddKPage(mid, k, f), k, 0, 1);
    } else {
      AddPageStep(m, k, f);
    }
  }

  lemma MapEffectNone(m: Mem, start: nat)
    ensures MapEffect(m, m, start, 0)
  {
  }

  lemma MapEffectJoin(m: Mem, mid: Mem, r: Mem, start: nat, a: nat, n: nat)
    requires Shape(m) && Shape(mid) && Shape(r) && start + a + n <= KHEAP_PAGES
    requires MapEffect(m, mid, start, a) && MapEffect(mid, r, start + a, n)
    ensures MapEffect(m, r, start, a + n)
  {
    KernelOnlyTransitive(m, mid, r);
    forall q: nat | start <= q < start + a + n ensures NewPage(m, r, q) {
      if q < start + a {
        assert KEntry(r, q) == KEntry(mid, q) && NewPage(m, mid, q);
      } else {
        assert NewPage(mid, r, q);
      }
    }
    forall q: nat | q < KHEAP_PAGES && !(start <= q < start + a + n) ensures KEntry(r, q) == KEntry(m, q) {
      assert KEntry(r, q) == KEntry(mid, q);
    }
  }

  /** Mapping n pages at a free virtual run keeps the invariant, marks exactly these pages, gives
      them entries that name frames free before, and leaves every other translation alone. */
  lemma {:induction false} MapRunKeeps(m: Mem, start: nat, n: nat)
    requires Inv(m) && MapFits(m, start, n) && FreeRun(m.heap, start, n)
    ensures var r := MapRun(m, start, n);
      Inv(r) && r.heap == Mark(m.heap, start, n, true) && MapEffect(m, r, start, n)
    decreases n
  {
    hide MapStep, StepFits, KEntry, Slot, MapEffect;
    MapEffectNone(m, start);
    if n > 0 {
      MapRunKeeps(m, start, n - 1);
      var mid := MapRun(m, start, n - 1);
      var k := start + n - 1;
      assert StepFits(mid, k);
      MapStepKeeps(mid, k);
      MarkSnoc(m.heap, start, n - 1, true);
      MapEffectJoin(m, mid, MapStep(mid, k), start, n - 1, 1);
    }
  }

  function UnmapRun(m: Mem, start: nat, n: nat): (r: Mem)
    requires |m.kpd| == ENTRIES && |m.heap| == KHEAP_PAGES && start + n <= KHEAP_PAGES
    ensures |r.kpd| == ENTRIES && |r.heap| == KHEAP_PAGES
  {
    if n == 0 then m else DropKPage(UnmapRun(m, start, n - 1), start + n - 1)
  }

  // The effect of unmapping the n heap pages from start.
  ghost predicate UnmapEffect(m: Mem, r: Mem, start: nat, n: nat) {
    && KernelOnly(m, r)
    && (forall q: nat :: q < KHEAP_PAGES ==> KEntry(r, q) == if start <= q < start + n then 0 else KEntry(m, q))
    && (forall g :: 0 <= g < |m.owner| ==>
          r.owner[g] == if m.owner[g].KPage? && start <= m.owner[g].k < start + n then Free else m.owner[g])
  }

  lemma UnmapEffectSnoc(m: Mem, mid: Mem, r: Mem, start: nat, n: nat)
    requires Shape(m) && Shape(mid) && Shape(r)
    requires UnmapEffect(m, mid, start, n) && UnmapEffect(mid, r, start + n, 1)
    ensures UnmapEffect(m, r, start, n + 1)
  {
    KernelOnlyTransitive(m, mid, r);
    forall q: nat | q < KHEAP_PAGES ensures KEntry(r, q) == if start <= q < start + n + 1 then 0 else KEntry(m, q) {
      assert KEntry(mid, q) == if start <= q < start + n then 0 else KEntry(m, q);
    }
  }

  /** Unmapping n mapped pages keeps the invariant, frees exactly the frames of these pages and
      leaves every other translation and owner alone. */
  lemma {:induction false} UnmapRunKeeps(m: Mem, start: nat, n: nat)
    requires Inv(m) && start + n <= KHEAP_PAGES && forall q :: start <= q < start + n ==> m.heap[q]
    ensures var r := UnmapRun(m, start, n);
      Inv(r) && r.heap == Mark(m.heap, start, n, false) && UnmapEffect(m, r, start, n)
    decreases n
  {
    if n > 0 {
      UnmapRunKeeps(m, start, n - 1);
      var mid := UnmapRun(m, start, n - 1);
      UnmapStepKeeps(mid, start + n - 1);
      MarkSnoc(m.heap, start, n - 1, false);
      UnmapEffectSnoc(m, mid, UnmapRun(m, start, n), start, n - 1);
    }
  }

  lemma UnmapStepKeeps(m: Mem, k: nat)
    requires Inv(m) && k < KHEAP_PAGES && m.heap[k]
    ensures FrameOf(KEntry(m, k)) < |m.owner|
    ensures var r := DropKPage(m, k);
      Inv(r) && r.heap == m.heap[k := false] && UnmapEffect(m, r, k, 1)
  {
    TableOfKPage(m, k);
    DropKPageSlots(m, k);
    DropKPageKeeps(m, k);
    var r := DropKPage(m, k);
    assert Slot(r, KPage(k)) == 0;
    forall g | 0 <= g < |m.owner| ensures r.owner[g] == if m.owner[g] == KPage(k) then Free else m.owner[g] {
      assert OwnIsNamed(m, g) && NamesOwn(m, KPage(k));
    }
    forall q: nat | q < KHEAP_PAGES && q != k ensures KEntry(r, q) == KEntry(m, q) {
      assert Slot(r, KPage(q)) == Slot(m, KPage(q));
    }
  }

  // ---- All runs ----

  datatype HeapEvent = MapPages(n: nat) | UnmapPages(start: nat, n: nat)

  ghost predicate HeapStep(m: Mem, e: HeapEvent, r: Mem) {
    match e
    case MapPages(n) =>
      n >= 1 && exists start: nat :: Leftmost(m.heap, start, n) && MapFits(m, start, n) && r == MapRun(m, start, n)
    case UnmapPages(start, n) =>
      && |m.kpd| == ENTRIES && |m.heap| == KHEAP_PAGES && start + n <= KHEAP_PAGES
      && (forall q :: start <= q < start + n ==> m.heap[q])
      && r == UnmapRun(m, start, n)
  }

  ghost predicate HeapRun(run: seq<Mem>, events: seq<HeapEvent>) {
    && |run| == |events| + 1
    && forall i :: 0 <= i < |events| ==> HeapStep(run[i], events[i], run[i + 1])
  }

  lemma HeapStepKeeps(m: Mem, e: HeapEvent, r: Mem)
    requires Inv(m) && HeapStep(m, e, r)
    ensures Inv(r) && KernelOnly(m, r)
  {
    hide KernelOnly, Inv, MapRun, UnmapRun;
    match e
    case MapPages(n) =>
      var start: nat :| Leftmost(m.heap, start, n) && MapFits(m, start, n) && r == MapRun(m, start, n);
      MapRunKeeps(m, start, n);
    case UnmapPages(start, n) =>
      UnmapRunKeeps(m, start, n);
  }

  lemma {:induction false} HeapRunKeeps(run: seq<Mem>, events: seq<HeapEvent>, i: nat)
    requires HeapRun(run, events) && Inv(run[0]) && i < |run|
    ensures Inv(run[i]) && KernelOnly(run[0], run[i])
  {
    hide KernelOnly, HeapStep, Linked;
    if i == 0 {
      KernelOnlyReflexive(run[0]);
    } else {
      HeapRunKeeps(run, events, i - 1);
      HeapStepKeeps(run[i - 1], events[i - 1], run[i]);
      KernelOnlyTransitive(run[0], run[i - 1], run[i]);
    }
  }

  lemma KernelOnlyReflexive(m: Mem)
    ensures KernelOnly(m, m)
  {
  }

  // kheap_pages, the page tables and the frame bitmap agree.
  ghost predicate HeapAgreement(m: Mem) {
    && |m.heap| == KHEAP_PAGES
    && (forall k :: 0 <= k < KHEAP_PAGES ==> (m.heap[k] <==> KEntry(m, k) != 0))
    && (forall k :: 0 <= k < KHEAP_PAGES && m.heap[k] ==>
          FrameOf(KEntry(m, k)) < |m.owner| && m.owner[FrameOf(KEntry(m, k))] != Free)
    && (forall j, k :: 0 <= j < k < KHEAP_PAGES && m.heap[j] && m.heap[k] ==>
          FrameOf(KEntry(m, j)) != FrameOf(KEntry(m, k)))
    && (forall k, i: nat :: 0 <= k < KHEAP_PAGES && m.heap[k] && Slot(m, KTable(i)) != 0 ==>
          FrameOf(KEntry(m, k)) != FrameOf(Slot(m, KTable(i))))
  }

  lemma InvMeansHeapAgreement(m: Mem)
    requires Inv(m)
    ensures HeapAgreement(m)
  {
    hide KEntry;
    forall k | 0 <= k < KHEAP_PAGES && m.heap[k]
      ensures FrameOf(KEntry(m, k)) < |m.owner| && m.owner[FrameOf(KEntry(m, k))] == KPage(k)
    {
      assert NamesOwn(m, KPage(k));
    }
    forall i: nat | Slot(m, KTable(i)) != 0
      ensures FrameOf(Slot(m, KTable(i))) < |m.owner| && m.owner[FrameOf(Slot(m, KTable(i)))] == KTable(i)
    {
      assert NamesOwn(m, KTable(i));
    }
  }

  /** Kernel heap agreement after any sequence of mmap and unmmap calls. */
  lemma HeapAgreesOverRuns(run: seq<Mem>, events: seq<HeapEvent>, i: nat)
    requires HeapRun(run, events) && Inv(run[0]) && i < |run|
    ensures HeapAgreement(run[i])
  {
    HeapRunKeeps(run, events, i);
    InvMeansHeapAgreement(run[i]);
  }

  // The entry for kernel heap page k as seen through user directory d.
  function KEntryVia(m: Mem, d: nat, k: nat): nat {
    if d < |m.ram| then Entry(m.ram, m.ram[d], KHEAP_FIRST_PAGE + k) else 0
  }

  /** The shared kernel half over every run of the kernel heap: a user directory translates a
      kernel heap page as the kernel directory does exactly when the directory held that page's
      table at the start of the run, or the page is not mapped.  A table added later is invisible. */
  lemma SharedHalfOverRuns(run: seq<Mem>, events: seq<HeapEvent>, i: nat, d: nat, k: nat)
    requires HeapRun(run, events) && Inv(run[0]) && i < |run|
    requires IsDir(run[0], d) && k < KHEAP_PAGES
    ensures IsDir(run[i], d) && d < |run[i].ram| && run[i].ram[d] == run[0].ram[d]
    ensures KEntryVia(run[i], d, k) == KEntry(run[i], k) <==>
      run[0].ram[d][PdeOf(k)] != 0 || KEntry(run[i], k) == 0
  {
    hide HeapRun, Linked, HeapMapAgrees;
    HeapRunKeeps(run, events, i);
  }

  // ---- The code ----

  /** free_virt_area_idx.  Like pmm_alloc's scan, it needs n >= 1 and a free run. */
  method FreeVirtArea(machine: Machine, n: nat) returns (start: nat)
    requires machine.Coherent() && n >= 1 && HasRun(machine.View().heap, n)
    ensures Leftmost(machine.View().heap, start, n)
  {
    ghost var heap := machine.View().heap;
    var i, run := 0, 0;
    while i < KHEAP_PAGES
      invariant run < n && run <= i <= KHEAP_PAGES
      invariant forall k :: i - run <= k < i ==> !heap[k]
      invariant run < i ==> heap[i - run - 1]
      invariant forall t: nat :: t + n <= i ==> !FreeRun(heap, t, n)
    {
      if machine.kheap[i] != 0 {
        run := 0;
      } else {
        run := run + 1;
        if run == n {
          break;
        }
      }
      i := i + 1;
    }
    assert i < KHEAP_PAGES;
    start := i - (n - 1);
  }

  // The byte at p was out of the kernel's reach, and now goes to a frame that was free and is all zero.
  ghost predicate FreshByte(m: Mem, r: Mem, p: nat) {
    var f := Physical(r.ram, r.kpd, p) / 0x1000;
    !KernelMay(m.ram, m.kpd, p) && IsFree(m, f) && f < |r.ram| && r.ram[f] == ZeroPage()
  }

  // From m to r the kernel came to reach n new pages from address addr on, and reaches the rest of its
  // heap as before.
  ghost predicate MmapServes(m: Mem, r: Mem, addr: nat, n: nat) {
    && addr % 0x1000 == 0 && 0xC040_0000 <= addr && addr + n * 0x1000 <= 0xE000_0000
    && (forall p: nat :: 0xC040_0000 <= p < 0xE000_0000 ==>
          (KernelMay(r.ram, r.kpd, p) <==> KernelMay(m.ram, m.kpd, p) || addr <= p < addr + n * 0x1000))
    && (forall p: nat :: addr <= p < addr + n * 0x1000 ==> FreshByte(m, r, p))
    && (forall p: nat :: 0xC040_0000 <= p < 0xE000_0000 && KernelMay(m.ram, m.kpd, p) ==>
          Physical(r.ram, r.kpd, p) == Physical(m.ram, m.kpd, p))
  }

  // From m to r the kernel lost the n pages from address addr on, and nothing else.
  ghost predicate UnmmapServes(m: Mem, r: Mem, addr: nat, n: nat) {
    forall p: nat :: 0xC040_0000 <= p < 0xE000_0000 ==>
      && (KernelMay(r.ram, r.kpd, p) <==> KernelMay(m.ram, m.kpd, p) && !(addr <= p < addr + n * 0x1000))
      && (KernelMay(r.ram, r.kpd, p) ==> Physical(r.ram, r.kpd, p) == Physical(m.ram, m.kpd, p))
  }

  // The heap page of an address.
  function HeapPageOf(p: nat): nat
    requires p >= 0xC040_0000
  {
    (p - 0xC040_0000) / 0x1000
  }

  lemma PagesOfRange(addr: nat, start: nat, n: nat, p: nat)
    requires addr == KHEAP_START + start * PAGE_SIZE && 0xC040_0000 <= p
    ensures addr >= 0xC040_0000 && addr % 0x1000 == 0
    ensures addr <= p < addr + n * 0x1000 <==> start <= HeapPageOf(p) < start + n
  {
  }

  /** mmap, by addresses: exactly the n pages from the address returned on come within the kernel's
      reach, in frames that were free, and every other kernel heap address goes where it went. */
  lemma MmapReaches(m: Mem, start: nat, n: nat)
    requires Inv(m) && MapFits(m, start, n) && FreeRun(m.heap, start, n)
    ensures MmapServes(m, MapRun(m, start, n), KHEAP_START + start * PAGE_SIZE, n)
  {
    MapRunKeeps(m, start, n);
    InvShape(m);
    var r, addr := MapRun(m, start, n), KHEAP_START + start * PAGE_SIZE;
    hide Inv, MapRun, KEntry, KernelMay, Physical, HeapPageOf, KernelOnly, OnlyTakes;
    PagesOfRange(addr, start, n, addr);
    forall p: nat | 0xC040_0000 <= p < 0xE000_0000
      ensures KernelMay(r.ram, r.kpd, p) <==> KernelMay(m.ram, m.kpd, p) || addr <= p < addr + n * 0x1000
      ensures addr <= p < addr + n * 0x1000 ==> FreshByte(m, r, p)
      ensures KernelMay(m.ram, m.kpd, p) ==> Physical(r.ram, r.kpd, p) == Physical(m.ram, m.kpd, p)
    {
      PagesOfRange(addr, start, n, p);
      ReachOf(m, p);
      ReachOf(r, p);
      if addr <= p < addr + n * 0x1000 {
        assert NewPage(m, r, HeapPageOf(p));
      }
    }
  }

  // What the kernel reaches at p, by heap pages.
  lemma ReachOf(m: Mem, p: nat)
    requires Inv(m) && 0xC040_0000 <= p < 0xE000_0000
    ensures HeapPageOf(p) < KHEAP_PAGES == |m.heap|
    ensures KernelMay(m.ram, m.kpd, p) <==> KEntry(m, HeapPageOf(p)) != 0
    ensures KernelMay(m.ram, m.kpd, p) <==> m.heap[HeapPageOf(p)]
    ensures KernelMay(m.ram, m.kpd, p) ==>
      var a := Physical(m.ram, m.kpd, p);
      a / 0x1000 == FrameOf(KEntry(m, HeapPageOf(p))) && a == FrameOf(KEntry(m, HeapPageOf(p))) * 0x1000 + p % 0x1000
  {
    KernelReachesMapped(m, p);
    HeapPage(p);
    hide Linked, KEntry;
  }

  /** unmmap, by addresses. */
  lemma UnmmapReaches(m: Mem, start: nat, n: nat)
    requires Inv(m) && start + n <= KHEAP_PAGES && forall q :: start <= q < start + n ==> m.heap[q]
    ensures |m.kpd| == ENTRIES && |m.heap| == KHEAP_PAGES
    ensures UnmmapServes(m, UnmapRun(m, start, n), KHEAP_START + start * PAGE_SIZE, n)
  {
    UnmapRunKeeps(m, start, n);
    InvShape(m);
    var r, addr := UnmapRun(m, start, n), KHEAP_START + start * PAGE_SIZE;
    hide Inv, UnmapRun, KEntry, KernelMay, Physical, HeapPageOf, KernelOnly;
    forall p: nat | 0xC040_0000 <= p < 0xE000_0000
      ensures KernelMay(r.ram, r.kpd, p) <==> KernelMay(m.ram, m.kpd, p) && !(addr <= p < addr + n * 0x1000)
      ensures KernelMay(r.ram, r.kpd, p) ==> Physical(r.ram, r.kpd, p) == Physical(m.ram, m.kpd, p)
    {
      PagesOfRange(addr, start, n, p);
      ReachOf(m, p);
      ReachOf(r, p);
    }
  }

  // A page table for directory entry i, when the directory has none.
  method NeedTable(machine: Machine, i: nat)
    requires machine.Coherent() && i < ENTRIES && (machine.kpd[i] == 0 ==> FirstFree(machine.owner) < |machine.owner|)
    modifies machine, machine.bitmap.bytes, machine.kpd
    ensures machine.Coherent()
    ensures var m := old(machine.View());
      && (m.kpd[i] == 0 ==> FirstFree(m.owner) < |m.owner|)
      && machine.View() == if m.kpd[i] == 0 then AddKTable(m, i, FirstFree(m.owner)) else m
  {
    if machine.kpd[i] == 0 {
      var table := machine.TakeFrame(KTable(i));
      machine.kpd[i] := Word(table, KERNEL_FLAGS);
      assert machine.kpd[..] == old(machine.kpd[..])[i := Word(table, KERNEL_FLAGS)];
    }
  }

  // The entry of heap page k and its map byte.
  method EnterPage(machine: Machine, k: nat, page: nat)
    requires machine.Coherent() && k < KHEAP_PAGES
    modifies machine`ram, machine.kheap
    ensures machine.Coherent()
    ensures var m := old(machine.View());
      machine.View() == m.(ram := Poke(m.ram, FrameOf(m.kpd[PdeOf(k)]), PteIndex(KHEAP_FIRST_PAGE + k), Word(page, KERNEL_FLAGS)),
                           heap := m.heap[k := true])
  {
    machine.Store(FrameOf(machine.kpd[PdeOf(k)]), PteIndex(KHEAP_FIRST_PAGE + k), Word(page, KERNEL_FLAGS));
    machine.kheap[k] := 1;
    assert machine.View().heap == old(machine.View()).heap[k := true];
  }

  // The step in the order of the code: the page's frame first, then the table, then the entry.
  lemma MapStepInOrder(m: Mem, k: nat)
    requires StepFits(m, k)
    ensures var i, f := PdeOf(k), FirstFree(m.owner);
      && f < |m.ram| && i < |m.kpd|
      && var p := m.(owner := m.owner[f := KPage(k)], ram := m.ram[f := ZeroPage()]);
      && (p.kpd[i] == 0 ==> FirstFree(p.owner) < |p.owner|)
      && var q := if p.kpd[i] == 0 then AddKTable(p, i, FirstFree(p.owner)) else p;
      && MapStep(m, k) == q.(ram := Poke(q.ram, FrameOf(q.kpd[i]), PteIndex(KHEAP_FIRST_PAGE + k), Word(f, KERNEL_FLAGS)),
                             heap := q.heap[k := true])
  {
    var i, f := PdeOf(k), FirstFree(m.owner);
    var taken := m.owner[f := KPage(k)];
    FirstFreeIsLeast(m.owner);
    FirstFreeIsLeast(taken);
    if m.kpd[i] == 0 {
      var t := FirstFree(taken);
      assert taken[t := KTable(i)] == m.owner[t := KTable(i)][f := KPage(k)];
      assert m.ram[f := ZeroPage()][t := ZeroPage()] == m.ram[t := ZeroPage()][f := ZeroPage()];
    }
  }

  /** One turn of mmap's loop. */
  method MapOne(machine: Machine, k: nat)
    requires machine.Coherent() && StepFits(machine.View(), k)
    modifies machine, machine.bitmap.bytes, machine.kpd, machine.kheap
    ensures machine.Coherent() && machine.View() == MapStep(old(machine.View()), k)
  {
    hide Shape, Poke, MapStep, AddKTable;
    MapStepInOrder(machine.View(), k);
    var page := machine.TakeFrame(KPage(k));
    NeedTable(machine, PdeOf(k));
    EnterPage(machine, k, page);
  }

  // The loop of mmap.
  method MapPages(machine: Machine, start: nat, n: nat)
    requires machine.Coherent() && MapFits(machine.View(), start, n)
    modifies machine, machine.bitmap.bytes, machine.kpd, machine.kheap
    ensures machine.Coherent() && machine.View() == MapRun(old(machine.View()), start, n)
  {
    hide MapStep, StepFits;
    ghost var m := machine.View();
    for i := 0 to n
      invariant machine.Coherent() && machine.View() == MapRun(m, start, i)
    {
      MapOne(machine, start + i);
    }
  }

  /** mmap: maps n fresh pages at the leftmost free virtual run. */
  method Mmap(machine: Machine, n: nat) returns (addr: nat, ghost start: nat)
    requires machine.Coherent() && n >= 1 && HasRun(machine.View().heap, n)
    requires forall start: nat :: Leftmost(machine.View().heap, start, n) ==> MapFits(machine.View(), start, n)
    modifies machine, machine.bitmap.bytes, machine.kpd, machine.kheap
    ensures machine.Coherent() && addr == KHEAP_START + start * PAGE_SIZE
    ensures Leftmost(old(machine.View()).heap, start, n) && MapFits(old(machine.View()), start, n)
    ensures machine.View() == MapRun(old(machine.View()), start, n)
    ensures Inv(old(machine.View())) ==> Inv(machine.View()) && MmapServes(old(machine.View()), machine.View(), addr, n)
  {
    ghost var m := machine.View();
    var first := FreeVirtArea(machine, n);
    start := first;
    MapPages(machine, first, n);
    addr := KHEAP_START + first * PAGE_SIZE;
    if Inv(m) {
      MapRunKeeps(m, start, n);
      MmapReaches(m, start, n);
    }
  }

  /** One turn of unmmap's loop. */
  method UnmapOne(machine: Machine, k: nat)
    requires machine.Coherent() && k < KHEAP_PAGES
    requires machine.kpd[PdeOf(k)] != 0 && FrameOf(KEntry(machine.View(), k)) < |machine.owner|
    modifies machine, machine.bitmap.bytes, machine.kheap
    ensures machine.Coherent() && machine.View() == DropKPage(old(machine.View()), k)
  {
    ghost var m := machine.View();
    var table := FrameOf(machine.kpd[PdeOf(k)]);
    var frame := FrameOf(Peek(machine.ram, table, PteIndex(KHEAP_FIRST_PAGE + k)));
    assert frame == FrameOf(KEntry(m, k));
    machine.GiveFrame(frame);
    machine.Store(table, PteIndex(KHEAP_FIRST_PAGE + k), 0);
    machine.kheap[k] := 0;
    assert machine.View().heap == DropKPage(m, k).heap;
  }

  // Every page of the range has an entry that names a frame of the bitmap when its turn comes.
  ghost predicate UnmapFits(m: Mem, start: nat, n: nat)
    requires Shape(m)
  {
    start + n <= KHEAP_PAGES &&
    forall i: nat :: i < n ==>
      var mid := UnmapRun(m, start, i);
      mid.kpd[PdeOf(start + i)] != 0 && FrameOf(KEntry(mid, start + i)) < |mid.owner|
  }

  lemma MappedPagesFit(m: Mem, start: nat, n: nat)
    requires Inv(m) && start + n <= KHEAP_PAGES && forall q :: start <= q < start + n ==> m.heap[q]
    ensures UnmapFits(m, start, n)
  {
    forall i: nat | i < n
      ensures var mid := UnmapRun(m, start, i);
        mid.kpd[PdeOf(start + i)] != 0 && FrameOf(KEntry(mid, start + i)) < |mid.owner|
    {
      UnmapRunKeeps(m, start, i);
      UnmapStepKeeps(UnmapRun(m, start, i), start + i);
    }
  }

  /** unmmap: removes n mapped pages and gives their frames back. */
  method Unmmap(machine: Machine, addr: nat, n: nat)
    requires machine.Coherent() && addr >= KHEAP_START && addr % PAGE_SIZE == 0
    requires UnmapFits(machine.View(), (addr - KHEAP_START) / PAGE_SIZE, n)
    modifies machine, machine.bitmap.bytes, machine.kheap
    ensures machine.Coherent()
    ensures machine.View() == UnmapRun(old(machine.View()), (addr - KHEAP_START) / PAGE_SIZE, n)
    ensures var m, start := old(machine.View()), (addr - KHEAP_START) / PAGE_SIZE;
      Inv(m) && start + n <= KHEAP_PAGES && (forall q :: start <= q < start + n ==> m.heap[q]) ==>
        Inv(machine.View()) && UnmmapServes(m, machine.View(), addr, n)
  {
    hide DropKPage, KEntry, UnmmapServes, Linked, HeapMapAgrees, SharesKernelHalf;
    ghost var m := machine.View();
    ghost var start := (addr - KHEAP_START) / PAGE_SIZE;
    var virt := addr;
    for i := 0 to n
      invariant virt == addr + i * PAGE_SIZE
      invariant machine.Coherent() && machine.View() == UnmapRun(m, start, i)
    {
      var k := (virt - KHEAP_START) / PAGE_SIZE;
      assert k == start + i;
      UnmapOne(machine, k);
      virt := virt + PAGE_SIZE;
    }
    if Inv(m) && start + n <= KHEAP_PAGES && forall q :: start <= q < start + n ==> m.heap[q] {
      UnmapRunKeeps(m, start, n);
      UnmmapReaches(m, start, n);
    }
  }
}
