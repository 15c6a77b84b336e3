/** kmalloc and kfree together with the pages they map and unmap (kernel/memory.c:205-289, 387-492):
    the slab heap over the kernel heap over physical frames. */
module KernelMemory {
  import opened Paging
  import opened Memory
  import opened FrameBitmap
  import opened KernelHeap
  import opened Access
  import opened Sequences
  import SM = SlabModel
  import SI = SlabInvariant

  datatype World = World(mem: Mem, heap: SM.Heap)

  // The slabs and large blocks occupy exactly the pages marked in kheap_pages.
  ghost predicate Sound(w: World) {
    Inv(w.mem) && SM.Inv(w.heap) && SM.UsedPages(w.heap) == w.mem.heap
  }

  // The pages a request maps: none when a partial slab serves it.
  function NewPages(h: SM.Heap, size: nat): nat
    requires |h.partial| == SM.NUM_CLASSES
  {
    var c := SM.SizeToClass(size);
    if c >= SM.NUM_CLASSES then SM.BigPages(size) else if h.partial[c] == [] then 1 else 0
  }

  // The pages freeing a block gives back, from `FreedStart` on.
  function FreedPages(h: SM.Heap, b: SM.Block): nat
    requires SM.Live(h, b)
  {
    match b
    case Large(k) => h.use[k].n
    case Obj(k, _) => if |h.free[k]| + 1 == SM.Total(h.use[k].cls) then 1 else 0
  }

  function FreedStart(b: SM.Block): nat { if b.Obj? then b.slab else b.head }

  // The size is one kmalloc serves soundly, and there are pages and frames for it at `page`, where
  // mmap finds room.
  ghost predicate Fits(w: World, size: nat, page: nat) {
    && |w.heap.partial| == |w.heap.full| == SM.NUM_CLASSES && (size <= 1024 || size > 2048)
    && (NewPages(w.heap, size) > 0 ==>
          Leftmost(w.mem.heap, page, NewPages(w.heap, size)) && MapFits(w.mem, page, NewPages(w.heap, size)))
    && SM.Malloc(w.heap, size, page).Got?
  }

  ghost function Kmalloc(w: World, size: nat, page: nat): (r: (World, SM.Block))
    requires Fits(w, size, page)
  {
    var got := SM.Malloc(w.heap, size, page);
    (World(MapRun(w.mem, page, NewPages(w.heap, size)), got.heap), got.block)
  }

  ghost function Kfree(w: World, b: SM.Block): World
    requires Sound(w) && SM.Live(w.heap, b)
  {
    SI.FreeKeeps(w.heap, b);
    FreedInHeap(w, b);
    World(UnmapRun(w.mem, FreedStart(b), FreedPages(w.heap, b)), SM.Free(w.heap, b))
  }

  // The pages of a block that is about to go are mapped.
  lemma FreedInHeap(w: World, b: SM.Block)
    requires Sound(w) && SM.Live(w.heap, b)
    ensures |w.heap.partial| == |w.heap.full| == SM.NUM_CLASSES
    ensures |w.mem.kpd| == ENTRIES && |w.mem.heap| == KHEAP_PAGES
    ensures var k, n := FreedStart(b), FreedPages(w.heap, b);
      k + n <= KHEAP_PAGES && forall q :: k <= q < k + n ==> w.mem.heap[q]
  {
    var k, n := FreedStart(b), FreedPages(w.heap, b);
    assert b.Large? ==> SM.BigOk(w.heap, k);
    forall q | k <= q < k + n && k + n <= KHEAP_PAGES ensures w.mem.heap[q] {
      assert SM.UsedPages(w.heap)[q];
    }
  }

  // Entries of pages in use before and after are the same, and no user frame or boot frame changed.
  ghost predicate Steady(w: World, r: World) {
    && KernelOnly(w.mem, r.mem)
    && (forall g :: 0 <= g < |w.mem.owner| && g < |r.mem.owner| && r.mem.owner[g] == Reserved ==> w.mem.owner[g] == Reserved)
    && (forall k: nat :: InUse(w.heap, k) && InUse(r.heap, k) ==> KEntry(r.mem, k) == KEntry(w.mem, k))
  }

  predicate InUse(h: SM.Heap, k: nat) {
    k < KHEAP_PAGES && k < |h.use| && h.use[k] != SM.Unused
  }

  /** kmalloc hands out one new block, keeps every layer sound and every other block in place. */
  lemma KmallocKeeps(w: World, size: nat, page: nat)
    requires Sound(w) && Fits(w, size, page)
    ensures var (r, b) := Kmalloc(w, size, page);
      Sound(r) && SI.Gained(w.heap, r.heap, b) && SM.Capacity(r.heap, b) >= size && Steady(w, r)
  {
    SI.ClassOf(size);
    MallocPages(w.heap, size, page);
    SI.MallocKeeps(w.heap, size, page);
    RunKeeps(w, size, page);
    hide MapRun, SM.Malloc, KEntry, SM.Inv, Inv, KernelOnly;
    var (r, b) := Kmalloc(w, size, page);
    forall k: nat | InUse(w.heap, k) ensures KEntry(r.mem, k) == KEntry(w.mem, k) {
      assert SM.UsedPages(w.heap)[k];
    }
  }

  lemma RunKeeps(w: World, size: nat, page: nat)
    requires Sound(w) && Fits(w, size, page)
    ensures var n := NewPages(w.heap, size);
      var r := MapRun(w.mem, page, n);
      && Inv(r) && KernelOnly(w.mem, r) && OnlyTakes(w.mem, r)
      && r.heap == (if n > 0 then Mark(w.mem.heap, page, n, true) else w.mem.heap)
      && (forall q: nat :: q < KHEAP_PAGES && w.mem.heap[q] ==> KEntry(r, q) == KEntry(w.mem, q))
  {
    hide KEntry, SM.Inv, SM.Malloc, KernelOnly;
    var n := NewPages(w.heap, size);
    if n > 0 {
      MapRunKeeps(w.mem, page, n);
    } else {
      MapEffectNone(w.mem, 0);
    }
  }

  // The pages in use after kmalloc.
  lemma MallocPages(h: SM.Heap, size: nat, page: nat)
    requires SM.Inv(h) && (size <= 1024 || size > 2048) && SM.Malloc(h, size, page).Got?
    requires NewPages(h, size) > 0 ==> FreeRun(SM.UsedPages(h), page, NewPages(h, size))
    ensures page + NewPages(h, size) <= |h.use| || NewPages(h, size) == 0
    ensures NewPages(h, size) == 0 ==> SM.UsedPages(SM.Malloc(h, size, page).heap) == SM.UsedPages(h)
    ensures NewPages(h, size) > 0 ==> SM.UsedPages(SM.Malloc(h, size, page).heap) == Mark(SM.UsedPages(h), page, NewPages(h, size), true)
  {
  }

  // Free frames stay free.
  ghost predicate StayFree(w: World, r: World) {
    |r.mem.owner| == |w.mem.owner| && forall g :: 0 <= g < |w.mem.owner| && w.mem.owner[g] == Free ==> r.mem.owner[g] == Free
  }

  // The pages in use after kfree.
  lemma FreePages(h: SM.Heap, b: SM.Block)
    requires SM.Inv(h) && SM.Live(h, b)
    ensures |h.partial| == |h.full| == SM.NUM_CLASSES && (b.Obj? ==> h.use[b.slab].cls < SM.NUM_CLASSES)
    ensures FreedStart(b) + FreedPages(h, b) <= |h.use|
    ensures SM.UsedPages(SM.Free(h, b)) == Mark(SM.UsedPages(h), FreedStart(b), FreedPages(h, b), false)
  {
    match b
    case Large(k) => SI.GiveLarge(h, k);
    case Obj(k, j) =>
      SI.LiveObject(h, k, j);
      SI.TotalAtLeastThree(h.use[k].cls);
      if h.free[k] == [] {
        SI.GiveToFull(h, k, j);
      } else if |h.free[k]| + 1 < SM.Total(h.use[k].cls) {
        SI.GiveObject(h, k, j);
      } else {
        SI.GiveLast(h, k, j);
      }
  }

  /** kfree takes back one block, keeps every layer sound and every other block in place. */
  lemma KfreeKeeps(w: World, b: SM.Block)
    requires Sound(w) && SM.Live(w.heap, b)
    ensures Sound(Kfree(w, b)) && SI.Lost(w.heap, Kfree(w, b).heap, b) && Steady(w, Kfree(w, b)) && StayFree(w, Kfree(w, b))
  {
    FreedInHeap(w, b);
    SI.FreeKeeps(w.heap, b);
    FreePages(w.heap, b);
    var start, n := FreedStart(b), FreedPages(w.heap, b);
    UnmapRunKeeps(w.mem, start, n);
    hide UnmapRun, SM.Free, KEntry, SM.Inv, Inv, KernelOnly, FreedPages;
    var r := Kfree(w, b);
    forall k: nat | InUse(w.heap, k) && InUse(r.heap, k) ensures KEntry(r.mem, k) == KEntry(w.mem, k) {
      assert SM.UsedPages(r.heap)[k];
    }
  }

  // ---- The bytes of a block ----

  // Address p is a byte of the live block b.
  predicate InBlock(h: SM.Heap, b: SM.Block, p: nat) {
    SM.Live(h, b) && SM.Address(h, b) <= p < SM.Address(h, b) + SM.Capacity(h, b)
  }

  /** Every byte of a live block is mapped, at its own address: the kernel can read and write it, and the
      frame behind it is owned for that very page of the kernel heap. */
  lemma LiveBytesAreMapped(w: World, b: SM.Block, p: nat)
    requires Sound(w) && InBlock(w.heap, b, p)
    ensures 0xC040_0000 <= p < 0xE000_0000 && KernelMay(w.mem.ram, w.mem.kpd, p)
    ensures var f := Physical(w.mem.ram, w.mem.kpd, p) / 0x1000;
      f < |w.mem.owner| && w.mem.owner[f] == KPage((p - 0xC040_0000) / 0x1000)
  {
    SI.HeaderIsRecovered(w.heap, b, p);
    hide SM.Inv, SM.Live, SM.Address, SM.Capacity, Linked, KernelMay, Physical;
    ReachOf(w.mem, p);
    KernelReachesMapped(w.mem, p);
  }

  /** No two bytes of live blocks share a physical byte, and none is one that ring 3 can reach. */
  lemma LiveBytesArePrivate(w: World, a: SM.Block, p: nat, b: SM.Block, q: nat)
    requires Sound(w) && InBlock(w.heap, a, p) && InBlock(w.heap, b, q)
    ensures Physical(w.mem.ram, w.mem.kpd, p) == Physical(w.mem.ram, w.mem.kpd, q) <==> a == b && p == q
    ensures forall d: nat, x: nat :: IsDir(w.mem, d) && x < 0xC000_0000 ==>
      d < |w.mem.ram| && (UserMay(w.mem.ram, w.mem.ram[d], x) ==>
        Physical(w.mem.ram, w.mem.ram[d], x) != Physical(w.mem.ram, w.mem.kpd, p))
  {
    LiveBytesAreMapped(w, a, p);
    LiveBytesAreMapped(w, b, q);
    KernelReachesMapped(w.mem, p);
    KernelReachesMapped(w.mem, q);
    if a != b {
      SI.LiveBlocksAreApart(w.heap, a, b);
    }
    hide SM.Inv, SM.Live, SM.Address, SM.Capacity, Linked, KernelMay, UserMay, KEntry;
    forall d: nat, x: nat | IsDir(w.mem, d) && x < 0xC000_0000
      ensures d < |w.mem.ram| && (UserMay(w.mem.ram, w.mem.ram[d], x) ==>
        Physical(w.mem.ram, w.mem.ram[d], x) != Physical(w.mem.ram, w.mem.kpd, p))
    {
      UserReachesMapped(w.mem, d, x);
    }
  }

  // ---- Several blocks ----

  ghost predicate AllFit(w: World, sizes: seq<nat>, pages: seq<nat>)
    decreases sizes
  {
    sizes == [] || (pages != [] && Fits(w, sizes[0], pages[0]) && AllFit(Kmalloc(w, sizes[0], pages[0]).0, sizes[1..], pages[1..]))
  }

  // The blocks of several requests in a row.
  ghost function KmallocAll(w: World, sizes: seq<nat>, pages: seq<nat>): (r: (World, seq<SM.Block>))
    requires AllFit(w, sizes, pages)
    ensures |r.1| == |sizes|
    decreases sizes
  {
    if sizes == [] then (w, [])
    else
      var (w1, b) := Kmalloc(w, sizes[0], pages[0]);
      var (w2, rest) := KmallocAll(w1, sizes[1..], pages[1..]);
      (w2, [b] + rest)
  }

  // From w to r exactly these blocks became live.
  ghost predicate GainedAll(w: World, r: World, blocks: seq<SM.Block>) {
    && NoDup(blocks) && (forall b :: b in blocks ==> !SM.Live(w.heap, b))
    && (forall x: SM.Block :: SM.Live(r.heap, x) <==> SM.Live(w.heap, x) || x in blocks)
    && (forall x: SM.Block :: SM.Live(w.heap, x) ==> SI.SameBlock(w.heap, r.heap, x))
  }

  ghost predicate LostAll(w: World, r: World, blocks: seq<SM.Block>) {
    && NoDup(blocks) && (forall b :: b in blocks ==> SM.Live(w.heap, b))
    && (forall x: SM.Block :: SM.Live(r.heap, x) <==> SM.Live(w.heap, x) && x !in blocks)
    && (forall x: SM.Block :: SM.Live(r.heap, x) ==> SI.SameBlock(w.heap, r.heap, x))
  }

  lemma {:induction false} KmallocAllKeeps(w: World, sizes: seq<nat>, pages: seq<nat>)
    requires Sound(w) && AllFit(w, sizes, pages)
    ensures var (r, blocks) := KmallocAll(w, sizes, pages);
      Sound(r) && GainedAll(w, r, blocks) && UsersSame(w.mem.owner, r.mem.owner)
    decreases sizes
  {
    hide Sound, Fits, Kmalloc, SM.Live, Steady;
    if sizes != [] {
      var (w1, b) := Kmalloc(w, sizes[0], pages[0]);
      KmallocKeeps(w, sizes[0], pages[0]);
      SteadyKeepsUsers(w, w1);
      KmallocAllKeeps(w1, sizes[1..], pages[1..]);
      var (r, rest) := KmallocAll(w1, sizes[1..], pages[1..]);
      GainedJoin(w, w1, r, b, rest);
      UsersSameJoin(w.mem.owner, w1.mem.owner, r.mem.owner);
    } else {
      NothingGained(w);
    }
  }

  /** Each block is as large as was asked for, also once the later ones were allocated. */
  lemma {:induction false} KmallocAllSizes(w: World, sizes: seq<nat>, pages: seq<nat>)
    requires Sound(w) && AllFit(w, sizes, pages)
    ensures var (r, blocks) := KmallocAll(w, sizes, pages);
      forall i :: 0 <= i < |sizes| ==> SM.Capacity(r.heap, blocks[i]) >= sizes[i]
    decreases sizes
  {
    hide Sound, Fits, Kmalloc, SM.Live, SM.Capacity, Steady;
    if sizes != [] {
      var (w1, b) := Kmalloc(w, sizes[0], pages[0]);
      KmallocKeeps(w, sizes[0], pages[0]);
      KmallocAllKeeps(w1, sizes[1..], pages[1..]);
      KmallocAllSizes(w1, sizes[1..], pages[1..]);
      var (r, rest) := KmallocAll(w1, sizes[1..], pages[1..]);
      assert SI.SameBlock(w1.heap, r.heap, b);
    }
  }

  // The blocks released one after the other.
  ghost function KfreeAll(w: World, blocks: seq<SM.Block>): World
    requires Sound(w) && NoDup(blocks) && (forall b :: b in blocks ==> SM.Live(w.heap, b))
    decreases blocks
  {
    if blocks == [] then w
    else
      KfreeKeeps(w, blocks[0]);
      RestIsLive(w, blocks);
      KfreeAll(Kfree(w, blocks[0]), blocks[1..])
  }

  lemma RestIsLive(w: World, blocks: seq<SM.Block>)
    requires Sound(w) && NoDup(blocks) && blocks != [] && (forall b :: b in blocks ==> SM.Live(w.heap, b))
    requires SI.Lost(w.heap, Kfree(w, blocks[0]).heap, blocks[0])
    ensures NoDup(blocks[1..]) && (forall b :: b in blocks[1..] ==> SM.Live(Kfree(w, blocks[0]).heap, b))
  {
    hide Sound, Kfree, SM.Live;
  }

  lemma {:induction false} KfreeAllKeeps(w: World, blocks: seq<SM.Block>)
    requires Sound(w) && NoDup(blocks) && (forall b :: b in blocks ==> SM.Live(w.heap, b))
    ensures Sound(KfreeAll(w, blocks)) && LostAll(w, KfreeAll(w, blocks), blocks)
    ensures UsersSame(w.mem.owner, KfreeAll(w, blocks).mem.owner) && StayFree(w, KfreeAll(w, blocks))
    decreases blocks
  {
    hide Sound, Kfree, SM.Live, Steady;
    if blocks != [] {
      var w1 := Kfree(w, blocks[0]);
      KfreeKeeps(w, blocks[0]);
      SteadyKeepsUsers(w, w1);
      RestIsLive(w, blocks);
      KfreeAllKeeps(w1, blocks[1..]);
      LostJoin(w, w1, KfreeAll(w1, blocks[1..]), blocks);
      UsersSameJoin(w.mem.owner, w1.mem.owner, KfreeAll(w1, blocks[1..]).mem.owner);
    } else {
      NothingLost(w);
    }
  }

  predicate IsUser(u: Use) { u.UDir? || u.UTable? || u.UPage? }

  // The frames in user hands, and whose they are, are the same in both.
  ghost predicate UsersSame(o: seq<Use>, r: seq<Use>) {
    |r| == |o| && forall g :: 0 <= g < |o| && (IsUser(o[g]) || IsUser(r[g])) ==> r[g] == o[g]
  }

  lemma SteadyKeepsUsers(w: World, r: World)
    requires Sound(w) && Steady(w, r)
    ensures UsersSame(w.mem.owner, r.mem.owner)
  {
  }

  lemma UsersSameJoin(a: seq<Use>, b: seq<Use>, c: seq<Use>)
    requires UsersSame(a, b) && UsersSame(b, c)
    ensures UsersSame(a, c)
  {
  }

  lemma NothingGained(w: World)
    ensures GainedAll(w, w, []) && UsersSame(w.mem.owner, w.mem.owner)
  {
    assert forall x: SM.Block :: SM.Live(w.heap, x) ==> SI.SameBlock(w.heap, w.heap, x);
  }

  lemma NothingLost(w: World)
    ensures LostAll(w, w, []) && UsersSame(w.mem.owner, w.mem.owner)
  {
    assert forall x: SM.Block :: SM.Live(w.heap, x) ==> SI.SameBlock(w.heap, w.heap, x);
  }

  lemma SameBlockJoin(a: SM.Heap, b: SM.Heap, c: SM.Heap, x: SM.Block)
    requires SI.SameBlock(a, b, x) && SI.SameBlock(b, c, x)
    ensures SI.SameBlock(a, c, x)
  {
  }

  lemma GainedJoin(w: World, mid: World, r: World, b: SM.Block, rest: seq<SM.Block>)
    requires SI.Gained(w.heap, mid.heap, b) && GainedAll(mid, r, rest)
    ensures GainedAll(w, r, [b] + rest)
  {
    hide SM.Live, SI.SameBlock;
    forall x: SM.Block | SM.Live(w.heap, x) ensures SI.SameBlock(w.heap, r.heap, x) {
      SameBlockJoin(w.heap, mid.heap, r.heap, x);
    }
  }

  lemma LostJoin(w: World, mid: World, r: World, blocks: seq<SM.Block>)
    requires blocks != [] && NoDup(blocks) && (forall b :: b in blocks ==> SM.Live(w.heap, b))
    requires SI.Lost(w.heap, mid.heap, blocks[0]) && LostAll(mid, r, blocks[1..])
    ensures LostAll(w, r, blocks)
  {
    hide SM.Live, SI.SameBlock;
    assert blocks == [blocks[0]] + blocks[1..];
    forall x: SM.Block | SM.Live(r.heap, x) ensures SI.SameBlock(w.heap, r.heap, x) {
      SameBlockJoin(w.heap, mid.heap, r.heap, x);
    }
  }
}
