/** Boot-time reservation of frames (kernel/memory.c:63-112, 173-203).
    The Multiboot memory map is a sequence of regions (section 3.3 of the Multiboot
    Specification 0.6.96).  Addresses are below 4 GiB and every index that the code
    writes lies inside the bitmap; the code checks neither.
 */
module Boot {
  import opened Paging
  import opened FrameBitmap

  datatype Region = Region(addr: nat, len: nat, available: bool)

  // The frames the code marks for the byte range [addr, addr + len).
  predicate Marked(frame: nat, addr: nat, len: nat) {
    addr / PAGE_SIZE <= frame < addr / PAGE_SIZE + PagesFor(len)
  }

  // The frame holds a byte of the address range [lo, hi).
  ghost predicate Holds(frame: nat, lo: nat, hi: nat) {
    exists p: nat :: lo <= p < hi && p / PAGE_SIZE == frame
  }

  // Whether the first and last partial pages of the address range [lo, hi) fit in one page together.
  predicate EdgesFit(lo: nat, hi: nat) {
    hi <= lo || lo % PAGE_SIZE + (hi - lo - 1) % PAGE_SIZE < PAGE_SIZE
  }

  /** Only frames that hold a byte of the range are marked; all of them are marked exactly when the
      edges fit, which a page-aligned start or end guarantees. */
  lemma MarkingIsExact(addr: nat, len: nat)
    ensures forall f: nat :: Marked(f, addr, len) ==> Holds(f, addr, addr + len)
    ensures EdgesFit(addr, addr + len) <==> forall f: nat :: Holds(f, addr, addr + len) ==> Marked(f, addr, len)
    ensures addr % PAGE_SIZE == 0 || (addr + len) % PAGE_SIZE == 0 ==> EdgesFit(addr, addr + len)
  {
    forall f: nat | Marked(f, addr, len) ensures Holds(f, addr, addr + len) {
      var p := if f == addr / PAGE_SIZE then addr else f * PAGE_SIZE;
      assert addr <= p < addr + len && p / PAGE_SIZE == f;
    }
    if EdgesFit(addr, addr + len) {
      forall f: nat | Holds(f, addr, addr + len) ensures Marked(f, addr, len) {
        var p: nat :| addr <= p < addr + len && p / PAGE_SIZE == f;
        FittingByte(addr, len, p);
      }
    } else {
      LastByteMissed(addr, len);
      var p := addr + len - 1;
      assert Holds(p / PAGE_SIZE, addr, addr + len);
    }
  }

  lemma FittingByte(addr: nat, len: nat, p: nat)
    requires EdgesFit(addr, addr + len) && addr <= p < addr + len
    ensures Marked(p / PAGE_SIZE, addr, len)
  {
    assert p <= addr + (len - 1);
  }

  lemma LastByteMissed(addr: nat, len: nat)
    requires !EdgesFit(addr, addr + len)
    ensures len > 0 && !Marked((addr + len - 1) / PAGE_SIZE, addr, len)
  {
  }

  /** A region whose two edges do not fit: two bytes across a page boundary leave the
      second page unmarked. */
  lemma StraddlingRegionIsMissed()
    ensures Holds(1, 4095, 4097) && !Marked(1, 4095, 2)
  {
    assert 4096 / PAGE_SIZE == 1;
  }

  ghost predicate InRegion(frame: nat, map_: seq<Region>, i: nat) {
    i < |map_| && !map_[i].available && Marked(frame, map_[i].addr, map_[i].len)
  }

  ghost predicate InGap(frame: nat, map_: seq<Region>, i: nat) {
    && i + 1 < |map_| && map_[i].addr + map_[i].len < map_[i + 1].addr
    && Marked(frame, map_[i].addr + map_[i].len, map_[i + 1].addr - (map_[i].addr + map_[i].len))
  }

  // The frames reserved by the first n regions and the gaps that follow them.
  ghost predicate InMap(frame: nat, map_: seq<Region>, n: nat) {
    exists i: nat :: i < n && (InRegion(frame, map_, i) || InGap(frame, map_, i))
  }

  ghost predicate IndicesFit(map_: seq<Region>, size: nat) {
    && (forall i :: 0 <= i < |map_| && !map_[i].available ==>
          map_[i].addr / PAGE_SIZE + PagesFor(map_[i].len) <= size)
    && (forall i, j :: 0 <= i < j == i + 1 < |map_| && map_[i].addr + map_[i].len < map_[j].addr ==>
          (map_[i].addr + map_[i].len) / PAGE_SIZE + PagesFor(map_[j].addr - (map_[i].addr + map_[i].len)) <= size)
  }

  // Marks the frames the code marks for the byte range [addr, addr + len).
  method MarkBytes(bitmap: Bitmap, addr: nat, len: nat)
    requires bitmap.Valid() && addr / PAGE_SIZE + PagesFor(len) <= bitmap.size
    modifies bitmap.bytes
    ensures forall f: nat :: f < bitmap.size ==> (bitmap.Used()[f] <==> old(bitmap.Used())[f] || Marked(f, addr, len))
  {
    bitmap.SetUsed(addr / PAGE_SIZE, PagesFor(len));
  }

  lemma InMapSnoc(frame: nat, map_: seq<Region>, n: nat)
    ensures InMap(frame, map_, n + 1) <==> InMap(frame, map_, n) || InRegion(frame, map_, n) || InGap(frame, map_, n)
  {
    if InRegion(frame, map_, n) || InGap(frame, map_, n) {
      assert InMap(frame, map_, n + 1);
    }
  }

  // One turn of the loop over the memory map: region i, then the gap behind it.
  method MarkRegionAndGap(bitmap: Bitmap, map_: seq<Region>, i: nat)
    requires bitmap.Valid() && i < |map_| && IndicesFit(map_, bitmap.size)
    modifies bitmap.bytes
    ensures forall f: nat :: f < bitmap.size ==>
      (bitmap.Used()[f] <==> old(bitmap.Used())[f] || InRegion(f, map_, i) || InGap(f, map_, i))
  {
    if !map_[i].available {
      MarkBytes(bitmap, map_[i].addr, map_[i].len);
    }
    if i + 1 < |map_| && map_[i].addr + map_[i].len < map_[i + 1].addr {
      MarkBytes(bitmap, map_[i].addr + map_[i].len, map_[i + 1].addr - (map_[i].addr + map_[i].len));
    }
  }

  method MarkMap(bitmap: Bitmap, map_: seq<Region>)
    requires bitmap.Valid() && IndicesFit(map_, bitmap.size)
    requires forall f: nat :: f < bitmap.size ==> !bitmap.Used()[f]
    modifies bitmap.bytes
    ensures forall f: nat :: f < bitmap.size ==> (bitmap.Used()[f] <==> InMap(f, map_, |map_|))
  {
    for i := 0 to |map_|
      invariant forall f: nat :: f < bitmap.size ==> (bitmap.Used()[f] <==> InMap(f, map_, i))
    {
      MarkRegionAndGap(bitmap, map_, i);
      forall f: nat ensures InMap(f, map_, i + 1) <==> InMap(f, map_, i) || InRegion(f, map_, i) || InGap(f, map_, i) {
        InMapSnoc(f, map_, i);
      }
    }
  }

  // ---- The memory map in bytes ----

  // The frame holds a byte of a region that is not available, or between two regions.
  ghost predicate HoldsReservedByte(f: nat, map_: seq<Region>) {
    || (exists r :: 0 <= r < |map_| && !map_[r].available && Holds(f, map_[r].addr, map_[r].addr + map_[r].len))
    || (exists r, n :: 0 <= r < n == r + 1 < |map_| && Holds(f, map_[r].addr + map_[r].len, map_[n].addr))
  }

  ghost predicate AllEdgesFit(map_: seq<Region>) {
    && (forall r :: 0 <= r < |map_| && !map_[r].available ==> EdgesFit(map_[r].addr, map_[r].addr + map_[r].len))
    && (forall r, n :: 0 <= r < n == r + 1 < |map_| ==> EdgesFit(map_[r].addr + map_[r].len, map_[n].addr))
  }

  /** The memory map marks only frames that hold a byte of an unavailable region or between two
      regions, and all of them if the edges of these ranges fit. */
  lemma MapMarksItsBytes(map_: seq<Region>, f: nat)
    ensures InMap(f, map_, |map_|) ==> HoldsReservedByte(f, map_)
    ensures AllEdgesFit(map_) ==> (InMap(f, map_, |map_|) <==> HoldsReservedByte(f, map_))
  {
    hide Marked, Holds, EdgesFit;
    if InMap(f, map_, |map_|) {
      var i: nat :| i < |map_| && (InRegion(f, map_, i) || InGap(f, map_, i));
      if InRegion(f, map_, i) {
        MarkingIsExact(map_[i].addr, map_[i].len);
      } else {
        MarkingIsExact(map_[i].addr + map_[i].len, map_[i + 1].addr - (map_[i].addr + map_[i].len));
        var n := i + 1;
        assert Holds(f, map_[i].addr + map_[i].len, map_[n].addr);
      }
    }
    if AllEdgesFit(map_) && HoldsReservedByte(f, map_) {
      if r :| 0 <= r < |map_| && !map_[r].available && Holds(f, map_[r].addr, map_[r].addr + map_[r].len) {
        MarkingIsExact(map_[r].addr, map_[r].len);
        assert InRegion(f, map_, r);
      } else {
        var r, n :| 0 <= r < n == r + 1 < |map_| && Holds(f, map_[r].addr + map_[r].len, map_[n].addr);
        HoldsSome(f, map_[r].addr + map_[r].len, map_[n].addr);
        MarkingIsExact(map_[r].addr + map_[r].len, map_[n].addr - (map_[r].addr + map_[r].len));
        assert InGap(f, map_, r);
      }
    }
  }

  lemma HoldsSome(f: nat, lo: nat, hi: nat)
    requires Holds(f, lo, hi)
    ensures lo < hi
  {
  }

  // ---- The range up to the end of the kernel ----

  // A value stored in a uint64_t.
  function Wrap64(v: int): (w: nat)
    ensures w < 0x1_0000_0000_0000_0000
  {
    v % 0x1_0000_0000_0000_0000
  }

  // start_index and total_used_pages of the kernel range: the code reads through `_kernel_start` the
  // signed byte stored there, and widens it to 64 bits.
  function KernelFirst(firstByte: int): nat { Wrap64(firstByte) / PAGE_SIZE }

  function KernelCount(firstByte: int, kernelEnd: nat): nat { PagesFor(Wrap64(kernelEnd - Wrap64(firstByte))) }

  /** The indices of the kernel range lie inside the bitmap exactly when the byte is not negative.
      Then they are the frames from 0 up to the end of the kernel; for a negative byte not one of
      them is inside, so the kernel's frames stay free and the stores go elsewhere. */
  lemma KernelRangeFitsIff(firstByte: int, kernelEnd: nat, size: nat)
    requires -128 <= firstByte <= 127 && size < 0x10_0000_0000_0000
    requires kernelEnd <= 0xFFFF_F000 && kernelEnd % PAGE_SIZE == 0 && 0 < kernelEnd / PAGE_SIZE <= size
    ensures KernelFirst(firstByte) + KernelCount(firstByte, kernelEnd) <= size <==> firstByte >= 0
    ensures firstByte >= 0 ==> KernelFirst(firstByte) == 0 && KernelCount(firstByte, kernelEnd) == kernelEnd / PAGE_SIZE
    ensures firstByte < 0 ==> KernelFirst(firstByte) >= size && KernelCount(firstByte, kernelEnd) > kernelEnd / PAGE_SIZE
  {
    var range := kernelEnd - firstByte;
    assert Wrap64(kernelEnd - Wrap64(firstByte)) == range;
    if firstByte >= 0 {
      assert range / PAGE_SIZE == kernelEnd / PAGE_SIZE - if firstByte == 0 then 0 else 1;
    } else {
      assert Wrap64(firstByte) == 0x1_0000_0000_0000_0000 + firstByte;
      assert range / PAGE_SIZE == kernelEnd / PAGE_SIZE && range % PAGE_SIZE > 0;
    }
  }

  /** The byte 0xFF makes the code start at frame 2^52 - 1, with one frame more than the kernel has. */
  lemma NegativeByteIsFarOut()
    ensures KernelFirst(-1) == 0xF_FFFF_FFFF_FFFF && KernelCount(-1, 0x40_0000) == 0x401
  {
  }

  // ---- The whole bitmap ----

  // The frames populate_bitmap marks.
  ghost predicate Reserved(f: nat, map_: seq<Region>, kernelEnd: nat, modStart: nat, modEnd: nat) {
    || InMap(f, map_, |map_|)
    || f < kernelEnd / PAGE_SIZE
    || AlignDown4k(modStart) / PAGE_SIZE <= f < AlignUp4k(modEnd) / PAGE_SIZE
  }

  lemma ReservedInBytes(f: nat, map_: seq<Region>, kernelEnd: nat, modStart: nat, modEnd: nat)
    requires AllEdgesFit(map_) && kernelEnd % PAGE_SIZE == 0 && modStart <= modEnd <= 0xFFFF_F000
    ensures Reserved(f, map_, kernelEnd, modStart, modEnd) <==>
      HoldsReservedByte(f, map_) || Holds(f, 0, kernelEnd) || Holds(f, AlignDown4k(modStart), AlignUp4k(modEnd))
  {
    hide AllEdgesFit, HoldsReservedByte, InMap, EdgesFit;
    MapMarksItsBytes(map_, f);
    PagesInBytes(f, 0, kernelEnd);
    AlignUpIsLeast(modEnd);
    PagesInBytes(f, AlignDown4k(modStart), AlignUp4k(modEnd));
  }

  lemma PagesInBytes(f: nat, lo: nat, hi: nat)
    requires lo % PAGE_SIZE == 0 && hi % PAGE_SIZE == 0
    ensures Holds(f, lo, hi) <==> lo / PAGE_SIZE <= f < hi / PAGE_SIZE
  {
    assert f * PAGE_SIZE / PAGE_SIZE == f;
  }

  /** populate_bitmap, for ranges whose indices lie inside the bitmap. */
  method PopulateBitmap(storage: array<bv8>, size: nat, map_: seq<Region>, firstByte: int, kernelEnd: nat,
                        modStart: nat, modEnd: nat) returns (bitmap: Bitmap)
    requires size <= 8 * storage.Length && size < 0x10_0000_0000_0000 && IndicesFit(map_, size)
    requires kernelEnd <= 0xFFFF_F000 && kernelEnd % PAGE_SIZE == 0 && 0 < kernelEnd / PAGE_SIZE <= size
    requires -128 <= firstByte <= 127 && KernelFirst(firstByte) + KernelCount(firstByte, kernelEnd) <= size
    requires modStart <= modEnd <= 0xFFFF_F000 && AlignUp4k(modEnd) / PAGE_SIZE <= size
    modifies storage
    ensures bitmap.Valid() && bitmap.bytes == storage && bitmap.size == size
    ensures forall f: nat :: f < size ==> (bitmap.Used()[f] <==> Reserved(f, map_, kernelEnd, modStart, modEnd))
    ensures AllEdgesFit(map_) ==> forall f: nat :: f < size ==>
      (bitmap.Used()[f] <==>
        || HoldsReservedByte(f, map_) || Holds(f, 0, kernelEnd) || Holds(f, AlignDown4k(modStart), AlignUp4k(modEnd)))
  {
    bitmap := new Bitmap(storage, size);
    MarkMap(bitmap, map_);
    KernelRangeFitsIff(firstByte, kernelEnd, size);
    bitmap.SetUsed(KernelFirst(firstByte), KernelCount(firstByte, kernelEnd));
    AlignUpIsLeast(modEnd);
    var first, final := AlignDown4k(modStart) / PAGE_SIZE, AlignUp4k(modEnd) / PAGE_SIZE;
    bitmap.SetUsed(first, final - first);
    forall f: nat | AllEdgesFit(map_)
      ensures Reserved(f, map_, kernelEnd, modStart, modEnd) <==>
        || HoldsReservedByte(f, map_) || Holds(f, 0, kernelEnd) || Holds(f, AlignDown4k(modStart), AlignUp4k(modEnd))
    {
      ReservedInBytes(f, map_, kernelEnd, modStart, modEnd);
    }
  }

  // Where the kernel image, the module and the bitmap behind it lie.
  datatype Layout = Layout(lastPaged: nat, size: nat, modStart: nat, modEnd: nat)

  predicate LayoutOk(l: Layout) {
    l.lastPaged <= 0xFFFF_F000 && l.modStart <= l.modEnd <= 0xFFFF_F000
  }

  // init_memory: the end of the kernel after the bitmap and module pages are mapped behind it.
  function KernelEnd(l: Layout): nat
    requires LayoutOk(l)
  {
    AlignUpIsLeast(l.modEnd);
    var bitmapPages := ((l.size + 7) / 8 + PAGE_SIZE - 1) / PAGE_SIZE;
    var modulePages := AlignUp4k(l.modEnd) / PAGE_SIZE - AlignDown4k(l.modStart) / PAGE_SIZE;
    AlignUp4k(l.lastPaged) + (bitmapPages + modulePages) * PAGE_SIZE
  }

  // The module starts no later than the first page behind the kernel image.
  predicate ModuleFollows(l: Layout) {
    LayoutOk(l) && AlignDown4k(l.modStart) <= AlignUp4k(l.lastPaged)
  }

  ghost predicate HoldsKernelByte(f: nat, l: Layout) {
    || Holds(f, 0, l.lastPaged)
    || Holds(f, l.modStart, l.modEnd)
    || Holds(f, l.modEnd, l.modEnd + (l.size + 7) / 8)
  }

  /** When the module follows the kernel image, the frames of the image, of the module and of the
      bitmap itself, which starts at the module's end, are among those PopulateBitmap marks. */
  lemma KernelModuleAndBitmapAreReserved(map_: seq<Region>, l: Layout, f: nat)
    requires ModuleFollows(l) && HoldsKernelByte(f, l)
    ensures Reserved(f, map_, KernelEnd(l), l.modStart, l.modEnd)
  {
    AlignUpIsLeast(l.lastPaged);
    AlignUpIsLeast(l.modEnd);
  }

  /** No more than the pages needed is reserved behind the kernel image. */
  lemma KernelEndIsTight(l: Layout)
    requires LayoutOk(l)
    ensures AlignDown4k(l.modStart) <= AlignUp4k(l.modEnd)
    ensures var room := KernelEnd(l) - AlignUp4k(l.lastPaged) - (AlignUp4k(l.modEnd) - AlignDown4k(l.modStart));
      8 * room >= l.size > 8 * (room - PAGE_SIZE) || l.size == room == 0
  {
    AlignUpIsLeast(l.modEnd);
  }

  /** Over every run that starts from the bitmap PopulateBitmap leaves and frees only allocated
      frames, no frame is ever handed out that holds a byte of the kernel image, the module, the
      bitmap, an unavailable region or a gap, if the edges of the regions and gaps fit. */
  lemma BootReservedFramesAreNeverHandedOut(map_: seq<Region>, l: Layout, run: seq<FrameState>, events: seq<FrameEvent>,
                                            i: nat, f: nat)
    requires FrameRun(run, events) && run[0].out == {} && i < |run|
    requires ModuleFollows(l) && AllEdgesFit(map_)
    requires forall g: nat :: g < |run[0].used| ==>
      (run[0].used[g] <==> Reserved(g, map_, KernelEnd(l), l.modStart, l.modEnd))
    requires HoldsKernelByte(f, l) || HoldsReservedByte(f, map_)
    ensures f !in run[i].out
  {
    ReservedFramesStay(run, events, i);
    if HoldsKernelByte(f, l) {
      KernelModuleAndBitmapAreReserved(map_, l, f);
    } else {
      MapMarksItsBytes(map_, f);
    }
  }
}
