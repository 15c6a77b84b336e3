/** User address spaces: sys_mmap and sys_munmap on a two-level table
    (kernel/syscall/mmap.c, kernel/syscall/munmap.c).
    A directory is identified by its frame d (the task's cr3); user pages are numbered
    1 .. USER_LIMIT_PAGE, page v standing for the address v * 4096.
 */
module UserSpace {
  import opened Paging
  import opened Memory
  import opened Machine
  import opened Access

  // ---- One page ----

  // Every pmm_alloc made while mapping user page v finds a free frame.
  predicate StepFits(m: Mem, d: nat, v: nat) {
    && |m.ram| == |m.owner| && d < |m.ram|
    && FirstFree(m.owner) < |m.owner|
    && (Peek(m.ram, d, PdeIndex(v)) == 0 ==> FirstFree(m.owner[FirstFree(m.owner) := UTable(d, PdeIndex(v))]) < |m.owner|)
  }

  // What sys_mmap does at a hole: a table first when the directory lacks one, then the page.
  // Exhaustion is not handled by the code and is excluded by FillFits.
  function MapStep(m: Mem, d: nat, v: nat): Mem {
    if !StepFits(m, d, v) then m
    else if Peek(m.ram, d, PdeIndex(v)) == 0 then
      var t := FirstFree(m.owner);
      var mid := AddUTable(m, d, PdeIndex(v), t);
      AddUPage(mid, d, v, FirstFree(mid.owner))
    else
      AddUPage(m, d, v, FirstFree(m.owner))
  }

  // The memory once every hole among pages 1 .. v has been mapped.
  function Fill(m: Mem, d: nat, v: nat): Mem
    decreases v
  {
    if v <= 1 then m else
      var prev := Fill(m, d, v - 1);
      if UEntry(prev, d, v - 1) == 0 then MapStep(prev, d, v - 1) else prev
  }

  // The number of holes among pages 1 .. v.
  function Holes(m: Mem, d: nat, v: nat): nat
    decreases v
  {
    if v <= 1 then 0 else Holes(m, d, v - 1) + if UEntry(m, d, v - 1) == 0 then 1 else 0
  }

  // Every pmm_alloc made while mapping the first n holes finds a free frame.
  ghost predicate FillFits(m: Mem, d: nat, n: nat) {
    forall v: nat :: 1 <= v < USER_LIMIT_PAGE && UEntry(m, d, v) == 0 && Holes(m, d, v) < n ==> StepFits(Fill(m, d, v), d, v)
  }

  // What an operation on the address space d leaves alone: every slot of the kernel and of other
  // address spaces.
  ghost predicate SpaceOnly(m: Mem, r: Mem, d: nat) {
    && |r.owner| == |m.owner| && |r.ram| == |m.ram| && r.kpd == m.kpd && r.heap == m.heap
    && (forall u: Use :: !((u.UTable? || u.UPage?) && u.dir == d) ==> Slot(r, u) == Slot(m, u))
  }

  ghost predicate ContentsKept(m: Mem, r: Mem)
    requires |r.ram| == |m.ram|
  {
    forall g :: 0 <= g < |m.owner| && g < |m.ram| && m.owner[g] != Free && m.owner[g] != UDir && !m.owner[g].UTable? ==>
      r.ram[g] == m.ram[g]
  }

  // Owners change only where a free frame becomes a table or a page of d.
  ghost predicate OnlyTakes(m: Mem, r: Mem, d: nat) {
    && |r.owner| == |m.owner|
    && (forall g :: 0 <= g < |m.owner| ==>
          r.owner[g] == m.owner[g] || (m.owner[g] == Free && (r.owner[g].UTable? || r.owner[g].UPage?) && r.owner[g].dir == d))
  }

  // A frame newly taken for page v of d: free before, and all zero.
  ghost predicate Fresh(m: Mem, r: Mem, d: nat, v: nat) {
    var f := FrameOf(UEntry(r, d, v));
    UEntry(r, d, v) != 0 && IsFree(m, f) && f < |r.ram| && r.ram[f] == ZeroPage()
  }

  // The effect of mapping the holes among pages lo .. hi.
  ghost predicate FillEffect(m: Mem, r: Mem, d: nat, lo: nat, hi: nat) {
    && SpaceOnly(m, r, d) && ContentsKept(m, r) && OnlyTakes(m, r, d)
    && (forall v: nat :: lo <= v < hi && UEntry(m, d, v) == 0 ==> Fresh(m, r, d, v))
    && (forall v: nat :: v < USER_LIMIT_PAGE && (UEntry(m, d, v) != 0 || !(lo <= v < hi)) ==> UEntry(r, d, v) == UEntry(m, d, v))
  }

  lemma AddTableEffect(m: Mem, d: nat, i: nat, t: nat)
    requires Inv(m) && IsDir(m, d) && IsFree(m, t) && i < USER_LIMIT_PDE && m.ram[d][i] == 0
    ensures var r := AddUTable(m, d, i, t);
      Inv(r) && IsDir(r, d) && SpaceOnly(m, r, d) && ContentsKept(m, r) && OnlyTakes(m, r, d) && r.ram[d][i] != 0
    ensures forall v: nat :: v < USER_LIMIT_PAGE ==> UEntry(AddUTable(m, d, i, t), d, v) == UEntry(m, d, v)
  {
    AddUTableKeeps(m, d, i, t);
    var r := AddUTable(m, d, i, t);
    forall v: nat | v < USER_LIMIT_PAGE ensures UEntry(r, d, v) == UEntry(m, d, v) {
      assert Slot(r, UPage(d, v)) == Slot(m, UPage(d, v));
    }
  }

  lemma AddPageEffect(m: Mem, d: nat, v: nat, f: nat)
    requires Inv(m) && IsDir(m, d) && IsFree(m, f) && 0 < v < USER_LIMIT_PAGE
    requires m.ram[d][PdeIndex(v)] != 0 && UEntry(m, d, v) == 0
    ensures var r := AddUPage(m, d, v, f);
      Inv(r) && IsDir(r, d) && FillEffect(m, r, d, v, v + 1)
  {
    AddUPageKeeps(m, d, v, f);
    TableOfUPage(m, d, v);
    var r := AddUPage(m, d, v, f);
    assert Slot(r, UPage(d, v)) == Word(f, USER_FLAGS);
    forall w: nat | w < USER_LIMIT_PAGE && w != v ensures UEntry(r, d, w) == UEntry(m, d, w) {
      assert Slot(r, UPage(d, w)) == Slot(m, UPage(d, w));
    }
  }

  lemma TableThenPage(m: Mem, mid: Mem, r: Mem, d: nat, v: nat)
    requires Shape(m) && Shape(mid) && Shape(r) && v < USER_LIMIT_PAGE
    requires SpaceOnly(m, mid, d) && ContentsKept(m, mid) && OnlyTakes(m, mid, d)
    requires forall w: nat :: w < USER_LIMIT_PAGE ==> UEntry(mid, d, w) == UEntry(m, d, w)
    requires FillEffect(mid, r, d, v, v + 1)
    ensures FillEffect(m, r, d, v, v + 1)
  {
    hide UEntry, Slot;
    if UEntry(m, d, v) == 0 {
      assert Fresh(mid, r, d, v);
    }
  }

  lemma MapStepEffect(m: Mem, d: nat, v: nat)
    requires Inv(m) && IsDir(m, d) && 0 < v < USER_LIMIT_PAGE && UEntry(m, d, v) == 0 && StepFits(m, d, v)
    ensures var r := MapStep(m, d, v);
      Inv(r) && IsDir(r, d) && FillEffect(m, r, d, v, v + 1)
  {
    hide Inv, FillEffect, SpaceOnly, OnlyTakes, AddUTable, AddUPage, UEntry;
    FirstFreeIsLeast(m.owner);
    assert Shape(m) by { InvShape(m); }
    var t := FirstFree(m.owner);
    if m.ram[d][PdeIndex(v)] == 0 {
      FirstFreeIsLeast(m.owner[t := UTable(d, PdeIndex(v))]);
      AddTableEffect(m, d, PdeIndex(v), t);
      var mid := AddUTable(m, d, PdeIndex(v), t);
      AddUTableOwner(m, d, PdeIndex(v), t);
      var f := FirstFree(mid.owner);
      InvShape(mid);
      AddPageEffect(mid, d, v, f);
      InvShape(AddUPage(mid, d, v, f));
      TableThenPage(m, mid, AddUPage(mid, d, v, f), d, v);
    } else {
      AddPageEffect(m, d, v, t);
    }
  }

  lemma AddUTableOwner(m: Mem, d: nat, i: nat, t: nat)
    requires t < |m.owner| && t < |m.ram|
    ensures AddUTable(m, d, i, t).owner == m.owner[t := UTable(d, i)]
  {
  }

  // ---- sys_mmap ----

  lemma FillEffectNone(m: Mem, d: nat, lo: nat)
    ensures FillEffect(m, m, d, lo, lo)
  {
  }

  lemma FillEffectJoin(m: Mem, mid: Mem, r: Mem, d: nat, lo: nat, v: nat)
    requires Inv(mid) && Shape(m) && Shape(r) && IsDir(mid, d) && 1 <= lo <= v < USER_LIMIT_PAGE
    requires FillEffect(m, mid, d, lo, v) && FillEffect(mid, r, d, v, v + 1)
    ensures FillEffect(m, r, d, lo, v + 1)
  {
    hide UEntry, Slot;
    forall w: nat | lo <= w < v + 1 && UEntry(m, d, w) == 0 ensures Fresh(m, r, d, w) {
      if w < v {
        assert Fresh(m, mid, d, w);
        UPageFrame(mid, d, w);
      } else {
        assert Fresh(mid, r, d, w);
      }
    }
  }

  lemma UPageFrame(m: Mem, d: nat, v: nat)
    requires Inv(m) && IsDir(m, d) && v < USER_LIMIT_PAGE && UEntry(m, d, v) != 0
    ensures v > 0 && FrameOf(UEntry(m, d, v)) < |m.owner| && m.owner[FrameOf(UEntry(m, d, v))] == UPage(d, v)
  {
    assert NamesOwn(m, UPage(d, v));
  }

  /** Mapping the holes among pages 1 .. v keeps the invariant, gives every such hole a fresh,
      cleared frame of its own, and leaves every other translation and frame alone. */
  lemma {:induction false} FillKeeps(m: Mem, d: nat, n: nat, v: nat)
    requires Inv(m) && IsDir(m, d) && FillFits(m, d, n) && 1 <= v <= USER_LIMIT_PAGE && Holes(m, d, v) <= n
    ensures var r := Fill(m, d, v);
      Inv(r) && IsDir(r, d) && FillEffect(m, r, d, 1, v)
    decreases v
  {
    hide Inv, MapStep, UEntry, SpaceOnly, OnlyTakes, Fresh, StepFits;
    if v == 1 {
      FillEffectNone(m, d, 1);
    } else {
      FillKeeps(m, d, n, v - 1);
      var prev := Fill(m, d, v - 1);
      assert UEntry(prev, d, v - 1) == UEntry(m, d, v - 1);
      InvShape(m);
      InvShape(prev);
      if UEntry(m, d, v - 1) == 0 {
        assert StepFits(prev, d, v - 1);
        var r := MapStep(prev, d, v - 1);
        MapStepEffect(prev, d, v - 1);
        InvShape(r);
        FillEffectJoin(m, prev, r, d, 1, v - 1);
      } else {
        assert FillEffect(m, prev, d, 1, v);
      }
    }
  }

  lemma {:induction false} HolesMonotone(m: Mem, d: nat, v: nat, w: nat)
    requires 1 <= v <= w
    ensures Holes(m, d, v) <= Holes(m, d, w) <= Holes(m, d, v) + (w - v)
    ensures Holes(m, d, w) == Holes(m, d, v) + (w - v) <==> forall p: nat :: v <= p < w ==> UEntry(m, d, p) == 0
    decreases w
  {
    hide UEntry;
    if v < w {
      HolesMonotone(m, d, v, w - 1);
    }
  }

  // The scan for n pages ends behind page end - 1: that page is the n-th hole.
  ghost predicate ScanEnds(m: Mem, d: nat, n: nat, end: nat) {
    1 < end <= USER_LIMIT_PAGE && Holes(m, d, end) == n && UEntry(m, d, end - 1) == 0
  }

  /** The scan of sys_mmap ends in the user half if and only if the length is positive and the user
      half has that many holes; otherwise it goes on into the kernel's tables. */
  lemma ScanEndsInUserHalfIff(m: Mem, d: nat, n: nat)
    ensures (exists end: nat :: ScanEnds(m, d, n, end)) <==> 1 <= n <= Holes(m, d, USER_LIMIT_PAGE)
  {
    hide UEntry;
    if end: nat :| ScanEnds(m, d, n, end) {
      assert Holes(m, d, end) >= 1;
      HolesMonotone(m, d, end, USER_LIMIT_PAGE);
    }
    if 1 <= n <= Holes(m, d, USER_LIMIT_PAGE) {
      var end := NthHole(m, d, n, USER_LIMIT_PAGE);
    }
  }

  lemma {:induction false} NthHole(m: Mem, d: nat, n: nat, v: nat) returns (end: nat)
    requires 1 <= v <= USER_LIMIT_PAGE && 1 <= n <= Holes(m, d, v)
    ensures end <= v && ScanEnds(m, d, n, end)
    decreases v
  {
    hide UEntry;
    if n <= Holes(m, d, v - 1) {
      end := NthHole(m, d, n, v - 1);
    } else {
      end := v;
    }
  }

  // The lowest hole among pages 1 .. v, 0 when there is none.
  function FirstHole(m: Mem, d: nat, v: nat): nat
    decreases v
  {
    if v <= 1 then 0
    else if FirstHole(m, d, v - 1) != 0 then FirstHole(m, d, v - 1)
    else if UEntry(m, d, v - 1) == 0 then v - 1 else 0
  }

  lemma {:induction false} FirstHoleIsLeast(m: Mem, d: nat, v: nat)
    ensures var p := FirstHole(m, d, v);
      && (p == 0 <==> Holes(m, d, v) == 0)
      && (p != 0 ==> 1 <= p < v && UEntry(m, d, p) == 0 && Holes(m, d, p) == 0)
      && (forall w: nat :: 1 <= w < v && UEntry(m, d, w) == 0 ==> p != 0 && p <= w)
    decreases v
  {
    hide UEntry;
    if v > 1 {
      FirstHoleIsLeast(m, d, v - 1);
    }
  }

  // Whether the pages newly mapped when the holes below `end` are filled are the n pages from the
  // lowest one on, which is what a caller that got this address relies on.
  ghost predicate Contiguous(m: Mem, d: nat, n: nat, end: nat) {
    forall v: nat :: FirstHole(m, d, end) <= v < FirstHole(m, d, end) + n <==> 1 <= v < end && UEntry(m, d, v) == 0
  }

  /** The range returned by sys_mmap is contiguous exactly when the n holes it filled follow each
      other, that is, when the scan ended n pages after the first hole. */
  lemma ContiguousIffConsecutive(m: Mem, d: nat, n: nat, end: nat)
    requires n >= 1 && end >= 1 && Holes(m, d, end) == n && UEntry(m, d, end - 1) == 0
    ensures Contiguous(m, d, n, end) <==> end == FirstHole(m, d, end) + n
  {
    hide UEntry;
    FirstHoleIsLeast(m, d, end);
    var first := FirstHole(m, d, end);
    HolesMonotone(m, d, first, end);
    if Contiguous(m, d, n, end) {
      assert first <= end - 1 < first + n;
      assert first <= first + n - 1 < first + n;
    }
  }

  // From m to r task d came to reach the pages that were holes below page `end`, in frames that were
  // free and read as zero; addr is the lowest address it came to reach; what it reached before it
  // reaches as before.
  ghost predicate MmapServes(m: Mem, r: Mem, d: nat, addr: int, end: nat) {
    && d < |m.ram| && d < |r.ram| && |r.ram[d]| == ENTRIES && 0 < addr < 0xC000_0000
    && addr % 0x1000 == 0 && !UserMay(m.ram, m.ram[d], addr) && UserMay(r.ram, r.ram[d], addr)
    && (forall p: nat :: p < 0xC000_0000 ==>
          (UserMay(r.ram, r.ram[d], p) <==> UserMay(m.ram, m.ram[d], p) || 0x1000 <= p < end * 0x1000))
    && (forall p: nat :: 0x1000 <= p < end * 0x1000 && !UserMay(m.ram, m.ram[d], p) ==> addr <= p && FreshByte(m, r, d, p))
    && (forall p: nat :: p < 0xC000_0000 && UserMay(m.ram, m.ram[d], p) ==>
          Physical(r.ram, r.ram[d], p) == Physical(m.ram, m.ram[d], p))
  }

  // The byte at p goes to a frame that was free and is all zero.
  ghost predicate FreshByte(m: Mem, r: Mem, d: nat, p: nat)
    requires d < |r.ram|
  {
    var f := Physical(r.ram, r.ram[d], p) / 0x1000;
    IsFree(m, f) && f < |r.ram| && r.ram[f] == ZeroPage()
  }

  // What task d reaches at p, by pages.
  lemma ReachOf(m: Mem, d: nat, p: nat)
    requires Inv(m) && IsDir(m, d) && p < 0xC000_0000
    ensures d < |m.ram| && |m.ram[d]| == ENTRIES && p / 0x1000 < USER_LIMIT_PAGE
    ensures UserMay(m.ram, m.ram[d], p) <==> UEntry(m, d, p / 0x1000) != 0
    ensures UserMay(m.ram, m.ram[d], p) ==>
      var a := Physical(m.ram, m.ram[d], p);
      && a / 0x1000 == FrameOf(UEntry(m, d, p / 0x1000)) && a == FrameOf(UEntry(m, d, p / 0x1000)) * 0x1000 + p % 0x1000
      && p >= 0x1000
  {
    UserReachesMapped(m, d, p);
    hide Linked, UEntry, UserMay;
    assert UEntry(m, d, 0) == 0;
  }

  /** sys_mmap, by addresses: the task comes to read and write exactly the first n pages it could not
      reach, and the address returned is the lowest of them. */
  lemma FillReaches(m: Mem, d: nat, n: nat, end: nat)
    requires Inv(m) && IsDir(m, d) && FillFits(m, d, n) && n >= 1 && ScanEnds(m, d, n, end)
    ensures Inv(Fill(m, d, end)) && IsDir(Fill(m, d, end), d)
    ensures MmapServes(m, Fill(m, d, end), d, FirstHole(m, d, end) * PAGE_SIZE, end)
  {
    hide Inv, Fill, UEntry, UserMay, Physical, FirstHole, Holes, FillEffect, FillFits, FreshByte;
    FillKeeps(m, d, n, end);
    FirstHoleIsLeast(m, d, end);
    var r, first := Fill(m, d, end), FirstHole(m, d, end);
    forall p: nat | p < 0xC000_0000
      ensures d < |m.ram| && d < |r.ram| && |r.ram[d]| == ENTRIES
      ensures UserMay(r.ram, r.ram[d], p) <==> UserMay(m.ram, m.ram[d], p) || 0x1000 <= p < end * 0x1000
      ensures 0x1000 <= p < end * 0x1000 && !UserMay(m.ram, m.ram[d], p) ==> first * PAGE_SIZE <= p && FreshByte(m, r, d, p)
      ensures UserMay(m.ram, m.ram[d], p) ==> Physical(r.ram, r.ram[d], p) == Physical(m.ram, m.ram[d], p)
    {
      ByteReached(m, r, d, end, p);
    }
    ReachOf(m, d, first * PAGE_SIZE);
    ReachOf(r, d, first * PAGE_SIZE);
  }

  lemma ByteReached(m: Mem, r: Mem, d: nat, end: nat, p: nat)
    requires Inv(m) && IsDir(m, d) && Inv(r) && IsDir(r, d) && 1 <= end <= USER_LIMIT_PAGE && FillEffect(m, r, d, 1, end)
    requires p < 0xC000_0000
    ensures d < |m.ram| && d < |r.ram| && |r.ram[d]| == ENTRIES
    ensures UserMay(r.ram, r.ram[d], p) <==> UserMay(m.ram, m.ram[d], p) || 0x1000 <= p < end * 0x1000
    ensures 0x1000 <= p < end * 0x1000 && !UserMay(m.ram, m.ram[d], p) ==> UEntry(m, d, p / 0x1000) == 0 && FreshByte(m, r, d, p)
    ensures UserMay(m.ram, m.ram[d], p) ==> Physical(r.ram, r.ram[d], p) == Physical(m.ram, m.ram[d], p)
  {
    ReachOf(m, d, p);
    ReachOf(r, d, p);
    hide Inv, UEntry, UserMay, Physical, SpaceOnly, ContentsKept, OnlyTakes, FreshByte;
    if 0x1000 <= p < end * 0x1000 && !UserMay(m.ram, m.ram[d], p) {
      assert Fresh(m, r, d, p / 0x1000);
      FreshMeans(m, r, d, p);
    }
  }

  lemma FreshMeans(m: Mem, r: Mem, d: nat, p: nat)
    requires Inv(r) && IsDir(r, d) && p < 0xC000_0000 && Fresh(m, r, d, p / 0x1000)
    ensures d < |r.ram| && FreshByte(m, r, d, p)
  {
    ReachOf(r, d, p);
    hide Inv, UEntry, UserMay, Physical;
  }

  /** sys_mmap, for a positive length whose holes lie below directory entry 768: the first n holes
      in address order are mapped, and the lowest of them is returned. */
  method SysMmap(machine: Machine, d: nat, len: nat) returns (addr: int, ghost end: nat)
    requires machine.Valid() && IsDir(machine.View(), d) && len > 0
    requires PagesFor(len) <= Holes(machine.View(), d, USER_LIMIT_PAGE) && FillFits(machine.View(), d, PagesFor(len))
    modifies machine, machine.bitmap.bytes
    ensures machine.Coherent() && machine.View() == Fill(old(machine.View()), d, end)
    ensures ScanEnds(old(machine.View()), d, PagesFor(len), end) && addr == FirstHole(old(machine.View()), d, end) * PAGE_SIZE
    ensures machine.Valid() && MmapServes(old(machine.View()), machine.View(), d, addr, end)
  {
    hide MmapServes, Linked, HeapMapAgrees, SharesKernelHalf;
    hide Inv, UEntry, FillFits, Fill;
    ghost var m := machine.View();
    assert Fill(m, d, 1) == m by { FillNone(m, d); }
    var totalPages := len / PAGE_SIZE;
    if len % PAGE_SIZE > 0 {
      totalPages := totalPages + 1;
    }
    var mapped := 0;
    addr := 0;
    var pde, pte := 0, 1;
    while pde < ENTRIES
      invariant 0 <= pde <= ENTRIES && pte == if pde == 0 then 1 else 0
      invariant machine.Coherent() && machine.View() == Fill(m, d, pde * ENTRIES + pte)
      invariant mapped == Holes(m, d, pde * ENTRIES + pte) < totalPages
      invariant addr == FirstHole(m, d, pde * ENTRIES + pte) * PAGE_SIZE
    {
      while pte < ENTRIES
        invariant 0 <= pte <= ENTRIES && pde * ENTRIES + pte >= 1
        invariant machine.Coherent() && machine.View() == Fill(m, d, pde * ENTRIES + pte)
        invariant mapped == Holes(m, d, pde * ENTRIES + pte) < totalPages
        invariant addr == FirstHole(m, d, pde * ENTRIES + pte) * PAGE_SIZE
      {
        ghost var v := pde * ENTRIES + pte;
        var filled := MapIfHole(machine, m, d, totalPages, pde, pte);
        FirstHoleIsLeast(m, d, v);
        if filled {
          if mapped == 0 {
            addr := (pde * ENTRIES + pte) * PAGE_SIZE;
          }
          mapped := mapped + 1;
          if mapped == totalPages {
            end := v + 1;
            FillReaches(m, d, totalPages, end);
            return;
          }
        }
        pte := pte + 1;
      }
      pte := 0;
      pde := pde + 1;
    }
    HolesMonotone(m, d, USER_LIMIT_PAGE, ENTRIES * ENTRIES);
    assert false;
  }

  // The body of the inner loop.
  method MapIfHole(machine: Machine, ghost m: Mem, d: nat, n: nat, pde: nat, pte: nat) returns (filled: bool)
    requires Inv(m) && IsDir(m, d) && FillFits(m, d, n) && Holes(m, d, USER_LIMIT_PAGE) >= n
    requires machine.Coherent() && pte < ENTRIES && pde * ENTRIES + pte >= 1
    requires Holes(m, d, pde * ENTRIES + pte) < n && machine.View() == Fill(m, d, pde * ENTRIES + pte)
    modifies machine, machine.bitmap.bytes
    ensures pde * ENTRIES + pte < USER_LIMIT_PAGE
    ensures machine.Coherent() && machine.View() == Fill(m, d, pde * ENTRIES + pte + 1)
    ensures filled <==> UEntry(m, d, pde * ENTRIES + pte) == 0
  {
    hide Inv, Holes, StepFits, MapStep, UEntry, FillEffect;
    ghost var v := pde * ENTRIES + pte;
    assert v < USER_LIMIT_PAGE by {
      if v >= USER_LIMIT_PAGE {
        HolesMonotone(m, d, USER_LIMIT_PAGE, v);
      }
    }
    ghost var cur := machine.View();
    assert UEntry(cur, d, v) == UEntry(m, d, v) && d < |cur.ram| && |cur.ram| == |cur.owner| by {
      FillKeeps(m, d, n, v);
      FillLeavesRest(m, cur, d, v);
      InvShape(cur);
    }
    FillUnfolds(m, d, v);
    var word := Peek(machine.ram, d, pde);
    EntryWord(cur, d, pde, pte);
    if word == 0 {
      assert StepFits(cur, d, v);
      MapWithTable(machine, d, pde, pte);
      filled := true;
    } else if Peek(machine.ram, FrameOf(word), pte) == 0 {
      assert StepFits(cur, d, v);
      MapInTable(machine, d, pde, pte);
      filled := true;
    } else {
      filled := false;
    }
  }

  lemma FillLeavesRest(m: Mem, r: Mem, d: nat, v: nat)
    requires FillEffect(m, r, d, 1, v) && v < USER_LIMIT_PAGE
    ensures UEntry(r, d, v) == UEntry(m, d, v)
  {
  }

  lemma FillNone(m: Mem, d: nat)
    ensures Fill(m, d, 1) == m
  {
  }

  lemma FillUnfolds(m: Mem, d: nat, v: nat)
    requires v >= 1
    ensures var prev := Fill(m, d, v);
      Fill(m, d, v + 1) == if UEntry(prev, d, v) == 0 then MapStep(prev, d, v) else prev
  {
  }

  lemma EntryWord(m: Mem, d: nat, pde: nat, pte: nat)
    requires d < |m.ram| && pte < ENTRIES
    ensures UEntry(m, d, pde * ENTRIES + pte) ==
      if Peek(m.ram, d, pde) == 0 then 0 else Peek(m.ram, FrameOf(Peek(m.ram, d, pde)), pte)
  {
    assert (pde * ENTRIES + pte) / ENTRIES == pde && (pde * ENTRIES + pte) % ENTRIES == pte;
  }

  // The branch for a directory entry without a table.
  method MapWithTable(machine: Machine, d: nat, pde: nat, pte: nat)
    requires machine.Coherent() && pte < ENTRIES && StepFits(machine.View(), d, pde * ENTRIES + pte)
    requires pde < ENTRIES && Peek(machine.ram, d, pde) == 0
    modifies machine, machine.bitmap.bytes
    ensures machine.Coherent() && machine.View() == MapStep(old(machine.View()), d, pde * ENTRIES + pte)
  {
    ghost var v := pde * ENTRIES + pte;
    assert v / ENTRIES == pde && v % ENTRIES == pte;
    var table := AddTable(machine, d, pde);
    var page := machine.TakeFrame(UPage(d, v));
    machine.Store(table, pte, Word(page, USER_FLAGS));
  }

  method AddTable(machine: Machine, d: nat, pde: nat) returns (table: nat)
    requires machine.Coherent() && d < |machine.ram| && pde < ENTRIES && FirstFree(machine.owner) < |machine.owner|
    modifies machine, machine.bitmap.bytes
    ensures machine.Coherent() && table == FirstFree(old(machine.owner))
    ensures machine.View() == AddUTable(old(machine.View()), d, pde, table)
    ensures machine.owner == old(machine.owner)[table := UTable(d, pde)]
    ensures FrameOf(Peek(machine.ram, d, pde)) == table
  {
    table := machine.TakeFrame(UTable(d, pde));
    machine.Store(d, pde, Word(table, USER_FLAGS));
  }

  // The branch for a hole in an existing table.
  method MapInTable(machine: Machine, d: nat, pde: nat, pte: nat)
    requires machine.Coherent() && pte < ENTRIES && StepFits(machine.View(), d, pde * ENTRIES + pte)
    requires Peek(machine.ram, d, pde) != 0
    modifies machine, machine.bitmap.bytes
    ensures machine.Coherent() && machine.View() == MapStep(old(machine.View()), d, pde * ENTRIES + pte)
  {
    ghost var v := pde * ENTRIES + pte;
    assert v / ENTRIES == pde && v % ENTRIES == pte;
    var table := FrameOf(Peek(machine.ram, d, pde));
    var page := machine.TakeFrame(UPage(d, v));
    machine.Store(table, pte, Word(page, USER_FLAGS));
  }
}
