/** sys_munmap and its round trip with sys_mmap (kernel/syscall/munmap.c). */
module Munmap {
  import opened Paging
  import opened Memory
  import opened Machine
  import opened UserSpace
  import opened Access

  // The c-th page the two nested loops visit: after table index 1023 the next table is entered at
  // the table index of `start`, not at 0.
  function Victim(start: nat, c: nat): nat {
    if c == 0 then start else
      var prev := Victim(start, c - 1);
      if PteIndex(prev) == ENTRIES - 1 then (PdeIndex(prev) + 1) * ENTRIES + PteIndex(start) else prev + 1
  }

  lemma {:induction false} VictimInRange(start: nat, c: nat)
    requires PteIndex(start) == 0 || PteIndex(start) + c < ENTRIES
    ensures Victim(start, c) == start + c
  {
    if c > 0 {
      VictimInRange(start, c - 1);
    }
  }

  /** The loops visit the n pages that follow `start` exactly when the range starts at table index
      0 or stays inside one table. */
  lemma VictimsAreTheRange(start: nat, n: nat)
    ensures (forall c: nat :: c < n ==> Victim(start, c) == start + c) <==>
      PteIndex(start) == 0 || PteIndex(start) + n <= ENTRIES
  {
    var last := ENTRIES - PteIndex(start) - 1;
    if PteIndex(start) == 0 || PteIndex(start) + n <= ENTRIES {
      forall c: nat | c < n ensures Victim(start, c) == start + c {
        VictimInRange(start, c);
      }
    } else {
      VictimSkips(start);
      hide Victim;
      assert Victim(start, last + 1) != start + (last + 1);
    }
  }

  // The first page of the next table is entered too far in.
  lemma VictimSkips(start: nat)
    ensures var last := ENTRIES - PteIndex(start) - 1;
      Victim(start, last + 1) == start + last + 1 + PteIndex(start)
  {
    var last := ENTRIES - PteIndex(start) - 1;
    LastOfTable(start);
    hide PteIndex, PdeIndex, Victim;
    VictimInRange(start, last);
    NextTable(start, last);
  }

  // The last page of the table `start` lies in.
  lemma LastOfTable(start: nat)
    ensures var last := ENTRIES - PteIndex(start) - 1;
      && last >= 0 && start == PdeIndex(start) * ENTRIES + PteIndex(start)
      && PteIndex(start + last) == ENTRIES - 1 && PdeIndex(start + last) == PdeIndex(start)
  {
  }

  lemma NextTable(start: nat, c: nat)
    requires PteIndex(Victim(start, c)) == ENTRIES - 1
    ensures Victim(start, c + 1) == (PdeIndex(Victim(start, c)) + 1) * ENTRIES + PteIndex(start)
  {
  }

  /** The visited pages are pairwise distinct, in ascending order. */
  lemma {:induction false} VictimsAscend(start: nat, b: nat, c: nat)
    requires b < c
    ensures Victim(start, b) < Victim(start, c)
    decreases c
  {
    if b < c - 1 {
      VictimsAscend(start, b, c - 1);
    }
  }

  // ---- The memory after the first c visited pages ----

  function Unmap(m: Mem, d: nat, start: nat, c: nat): Mem {
    if c == 0 then m else DropUPage(Unmap(m, d, start, c - 1), d, Victim(start, c - 1))
  }

  ghost predicate Visited(start: nat, n: nat, v: nat) {
    exists c: nat :: c < n && Victim(start, c) == v
  }

  ghost predicate OnlyTablesWritten(m: Mem, r: Mem)
    requires |r.ram| == |m.ram|
  {
    forall g :: 0 <= g < |m.owner| && g < |m.ram| && !m.owner[g].UTable? ==> r.ram[g] == m.ram[g]
  }

  // Exactly the pages visited lost their translation and frame.
  ghost predicate UnmapEffect(m: Mem, r: Mem, d: nat, start: nat, n: nat) {
    && SpaceOnly(m, r, d) && OnlyTablesWritten(m, r)
    && (forall v: nat :: v < USER_LIMIT_PAGE ==> UEntry(r, d, v) == if Visited(start, n, v) then 0 else UEntry(m, d, v))
    && (forall i: nat :: Slot(r, UTable(d, i)) == Slot(m, UTable(d, i)))
    && (forall g :: 0 <= g < |m.owner| ==>
          r.owner[g] == if m.owner[g].UPage? && m.owner[g].dir == d && Visited(start, n, m.owner[g].page) then Free else m.owner[g])
  }

  ghost predicate AllMapped(m: Mem, d: nat, start: nat, n: nat) {
    forall c: nat :: c < n ==> Victim(start, c) < USER_LIMIT_PAGE && UEntry(m, d, Victim(start, c)) != 0
  }

  // One page dropped.
  ghost predicate DropEffect(m: Mem, r: Mem, d: nat, v: nat) {
    && SpaceOnly(m, r, d) && OnlyTablesWritten(m, r)
    && (forall w: nat :: w < USER_LIMIT_PAGE ==> UEntry(r, d, w) == if w == v then 0 else UEntry(m, d, w))
    && (forall i: nat :: Slot(r, UTable(d, i)) == Slot(m, UTable(d, i)))
    && (forall g :: 0 <= g < |m.owner| ==> r.owner[g] == if m.owner[g] == UPage(d, v) then Free else m.owner[g])
  }

  lemma DropStep(m: Mem, d: nat, v: nat)
    requires Inv(m) && IsDir(m, d) && v < USER_LIMIT_PAGE && UEntry(m, d, v) != 0
    ensures FrameOf(UEntry(m, d, v)) < |m.owner|
    ensures var r := DropUPage(m, d, v);
      Inv(r) && IsDir(r, d) && DropEffect(m, r, d, v)
  {
    DropUPageKeeps(m, d, v);
    TableOfUPage(m, d, v);
    var r := DropUPage(m, d, v);
    assert Slot(r, UPage(d, v)) == 0;
    forall w: nat | w < USER_LIMIT_PAGE && w != v ensures UEntry(r, d, w) == UEntry(m, d, w) {
      assert Slot(r, UPage(d, w)) == Slot(m, UPage(d, w));
    }
    forall g | 0 <= g < |m.owner| ensures r.owner[g] == if m.owner[g] == UPage(d, v) then Free else m.owner[g] {
      assert OwnIsNamed(m, g);
    }
  }

  lemma UnmapEffectNone(m: Mem, d: nat, start: nat)
    ensures UnmapEffect(m, m, d, start, 0)
  {
  }

  lemma VisitedSnoc(start: nat, n: nat, v: nat)
    ensures Visited(start, n + 1, v) <==> Visited(start, n, v) || v == Victim(start, n)
  {
    hide Victim;
    if v == Victim(start, n) {
      assert Visited(start, n + 1, v);
    }
  }

  lemma UnmapEffectSnoc(m: Mem, mid: Mem, r: Mem, d: nat, start: nat, n: nat)
    requires Shape(m) && Shape(mid) && Shape(r)
    requires UnmapEffect(m, mid, d, start, n) && DropEffect(mid, r, d, Victim(start, n))
    ensures UnmapEffect(m, r, d, start, n + 1)
  {
    hide UEntry, Slot, Victim, Visited;
    forall v: nat ensures Visited(start, n + 1, v) <==> Visited(start, n, v) || v == Victim(start, n) {
      VisitedSnoc(start, n, v);
    }
  }

  /** sys_munmap of mapped pages keeps the invariant, removes exactly the visited translations,
      frees exactly their frames and changes nothing else. */
  lemma {:induction false} UnmapKeeps(m: Mem, d: nat, start: nat, n: nat)
    requires Inv(m) && IsDir(m, d) && AllMapped(m, d, start, n)
    ensures var r := Unmap(m, d, start, n);
      Inv(r) && IsDir(r, d) && UnmapEffect(m, r, d, start, n)
    decreases n
  {
    hide Inv, DropUPage, DropEffect, UEntry, SpaceOnly, OnlyTablesWritten, Slot, Victim;
    if n == 0 {
      UnmapEffectNone(m, d, start);
    } else {
      UnmapKeeps(m, d, start, n - 1);
      var mid := Unmap(m, d, start, n - 1);
      NextVictimIsMapped(m, mid, d, start, n - 1);
      DropStep(mid, d, Victim(start, n - 1));
      InvShape(m);
      InvShape(mid);
      var r := DropUPage(mid, d, Victim(start, n - 1));
      InvShape(r);
      UnmapEffectSnoc(m, mid, r, d, start, n - 1);
    }
  }

  /** sys_munmap of mapped pages, by addresses: ring 3 no longer reaches the bytes of the pages visited,
      and reaches every other byte as before. */
  lemma UnmapReaches(m: Mem, d: nat, start: nat, n: nat, p: nat)
    requires Inv(m) && IsDir(m, d) && AllMapped(m, d, start, n) && p < 0xC000_0000
    ensures var r := Unmap(m, d, start, n);
      && d < |m.ram| && d < |r.ram|
      && (UserMay(r.ram, r.ram[d], p) <==> UserMay(m.ram, m.ram[d], p) && !Visited(start, n, p / 0x1000))
      && (UserMay(r.ram, r.ram[d], p) ==> Physical(r.ram, r.ram[d], p) == Physical(m.ram, m.ram[d], p))
  {
    UnmapKeeps(m, d, start, n);
    ReachOf(m, d, p);
    ReachOf(Unmap(m, d, start, n), d, p);
    hide Inv, Unmap, UEntry, UserMay, Physical, Visited, SpaceOnly, AllMapped;
  }

  lemma NextVictimIsMapped(m: Mem, mid: Mem, d: nat, start: nat, c: nat)
    requires UnmapEffect(m, mid, d, start, c)
    requires Victim(start, c) < USER_LIMIT_PAGE && UEntry(m, d, Victim(start, c)) != 0
    ensures UEntry(mid, d, Victim(start, c)) != 0
  {
    hide Victim, UEntry;
    if Visited(start, c, Victim(start, c)) {
      var b: nat :| b < c && Victim(start, b) == Victim(start, c);
      VictimsAscend(start, b, c);
    }
  }

  /** Unmapping a page that is not mapped stores 0 over a zero word, and passes address 0 to
      pmm_free: frame 0 is freed. */
  lemma MunmapOfUnmappedFreesFrameZero(m: Mem, d: nat, v: nat)
    requires |m.owner| > 0 && Peek(m.ram, d, PdeIndex(v)) != 0 && UEntry(m, d, v) == 0
    ensures DropUPage(m, d, v).owner == m.owner[0 := Free]
  {
  }

  // No frame changes hands but the one mapped at v.
  ghost predicate FreesOwnOnly(m: Mem, d: nat, v: nat) {
    forall g :: 0 <= g < |m.owner| && DropUPage(m, d, v).owner[g] != m.owner[g] ==> m.owner[g] == UPage(d, v)
  }

  /** A step of sys_munmap frees no frame but the one mapped at v exactly when v is mapped, given
      that frame 0 is reserved (as it is at boot).  Without a page table the code takes a word of
      frame 0 for the page's, and is harmless exactly when that word names no frame in use. */
  lemma FreesOwnFrameIffMapped(m: Mem, d: nat, v: nat)
    requires Inv(m) && IsDir(m, d) && v < USER_LIMIT_PAGE && |m.owner| > 0 && m.owner[0] == Reserved
    ensures Peek(m.ram, d, PdeIndex(v)) != 0 ==> (FreesOwnOnly(m, d, v) <==> UEntry(m, d, v) != 0)
    ensures Peek(m.ram, d, PdeIndex(v)) == 0 ==>
      (FreesOwnOnly(m, d, v) <==> var f := FrameOf(m.ram[0][PteIndex(v)]); f >= |m.owner| || m.owner[f] == Free)
  {
    hide Linked;
    if Peek(m.ram, d, PdeIndex(v)) == 0 {
      NoTableNoPage(m, d, v);
    } else if UEntry(m, d, v) != 0 {
      UPageFrame(m, d, v);
    } else {
      MunmapOfUnmappedFreesFrameZero(m, d, v);
    }
  }

  lemma NoTableNoPage(m: Mem, d: nat, v: nat)
    requires Inv(m) && Peek(m.ram, d, PdeIndex(v)) == 0
    ensures UPage(d, v) !in m.owner
  {
    forall g: nat | g < |m.owner| ensures m.owner[g] != UPage(d, v) {
      assert OwnIsNamed(m, g);
    }
  }

  /** sys_munmap undoes a contiguous sys_mmap that starts at table index 0 or stays inside one
      table: every translation is as before, and the only frames still taken are page tables. */
  lemma MunmapUndoesMmap(m: Mem, d: nat, n: nat, end: nat)
    requires Inv(m) && IsDir(m, d) && FillFits(m, d, n) && n >= 1 && ScanEnds(m, d, n, end) && Contiguous(m, d, n, end)
    requires PteIndex(FirstHole(m, d, end)) == 0 || PteIndex(FirstHole(m, d, end)) + n <= ENTRIES
    ensures AllMapped(Fill(m, d, end), d, FirstHole(m, d, end), n)
    ensures var r := Unmap(Fill(m, d, end), d, FirstHole(m, d, end), n);
      && Inv(r) && IsDir(r, d) && SpaceOnly(m, r, d) && |r.owner| == |m.owner|
      && (forall v: nat :: v < USER_LIMIT_PAGE ==> UEntry(r, d, v) == UEntry(m, d, v))
      && (forall g :: 0 <= g < |m.owner| ==>
            r.owner[g] == m.owner[g] || (m.owner[g] == Free && r.owner[g].UTable? && r.owner[g].dir == d))
  {
    hide Inv, UEntry, Slot, Victim, Fill, Unmap, Holes, FirstHole, FillFits, OnlyTablesWritten, ContentsKept;
    var first := FirstHole(m, d, end);
    var p := Fill(m, d, end);
    FillKeeps(m, d, n, end);
    VictimsAreTheRange(first, n);
    forall c: nat | c < n
      ensures Victim(first, c) < USER_LIMIT_PAGE && UEntry(p, d, Victim(first, c)) != 0
    {
      assert first <= first + c < first + n;
      assert Fresh(m, p, d, first + c);
    }
    UnmapKeeps(p, d, first, n);
    var r := Unmap(p, d, first, n);
    forall v: nat ensures Visited(first, n, v) <==> first <= v < first + n {
      if Visited(first, n, v) {
        var c: nat :| c < n && Victim(first, c) == v;
        assert Victim(first, c) == first + c;
      }
      if first <= v < first + n {
        assert Victim(first, v - first) == v;
      }
    }
    forall g | 0 <= g < |m.owner|
      ensures r.owner[g] == m.owner[g] || (m.owner[g] == Free && r.owner[g].UTable? && r.owner[g].dir == d)
    {
      FillOwners(m, p, d, end, g);
    }
  }

  // Filling holes gives free frames to tables of d and to holes of d, and to nothing else.
  lemma FillOwners(m: Mem, p: Mem, d: nat, end: nat, g: nat)
    requires Inv(m) && Inv(p) && IsDir(m, d) && IsDir(p, d) && 1 <= end <= USER_LIMIT_PAGE
    requires FillEffect(m, p, d, 1, end) && g < |m.owner|
    ensures p.owner[g] == m.owner[g] || (m.owner[g] == Free && (p.owner[g].UTable? || p.owner[g].UPage?) && p.owner[g].dir == d)
    ensures p.owner[g] != m.owner[g] && p.owner[g].UPage? ==> 1 <= p.owner[g].page < end && UEntry(m, d, p.owner[g].page) == 0
    ensures m.owner[g].UPage? && m.owner[g].dir == d ==> UEntry(m, d, m.owner[g].page) != 0 && m.owner[g].page < USER_LIMIT_PAGE
  {
    assert OwnIsNamed(m, g) && OwnIsNamed(p, g) && NamesOwn(m, p.owner[g]);
  }

  // ---- The undo across tables ----

  // The directory d and word 0 of every frame are as they were.
  ghost predicate HeadsKept(m: Mem, r: Mem, d: nat)
    requires d < |m.ram|
  {
    && |r.ram| == |m.ram| && r.ram[d] == m.ram[d]
    && (forall g :: 0 <= g < |m.ram| ==> |r.ram[g]| == |m.ram[g]| && (|m.ram[g]| > 0 ==> r.ram[g][0] == m.ram[g][0]))
  }

  // No word of the directory names the directory.
  ghost predicate NoSelf(m: Mem, d: nat) {
    d != 0 && d < |m.ram| && forall i :: 0 <= i < |m.ram[d]| ==> FrameOf(m.ram[d][i]) != d
  }

  lemma {:induction false} VictimIndex(start: nat, c: nat)
    ensures PteIndex(Victim(start, c)) >= PteIndex(start)
  {
    if c > 0 {
      VictimIndex(start, c - 1);
    }
  }

  // Past the first table the loops never clear word 0 of a table.
  lemma {:induction false} UnmapKeepsHeads(m: Mem, d: nat, start: nat, c: nat)
    requires NoSelf(m, d) && PteIndex(start) > 0
    ensures HeadsKept(m, Unmap(m, d, start, c), d)
    decreases c
  {
    hide Victim, PteIndex, PdeIndex;
    if c > 0 {
      UnmapKeepsHeads(m, d, start, c - 1);
      VictimIndex(start, c - 1);
    }
  }

  lemma HeadEntrySame(m: Mem, r: Mem, d: nat, u: nat)
    requires d < |m.ram| && HeadsKept(m, r, d) && PteIndex(u) == 0
    ensures UEntry(r, d, u) == UEntry(m, d, u)
  {
  }

  lemma DirectoryIsNoTable(m: Mem, d: nat)
    requires Inv(m) && IsDir(m, d) && m.owner[0] == Reserved
    requires forall i :: USER_LIMIT_PDE <= i < ENTRIES ==> FrameOf(m.kpd[i]) != d
    ensures NoSelf(m, d)
  {
    forall i | 0 <= i < |m.ram[d]| ensures FrameOf(m.ram[d][i]) != d {
      if i < USER_LIMIT_PDE {
        assert NamesOwn(m, UTable(d, i)) && Slot(m, UTable(d, i)) == m.ram[d][i];
      } else {
        assert FrameOf(m.kpd[i]) != d;
      }
    }
  }

  /** sys_munmap undoes a contiguous sys_mmap if and only if the range starts at table index 0 or
      stays inside one table: otherwise the first page of the next table stays mapped.  The page
      directory is none of its own tables, and frame 0 is reserved, as at boot. */
  lemma MunmapUndoesMmapIff(m: Mem, d: nat, n: nat, end: nat)
    requires Inv(m) && IsDir(m, d) && FillFits(m, d, n) && n >= 1 && ScanEnds(m, d, n, end) && Contiguous(m, d, n, end)
    requires m.owner[0] == Reserved && forall i :: USER_LIMIT_PDE <= i < ENTRIES ==> FrameOf(m.kpd[i]) != d
    ensures var first := FirstHole(m, d, end); var r := Unmap(Fill(m, d, end), d, first, Reach(first, n));
      (forall v: nat :: v < USER_LIMIT_PAGE ==> UEntry(r, d, v) == UEntry(m, d, v)) <==>
      PteIndex(first) == 0 || PteIndex(first) + n <= ENTRIES
  {
    hide Inv, UEntry, Slot, Victim, Fill, Unmap, Holes, FirstHole, FillFits, OnlyTablesWritten, ContentsKept,
      Reach, HeadsKept, NoSelf;
    var first, p := FirstHole(m, d, end), Fill(m, d, end);
    FillKeeps(m, d, n, end);
    if PteIndex(first) == 0 || PteIndex(first) + n <= ENTRIES {
      MunmapUndoesMmap(m, d, n, end);
      MappedPagesFit(p, d, first, n);
    } else {
      DirectoryIsNoTable(p, d);
      UnmapKeepsHeads(p, d, first, Reach(first, n));
      var u := (PdeIndex(first) + 1) * ENTRIES;
      assert first <= u < first + n && PteIndex(u) == 0;
      assert Fresh(m, p, d, u);
      HeadEntrySame(p, Unmap(p, d, first, Reach(first, n)), d, u);
    }
  }

  // ---- The code ----

  /** sys_munmap.  A range that runs past the last directory entry ends there. */
  method SysMunmap(machine: Machine, d: nat, addr: nat, len: nat)
    requires machine.Coherent() && d < |machine.ram| && addr < 0x1_0000_0000
    requires UnmapFits(machine.View(), d, addr / PAGE_SIZE, Reach(addr / PAGE_SIZE, PagesRequired(len)))
    modifies machine, machine.bitmap.bytes
    ensures machine.Coherent()
    ensures machine.View() == Unmap(old(machine.View()), d, addr / PAGE_SIZE, Reach(addr / PAGE_SIZE, PagesRequired(len)))
  {
    hide DropUPage, Shape, Victim, UWord, Unmap, Peek, Area;
    ghost var m := machine.View();
    ghost var start := addr / PAGE_SIZE;
    var currentPages, totalPages := 0, PagesRequired(len);
    var pdeIndex, pteIndex := PdeIndex(addr / PAGE_SIZE), PteIndex(addr / PAGE_SIZE);
    ghost var width := ENTRIES - pteIndex;
    var i := pdeIndex;
    FirstVictim(start);
    UnmapNone(m, d, start);
    AreaStep(0, width);
    while i < ENTRIES
      invariant pdeIndex <= i <= ENTRIES && currentPages == Least(totalPages, Area(i - pdeIndex, width))
      invariant machine.Coherent() && |machine.ram| == |m.ram| && machine.View() == Unmap(m, d, start, currentPages)
      invariant currentPages < totalPages ==> Victim(start, currentPages) == i * ENTRIES + pteIndex
    {
      ghost var before := Area(i - pdeIndex, width);
      var j := pteIndex;
      while j < ENTRIES
        invariant pteIndex <= j <= ENTRIES && currentPages == Least(totalPages, before + (j - pteIndex))
        invariant machine.Coherent() && |machine.ram| == |m.ram| && machine.View() == Unmap(m, d, start, currentPages)
        invariant currentPages < totalPages ==>
          Victim(start, currentPages) == if j < ENTRIES then i * ENTRIES + j else (i + 1) * ENTRIES + pteIndex
      {
        if currentPages >= totalPages {
          break;
        }
        InReach(start, i, j, before, currentPages);
        NextVictim(start, currentPages, i, j);
        UnmapSnoc(m, d, start, currentPages);
        UnmapPage(machine, d, i, j);
        currentPages := currentPages + 1;
        j := j + 1;
      }
      AreaStep(i - pdeIndex, width);
      i := i + 1;
    }
  }

  // The visits that fit below the end of the directory.
  function Reach(start: nat, n: nat): nat {
    if start < ENTRIES * ENTRIES then Least(n, Area(ENTRIES - PdeIndex(start), ENTRIES - PteIndex(start))) else 0
  }

  function Least(a: nat, b: nat): nat { if a <= b then a else b }

  // The number of visits in k tables, w in each.
  function Area(k: nat, w: nat): nat { if k == 0 then 0 else Area(k - 1, w) + w }

  lemma AreaStep(k: nat, w: nat)
    ensures Area(0, w) == 0 && Area(k + 1, w) == Area(k, w) + w
  {
  }

  lemma {:induction false} AreaGrows(k: nat, n: nat, w: nat)
    requires k <= n
    ensures Area(k, w) <= Area(n, w)
    decreases n
  {
    if k < n {
      AreaGrows(k, n - 1, w);
    }
  }

  lemma InReach(start: nat, i: nat, j: nat, before: nat, c: nat)
    requires start < ENTRIES * ENTRIES && PdeIndex(start) <= i < ENTRIES && PteIndex(start) <= j < ENTRIES
    requires before == Area(i - PdeIndex(start), ENTRIES - PteIndex(start)) && c == before + (j - PteIndex(start))
    ensures c < Area(ENTRIES - PdeIndex(start), ENTRIES - PteIndex(start))
  {
    hide PdeIndex, PteIndex;
    AreaGrows(i + 1 - PdeIndex(start), ENTRIES - PdeIndex(start), ENTRIES - PteIndex(start));
  }

  /** With w table indices from that of `start` on, visit number k * w + j is at the j-th of them in
      the k-th table. */
  lemma {:induction false} VictimAt(start: nat, k: nat, j: nat)
    requires j < ENTRIES - PteIndex(start)
    ensures Victim(start, Area(k, ENTRIES - PteIndex(start)) + j) == (PdeIndex(start) + k) * ENTRIES + PteIndex(start) + j
    decreases k, j
  {
    hide Victim;
    var width := ENTRIES - PteIndex(start);
    FirstVictim(start);
    if j > 0 {
      VictimAt(start, k, j - 1);
      NextVictim(start, Area(k, width) + j - 1, PdeIndex(start) + k, PteIndex(start) + j - 1);
    } else if k > 0 {
      VictimAt(start, k - 1, width - 1);
      NextVictim(start, Area(k, width) - 1, PdeIndex(start) + k - 1, ENTRIES - 1);
    }
  }

  lemma UnmapNone(m: Mem, d: nat, start: nat)
    ensures Unmap(m, d, start, 0) == m
  {
  }

  lemma UnmapSnoc(m: Mem, d: nat, start: nat, c: nat)
    ensures Unmap(m, d, start, c + 1) == DropUPage(Unmap(m, d, start, c), d, Victim(start, c))
  {
  }

  lemma FirstVictim(start: nat)
    ensures Victim(start, 0) == PdeIndex(start) * ENTRIES + PteIndex(start)
  {
  }

  lemma NextVictim(start: nat, c: nat, i: nat, j: nat)
    requires Victim(start, c) == i * ENTRIES + j && j < ENTRIES
    ensures Victim(start, c + 1) == if j + 1 < ENTRIES then i * ENTRIES + j + 1 else (i + 1) * ENTRIES + PteIndex(start)
    ensures PdeIndex(Victim(start, c)) == i
  {
  }

  // Every word cleared names a frame of the bitmap (frame 0 when the page is not mapped).
  ghost predicate UnmapFits(m: Mem, d: nat, start: nat, n: nat) {
    forall c: nat :: c < n ==> FrameOf(UWord(Unmap(m, d, start, c), d, Victim(start, c))) < |m.owner|
  }

  /** Mapped pages below directory entry 768 meet what SysMunmap needs, and are all reached. */
  lemma MappedPagesFit(m: Mem, d: nat, start: nat, n: nat)
    requires Inv(m) && IsDir(m, d) && AllMapped(m, d, start, n)
    ensures UnmapFits(m, d, start, n)
    ensures n > 0 ==> Reach(start, n) == n
  {
    if n > 0 {
      AllReached(m, d, start, n);
    }
    hide Inv, UnmapEffect, Victim, Unmap, UEntry, UWord, Reach;
    forall c: nat | c < n ensures FrameOf(UWord(Unmap(m, d, start, c), d, Victim(start, c))) < |m.owner| {
      UnmapKeeps(m, d, start, c);
      var mid := Unmap(m, d, start, c);
      NextVictimIsMapped(m, mid, d, start, c);
      UPageFrame(mid, d, Victim(start, c));
      MappedWord(mid, d, Victim(start, c));
      UnmapSize(m, d, start, c);
    }
  }

  lemma AllReached(m: Mem, d: nat, start: nat, n: nat)
    requires n > 0 && AllMapped(m, d, start, n)
    ensures Reach(start, n) == n
  {
    hide UEntry, Victim;
    FirstVictim(start);
    assert Victim(start, 0) < USER_LIMIT_PAGE;
    VictimAt(start, ENTRIES - PdeIndex(start), 0);
  }

  lemma MappedWord(m: Mem, d: nat, v: nat)
    requires UEntry(m, d, v) != 0
    ensures UWord(m, d, v) == UEntry(m, d, v)
  {
  }

  lemma {:induction false} UnmapSize(m: Mem, d: nat, start: nat, c: nat)
    ensures |Unmap(m, d, start, c).owner| == |m.owner|
  {
    if c > 0 {
      UnmapSize(m, d, start, c - 1);
    }
  }

  // The body of the inner loop.
  method UnmapPage(machine: Machine, d: nat, i: nat, j: nat)
    requires machine.Coherent() && d < |machine.ram| && i < ENTRIES && j < ENTRIES
    requires FrameOf(UWord(machine.View(), d, i * ENTRIES + j)) < |machine.owner|
    modifies machine, machine.bitmap.bytes
    ensures machine.Coherent() && machine.View() == DropUPage(old(machine.View()), d, i * ENTRIES + j)
    ensures |machine.ram| == |old(machine.ram)|
  {
    assert PdeIndex(i * ENTRIES + j) == i && PteIndex(i * ENTRIES + j) == j;
    var table := FrameOf(Peek(machine.ram, d, i));
    var frame := FrameOf(Peek(machine.ram, table, j));
    machine.Store(table, j, 0);
    machine.GiveFrame(frame);
  }
}
