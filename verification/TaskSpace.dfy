/** Building and tearing down a task's address space (kernel/memory.c:291-385). */
module TaskSpace {
  import opened Paging
  import opened Memory
  import opened Machine
  import opened UserSpace
  import opened Access

  // ---- mmap_ring3 ----

  // The four frames in the order the code takes them: code page, stack page, table, directory.
  function Code(m: Mem): nat { FirstFree(m.owner) }
  function Stack(m: Mem): nat { FirstFree(SetOwner(m.owner, Code(m), Reserved)) }
  function Table(m: Mem): nat { FirstFree(SetOwner(SetOwner(m.owner, Code(m), Reserved), Stack(m), Reserved)) }
  function Directory(m: Mem): nat {
    FirstFree(SetOwner(SetOwner(SetOwner(m.owner, Code(m), Reserved), Stack(m), Reserved), Table(m), Reserved))
  }

  // Every pmm_alloc of the call finds a free frame.
  predicate BuildFits(m: Mem) {
    Code(m) < |m.owner| && Stack(m) < |m.owner| && Table(m) < |m.owner| && Directory(m) < |m.owner|
  }

  // The memory after mmap_ring3: a directory that shares the kernel half, one table, the code page
  // at page 1 and the stack page at page 2.
  function Build(m: Mem, code: Page): Mem
    requires |m.ram| == |m.owner| && |m.kpd| == ENTRIES && BuildFits(m)
  {
    var d := Directory(m);
    var mapped := AddUPage(AddUPage(AddUTable(AddDir(m, d), d, 0, Table(m)), d, 1, Code(m)), d, 2, Stack(m));
    if Code(m) < |mapped.ram| then mapped.(ram := mapped.ram[Code(m) := code]) else mapped
  }

  lemma FramesAreFreeAndDistinct(m: Mem)
    requires BuildFits(m)
    ensures var c, s, t, d := Code(m), Stack(m), Table(m), Directory(m);
      && IsFree(m, c) && IsFree(m, s) && IsFree(m, t) && IsFree(m, d)
      && c != s && c != t && c != d && s != t && s != d && t != d
  {
    FirstFreeIsLeast(m.owner);
    FirstFreeIsLeast(SetOwner(m.owner, Code(m), Reserved));
    FirstFreeIsLeast(SetOwner(SetOwner(m.owner, Code(m), Reserved), Stack(m), Reserved));
    FirstFreeIsLeast(SetOwner(SetOwner(SetOwner(m.owner, Code(m), Reserved), Stack(m), Reserved), Table(m), Reserved));
  }

  // A frame of the address space d.
  predicate InSpace(owner: seq<Use>, d: nat, g: nat) {
    g < |owner| && ((g == d && owner[g] == UDir) || ((owner[g].UTable? || owner[g].UPage?) && owner[g].dir == d))
  }

  // Owners differ only where a free frame joined the address space d.
  ghost predicate OnlyJoins(m: Mem, r: Mem, d: nat) {
    && |r.owner| == |m.owner|
    && (forall g :: 0 <= g < |m.owner| ==> r.owner[g] == m.owner[g] || (m.owner[g] == Free && InSpace(r.owner, d, g)))
  }

  /** mmap_ring3 keeps the invariant, takes free frames for the new space only, maps exactly pages
      1 and 2, and leaves every other address space and the kernel heap alone. */
  lemma BuildKeeps(m: Mem, code: Page)
    requires Inv(m) && BuildFits(m) && |code| == ENTRIES
    ensures var r, d := Build(m, code), Directory(m);
      && Inv(r) && IsFree(m, d) && IsDir(r, d) && SpaceOnly(m, r, d) && OnlyJoins(m, r, d)
      && FrameOf(UEntry(r, d, 1)) == Code(m) < |r.ram| && r.ram[Code(m)] == code && FrameOf(UEntry(r, d, 2)) == Stack(m)
      && UEntry(r, d, 1) != 0 && UEntry(r, d, 2) != 0
      && (forall v: nat :: v < USER_LIMIT_PAGE && v != 1 && v != 2 ==> UEntry(r, d, v) == 0)
  {
    hide Inv, UEntry, Code, Stack, Table, Directory, SpaceOnly, FillEffect, AddUPage;
    FramesAreFreeAndDistinct(m);
    var c, s, t, d := Code(m), Stack(m), Table(m), Directory(m);
    NewDirectory(m, d, t);
    var m1 := AddUTable(AddDir(m, d), d, 0, t);
    NewPage(m, m1, d, 1, c);
    var m2 := AddUPage(m1, d, 1, c);
    NewPage(m, m2, d, 2, s);
    var m3 := AddUPage(m2, d, 2, s);
    LoadCode(m, m3, d, c, code);
  }

  // The empty directory with its first table.
  lemma NewDirectory(m: Mem, d: nat, t: nat)
    requires Inv(m) && IsFree(m, d) && IsFree(m, t) && d != t
    ensures |m.ram| == |m.owner| && |m.kpd| == ENTRIES
    ensures var r := AddUTable(AddDir(m, d), d, 0, t);
      && Inv(r) && IsDir(r, d) && SpaceOnly(m, r, d) && OnlyJoins(m, r, d) && Peek(r.ram, d, 0) != 0
      && (forall v: nat :: v < USER_LIMIT_PAGE ==> UEntry(r, d, v) == 0)
      && (forall g :: 0 <= g < |m.owner| && g != d && g != t ==> r.owner[g] == m.owner[g])
  {
    AddDirKeeps(m, d);
    var m0 := AddDir(m, d);
    AddUTableKeeps(m0, d, 0, t);
    var r := AddUTable(m0, d, 0, t);
    forall u: Use | !((u.UTable? || u.UPage?) && u.dir == d) ensures Slot(r, u) == Slot(m, u) {
      assert Slot(m0, u) == Slot(m, u);
    }
    forall v: nat | v < USER_LIMIT_PAGE ensures UEntry(r, d, v) == 0 {
      assert Slot(r, UPage(d, v)) == Slot(m0, UPage(d, v)) == Slot(m, UPage(d, v));
    }
  }

  lemma NewPage(m: Mem, mid: Mem, d: nat, v: nat, f: nat)
    requires Inv(mid) && IsDir(mid, d) && 0 < v < ENTRIES && Peek(mid.ram, d, 0) != 0
    requires IsFree(m, f) && f < |mid.owner| && mid.owner[f] == m.owner[f] && UEntry(mid, d, v) == 0
    requires SpaceOnly(m, mid, d) && OnlyJoins(m, mid, d)
    ensures f < |mid.ram|
    ensures var r := AddUPage(mid, d, v, f);
      && Inv(r) && IsDir(r, d) && SpaceOnly(m, r, d) && OnlyJoins(m, r, d) && Peek(r.ram, d, 0) != 0
      && (forall w: nat :: w < USER_LIMIT_PAGE && w != v ==> UEntry(r, d, w) == UEntry(mid, d, w))
      && UEntry(r, d, v) != 0 && FrameOf(UEntry(r, d, v)) == f
      && (forall g :: 0 <= g < |m.owner| && g != f ==> r.owner[g] == mid.owner[g])
  {
    AddUPageKeeps(mid, d, v, f);
    var r := AddUPage(mid, d, v, f);
    assert Slot(r, UPage(d, v)) == Word(f, USER_FLAGS);
    forall w: nat | w < USER_LIMIT_PAGE && w != v ensures UEntry(r, d, w) == UEntry(mid, d, w) {
      assert Slot(r, UPage(d, w)) == Slot(mid, UPage(d, w));
    }
    forall u: Use | !((u.UTable? || u.UPage?) && u.dir == d) ensures Slot(r, u) == Slot(m, u) {
      assert Slot(mid, u) == Slot(m, u);
    }
    assert Slot(r, UTable(d, 0)) == Slot(mid, UTable(d, 0));
  }

  lemma LoadCode(m: Mem, mid: Mem, d: nat, c: nat, code: Page)
    requires Inv(mid) && IsDir(mid, d) && |code| == ENTRIES && c < |mid.ram|
    requires UEntry(mid, d, 1) != 0 && FrameOf(UEntry(mid, d, 1)) == c
    requires SpaceOnly(m, mid, d) && OnlyJoins(m, mid, d)
    ensures var r := mid.(ram := mid.ram[c := code]);
      && Inv(r) && IsDir(r, d) && SpaceOnly(m, r, d) && OnlyJoins(m, r, d)
      && (forall v: nat :: v < USER_LIMIT_PAGE ==> UEntry(r, d, v) == UEntry(mid, d, v))
  {
    UPageFrame(mid, d, 1);
    WritesKeep(mid, c, code);
    var r := mid.(ram := mid.ram[c := code]);
    forall v: nat | v < USER_LIMIT_PAGE ensures UEntry(r, d, v) == UEntry(mid, d, v) {
      assert Slot(r, UPage(d, v)) == Slot(mid, UPage(d, v));
    }
    forall u: Use | !((u.UTable? || u.UPage?) && u.dir == d) ensures Slot(r, u) == Slot(m, u) {
      assert Slot(mid, u) == Slot(m, u);
    }
  }

  // The program in words, in a cleared page.
  function Image(program: seq<nat>): (p: Page)
    requires |program| <= ENTRIES
    ensures |p| == ENTRIES && forall j :: 0 <= j < ENTRIES ==> p[j] == if j < |program| then program[j] else 0
  {
    program + ZeroPage()[|program|..]
  }

  // Build written out frame by frame.
  function Laid(m: Mem, image: Page, c: nat, s: nat, t: nat, d: nat): Mem
    requires |m.ram| == |m.owner| && |m.kpd| == ENTRIES && c < |m.owner| && s < |m.owner| && t < |m.owner| && d < |m.owner|
  {
    var directory: Page := ZeroPage()[0 := Word(t, USER_FLAGS)][..USER_LIMIT_PDE] + m.kpd[USER_LIMIT_PDE..];
    m.(owner := m.owner[c := UPage(d, 1)][s := UPage(d, 2)][t := UTable(d, 0)][d := UDir],
       ram := m.ram[c := image][s := ZeroPage()][t := TablePage(c, s)][d := directory])
  }

  lemma LaidIsBuild(m: Mem, image: Page)
    requires Shape(m) && BuildFits(m)
    ensures Laid(m, image, Code(m), Stack(m), Table(m), Directory(m)) == Build(m, image)
  {
    hide Code, Stack, Table, Directory, FirstFree;
    FramesAreFreeAndDistinct(m);
    var c, s, t, d := Code(m), Stack(m), Table(m), Directory(m);
    LaidIsBuilt(m, image, c, s, t, d);
  }

  lemma LaidIsBuilt(m: Mem, image: Page, c: nat, s: nat, t: nat, d: nat)
    requires Shape(m) && c < |m.owner| && s < |m.owner| && t < |m.owner| && d < |m.owner|
    requires c != s && c != t && c != d && s != t && s != d && t != d
    ensures |AddUPage(AddUPage(AddUTable(AddDir(m, d), d, 0, t), d, 1, c), d, 2, s).ram| == |m.ram|
    ensures var r := AddUPage(AddUPage(AddUTable(AddDir(m, d), d, 0, t), d, 1, c), d, 2, s);
      Laid(m, image, c, s, t, d) == r.(ram := r.ram[c := image])
  {
    var m0 := AddDir(m, d);
    var m1 := AddUTable(m0, d, 0, t);
    assert m1.ram[d][0] == Word(t, USER_FLAGS) && m1.ram[t] == ZeroPage();
    var m2 := AddUPage(m1, d, 1, c);
    var z1: Page := ZeroPage()[1 := Word(c, USER_FLAGS)];
    assert m2.ram[t] == z1 && m2.ram[d] == m1.ram[d];
    var m3 := AddUPage(m2, d, 2, s);
    var z2: Page := z1[2 := Word(s, USER_FLAGS)];
    assert m3.ram[t] == z2 && m3.ram[d] == m1.ram[d];
    var l := Laid(m, image, c, s, t, d);
    assert l.ram[d] == m3.ram[d];
    assert l.ram == m3.ram[c := image];
    assert l.owner == m3.owner;
  }

  // From m to r a new space d came about: ring 3 reaches in it exactly the code page at 0x1000, which
  // holds the program, and the cleared stack page at 0x2000, and it has every directory word of the
  // kernel half.
  ghost predicate RingServes(m: Mem, r: Mem, d: nat, image: Page) {
    && |m.ram| == |r.ram| && d < |r.ram| && |r.ram[d]| == |m.kpd| == ENTRIES && |image| == ENTRIES
    && (forall p: nat :: p < 0xC000_0000 ==> (UserMay(r.ram, r.ram[d], p) <==> 0x1000 <= p < 0x3000))
    && (forall p: nat :: 0x1000 <= p < 0x3000 ==>
          var f := Physical(r.ram, r.ram[d], p) / 0x1000;
          IsFree(m, f) && f < |r.ram| && r.ram[f] == if p < 0x2000 then image else ZeroPage())
    && (forall i :: 768 <= i < 1024 ==> r.ram[d][i] == m.kpd[i])
  }

  /** mmap_ring3, by addresses. */
  lemma BuildReaches(m: Mem, image: Page)
    requires Inv(m) && BuildFits(m) && |image| == ENTRIES
    ensures |m.ram| == |m.owner| && |m.kpd| == ENTRIES
    ensures Inv(Build(m, image)) && RingServes(m, Build(m, image), Directory(m), image)
  {
    InvShape(m);
    FramesAreFreeAndDistinct(m);
    BuildKeeps(m, image);
    LaidIsBuild(m, image);
    var r, d := Build(m, image), Directory(m);
    LaidPages(m, image, Code(m), Stack(m), Table(m), d);
    hide Inv, Build, Laid, UEntry, UserMay, Physical, Code, Stack, Table, Directory, SpaceOnly, OnlyJoins;
    forall p: nat | p < 0xC000_0000
      ensures UserMay(r.ram, r.ram[d], p) <==> 0x1000 <= p < 0x3000
      ensures 0x1000 <= p < 0x3000 ==>
        var f := Physical(r.ram, r.ram[d], p) / 0x1000;
        IsFree(m, f) && f < |r.ram| && r.ram[f] == if p < 0x2000 then image else ZeroPage()
    {
      ReachOf(r, d, p);
    }
  }

  lemma LaidPages(m: Mem, image: Page, c: nat, s: nat, t: nat, d: nat)
    requires Shape(m) && c < |m.owner| && s < |m.owner| && t < |m.owner| && d < |m.owner|
    requires c != s && c != t && c != d && s != t && s != d && t != d
    ensures var r := Laid(m, image, c, s, t, d);
      && |r.ram| == |m.ram| && r.ram[c] == image && r.ram[s] == ZeroPage() && |r.ram[d]| == ENTRIES
      && forall i :: USER_LIMIT_PDE <= i < ENTRIES ==> r.ram[d][i] == m.kpd[i]
  {
  }

  /** mmap_ring3.  The program must fit one page: the code copies it through the one-page window. */
  method MmapRing3(machine: Machine, program: seq<nat>) returns (cr3: nat)
    requires machine.Coherent() && BuildFits(machine.View()) && |program| <= ENTRIES
    modifies machine, machine.bitmap.bytes
    ensures machine.Coherent() && cr3 == Directory(old(machine.View()))
    ensures machine.View() == Build(old(machine.View()), Image(program))
    ensures Inv(old(machine.View())) ==> Inv(machine.View()) && RingServes(old(machine.View()), machine.View(), cr3, Image(program))
  {
    hide Build, FirstFree, ZeroPage, Image, Shape, RingServes, Linked;
    ghost var m := machine.View();
    if Inv(m) {
      BuildReaches(m, Image(program));
    }
    FramesAreFreeAndDistinct(m);
    LaidIsBuild(m, Image(program));
    var codePage, stackPage, table := TakePages(machine, program);
    cr3 := TakeDirectory(machine, table);
    Relabel(machine, m.owner, codePage, stackPage, table, cr3, [UPage(cr3, 1), UPage(cr3, 2), UTable(cr3, 0), UDir]);
  }

  function TablePage(c: nat, s: nat): Page {
    ZeroPage()[1 := Word(c, USER_FLAGS)][2 := Word(s, USER_FLAGS)]
  }

  // The code page, the stack page and the table that maps them at pages 1 and 2.
  method TakePages(machine: Machine, program: seq<nat>) returns (c: nat, s: nat, t: nat)
    requires machine.Coherent() && BuildFits(machine.View()) && |program| <= ENTRIES
    modifies machine, machine.bitmap.bytes
    ensures machine.Coherent()
    ensures var m := old(machine.View());
      && c == Code(m) && s == Stack(m) && t == Table(m) && c < |m.owner| && s < |m.owner| && t < |m.owner|
      && |m.ram| == |m.owner|
      && machine.View() == m.(owner := m.owner[c := Reserved][s := Reserved][t := Reserved],
                              ram := m.ram[c := Image(program)][s := ZeroPage()][t := TablePage(c, s)])
  {
    hide FirstFree, ZeroPage;
    FramesAreFreeAndDistinct(machine.View());
    c := machine.TakeFrame(Reserved);
    CopyProgram(machine, c, program);
    s := machine.TakeFrame(Reserved);
    t := TakeTable(machine, c, s);
  }

  method TakeTable(machine: Machine, c: nat, s: nat) returns (t: nat)
    requires machine.Coherent() && FirstFree(machine.owner) < |machine.owner|
    modifies machine, machine.bitmap.bytes
    ensures machine.Coherent() && t == FirstFree(old(machine.owner)) < |old(machine.owner)| && |old(machine.ram)| == |old(machine.owner)|
    ensures var m := old(machine.View());
      machine.View() == m.(owner := m.owner[t := Reserved], ram := m.ram[t := TablePage(c, s)])
  {
    hide FirstFree;
    t := machine.TakeFrame(Reserved);
    machine.Store(t, 1, Word(c, USER_FLAGS));
    machine.Store(t, 2, Word(s, USER_FLAGS));
  }

  // The directory: the table at entry 0 and the kernel half.
  method TakeDirectory(machine: Machine, table: nat) returns (d: nat)
    requires machine.Coherent() && FirstFree(machine.owner) < |machine.owner|
    modifies machine, machine.bitmap.bytes
    ensures machine.Coherent() && d == FirstFree(old(machine.owner)) < |old(machine.owner)| && |old(machine.ram)| == |old(machine.owner)|
    ensures var m := old(machine.View());
      var directory: Page := ZeroPage()[0 := Word(table, USER_FLAGS)][..USER_LIMIT_PDE] + m.kpd[USER_LIMIT_PDE..];
      machine.View() == m.(owner := m.owner[d := Reserved], ram := m.ram[d := directory])
  {
    hide FirstFree;
    d := machine.TakeFrame(Reserved);
    machine.Store(d, 0, Word(table, USER_FLAGS));
    CopyKernelHalf(machine, d);
  }

  // The uses of the four frames, known only once the whole space is built.
  ghost method Relabel(machine: Machine, o: seq<Use>, c: nat, s: nat, t: nat, d: nat, u: seq<Use>)
    requires machine.Coherent() && c < |o| && s < |o| && t < |o| && d < |o| && |u| == 4
    requires machine.owner == o[c := Reserved][s := Reserved][t := Reserved][d := Reserved] && Free !in u
    modifies machine`owner
    ensures machine.Coherent()
    ensures machine.View() == old(machine.View()).(owner := o[c := u[0]][s := u[1]][t := u[2]][d := u[3]])
  {
    machine.owner := o[c := u[0]][s := u[1]][t := u[2]][d := u[3]];
  }

  // The loop that copies directory entries 768 .. 1024.
  method CopyKernelHalf(machine: Machine, d: nat)
    requires machine.Coherent() && d < |machine.ram|
    modifies machine`ram
    ensures machine.Coherent()
    ensures var half: Page := old(machine.ram)[d][..USER_LIMIT_PDE] + machine.kpd[USER_LIMIT_PDE..];
      machine.View() == old(machine.View()).(ram := old(machine.ram)[d := half])
  {
    for i := USER_LIMIT_PDE to ENTRIES
      invariant machine.Coherent()
      invariant machine.View() == old(machine.View()).(ram := machine.ram)
      invariant |machine.ram| == |old(machine.ram)| && |machine.ram[d]| == ENTRIES
      invariant forall g :: 0 <= g < |machine.ram| && g != d ==> machine.ram[g] == old(machine.ram)[g]
      invariant forall j :: 0 <= j < ENTRIES ==>
        machine.ram[d][j] == if USER_LIMIT_PDE <= j < i then machine.kpd[j] else old(machine.ram)[d][j]
    {
      machine.Store(d, i, machine.kpd[i]);
    }
    ghost var half: Page := old(machine.ram)[d][..USER_LIMIT_PDE] + machine.kpd[USER_LIMIT_PDE..];
    assert machine.ram[d] == half;
    assert machine.ram == old(machine.ram)[d := half];
  }

  method CopyProgram(machine: Machine, f: nat, program: seq<nat>)
    requires machine.Coherent() && f < |machine.ram| && machine.ram[f] == ZeroPage() && |program| <= ENTRIES
    modifies machine`ram
    ensures machine.Coherent() && machine.View() == old(machine.View()).(ram := old(machine.ram)[f := Image(program)])
  {
    assert Image(program[..0]) == ZeroPage();
    assert machine.ram[f := Image(program[..0])] == machine.ram;
    for i := 0 to |program|
      invariant machine.Coherent()
      invariant machine.View() == old(machine.View()).(ram := old(machine.ram)[f := Image(program[..i])])
    {
      machine.Store(f, i, program[i]);
      assert Image(program[..i])[i := program[i]] == Image(program[..i + 1]);
    }
    assert program[..|program|] == program;
  }

  // ---- unmmap_ring3 ----

  // One turn of the inner loop: free page v, and after the last page of a table the table.
  function TearStep(m: Mem, d: nat, v: nat): Mem {
    var p := if Present(Peek(m.ram, d, PdeIndex(v))) && UEntry(m, d, v) != 0 then DropUPage(m, d, v) else m;
    if PteIndex(v) == ENTRIES - 1 && Present(Peek(p.ram, d, PdeIndex(v))) then DropUTable(p, d, PdeIndex(v)) else p
  }

  // The memory when the loops reach page v; they start at page 1.
  function Tear(m: Mem, d: nat, v: nat): Mem {
    if v <= 1 then m else TearStep(Tear(m, d, v - 1), d, v - 1)
  }

  function Teardown(m: Mem, d: nat): Mem { DropDir(Tear(m, d, USER_LIMIT_PAGE), d) }

  // The slots of d that are gone: pages below v, and tables that end at or below page t.
  predicate Gone(u: Use, d: nat, v: nat, t: nat) {
    (u.UPage? && u.dir == d && u.page < v) || (u.UTable? && u.dir == d && (u.pde + 1) * ENTRIES <= t)
  }

  ghost predicate TearEffect(m: Mem, r: Mem, d: nat, v: nat, t: nat) {
    && SpaceOnly(m, r, d)
    && (forall u: Use :: Slot(r, u) == if Gone(u, d, v, t) then 0 else Slot(m, u))
    && (forall g :: 0 <= g < |m.owner| ==> r.owner[g] == if Gone(m.owner[g], d, v, t) then Free else m.owner[g])
    && (forall g :: 0 <= g < |m.owner| && g < |m.ram| && !InSpace(m.owner, d, g) ==> r.ram[g] == m.ram[g])
  }

  // A slot of d cleared and its frame freed.
  ghost predicate ClearEffect(m: Mem, r: Mem, d: nat, u: Use) {
    && SpaceOnly(m, r, d)
    && (forall x: Use :: Slot(r, x) == if x == u then 0 else Slot(m, x))
    && (forall g :: 0 <= g < |m.owner| ==> r.owner[g] == if m.owner[g] == u then Free else m.owner[g])
    && (forall g :: 0 <= g < |m.owner| && g < |m.ram| && !InSpace(m.owner, d, g) ==> r.ram[g] == m.ram[g])
  }

  lemma ClearPage(m: Mem, d: nat, v: nat)
    requires Inv(m) && IsDir(m, d) && v < USER_LIMIT_PAGE && UEntry(m, d, v) != 0
    ensures var r := DropUPage(m, d, v);
      Inv(r) && IsDir(r, d) && ClearEffect(m, r, d, UPage(d, v))
  {
    DropUPageKeeps(m, d, v);
    TableOfUPage(m, d, v);
    var r := DropUPage(m, d, v);
    forall g | 0 <= g < |m.owner| ensures r.owner[g] == if m.owner[g] == UPage(d, v) then Free else m.owner[g] {
      assert OwnIsNamed(m, g);
    }
  }

  lemma ClearTable(m: Mem, d: nat, i: nat)
    requires Inv(m) && IsDir(m, d) && i < USER_LIMIT_PDE && m.ram[d][i] != 0
    requires forall v: nat :: PdeIndex(v) == i ==> UEntry(m, d, v) == 0
    ensures var r := DropUTable(m, d, i);
      Inv(r) && IsDir(r, d) && ClearEffect(m, r, d, UTable(d, i))
  {
    DropUTableKeeps(m, d, i);
    var r := DropUTable(m, d, i);
    forall g | 0 <= g < |m.owner| ensures r.owner[g] == if m.owner[g] == UTable(d, i) then Free else m.owner[g] {
      assert OwnIsNamed(m, g);
    }
  }

  // Words of the space d that are set are also present: their flag bits are USER_FLAGS.
  lemma SetMeansPresent(m: Mem, d: nat, i: nat)
    requires Inv(m) && IsDir(m, d) && i < USER_LIMIT_PDE
    ensures d < |m.ram| && Peek(m.ram, d, i) == Slot(m, UTable(d, i)) == m.ram[d][i]
    ensures Present(Slot(m, UTable(d, i))) <==> Slot(m, UTable(d, i)) != 0
  {
    assert NamesOwn(m, UTable(d, i));
  }

  lemma EntryNeedsTable(m: Mem, d: nat, v: nat)
    requires UEntry(m, d, v) != 0
    ensures Peek(m.ram, d, PdeIndex(v)) != 0
  {
  }

  // The slot u, the only one between the two bounds, is cleared if it is set.
  lemma TearEffectStep(m: Mem, p: Mem, r: Mem, d: nat, v: nat, t: nat, v': nat, t': nat, u: Use)
    requires Shape(m) && Shape(p) && Shape(r) && TearEffect(m, p, d, v, t)
    requires if Slot(p, u) != 0 then ClearEffect(p, r, d, u) else r == p
    requires !Gone(u, d, v, t) && forall x: Use :: Gone(x, d, v', t') <==> Gone(x, d, v, t) || x == u
    requires u.IsSlot() && forall g: nat :: OwnIsNamed(m, g)
    ensures TearEffect(m, r, d, v', t')
  {
    hide Slot;
    forall g | 0 <= g < |m.owner| ensures r.owner[g] == if Gone(m.owner[g], d, v', t') then Free else m.owner[g] {
      assert OwnIsNamed(m, g);
    }
    forall g | 0 <= g < |m.owner| && g < |m.ram| && !InSpace(m.owner, d, g) ensures r.ram[g] == m.ram[g] {
      assert !InSpace(p.owner, d, g);
    }
  }

  lemma GoneNextPage(d: nat, v: nat)
    ensures forall x: Use :: Gone(x, d, v + 1, v) <==> Gone(x, d, v, v) || x == UPage(d, v)
  {
  }

  lemma GoneNextTable(d: nat, v: nat, w: nat)
    requires w == v + 1
    ensures PteIndex(v) != ENTRIES - 1 ==> forall x: Use :: Gone(x, d, w, w) <==> Gone(x, d, w, v)
    ensures PteIndex(v) == ENTRIES - 1 ==> forall x: Use :: Gone(x, d, w, w) <==> Gone(x, d, w, v) || x == UTable(d, PdeIndex(v))
  {
  }

  lemma TearPage(m: Mem, p: Mem, d: nat, v: nat)
    requires Inv(m) && IsDir(m, d) && Inv(p) && IsDir(p, d) && TearEffect(m, p, d, v, v) && 1 <= v < USER_LIMIT_PAGE
    ensures var r := if Present(Peek(p.ram, d, PdeIndex(v))) && UEntry(p, d, v) != 0 then DropUPage(p, d, v) else p;
      Inv(r) && IsDir(r, d) && TearEffect(m, r, d, v + 1, v)
  {
    hide DropUPage, ClearEffect, TearEffect, Gone, UEntry, Linked;
    var r := if Present(Peek(p.ram, d, PdeIndex(v))) && UEntry(p, d, v) != 0 then DropUPage(p, d, v) else p;
    if UEntry(p, d, v) != 0 {
      EntryNeedsTable(p, d, v);
      SetMeansPresent(p, d, PdeIndex(v));
      ClearPage(p, d, v);
    }
    GoneNextPage(d, v);
    NamedOwners(m);
    assert !Gone(UPage(d, v), d, v, v) by { NotGoneYet(d, v); }
    TearEffectStep(m, p, r, d, v, v, v + 1, v, UPage(d, v));
  }

  lemma NamedOwners(m: Mem)
    requires Inv(m)
    ensures forall g: nat :: OwnIsNamed(m, g)
  {
  }

  lemma NotGoneYet(d: nat, v: nat)
    ensures !Gone(UPage(d, v), d, v, v) && !Gone(UTable(d, PdeIndex(v)), d, v + 1, v)
  {
  }

  lemma TearTable(m: Mem, p: Mem, d: nat, v: nat)
    requires Inv(m) && IsDir(m, d) && Inv(p) && IsDir(p, d) && TearEffect(m, p, d, v + 1, v) && 1 <= v < USER_LIMIT_PAGE
    ensures var r := if PteIndex(v) == ENTRIES - 1 && Present(Peek(p.ram, d, PdeIndex(v))) then DropUTable(p, d, PdeIndex(v)) else p;
      Inv(r) && IsDir(r, d) && TearEffect(m, r, d, v + 1, v + 1)
  {
    hide DropUTable, ClearEffect, UEntry, Linked, SpaceOnly;
    var i := PdeIndex(v);
    var r := if PteIndex(v) == ENTRIES - 1 && Present(Peek(p.ram, d, i)) then DropUTable(p, d, i) else p;
    GoneNextTable(d, v, v + 1);
    NamedOwners(m);
    if PteIndex(v) == ENTRIES - 1 {
      SetMeansPresent(p, d, i);
      forall w: nat | PdeIndex(w) == i ensures UEntry(p, d, w) == 0 {
        assert Gone(UPage(d, w), d, v + 1, v);
        SlotOfPage(p, d, w);
      }
      if p.ram[d][i] != 0 {
        ClearTable(p, d, i);
      }
      NotGoneYet(d, v);
      TearEffectStep(m, p, r, d, v + 1, v, v + 1, v + 1, UTable(d, i));
    }
  }

  lemma SlotOfPage(m: Mem, d: nat, v: nat)
    requires IsDir(m, d) && v < USER_LIMIT_PAGE
    ensures Slot(m, UPage(d, v)) == UEntry(m, d, v)
  {
  }

  lemma {:induction false} TearKeeps(m: Mem, d: nat, v: nat)
    requires Inv(m) && IsDir(m, d) && 1 <= v <= USER_LIMIT_PAGE
    ensures var r := Tear(m, d, v);
      Inv(r) && IsDir(r, d) && TearEffect(m, r, d, v, v)
    decreases v
  {
    hide Inv, DropUPage, DropUTable, TearEffect, UEntry, Peek;
    if v == 1 {
      TearNothing(m, d);
    } else {
      TearKeeps(m, d, v - 1);
      var p := Tear(m, d, v - 1);
      TearPage(m, p, d, v - 1);
      var q := if Present(Peek(p.ram, d, PdeIndex(v - 1))) && UEntry(p, d, v - 1) != 0 then DropUPage(p, d, v - 1) else p;
      TearTable(m, q, d, v - 1);
    }
  }

  // Page 0 is never mapped, so starting at page 1 misses nothing.
  lemma TearNothing(m: Mem, d: nat)
    requires Inv(m) && IsDir(m, d)
    ensures TearEffect(m, m, d, 1, 1)
  {
    forall u: Use | Gone(u, d, 1, 1) ensures Slot(m, u) == 0 {
      assert u == UPage(d, 0) && UEntry(m, d, 0) == 0;
    }
    forall g | 0 <= g < |m.owner| ensures !Gone(m.owner[g], d, 1, 1) {
      assert OwnIsNamed(m, g);
    }
  }

  /** unmmap_ring3 keeps the invariant, frees exactly the frames of the address space d, each of
      which some slot named, and leaves every other owner, slot and frame alone. */
  lemma TeardownKeeps(m: Mem, d: nat)
    requires Inv(m) && IsDir(m, d)
    ensures var r := Teardown(m, d);
      && Inv(r) && SpaceOnly(m, r, d)
      && (forall g :: 0 <= g < |m.owner| ==> r.owner[g] == if InSpace(m.owner, d, g) then Free else m.owner[g])
      && (forall g :: 0 <= g < |m.owner| && g < |m.ram| && !InSpace(m.owner, d, g) ==> r.ram[g] == m.ram[g])
  {
    hide Tear;
    TearKeeps(m, d, USER_LIMIT_PAGE);
    var p := Tear(m, d, USER_LIMIT_PAGE);
    forall i: nat | i < USER_LIMIT_PDE ensures p.ram[d][i] == 0 {
      assert Gone(UTable(d, i), d, USER_LIMIT_PAGE, USER_LIMIT_PAGE);
      assert Slot(p, UTable(d, i)) == 0;
    }
    DropDirKeeps(p, d);
    forall g | 0 <= g < |m.owner| ensures Teardown(m, d).owner[g] == if InSpace(m.owner, d, g) then Free else m.owner[g] {
      assert OwnIsNamed(m, g);
    }
    var r := Teardown(m, d);
    forall u: Use | !((u.UTable? || u.UPage?) && u.dir == d) ensures Slot(r, u) == Slot(m, u) {
      assert Slot(r, u) == Slot(p, u);
    }
  }

  /** Building a space, filling holes in it and tearing it down gives back exactly what was taken:
      every frame has the owner it had before. */
  lemma BuildFillTeardown(m: Mem, image: Page, n: nat, end: nat)
    requires Inv(m) && BuildFits(m) && |image| == ENTRIES
    requires var b, d := Build(m, image), Directory(m);
      FillFits(b, d, n) && 1 <= end <= USER_LIMIT_PAGE && Holes(b, d, end) <= n
    ensures var b, d := Build(m, image), Directory(m);
      Inv(Teardown(Fill(b, d, end), d)) && Teardown(Fill(b, d, end), d).owner == m.owner
  {
    hide Build, Fill, Teardown, FillFits, Holes, Directory, Slot, UEntry, Linked;
    var b, d := Build(m, image), Directory(m);
    BuildKeeps(m, image);
    FillKeeps(b, d, n, end);
    var f := Fill(b, d, end);
    TeardownKeeps(f, d);
    var r := Teardown(f, d);
    forall g | 0 <= g < |m.owner| ensures r.owner[g] == m.owner[g] {
      NoSpaceYet(m, d, g);
      assert b.owner[g] == m.owner[g] || (m.owner[g] == Free && InSpace(b.owner, d, g));
    }
  }

  lemma NoSpaceYet(m: Mem, d: nat, g: nat)
    requires Inv(m) && IsFree(m, d)
    ensures !InSpace(m.owner, d, g)
  {
    assert OwnIsNamed(m, g);
  }

  // The words read in one turn name frames of the bitmap, and the table is not the directory.
  predicate TurnFits(m: Mem, d: nat, i: nat, j: nat) {
    var word := Peek(m.ram, d, i);
    Present(word) ==>
      && FrameOf(word) < |m.owner| && FrameOf(word) != d
      && FrameOf(Peek(m.ram, FrameOf(word), j)) < |m.owner|
  }

  lemma TurnFitsInSpace(m: Mem, d: nat, i: nat, j: nat)
    requires Inv(m) && IsDir(m, d) && i < USER_LIMIT_PDE && j < ENTRIES && i * ENTRIES + j > 0
    ensures TurnFits(m, d, i, j)
  {
    var v := i * ENTRIES + j;
    EntryWord(m, d, i, j);
    TableOfUPage(m, d, v);
    if UEntry(m, d, v) != 0 {
      UPageFrame(m, d, v);
    }
  }

  // The body of the inner loop.
  method TearOne(machine: Machine, d: nat, i: nat, j: nat)
    requires machine.Coherent() && d < |machine.ram| && i < ENTRIES && j < ENTRIES && TurnFits(machine.View(), d, i, j)
    modifies machine, machine.bitmap.bytes
    ensures machine.Coherent() && machine.View() == TearStep(old(machine.View()), d, i * ENTRIES + j)
    ensures |machine.ram| == |old(machine.ram)|
  {
    ghost var m := machine.View();
    EntryWord(m, d, i, j);
    assert PdeIndex(i * ENTRIES + j) == i && PteIndex(i * ENTRIES + j) == j;
    var word := Peek(machine.ram, d, i);
    if Present(word) {
      var entry := Peek(machine.ram, FrameOf(word), j);
      if entry != 0 {
        machine.Store(FrameOf(word), j, 0);
        machine.GiveFrame(FrameOf(entry));
      }
    }
    assert Peek(machine.ram, d, i) == word;
    if j + 1 >= ENTRIES {
      if Present(Peek(machine.ram, d, i)) {
        machine.Store(d, i, 0);
        machine.GiveFrame(FrameOf(word));
      }
    }
  }

  /** unmmap_ring3. */
  method UnmmapRing3(machine: Machine, d: nat)
    requires machine.Valid() && IsDir(machine.View(), d)
    modifies machine, machine.bitmap.bytes
    ensures machine.Coherent() && machine.View() == Teardown(old(machine.View()), d)
  {
    hide TearStep, Inv, TurnFits, TearEffect;
    ghost var m := machine.View();
    assert Tear(m, d, 1) == m;
    var pde, pte := 0, 1;
    while pde < USER_LIMIT_PDE
      invariant 0 <= pde <= USER_LIMIT_PDE && pte == if pde == 0 then 1 else 0
      invariant machine.Coherent() && d < |machine.ram| && machine.View() == Tear(m, d, pde * ENTRIES + pte)
    {
      while pte < ENTRIES
        invariant 0 <= pte <= ENTRIES && pde * ENTRIES + pte >= 1
        invariant machine.Coherent() && d < |machine.ram| && machine.View() == Tear(m, d, pde * ENTRIES + pte)
      {
        assert TurnFits(machine.View(), d, pde, pte) by {
          TearKeeps(m, d, pde * ENTRIES + pte);
          TurnFitsInSpace(machine.View(), d, pde, pte);
        }
        TearOne(machine, d, pde, pte);
        pte := pte + 1;
      }
      pte := 0;
      pde := pde + 1;
    }
    machine.GiveFrame(d);
  }
}
