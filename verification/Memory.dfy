/** Physical memory, the kernel directory and the heap map as one value, and the invariant that
    ties them together (kernel/memory.c:205-385, kernel/syscall/mmap.c, kernel/syscall/munmap.c).
    `owner` gives every frame its single use.  Most uses name a slot: a word of a directory or of
    a page table.  The invariant says that a non-zero slot names a frame owned by that slot, and
    that a frame owned by a slot is named by it.  That frames, tables and address spaces never
    overlap and that nothing leaks then follows from `owner` being a function.
 */
module Memory {
  import opened Paging

  type Page = seq<nat>

  datatype Use =
    | Free
    | Reserved                          // used at boot
    | KTable(pde: nat)                  // page table of the kernel heap
    | KPage(k: nat)                     // page k of the kernel heap
    | UDir                              // page directory of a user task
    | UTable(dir: nat, pde: nat)        // page table of a user directory
    | UPage(dir: nat, page: nat)        // page mapped by a user directory
  {
    predicate IsSlot() { KTable? || KPage? || UTable? || UPage? }
    function Flags(): nat { if KTable? || KPage? then KERNEL_FLAGS else USER_FLAGS }
  }

  datatype Mem = Mem(owner: seq<Use>, ram: seq<Page>, kpd: seq<nat>, heap: seq<bool>)

  function ZeroPage(): (p: Page)
    ensures |p| == ENTRIES && forall j :: 0 <= j < ENTRIES ==> p[j] == 0
  {
    seq(ENTRIES, _ => 0)
  }

  function Peek(ram: seq<Page>, f: nat, j: nat): nat {
    if f < |ram| && j < |ram[f]| then ram[f][j] else 0
  }

  function Poke(ram: seq<Page>, f: nat, j: nat, w: nat): seq<Page> {
    if f < |ram| && j < |ram[f]| then (var page: Page := ram[f][j := w]; ram[f := page]) else ram
  }

  function SetOwner(owner: seq<Use>, f: nat, use: Use): seq<Use> {
    if f < |owner| then owner[f := use] else owner
  }

  // The table word that directory `dir` holds for page v, 0 when there is none.
  function Entry(ram: seq<Page>, dir: seq<nat>, v: nat): nat {
    if v / ENTRIES >= |dir| || dir[v / ENTRIES] == 0 then 0
    else Peek(ram, FrameOf(dir[v / ENTRIES]), v % ENTRIES)
  }

  function KEntry(m: Mem, k: nat): nat { Entry(m.ram, m.kpd, KHEAP_FIRST_PAGE + k) }

  function UEntry(m: Mem, d: nat, v: nat): nat {
    if d < |m.ram| then Entry(m.ram, m.ram[d], v) else 0
  }

  // The word the code reads and clears for page v of d: without a table it goes through frame 0.
  function UWord(m: Mem, d: nat, v: nat): nat {
    Peek(m.ram, FrameOf(Peek(m.ram, d, PdeIndex(v))), PteIndex(v))
  }

  predicate IsFree(m: Mem, f: nat) { f < |m.owner| && m.owner[f] == Free }

  predicate IsDir(m: Mem, d: nat) { d < |m.owner| && m.owner[d] == UDir }

  // The word stored in a slot, 0 when the slot is empty or does not exist.
  function Slot(m: Mem, u: Use): nat {
    match u
    case KTable(i) => if KHEAP_FIRST_PDE <= i < KHEAP_LIMIT_PDE && i < |m.kpd| then m.kpd[i] else 0
    case KPage(k) => if k < KHEAP_PAGES then KEntry(m, k) else 0
    case UTable(d, i) => if IsDir(m, d) && i < USER_LIMIT_PDE then Peek(m.ram, d, i) else 0
    case UPage(d, v) => if IsDir(m, d) && v < USER_LIMIT_PAGE then UEntry(m, d, v) else 0
    case _ => 0
  }

  // ---- The invariant ----

  ghost predicate Shape(m: Mem) {
    && |m.owner| == |m.ram| <= 0x10_0000
    && (forall f :: 0 <= f < |m.ram| ==> |m.ram[f]| == ENTRIES)
    && |m.kpd| == ENTRIES
    && |m.heap| == KHEAP_PAGES
  }

  // A non-zero slot names a frame that it owns.
  ghost predicate NamesOwn(m: Mem, u: Use) {
    var w := Slot(m, u);
    w != 0 ==> FrameOf(w) < |m.owner| && m.owner[FrameOf(w)] == u && w % PAGE_SIZE == u.Flags()
  }

  // A frame owned by a slot is named by it.
  ghost predicate OwnIsNamed(m: Mem, f: nat) {
    f < |m.owner| && m.owner[f].IsSlot() ==> Slot(m, m.owner[f]) != 0 && FrameOf(Slot(m, m.owner[f])) == f
  }

  ghost predicate Linked(m: Mem) {
    && (forall u: Use :: NamesOwn(m, u))
    && (forall f: nat :: OwnIsNamed(m, f))
  }

  ghost predicate HeapMapAgrees(m: Mem)
    requires Shape(m)
  {
    forall k :: 0 <= k < KHEAP_PAGES ==> (m.heap[k] <==> KEntry(m, k) != 0)
  }

  // User directories share the kernel half, and never map page 0.
  ghost predicate SharesKernelHalf(m: Mem)
    requires Shape(m)
  {
    forall d: nat, i :: IsDir(m, d) && USER_LIMIT_PDE <= i < ENTRIES && m.ram[d][i] != 0 ==> m.ram[d][i] == m.kpd[i]
  }

  ghost predicate PageZeroUnmapped(m: Mem) {
    forall d: nat :: IsDir(m, d) ==> UEntry(m, d, 0) == 0
  }

  ghost predicate Inv(m: Mem) {
    Shape(m) && Linked(m) && HeapMapAgrees(m) && SharesKernelHalf(m) && PageZeroUnmapped(m)
  }

  lemma InvShape(m: Mem)
    requires Inv(m)
    ensures Shape(m)
  {
  }

  // ---- One slot changes ----

  // r differs from m in the word of slot u only.
  ghost predicate OnlySlot(m: Mem, r: Mem, u: Use, w: nat) {
    Slot(r, u) == w && forall x: Use :: x != u ==> Slot(r, x) == Slot(m, x)
  }

  lemma FillingKeepsLinked(m: Mem, r: Mem, u: Use, f: nat)
    requires Linked(m) && IsFree(m, f) && u.IsSlot() && Slot(m, u) == 0
    requires r.owner == m.owner[f := u] && OnlySlot(m, r, u, Word(f, u.Flags()))
    ensures Linked(r)
  {
    forall x: Use ensures NamesOwn(r, x) {
      assert NamesOwn(m, x);
    }
    forall g: nat ensures OwnIsNamed(r, g) {
      assert OwnIsNamed(m, g);
    }
  }

  lemma ClearingKeepsLinked(m: Mem, r: Mem, u: Use)
    requires Linked(m) && u.IsSlot() && Slot(m, u) != 0 && FrameOf(Slot(m, u)) < |m.owner|
    requires r.owner == m.owner[FrameOf(Slot(m, u)) := Free] && OnlySlot(m, r, u, 0)
    ensures Linked(r)
  {
    forall x: Use ensures NamesOwn(r, x) {
      assert NamesOwn(m, x) && NamesOwn(m, u);
    }
    forall g: nat ensures OwnIsNamed(r, g) {
      assert OwnIsNamed(m, g) && NamesOwn(m, u);
    }
  }

  ghost function HeapAfter(m: Mem, u: Use, used: bool): seq<bool> {
    if u.KPage? && u.k < |m.heap| then m.heap[u.k := used] else m.heap
  }

  lemma FillingKeepsInv(m: Mem, r: Mem, u: Use, f: nat)
    requires Inv(m) && IsFree(m, f) && u.IsSlot() && Slot(m, u) == 0 && (u.UPage? ==> u.page > 0)
    requires r.owner == m.owner[f := u] && OnlySlot(m, r, u, Word(f, u.Flags()))
    requires Shape(r) && SharesKernelHalf(r) && r.heap == HeapAfter(m, u, true)
    ensures Inv(r)
  {
    FillingKeepsLinked(m, r, u, f);
    forall k | 0 <= k < KHEAP_PAGES ensures r.heap[k] <==> KEntry(r, k) != 0 {
      assert KPage(k) != u ==> Slot(r, KPage(k)) == Slot(m, KPage(k));
    }
    forall d: nat | IsDir(r, d) ensures UEntry(r, d, 0) == 0 {
      assert IsDir(m, d) && Slot(r, UPage(d, 0)) == Slot(m, UPage(d, 0));
    }
  }

  lemma ClearingKeepsInv(m: Mem, r: Mem, u: Use)
    requires Inv(m) && u.IsSlot() && Slot(m, u) != 0 && FrameOf(Slot(m, u)) < |m.owner|
    requires r.owner == m.owner[FrameOf(Slot(m, u)) := Free] && OnlySlot(m, r, u, 0)
    requires Shape(r) && SharesKernelHalf(r) && r.heap == HeapAfter(m, u, false)
    ensures Inv(r)
  {
    ClearingKeepsLinked(m, r, u);
    forall k | 0 <= k < KHEAP_PAGES ensures r.heap[k] <==> KEntry(r, k) != 0 {
      assert KPage(k) != u ==> Slot(r, KPage(k)) == Slot(m, KPage(k));
    }
    forall d: nat | IsDir(r, d) ensures UEntry(r, d, 0) == 0 {
      assert NamesOwn(m, u);
      assert IsDir(m, d) && (UPage(d, 0) != u ==> Slot(r, UPage(d, 0)) == Slot(m, UPage(d, 0)));
    }
  }

  lemma SameSlotsKeepInv(m: Mem, r: Mem)
    requires Inv(m) && Shape(r) && SharesKernelHalf(r) && r.heap == m.heap && |r.owner| == |m.owner|
    requires forall x: Use :: Slot(r, x) == Slot(m, x)
    requires forall g :: 0 <= g < |m.owner| && (m.owner[g].IsSlot() || r.owner[g].IsSlot()) ==> r.owner[g] == m.owner[g]
    ensures Inv(r)
  {
    forall x: Use ensures NamesOwn(r, x) { assert NamesOwn(m, x); }
    forall g: nat ensures OwnIsNamed(r, g) { assert OwnIsNamed(m, g); }
    forall k | 0 <= k < KHEAP_PAGES ensures r.heap[k] <==> KEntry(r, k) != 0 {
      assert Slot(r, KPage(k)) == Slot(m, KPage(k));
    }
    forall e: nat | IsDir(r, e) ensures UEntry(r, e, 0) == 0 {
      assert Slot(r, UPage(e, 0)) == Slot(m, UPage(e, 0));
    }
  }

  // ---- Kernel heap ----

  function AddKTable(m: Mem, i: nat, t: nat): Mem
    requires t < |m.owner| && t < |m.ram| && i < |m.kpd|
  {
    m.(owner := m.owner[t := KTable(i)], ram := m.ram[t := ZeroPage()], kpd := m.kpd[i := Word(t, KERNEL_FLAGS)])
  }

  function AddKPage(m: Mem, k: nat, f: nat): Mem
    requires f < |m.owner| && f < |m.ram| && k < |m.heap| && PdeIndex(KHEAP_FIRST_PAGE + k) < |m.kpd|
  {
    var table := FrameOf(m.kpd[PdeIndex(KHEAP_FIRST_PAGE + k)]);
    m.(owner := m.owner[f := KPage(k)],
       ram := Poke(m.ram[f := ZeroPage()], table, PteIndex(KHEAP_FIRST_PAGE + k), Word(f, KERNEL_FLAGS)),
       heap := m.heap[k := true])
  }

  function DropKPage(m: Mem, k: nat): Mem
    requires k < |m.heap| && PdeIndex(KHEAP_FIRST_PAGE + k) < |m.kpd|
  {
    var table := FrameOf(m.kpd[PdeIndex(KHEAP_FIRST_PAGE + k)]);
    m.(owner := SetOwner(m.owner, FrameOf(KEntry(m, k)), Free),
       ram := Poke(m.ram, table, PteIndex(KHEAP_FIRST_PAGE + k), 0),
       heap := m.heap[k := false])
  }

  // A slot's table frame is owned, so it is neither free nor a table of another slot.
  lemma TableOfKPage(m: Mem, k: nat)
    requires Shape(m) && Linked(m) && k < KHEAP_PAGES
    ensures var i := PdeIndex(KHEAP_FIRST_PAGE + k);
      KHEAP_FIRST_PDE <= i < KHEAP_LIMIT_PDE && (m.kpd[i] != 0 ==> FrameOf(m.kpd[i]) < |m.owner| && m.owner[FrameOf(m.kpd[i])] == KTable(i))
  {
    assert NamesOwn(m, KTable(PdeIndex(KHEAP_FIRST_PAGE + k)));
  }

  lemma TableOfUPage(m: Mem, d: nat, v: nat)
    requires Shape(m) && Linked(m) && IsDir(m, d) && v < USER_LIMIT_PAGE
    ensures var i := PdeIndex(v);
      i < USER_LIMIT_PDE && (m.ram[d][i] != 0 ==> FrameOf(m.ram[d][i]) < |m.owner| && m.owner[FrameOf(m.ram[d][i])] == UTable(d, i))
  {
    assert NamesOwn(m, UTable(d, PdeIndex(v)));
  }

  lemma AddKTableSlots(m: Mem, i: nat, t: nat)
    requires Shape(m) && Linked(m) && IsFree(m, t) && KHEAP_FIRST_PDE <= i < KHEAP_LIMIT_PDE && m.kpd[i] == 0
    ensures OnlySlot(m, AddKTable(m, i, t), KTable(i), Word(t, KERNEL_FLAGS))
  {
    var r := AddKTable(m, i, t);
    forall x: Use | x != KTable(i) ensures Slot(r, x) == Slot(m, x) {
      match x
      case KPage(k) => if k < KHEAP_PAGES { TableOfKPage(m, k); }
      case UPage(d, v) => if IsDir(m, d) && v < USER_LIMIT_PAGE { TableOfUPage(m, d, v); }
      case _ =>
    }
  }

  lemma AddKPageSlots(m: Mem, k: nat, f: nat)
    requires Shape(m) && Linked(m) && IsFree(m, f) && k < KHEAP_PAGES
    requires m.kpd[PdeIndex(KHEAP_FIRST_PAGE + k)] != 0
    ensures OnlySlot(m, AddKPage(m, k, f), KPage(k), Word(f, KERNEL_FLAGS))
  {
    var r := AddKPage(m, k, f);
    TableOfKPage(m, k);
    forall x: Use | x != KPage(k) ensures Slot(r, x) == Slot(m, x) {
      match x
      case KPage(q) => if q < KHEAP_PAGES { TableOfKPage(m, q); }
      case UPage(d, v) => if IsDir(m, d) && v < USER_LIMIT_PAGE { TableOfUPage(m, d, v); }
      case _ =>
    }
  }

  lemma DropKPageSlots(m: Mem, k: nat)
    requires Shape(m) && Linked(m) && k < KHEAP_PAGES && KEntry(m, k) != 0
    ensures FrameOf(KEntry(m, k)) < |m.owner| && m.owner[FrameOf(KEntry(m, k))] == KPage(k)
    ensures OnlySlot(m, DropKPage(m, k), KPage(k), 0)
  {
    assert NamesOwn(m, KPage(k));
    var r := DropKPage(m, k);
    TableOfKPage(m, k);
    forall x: Use | x != KPage(k) ensures Slot(r, x) == Slot(m, x) {
      match x
      case KPage(q) => if q < KHEAP_PAGES { TableOfKPage(m, q); }
      case UPage(d, v) => if IsDir(m, d) && v < USER_LIMIT_PAGE { TableOfUPage(m, d, v); }
      case _ =>
    }
  }

  lemma AddKTableKeeps(m: Mem, i: nat, t: nat)
    requires Inv(m) && IsFree(m, t) && KHEAP_FIRST_PDE <= i < KHEAP_LIMIT_PDE && m.kpd[i] == 0
    ensures Inv(AddKTable(m, i, t))
  {
    AddKTableSlots(m, i, t);
    FillingKeepsInv(m, AddKTable(m, i, t), KTable(i), t);
  }

  lemma AddKPageKeeps(m: Mem, k: nat, f: nat)
    requires Inv(m) && IsFree(m, f) && k < KHEAP_PAGES
    requires m.kpd[PdeIndex(KHEAP_FIRST_PAGE + k)] != 0 && KEntry(m, k) == 0
    ensures Inv(AddKPage(m, k, f))
  {
    TableOfKPage(m, k);
    AddKPageSlots(m, k, f);
    FillingKeepsInv(m, AddKPage(m, k, f), KPage(k), f);
  }

  lemma DropKPageKeeps(m: Mem, k: nat)
    requires Inv(m) && k < KHEAP_PAGES && KEntry(m, k) != 0
    ensures FrameOf(KEntry(m, k)) < |m.owner| && Inv(DropKPage(m, k))
  {
    TableOfKPage(m, k);
    DropKPageSlots(m, k);
    ClearingKeepsInv(m, DropKPage(m, k), KPage(k));
  }

  // ---- User address spaces ----

  function AddDir(m: Mem, d: nat): Mem
    requires d < |m.owner| && d < |m.ram| && |m.kpd| == ENTRIES
  {
    m.(owner := m.owner[d := UDir], ram := m.ram[d := ZeroPage()[..USER_LIMIT_PDE] + m.kpd[USER_LIMIT_PDE..]])
  }

  function AddUTable(m: Mem, d: nat, i: nat, t: nat): Mem
    requires t < |m.owner| && t < |m.ram|
  {
    m.(owner := m.owner[t := UTable(d, i)], ram := Poke(m.ram[t := ZeroPage()], d, i, Word(t, USER_FLAGS)))
  }

  function AddUPage(m: Mem, d: nat, v: nat, f: nat): Mem
    requires f < |m.owner| && f < |m.ram|
  {
    var table := FrameOf(Peek(m.ram, d, PdeIndex(v)));
    m.(owner := m.owner[f := UPage(d, v)],
       ram := Poke(m.ram[f := ZeroPage()], table, PteIndex(v), Word(f, USER_FLAGS)))
  }

  function DropUPage(m: Mem, d: nat, v: nat): Mem {
    var table := FrameOf(Peek(m.ram, d, PdeIndex(v)));
    m.(owner := SetOwner(m.owner, FrameOf(UWord(m, d, v)), Free), ram := Poke(m.ram, table, PteIndex(v), 0))
  }

  function DropUTable(m: Mem, d: nat, i: nat): Mem {
    m.(owner := SetOwner(m.owner, FrameOf(Peek(m.ram, d, i)), Free), ram := Poke(m.ram, d, i, 0))
  }

  function DropDir(m: Mem, d: nat): Mem {
    m.(owner := SetOwner(m.owner, d, Free))
  }

  lemma AddDirKeeps(m: Mem, d: nat)
    requires Inv(m) && IsFree(m, d)
    ensures Inv(AddDir(m, d))
    ensures forall x: Use :: Slot(AddDir(m, d), x) == Slot(m, x)
  {
    var r := AddDir(m, d);
    forall x: Use ensures Slot(r, x) == Slot(m, x) {
      match x
      case KPage(k) => if k < KHEAP_PAGES { TableOfKPage(m, k); }
      case UPage(e, v) => if IsDir(m, e) && v < USER_LIMIT_PAGE { TableOfUPage(m, e, v); }
      case _ =>
    }
    SameSlotsKeepInv(m, r);
  }

  lemma AddUTableKeeps(m: Mem, d: nat, i: nat, t: nat)
    requires Inv(m) && IsDir(m, d) && IsFree(m, t) && i < USER_LIMIT_PDE && m.ram[d][i] == 0
    ensures Inv(AddUTable(m, d, i, t))
    ensures OnlySlot(m, AddUTable(m, d, i, t), UTable(d, i), Word(t, USER_FLAGS))
  {
    var r := AddUTable(m, d, i, t);
    forall x: Use | x != UTable(d, i) ensures Slot(r, x) == Slot(m, x) {
      match x
      case KPage(k) => if k < KHEAP_PAGES { TableOfKPage(m, k); }
      case UPage(e, v) => if IsDir(m, e) && v < USER_LIMIT_PAGE { TableOfUPage(m, e, v); }
      case _ =>
    }
    FillingKeepsInv(m, r, UTable(d, i), t);
  }

  lemma AddUPageKeeps(m: Mem, d: nat, v: nat, f: nat)
    requires Inv(m) && IsDir(m, d) && IsFree(m, f) && 0 < v < USER_LIMIT_PAGE
    requires m.ram[d][PdeIndex(v)] != 0 && UEntry(m, d, v) == 0
    ensures Inv(AddUPage(m, d, v, f))
    ensures OnlySlot(m, AddUPage(m, d, v, f), UPage(d, v), Word(f, USER_FLAGS))
  {
    var r := AddUPage(m, d, v, f);
    TableOfUPage(m, d, v);
    forall x: Use | x != UPage(d, v) ensures Slot(r, x) == Slot(m, x) {
      match x
      case KPage(k) => if k < KHEAP_PAGES { TableOfKPage(m, k); }
      case UPage(e, w) => if IsDir(m, e) && w < USER_LIMIT_PAGE { TableOfUPage(m, e, w); }
      case _ =>
    }
    FillingKeepsInv(m, r, UPage(d, v), f);
  }

  lemma DropUPageKeeps(m: Mem, d: nat, v: nat)
    requires Inv(m) && IsDir(m, d) && v < USER_LIMIT_PAGE && UEntry(m, d, v) != 0
    ensures FrameOf(UEntry(m, d, v)) < |m.owner| && m.owner[FrameOf(UEntry(m, d, v))] == UPage(d, v)
    ensures Inv(DropUPage(m, d, v))
    ensures OnlySlot(m, DropUPage(m, d, v), UPage(d, v), 0)
  {
    assert NamesOwn(m, UPage(d, v));
    var r := DropUPage(m, d, v);
    TableOfUPage(m, d, v);
    forall x: Use | x != UPage(d, v) ensures Slot(r, x) == Slot(m, x) {
      match x
      case KPage(k) => if k < KHEAP_PAGES { TableOfKPage(m, k); }
      case UPage(e, w) => if IsDir(m, e) && w < USER_LIMIT_PAGE { TableOfUPage(m, e, w); }
      case _ =>
    }
    ClearingKeepsInv(m, r, UPage(d, v));
  }

  lemma DropUTableKeeps(m: Mem, d: nat, i: nat)
    requires Inv(m) && IsDir(m, d) && i < USER_LIMIT_PDE && m.ram[d][i] != 0
    requires forall v: nat :: PdeIndex(v) == i ==> UEntry(m, d, v) == 0
    ensures FrameOf(m.ram[d][i]) < |m.owner| && m.owner[FrameOf(m.ram[d][i])] == UTable(d, i)
    ensures Inv(DropUTable(m, d, i))
    ensures OnlySlot(m, DropUTable(m, d, i), UTable(d, i), 0)
  {
    assert NamesOwn(m, UTable(d, i));
    var r := DropUTable(m, d, i);
    forall x: Use | x != UTable(d, i) ensures Slot(r, x) == Slot(m, x) {
      match x
      case KPage(k) => if k < KHEAP_PAGES { TableOfKPage(m, k); }
      case UPage(e, w) =>
        if IsDir(m, e) && w < USER_LIMIT_PAGE {
          TableOfUPage(m, e, w);
          assert e == d && PdeIndex(w) == i ==> UEntry(m, d, w) == 0;
        }
      case _ =>
    }
    ClearingKeepsInv(m, r, UTable(d, i));
  }

  lemma DropDirKeeps(m: Mem, d: nat)
    requires Inv(m) && IsDir(m, d) && forall i :: 0 <= i < USER_LIMIT_PDE ==> m.ram[d][i] == 0
    ensures Inv(DropDir(m, d))
    ensures forall x: Use :: Slot(DropDir(m, d), x) == Slot(m, x)
  {
    var r := DropDir(m, d);
    forall x: Use ensures Slot(r, x) == Slot(m, x) {
    }
    SameSlotsKeepInv(m, r);
  }

  /** Tasks and kernel code write to the pages they own; that touches no directory or table. */
  lemma WritesKeep(m: Mem, f: nat, page: Page)
    requires Inv(m) && f < |m.owner| && |page| == ENTRIES && (m.owner[f].KPage? || m.owner[f].UPage?)
    ensures var r := m.(ram := m.ram[f := page]);
      Inv(r) && forall x: Use :: Slot(r, x) == Slot(m, x)
  {
    var r := m.(ram := m.ram[f := page]);
    forall x: Use ensures Slot(r, x) == Slot(m, x) {
      match x
      case KPage(k) => if k < KHEAP_PAGES { TableOfKPage(m, k); }
      case UPage(e, v) => if IsDir(m, e) && v < USER_LIMIT_PAGE { TableOfUPage(m, e, v); }
      case _ =>
    }
    SameSlotsKeepInv(m, r);
  }
}
