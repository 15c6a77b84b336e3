/** What the processor lets a task reach through a page directory, and what the memory invariant says
    about it (kernel/include/memory.h:15-25, kernel/memory.c:225-342, kernel/syscall/mmap.c:25-71).
    An address is split into directory index, table index and offset, and a word into a frame and the
    flag bits present (0), writable (1) and user (2), as the processor does it.
 */
module Access {
  import opened Paging
  import opened Memory

  predicate Present(word: nat) { word % 2 == 1 }
  predicate Writable(word: nat) { word / 2 % 2 == 1 }
  predicate ForUser(word: nat) { word / 4 % 2 == 1 }

  // The two words the processor reads for address p.
  function DirWord(dir: seq<nat>, p: nat): nat {
    var i := p / 0x40_0000;
    if i < |dir| then dir[i] else 0
  }

  function TableWord(ram: seq<Page>, dir: seq<nat>, p: nat): nat {
    Peek(ram, DirWord(dir, p) / 0x1000, p / 0x1000 % 0x400)
  }

  // Ring 3 may read and write p.
  predicate UserMay(ram: seq<Page>, dir: seq<nat>, p: nat) {
    var d, t := DirWord(dir, p), TableWord(ram, dir, p);
    Present(d) && Writable(d) && ForUser(d) && Present(t) && Writable(t) && ForUser(t)
  }

  // The kernel may read and write p.
  predicate KernelMay(ram: seq<Page>, dir: seq<nat>, p: nat) {
    var d, t := DirWord(dir, p), TableWord(ram, dir, p);
    Present(d) && Writable(d) && Present(t) && Writable(t)
  }

  // The physical address p goes to.
  function Physical(ram: seq<Page>, dir: seq<nat>, p: nat): nat {
    TableWord(ram, dir, p) / 0x1000 * 0x1000 + p % 0x1000
  }

  // The words of an address are those of its page.
  lemma WordsOfPage(ram: seq<Page>, dir: seq<nat>, p: nat)
    ensures p / 0x40_0000 == PdeIndex(p / PAGE_SIZE) && p / 0x1000 % 0x400 == PteIndex(p / PAGE_SIZE)
    ensures DirWord(dir, p) != 0 ==> TableWord(ram, dir, p) == Entry(ram, dir, p / PAGE_SIZE)
    ensures DirWord(dir, p) == 0 ==> Entry(ram, dir, p / PAGE_SIZE) == 0
  {
  }

  lemma UserFlags(word: nat)
    requires word % PAGE_SIZE == USER_FLAGS
    ensures Present(word) && Writable(word) && ForUser(word)
  {
  }

  lemma KernelFlags(word: nat)
    requires word % PAGE_SIZE == KERNEL_FLAGS
    ensures Present(word) && Writable(word) && !ForUser(word)
  {
  }

  /** In the user half ring 3 reaches an address exactly when its page is mapped, and then it reaches the
      frame that is owned for that very page of that very directory. */
  lemma UserReachesMapped(m: Mem, d: nat, p: nat)
    requires Inv(m) && IsDir(m, d) && p < 0xC000_0000
    ensures d < |m.ram|
    ensures UserMay(m.ram, m.ram[d], p) <==> UEntry(m, d, p / 0x1000) != 0
    ensures UserMay(m.ram, m.ram[d], p) ==>
      var a := Physical(m.ram, m.ram[d], p);
      && a % 0x1000 == p % 0x1000 && a / 0x1000 == FrameOf(UEntry(m, d, p / 0x1000)) < |m.owner|
      && m.owner[a / 0x1000] == UPage(d, p / 0x1000)
  {
    hide Present, Writable, ForUser;
    var v := p / PAGE_SIZE;
    WordsOfPage(m.ram, m.ram[d], p);
    TableOfUPage(m, d, v);
    assert NamesOwn(m, UTable(d, PdeIndex(v))) && NamesOwn(m, UPage(d, v));
    if UEntry(m, d, v) != 0 {
      UserFlags(DirWord(m.ram[d], p));
      UserFlags(TableWord(m.ram, m.ram[d], p));
    } else {
      NothingThere(m, d, p);
    }
  }

  lemma NothingThere(m: Mem, d: nat, p: nat)
    requires d < |m.ram| && UEntry(m, d, p / PAGE_SIZE) == 0
    ensures !UserMay(m.ram, m.ram[d], p) && !KernelMay(m.ram, m.ram[d], p)
  {
    WordsOfPage(m.ram, m.ram[d], p);
  }

  /** On the kernel heap the kernel reaches an address through its own directory exactly when its page is
      mapped, and then it reaches the frame that is owned for that page. */
  lemma KernelReachesMapped(m: Mem, p: nat)
    requires Inv(m) && 0xC040_0000 <= p < 0xE000_0000
    ensures KernelMay(m.ram, m.kpd, p) <==> KEntry(m, (p - 0xC040_0000) / 0x1000) != 0
    ensures KernelMay(m.ram, m.kpd, p) ==>
      var a := Physical(m.ram, m.kpd, p);
      && a % 0x1000 == p % 0x1000 && a / 0x1000 == FrameOf(KEntry(m, (p - 0xC040_0000) / 0x1000)) < |m.owner|
      && m.owner[a / 0x1000] == KPage((p - 0xC040_0000) / 0x1000)
  {
    hide Present, Writable, ForUser;
    var k := (p - 0xC040_0000) / 0x1000;
    HeapPage(p);
    WordsOfPage(m.ram, m.kpd, p);
    TableOfKPage(m, k);
    assert NamesOwn(m, KTable(PdeIndex(KHEAP_FIRST_PAGE + k))) && NamesOwn(m, KPage(k));
    if KEntry(m, k) != 0 {
      KernelFlags(DirWord(m.kpd, p));
      KernelFlags(TableWord(m.ram, m.kpd, p));
    } else {
      NoWord(m.ram, m.kpd, p);
    }
  }

  lemma HeapPage(p: nat)
    requires 0xC040_0000 <= p < 0xE000_0000
    ensures (p - 0xC040_0000) / 0x1000 < KHEAP_PAGES && p / PAGE_SIZE == KHEAP_FIRST_PAGE + (p - 0xC040_0000) / 0x1000
  {
  }

  lemma NoWord(ram: seq<Page>, dir: seq<nat>, p: nat)
    requires Entry(ram, dir, p / PAGE_SIZE) == 0
    ensures !KernelMay(ram, dir, p) && !UserMay(ram, dir, p)
  {
    WordsOfPage(ram, dir, p);
  }

  /** Ring 3 reaches no byte of the kernel heap's addresses, through whatever directory. */
  lemma HeapIsClosedToUsers(m: Mem, d: nat, p: nat)
    requires Inv(m) && 0xC040_0000 <= p < 0xE000_0000
    ensures !UserMay(m.ram, m.kpd, p)
    ensures IsDir(m, d) ==> d < |m.ram| && !UserMay(m.ram, m.ram[d], p)
  {
    hide Present, Writable, Linked;
    var i := p / 0x40_0000;
    HeapPage(p);
    var k := (p - 0xC040_0000) / 0x1000;
    WordsOfPage(m.ram, m.kpd, p);
    assert KHEAP_FIRST_PDE <= i < KHEAP_LIMIT_PDE;
    HeapWordClosed(m, i);
  }

  lemma HeapWordClosed(m: Mem, i: nat)
    requires Inv(m) && KHEAP_FIRST_PDE <= i < KHEAP_LIMIT_PDE
    ensures m.kpd[i] == 0 || !ForUser(m.kpd[i])
  {
    assert NamesOwn(m, KTable(i));
    if m.kpd[i] != 0 {
      KernelFlags(m.kpd[i]);
    }
  }

  /** Address spaces are isolated: what ring 3 reaches in the user half through one directory it reaches
      through no other and at no second address, and it is never a page table, a directory, a kernel heap
      page, a frame used at boot or a free frame. */
  lemma SpacesAreIsolated(m: Mem, d: nat, p: nat, e: nat, q: nat)
    requires Inv(m) && IsDir(m, d) && IsDir(m, e) && p < 0xC000_0000 && q < 0xC000_0000
    ensures d < |m.ram| && e < |m.ram|
    ensures UserMay(m.ram, m.ram[d], p) && UserMay(m.ram, m.ram[e], q) ==>
      (Physical(m.ram, m.ram[d], p) == Physical(m.ram, m.ram[e], q) <==> d == e && p == q)
    ensures UserMay(m.ram, m.ram[d], p) ==>
      var f := Physical(m.ram, m.ram[d], p) / 0x1000; f < |m.owner| && m.owner[f].UPage? && m.owner[f].dir == d
  {
    UserReachesMapped(m, d, p);
    UserReachesMapped(m, e, q);
    hide Inv, UserMay, Physical;
  }
}
