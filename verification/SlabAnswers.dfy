/** Which address kmalloc answers, and how kmalloc and kfree undo each other (kernel/memory.c:400-492). */
module SlabAnswers {
  import opened Paging
  import opened FrameBitmap
  import opened Sequences
  import opened SlabModel
  import opened SlabInvariant

  /** A slab holds as many objects as fit in its page behind the header. */
  lemma SlabIsFilled(c: nat)
    requires c < NUM_CLASSES
    ensures HEADER + ObjSize(c) * Total(c) <= PAGE_SIZE < HEADER + ObjSize(c) * (Total(c) + 1)
  {
  }

  // What kmalloc needs of the page mmap picks.
  ghost predicate HasRoom(h: Heap, size: nat, page: nat) {
    && |h.partial| == |h.full| == NUM_CLASSES && (size <= 1024 || size > 2048)
    && (size <= 1024 && SizeToClass(size) < NUM_CLASSES && h.partial[SizeToClass(size)] == [] ==> FreeRun(UsedPages(h), page, 1))
    && (size > 2048 ==> FreeRun(UsedPages(h), page, BigPages(size)))
  }

  /** From an empty cache kmalloc answers the last place of the page where an object of the class fits. */
  lemma NewSlabGivesLastPlace(h: Heap, size: nat, page: nat)
    requires Inv(h) && HasRoom(h, size, page) && size <= 1024
    requires SizeToClass(size) < NUM_CLASSES && h.partial[SizeToClass(size)] == []
    ensures Malloc(h, size, page).Got?
    ensures var Got(r, b) := Malloc(h, size, page);
      && b.Obj? && b.slab == page < |r.use|
      && var at, s := Address(r, b) - PageAddr(page), ObjSize(SizeToClass(size));
      && HEADER <= at && (at - HEADER) % s == 0 && at + s <= PAGE_SIZE < at + 2 * s
  {
    ClassOf(size);
    var c := SizeToClass(size);
    var s, n := ObjSize(c), Total(c);
    SlabIsFilled(c);
    TotalAtLeastThree(c);
    assert s * n == s * (n - 1) + s;
    assert (s * (n - 1)) % s == 0;
  }

  // The offset in its page of the first object handed out of a new slab of class c.
  function FirstOffset(c: nat): nat {
    match c
    case 0 => 0xFF0 case 1 => 0xFD0 case 2 => 0xF90 case 3 => 0xF10
    case 4 => 0xE10 case 5 => 0xC10 case _ => 0x810
  }

  /** The first object of each class and the first large block, as addresses. */
  lemma FirstAddresses(h: Heap, size: nat, page: nat)
    requires Inv(h) && HasRoom(h, size, page)
    requires SizeToClass(size) < NUM_CLASSES ==> h.partial[SizeToClass(size)] == []
    ensures Malloc(h, size, page).Got?
    ensures var Got(r, b) := Malloc(h, size, page);
      && (b.Obj? ==> b.slab < |r.use|)
      && Address(r, b) == 0xC040_0000 + 0x1000 * page + if size > 2048 then 0x10 else FirstOffset(SizeToClass(size))
  {
    ClassOf(size);
  }

  /** A large block gets the pages its bytes and its header need, and a whole page more when these
      fill the last one exactly. */
  lemma BigPagesAreTight(size: nat)
    ensures (BigPages(size) - 1) * PAGE_SIZE <= size + HEADER < BigPages(size) * PAGE_SIZE
  {
  }

  // The two heaps differ at most in free lists of pages that are no slabs.
  ghost predicate SameHeap(h: Heap, r: Heap) {
    && r.use == h.use && r.partial == h.partial && r.full == h.full
    && (forall k: nat :: k < |h.use| && h.use[k].SlabPage? && k in h.free ==> k in r.free && r.free[k] == h.free[k])
  }

  /** kfree of a block just returned by kmalloc undoes the kmalloc: the pages in use, the slab lists in
      their order and the free lists in theirs are what they were. */
  lemma FreeUndoesMalloc(h: Heap, size: nat, page: nat)
    requires Inv(h) && HasRoom(h, size, page)
    ensures Malloc(h, size, page).Got?
    ensures var Got(r, b) := Malloc(h, size, page);
      && Inv(r) && Live(r, b) && (b.Obj? ==> r.use[b.slab].cls < NUM_CLASSES)
      && SameHeap(h, Free(r, b))
  {
    ClassOf(size);
    MallocKeeps(h, size, page);
    var Got(r, b) := Malloc(h, size, page);
    FreeKeeps(r, b);
    var c := SizeToClass(size);
    if c == NUM_CLASSES {
      LargeUndone(h, page, BigPages(size));
    } else if h.partial[c] != [] {
      ObjectUndone(h, c);
    } else {
      SlabUndone(h, c, page);
    }
  }

  lemma LargeUndone(h: Heap, page: nat, n: nat)
    requires FreeRun(UsedPages(h), page, n) && n > 0 && |h.partial| == |h.full| == NUM_CLASSES
    ensures var r := h.(use := seq(|h.use|, q requires 0 <= q < |h.use| => if page <= q < page + n then Big(page, n) else h.use[q]));
      Live(r, Large(page)) && Free(r, Large(page)) == h
  {
    var r := h.(use := seq(|h.use|, q requires 0 <= q < |h.use| => if page <= q < page + n then Big(page, n) else h.use[q]));
    forall q | page <= q < page + n ensures h.use[q] == Unused {
      assert !UsedPages(h)[q];
    }
    assert Free(r, Large(page)).use == h.use;
  }

  lemma ObjectUndone(h: Heap, c: nat)
    requires Inv(h) && c < NUM_CLASSES - 1 && h.partial[c] != []
    ensures h.partial[c][0] in h.free && h.free[h.partial[c][0]] != []
    ensures var k := h.partial[c][0];
      var r, b := Taken(h, c), Obj(k, h.free[k][|h.free[k]| - 1]);
      Live(r, b) && r.use[k].cls == c && Free(r, b) == h
  {
    PartialHead(h, c);
    TakeObjectLive(h, c);
    var k := h.partial[c][0];
    var f, r := h.free[k], Taken(h, c);
    assert f[..|f| - 1] + [f[|f| - 1]] == f;
    assert h.free[k := f[..|f| - 1]][k := f] == h.free;
    if |f| == 1 {
      assert Remove([k] + h.full[c], k) == h.full[c];
      assert h.full[c := [k] + h.full[c]][c := h.full[c]] == h.full;
      assert [k] + h.partial[c][1..] == h.partial[c];
      assert h.partial[c := h.partial[c][1..]][c := h.partial[c]] == h.partial;
    }
  }

  lemma SlabUndone(h: Heap, c: nat, page: nat)
    requires Inv(h) && c < NUM_CLASSES - 1 && h.partial[c] == [] && page < |h.use| && h.use[page] == Unused
    ensures var r, b := WithSlab(h, c, page), Obj(page, Total(c) - 1);
      Live(r, b) && r.use[page].cls == c && SameHeap(h, Free(r, b))
  {
    TotalAtLeastThree(c);
    NewSlabLive(h, c, page);
    var r := WithSlab(h, c, page);
    assert |r.free[page]| == Total(c) - 1 > 1;
    assert Remove([page], page) == [];
    assert h.use[page := SlabPage(c)][page := Unused] == h.use;
    assert h.partial[c := [page]][c := []] == h.partial;
  }

  /** Last in, first out: while its slab has other objects in use, an object that was freed is the
      answer to the next kmalloc of its class if and only if its slab was full or first among the
      slabs with free objects. */
  lemma FreedIsNext(h: Heap, b: Block, size: nat, page: nat)
    requires Inv(h) && Live(h, b) && b.Obj?
    requires SizeToClass(size) == h.use[b.slab].cls < NUM_CLASSES && |h.free[b.slab]| + 1 < Total(h.use[b.slab].cls)
    ensures var c := h.use[b.slab].cls;
      && Malloc(Free(h, b), size, page).Got?
      && (Malloc(Free(h, b), size, page).block == b <==>
            b.slab in h.full[c] || (h.partial[c] != [] && h.partial[c][0] == b.slab))
  {
    var k, j, c := b.slab, b.index, h.use[b.slab].cls;
    LiveObject(h, k, j);
    FreeKeeps(h, b);
    var r := Free(h, b);
    assert r.free[k] == h.free[k] + [j];
    PartialHead(r, c);
  }
}
