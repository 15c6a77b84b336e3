/** malloc and free of the userspace library, over the headers in memory
    (userspace/stdlib/malloc.c, userspace/stdlib/free.c). */
module UserMalloc {
  import opened Paging
  import opened UserHeapModel
  import opened UserHeapInvariant
  import opened UserHeapMalloc
  import opened UserHeapFree
  import opened UserHeapRuns

  class Heap {
    var memPool: nat
    var pages: map<nat, Page>
    var blocks: map<nat, Block>
    ghost var lay: Layout

    ghost function View(): Pool
      reads this
    {
      Pool(memPool, pages, blocks)
    }

    ghost function Reading(): State
      reads this
    {
      State(View(), lay)
    }

    ghost predicate Valid()
      reads this
    {
      Inv(View(), lay)
    }

    constructor ()
      ensures Valid() && View() == EMPTY_POOL && lay == EMPTY_LAYOUT
    {
      memPool, pages, blocks, lay := NULL, map[], map[], EMPTY_LAYOUT;
    }

    // alloc_page_block; mmap answered with `mapped`.
    method AllocPageBlock(size: nat, mapped: nat) returns (p: nat)
      requires 0 < size <= WORD - PAGE_SIZE
      modifies this`pages
      ensures p == mapped && pages == old(pages)[mapped := NewPage(PAGE_SIZE * PagesRequired(size), mapped, NULL)]
    {
      var totalPages := PagesRequired(size);
      p := mapped;
      pages := pages[p := Page(PAGE_SIZE * totalPages, PAGE_SIZE * totalPages - PAGE_HEADER, p + PAGE_HEADER, NULL, NULL, NULL)];
    }

    // alloc_mem_block.
    method AllocMemBlock(size: nat, p: nat) returns (b: nat)
      requires p in pages && BLOCK_HEADER <= size <= pages[p].room
      modifies this`pages, this`blocks
      ensures View() == Carve(old(View()), p, size) && b == old(pages[p].bump)
    {
      b := pages[p].bump;
      pages := pages[p := pages[p].(room := pages[p].room - size)];
      pages := pages[p := pages[p].(bump := pages[p].bump + size)];
      blocks := blocks[b := Block(size - BLOCK_HEADER, p, NULL, true)];
    }

    // The search of one free list: the first block of at least `need` bytes and the one before it.
    method FindBlock(p: nat, need: nat) returns (b: nat, before: nat)
      requires Valid() && p in pages && p in lay.free
      ensures forall f :: f in lay.free[p] ==> f in blocks
      ensures var k := FirstFit(View(), lay.free[p], 0, need);
        b == At(lay.free[p], k) && (b == NULL <==> k >= |lay.free[p]|) && (b != NULL ==> before == At(lay.free[p], k - 1))
    {
      hide Inv;
      ghost var v, free := View(), lay.free[p];
      FreeListOf(v, lay, p);
      b, before := pages[p].first, NULL;
      ghost var k := 0;
      while b != NULL
        invariant k <= |free| && b == At(free, k) && before == At(free, k - 1) && (k < |free| ==> Linked(v, free, k))
        invariant FirstFit(v, free, 0, need) == FirstFit(v, free, k, need)
        decreases |free| - k
      {
        if blocks[b].size >= need {
          return;
        }
        before, b, k := b, blocks[b].next, k + 1;
      }
    }

    // Take a free block: split it if it is larger than asked for, hand it out whole otherwise.
    method TakeFree(p: nat, before: nat, b: nat, need: nat)
      requires p in pages && b in blocks && blocks[b].parent == p && blocks[b].size >= need && before != b
      requires before != NULL ==> before in blocks
      requires blocks[b].size > need ==> before != b + need + BLOCK_HEADER
      requires blocks[b].size < WORD
      modifies this`pages, this`blocks
      ensures View() == if old(blocks[b].size) > need then Split(old(View()), p, before, b, need)
                        else TakeWhole(old(View()), p, before, b)
    {
      if blocks[b].size > need {
        var s := b + need + BLOCK_HEADER;
        blocks := blocks[s := Block((blocks[b].size - (need + BLOCK_HEADER)) % WORD, blocks[b].parent, blocks[b].next, false)];
        blocks := blocks[b := blocks[b].(size := need, live := true)];
        if before == NULL {
          pages := pages[blocks[b].parent := pages[blocks[b].parent].(first := s)];
        } else {
          blocks := blocks[before := blocks[before].(next := s)];
        }
        blocks := blocks[b := blocks[b].(next := NULL)];
      } else {
        blocks := blocks[b := blocks[b].(live := true)];
        if before == NULL {
          pages := pages[blocks[b].parent := pages[blocks[b].parent].(first := blocks[b].next)];
        } else {
          blocks := blocks[before := blocks[before].(next := blocks[b].next)];
        }
      }
    }

    // The nested search: where the request is served, and after which neighbour.
    method Search(aligned: nat) returns (it: nat, prev: nat, b: nat, before: nat)
      requires Valid() && Readable(View(), lay)
      ensures Located(View(), lay, Pick(View(), lay, 0, aligned), it, prev, b, before)
    {
      hide Inv, Readable;
      var target := aligned + BLOCK_HEADER;
      it, prev, b, before := memPool, NULL, NULL, NULL;
      ghost var i := 0;
      HeadOf(View(), lay);
      while it != NULL
        invariant i <= |lay.order| && it == At(lay.order, i) && prev == At(lay.order, i - 1) && b == NULL
        invariant Pick(View(), lay, i, aligned) == Pick(View(), lay, 0, aligned)
        invariant it == NULL <==> i == |lay.order|
        decreases |lay.order| - i
      {
        PageAt(View(), lay, i);
        b, before := FindBlock(it, aligned);
        FirstFitIsFirst(View(), lay.free[it], 0, aligned);
        if b != NULL || pages[it].room >= target {
          return;
        }
        prev, it, i := it, pages[it].next, i + 1;
        if i < |lay.order| {
          PageAt(View(), lay, i);
        }
      }
    }

    /** malloc: first fit over the pages in list order, then a new page block at the end. */
    method Malloc(size: nat, mapped: nat) returns (addr: nat)
      requires Valid() && Enabled(Reading(), UserHeapRuns.Request(size, mapped))
      modifies this
      ensures ServedBy(old(Reading()), Reading(), size, mapped, addr)
    {
      ghost var s := Reading();
      SizesFitIff(size);
      RequestOk(s, size, mapped);
      SoundIsReadable(s);
      StepServes(s, size, mapped);
      ghost var after := Step(s, UserHeapRuns.Request(size, mapped));
      hide Inv, Readable, Usable, Pick, Take, LayoutAfterTake, AlignUp, MappedSize, ServedBy, UserHeapMalloc.Request;
      var b := Serve(AlignUp(size), AllocSize(size), mapped);
      lay := after.lay;
      addr := b + BLOCK_HEADER;
    }

    // The change a request makes to the headers.
    method Serve(aligned: nat, allocSize: nat, mapped: nat) returns (b: nat)
      requires Valid() && Readable(View(), lay)
      requires allocSize == aligned + BLOCK_HEADER + PAGE_HEADER && allocSize <= WORD - PAGE_SIZE
      requires UserHeapMalloc.Request(View(), lay, Pick(View(), lay, 0, aligned), aligned, mapped, PAGE_SIZE * PagesRequired(allocSize))
      requires forall q :: q in lay.order ==> q in pages
      modifies this`pages, this`blocks, this`memPool
      ensures var c := Pick(old(View()), lay, 0, aligned);
        && b == Taken(old(View()), lay, c, mapped)
        && View() == Take(old(View()), lay, c, aligned, mapped, PAGE_SIZE * PagesRequired(allocSize))
    {
      hide Inv, Readable, Usable, Pick, Split, TakeWhole, Carve, AppendPage, PagesRequired, Chosen;
      HeadOf(View(), lay);
      ghost var c := Pick(View(), lay, 0, aligned);
      ChosenParts(View(), lay, c, aligned);
      var it, prev, f, before := Search(aligned);
      if f != NULL {
        FitsAt(View(), lay, it, c.index, aligned);
        TakeFree(it, before, f, aligned);
        b := f;
      } else if it != NULL {
        b := AllocMemBlock(aligned + BLOCK_HEADER, it);
      } else {
        b := ServeFresh(allocSize, mapped, prev);
      }
    }

    // A new page block, linked after the last one.
    method ServeFresh(allocSize: nat, mapped: nat, prev: nat) returns (b: nat)
      requires PAGE_HEADER + BLOCK_HEADER <= allocSize <= WORD - PAGE_SIZE && mapped !in pages
      requires prev != NULL ==> prev in pages
      requires prev == NULL <==> memPool == NULL
      modifies this`pages, this`blocks, this`memPool
      ensures b == mapped + PAGE_HEADER
      ensures View() == Carve(AppendPage(old(View()), mapped, PAGE_SIZE * PagesRequired(allocSize), prev), mapped, allocSize - PAGE_HEADER)
    {
      var page := AllocPageBlock(allocSize, mapped);
      if memPool == NULL {
        b := AllocMemBlock(allocSize - PAGE_HEADER, page);
        memPool := page;
      } else {
        pages := pages[page := pages[page].(prev := prev)];
        pages := pages[prev := pages[prev].(next := page)];
        b := AllocMemBlock(allocSize - PAGE_HEADER, page);
      }
    }

    // is_page_free: does the page hold nothing but b and free space?
    method IsPageFree(b: nat) returns (yes: bool)
      requires Valid() && IsLive(View(), b)
      ensures yes <==> PageFree(View(), lay, b)
    {
      hide Inv, Bytes;
      ghost var v, p := View(), PageOf(View(), lay, b);
      ghost var free := lay.free[p];
      FreeListOf(v, lay, p);
      var parent := blocks[b].parent;
      var total := pages[parent].room + blocks[b].size + BLOCK_HEADER + PAGE_HEADER;
      ghost var start := total;
      var it := pages[parent].first;
      ghost var k := 0;
      BytesFrom(v, free, 0);
      while it != NULL
        invariant k <= |free| && it == At(free, k) && (k < |free| ==> Linked(v, free, k))
        invariant forall f :: f in free[..k] ==> f in v.blocks
        invariant total == start + Bytes(v, free[..k])
        decreases |free| - k
      {
        BytesFrom(v, free, k);
        total := total + blocks[it].size + BLOCK_HEADER;
        it, k := blocks[it].next, k + 1;
      }
      assert free[..|free|] == free;
      yes := total == pages[parent].og;
    }

    // unmap_free_page.  munmap takes the headers inside the page away with it.
    method UnmapFreePage(p: nat)
      requires p in pages
      requires pages[p].next != NULL ==> pages[p].next in pages && pages[p].next != p
      requires pages[p].prev != NULL ==> pages[p].prev in pages && pages[p].prev != p
      modifies this`pages, this`blocks, this`memPool
      ensures View() == UnmapPage(old(View()), p)
    {
      if pages[p].next != NULL {
        pages := pages[pages[p].next := pages[pages[p].next].(prev := pages[p].prev)];
      }
      if pages[p].prev != NULL {
        pages := pages[pages[p].prev := pages[pages[p].prev].(next := pages[p].next)];
      }
      if p == memPool {
        if pages[p].next != NULL {
          memPool := pages[p].next;
        } else {
          memPool := NULL;
        }
      }
      var end := p + pages[p].og;
      blocks := map a | a in blocks && !(p <= a < end) :: blocks[a];
      pages := pages - {p};
    }

    /** free. */
    method Free(addr: nat)
      requires Valid() && addr >= BLOCK_HEADER && Enabled(Reading(), UserHeapRuns.Release(addr - BLOCK_HEADER))
      modifies this
      ensures ReleasedBy(old(Reading()), Reading(), addr - BLOCK_HEADER)
    {
      ghost var s := Reading();
      var b := addr - BLOCK_HEADER;
      StepReleases(s, b);
      hide Inv, LayoutAfterFree, Freed, ReleasedBy;
      Release(b);
      lay := LayoutAfterFree(s.pool, s.lay, b);
    }

    // The change a release makes to the headers.
    method Release(b: nat)
      requires Valid() && IsLive(View(), b)
      modifies this`pages, this`blocks, this`memPool
      ensures View() == Freed(old(View()), lay, b)
    {
      hide Inv, FreeRequest, PageFree, Bypass;
      ghost var v, p := View(), PageOf(View(), lay, b);
      LinksStay(v, lay, p);
      NoSelfLink(v, lay, p);
      RequestOf(v, lay, b);
      LastFree(v, p, lay.tiles[p], lay.free[p], b);
      FreeListOf(v, lay, p);
      var parent := blocks[b].parent;
      var pageFree := IsPageFree(b);
      blocks := blocks[b := blocks[b].(live := false)];
      if pageFree {
        UnmapFreePage(parent);
      } else {
        GiveBack(v, lay.free[p], parent, b);
      }
    }

    // The end of the free list takes b in: merged if it lies right before b, linked otherwise.
    method GiveBack(ghost v: Pool, ghost free: seq<nat>, p: nat, b: nat)
      requires p in pages && b in v.blocks && b !in free && View() == MarkFree(v, b)
      requires pages[p].first == At(free, 0) && (forall k: nat :: k < |free| ==> Linked(v, free, k))
      requires (forall f :: f in free ==> f in v.blocks) && (free != [] ==> !v.blocks[free[|free| - 1]].live)
      modifies this`pages, this`blocks
      ensures View() ==
        if free == [] then Relink(MarkFree(v, b), p, NULL, b)
        else
          var last := free[|free| - 1];
          if last + v.blocks[last].size + BLOCK_HEADER == b then Merge(v, last, b) else Relink(MarkFree(v, b), p, last, b)
    {
      var it := pages[p].first;
      assert free != [] ==> Linked(v, free, 0);
      if it == NULL {
        pages := pages[p := pages[p].(first := b)];
        return;
      }
      ghost var k := 0;
      while blocks[it].next != NULL
        invariant k < |free| && it == free[k] && Linked(v, free, k) && it != b
        decreases |free| - k
      {
        it, k := blocks[it].next, k + 1;
        assert Linked(v, free, k) && it in free;
      }
      assert k + 1 < |free| ==> Linked(v, free, k + 1);
      if !blocks[it].live && it + blocks[it].size + BLOCK_HEADER == b {
        blocks := blocks[it := blocks[it].(size := blocks[it].size + blocks[b].size + BLOCK_HEADER)];
      } else {
        blocks := blocks[it := blocks[it].(next := b)];
      }
    }
  }

  lemma BytesFrom(v: Pool, free: seq<nat>, k: nat)
    requires k <= |free| && (forall f :: f in free ==> f in v.blocks)
    ensures forall f :: f in free[..k] ==> f in v.blocks
    ensures k == 0 ==> Bytes(v, free[..0]) == 0
    ensures k < |free| ==> (forall f :: f in free[..k + 1] ==> f in v.blocks)
    ensures k < |free| ==> Bytes(v, free[..k + 1]) == Bytes(v, free[..k]) + v.blocks[free[k]].size + BLOCK_HEADER
  {
    if k < |free| {
      assert free[..k + 1][..k] == free[..k];
    }
  }

  lemma NoSelfLink(v: Pool, lay: Layout, p: nat)
    requires Inv(v, lay) && p in v.pages
    ensures v.pages[p].next != p && v.pages[p].prev != p
  {
    var i := Index(lay.order, p);
    assert NodeOk(v.pages, lay.order, i);
    PageOkOf(v, lay, p);
  }

  // What the search returns for each choice.
  ghost predicate Located(v: Pool, lay: Layout, c: Choice, it: nat, prev: nat, b: nat, before: nat) {
    match c
    case Fit(p, k) => it == p && p in v.pages && p in lay.free && k < |lay.free[p]| && b != NULL && b == lay.free[p][k]
      && before == At(lay.free[p], k - 1)
    case Room(p) => it == p && it != NULL && b == NULL
    case Fresh => it == NULL && prev == At(lay.order, |lay.order| - 1) && b == NULL
  }

  // Block k of a free list is a block and links to the next one.
  ghost predicate Linked(v: Pool, free: seq<nat>, k: nat)
    requires k < |free|
  {
    free[k] != NULL && LinkAt(v, free, k)
  }

  lemma ChosenParts(v: Pool, lay: Layout, c: Choice, need: nat)
    requires Chosen(v, lay, c, need)
    ensures c.Fit? ==> c.page in v.pages && c.page in lay.free && c.page in lay.tiles && c.index < |lay.free[c.page]|
    ensures c.Fit? ==> lay.free[c.page][c.index] in v.blocks && v.blocks[lay.free[c.page][c.index]].size >= need
    ensures c.Room? ==> c.page in v.pages && v.pages[c.page].room >= need + BLOCK_HEADER
  {
  }

  lemma FreeListOf(v: Pool, lay: Layout, p: nat)
    requires Inv(v, lay) && p in v.pages && p in lay.free
    ensures forall f :: f in lay.free[p] ==> f in v.blocks
    ensures v.pages[p].first == At(lay.free[p], 0)
    ensures forall k: nat :: k < |lay.free[p]| ==> Linked(v, lay.free[p], k)
  {
    var tiles, free := lay.tiles[p], lay.free[p];
    PageOkOf(v, lay, p);
    hide Inv;
    PageOkParts(v, p, tiles, free);
    FreeAreTiles(v, p, tiles, free);
    TilesKnown(v, p, tiles);
    hide PageOk, Tiled;
    forall k: nat | k < |free| ensures Linked(v, free, k) {
      assert LinkAt(v, free, k) && free[k] in free;
    }
  }

  lemma HeadOf(v: Pool, lay: Layout)
    requires Inv(v, lay)
    ensures v.head == At(lay.order, 0) && (v.head == NULL <==> lay.order == [])
    ensures At(lay.order, |lay.order| - 1) == NULL <==> lay.order == []
    ensures lay.order != [] ==> At(lay.order, |lay.order| - 1) in v.pages
  {
    if lay.order != [] {
      PageAt(v, lay, 0);
      PageAt(v, lay, |lay.order| - 1);
    }
  }

  lemma PageAt(v: Pool, lay: Layout, i: nat)
    requires Inv(v, lay) && i < |lay.order|
    ensures var p := lay.order[i];
      p in v.pages && p in lay.free && p in lay.tiles && p != NULL && v.pages[p].next == At(lay.order, i + 1)
  {
    assert NodeOk(v.pages, lay.order, i);
    PageOkOf(v, lay, lay.order[i]);
  }

  lemma FitsAt(v: Pool, lay: Layout, p: nat, k: nat, need: nat)
    requires Inv(v, lay) && p in v.pages && p in lay.free && p in lay.tiles && k < |lay.free[p]|
    ensures var b, before := lay.free[p][k], At(lay.free[p], k - 1);
      && b in v.blocks && v.blocks[b].parent == p && before != b && v.blocks[b].size < WORD
      && (before != NULL ==> before in v.blocks)
      && (v.blocks[b].size > need ==> before != b + need + BLOCK_HEADER)
  {
    PageOkOf(v, lay, p);
    var free, tiles, b := lay.free[p], lay.tiles[p], lay.free[p][k];
    hide Inv;
    FreeBlock(v, p, tiles, free, k, b);
    PageOkTiled(v, p, tiles, free);
    hide PageOk;
    if At(free, k - 1) != NULL {
      TilesApart(v, p, tiles, b, free[k - 1]);
    }
  }
}
