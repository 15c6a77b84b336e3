/** Which block malloc answers and what is left of the place it took, and where free puts a block
    (userspace/stdlib/malloc.c:37-129, userspace/stdlib/free.c:39-70).  Sizes of the headers are
    written as bytes: 24 for a page block, 16 for a memory block. */
module UserHeapAnswers {
  import opened Paging
  import opened UserHeapModel
  import opened UserHeapInvariant
  import opened UserHeapMalloc
  import opened UserHeapFree

  /** Sizes are rounded up to the next multiple of 8, and pages are asked for as few as hold the block and
      both headers. */
  lemma SizesAreTight(size: nat)
    requires Sane(size)
    ensures AlignUp(size) % 8 == 0 && size <= AlignUp(size) < size + 8
    ensures MappedSize(size) % 4096 == 0 && MappedSize(size) - 4096 < AlignUp(size) + 40 <= MappedSize(size)
  {
    SizesFitIff(size);
    RoundedToEight(size);
    PagesAreWhole(AllocSize(size));
    hide AlignUp, Target, AllocSize, MappedSize;
  }

  lemma RoundedToEight(size: nat)
    ensures AlignUp(size) % 8 == 0
  {
  }

  lemma PagesAreWhole(size: nat)
    ensures PAGE_SIZE * PagesRequired(size) % 4096 == 0
  {
  }

  // From pool to r the sizes of the listed blocks other than b, and the bump area of p, are the same.
  ghost predicate OthersAlike(pool: Pool, r: Pool, p: nat, list: seq<nat>, b: nat) {
    && p in pool.pages && p in r.pages
    && r.pages[p].bump == pool.pages[p].bump && r.pages[p].room == pool.pages[p].room
    && (forall x :: x in list && x != b ==> x in pool.blocks && x in r.blocks && r.blocks[x].size == pool.blocks[x].size)
  }

  /** A request served from a free block gets the low end of it.  What is left behind the new block and a
      header for it keeps the block's place in the free list; nothing is left of a block of just the
      right size. */
  lemma FitAnswers(pool: Pool, lay: Layout, p: nat, k: nat, need: nat, mapped: nat, og: nat)
    requires UserHeapMalloc.Request(pool, lay, Fit(p, k), need, mapped, og) && !TooTight(pool, lay, Fit(p, k), need)
    ensures forall q :: q in lay.order ==> q in pool.pages
    ensures var r, b := Take(pool, lay, Fit(p, k), need, mapped, og), lay.free[p][k];
      && var after := LayoutAfterTake(pool, lay, Fit(p, k), need, mapped);
      && Taken(pool, lay, Fit(p, k), mapped) == b && Gained(pool, r, b, need)
      && OthersAlike(pool, r, p, lay.free[p], b) && p in after.free
      && var left := pool.blocks[b].size - need;
      && (left == 0 ==> after.free[p] == lay.free[p][..k] + lay.free[p][k + 1..])
      && (left > 0 ==> left >= 16 && IsFree(r, b + 16 + need, left - 16))
      && (left > 0 ==> |after.free[p]| == |lay.free[p]| && after.free[p][k] == b + 16 + need)
      && (left > 0 ==> forall i :: 0 <= i < |lay.free[p]| && i != k ==> after.free[p][i] == lay.free[p][i])
  {
    hide Inv, PageOk, Tiled, Gained, Split, TakeWhole;
    OrderKnown(pool, lay);
    MallocGives(pool, lay, Fit(p, k), need, mapped, og);
    PageOkOf(pool, lay, p);
    var b, before := lay.free[p][k], At(lay.free[p], k - 1);
    var left := pool.blocks[b].size - need;
    FreeBlock(pool, p, lay.tiles[p], lay.free[p], k, b);
    FreeAreTiles(pool, p, lay.tiles[p], lay.free[p]);
    PageOkTiled(pool, p, lay.tiles[p], lay.free[p]);
    BlocksInside(pool, p, lay.tiles[p]);
    if pool.blocks[b].size > need {
      RestIsNew(pool, p, lay.tiles[p], Index(lay.tiles[p], b), b + need + BLOCK_HEADER);
      SplitFacts(pool, p, before, b, need);
      assert left >= 16;
      assert IsFree(Take(pool, lay, Fit(p, k), need, mapped, og), b + 16 + need, left - 16);
      assert OthersAlike(pool, Take(pool, lay, Fit(p, k), need, mapped, og), p, lay.free[p], b);
    } else {
      WholeFacts(pool, p, before, b);
    }
  }

  ghost predicate IsFree(pool: Pool, b: nat, size: nat) {
    b in pool.blocks && !pool.blocks[b].live && pool.blocks[b].size == size
  }

  /** A request served from a bump area gets its start, and one that needs a new page block the bytes just
      behind its header; the bump area then starts behind the block. */
  lemma BumpAnswers(pool: Pool, lay: Layout, c: Choice, need: nat, mapped: nat, og: nat)
    requires UserHeapMalloc.Request(pool, lay, c, need, mapped, og) && !c.Fit?
    ensures forall q :: q in lay.order ==> q in pool.pages
    ensures var r, after := Take(pool, lay, c, need, mapped, og), LayoutAfterTake(pool, lay, c, need, mapped);
      && var p, b := if c.Room? then c.page else mapped, if c.Room? then pool.pages[c.page].bump else mapped + 24;
      && Taken(pool, lay, c, mapped) == b && Gained(pool, r, b, need)
      && p in r.pages && r.pages[p].bump == b + 16 + need
      && (c.Room? ==> after.free == lay.free && after.order == lay.order)
      && (c.Fresh? ==> after.free == lay.free[p := []] && after.order == lay.order + [p] && r.pages[p].og == og)
  {
    hide Inv, PageOk, Tiled, Gained;
    OrderKnown(pool, lay);
    MallocGives(pool, lay, c, need, mapped, og);
    if c.Fresh? {
      var last := At(lay.order, |lay.order| - 1);
      assert last != NULL ==> last in lay.order;
      GrownFacts(pool, mapped, og, last, need + BLOCK_HEADER);
      hide Carve, AppendPage;
    }
  }

  /** A block that is freed and is not the last one in use of its page block is swallowed by the last free
      block if that one ends where it starts; otherwise it becomes the last of the free list.  No other
      block of the list and no bump area changes. */
  lemma ReleaseAnswers(pool: Pool, lay: Layout, b: nat)
    requires Inv(pool, lay) && IsLive(pool, b)
    requires !OnlyLive(pool, lay.tiles[PageOf(pool, lay, b)], b)
    ensures var r, after, p := Freed(pool, lay, b), LayoutAfterFree(pool, lay, b), PageOf(pool, lay, b);
      && p in after.free && p in after.tiles
      && var free, last := lay.free[p], At(lay.free[p], |lay.free[p]| - 1);
      && if free != [] && last in pool.blocks && last + 16 + pool.blocks[last].size == b
         then
           && after.free == lay.free && b !in after.tiles[p] && OthersAlike(pool, r, p, free, last)
           && IsFree(r, last, pool.blocks[last].size + 16 + pool.blocks[b].size)
         else
           && after.free == lay.free[p := free + [b]] && after.tiles == lay.tiles && OthersAlike(pool, r, p, free, b)
           && IsFree(r, b, pool.blocks[b].size)
  {
    hide Inv, PageFree, FreeRequest, Tiled, Freed, LayoutAfterFree, EndingOf, OthersAlike, IsFree;
    EndingIs(pool, lay, b);
    if EndingOf(pool, lay, b) == Merges {
      MergeAnswers(pool, lay, b);
    } else {
      AppendAnswers(pool, lay, b);
    }
  }

  lemma EndingIs(pool: Pool, lay: Layout, b: nat)
    requires Inv(pool, lay) && IsLive(pool, b) && !OnlyLive(pool, lay.tiles[PageOf(pool, lay, b)], b)
    ensures var free := lay.free[PageOf(pool, lay, b)];
      && var last, c := At(free, |free| - 1), EndingOf(pool, lay, b);
      && (c == Merges <==> free != [] && last in pool.blocks && last + 16 + pool.blocks[last].size == b)
      && (c == Merges || c == Starts || c == Appends)
  {
    PageFreeIff(pool, lay, b);
    hide Inv, PageFree;
  }

  lemma MergeAnswers(pool: Pool, lay: Layout, b: nat)
    requires Inv(pool, lay) && IsLive(pool, b) && EndingOf(pool, lay, b) == Merges
    ensures var r, after, p := Freed(pool, lay, b), LayoutAfterFree(pool, lay, b), PageOf(pool, lay, b);
      && p in after.free && p in after.tiles && after.free == lay.free && b !in after.tiles[p]
      && var free, last := lay.free[p], At(lay.free[p], |lay.free[p]| - 1);
      && last in pool.blocks && OthersAlike(pool, r, p, free, last)
      && IsFree(r, last, pool.blocks[last].size + 16 + pool.blocks[b].size)
  {
    var p := PageOf(pool, lay, b);
    PageTiled(pool, lay, p);
    TilesDistinct(pool, p, lay.tiles[p]);
    BlocksInside(pool, p, lay.tiles[p]);
    RequestOf(pool, lay, b);
    LastFree(pool, p, lay.tiles[p], lay.free[p], b);
    hide Inv, PageFree, FreeRequest, Tiled, EndingOf;
    MergedIs(pool, lay, b);
    WithoutHas(lay.tiles[p], Index(lay.tiles[p], b));
    hide Without, Freed;
  }

  lemma AppendAnswers(pool: Pool, lay: Layout, b: nat)
    requires Inv(pool, lay) && IsLive(pool, b) && (EndingOf(pool, lay, b) == Starts || EndingOf(pool, lay, b) == Appends)
    ensures var r, after, p := Freed(pool, lay, b), LayoutAfterFree(pool, lay, b), PageOf(pool, lay, b);
      && after.free == lay.free[p := lay.free[p] + [b]] && after.tiles == lay.tiles
      && OthersAlike(pool, r, p, lay.free[p], b) && IsFree(r, b, pool.blocks[b].size)
  {
    hide Inv, PageFree, FreeRequest, EndingOf, Join, Freed, OthersAlike, IsFree;
    var p := PageOf(pool, lay, b);
    RequestOf(pool, lay, b);
    LastFree(pool, p, lay.tiles[p], lay.free[p], b);
    FreedIsJoin(pool, lay, b);
    JoinAlike(pool, p, At(lay.free[p], |lay.free[p]| - 1), b, lay.free[p]);
  }

  lemma JoinAlike(pool: Pool, p: nat, last: nat, b: nat, list: seq<nat>)
    requires p in pool.pages && b in pool.blocks && last != b && (last != NULL ==> last in pool.blocks)
    requires forall x :: x in list ==> x in pool.blocks
    ensures OthersAlike(pool, Join(pool, p, last, b), p, list, b) && IsFree(Join(pool, p, last, b), b, pool.blocks[b].size)
  {
    JoinFacts(pool, p, last, b);
    hide Join;
  }
}
