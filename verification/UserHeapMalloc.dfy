/** malloc keeps the tiling of page blocks, and exactly when it does
    (userspace/stdlib/malloc.c:12-129). */
module UserHeapMalloc {
  import opened UserHeapModel
  import opened UserHeapInvariant
  import opened Sequences

  // ---- Splitting a free block ----

  lemma SplitTiled(pool: Pool, r: Pool, p: nat, tiles: seq<nat>, i: nat, s: nat)
    requires p in pool.pages && p in r.pages && Tiled(pool, p, tiles) && i < |tiles|
    requires s !in tiles && s in r.blocks && tiles[i] in pool.blocks
    requires r.pages[p].bump == pool.pages[p].bump && r.pages[p].room == pool.pages[p].room && r.pages[p].og == pool.pages[p].og
    requires forall x :: x in tiles && x != tiles[i] && x in pool.blocks ==>
      x in r.blocks && r.blocks[x].size == pool.blocks[x].size && r.blocks[x].parent == pool.blocks[x].parent
    requires tiles[i] in r.blocks && r.blocks[tiles[i]].parent == p && r.blocks[s].parent == p
    requires r.blocks[tiles[i]].size % 8 == 0 && r.blocks[s].size % 8 == 0
    requires s == tiles[i] + BLOCK_HEADER + r.blocks[tiles[i]].size
    requires s + BLOCK_HEADER + r.blocks[s].size == tiles[i] + BLOCK_HEADER + pool.blocks[tiles[i]].size
    ensures Tiled(r, p, Insert(tiles, i + 1, s))
  {
    var t := Insert(tiles, i + 1, s);
    TilesDistinct(pool, p, tiles);
    forall j: nat | j < |t| ensures TileOk(r, p, t, j) {
      if j <= i {
        assert TileOk(pool, p, tiles, j) && tiles[j] in tiles;
      } else if j == i + 1 {
        assert TileOk(pool, p, tiles, i);
      } else {
        assert TileOk(pool, p, tiles, j - 1) && tiles[j - 1] in tiles;
      }
    }
  }

  lemma InsertHas(tiles: seq<nat>, i: nat, s: nat)
    requires i <= |tiles|
    ensures forall x :: x in Insert(tiles, i, s) <==> x == s || x in tiles
  {
    forall x ensures x in Insert(tiles, i, s) <==> x == s || x in tiles {
      assert tiles == tiles[..i] + tiles[i..];
    }
  }

  // The rest of a split block starts where no block starts.
  lemma RestIsNew(pool: Pool, p: nat, tiles: seq<nat>, i: nat, s: nat)
    requires p in pool.pages && Tiled(pool, p, tiles) && i < |tiles| && tiles[i] in pool.blocks
    requires tiles[i] < s < tiles[i] + BLOCK_HEADER + pool.blocks[tiles[i]].size
    ensures s !in tiles
  {
    forall j: nat | j < |tiles| ensures tiles[j] != s {
      if j < i {
        TilesAscend(pool, p, tiles, j, i);
      } else if i < j {
        TilesAscend(pool, p, tiles, i, j);
      }
    }
  }

  lemma SplitLinked(pool: Pool, p: nat, tiles: seq<nat>, free: seq<nat>, k: nat, need: nat)
    requires p in pool.pages && k < |free| && NoDup(free) && LinkedFrom(pool, pool.pages[p].first, free)
    requires free[k] + need + BLOCK_HEADER !in free && NULL !in free
    ensures var s: nat := free[k] + need + BLOCK_HEADER;
      && free[k] in pool.blocks && (At(free, k - 1) != NULL ==> At(free, k - 1) in pool.blocks)
      && var r := Split(pool, p, At(free, k - 1), free[k], need);
      NoDup(free[k := s]) && LinkedFrom(r, r.pages[p].first, free[k := s])
  {
    var s: nat := free[k] + need + BLOCK_HEADER;
    var list: seq<nat> := free[k := s];
    assert LinkAt(pool, free, k) && (k > 0 ==> LinkAt(pool, free, k - 1) && free[k - 1] in free);
    var r := Split(pool, p, At(free, k - 1), free[k], need);
    forall i: nat | i < |list| ensures LinkAt(r, list, i) {
      assert LinkAt(pool, free, i) && free[i] in free;
    }
  }

  // Marking b taken and its rest s free is what happens to the free blocks.
  lemma SplitFree(pool: Pool, r: Pool, tiles: seq<nat>, free: seq<nat>, k: nat, s: nat, t: seq<nat>)
    requires k < |free| && NoDup(free) && AreFree(pool, tiles, free)
    requires s !in tiles && (forall x :: x in t <==> x == s || x in tiles)
    requires forall x :: x in tiles ==> x in pool.blocks
    requires forall x :: x in pool.blocks && x != s && x != free[k] ==> x in r.blocks && r.blocks[x].live == pool.blocks[x].live
    requires s in r.blocks && !r.blocks[s].live && free[k] in r.blocks && r.blocks[free[k]].live
    ensures AreFree(r, t, free[k := s])
  {
    var list: seq<nat> := free[k := s];
    forall x ensures x in list <==> x in t && x in r.blocks && !r.blocks[x].live {
      if x in list && x != s {
        assert free[Index(list, x)] == x && x in free;
      }
      if x in free && x != free[k] {
        assert list[Index(free, x)] == x;
      }
      assert list[k] == s;
    }
  }

  // What a split changes beside links.
  lemma SplitFacts(pool: Pool, p: nat, before: nat, b: nat, need: nat)
    requires p in pool.pages && b in pool.blocks && (before != NULL ==> before in pool.blocks)
    requires before != b && before != b + need + BLOCK_HEADER && pool.blocks[b].size >= need + BLOCK_HEADER
    requires pool.blocks[b].size < WORD
    ensures var r, s := Split(pool, p, before, b, need), b + need + BLOCK_HEADER;
      && p in r.pages && r.pages[p] == pool.pages[p].(first := r.pages[p].first)
      && b in r.blocks && r.blocks[b].size == need && r.blocks[b].parent == pool.blocks[b].parent && r.blocks[b].live
      && s in r.blocks && r.blocks[s].size == pool.blocks[b].size - need - BLOCK_HEADER
      && r.blocks[s].parent == pool.blocks[b].parent && !r.blocks[s].live
      && (forall x :: x in pool.blocks && x != s && x != b ==>
            x in r.blocks && r.blocks[x] == pool.blocks[x].(next := r.blocks[x].next))
      && (forall x :: x in r.blocks ==> x == s || x == b || x in pool.blocks)
  {
  }

  // The page after a split.
  lemma SplitPage(pool: Pool, p: nat, tiles: seq<nat>, free: seq<nat>, k: nat, b: nat, need: nat)
    requires FreeAt(pool, p, tiles, free, k, b) && need % 8 == 0
    requires b in pool.blocks && pool.blocks[b].size >= need + BLOCK_HEADER
    ensures b in tiles && (At(free, k - 1) != NULL ==> At(free, k - 1) in pool.blocks)
    ensures var s: nat := b + need + BLOCK_HEADER;
      && var r := Split(pool, p, At(free, k - 1), b, need);
      && Tiled(r, p, Insert(tiles, Index(tiles, b) + 1, s))
      && Listed(r, p, Insert(tiles, Index(tiles, b) + 1, s), free[k := s])
  {
    hide Split, Tiled, HasLive, LinkedFrom, AreFree, Insert;
    FreeBlock(pool, p, tiles, free, k, b);
    FreeAreTiles(pool, p, tiles, free);
    var s: nat := b + need + BLOCK_HEADER;
    var i := Index(tiles, b);
    RestIsNew(pool, p, tiles, i, s);
    TilesKnown(pool, p, tiles);
    InsertHas(tiles, i + 1, s);
    SplitFacts(pool, p, At(free, k - 1), b, need);
    SplitTiled(pool, Split(pool, p, At(free, k - 1), b, need), p, tiles, i, s);
    SplitLinked(pool, p, tiles, free, k, need);
    SplitFree(pool, Split(pool, p, At(free, k - 1), b, need), tiles, free, k, s, Insert(tiles, i + 1, s));
  }

  lemma SplitConfined(pool: Pool, p: nat, before: nat, b: nat, need: nat)
    requires p in pool.pages && b in pool.blocks && (before != NULL ==> before in pool.blocks && InPage(pool, p, before))
    requires InPage(pool, p, b) && InPage(pool, p, b + need + BLOCK_HEADER)
    ensures Confined(pool, Split(pool, p, before, b, need), p)
  {
  }

  /** Splitting keeps the invariant when the rest has room for its header. */
  lemma SplitKeeps(pool: Pool, lay: Layout, p: nat, k: nat, need: nat)
    requires Inv(pool, lay) && p in pool.pages && p in lay.free && k < |lay.free[p]| && need % 8 == 0
    requires lay.free[p][k] in pool.blocks && pool.blocks[lay.free[p][k]].size >= need + BLOCK_HEADER
    ensures Chosen(pool, lay, Fit(p, k), need)
    ensures var b := lay.free[p][k];
      Inv(Split(pool, p, At(lay.free[p], k - 1), b, need), LayoutAfterTake(pool, lay, Fit(p, k), need, 0))
  {
    hide Inv, PageOk, Tiled, Listed, LiveKnown, Confined, Split, AreFree;
    PageOkOf(pool, lay, p);
    LiveKnownOf(pool, lay, p);
    var tiles, free, b := lay.tiles[p], lay.free[p], lay.free[p][k];
    FreeBlock(pool, p, tiles, free, k, b);
    SplitPage(pool, p, tiles, free, k, b, need);
    SplitConfined(pool, p, At(free, k - 1), b, need) by {
      PageOkTiled(pool, p, tiles, free);
      BlocksInside(pool, p, tiles);
    }
    SplitLive(pool, p, tiles, free, k, b, need);
    OnePage(pool, lay, Split(pool, p, At(free, k - 1), b, need), p,
            Insert(tiles, Index(tiles, b) + 1, b + need + BLOCK_HEADER), free[k := b + need + BLOCK_HEADER]);
  }

  lemma SplitLive(pool: Pool, p: nat, tiles: seq<nat>, free: seq<nat>, k: nat, b: nat, need: nat)
    requires FreeAt(pool, p, tiles, free, k, b) && LiveKnown(pool, p, tiles)
    requires b in pool.blocks && b in tiles && (At(free, k - 1) != NULL ==> At(free, k - 1) in pool.blocks)
    requires pool.blocks[b].size >= need + BLOCK_HEADER
    requires Tiled(Split(pool, p, At(free, k - 1), b, need), p, Insert(tiles, Index(tiles, b) + 1, b + need + BLOCK_HEADER))
    requires Listed(Split(pool, p, At(free, k - 1), b, need), p, Insert(tiles, Index(tiles, b) + 1, b + need + BLOCK_HEADER),
                    free[k := b + need + BLOCK_HEADER])
    ensures PageOk(Split(pool, p, At(free, k - 1), b, need), p, Insert(tiles, Index(tiles, b) + 1, b + need + BLOCK_HEADER),
                   free[k := b + need + BLOCK_HEADER])
    ensures LiveKnown(Split(pool, p, At(free, k - 1), b, need), p, Insert(tiles, Index(tiles, b) + 1, b + need + BLOCK_HEADER))
  {
    FreeBlock(pool, p, tiles, free, k, b);
    FreeAreTiles(pool, p, tiles, free);
    DistinctAt(free, k);
    SizeFits(pool, p, tiles, free, b);
    var s := b + need + BLOCK_HEADER;
    RestIsNew(pool, p, tiles, Index(tiles, b), s);
    InsertHas(tiles, Index(tiles, b) + 1, s);
    SplitFacts(pool, p, At(free, k - 1), b, need);
    hide Split, Tiled, Listed, Insert;
    LiveAfter(pool, Split(pool, p, At(free, k - 1), b, need), p, tiles, Insert(tiles, Index(tiles, b) + 1, s), b);
  }

  // ---- Taking a free block whole ----

  lemma WithoutHas(s: seq<nat>, i: nat)
    requires i < |s| && NoDup(s)
    ensures NoDup(Without(s, i))
    ensures forall x :: x in Without(s, i) <==> x in s && x != s[i]
  {
    var t := Without(s, i);
    assert forall j :: 0 <= j < |t| ==> t[j] == if j < i then s[j] else s[j + 1];
    forall x | x in s && x != s[i] ensures x in t {
      var j := Index(s, x);
      assert t[if j < i then j else j - 1] == x;
    }
  }

  lemma WholeLinked(pool: Pool, p: nat, free: seq<nat>, k: nat)
    requires p in pool.pages && k < |free| && NoDup(free) && LinkedFrom(pool, pool.pages[p].first, free) && NULL !in free
    ensures free[k] in pool.blocks && (At(free, k - 1) != NULL ==> At(free, k - 1) in pool.blocks)
    ensures var r := TakeWhole(pool, p, At(free, k - 1), free[k]);
      LinkedFrom(r, r.pages[p].first, Without(free, k))
  {
    assert LinkAt(pool, free, k) && (k > 0 ==> LinkAt(pool, free, k - 1) && free[k - 1] in free);
    var r, list := TakeWhole(pool, p, At(free, k - 1), free[k]), Without(free, k);
    forall i: nat | i < |list| ensures LinkAt(r, list, i) {
      var j := if i < k then i else i + 1;
      assert LinkAt(pool, free, j) && list[i] == free[j] && free[j] in free && free[j] != free[k];
    }
  }

  lemma WholeFacts(pool: Pool, p: nat, before: nat, b: nat)
    requires p in pool.pages && b in pool.blocks && before != b && (before != NULL ==> before in pool.blocks)
    ensures var r := TakeWhole(pool, p, before, b);
      && r.head == pool.head && r.pages == pool.pages[p := pool.pages[p].(first := r.pages[p].first)]
      && r.blocks.Keys == pool.blocks.Keys && r.blocks[b] == pool.blocks[b].(live := true)
      && (forall x :: x in pool.blocks && x != b ==> r.blocks[x] == pool.blocks[x].(next := r.blocks[x].next))
      && (forall x :: x in pool.blocks && x != b && x != before ==> r.blocks[x] == pool.blocks[x])
  {
  }

  /** Handing out a free block whole keeps the invariant. */
  lemma WholeKeeps(pool: Pool, lay: Layout, p: nat, k: nat)
    requires Inv(pool, lay) && p in pool.pages && p in lay.free && k < |lay.free[p]|
    ensures lay.free[p][k] in pool.blocks && (At(lay.free[p], k - 1) != NULL ==> At(lay.free[p], k - 1) in pool.blocks)
    ensures Inv(TakeWhole(pool, p, At(lay.free[p], k - 1), lay.free[p][k]), lay.(free := lay.free[p := Without(lay.free[p], k)]))
  {
    hide Inv, PageOk, Tiled, LinkedFrom, LiveKnown, AreFree, TakeWhole;
    PageOkOf(pool, lay, p);
    LiveKnownOf(pool, lay, p);
    var tiles, free, b := lay.tiles[p], lay.free[p], lay.free[p][k];
    FreeBlock(pool, p, tiles, free, k, b);
    WholePage(pool, p, tiles, free, k);
    var r := TakeWhole(pool, p, At(free, k - 1), b);
    FreeAreTiles(pool, p, tiles, free);
    PageOkParts(pool, p, tiles, free);
    DistinctAt(free, k);
    WholeFacts(pool, p, At(free, k - 1), b);
    BlocksInside(pool, p, tiles);
    LiveAfter(pool, r, p, tiles, tiles, b);
    PageOkFrom(r, p, tiles, Without(free, k));
    WholeConfined(pool, p, At(free, k - 1), b);
    OnePage(pool, lay, r, p, tiles, Without(free, k));
    assert lay.(free := lay.free[p := Without(free, k)]) == WithPage(lay, p, tiles, Without(free, k));
  }

  lemma WholeConfined(pool: Pool, p: nat, before: nat, b: nat)
    requires p in pool.pages && b in pool.blocks && (before != NULL ==> before in pool.blocks && InPage(pool, p, before))
    requires InPage(pool, p, b)
    ensures Confined(pool, TakeWhole(pool, p, before, b), p)
  {
  }

  // The page after one of its free blocks was handed out.
  lemma WholePage(pool: Pool, p: nat, tiles: seq<nat>, free: seq<nat>, k: nat)
    requires p in pool.pages && PageOk(pool, p, tiles, free) && k < |free|
    ensures free[k] in pool.blocks && (At(free, k - 1) != NULL ==> At(free, k - 1) in pool.blocks)
    ensures var r := TakeWhole(pool, p, At(free, k - 1), free[k]);
      Tiled(r, p, tiles) && Listed(r, p, tiles, Without(free, k))
  {
    hide Tiled, LinkedFrom, TakeWhole, Without;
    FreeBlock(pool, p, tiles, free, k, free[k]);
    FreeAreTiles(pool, p, tiles, free);
    DistinctAt(free, k);
    WholeFacts(pool, p, At(free, k - 1), free[k]);
    WholeLinked(pool, p, free, k);
    WithoutHas(free, k);
    TilesKnown(pool, p, tiles);
    TiledSame(pool, TakeWhole(pool, p, At(free, k - 1), free[k]), p, tiles);
  }

  // ---- Carving from the bump area ----

  lemma CarvePage(pool: Pool, p: nat, tiles: seq<nat>, free: seq<nat>, size: nat)
    requires p in pool.pages && PageOk(pool, p, tiles, free) && LiveKnown(pool, p, tiles)
    requires BLOCK_HEADER <= size <= pool.pages[p].room && size % 8 == 0
    ensures var r, t := Carve(pool, p, size), tiles + [pool.pages[p].bump];
      PageOk(r, p, t, free) && LiveKnown(r, p, t)
  {
    var r, b := Carve(pool, p, size), pool.pages[p].bump;
    var t := tiles + [b];
    TilesBelow(pool, p, tiles);
    FreeAreTiles(pool, p, tiles, free);
    TilesKnown(pool, p, tiles);
    forall i: nat | i < |t| ensures TileOk(r, p, t, i) {
      if i < |tiles| {
        assert TileOk(pool, p, tiles, i) && tiles[i] in tiles;
      }
    }
    assert t[|tiles|] == b;
    CarveListed(pool, p, tiles, free, size);
    CarveLive(pool, p, tiles, size);
  }

  lemma TilesBelow(pool: Pool, p: nat, tiles: seq<nat>)
    requires p in pool.pages && Tiled(pool, p, tiles)
    ensures pool.pages[p].bump !in tiles && p < pool.pages[p].bump
    ensures forall b :: b in tiles ==> b < pool.pages[p].bump
  {
    forall b | b in tiles ensures b < pool.pages[p].bump {
      TileInside(pool, p, tiles, Index(tiles, b));
    }
    TileInside(pool, p, tiles, 0);
  }

  lemma CarveListed(pool: Pool, p: nat, tiles: seq<nat>, free: seq<nat>, size: nat)
    requires p in pool.pages && Listed(pool, p, tiles, free)
    requires BLOCK_HEADER <= size <= pool.pages[p].room
    requires pool.pages[p].bump !in tiles && (forall b :: b in tiles ==> b in pool.blocks)
    ensures Listed(Carve(pool, p, size), p, tiles + [pool.pages[p].bump], free)
  {
    var r := Carve(pool, p, size);
    forall i: nat | i < |free| ensures LinkAt(r, free, i) {
      assert LinkAt(pool, free, i) && free[i] in free;
    }
  }

  lemma CarveLive(pool: Pool, p: nat, tiles: seq<nat>, size: nat)
    requires p in pool.pages && LiveKnown(pool, p, tiles) && BLOCK_HEADER <= size <= pool.pages[p].room
    ensures var r, t := Carve(pool, p, size), tiles + [pool.pages[p].bump];
      LiveKnown(r, p, t) && HasLive(r, t)
  {
    LiveAfter(pool, Carve(pool, p, size), p, tiles, tiles + [pool.pages[p].bump], pool.pages[p].bump);
  }

  /** Carving a block from the bump area keeps the invariant. */
  lemma CarveKeeps(pool: Pool, lay: Layout, p: nat, size: nat)
    requires Inv(pool, lay) && p in pool.pages && p in lay.tiles
    requires BLOCK_HEADER <= size <= pool.pages[p].room && size % 8 == 0
    ensures Inv(Carve(pool, p, size), lay.(tiles := lay.tiles[p := lay.tiles[p] + [pool.pages[p].bump]]))
  {
    hide Inv, PageOk, Tiled, LiveKnown;
    PageOkOf(pool, lay, p);
    LiveKnownOf(pool, lay, p);
    var tiles, free := lay.tiles[p], lay.free[p];
    CarvePage(pool, p, tiles, free, size);
    PageOkParts(pool, p, tiles, free);
    TilesBelow(pool, p, tiles);
    var t := tiles + [pool.pages[p].bump];
    assert Confined(pool, Carve(pool, p, size), p);
    OnePage(pool, lay, Carve(pool, p, size), p, t, free);
    assert lay.(tiles := lay.tiles[p := t]) == WithPage(lay, p, t, free);
  }

  // ---- A new page block ----

  lemma AppendLinks(pool: Pool, order: seq<nat>, p: nat, og: nat, last: nat)
    requires PagesLinked(pool.pages, pool.head, order) && p !in pool.pages && 0 < p && og >= PAGE_HEADER
    requires NULL !in pool.pages && last == At(order, |order| - 1)
    ensures last != NULL ==> last in pool.pages
    ensures var r := AppendPage(pool, p, og, last); PagesLinked(r.pages, r.head, order + [p])
  {
    assert |order| > 0 ==> NodeOk(pool.pages, order, |order| - 1);
    var r, list := AppendPage(pool, p, og, last), order + [p];
    forall i: nat | i < |list| ensures NodeOk(r.pages, list, i) {
      AppendAt(pool, order, p, og, last, i);
    }
    assert list[|order|] == p;
    forall q ensures q in list <==> q in r.pages {
      assert q in list <==> q in order || q == p;
    }
    assert p !in order;
  }

  lemma AppendAt(pool: Pool, order: seq<nat>, p: nat, og: nat, last: nat, i: nat)
    requires PagesLinked(pool.pages, pool.head, order) && p !in pool.pages && 0 < p && og >= PAGE_HEADER
    requires last == At(order, |order| - 1) && (last == NULL <==> order == []) && (last != NULL ==> last in pool.pages)
    requires i <= |order|
    ensures NodeOk(AppendPage(pool, p, og, last).pages, order + [p], i)
  {
    assert i < |order| ==> NodeOk(pool.pages, order, i);
  }

  // The pool after a new page block was appended and its first block carved.
  function Grown(pool: Pool, p: nat, og: nat, last: nat, size: nat): Pool
    requires BLOCK_HEADER <= size && size + PAGE_HEADER <= og && p !in pool.pages && (last != NULL ==> last in pool.pages)
  {
    Carve(AppendPage(pool, p, og, last), p, size)
  }

  lemma GrownFacts(pool: Pool, p: nat, og: nat, last: nat, size: nat)
    requires BLOCK_HEADER <= size && size + PAGE_HEADER <= og && p !in pool.pages && (last != NULL ==> last in pool.pages)
    ensures var r := Grown(pool, p, og, last, size);
      && r.pages.Keys == pool.pages.Keys + {p}
      && r.pages[p].og == og && r.pages[p].room == og - PAGE_HEADER - size && r.pages[p].bump == p + PAGE_HEADER + size
      && r.pages[p].first == NULL
      && (forall q :: q in pool.pages ==> r.pages[q] == pool.pages[q].(next := r.pages[q].next, prev := r.pages[q].prev))
      && r.blocks == pool.blocks[p + PAGE_HEADER := Block(size - BLOCK_HEADER, p, NULL, true)]
  {
  }

  lemma GrownLinks(pool: Pool, order: seq<nat>, p: nat, og: nat, last: nat, size: nat)
    requires BLOCK_HEADER <= size && size + PAGE_HEADER <= og
    requires PagesLinked(pool.pages, pool.head, order) && p !in pool.pages && 0 < p
    requires NULL !in pool.pages && last == At(order, |order| - 1)
    ensures last != NULL ==> last in pool.pages
    ensures var r := Grown(pool, p, og, last, size); PagesLinked(r.pages, r.head, order + [p])
  {
    AppendLinks(pool, order, p, og, last);
    var a, r := AppendPage(pool, p, og, last), Grown(pool, p, og, last, size);
    assert forall q :: q in a.pages ==> r.pages[q].next == a.pages[q].next && r.pages[q].prev == a.pages[q].prev;
    forall i: nat | i < |order + [p]| ensures NodeOk(r.pages, order + [p], i) {
      assert NodeOk(a.pages, order + [p], i);
    }
  }

  /** Appending a new page block and carving its first block keeps the invariant. */
  lemma FreshKeeps(pool: Pool, lay: Layout, p: nat, og: nat, size: nat)
    requires Inv(pool, lay) && Usable(pool, p, og) && size % 8 == 0 && BLOCK_HEADER <= size && size + PAGE_HEADER <= og
    ensures p !in pool.pages
    ensures var last := At(lay.order, |lay.order| - 1);
      && (last != NULL ==> last in pool.pages)
      && Inv(Grown(pool, p, og, last, size), Layout(lay.order + [p], lay.tiles[p := [p + PAGE_HEADER]], lay.free[p := []]))
  {
    var last := At(lay.order, |lay.order| - 1);
    hide Grown, AllApart, AllLiveOk, PagesLinked, PageOk;
    NotYetMapped(pool, lay, p, og);
    GrownLinks(pool, lay.order, p, og, last, size);
    GrownFacts(pool, p, og, last, size);
    hide AllPagesOk, Usable;
    GrownPages(pool, lay, p, og, last, size);
    GrownApart(pool, lay, p, og, last, size);
    GrownLive(pool, lay, p, og, last, size);
  }

  lemma NotYetMapped(pool: Pool, lay: Layout, p: nat, og: nat)
    requires Inv(pool, lay) && Usable(pool, p, og) && og >= PAGE_HEADER
    ensures p !in pool.pages && NULL !in pool.pages
  {
    if p in pool.pages {
      PageHoldsHeader(pool, lay, p);
    }
    if NULL in pool.pages {
      PageOkOf(pool, lay, NULL);
    }
  }

  lemma GrownPages(pool: Pool, lay: Layout, p: nat, og: nat, last: nat, size: nat)
    requires Inv(pool, lay) && Usable(pool, p, og) && size % 8 == 0 && BLOCK_HEADER <= size && size + PAGE_HEADER <= og
    requires p !in pool.pages && (last != NULL ==> last in pool.pages)
    ensures var after := Layout(lay.order + [p], lay.tiles[p := [p + PAGE_HEADER]], lay.free[p := []]);
      var r := Grown(pool, p, og, last, size);
      after.tiles.Keys == after.free.Keys == r.pages.Keys && AllPagesOk(r, after)
  {
    hide Grown, PagesLinked, PageOk, AllApart, AllLiveOk;
    GrownFacts(pool, p, og, last, size);
    var r, after := Grown(pool, p, og, last, size), Layout(lay.order + [p], lay.tiles[p := [p + PAGE_HEADER]], lay.free[p := []]);
    forall q | q in r.pages ensures PageOk(r, q, after.tiles[q], after.free[q]) {
      if q == p {
        FirstPage(r, p, og, size);
      } else {
        OlderPage(pool, lay, r, p, og, size, q);
      }
    }
  }

  lemma OlderPage(pool: Pool, lay: Layout, r: Pool, p: nat, og: nat, size: nat, q: nat)
    requires Inv(pool, lay) && Usable(pool, p, og) && BLOCK_HEADER <= size && size + PAGE_HEADER <= og && q in pool.pages
    requires r.blocks == pool.blocks[p + PAGE_HEADER := Block(size - BLOCK_HEADER, p, NULL, true)]
    requires q in r.pages && r.pages[q] == pool.pages[q].(next := r.pages[q].next, prev := r.pages[q].prev)
    ensures q in lay.tiles && q in lay.free && PageOk(r, q, lay.tiles[q], lay.free[q])
  {
    hide Inv, PageOk;
    PageOkOf(pool, lay, q);
    PageOkTiled(pool, q, lay.tiles[q], lay.free[q]);
    BlocksInside(pool, q, lay.tiles[q]);
    PageElsewhere(pool, r, q, lay.tiles[q], lay.free[q]);
  }

  // A page block with one block in it.
  lemma FirstPage(r: Pool, p: nat, og: nat, size: nat)
    requires p in r.pages && 0 < p && p % 8 == 0 && p + og <= WORD && size % 8 == 0 && BLOCK_HEADER <= size
    requires r.pages[p].og == og && r.pages[p].room + PAGE_HEADER + size == og && r.pages[p].bump == p + PAGE_HEADER + size
    requires r.pages[p].first == NULL
    requires p + PAGE_HEADER in r.blocks && r.blocks[p + PAGE_HEADER] == Block(size - BLOCK_HEADER, p, NULL, true)
    ensures PageOk(r, p, [p + PAGE_HEADER], [])
  {
    assert TileOk(r, p, [p + PAGE_HEADER], 0);
    assert p + PAGE_HEADER in [p + PAGE_HEADER];
    assert HasLive(r, [p + PAGE_HEADER]);
  }

  lemma GrownApart(pool: Pool, lay: Layout, p: nat, og: nat, last: nat, size: nat)
    requires Inv(pool, lay) && Usable(pool, p, og) && BLOCK_HEADER <= size && size + PAGE_HEADER <= og
    requires p !in pool.pages && (last != NULL ==> last in pool.pages)
    ensures AllApart(Grown(pool, p, og, last, size))
  {
    GrownFacts(pool, p, og, last, size);
    hide Grown, AllPagesOk, PagesLinked, AllLiveOk;
    var r := Grown(pool, p, og, last, size);
    forall q, s | q in r.pages && s in r.pages && q != s ensures Apart(r, q, s) {
      assert q != p && s != p ==> Apart(pool, q, s);
    }
  }

  lemma GrownLive(pool: Pool, lay: Layout, p: nat, og: nat, last: nat, size: nat)
    requires Inv(pool, lay) && Usable(pool, p, og) && BLOCK_HEADER <= size && size + PAGE_HEADER <= og
    requires p !in pool.pages && (last != NULL ==> last in pool.pages)
    ensures AllLiveOk(Grown(pool, p, og, last, size), Layout(lay.order + [p], lay.tiles[p := [p + PAGE_HEADER]], lay.free[p := []]))
  {
    GrownFacts(pool, p, og, last, size);
    hide Grown, AllPagesOk, PagesLinked, AllApart;
    var r, after := Grown(pool, p, og, last, size), Layout(lay.order + [p], lay.tiles[p := [p + PAGE_HEADER]], lay.free[p := []]);
    forall b ensures LiveOk(r, after, b) {
      assert LiveOk(pool, lay, b);
      assert p + PAGE_HEADER in after.tiles[p];
    }
  }

  // ---- malloc ----

  lemma FitIsChosen(pool: Pool, lay: Layout, p: nat, k: nat, need: nat)
    requires Inv(pool, lay) && p in pool.pages && p in lay.free && k < |lay.free[p]|
    requires lay.free[p][k] in pool.blocks && pool.blocks[lay.free[p][k]].size >= need
    ensures Chosen(pool, lay, Fit(p, k), need)
  {
    hide Inv;
    PageOkOf(pool, lay, p);
    FreeBlock(pool, p, lay.tiles[p], lay.free[p], k, lay.free[p][k]);
    FreeAreTiles(pool, p, lay.tiles[p], lay.free[p]);
    assert k > 0 ==> lay.free[p][k - 1] in lay.free[p];
  }

  // The search can only take a place that is large enough.
  lemma {:induction false} PickIsChosen(pool: Pool, lay: Layout, i: nat, need: nat)
    requires Inv(pool, lay) && Readable(pool, lay)
    ensures Chosen(pool, lay, Pick(pool, lay, i, need), need)
    decreases |lay.order| - i
  {
    hide Inv;
    if i < |lay.order| {
      var p := lay.order[i];
      PageOkOf(pool, lay, p) by {
        assert p in lay.order;
      }
      hide PageOk;
      FirstFitIsFirst(pool, lay.free[p], 0, need);
      var k := FirstFit(pool, lay.free[p], 0, need);
      if k < |lay.free[p]| {
        FitIsChosen(pool, lay, p, k, need);
      } else {
        PickIsChosen(pool, lay, i + 1, need);
      }
    }
  }

  lemma {:induction false} FirstFitIsFirst(pool: Pool, free: seq<nat>, i: nat, need: nat)
    requires i <= |free| && (forall b :: b in free ==> b in pool.blocks)
    ensures var k := FirstFit(pool, free, i, need);
      && i <= k <= |free|
      && (forall j :: i <= j < k ==> pool.blocks[free[j]].size < need)
      && (k < |free| ==> pool.blocks[free[k]].size >= need)
    decreases |free| - i
  {
    if i < |free| && pool.blocks[free[i]].size < need {
      FirstFitIsFirst(pool, free, i + 1, need);
    }
  }

  // Nothing of page p could serve the request.
  ghost predicate Unfit(pool: Pool, lay: Layout, p: nat, need: nat)
    requires Readable(pool, lay) && p in pool.pages && p in lay.free
  {
    && pool.pages[p].room < need + BLOCK_HEADER
    && (forall b :: b in lay.free[p] ==> pool.blocks[b].size < need)
  }

  // Place c of the page at position j of the list is the first that can serve the request.
  ghost predicate FirstAt(pool: Pool, lay: Layout, i: nat, j: nat, c: Choice, need: nat)
    requires Readable(pool, lay) && j < |lay.order| && i <= j
  {
    && (forall m :: i <= m < j ==> Unfit(pool, lay, lay.order[m], need))
    && match c
       case Fit(p, k) => p == lay.order[j] && k < |lay.free[p]|
         && (forall m :: 0 <= m < k ==> pool.blocks[lay.free[p][m]].size < need)
       case Room(p) => p == lay.order[j] && (forall b :: b in lay.free[p] ==> pool.blocks[b].size < need)
       case Fresh => false
  }

  /** malloc is first fit: every earlier page is of no use, within the page every earlier free block
      is too small, the bump area is used only if no free block is large enough, and a new page
      only if no page is of use. */
  lemma {:induction false} PickIsFirstFit(pool: Pool, lay: Layout, i: nat, need: nat)
    requires Readable(pool, lay) && i <= |lay.order|
    ensures var c := Pick(pool, lay, i, need);
      if c.Fresh? then forall j :: i <= j < |lay.order| ==> Unfit(pool, lay, lay.order[j], need)
      else exists j :: i <= j < |lay.order| && FirstAt(pool, lay, i, j, c, need)
    decreases |lay.order| - i
  {
    if i < |lay.order| {
      var p := lay.order[i];
      assert p in lay.order;
      FirstFitIsFirst(pool, lay.free[p], 0, need);
      var c := Pick(pool, lay, i, need);
      if FirstFit(pool, lay.free[p], 0, need) == |lay.free[p]| && pool.pages[p].room < need + BLOCK_HEADER {
        PickIsFirstFit(pool, lay, i + 1, need);
        assert Unfit(pool, lay, p, need);
        if !c.Fresh? {
          var j :| i + 1 <= j < |lay.order| && FirstAt(pool, lay, i + 1, j, c, need);
          assert FirstAt(pool, lay, i, j, c, need);
        }
      } else {
        assert FirstAt(pool, lay, i, i, c, need);
      }
    }
  }

  // The one case malloc mishandles: the rest of a split would be 8 bytes, too few for a header.
  ghost predicate TooTight(pool: Pool, lay: Layout, c: Choice, need: nat)
    requires Chosen(pool, lay, c, need)
  {
    c.Fit? && pool.blocks[lay.free[c.page][c.index]].size == need + 8
  }

  ghost predicate Request(pool: Pool, lay: Layout, c: Choice, need: nat, mapped: nat, og: nat) {
    && Inv(pool, lay) && Chosen(pool, lay, c, need) && need % 8 == 0 && need < WORD
    && og >= PAGE_HEADER + need + BLOCK_HEADER && (c.Fresh? ==> Usable(pool, mapped, og) && mapped !in pool.pages)
  }

  lemma FitKeeps(pool: Pool, lay: Layout, p: nat, k: nat, need: nat)
    requires Inv(pool, lay) && Chosen(pool, lay, Fit(p, k), need) && need % 8 == 0 && !TooTight(pool, lay, Fit(p, k), need)
    ensures var b, before := lay.free[p][k], At(lay.free[p], k - 1);
      && (before != NULL ==> before in pool.blocks)
      && Inv(if pool.blocks[b].size > need then Split(pool, p, before, b, need) else TakeWhole(pool, p, before, b),
             LayoutAfterTake(pool, lay, Fit(p, k), need, 0))
  {
    hide Inv, Split, TakeWhole, Insert, Without, PageOk;
    PageOkOf(pool, lay, p);
    FreeBlock(pool, p, lay.tiles[p], lay.free[p], k, lay.free[p][k]);
    if pool.blocks[lay.free[p][k]].size > need {
      hide LayoutAfterTake;
      SplitKeeps(pool, lay, p, k, need);
    } else {
      WholeKeeps(pool, lay, p, k);
    }
  }

  lemma OrderKnown(pool: Pool, lay: Layout)
    requires Inv(pool, lay)
    ensures forall q :: q in lay.order ==> q in pool.pages
  {
  }

  lemma TakeKeeps(pool: Pool, lay: Layout, c: Choice, need: nat, mapped: nat, og: nat)
    requires Request(pool, lay, c, need, mapped, og) && !TooTight(pool, lay, c, need)
    ensures forall q :: q in lay.order ==> q in pool.pages
    ensures Inv(Take(pool, lay, c, need, mapped, og), LayoutAfterTake(pool, lay, c, need, mapped))
  {
    hide Inv, Carve, AppendPage, Split, TakeWhole, Insert, Without;
    OrderKnown(pool, lay);
    match c {
      case Fit(p, k) => FitKeeps(pool, lay, p, k, need);
      case Room(p) => CarveKeeps(pool, lay, p, need + BLOCK_HEADER);
      case Fresh => FreshKeeps(pool, lay, mapped, og, need + BLOCK_HEADER);
    }
  }

  // A split that leaves 8 bytes writes a block that no reading of the memory can place.
  lemma TightBreaks(pool: Pool, lay: Layout, p: nat, k: nat, need: nat, after: Layout)
    requires Inv(pool, lay) && Chosen(pool, lay, Fit(p, k), need) && TooTight(pool, lay, Fit(p, k), need)
    ensures !Inv(Split(pool, p, At(lay.free[p], k - 1), lay.free[p][k], need), after)
  {
    hide Inv, PageOk, Split, Tiled;
    var b, before := lay.free[p][k], At(lay.free[p], k - 1);
    PageOkOf(pool, lay, p);
    FreeBlock(pool, p, lay.tiles[p], lay.free[p], k, b);
    PageOkTiled(pool, p, lay.tiles[p], lay.free[p]);
    RestIsNew(pool, p, lay.tiles[p], Index(lay.tiles[p], b), b + need + BLOCK_HEADER);
    TightFacts(pool, p, before, b, need);
    if Inv(Split(pool, p, before, b, need), after) {
      NextBlockFits(Split(pool, p, before, b, need), after, b);
    }
  }

  lemma TightFacts(pool: Pool, p: nat, before: nat, b: nat, need: nat)
    requires p in pool.pages && b in pool.blocks && before != b && before != b + need + BLOCK_HEADER
    requires (before != NULL ==> before in pool.blocks) && pool.blocks[b].size == need + 8 && pool.blocks[b].parent == p
    ensures var r, s := Split(pool, p, before, b, need), b + need + BLOCK_HEADER;
      && p in r.pages && r.pages[p].bump == pool.pages[p].bump
      && b in r.blocks && r.blocks[b].size == need && r.blocks[b].parent == p && r.blocks[b].live
      && s in r.blocks && r.blocks[s].size == WORD - 8
  {
  }

  // What follows a live block inside the used part of its page is a block that ends in the page.
  lemma NextBlockFits(r: Pool, after: Layout, b: nat)
    requires b in r.blocks && r.blocks[b].live && r.blocks[b].parent in r.pages
    requires b + r.blocks[b].size + BLOCK_HEADER < r.pages[r.blocks[b].parent].bump
    requires Inv(r, after)
    ensures b + r.blocks[b].size + BLOCK_HEADER in r.blocks
    ensures r.blocks[b + r.blocks[b].size + BLOCK_HEADER].size + BLOCK_HEADER < WORD
  {
    hide Inv, PageOk, Listed, HasLive;
    LiveTile(r, after, b);
    var p := r.blocks[b].parent;
    PageOkParts(r, p, after.tiles[p], after.free[p]);
    var t := after.tiles[p];
    var i := Index(t, b);
    assert TileOk(r, p, t, i);
    assert t[i + 1] == b + r.blocks[b].size + BLOCK_HEADER;
    TileInside(r, p, t, i + 1);
  }

  /** malloc keeps the page blocks tiled if and only if it does not split a free block that is
      exactly 8 bytes larger than the request. */
  lemma MallocKeepsIff(pool: Pool, lay: Layout, need: nat, mapped: nat, og: nat)
    requires Inv(pool, lay) && Readable(pool, lay)
    requires Request(pool, lay, Pick(pool, lay, 0, need), need, mapped, og)
    ensures var c := Pick(pool, lay, 0, need);
      (exists after :: Inv(Take(pool, lay, c, need, mapped, og), after)) <==> !TooTight(pool, lay, c, need)
  {
    hide Inv, Pick, Split, TakeWhole, Carve, AppendPage;
    var c := Pick(pool, lay, 0, need);
    var r := Take(pool, lay, c, need, mapped, og);
    if TooTight(pool, lay, c, need) {
      forall after ensures !Inv(r, after) {
        TightBreaks(pool, lay, c.page, c.index, need, after);
      }
    } else {
      TakeKeeps(pool, lay, c, need, mapped, og);
      assert Inv(r, LayoutAfterTake(pool, lay, c, need, mapped));
    }
  }

  // ---- What the caller gets ----

  ghost predicate IsLive(pool: Pool, b: nat) {
    b in pool.blocks && pool.blocks[b].live
  }

  // b became live with `need` bytes; every other live block is as it was.
  ghost predicate Gained(pool: Pool, r: Pool, b: nat, need: nat) {
    && IsLive(r, b) && r.blocks[b].size == need && !IsLive(pool, b)
    && (forall x :: x != b ==> (IsLive(r, x) <==> IsLive(pool, x)))
    && (forall x :: IsLive(pool, x) ==> x in r.blocks && r.blocks[x] == pool.blocks[x])
  }

  /** malloc hands out one new block of the aligned size and touches no block in use. */
  lemma MallocGives(pool: Pool, lay: Layout, c: Choice, need: nat, mapped: nat, og: nat)
    requires Request(pool, lay, c, need, mapped, og) && !TooTight(pool, lay, c, need)
    ensures forall q :: q in lay.order ==> q in pool.pages
    ensures Gained(pool, Take(pool, lay, c, need, mapped, og), Taken(pool, lay, c, mapped), need)
  {
    hide Inv, PageOk, Gained, Carve, AppendPage, Split, TakeWhole, Usable;
    OrderKnown(pool, lay);
    match c {
      case Fit(p, k) =>
        PageOkOf(pool, lay, p);
        GivenFree(pool, lay, p, k, need);
      case Room(p) => RoomGives(pool, lay, p, need);
      case Fresh => FreshGives(pool, lay, mapped, need, og);
    }
  }

  lemma RoomGives(pool: Pool, lay: Layout, p: nat, need: nat)
    requires Inv(pool, lay) && p in pool.pages && pool.pages[p].room >= need + BLOCK_HEADER
    ensures Gained(pool, Carve(pool, p, need + BLOCK_HEADER), pool.pages[p].bump, need)
  {
    hide Inv, PageOk;
    PageOkOf(pool, lay, p);
    PageOkParts(pool, p, lay.tiles[p], lay.free[p]);
    TilesBelow(pool, p, lay.tiles[p]);
    NotLive(pool, lay, p, pool.pages[p].bump);
  }

  lemma FreshGives(pool: Pool, lay: Layout, mapped: nat, need: nat, og: nat)
    requires Inv(pool, lay) && Usable(pool, mapped, og) && mapped !in pool.pages && og >= PAGE_HEADER + need + BLOCK_HEADER
    ensures var last := At(lay.order, |lay.order| - 1);
      && (last != NULL ==> last in pool.pages)
      && Gained(pool, Grown(pool, mapped, og, last, need + BLOCK_HEADER), mapped + PAGE_HEADER, need)
  {
    hide Inv, Grown, Usable;
    OutsideNotLive(pool, lay, mapped, og);
    OrderKnown(pool, lay);
    assert At(lay.order, |lay.order| - 1) != NULL ==> At(lay.order, |lay.order| - 1) in lay.order;
    GrownFacts(pool, mapped, og, At(lay.order, |lay.order| - 1), need + BLOCK_HEADER);
  }

  lemma NotLive(pool: Pool, lay: Layout, p: nat, b: nat)
    requires Inv(pool, lay) && p in pool.pages && p <= b < p + pool.pages[p].og && p in lay.tiles && b !in lay.tiles[p]
    ensures !IsLive(pool, b)
  {
    LiveKnownOf(pool, lay, p);
    assert InPage(pool, p, b);
  }

  lemma OutsideNotLive(pool: Pool, lay: Layout, mapped: nat, og: nat)
    requires Inv(pool, lay) && Usable(pool, mapped, og) && og >= PAGE_HEADER + BLOCK_HEADER
    ensures !IsLive(pool, mapped + PAGE_HEADER)
  {
    if IsLive(pool, mapped + PAGE_HEADER) {
      LiveInside(pool, lay, mapped + PAGE_HEADER);
    }
  }

  lemma GivenFree(pool: Pool, lay: Layout, p: nat, k: nat, need: nat)
    requires Inv(pool, lay) && p in pool.pages && p in lay.free && p in lay.tiles && k < |lay.free[p]| && need % 8 == 0
    requires PageOk(pool, p, lay.tiles[p], lay.free[p])
    requires lay.free[p][k] in pool.blocks && need <= pool.blocks[lay.free[p][k]].size != need + 8
    ensures Chosen(pool, lay, Fit(p, k), need)
    ensures var b, before := lay.free[p][k], At(lay.free[p], k - 1);
      Gained(pool, if pool.blocks[b].size > need then Split(pool, p, before, b, need) else TakeWhole(pool, p, before, b), b, need)
  {
    hide Inv, Gained, Split, TakeWhole, PageOk, Tiled;
    var tiles, free, b := lay.tiles[p], lay.free[p], lay.free[p][k];
    FitIsChosen(pool, lay, p, k, need);
    FreeBlock(pool, p, tiles, free, k, b);
    PageOkTiled(pool, p, tiles, free);
    if pool.blocks[b].size > need {
      RestIsNew(pool, p, tiles, Index(tiles, b), b + need + BLOCK_HEADER);
      NotLive(pool, lay, p, b + need + BLOCK_HEADER);
      SplitGains(pool, p, At(free, k - 1), b, need);
    } else {
      WholeGains(pool, p, At(free, k - 1), b);
    }
  }

  lemma SplitGains(pool: Pool, p: nat, before: nat, b: nat, need: nat)
    requires p in pool.pages && b in pool.blocks && (before != NULL ==> before in pool.blocks && !IsLive(pool, before))
    requires before != b && before != b + need + BLOCK_HEADER && pool.blocks[b].size >= need + BLOCK_HEADER
    requires pool.blocks[b].size < WORD && !IsLive(pool, b) && !IsLive(pool, b + need + BLOCK_HEADER)
    ensures Gained(pool, Split(pool, p, before, b, need), b, need)
  {
    SplitFacts(pool, p, before, b, need);
    SplitOthers(pool, p, before, b, need);
    hide Split;
  }

  lemma WholeGains(pool: Pool, p: nat, before: nat, b: nat)
    requires p in pool.pages && b in pool.blocks && (before != NULL ==> before in pool.blocks && !IsLive(pool, before))
    requires before != b && !IsLive(pool, b)
    ensures Gained(pool, TakeWhole(pool, p, before, b), b, pool.blocks[b].size)
  {
    WholeFacts(pool, p, before, b);
    hide TakeWhole;
  }

  lemma SplitOthers(pool: Pool, p: nat, before: nat, b: nat, need: nat)
    requires p in pool.pages && b in pool.blocks && (before != NULL ==> before in pool.blocks)
    ensures var r, s := Split(pool, p, before, b, need), b + need + BLOCK_HEADER;
      forall x :: x in pool.blocks && x != s && x != b && x != before ==> x in r.blocks && r.blocks[x] == pool.blocks[x]
  {
  }
}
