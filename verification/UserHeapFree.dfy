/** free keeps the tiling of page blocks, exactly when it does, and when it gives a page block back
    (userspace/stdlib/free.c:5-70). */
module UserHeapFree {
  import opened UserHeapModel
  import opened UserHeapInvariant
  import opened UserHeapMalloc
  import opened Sequences

  // ---- When a page is free ----

  // The bytes, headers included, of the first n tiles that are in s.
  ghost function Weight(pool: Pool, tiles: seq<nat>, n: nat, s: set<nat>): nat
    requires n <= |tiles| && (forall b :: b in tiles ==> b in pool.blocks)
  {
    if n == 0 then 0
    else Weight(pool, tiles, n - 1, s) + if tiles[n - 1] in s then pool.blocks[tiles[n - 1]].size + BLOCK_HEADER else 0
  }

  lemma {:induction false} WeightWith(pool: Pool, tiles: seq<nat>, n: nat, s: set<nat>, x: nat)
    requires n <= |tiles| && (forall b :: b in tiles ==> b in pool.blocks) && NoDup(tiles)
    requires x !in s && x in pool.blocks
    ensures Weight(pool, tiles, n, s + {x}) ==
      Weight(pool, tiles, n, s) + if x in tiles[..n] then pool.blocks[x].size + BLOCK_HEADER else 0
  {
    if n > 0 {
      WeightWith(pool, tiles, n - 1, s, x);
      assert tiles[..n] == tiles[..n - 1] + [tiles[n - 1]];
    }
  }

  lemma {:induction false} WeightOfNone(pool: Pool, tiles: seq<nat>, n: nat)
    requires n <= |tiles| && (forall b :: b in tiles ==> b in pool.blocks)
    ensures Weight(pool, tiles, n, {}) == 0
  {
    if n > 0 {
      WeightOfNone(pool, tiles, n - 1);
    }
  }

  ghost function Members(list: seq<nat>): set<nat> {
    set b: nat | b in list
  }

  // Summing over a list without repetitions is summing over its members.
  lemma {:induction false} BytesIsWeight(pool: Pool, tiles: seq<nat>, list: seq<nat>)
    requires (forall b :: b in tiles ==> b in pool.blocks) && NoDup(tiles) && NoDup(list)
    requires forall b :: b in list ==> b in tiles
    ensures Bytes(pool, list) == Weight(pool, tiles, |tiles|, Members(list))
  {
    if list == [] {
      WeightOfNone(pool, tiles, |tiles|);
      assert Members(list) == {};
    } else {
      var front, x := list[..|list| - 1], list[|list| - 1];
      assert list == front + [x];
      assert x in list;
      var s := Members(front);
      BytesIsWeight(pool, tiles, front);
      assert tiles[..|tiles|] == tiles;
      WeightWith(pool, tiles, |tiles|, s, x);
      assert Members(list) == s + {x};
      assert Bytes(pool, list) == Bytes(pool, front) + pool.blocks[x].size + BLOCK_HEADER;
    }
  }

  // Some tiles weigh all there is exactly when they are all the tiles.
  lemma {:induction false} FullWeight(pool: Pool, p: nat, tiles: seq<nat>, n: nat, s: set<nat>)
    requires p in pool.pages && Tiled(pool, p, tiles) && n <= |tiles|
    requires forall b :: b in tiles ==> b in pool.blocks
    ensures var end := if n < |tiles| then tiles[n] else pool.pages[p].bump;
      && p + PAGE_HEADER + Weight(pool, tiles, n, s) <= end
      && (p + PAGE_HEADER + Weight(pool, tiles, n, s) == end <==> forall j :: 0 <= j < n ==> tiles[j] in s)
  {
    if n > 0 {
      FullWeight(pool, p, tiles, n - 1, s);
      assert TileOk(pool, p, tiles, n - 1);
    }
  }

  ghost predicate OnlyLive(pool: Pool, tiles: seq<nat>, b: nat) {
    forall c :: c in tiles && IsLive(pool, c) ==> c == b
  }

  /** The sum in is_page_free reaches og_size if and only if the block is the last live one. */
  lemma PageFreeIff(pool: Pool, lay: Layout, b: nat)
    requires Inv(pool, lay) && IsLive(pool, b)
    ensures PageFree(pool, lay, b) <==> OnlyLive(pool, lay.tiles[PageOf(pool, lay, b)], b)
  {
    var p := PageOf(pool, lay, b);
    LiveTile(pool, lay, b);
    PageFreeSum(pool, p, lay.tiles[p], lay.free[p], b);
  }

  lemma PageFreeSum(pool: Pool, p: nat, tiles: seq<nat>, free: seq<nat>, b: nat)
    requires p in pool.pages && PageOk(pool, p, tiles, free) && IsLive(pool, b) && b in tiles
    ensures forall f :: f in free ==> f in pool.blocks
    ensures pool.pages[p].room + pool.blocks[b].size + BLOCK_HEADER + PAGE_HEADER + Bytes(pool, free) <= pool.pages[p].og
    ensures pool.pages[p].room + pool.blocks[b].size + BLOCK_HEADER + PAGE_HEADER + Bytes(pool, free) == pool.pages[p].og
      <==> OnlyLive(pool, tiles, b)
  {
    PageOkParts(pool, p, tiles, free);
    TilesKnown(pool, p, tiles);
    TilesDistinct(pool, p, tiles);
    FreeAreTiles(pool, p, tiles, free);
    hide PageOk, LinkedFrom, HasLive;
    var s := Members(free);
    BytesIsWeight(pool, tiles, free);
    WeightWith(pool, tiles, |tiles|, s, b);
    assert tiles[..|tiles|] == tiles;
    FullWeight(pool, p, tiles, |tiles|, s + {b});
    if OnlyLive(pool, tiles, b) {
      forall j | 0 <= j < |tiles| ensures tiles[j] in s + {b} {
        assert tiles[j] in tiles;
      }
    } else {
      var c :| c in tiles && IsLive(pool, c) && c != b;
      assert tiles[Index(tiles, c)] !in s + {b};
    }
  }

  // ---- Joining the free list ----

  ghost predicate FreeRequest(pool: Pool, p: nat, tiles: seq<nat>, free: seq<nat>, b: nat) {
    && p in pool.pages && PageOk(pool, p, tiles, free) && LiveKnown(pool, p, tiles)
    && IsLive(pool, b) && b in tiles && pool.blocks[b].parent == p
  }

  lemma RequestOf(pool: Pool, lay: Layout, b: nat)
    requires Inv(pool, lay) && IsLive(pool, b)
    ensures var p := PageOf(pool, lay, b); FreeRequest(pool, p, lay.tiles[p], lay.free[p], b)
  {
    LiveTile(pool, lay, b);
    LiveKnownOf(pool, lay, PageOf(pool, lay, b));
  }

  // Link b to the end of the free list.
  function Join(pool: Pool, p: nat, last: nat, b: nat): Pool
    requires p in pool.pages && b in pool.blocks && (last != NULL ==> last in pool.blocks)
  {
    Relink(MarkFree(pool, b), p, last, b)
  }

  lemma LastFree(pool: Pool, p: nat, tiles: seq<nat>, free: seq<nat>, b: nat)
    requires FreeRequest(pool, p, tiles, free, b)
    ensures var last := At(free, |free| - 1);
      && last != b && b !in free
      && (last == NULL <==> free == [])
      && (last != NULL ==> last in tiles && last in pool.blocks && !pool.blocks[last].live && pool.blocks[last].parent == p)
  {
    TilesKnown(pool, p, tiles);
    if free != [] {
      FreeBlock(pool, p, tiles, free, |free| - 1, free[|free| - 1]);
    }
    BlocksInside(pool, p, tiles);
  }

  lemma JoinFacts(pool: Pool, p: nat, last: nat, b: nat)
    requires p in pool.pages && b in pool.blocks && last != b && (last != NULL ==> last in pool.blocks)
    ensures var r := Join(pool, p, last, b);
      && r.head == pool.head && r.pages == pool.pages[p := pool.pages[p].(first := r.pages[p].first)]
      && r.blocks.Keys == pool.blocks.Keys && r.blocks[b] == pool.blocks[b].(live := false)
      && (forall x :: x in pool.blocks && x != b ==> r.blocks[x] == pool.blocks[x].(next := r.blocks[x].next))
      && (forall x :: x in pool.blocks && x != b && x != last ==> r.blocks[x] == pool.blocks[x])
      && r.pages[p].first == (if last == NULL then b else pool.pages[p].first)
      && (last != NULL ==> r.blocks[last].next == b)
  {
  }

  lemma JoinConfined(pool: Pool, p: nat, last: nat, b: nat)
    requires p in pool.pages && b in pool.blocks && InPage(pool, p, b)
    requires last != NULL ==> last in pool.blocks && InPage(pool, p, last)
    ensures Confined(pool, Join(pool, p, last, b), p)
  {
  }

  lemma JoinLinked(pool: Pool, p: nat, free: seq<nat>, b: nat)
    requires p in pool.pages && LinkedFrom(pool, pool.pages[p].first, free) && NoDup(free) && NULL !in free
    requires b in pool.blocks && b !in free && pool.blocks[b].next == NULL
    ensures At(free, |free| - 1) != NULL ==> At(free, |free| - 1) in pool.blocks
    ensures var r := Join(pool, p, At(free, |free| - 1), b);
      LinkedFrom(r, r.pages[p].first, free + [b]) && NoDup(free + [b])
  {
    assert free != [] ==> LinkAt(pool, free, |free| - 1) && free[|free| - 1] in free;
    var r, list := Join(pool, p, At(free, |free| - 1), b), free + [b];
    forall i: nat | i < |list| ensures LinkAt(r, list, i) {
      assert i < |free| ==> LinkAt(pool, free, i) && free[i] in free;
    }
  }

  lemma JoinPage(pool: Pool, p: nat, tiles: seq<nat>, free: seq<nat>, b: nat)
    requires FreeRequest(pool, p, tiles, free, b) && !OnlyLive(pool, tiles, b) && pool.blocks[b].next == NULL
    ensures var last := At(free, |free| - 1);
      && (last != NULL ==> last in pool.blocks)
      && var r := Join(pool, p, last, b);
      PageOk(r, p, tiles, free + [b]) && LiveKnown(r, p, tiles)
  {
    PageOkParts(pool, p, tiles, free);
    LastFree(pool, p, tiles, free, b);
    FreeAreTiles(pool, p, tiles, free);
    TilesKnown(pool, p, tiles);
    hide PageOk, Tiled, LinkedFrom, Join;
    var last := At(free, |free| - 1);
    var r := Join(pool, p, last, b);
    JoinFacts(pool, p, last, b);
    JoinLinked(pool, p, free, b);
    TiledSame(pool, r, p, tiles);
    assert HasLive(r, tiles) by {
      var c :| c in tiles && IsLive(pool, c) && c != b;
      assert r.blocks[c].live;
    }
    assert AreFree(r, tiles, free + [b]);
    PageOkFrom(r, p, tiles, free + [b]);
    assert LiveKnown(r, p, tiles);
  }

  /** Appending a freed block keeps the invariant when its own link is null. */
  lemma JoinKeeps(pool: Pool, lay: Layout, b: nat)
    requires Inv(pool, lay) && IsLive(pool, b) && !PageFree(pool, lay, b) && pool.blocks[b].next == NULL
    ensures var p := PageOf(pool, lay, b);
      var last := At(lay.free[p], |lay.free[p]| - 1);
      && (last != NULL ==> last in pool.blocks)
      && Inv(Join(pool, p, last, b), lay.(free := lay.free[p := lay.free[p] + [b]]))
  {
    hide Inv, PageOk, Tiled, LiveKnown, Join, LinkedFrom;
    var p := PageOf(pool, lay, b);
    RequestOf(pool, lay, b);
    PageFreeIff(pool, lay, b);
    var tiles, free := lay.tiles[p], lay.free[p];
    JoinPage(pool, p, tiles, free, b);
    LastFree(pool, p, tiles, free, b);
    PageOkTiled(pool, p, tiles, free);
    BlocksInside(pool, p, tiles);
    JoinConfined(pool, p, At(free, |free| - 1), b);
    OnePage(pool, lay, Join(pool, p, At(free, |free| - 1), b), p, tiles, free + [b]);
    assert lay.(free := lay.free[p := free + [b]]) == WithPage(lay, p, tiles, free + [b]);
  }

  // ---- Merging with the block before ----

  // Let the last free block swallow b.
  function Merge(pool: Pool, last: nat, b: nat): Pool
    requires b in pool.blocks && last in pool.blocks
  {
    var marked := MarkFree(pool, b);
    marked.(blocks := marked.blocks[last := marked.blocks[last].(size := pool.blocks[last].size + pool.blocks[b].size + BLOCK_HEADER)])
  }

  lemma MergeTiled(pool: Pool, p: nat, tiles: seq<nat>, last: nat, b: nat)
    requires p in pool.pages && Tiled(pool, p, tiles) && last in tiles && b in tiles && last in pool.blocks && b in pool.blocks
    requires last + pool.blocks[last].size + BLOCK_HEADER == b
    ensures Tiled(Merge(pool, last, b), p, Without(tiles, Index(tiles, b)))
  {
    TilesDistinct(pool, p, tiles);
    TilesBelow(pool, p, tiles);
    var r, i, k := Merge(pool, last, b), Index(tiles, last), Index(tiles, b);
    assert TileOk(pool, p, tiles, i) && TileOk(pool, p, tiles, k);
    assert k == i + 1;
    var t := Without(tiles, k);
    forall j: nat | j < |t| ensures TileOk(r, p, t, j) {
      assert TileOk(pool, p, tiles, if j < k then j else j + 1);
    }
  }

  lemma MergeListed(pool: Pool, p: nat, tiles: seq<nat>, free: seq<nat>, b: nat)
    requires FreeRequest(pool, p, tiles, free, b) && free != [] && NoDup(tiles)
    ensures free[|free| - 1] in pool.blocks
    ensures Listed(Merge(pool, free[|free| - 1], b), p, Without(tiles, Index(tiles, b)), free)
  {
    LastFree(pool, p, tiles, free, b);
    TilesKnown(pool, p, tiles);
    WithoutHas(tiles, Index(tiles, b));
    var r, t := Merge(pool, free[|free| - 1], b), Without(tiles, Index(tiles, b));
    hide Tiled, Without, HasLive;
    forall i: nat | i < |free| ensures LinkAt(r, free, i) {
      assert LinkAt(pool, free, i) && free[i] in free;
    }
    assert AreFree(r, t, free);
  }

  lemma MergeLive(pool: Pool, p: nat, tiles: seq<nat>, last: nat, b: nat)
    requires p in pool.pages && last in pool.blocks && b in pool.blocks && last != b && !IsLive(pool, last)
    requires LiveKnown(pool, p, tiles) && !OnlyLive(pool, tiles, b) && b in tiles && NoDup(tiles)
    ensures var r, t := Merge(pool, last, b), Without(tiles, Index(tiles, b));
      HasLive(r, t) && LiveKnown(r, p, t)
  {
    WithoutHas(tiles, Index(tiles, b));
    var r, t := Merge(pool, last, b), Without(tiles, Index(tiles, b));
    hide Without;
    var c :| c in tiles && IsLive(pool, c) && c != b;
    assert c in t && r.blocks[c].live;
    forall x | InPage(r, p, x) && x in r.blocks && r.blocks[x].live ensures r.blocks[x].parent == p && x in t {
      assert InPage(pool, p, x);
    }
  }

  /** Merging a freed block into the last free block keeps the invariant. */
  lemma MergeKeeps(pool: Pool, lay: Layout, b: nat)
    requires Inv(pool, lay) && IsLive(pool, b) && EndingOf(pool, lay, b) == Merges
    ensures var p := PageOf(pool, lay, b);
      && lay.free[p] != [] && lay.free[p][|lay.free[p]| - 1] in pool.blocks
      && Inv(Merge(pool, lay.free[p][|lay.free[p]| - 1], b),
             lay.(tiles := lay.tiles[p := Without(lay.tiles[p], Index(lay.tiles[p], b))]))
  {
    hide Inv, PageOk, Tiled, Listed, LiveKnown, HasLive, Merge, Without;
    var p := PageOf(pool, lay, b);
    RequestOf(pool, lay, b);
    PageFreeIff(pool, lay, b);
    var tiles, free := lay.tiles[p], lay.free[p];
    LastFree(pool, p, tiles, free, b);
    PageOkParts(pool, p, tiles, free);
    TilesDistinct(pool, p, tiles);
    var last := free[|free| - 1];
    MergeTiled(pool, p, tiles, last, b);
    MergeListed(pool, p, tiles, free, b);
    MergeLive(pool, p, tiles, last, b);
    BlocksInside(pool, p, tiles);
    MergeConfined(pool, p, last, b);
    var r, t := Merge(pool, last, b), Without(tiles, Index(tiles, b));
    PageOkFrom(r, p, t, free);
    OnePage(pool, lay, r, p, t, free);
    assert lay.(tiles := lay.tiles[p := t]) == WithPage(lay, p, t, free);
  }

  lemma MergeConfined(pool: Pool, p: nat, last: nat, b: nat)
    requires p in pool.pages && b in pool.blocks && InPage(pool, p, b) && last in pool.blocks && InPage(pool, p, last)
    ensures Merge(pool, last, b).pages == pool.pages && Confined(pool, Merge(pool, last, b), p)
  {
  }

  // ---- Giving the page back ----

  lemma BypassAt(pages: map<nat, Page>, order: seq<nat>, i: nat, j: nat)
    requires i < |order| && j < |order| - 1 && NULL !in pages && NoDup(order)
    requires forall m: nat :: m < |order| ==> NodeOk(pages, order, m)
    ensures order[i] in pages && (pages[order[i]].next != NULL ==> pages[order[i]].next in pages)
      && (pages[order[i]].prev != NULL ==> pages[order[i]].prev in pages)
    ensures NodeOk(Bypass(pages, order[i]) - {order[i]}, Without(order, i), j)
  {
    assert NodeOk(pages, order, i);
    assert i > 0 ==> NodeOk(pages, order, i - 1);
    assert i + 1 < |order| ==> NodeOk(pages, order, i + 1);
    var k := if j < i then j else j + 1;
    assert NodeOk(pages, order, k);
    var t := Without(order, i);
    assert t[j] == order[k];
    assert At(t, j + 1) == if j + 1 < i then At(order, j + 1) else At(order, j + 2);
    assert At(t, j - 1) == if j - 1 < i then At(order, j - 1) else At(order, j);
  }

  /** Unlinking a page block keeps the page list well formed, with mem_pool as its head. */
  lemma UnlinkKeepsList(pool: Pool, order: seq<nat>, i: nat)
    requires PagesLinked(pool.pages, pool.head, order) && i < |order| && NULL !in pool.pages
    ensures var p := order[i];
      && p in pool.pages && (pool.pages[p].next != NULL ==> pool.pages[p].next in pool.pages)
      && (pool.pages[p].prev != NULL ==> pool.pages[p].prev in pool.pages)
      && PagesLinked(UnmapPage(pool, p).pages, UnmapPage(pool, p).head, Without(order, i))
  {
    assert NodeOk(pool.pages, order, i);
    var p, t := order[i], Without(order, i);
    assert i > 0 ==> NodeOk(pool.pages, order, i - 1);
    assert i + 1 < |order| ==> NodeOk(pool.pages, order, i + 1);
    WithoutHas(order, i);
    var r := UnmapPage(pool, p);
    forall j: nat | j < |t| ensures NodeOk(r.pages, t, j) {
      BypassAt(pool.pages, order, i, j);
    }
    BypassKeys(pool.pages, p);
    hide Without, NodeOk, Bypass, NoDup;
    HeadAfter(pool, order, i);
  }

  lemma BypassKeys(pages: map<nat, Page>, p: nat)
    requires p in pages && (pages[p].next != NULL ==> pages[p].next in pages) && (pages[p].prev != NULL ==> pages[p].prev in pages)
    ensures Bypass(pages, p).Keys == pages.Keys
    ensures forall q :: q in pages ==> Bypass(pages, p)[q] == pages[q].(next := Bypass(pages, p)[q].next, prev := Bypass(pages, p)[q].prev)
  {
  }

  lemma HeadAfter(pool: Pool, order: seq<nat>, i: nat)
    requires i < |order| && NodeOk(pool.pages, order, i) && pool.head == At(order, 0) && NoDup(order)
    ensures (if order[i] == pool.head then pool.pages[order[i]].next else pool.head) == At(Without(order, i), 0)
  {
  }

  /** Giving back the page of the last live block keeps the invariant. */
  lemma UnmapKeeps(pool: Pool, lay: Layout, b: nat)
    requires Inv(pool, lay) && IsLive(pool, b) && EndingOf(pool, lay, b) == Unmaps
    ensures Inv(Freed(pool, lay, b), LayoutAfterFree(pool, lay, b))
  {
    var p := PageOf(pool, lay, b);
    var i := Index(lay.order, p);
    var r, after := Freed(pool, lay, b), LayoutAfterFree(pool, lay, b);
    PageFreeIff(pool, lay, b);
    LinksStay(pool, lay, p);
    BypassKeys(pool.pages, p);
    assert NULL !in pool.pages;
    UnlinkKeepsList(MarkFree(pool, b), lay.order, i);
    UnmappedPages(pool, lay, b);
    UnmappedLive(pool, lay, b);
    UnmappedApart(pool, lay, b);
  }

  // What is left after page block p was given back.
  ghost predicate Unmapped(pool: Pool, r: Pool, p: nat, b: nat)
    requires p in pool.pages
  {
    && r.pages.Keys == pool.pages.Keys - {p}
    && (forall q :: q in r.pages ==> r.pages[q] == pool.pages[q].(next := r.pages[q].next, prev := r.pages[q].prev))
    && (forall x :: x in r.blocks <==> x in pool.blocks && !InPage(pool, p, x))
    && (forall x :: x in r.blocks && x != b ==> r.blocks[x] == pool.blocks[x])
    && b !in r.blocks
  }

  lemma UnmapPageFacts(pool: Pool, p: nat, b: nat)
    requires p in pool.pages && b in pool.blocks && InPage(pool, p, b)
    requires pool.pages[p].next != NULL ==> pool.pages[p].next in pool.pages
    requires pool.pages[p].prev != NULL ==> pool.pages[p].prev in pool.pages
    ensures Unmapped(pool, UnmapPage(MarkFree(pool, b), p), p, b)
  {
    BypassKeys(pool.pages, p);
    hide Bypass;
  }

  lemma UnmapFacts(pool: Pool, lay: Layout, b: nat)
    requires Inv(pool, lay) && IsLive(pool, b) && EndingOf(pool, lay, b) == Unmaps
    ensures Unmapped(pool, Freed(pool, lay, b), PageOf(pool, lay, b), b)
  {
    hide Inv, Bypass, UnmapPage, EndingOf;
    var p := PageOf(pool, lay, b);
    LinksStay(pool, lay, p);
    LiveInside(pool, lay, b);
    UnmapPageFacts(pool, p, b);
  }

  lemma StillPage(pool: Pool, lay: Layout, r: Pool, p: nat, b: nat, q: nat)
    requires Inv(pool, lay) && p in pool.pages && Unmapped(pool, r, p, b) && q in r.pages
    ensures q in lay.tiles && q in lay.free && PageOk(r, q, lay.tiles[q], lay.free[q])
  {
    hide PagesLinked, AllLiveOk, PageOk;
    PageOkOf(pool, lay, q);
    PageOkTiled(pool, q, lay.tiles[q], lay.free[q]);
    BlocksInside(pool, q, lay.tiles[q]);
    assert Apart(pool, p, q);
    PageElsewhere(pool, r, q, lay.tiles[q], lay.free[q]);
  }

  lemma UnmappedPages(pool: Pool, lay: Layout, b: nat)
    requires Inv(pool, lay) && IsLive(pool, b) && EndingOf(pool, lay, b) == Unmaps
    ensures var r, after := Freed(pool, lay, b), LayoutAfterFree(pool, lay, b);
      after.tiles.Keys == after.free.Keys == r.pages.Keys && AllPagesOk(r, after)
  {
    UnmapFacts(pool, lay, b);
    var p, r, after := PageOf(pool, lay, b), Freed(pool, lay, b), LayoutAfterFree(pool, lay, b);
    hide Freed, PageOk, EndingOf, AllPagesOk, AllApart, AllLiveOk, PagesLinked;
    assert after.tiles.Keys == after.free.Keys == r.pages.Keys;
    forall q | q in r.pages ensures PageOk(r, q, after.tiles[q], after.free[q]) {
      StillPage(pool, lay, r, p, b, q);
    }
    AllPagesOkFrom(r, after);
  }

  lemma AllPagesOkFrom(r: Pool, after: Layout)
    requires after.tiles.Keys == after.free.Keys == r.pages.Keys
    requires forall q :: q in r.pages ==> PageOk(r, q, after.tiles[q], after.free[q])
    ensures AllPagesOk(r, after)
  {
  }

  lemma StillLive(pool: Pool, lay: Layout, r: Pool, p: nat, b: nat, x: nat)
    requires Inv(pool, lay) && p in pool.pages && Unmapped(pool, r, p, b) && IsLive(r, x)
    ensures var q := r.blocks[x].parent; q != p && q in lay.tiles && x in lay.tiles[q]
  {
    hide Inv;
    assert r.blocks[x] == pool.blocks[x];
    LiveTile(pool, lay, x);
    LiveInside(pool, lay, x);
    hide PageOk;
    assert !InPage(pool, p, x);
  }

  lemma UnmapLayout(pool: Pool, lay: Layout, b: nat)
    requires Inv(pool, lay) && IsLive(pool, b) && EndingOf(pool, lay, b) == Unmaps
    ensures LayoutAfterFree(pool, lay, b).tiles == lay.tiles - {PageOf(pool, lay, b)}
  {
    hide Inv, EndingOf;
  }

  lemma UnmappedLive(pool: Pool, lay: Layout, b: nat)
    requires Inv(pool, lay) && IsLive(pool, b) && EndingOf(pool, lay, b) == Unmaps
    ensures AllLiveOk(Freed(pool, lay, b), LayoutAfterFree(pool, lay, b))
  {
    hide Inv, Freed, EndingOf, Unmapped, LayoutAfterFree;
    UnmapFacts(pool, lay, b);
    UnmapLayout(pool, lay, b);
    var p, r, after := PageOf(pool, lay, b), Freed(pool, lay, b), LayoutAfterFree(pool, lay, b);
    forall x ensures LiveOk(r, after, x) {
      if IsLive(r, x) {
        StillLive(pool, lay, r, p, b, x);
      }
    }
  }

  lemma UnmappedApart(pool: Pool, lay: Layout, b: nat)
    requires Inv(pool, lay) && IsLive(pool, b) && EndingOf(pool, lay, b) == Unmaps
    ensures AllApart(Freed(pool, lay, b))
  {
    UnmapFacts(pool, lay, b);
    hide Freed, EndingOf, AllPagesOk, AllLiveOk, PagesLinked;
    var r := Freed(pool, lay, b);
    forall q, s | q in r.pages && s in r.pages && q != s ensures Apart(r, q, s) {
      assert Apart(pool, q, s);
    }
  }

  // ---- free ----

  // The case free mishandles: the block goes to the end of the free list with an old link in it.
  ghost predicate Stale(pool: Pool, lay: Layout, b: nat)
    requires Inv(pool, lay) && IsLive(pool, b)
  {
    pool.blocks[b].next != NULL && (EndingOf(pool, lay, b) == Starts || EndingOf(pool, lay, b) == Appends)
  }

  lemma FreedIsJoin(pool: Pool, lay: Layout, b: nat)
    requires Inv(pool, lay) && IsLive(pool, b)
    requires EndingOf(pool, lay, b) == Starts || EndingOf(pool, lay, b) == Appends
    ensures var p := PageOf(pool, lay, b);
      var free := lay.free[p];
      && (At(free, |free| - 1) != NULL ==> At(free, |free| - 1) in pool.blocks)
      && Freed(pool, lay, b) == Join(pool, p, At(free, |free| - 1), b)
  {
    hide Inv, PageFree;
    RequestOf(pool, lay, b);
    var p := PageOf(pool, lay, b);
    LastFree(pool, p, lay.tiles[p], lay.free[p], b);
  }

  lemma FreeKeeps(pool: Pool, lay: Layout, b: nat)
    requires Inv(pool, lay) && IsLive(pool, b) && !Stale(pool, lay, b)
    ensures Inv(Freed(pool, lay, b), LayoutAfterFree(pool, lay, b))
  {
    hide Inv, Join, Merge, UnmapPage, Without;
    match EndingOf(pool, lay, b) {
      case Unmaps => UnmapKeeps(pool, lay, b);
      case Merges => MergeKeeps(pool, lay, b); MergedIs(pool, lay, b);
      case _ => JoinKeeps(pool, lay, b); FreedIsJoin(pool, lay, b);
    }
  }

  lemma MergedIs(pool: Pool, lay: Layout, b: nat)
    requires Inv(pool, lay) && IsLive(pool, b) && EndingOf(pool, lay, b) == Merges
    ensures var free := lay.free[PageOf(pool, lay, b)];
      free != [] && free[|free| - 1] in pool.blocks && Freed(pool, lay, b) == Merge(pool, free[|free| - 1], b)
  {
    hide Inv, PageFree;
  }

  // Tiles of a page are determined by sizes and the bump area.
  lemma {:induction false} TilesUnique(pool: Pool, r: Pool, p: nat, tiles: seq<nat>, t: seq<nat>, i: nat)
    requires p in pool.pages && p in r.pages && Tiled(pool, p, tiles) && Tiled(r, p, t) && i < |t|
    requires r.pages[p].bump == pool.pages[p].bump
    requires forall x :: x in pool.blocks ==> x in r.blocks && r.blocks[x].size == pool.blocks[x].size
    ensures i < |tiles| && tiles[i] == t[i]
  {
    TilesBelow(r, p, t);
    if i > 0 {
      TilesUnique(pool, r, p, tiles, t, i - 1);
      assert TileOk(pool, p, tiles, i - 1) && TileOk(r, p, t, i - 1);
      assert t[i] in t;
    }
  }

  // A list of links determines the blocks on it.
  lemma {:induction false} ChainUnique(r: Pool, first: nat, list: seq<nat>, f: seq<nat>, i: nat)
    requires LinkedFrom(r, first, f) && i < |list| && NULL !in list && first == At(list, 0)
    requires forall j: nat :: j < |list| - 1 ==> LinkAt(r, list, j)
    ensures i < |f| && f[i] == list[i]
  {
    assert list[i] in list;
    if i > 0 {
      ChainUnique(r, first, list, f, i - 1);
      assert LinkAt(r, list, i - 1) && LinkAt(r, f, i - 1);
    }
  }

  // After a stale link was appended, some block is listed twice or a listed block is no free block.
  lemma StaleBreaks(pool: Pool, r: Pool, p: nat, tiles: seq<nat>, free: seq<nat>, b: nat, after: Layout)
    requires FreeRequest(pool, p, tiles, free, b) && pool.blocks[b].next != NULL
    requires At(free, |free| - 1) != NULL ==> At(free, |free| - 1) in pool.blocks
    requires r == Join(pool, p, At(free, |free| - 1), b)
    ensures !Inv(r, after)
  {
    if Inv(r, after) {
      LastFree(pool, p, tiles, free, b);
      FreeAreTiles(pool, p, tiles, free);
      JoinFacts(pool, p, At(free, |free| - 1), b);
      PageOkOf(r, after, p);
      PageOkParts(r, p, after.tiles[p], after.free[p]);
      PageOkParts(pool, p, tiles, free);
      hide Inv, PageOk, Join;
      StaleLink(pool, r, p, tiles, free, b, after.tiles[p], after.free[p]);
    }
  }

  lemma StaleLink(pool: Pool, r: Pool, p: nat, tiles: seq<nat>, free: seq<nat>, b: nat, t: seq<nat>, f: seq<nat>)
    requires p in pool.pages && p in r.pages && Tiled(pool, p, tiles) && Listed(pool, p, tiles, free)
    requires Tiled(r, p, t) && r.pages[p].bump == pool.pages[p].bump
    requires NULL !in free && b != NULL && b in pool.blocks && b !in free && pool.blocks[b].next != NULL
    requires r.blocks.Keys == pool.blocks.Keys && r.blocks[b] == pool.blocks[b].(live := false)
    requires forall x :: x in pool.blocks && x != b ==> r.blocks[x] == pool.blocks[x].(next := r.blocks[x].next)
    requires forall x :: x in pool.blocks && x != b && x != At(free, |free| - 1) ==> r.blocks[x] == pool.blocks[x]
    requires r.pages[p].first == (if free == [] then b else pool.pages[p].first)
    requires free != [] ==> free[|free| - 1] in pool.blocks && r.blocks[free[|free| - 1]].next == b
    ensures !Listed(r, p, t, f)
  {
    if Listed(r, p, t, f) {
      LongerList(pool, r, pool.pages[p].first, r.pages[p].first, free, b, f);
      hide LinkedFrom, Tiled;
      var x := f[|free| + 1];
      assert x in f && x != b && x !in free by {
        assert f[..|free| + 1] == free + [b];
        assert forall i :: 0 <= i <= |free| ==> f[i] == f[..|free| + 1][i];
        NotEarlier(f, |free| + 1);
      }
      TilesUnique(pool, r, p, tiles, t, Index(t, x));
    }
  }

  lemma NotEarlier(f: seq<nat>, n: nat)
    requires n < |f| && NoDup(f)
    ensures f[n] !in f[..n]
  {
  }

  // The chain from the head runs over the old list and b and goes on.
  lemma LongerList(pool: Pool, r: Pool, first: nat, head: nat, free: seq<nat>, b: nat, f: seq<nat>)
    requires LinkedFrom(pool, first, free) && LinkedFrom(r, head, f) && NoDup(free) && NULL !in free
    requires b != NULL && b in pool.blocks && b in r.blocks && b !in free && r.blocks[b].next == pool.blocks[b].next != NULL
    requires forall x :: x in pool.blocks && x != b && x != At(free, |free| - 1) ==> x in r.blocks && r.blocks[x] == pool.blocks[x]
    requires head == (if free == [] then b else first)
    requires free != [] ==> free[|free| - 1] in r.blocks && r.blocks[free[|free| - 1]].next == b
    ensures |f| > |free| + 1 && f[..|free| + 1] == free + [b]
  {
    var list := free + [b];
    forall j: nat | j < |list| - 1 ensures LinkAt(r, list, j) {
      assert LinkAt(pool, free, j) && free[j] in free;
      assert j < |free| - 1 ==> free[j] != free[|free| - 1];
    }
    assert NULL !in list;
    forall i: nat | i < |list| ensures i < |f| && f[i] == list[i] {
      ChainUnique(r, head, list, f, i);
    }
    assert |free| < |list| && list[|free|] == b;
    assert |free| < |f| && f[|free|] == b && LinkAt(r, f, |free|);
  }

  /** free keeps the page blocks tiled and the free lists sound if and only if it does not append a
      block that still carries a link from an earlier list. */
  lemma FreeKeepsIff(pool: Pool, lay: Layout, b: nat)
    requires Inv(pool, lay) && IsLive(pool, b)
    ensures (exists after :: Inv(Freed(pool, lay, b), after)) <==> !Stale(pool, lay, b)
  {
    hide Inv, Join, Freed;
    if Stale(pool, lay, b) {
      FreedIsJoin(pool, lay, b);
      RequestOf(pool, lay, b);
      var p := PageOf(pool, lay, b);
      forall after ensures !Inv(Freed(pool, lay, b), after) {
        StaleBreaks(pool, Freed(pool, lay, b), p, lay.tiles[p], lay.free[p], b, after);
      }
    } else {
      FreeKeeps(pool, lay, b);
      assert Inv(Freed(pool, lay, b), LayoutAfterFree(pool, lay, b));
    }
  }

  // b is no longer live; every other live block is as it was.
  ghost predicate Lost(pool: Pool, r: Pool, b: nat) {
    && !IsLive(r, b)
    && (forall x :: x != b ==> (IsLive(r, x) <==> IsLive(pool, x)))
    && (forall x :: IsLive(r, x) ==> r.blocks[x] == pool.blocks[x])
  }

  /** free takes back one block, whatever the free list looks like, and gives its page block to the
      kernel if and only if it was the last live one. */
  lemma FreeTakes(pool: Pool, lay: Layout, b: nat)
    requires Inv(pool, lay) && IsLive(pool, b)
    ensures Lost(pool, Freed(pool, lay, b), b)
    ensures var p := PageOf(pool, lay, b);
      && (p !in Freed(pool, lay, b).pages <==> OnlyLive(pool, lay.tiles[p], b))
      && (forall q :: q in pool.pages && q != p ==> q in Freed(pool, lay, b).pages)
  {
    hide Inv;
    PageFreeIff(pool, lay, b);
    hide PageFree;
    RequestOf(pool, lay, b);
    var p := PageOf(pool, lay, b);
    LastFree(pool, p, lay.tiles[p], lay.free[p], b);
    hide FreeRequest;
    match EndingOf(pool, lay, b) {
      case Unmaps => UnmapTakes(pool, lay, b);
      case Merges =>
      case _ => FreedIsJoin(pool, lay, b); JoinFacts(pool, p, At(lay.free[p], |lay.free[p]| - 1), b);
    }
  }

  lemma UnmapTakes(pool: Pool, lay: Layout, b: nat)
    requires Inv(pool, lay) && IsLive(pool, b) && EndingOf(pool, lay, b) == Unmaps
    requires OnlyLive(pool, lay.tiles[PageOf(pool, lay, b)], b)
    ensures Lost(pool, Freed(pool, lay, b), b)
    ensures var p, r := PageOf(pool, lay, b), Freed(pool, lay, b); r.pages.Keys == pool.pages.Keys - {p}
  {
    hide Inv, Freed, EndingOf, PageOk;
    UnmapFacts(pool, lay, b);
    var p, r := PageOf(pool, lay, b), Freed(pool, lay, b);
    forall x | x != b && IsLive(pool, x) ensures IsLive(r, x) {
      LiveTile(pool, lay, x);
      if pool.blocks[x].parent != p {
        OthersOutside(pool, lay, p, x);
      }
    }
  }

  lemma OthersOutside(pool: Pool, lay: Layout, p: nat, x: nat)
    requires Inv(pool, lay) && IsLive(pool, x) && p in pool.pages && pool.blocks[x].parent != p
    ensures !InPage(pool, p, x)
  {
    LiveTile(pool, lay, x);
    LiveInside(pool, lay, x);
    assert Apart(pool, p, pool.blocks[x].parent);
  }
}
