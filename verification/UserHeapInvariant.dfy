/** What the invariant of the userspace heap says about blocks and pages, and that a change confined
    to one page keeps it (userspace/stdlib/include/stdlib.h:12-28). */
module UserHeapInvariant {
  import opened UserHeapModel
  import opened Sequences

  // ---- Tiles ----

  lemma {:induction false} TilesAscend(pool: Pool, p: nat, tiles: seq<nat>, i: nat, j: nat)
    requires p in pool.pages && Tiled(pool, p, tiles) && i < j < |tiles|
    ensures TileOk(pool, p, tiles, i) && tiles[i] + BLOCK_HEADER + pool.blocks[tiles[i]].size <= tiles[j]
  {
    assert TileOk(pool, p, tiles, i) && TileOk(pool, p, tiles, j - 1);
    if i < j - 1 {
      TilesAscend(pool, p, tiles, i, j - 1);
    }
  }

  // A block lies past the page header and before the bump area.
  lemma TileInside(pool: Pool, p: nat, tiles: seq<nat>, i: nat)
    requires p in pool.pages && Tiled(pool, p, tiles) && i < |tiles|
    ensures TileOk(pool, p, tiles, i)
    ensures p + PAGE_HEADER <= tiles[i]
    ensures tiles[i] + BLOCK_HEADER + pool.blocks[tiles[i]].size <= pool.pages[p].bump <= p + pool.pages[p].og
  {
    assert TileOk(pool, p, tiles, i) && TileOk(pool, p, tiles, |tiles| - 1);
    if i > 0 {
      TilesAscend(pool, p, tiles, 0, i);
    }
    if i < |tiles| - 1 {
      TilesAscend(pool, p, tiles, i, |tiles| - 1);
    }
  }

  lemma TilesDistinct(pool: Pool, p: nat, tiles: seq<nat>)
    requires p in pool.pages && Tiled(pool, p, tiles)
    ensures NoDup(tiles)
  {
    forall i, j | 0 <= i < j < |tiles| ensures tiles[i] != tiles[j] {
      TilesAscend(pool, p, tiles, i, j);
    }
  }

  lemma PageOkOf(pool: Pool, lay: Layout, p: nat)
    requires Inv(pool, lay) && p in pool.pages
    ensures p in lay.tiles && p in lay.free && PageOk(pool, p, lay.tiles[p], lay.free[p])
  {
  }

  // Every block of a page lies in the page.
  lemma BlocksInside(pool: Pool, p: nat, tiles: seq<nat>)
    requires p in pool.pages && Tiled(pool, p, tiles)
    ensures forall b :: b in tiles ==> b in pool.blocks && p + PAGE_HEADER <= b < p + pool.pages[p].og
  {
    forall b | b in tiles ensures b in pool.blocks && p + PAGE_HEADER <= b < p + pool.pages[p].og {
      TileInside(pool, p, tiles, Index(tiles, b));
    }
  }

  lemma LiveTile(pool: Pool, lay: Layout, b: nat)
    requires Inv(pool, lay) && b in pool.blocks && pool.blocks[b].live
    ensures var p := pool.blocks[b].parent;
      p in pool.pages && p in lay.tiles && p in lay.free && b in lay.tiles[p] && PageOk(pool, p, lay.tiles[p], lay.free[p])
  {
    assert PageOf(pool, lay, b) == pool.blocks[b].parent;
  }

  // A live block is a tile of its page, and lies past the header and before the bump area.
  lemma LiveInside(pool: Pool, lay: Layout, b: nat)
    requires Inv(pool, lay) && b in pool.blocks && pool.blocks[b].live
    ensures var p := PageOf(pool, lay, b);
      p + PAGE_HEADER <= b && b + BLOCK_HEADER + pool.blocks[b].size <= p + pool.pages[p].og
  {
    var p := PageOf(pool, lay, b);
    PageOkOf(pool, lay, p);
    TileInside(pool, p, lay.tiles[p], Index(lay.tiles[p], b));
  }

  lemma TilesApart(pool: Pool, p: nat, tiles: seq<nat>, b: nat, c: nat)
    requires p in pool.pages && Tiled(pool, p, tiles) && b in tiles && c in tiles && b != c
    ensures b in pool.blocks && c in pool.blocks
    ensures b + BLOCK_HEADER + pool.blocks[b].size <= c || c + BLOCK_HEADER + pool.blocks[c].size <= b
  {
    var i, j := Index(tiles, b), Index(tiles, c);
    TilesAscend(pool, p, tiles, if i < j then i else j, if i < j then j else i);
    TileInside(pool, p, tiles, if i < j then j else i);
  }

  /** Blocks handed out never overlap each other or a page header, and lie in their page. */
  lemma LiveBlocksAreApart(pool: Pool, lay: Layout, b: nat, c: nat)
    requires Inv(pool, lay)
    requires b in pool.blocks && pool.blocks[b].live
    requires c in pool.blocks && pool.blocks[c].live && b != c
    ensures b + BLOCK_HEADER + pool.blocks[b].size <= c || c + BLOCK_HEADER + pool.blocks[c].size <= b
    ensures forall q :: q in pool.pages ==> q + PAGE_HEADER <= b || b + BLOCK_HEADER + pool.blocks[b].size <= q
    ensures var p := pool.blocks[b].parent; p in pool.pages && b + BLOCK_HEADER + pool.blocks[b].size <= p + pool.pages[p].og
  {
    hide PageOk, PagesLinked, LiveOk;
    var p, q := PageOf(pool, lay, b), PageOf(pool, lay, c);
    LiveInside(pool, lay, b);
    LiveInside(pool, lay, c);
    if p == q {
      PageTiled(pool, lay, p);
      TilesApart(pool, p, lay.tiles[p], b, c);
    } else {
      assert Apart(pool, p, q);
    }
    forall r | r in pool.pages ensures r + PAGE_HEADER <= b || b + BLOCK_HEADER + pool.blocks[b].size <= r {
      assert r != p ==> Apart(pool, r, p);
      PageHoldsHeader(pool, lay, r);
    }
  }

  lemma PageTiled(pool: Pool, lay: Layout, p: nat)
    requires Inv(pool, lay) && p in pool.pages
    ensures p in lay.tiles && Tiled(pool, p, lay.tiles[p])
  {
  }

  lemma PageHoldsHeader(pool: Pool, lay: Layout, p: nat)
    requires Inv(pool, lay) && p in pool.pages
    ensures pool.pages[p].og >= PAGE_HEADER + BLOCK_HEADER
  {
    PageTiled(pool, lay, p);
    TileInside(pool, p, lay.tiles[p], 0);
  }

  // ---- One page changes ----

  ghost predicate InPage(pool: Pool, p: nat, b: nat)
    requires p in pool.pages
  {
    p <= b < p + pool.pages[p].og
  }

  // Only page p differs between the pools, and not in its place in the page list.
  ghost predicate Confined(pool: Pool, r: Pool, p: nat)
    requires p in pool.pages
  {
    && r.head == pool.head && r.pages.Keys == pool.pages.Keys
    && (forall q :: q in pool.pages && q != p ==> r.pages[q] == pool.pages[q])
    && r.pages[p] == pool.pages[p].(room := r.pages[p].room, bump := r.pages[p].bump, first := r.pages[p].first)
    && (forall b :: !InPage(pool, p, b) ==> (b in r.blocks <==> b in pool.blocks))
    && (forall b :: !InPage(pool, p, b) && b in pool.blocks ==> r.blocks[b] == pool.blocks[b])
  }

  lemma TilesKnown(pool: Pool, p: nat, tiles: seq<nat>)
    requires p in pool.pages && Tiled(pool, p, tiles)
    ensures forall b :: b in tiles ==> b in pool.blocks && pool.blocks[b].parent == p
  {
    forall b | b in tiles ensures b in pool.blocks && pool.blocks[b].parent == p {
      assert TileOk(pool, p, tiles, Index(tiles, b));
    }
  }

  // A page none of whose words changed is still well formed.
  lemma PageElsewhere(pool: Pool, r: Pool, q: nat, tiles: seq<nat>, free: seq<nat>)
    requires q in pool.pages && PageOk(pool, q, tiles, free)
    requires q in r.pages && r.pages[q] == pool.pages[q].(next := r.pages[q].next, prev := r.pages[q].prev)
    requires forall b :: b in tiles && b in pool.blocks ==> b in r.blocks && r.blocks[b] == pool.blocks[b]
    ensures PageOk(r, q, tiles, free)
  {
    forall i: nat | i < |tiles| ensures TileOk(r, q, tiles, i) {
      assert TileOk(pool, q, tiles, i) && tiles[i] in tiles;
    }
    forall i: nat | i < |free| ensures LinkAt(r, free, i) {
      assert LinkAt(pool, free, i) && free[i] in free;
    }
    TilesKnown(pool, q, tiles);
    assert AreFree(r, tiles, free);
    assert HasLive(r, tiles) by {
      var b :| b in tiles && b in pool.blocks && pool.blocks[b].live;
      assert b in r.blocks && r.blocks[b].live;
    }
    assert Tiled(r, q, tiles) && Listed(r, q, tiles, free);
  }

  ghost predicate LiveKnown(pool: Pool, p: nat, tiles: seq<nat>)
    requires p in pool.pages
  {
    forall b :: InPage(pool, p, b) && b in pool.blocks && pool.blocks[b].live ==> pool.blocks[b].parent == p && b in tiles
  }

  lemma LiveKnownOf(pool: Pool, lay: Layout, p: nat)
    requires Inv(pool, lay) && p in pool.pages
    ensures p in lay.tiles && LiveKnown(pool, p, lay.tiles[p])
  {
    forall b | InPage(pool, p, b) && b in pool.blocks && pool.blocks[b].live
      ensures pool.blocks[b].parent == p && b in lay.tiles[p]
    {
      var q := PageOf(pool, lay, b);
      PageOkOf(pool, lay, q);
      TileInside(pool, q, lay.tiles[q], Index(lay.tiles[q], b));
      assert p != q ==> Apart(pool, p, q);
    }
  }

  ghost function WithPage(lay: Layout, p: nat, tiles: seq<nat>, free: seq<nat>): Layout {
    lay.(tiles := lay.tiles[p := tiles], free := lay.free[p := free])
  }

  // A change confined to one page keeps the invariant if it keeps that page well formed.
  lemma OnePage(pool: Pool, lay: Layout, r: Pool, p: nat, tiles: seq<nat>, free: seq<nat>)
    requires Inv(pool, lay) && p in pool.pages && Confined(pool, r, p)
    requires PageOk(r, p, tiles, free) && LiveKnown(r, p, tiles)
    ensures Inv(r, WithPage(lay, p, tiles, free))
  {
    hide PageOk, LiveKnown, Confined, PagesLinked, AllPagesOk, AllApart, AllLiveOk;
    PagesKept(pool, lay, r, p, tiles, free);
    ApartKept(pool, r, p);
    LiveKept(pool, lay, r, p, tiles, free);
    LinksKept(pool, r, p, lay.order);
  }

  lemma PagesKept(pool: Pool, lay: Layout, r: Pool, p: nat, tiles: seq<nat>, free: seq<nat>)
    requires Inv(pool, lay) && p in pool.pages && Confined(pool, r, p) && PageOk(r, p, tiles, free)
    ensures var after := WithPage(lay, p, tiles, free);
      after.tiles.Keys == after.free.Keys == r.pages.Keys && AllPagesOk(r, after)
  {
    hide PageOk, PagesLinked, AllApart, AllLiveOk;
    var after := WithPage(lay, p, tiles, free);
    forall q | q in r.pages ensures q in after.tiles && q in after.free && PageOk(r, q, after.tiles[q], after.free[q]) {
      if q != p {
        OtherPage(pool, lay, r, p, q);
      }
    }
  }

  lemma ApartKept(pool: Pool, r: Pool, p: nat)
    requires p in pool.pages && Confined(pool, r, p) && AllApart(pool)
    ensures AllApart(r)
  {
    forall q, s | q in r.pages && s in r.pages && q != s ensures Apart(r, q, s) {
      assert Apart(pool, q, s);
    }
  }

  lemma LinksKept(pool: Pool, r: Pool, p: nat, order: seq<nat>)
    requires p in pool.pages && Confined(pool, r, p) && PagesLinked(pool.pages, pool.head, order)
    ensures PagesLinked(r.pages, r.head, order)
  {
    forall i: nat | i < |order| ensures NodeOk(r.pages, order, i) {
      assert NodeOk(pool.pages, order, i);
    }
  }

  lemma LiveKept(pool: Pool, lay: Layout, r: Pool, p: nat, tiles: seq<nat>, free: seq<nat>)
    requires Inv(pool, lay) && p in pool.pages && Confined(pool, r, p) && LiveKnown(r, p, tiles)
    ensures AllLiveOk(r, WithPage(lay, p, tiles, free))
  {
    hide AllPagesOk, AllApart, PagesLinked;
    forall b ensures LiveOk(r, WithPage(lay, p, tiles, free), b) {
      assert LiveOk(pool, lay, b);
      if !InPage(pool, p, b) && b in r.blocks && r.blocks[b].live {
        assert r.blocks[b] == pool.blocks[b];
        NotOfPage(pool, lay, p, b);
      }
      assert InPage(pool, p, b) == InPage(r, p, b);
    }
  }

  lemma OtherPage(pool: Pool, lay: Layout, r: Pool, p: nat, q: nat)
    requires Inv(pool, lay) && p in pool.pages && Confined(pool, r, p) && q in pool.pages && q != p
    ensures q in r.pages && q in lay.tiles && q in lay.free && PageOk(r, q, lay.tiles[q], lay.free[q])
  {
    PageOkOf(pool, lay, q);
    BlocksInside(pool, q, lay.tiles[q]);
    assert Apart(pool, p, q);
    forall b | b in lay.tiles[q] && b in pool.blocks ensures b in r.blocks && r.blocks[b] == pool.blocks[b] {
      assert !InPage(pool, p, b);
    }
    PageElsewhere(pool, r, q, lay.tiles[q], lay.free[q]);
  }

  lemma NotOfPage(pool: Pool, lay: Layout, p: nat, b: nat)
    requires Inv(pool, lay) && p in pool.pages && !InPage(pool, p, b) && b in pool.blocks && pool.blocks[b].live
    ensures pool.blocks[b].parent != p
  {
    var q := PageOf(pool, lay, b);
    PageOkOf(pool, lay, q);
    BlocksInside(pool, q, lay.tiles[q]);
  }

  // ---- Free blocks ----

  ghost predicate FreeAt(pool: Pool, p: nat, tiles: seq<nat>, free: seq<nat>, k: nat, b: nat) {
    && p in pool.pages && PageOk(pool, p, tiles, free) && k < |free| && free[k] == b
  }

  // What the free list says about its block k.
  lemma FreeBlock(pool: Pool, p: nat, tiles: seq<nat>, free: seq<nat>, k: nat, b: nat)
    requires FreeAt(pool, p, tiles, free, k, b)
    ensures b in tiles && b in pool.blocks && !pool.blocks[b].live && pool.blocks[b].next == At(free, k + 1)
    ensures pool.blocks[b].parent == p && pool.blocks[b].size % 8 == 0 && p + PAGE_HEADER <= b
    ensures b + BLOCK_HEADER + pool.blocks[b].size <= pool.pages[p].bump <= p + pool.pages[p].og
    ensures At(free, k - 1) != NULL ==> k > 0 && At(free, k - 1) in tiles && At(free, k - 1) in pool.blocks
    ensures At(free, k - 1) == NULL ==> k == 0
    ensures pool.blocks[b].size < WORD
    ensures At(free, k - 1) != NULL ==> !pool.blocks[At(free, k - 1)].live
    ensures At(free, k - 1) != b
  {
    assert free[k] in free && LinkAt(pool, free, k);
    TileInside(pool, p, tiles, Index(tiles, b));
    if k > 0 {
      assert free[k - 1] in free;
      TileInside(pool, p, tiles, Index(tiles, free[k - 1]));
    }
  }

  lemma DistinctAt(free: seq<nat>, k: nat)
    requires k < |free| && NoDup(free) && free[k] != NULL
    ensures At(free, k - 1) != free[k]
  {
  }

  lemma FreeAreTiles(pool: Pool, p: nat, tiles: seq<nat>, free: seq<nat>)
    requires p in pool.pages && PageOk(pool, p, tiles, free)
    ensures forall x :: x in free ==> x in tiles
    ensures NULL !in tiles && NULL !in free
  {
    BlocksInside(pool, p, tiles);
  }

  lemma PageOkTiled(pool: Pool, p: nat, tiles: seq<nat>, free: seq<nat>)
    requires p in pool.pages && PageOk(pool, p, tiles, free)
    ensures Tiled(pool, p, tiles)
  {
  }

  lemma PageOkParts(pool: Pool, p: nat, tiles: seq<nat>, free: seq<nat>)
    requires p in pool.pages && PageOk(pool, p, tiles, free)
    ensures 0 < p && p % 8 == 0 && p + pool.pages[p].og <= WORD
    ensures Tiled(pool, p, tiles) && Listed(pool, p, tiles, free) && HasLive(pool, tiles)
    ensures pool.pages[p].bump + pool.pages[p].room == p + pool.pages[p].og
  {
  }

  lemma PageOkFrom(pool: Pool, p: nat, tiles: seq<nat>, free: seq<nat>)
    requires p in pool.pages && 0 < p && p % 8 == 0 && p + pool.pages[p].og <= WORD
    requires Tiled(pool, p, tiles) && Listed(pool, p, tiles, free) && HasLive(pool, tiles)
    ensures PageOk(pool, p, tiles, free)
  {
  }

  lemma SizeFits(pool: Pool, p: nat, tiles: seq<nat>, free: seq<nat>, b: nat)
    requires p in pool.pages && PageOk(pool, p, tiles, free) && b in tiles && b in pool.blocks
    ensures pool.blocks[b].size < WORD
  {
    TileInside(pool, p, tiles, Index(tiles, b));
  }

  // No block of the page but b became live.
  lemma LiveAfter(pool: Pool, r: Pool, p: nat, tiles: seq<nat>, t: seq<nat>, b: nat)
    requires p in pool.pages && p in r.pages && r.pages[p].og == pool.pages[p].og
    requires LiveKnown(pool, p, tiles) && (forall x :: x in tiles && x in pool.blocks && pool.blocks[x].live ==> x in t) && b in t
    requires b in r.blocks && r.blocks[b].live && r.blocks[b].parent == p
    requires forall x :: x in r.blocks && r.blocks[x].live && x != b ==>
      x in pool.blocks && pool.blocks[x].live && pool.blocks[x].parent == r.blocks[x].parent
    ensures LiveKnown(r, p, t) && HasLive(r, t)
  {
    forall x | InPage(r, p, x) && x in r.blocks && r.blocks[x].live ensures r.blocks[x].parent == p && x in t {
      assert InPage(pool, p, x);
    }
  }

  // Tiles depend on sizes, parents and the bump area alone.
  lemma TiledSame(pool: Pool, r: Pool, p: nat, tiles: seq<nat>)
    requires p in pool.pages && p in r.pages && Tiled(pool, p, tiles)
    requires r.pages[p].og == pool.pages[p].og && r.pages[p].bump == pool.pages[p].bump && r.pages[p].room == pool.pages[p].room
    requires forall x :: x in tiles && x in pool.blocks ==>
      x in r.blocks && r.blocks[x].size == pool.blocks[x].size && r.blocks[x].parent == pool.blocks[x].parent
    ensures Tiled(r, p, tiles)
  {
    forall i: nat | i < |tiles| ensures TileOk(r, p, tiles, i) {
      assert TileOk(pool, p, tiles, i) && tiles[i] in tiles;
    }
  }
}
