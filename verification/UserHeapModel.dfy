/** The userspace heap: page blocks, the memory blocks tiled inside them, and what malloc and free
    do to their headers (userspace/stdlib/malloc.c, userspace/stdlib/free.c, stdlib.h).
    A `Pool` is the raw memory: the head of the page list and every header by address.  A `Layout`
    is a reading of it: the page list in order and, for each page, its blocks in address order and
    its free blocks in list order.  `Inv` says that a layout is a correct reading.
 */
module UserHeapModel {
  import opened Paging
  import opened Sequences

  const NULL: nat := 0
  const PAGE_HEADER: nat := 24    // sizeof(page_block_t)
  const BLOCK_HEADER: nat := 16   // sizeof(mem_block_t)
  const WORD: nat := 0x1_0000_0000

  // page_block_t: og_size, free_size, next_free_addr, free_blocks and the page list.
  datatype Page = Page(og: nat, room: nat, bump: nat, first: nat, next: nat, prev: nat)
  // mem_block_t.
  datatype Block = Block(size: nat, parent: nat, next: nat, live: bool)
  datatype Pool = Pool(head: nat, pages: map<nat, Page>, blocks: map<nat, Block>)

  datatype Layout = Layout(order: seq<nat>, tiles: map<nat, seq<nat>>, free: map<nat, seq<nat>>)

  const EMPTY_POOL := Pool(NULL, map[], map[])
  const EMPTY_LAYOUT := Layout([], map[], map[])

  // ---- Sizes ----

  function AlignUp(size: nat): nat { (size + 7) % WORD / 8 * 8 }
  function Target(size: nat): nat { (AlignUp(size) + BLOCK_HEADER) % WORD }
  function AllocSize(size: nat): nat { (Target(size) + PAGE_HEADER) % WORD }
  function MappedSize(size: nat): nat { PAGE_SIZE * PagesRequired(AllocSize(size)) % WORD }

  // Requests whose size arithmetic stays within 32 bits.
  predicate Sane(size: nat) { size <= 0xFFFF_EFD8 }

  /** Below the bound every size is what it looks like, above it some step wraps to 0 or less than
      was asked for. */
  lemma SizesFitIff(size: nat)
    requires size < WORD
    ensures Sane(size) <==>
      && size <= AlignUp(size) && Target(size) == AlignUp(size) + BLOCK_HEADER
      && AllocSize(size) == Target(size) + PAGE_HEADER
      && MappedSize(size) >= AllocSize(size)
    ensures Sane(size) ==> AlignUp(size) < size + 8 && MappedSize(size) < AllocSize(size) + PAGE_SIZE
    ensures Sane(size) ==> AllocSize(size) <= WORD - PAGE_SIZE
    ensures Sane(size) ==> MappedSize(size) == PAGE_SIZE * PagesRequired(AllocSize(size))
  {
  }

  // ---- The invariant ----

  // Element i of a list, NULL outside it.
  function At(list: seq<nat>, i: int): nat {
    if 0 <= i < |list| then list[i] else NULL
  }

  // Where tile i ends: at the next tile, or at the bump area.
  function EndOf(pool: Pool, p: nat, tiles: seq<nat>, i: nat): nat
    requires p in pool.pages
  {
    if i + 1 < |tiles| then tiles[i + 1] else pool.pages[p].bump
  }

  ghost predicate TileOk(pool: Pool, p: nat, tiles: seq<nat>, i: nat)
    requires p in pool.pages && i < |tiles|
  {
    && tiles[i] in pool.blocks && pool.blocks[tiles[i]].parent == p && pool.blocks[tiles[i]].size % 8 == 0
    && tiles[i] + BLOCK_HEADER + pool.blocks[tiles[i]].size == EndOf(pool, p, tiles, i)
  }

  // Header, blocks and bump area fill the page without gap or overlap.
  ghost predicate Tiled(pool: Pool, p: nat, tiles: seq<nat>)
    requires p in pool.pages
  {
    && tiles != [] && tiles[0] == p + PAGE_HEADER
    && (forall i: nat :: i < |tiles| ==> TileOk(pool, p, tiles, i))
    && pool.pages[p].bump + pool.pages[p].room == p + pool.pages[p].og
  }

  // Block i of a list links to the next one.
  ghost predicate LinkAt(pool: Pool, free: seq<nat>, i: nat)
    requires i < |free|
  {
    free[i] in pool.blocks && pool.blocks[free[i]].next == At(free, i + 1)
  }

  ghost predicate LinkedFrom(pool: Pool, first: nat, free: seq<nat>) {
    && first == At(free, 0)
    && (forall i: nat :: i < |free| ==> LinkAt(pool, free, i))
  }

  ghost predicate AreFree(pool: Pool, tiles: seq<nat>, free: seq<nat>) {
    forall b :: b in free <==> b in tiles && b in pool.blocks && !pool.blocks[b].live
  }

  // The free list ends, repeats nothing and holds exactly the free blocks.
  ghost predicate Listed(pool: Pool, p: nat, tiles: seq<nat>, free: seq<nat>)
    requires p in pool.pages
  {
    NoDup(free) && LinkedFrom(pool, pool.pages[p].first, free) && AreFree(pool, tiles, free)
  }

  ghost predicate HasLive(pool: Pool, tiles: seq<nat>) {
    exists b :: b in tiles && b in pool.blocks && pool.blocks[b].live
  }

  ghost predicate PageOk(pool: Pool, p: nat, tiles: seq<nat>, free: seq<nat>)
    requires p in pool.pages
  {
    && 0 < p && p % 8 == 0 && p + pool.pages[p].og <= WORD
    && Tiled(pool, p, tiles) && Listed(pool, p, tiles, free) && HasLive(pool, tiles)
  }

  ghost predicate Apart(pool: Pool, p: nat, q: nat)
    requires p in pool.pages && q in pool.pages
  {
    p + pool.pages[p].og <= q || q + pool.pages[q].og <= p
  }

  ghost predicate NodeOk(pages: map<nat, Page>, order: seq<nat>, i: nat)
    requires i < |order|
  {
    order[i] in pages && pages[order[i]].next == At(order, i + 1) && pages[order[i]].prev == At(order, i - 1)
  }

  ghost predicate PagesLinked(pages: map<nat, Page>, head: nat, order: seq<nat>) {
    && head == At(order, 0) && NoDup(order)
    && (forall p :: p in order <==> p in pages)
    && (forall i: nat :: i < |order| ==> NodeOk(pages, order, i))
  }

  ghost predicate LiveOk(pool: Pool, lay: Layout, b: nat) {
    b in pool.blocks && pool.blocks[b].live ==>
      pool.blocks[b].parent in lay.tiles && b in lay.tiles[pool.blocks[b].parent]
  }

  ghost predicate AllPagesOk(pool: Pool, lay: Layout)
    requires lay.tiles.Keys == lay.free.Keys == pool.pages.Keys
  {
    forall p :: p in pool.pages ==> PageOk(pool, p, lay.tiles[p], lay.free[p])
  }

  ghost predicate AllApart(pool: Pool) {
    forall p, q :: p in pool.pages && q in pool.pages && p != q ==> Apart(pool, p, q)
  }

  ghost predicate AllLiveOk(pool: Pool, lay: Layout) {
    forall b :: LiveOk(pool, lay, b)
  }

  ghost predicate Inv(pool: Pool, lay: Layout) {
    && PagesLinked(pool.pages, pool.head, lay.order)
    && lay.tiles.Keys == lay.free.Keys == pool.pages.Keys
    && AllPagesOk(pool, lay) && AllApart(pool) && AllLiveOk(pool, lay)
  }

  // ---- malloc ----

  datatype Choice = Fit(page: nat, index: nat) | Room(page: nat) | Fresh

  // The first block of a free list, from position i on, with at least `need` bytes.
  ghost function FirstFit(pool: Pool, free: seq<nat>, i: nat, need: nat): nat
    requires forall b :: b in free ==> b in pool.blocks
    decreases |free| - i
  {
    if i >= |free| || pool.blocks[free[i]].size >= need then i else FirstFit(pool, free, i + 1, need)
  }

  ghost predicate Readable(pool: Pool, lay: Layout) {
    && (forall p :: p in lay.order ==> p in pool.pages && p in lay.free)
    && (forall p, b :: p in lay.free && b in lay.free[p] ==> b in pool.blocks)
  }

  // Which place the search takes, from page i of the list on.
  ghost function Pick(pool: Pool, lay: Layout, i: nat, need: nat): Choice
    requires Readable(pool, lay)
    decreases |lay.order| - i
  {
    if i >= |lay.order| then Fresh
    else
      var p := lay.order[i];
      var k := FirstFit(pool, lay.free[p], 0, need);
      if k < |lay.free[p]| then Fit(p, k)
      else if pool.pages[p].room >= need + BLOCK_HEADER then Room(p)
      else Pick(pool, lay, i + 1, need)
  }

  // Store `to` where the list of page p links to the block after `before`.
  function Relink(pool: Pool, p: nat, before: nat, to: nat): Pool
    requires p in pool.pages && (before != NULL ==> before in pool.blocks)
  {
    if before == NULL then pool.(pages := pool.pages[p := pool.pages[p].(first := to)])
    else pool.(blocks := pool.blocks[before := pool.blocks[before].(next := to)])
  }

  // Cut b, which is larger than need, in two; the rest takes its place in the free list.
  function Split(pool: Pool, p: nat, before: nat, b: nat, need: nat): Pool
    requires p in pool.pages && b in pool.blocks && (before != NULL ==> before in pool.blocks)
  {
    var s := b + need + BLOCK_HEADER;
    var whole := pool.blocks[b];
    var rest := Block((whole.size - (need + BLOCK_HEADER)) % WORD, whole.parent, whole.next, false);
    Relink(pool.(blocks := pool.blocks[s := rest][b := Block(need, whole.parent, NULL, true)]), p, before, s)
  }

  // Hand out b whole.  Its own link stays as it was.
  function TakeWhole(pool: Pool, p: nat, before: nat, b: nat): Pool
    requires p in pool.pages && b in pool.blocks && (before != NULL ==> before in pool.blocks)
  {
    var to := pool.blocks[b].next;
    Relink(pool.(blocks := pool.blocks[b := pool.blocks[b].(live := true)]), p, before, to)
  }

  // alloc_mem_block: carve a block off the bump area.
  function Carve(pool: Pool, p: nat, size: nat): Pool
    requires p in pool.pages && BLOCK_HEADER <= size <= pool.pages[p].room
  {
    var page := pool.pages[p];
    pool.(pages := pool.pages[p := page.(room := page.room - size, bump := page.bump + size)],
          blocks := pool.blocks[page.bump := Block(size - BLOCK_HEADER, p, NULL, true)])
  }

  // alloc_page_block and its place at the end of the page list.
  function NewPage(og: nat, p: nat, prev: nat): Page
    requires og >= PAGE_HEADER
  {
    Page(og, og - PAGE_HEADER, p + PAGE_HEADER, NULL, NULL, prev)
  }

  function AppendPage(pool: Pool, p: nat, og: nat, last: nat): Pool
    requires og >= PAGE_HEADER && (last != NULL ==> last in pool.pages)
  {
    if last == NULL then pool.(head := p, pages := pool.pages[p := NewPage(og, p, NULL)])
    else pool.(pages := pool.pages[p := NewPage(og, p, last)][last := pool.pages[last].(next := p)])
  }

  // What the kernel promises for a new page block: unused addresses, page aligned.
  ghost predicate Usable(pool: Pool, p: nat, og: nat) {
    && 0 < p && p % PAGE_SIZE == 0 && p + og <= WORD
    && (forall q :: q in pool.pages ==> p + og <= q || q + pool.pages[q].og <= p)
  }

  ghost predicate Chosen(pool: Pool, lay: Layout, c: Choice, need: nat) {
    match c
    case Fit(p, k) => p in pool.pages && p in lay.free && p in lay.tiles && k < |lay.free[p]| && lay.free[p][k] in pool.blocks
      && pool.blocks[lay.free[p][k]].size >= need && (k > 0 ==> lay.free[p][k - 1] in pool.blocks)
      && lay.free[p][k] in lay.tiles[p]
    case Room(p) => p in pool.pages && p in lay.tiles && pool.pages[p].room >= need + BLOCK_HEADER
    case Fresh => true
  }

  ghost function Taken(pool: Pool, lay: Layout, c: Choice, mapped: nat): nat
    requires c.Fit? ==> c.page in lay.free && c.index < |lay.free[c.page]|
    requires c.Room? ==> c.page in pool.pages
  {
    match c
    case Fit(p, k) => lay.free[p][k]
    case Room(p) => pool.pages[p].bump
    case Fresh => mapped + PAGE_HEADER
  }

  ghost function Take(pool: Pool, lay: Layout, c: Choice, need: nat, mapped: nat, og: nat): Pool
    requires Chosen(pool, lay, c, need) && og >= PAGE_HEADER + need + BLOCK_HEADER
    requires forall p :: p in lay.order ==> p in pool.pages
    requires c.Fresh? ==> mapped !in pool.pages
  {
    match c
    case Fit(p, k) =>
      var b := lay.free[p][k];
      var before := At(lay.free[p], k - 1);
      if pool.blocks[b].size > need then Split(pool, p, before, b, need) else TakeWhole(pool, p, before, b)
    case Room(p) => Carve(pool, p, need + BLOCK_HEADER)
    case Fresh => Carve(AppendPage(pool, mapped, og, At(lay.order, |lay.order| - 1)), mapped, need + BLOCK_HEADER)
  }

  // The position of a block among the tiles.
  ghost function Index(s: seq<nat>, b: nat): (i: nat)
    requires b in s
    ensures i < |s| && s[i] == b
  {
    var i :| 0 <= i < |s| && s[i] == b;
    i
  }

  function Insert(s: seq<nat>, i: nat, b: nat): seq<nat>
    requires i <= |s|
  {
    s[..i] + [b] + s[i..]
  }

  function Without(s: seq<nat>, i: nat): seq<nat>
    requires i < |s|
  {
    s[..i] + s[i + 1..]
  }

  ghost function LayoutAfterTake(pool: Pool, lay: Layout, c: Choice, need: nat, mapped: nat): Layout
    requires Chosen(pool, lay, c, need)
  {
    match c
    case Fit(p, k) =>
      var b := lay.free[p][k];
      if pool.blocks[b].size > need then
        var s: nat := b + need + BLOCK_HEADER;
        var listed: seq<nat> := lay.free[p][k := s];
        lay.(tiles := lay.tiles[p := Insert(lay.tiles[p], Index(lay.tiles[p], b) + 1, s)],
             free := lay.free[p := listed])
      else lay.(free := lay.free[p := Without(lay.free[p], k)])
    case Room(p) => lay.(tiles := lay.tiles[p := lay.tiles[p] + [pool.pages[p].bump]])
    case Fresh => Layout(lay.order + [mapped], lay.tiles[mapped := [mapped + PAGE_HEADER]], lay.free[mapped := []])
  }

  // ---- free ----

  function Bytes(pool: Pool, list: seq<nat>): nat
    requires forall b :: b in list ==> b in pool.blocks
  {
    if list == [] then 0
    else Bytes(pool, list[..|list| - 1]) + pool.blocks[list[|list| - 1]].size + BLOCK_HEADER
  }

  function MarkFree(pool: Pool, b: nat): Pool
    requires b in pool.blocks
  {
    pool.(blocks := pool.blocks[b := pool.blocks[b].(live := false)])
  }

  // The stores of unmap_free_page to the neighbours in the page list.
  function Bypass(pages: map<nat, Page>, p: nat): map<nat, Page>
    requires p in pages && (pages[p].next != NULL ==> pages[p].next in pages) && (pages[p].prev != NULL ==> pages[p].prev in pages)
  {
    var page := pages[p];
    var m := if page.next != NULL then pages[page.next := pages[page.next].(prev := page.prev)] else pages;
    if page.prev != NULL then m[page.prev := m[page.prev].(next := page.next)] else m
  }

  // unmap_free_page: unlink the page and give its memory back, headers and all.
  function UnmapPage(pool: Pool, p: nat): Pool
    requires p in pool.pages
    requires pool.pages[p].next != NULL ==> pool.pages[p].next in pool.pages
    requires pool.pages[p].prev != NULL ==> pool.pages[p].prev in pool.pages
  {
    Pool(if p == pool.head then pool.pages[p].next else pool.head,
         Bypass(pool.pages, p) - {p},
         map a | a in pool.blocks && !(p <= a < p + pool.pages[p].og) :: pool.blocks[a])
  }

  datatype Ending = Unmaps | Merges | Starts | Appends

  // The page a live block was cut from.
  ghost function PageOf(pool: Pool, lay: Layout, b: nat): (p: nat)
    requires Inv(pool, lay) && b in pool.blocks && pool.blocks[b].live
    ensures p in pool.pages && p in lay.tiles && p in lay.free && b in lay.tiles[p] && pool.blocks[b].parent == p
    ensures forall f :: f in lay.free[p] ==> f in pool.blocks
  {
    assert LiveOk(pool, lay, b);
    assert PageOk(pool, pool.blocks[b].parent, lay.tiles[pool.blocks[b].parent], lay.free[pool.blocks[b].parent]);
    pool.blocks[b].parent
  }

  // is_page_free, over the free list of the page.
  ghost predicate PageFree(pool: Pool, lay: Layout, b: nat)
    requires Inv(pool, lay) && b in pool.blocks && pool.blocks[b].live
  {
    var p := PageOf(pool, lay, b);
    pool.pages[p].room + pool.blocks[b].size + BLOCK_HEADER + PAGE_HEADER + Bytes(pool, lay.free[p]) == pool.pages[p].og
  }

  // Which way free goes.
  ghost function EndingOf(pool: Pool, lay: Layout, b: nat): Ending
    requires Inv(pool, lay) && b in pool.blocks && pool.blocks[b].live
  {
    var free := lay.free[PageOf(pool, lay, b)];
    if PageFree(pool, lay, b) then Unmaps
    else if free == [] then Starts
    else
      var last := free[|free| - 1];
      if last + pool.blocks[last].size + BLOCK_HEADER == b then Merges else Appends
  }

  ghost function Freed(pool: Pool, lay: Layout, b: nat): Pool
    requires Inv(pool, lay) && b in pool.blocks && pool.blocks[b].live
  {
    var p := PageOf(pool, lay, b);
    var free := lay.free[p];
    var marked := MarkFree(pool, b);
    match EndingOf(pool, lay, b)
    case Unmaps => LinksStay(pool, lay, p); UnmapPage(marked, p)
    case Starts => Relink(marked, p, NULL, b)
    case Merges =>
      var last := free[|free| - 1];
      marked.(blocks := marked.blocks[last := marked.blocks[last].(size := pool.blocks[last].size + pool.blocks[b].size + BLOCK_HEADER)])
    case Appends => Relink(marked, p, free[|free| - 1], b)
  }

  ghost function LayoutAfterFree(pool: Pool, lay: Layout, b: nat): Layout
    requires Inv(pool, lay) && b in pool.blocks && pool.blocks[b].live
  {
    var p := PageOf(pool, lay, b);
    match EndingOf(pool, lay, b)
    case Unmaps => Layout(Without(lay.order, Index(lay.order, p)), lay.tiles - {p}, lay.free - {p})
    case Merges => lay.(tiles := lay.tiles[p := Without(lay.tiles[p], Index(lay.tiles[p], b))])
    case _ => lay.(free := lay.free[p := lay.free[p] + [b]])
  }

  // The links of a listed page lead to listed pages.
  lemma LinksStay(pool: Pool, lay: Layout, p: nat)
    requires Inv(pool, lay) && p in pool.pages
    ensures pool.pages[p].next != NULL ==> pool.pages[p].next in pool.pages
    ensures pool.pages[p].prev != NULL ==> pool.pages[p].prev in pool.pages
  {
    var i := Index(lay.order, p);
    assert NodeOk(pool.pages, lay.order, i);
    assert i + 1 < |lay.order| ==> lay.order[i + 1] in lay.order;
    assert i >= 1 ==> lay.order[i - 1] in lay.order;
  }
}
