/** How slab headers and cache heads represent the allocator's lists and free lists, and what the
    list surgery of kmalloc and kfree does to them (kernel/memory.c:412-492). */
module SlabRep {
  import opened Paging
  import opened SlabModel
  import opened SlabLists
  import opened Sequences
  import SlabInvariant

  // The state of the C allocator: slab headers by address and the list heads of the caches.
  datatype Caches = Caches(hdr: Headers, partial: seq<nat>, full: seq<nat>)

  function ObjAddr(c: nat, k: nat, j: nat): nat { PageAddr(k) + HEADER + ObjSize(c) * j }

  ghost predicate ListsOk(s: Caches, h: Heap) {
    && |s.partial| == |s.full| == |h.partial| == |h.full| == NUM_CLASSES
    && (forall c: nat :: c < NUM_CLASSES ==> Linked(s.hdr, s.partial[c], h.partial[c]) && Linked(s.hdr, s.full[c], h.full[c]))
  }

  // The header of slab k holds its free list.
  ghost predicate SlabHeader(hdr: Headers, h: Heap, k: nat) {
    k < |h.use| && h.use[k].SlabPage? && k in h.free ==>
      && PageAddr(k) in hdr
      && var s, c, f := hdr[PageAddr(k)], h.use[k].cls, h.free[k];
      && s.owner == Cache(c) && s.total == Total(c) && s.freeCount == |f| <= Total(c) == |s.freeList|
      && (forall i :: 0 <= i < |f| ==> s.freeList[i] == ObjAddr(c, k, f[i]))
  }

  ghost predicate LargeHeader(hdr: Headers, h: Heap, k: nat) {
    k < |h.use| && h.use[k].Big? && h.use[k].head == k ==>
      PageAddr(k) in hdr && hdr[PageAddr(k)].owner == NoCache && hdr[PageAddr(k)].total == h.use[k].n
  }

  ghost predicate HeadersOk(hdr: Headers, h: Heap) {
    && (forall k: nat :: SlabHeader(hdr, h, k))
    && (forall k: nat :: LargeHeader(hdr, h, k))
  }

  ghost predicate Rep(s: Caches, h: Heap) { ListsOk(s, h) && HeadersOk(s.hdr, h) }

  // ---- The lists of one heap are apart ----

  ghost predicate Apart(a: seq<nat>, b: seq<nat>) { forall k :: k in a ==> k !in b }

  ghost predicate ListsApart(h: Heap) {
    && |h.partial| == |h.full| == NUM_CLASSES
    && (forall c: nat :: c < NUM_CLASSES ==> NoDup(h.partial[c]) && NoDup(h.full[c]))
    && (forall c: nat, d: nat :: c < NUM_CLASSES && d < NUM_CLASSES ==> Apart(h.partial[c], h.full[d]) && Apart(h.full[c], h.partial[d]))
    && (forall c: nat, d: nat :: c < NUM_CLASSES && d < NUM_CLASSES && c != d ==> Apart(h.partial[c], h.partial[d]) && Apart(h.full[c], h.full[d]))
  }

  lemma InvListsApart(h: Heap)
    requires Inv(h)
    ensures ListsApart(h)
  {
    forall c: nat, d: nat | c < NUM_CLASSES && d < NUM_CLASSES
      ensures Apart(h.partial[c], h.full[d]) && Apart(h.full[c], h.partial[d])
      ensures c != d ==> Apart(h.partial[c], h.partial[d]) && Apart(h.full[c], h.full[d])
    {
      assert PartialOk(h, c) && FullOk(h, c) && PartialOk(h, d) && FullOk(h, d);
    }
    forall c: nat | c < NUM_CLASSES ensures NoDup(h.partial[c]) && NoDup(h.full[c]) {
      assert PartialOk(h, c) && FullOk(h, c);
    }
  }

  // Headers of slabs outside both lists are untouched from hdr to r.
  ghost predicate Untouched(hdr: Headers, r: Headers, a: seq<nat>, b: seq<nat>) {
    forall k: nat :: k !in a && k !in b && PageAddr(k) in hdr ==> PageAddr(k) in r && r[PageAddr(k)] == hdr[PageAddr(k)]
  }

  lemma ListKept(hdr: Headers, r: Headers, head: nat, list: seq<nat>, a: seq<nat>, b: seq<nat>)
    requires Linked(hdr, head, list) && Untouched(hdr, r, a, b) && Apart(list, a) && Apart(list, b)
    ensures Linked(r, head, list)
  {
    LinkedElsewhere(hdr, r, head, list);
  }

  // ---- A slab moves from one list to the front of another ----

  /** Unlinking slab i of one list and pushing it on another changes exactly these two lists. */
  lemma MoveLinks(hdr: Headers, from: nat, src: seq<nat>, i: nat, to: nat, dst: seq<nat>)
    requires Linked(hdr, from, src) && Linked(hdr, to, dst) && NoDup(src) && NoDup(dst) && Apart(src, dst) && i < |src|
    ensures var a := PageAddr(src[i]);
      && a in hdr && (hdr[a].prev != NULL ==> hdr[a].prev in hdr) && (hdr[a].next != NULL ==> hdr[a].next in hdr)
      && a in Unlink(hdr, a) && (to != NULL ==> to in Unlink(hdr, a))
      && var r := PushFront(Unlink(hdr, a), to, a);
      && Linked(r, if from == a then hdr[a].next else from, Without(src, i)) && Linked(r, a, [src[i]] + dst)
      && OnlyLinks(hdr, r) && Untouched(hdr, r, src, dst)
  {
    hide Linked, Unlink, PushFront, NoDup;
    UnlinkKeepsLinked(hdr, from, src, i);
    var a := PageAddr(src[i]);
    var mid := Unlink(hdr, a);
    assert src[i] in src;
    ListKept(hdr, mid, to, dst, src, []);
    PushFrontLinks(mid, to, dst, src[i]);
    var r := PushFront(mid, to, a);
    var rest := Without(src, i);
    var longer := [src[i]] + dst;
    WithoutElements(src, i);
    forall k | k in rest ensures k !in longer {
      assert k in src;
    }
    ListKept(mid, r, if from == a then hdr[a].next else from, rest, longer, []);
  }

  lemma WithoutElements(list: seq<nat>, i: nat)
    requires i < |list| && NoDup(list)
    ensures forall k :: k in Without(list, i) <==> k in list && k != list[i]
  {
    assert list == list[..i] + [list[i]] + list[i + 1..];
    forall k | k in Without(list, i) ensures k != list[i] && k in list {
      var j :| 0 <= j < |list| - 1 && Without(list, i)[j] == k;
      var p := if j < i then j else j + 1;
      assert list[p] == k;
      assert if p < i then list[p] != list[i] else list[i] != list[p];
    }
  }

  // Lists of h other than partial[c] and full[c], which have become p and f.
  lemma OtherLists(s: Caches, h: Heap, r: Headers, c: nat, p: seq<nat>, f: seq<nat>, ph: nat, fh: nat)
    requires ListsOk(s, h) && ListsApart(h) && c < NUM_CLASSES
    requires Untouched(s.hdr, r, h.partial[c], h.full[c])
    requires Linked(r, ph, p) && Linked(r, fh, f)
    ensures ListsOk(Caches(r, s.partial[c := ph], s.full[c := fh]), h.(partial := h.partial[c := p], full := h.full[c := f]))
  {
    hide Linked, Untouched, Apart;
    forall d: nat | d < NUM_CLASSES && d != c
      ensures Linked(r, s.partial[d], h.partial[d]) && Linked(r, s.full[d], h.full[d])
    {
      ListKept(s.hdr, r, s.partial[d], h.partial[d], h.partial[c], h.full[c]);
      ListKept(s.hdr, r, s.full[d], h.full[d], h.partial[c], h.full[c]);
    }
  }

  /** kmalloc's surgery: the slab at the head of the partial list becomes the head of the full list. */
  lemma MoveToFullLists(s: Caches, h: Heap, c: nat)
    requires ListsOk(s, h) && ListsApart(h) && c < NUM_CLASSES && h.partial[c] != []
    ensures var a := s.partial[c];
      && a == PageAddr(h.partial[c][0])
      && a in s.hdr && s.hdr[a].prev == NULL && (s.hdr[a].next != NULL ==> s.hdr[a].next in s.hdr)
      && a in Unlink(s.hdr, a) && (s.full[c] != NULL ==> s.full[c] in Unlink(s.hdr, a))
      && var r := PushFront(Unlink(s.hdr, a), s.full[c], a);
      && OnlyLinks(s.hdr, r)
      && ListsOk(Caches(r, s.partial[c := s.hdr[a].next], s.full[c := a]), MoveToFull(h, c, h.partial[c][0]))
  {
    hide OnlyLinks, Untouched, Unlink, PushFront;
    Neighbours(s.hdr, s.partial[c], h.partial[c], 0);
    MoveLinks(s.hdr, s.partial[c], h.partial[c], 0, s.full[c], h.full[c]);
    var a := s.partial[c];
    var r := PushFront(Unlink(s.hdr, a), s.full[c], a);
    assert Without(h.partial[c], 0) == h.partial[c][1..];
    OtherLists(s, h, r, c, h.partial[c][1..], [h.partial[c][0]] + h.full[c], s.hdr[a].next, a);
  }

  lemma IndexIn(list: seq<nat>, k: nat) returns (i: nat)
    requires k in list
    ensures i < |list| && list[i] == k
  {
    i :| i < |list| && list[i] == k;
  }

  lemma UntouchedSwap(hdr: Headers, r: Headers, a: seq<nat>, b: seq<nat>)
    requires Untouched(hdr, r, a, b)
    ensures Untouched(hdr, r, b, a)
  {
  }

  /** kfree's surgery on a full slab: it leaves the full list and becomes the head of the partial one. */
  lemma MoveToPartialLists(s: Caches, h: Heap, c: nat, k: nat)
    requires ListsOk(s, h) && ListsApart(h) && c < NUM_CLASSES && k in h.full[c]
    ensures var a := PageAddr(k);
      && a in s.hdr && (s.hdr[a].prev != NULL ==> s.hdr[a].prev in s.hdr) && (s.hdr[a].next != NULL ==> s.hdr[a].next in s.hdr)
      && a in Unlink(s.hdr, a) && (s.partial[c] != NULL ==> s.partial[c] in Unlink(s.hdr, a))
      && var r := PushFront(Unlink(s.hdr, a), s.partial[c], a);
      && OnlyLinks(s.hdr, r)
      && ListsOk(Caches(r, s.partial[c := a], s.full[c := if s.full[c] == a then s.hdr[a].next else s.full[c]]), MoveToPartial(h, c, k))
  {
    hide OnlyLinks, Untouched, Unlink, PushFront;
    var i := IndexIn(h.full[c], k);
    MoveLinks(s.hdr, s.full[c], h.full[c], i, s.partial[c], h.partial[c]);
    WithoutIsRemove(h.full[c], i);
    var a := PageAddr(k);
    var r := PushFront(Unlink(s.hdr, a), s.partial[c], a);
    UntouchedSwap(s.hdr, r, h.full[c], h.partial[c]);
    OtherLists(s, h, r, c, [k] + h.partial[c], Remove(h.full[c], k), a, if s.full[c] == a then s.hdr[a].next else s.full[c]);
  }

  /** kfree's surgery on an empty slab: it leaves the partial list, and its header goes with its page. */
  lemma DropLists(s: Caches, h: Heap, c: nat, k: nat)
    requires ListsOk(s, h) && ListsApart(h) && c < NUM_CLASSES && k in h.partial[c] && k < |h.use|
    ensures var a := PageAddr(k);
      && a in s.hdr && (s.hdr[a].prev != NULL ==> s.hdr[a].prev in s.hdr) && (s.hdr[a].next != NULL ==> s.hdr[a].next in s.hdr)
      && OnlyLinks(s.hdr, Unlink(s.hdr, a))
      && ListsOk(Caches(Unlink(s.hdr, a) - {a}, s.partial[c := if s.partial[c] == a then s.hdr[a].next else s.partial[c]], s.full),
                 DropSlab(h, c, k))
  {
    hide OnlyLinks, Unlink, Linked, NoDup, Untouched, Apart, SameOutside, Remove;
    var i := IndexIn(h.partial[c], k);
    UnlinkKeepsLinked(s.hdr, s.partial[c], h.partial[c], i);
    WithoutIsRemove(h.partial[c], i);
    var a := PageAddr(k);
    var mid := Unlink(s.hdr, a);
    var r := mid - {a};
    var rest := Remove(h.partial[c], k);
    WithoutElements(h.partial[c], i);
    var head := if s.partial[c] == a then s.hdr[a].next else s.partial[c];
    assert Linked(r, head, rest) by { HeaderGone(mid, head, rest, k); }
    UntouchedAfterDrop(s.hdr, mid, h.partial[c], h.full[c], k);
    assert Linked(mid, s.full[c], h.full[c]) by { ListUntouched(s.hdr, mid, s.full[c], h.full[c], h.partial[c]); }
    assert k !in h.full[c] by { NotInOther(h.partial[c], h.full[c], k); }
    assert Linked(r, s.full[c], h.full[c]) by { HeaderGone(mid, s.full[c], h.full[c], k); }
    OtherLists(s, h, r, c, rest, h.full[c], head, s.full[c]);
    assert s.full[c := s.full[c]] == s.full && h.full[c := h.full[c]] == h.full;
  }

  lemma NotInOther(a: seq<nat>, b: seq<nat>, k: nat)
    requires Apart(a, b) && k in a
    ensures k !in b
  {
  }

  lemma UntouchedAfterDrop(hdr: Headers, mid: Headers, a: seq<nat>, b: seq<nat>, k: nat)
    requires SameOutside(hdr, mid, a) && k in a
    ensures Untouched(hdr, mid - {PageAddr(k)}, a, b)
  {
  }

  lemma ListUntouched(hdr: Headers, mid: Headers, head: nat, list: seq<nat>, a: seq<nat>)
    requires SameOutside(hdr, mid, a) && Apart(a, list) && Linked(hdr, head, list)
    ensures Linked(mid, head, list)
  {
    ListKept(hdr, mid, head, list, a, []);
  }

  lemma HeaderGone(hdr: Headers, head: nat, list: seq<nat>, k: nat)
    requires Linked(hdr, head, list) && k !in list
    ensures Linked(hdr - {PageAddr(k)}, head, list)
  {
    forall q | q in list && PageAddr(q) in hdr
      ensures Links(hdr - {PageAddr(k)}, PageAddr(q), hdr[PageAddr(q)].next, hdr[PageAddr(q)].prev)
    {
      assert PageAddr(q) != PageAddr(k);
    }
    hide Links;
    LinkedElsewhere(hdr, hdr - {PageAddr(k)}, head, list);
  }

  // Relinking headers leaves their contents alone.
  lemma RelinkedHeaders(hdr: Headers, r: Headers, h: Heap, t: Heap)
    requires HeadersOk(hdr, h) && OnlyLinks(hdr, r) && t.use == h.use && t.free == h.free
    ensures HeadersOk(r, t)
  {
    forall k: nat ensures SlabHeader(r, t, k) && LargeHeader(r, t, k) {
      assert SlabHeader(hdr, h, k) && LargeHeader(hdr, h, k);
    }
  }

  // One header gets another count and free list; no link changes.
  lemma CountedHeaders(s: Caches, h: Heap, k: nat, count: nat, list: seq<nat>, f: seq<nat>)
    requires Rep(s, h) && k < |h.use| && h.use[k].SlabPage? && k in h.free && PageAddr(k) in s.hdr
    requires var c := h.use[k].cls;
      count == |f| <= Total(c) == |list| && forall i :: 0 <= i < |f| ==> list[i] == ObjAddr(c, k, f[i])
    ensures var r := s.hdr[PageAddr(k) := s.hdr[PageAddr(k)].(freeCount := count, freeList := list)];
      Rep(s.(hdr := r), h.(free := h.free[k := f]))
  {
    hide Total, ObjAddr;
    var r := s.hdr[PageAddr(k) := s.hdr[PageAddr(k)].(freeCount := count, freeList := list)];
    var t := h.(free := h.free[k := f]);
    forall q: nat ensures SlabHeader(r, t, q) && LargeHeader(r, t, q) {
      assert SlabHeader(s.hdr, h, q) && LargeHeader(s.hdr, h, q) && SlabHeader(s.hdr, h, k);
    }
    forall d: nat | d < NUM_CLASSES ensures Linked(r, s.partial[d], h.partial[d]) && Linked(r, s.full[d], h.full[d]) {
      SameLinks(s.hdr, r, s.partial[d], h.partial[d]);
      SameLinks(s.hdr, r, s.full[d], h.full[d]);
    }
  }

  lemma SameLinks(hdr: Headers, r: Headers, head: nat, list: seq<nat>)
    requires Linked(hdr, head, list) && r.Keys == hdr.Keys
    requires forall a :: a in hdr ==> r[a].next == hdr[a].next && r[a].prev == hdr[a].prev
    ensures Linked(r, head, list)
  {
    LinkedElsewhere(hdr, r, head, list);
  }

  // A header appears at a page that is on no list.
  lemma FreshHeaders(s: Caches, h: Heap, k: nat, header: Header)
    requires ListsOk(s, h)
    requires forall c: nat :: c < NUM_CLASSES ==> k !in h.partial[c] && k !in h.full[c]
    ensures ListsOk(s.(hdr := s.hdr[PageAddr(k) := header]), h)
  {
    hide Linked;
    forall d: nat | d < NUM_CLASSES
      ensures Linked(s.hdr[PageAddr(k) := header], s.partial[d], h.partial[d])
      ensures Linked(s.hdr[PageAddr(k) := header], s.full[d], h.full[d])
    {
      FreshHeader(s.hdr, s.partial[d], h.partial[d], k, header);
      FreshHeader(s.hdr, s.full[d], h.full[d], k, header);
    }
  }

  lemma FreshHeader(hdr: Headers, head: nat, list: seq<nat>, k: nat, header: Header)
    requires Linked(hdr, head, list) && k !in list
    ensures Linked(hdr[PageAddr(k) := header], head, list)
  {
    var r := hdr[PageAddr(k) := header];
    forall q | q in list && PageAddr(q) in hdr ensures Links(r, PageAddr(q), hdr[PageAddr(q)].next, hdr[PageAddr(q)].prev) {
      assert PageAddr(q) != PageAddr(k);
    }
    LinkedElsewhere(hdr, r, head, list);
  }
}
