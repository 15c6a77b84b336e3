/** Every kmalloc and kfree keeps the slab lists and free lists sound, over all runs. */
module SlabInvariant {
  import opened Paging
  import opened FrameBitmap
  import opened SlabModel
  import opened Sequences

  // ---- size_to_class ----

  /** The class chosen is the first one that is large enough. */
  lemma {:induction false} ClassFromIsLeast(size: nat, c: nat)
    requires c <= NUM_CLASSES && forall d: nat :: d < c ==> ObjSize(d) < size
    ensures c <= ClassFrom(size, c) <= NUM_CLASSES
    ensures ClassFrom(size, c) < NUM_CLASSES ==> size <= ObjSize(ClassFrom(size, c))
    ensures forall d: nat :: d < ClassFrom(size, c) ==> ObjSize(d) < size
    decreases NUM_CLASSES - c
  {
    if c < NUM_CLASSES && size > ObjSize(c) {
      ClassFromIsLeast(size, c + 1);
    }
  }

  /** Requests of at most 1024 bytes are served from classes whose slabs hold at least three
      objects; requests above 2048 bytes get pages of their own. */
  lemma ClassOf(size: nat)
    ensures var c := SizeToClass(size);
      && (c < NUM_CLASSES ==> size <= ObjSize(c))
      && (size <= 1024 <==> c < NUM_CLASSES - 1)
      && (size > 2048 <==> c == NUM_CLASSES)
      && c <= NUM_CLASSES
  {
    ClassFromIsLeast(size, 0);
    var c := SizeToClass(size);
    assert c >= 7 ==> ObjSize(6) < size;
    assert c >= 8 ==> ObjSize(7) < size;
  }

  lemma TotalAtLeastThree(c: nat)
    requires c < NUM_CLASSES - 1
    ensures Total(c) >= 3
  {
  }

  // ---- What one call changes ----

  // From h to r, b became live and nothing else changed for the blocks that were live.
  ghost predicate Gained(h: Heap, r: Heap, b: Block) {
    && !Live(h, b) && Live(r, b)
    && (forall x: Block :: x != b ==> (Live(r, x) <==> Live(h, x)))
    && (forall x: Block :: Live(h, x) ==> SameBlock(h, r, x))
  }

  // From h to r, b is no longer live.
  ghost predicate Lost(h: Heap, r: Heap, b: Block) {
    && Live(h, b) && !Live(r, b)
    && (forall x: Block :: x != b ==> (Live(r, x) <==> Live(h, x)))
    && (forall x: Block :: Live(r, x) ==> SameBlock(h, r, x))
  }

  // The block has the same address and capacity in both heaps.
  ghost predicate SameBlock(h: Heap, r: Heap, x: Block) {
    && Capacity(r, x) == Capacity(h, x)
    && (x.Obj? ==> x.slab < |h.use| && x.slab < |r.use| && r.use[x.slab] == h.use[x.slab])
  }

  // The slab at the head of a partial list has a free object, and is on no other list.
  lemma PartialHead(h: Heap, c: nat)
    requires Inv(h) && c < NUM_CLASSES - 1 && h.partial[c] != []
    ensures var k := h.partial[c][0];
      && k < |h.use| && h.use[k] == SlabPage(c) && k in h.free && 0 < |h.free[k]| < Total(c) && NoDup(h.free[k])
      && (forall j :: j in h.free[k] ==> j < Total(c))
      && k !in h.partial[c][1..] && k !in h.full[c]
  {
    var k := h.partial[c][0];
    assert PartialOk(h, c) && FullOk(h, c) && SlabOk(h, k);
    assert k in h.partial[c];
  }

  function Taken(h: Heap, c: nat): Heap
    requires c < |h.partial| && c < |h.full| && h.partial[c] != [] && h.partial[c][0] in h.free && h.free[h.partial[c][0]] != []
  {
    var k := h.partial[c][0];
    var rest := h.free[k][..|h.free[k]| - 1];
    var taken := h.(free := h.free[k := rest]);
    if rest == [] then MoveToFull(taken, c, k) else taken
  }

  lemma TakeObjectLists(h: Heap, c: nat, d: nat)
    requires Inv(h) && c < NUM_CLASSES - 1 && h.partial[c] != [] && d < NUM_CLASSES
    ensures h.partial[c][0] in h.free && h.free[h.partial[c][0]] != []
    ensures PartialOk(Taken(h, c), d) && FullOk(Taken(h, c), d)
  {
    PartialHead(h, c);
    assert PartialOk(h, d) && FullOk(h, d);
    var k := h.partial[c][0];
    var r := Taken(h, c);
    if d != c {
      assert forall q :: q in h.partial[d] || q in h.full[d] ==> q != k;
    } else {
      assert forall q :: q in h.partial[c][1..] ==> q in h.partial[c];
    }
  }

  lemma TakeObjectSlabs(h: Heap, c: nat, q: nat)
    requires Inv(h) && c < NUM_CLASSES - 1 && h.partial[c] != []
    ensures h.partial[c][0] in h.free && h.free[h.partial[c][0]] != []
    ensures SlabOk(Taken(h, c), q) && BigOk(Taken(h, c), q)
  {
    PartialHead(h, c);
    assert SlabOk(h, q) && BigOk(h, q);
    var k, r := h.partial[c][0], Taken(h, c);
    assert h.partial[c] == [k] + h.partial[c][1..];
    if q == k {
      assert forall j :: j in r.free[k] ==> j in h.free[k];
      assert NoDup(r.free[k]);
    } else if q < |h.use| && h.use[q].SlabPage? {
      assert q in h.partial[h.use[q].cls] ==> q in r.partial[h.use[q].cls];
      assert q in h.full[h.use[q].cls] ==> q in r.full[h.use[q].cls];
    }
  }

  lemma TakeObjectLive(h: Heap, c: nat)
    requires Inv(h) && c < NUM_CLASSES - 1 && h.partial[c] != []
    ensures h.partial[c][0] in h.free && h.free[h.partial[c][0]] != []
    ensures var k := h.partial[c][0];
      Gained(h, Taken(h, c), Obj(k, h.free[k][|h.free[k]| - 1]))
  {
    PartialHead(h, c);
    var k := h.partial[c][0];
    var f := h.free[k];
    assert f == f[..|f| - 1] + [f[|f| - 1]];
  }

  lemma TakeObjectKeeps(h: Heap, c: nat)
    requires Inv(h) && c < NUM_CLASSES - 1 && h.partial[c] != []
    ensures h.partial[c][0] in h.free && h.free[h.partial[c][0]] != []
    ensures var k := h.partial[c][0];
      Inv(Taken(h, c)) && Gained(h, Taken(h, c), Obj(k, h.free[k][|h.free[k]| - 1])) && Taken(h, c).use == h.use
  {
    hide PartialOk, FullOk, SlabOk, BigOk, Live;
    PartialHead(h, c);
    forall d: nat | d < NUM_CLASSES ensures PartialOk(Taken(h, c), d) && FullOk(Taken(h, c), d) {
      TakeObjectLists(h, c, d);
    }
    forall q: nat ensures SlabOk(Taken(h, c), q) && BigOk(Taken(h, c), q) {
      TakeObjectSlabs(h, c, q);
    }
    TakeObjectLive(h, c);
  }

  // The free list of a new slab after its last object has been handed out.
  lemma Ascending(n: nat)
    ensures var s := seq(n, i => i);
      NoDup(s) && forall j: nat :: j in s <==> j < n
  {
    var s: seq<nat> := seq(n, i => i);
    forall j: nat | j < n ensures j in s {
      assert s[j] == j;
    }
  }

  function WithSlab(h: Heap, c: nat, page: nat): Heap
    requires c < |h.partial| && page < |h.use|
  {
    h.(use := h.use[page := SlabPage(c)], free := h.free[page := seq(Total(c) - 1, i => i)], partial := h.partial[c := [page]])
  }

  lemma NewSlabKeeps(h: Heap, c: nat, page: nat)
    requires Inv(h) && c < NUM_CLASSES - 1 && h.partial[c] == [] && page < |h.use| && h.use[page] == Unused
    ensures var r := WithSlab(h, c, page);
      Inv(r) && Gained(h, r, Obj(page, Total(c) - 1)) && UsedPages(r) == UsedPages(h)[page := true]
  {
    var r := WithSlab(h, c, page);
    TotalAtLeastThree(c);
    Ascending(Total(c) - 1);
    forall d: nat | d < NUM_CLASSES ensures PartialOk(r, d) && FullOk(r, d) {
      assert PartialOk(h, d) && FullOk(h, d);
    }
    forall q: nat ensures SlabOk(r, q) && BigOk(r, q) {
      assert SlabOk(h, q) && BigOk(h, q);
      if q == page {
        assert page in r.partial[c];
      }
    }
    NewSlabLive(h, c, page);
  }

  lemma NewSlabLive(h: Heap, c: nat, page: nat)
    requires c < |h.partial| && c < NUM_CLASSES - 1 && page < |h.use| && h.use[page] == Unused
    ensures Gained(h, WithSlab(h, c, page), Obj(page, Total(c) - 1))
  {
    TotalAtLeastThree(c);
    Ascending(Total(c) - 1);
  }

  lemma NewLargeKeeps(h: Heap, size: nat, page: nat)
    requires Inv(h) && size > 2048 && FreeRun(UsedPages(h), page, BigPages(size))
    ensures var n := BigPages(size);
      var r := h.(use := seq(|h.use|, q requires 0 <= q < |h.use| => if page <= q < page + n then Big(page, n) else h.use[q]));
      && Inv(r) && Gained(h, r, Large(page)) && UsedPages(r) == Mark(UsedPages(h), page, n, true)
      && Capacity(r, Large(page)) >= size
  {
    var n := BigPages(size);
    var r := h.(use := seq(|h.use|, q requires 0 <= q < |h.use| => if page <= q < page + n then Big(page, n) else h.use[q]));
    forall q | page <= q < page + n ensures h.use[q] == Unused {
      assert !UsedPages(h)[q];
    }
    forall d: nat | d < NUM_CLASSES ensures PartialOk(r, d) && FullOk(r, d) {
      assert PartialOk(h, d) && FullOk(h, d);
    }
    forall q: nat ensures SlabOk(r, q) && BigOk(r, q) {
      assert SlabOk(h, q) && BigOk(h, q);
      if q < |h.use| && !(page <= q < page + n) && h.use[q].Big? {
        forall p | h.use[q].head <= p < h.use[q].head + h.use[q].n ensures r.use[p] == r.use[q] {
          assert h.use[p] == h.use[q];
        }
      }
    }
  }

  /** kmalloc, for a size outside 1025 .. 2048: no fault, the invariant is kept, the block returned is
      new and large enough, and the blocks handed out before are untouched. */
  lemma MallocKeeps(h: Heap, size: nat, page: nat)
    requires Inv(h) && (size <= 1024 || size > 2048)
    requires size <= 1024 && h.partial[SizeToClass(size)] == [] ==> FreeRun(UsedPages(h), page, 1)
    requires size > 2048 ==> FreeRun(UsedPages(h), page, BigPages(size))
    ensures Malloc(h, size, page).Got?
    ensures var Got(r, b) := Malloc(h, size, page);
      Inv(r) && Gained(h, r, b) && Capacity(r, b) >= size
  {
    ClassOf(size);
    var c := SizeToClass(size);
    if c == NUM_CLASSES {
      NewLargeKeeps(h, size, page);
    } else if h.partial[c] != [] {
      PartialHead(h, c);
      TakeObjectKeeps(h, c);
    } else {
      assert !UsedPages(h)[page];
      NewSlabKeeps(h, c, page);
    }
  }

  // ---- kfree ----

  lemma {:induction false} RemoveLaws(s: seq<nat>, k: nat)
    requires NoDup(s)
    ensures NoDup(Remove(s, k)) && forall x: nat :: x in Remove(s, k) <==> x in s && x != k
  {
    if s != [] {
      assert s == [s[0]] + s[1..] && s[0] !in s[1..] && NoDup(s[1..]);
      if s[0] != k {
        RemoveLaws(s[1..], k);
        var rest := Remove(s[1..], k);
        assert s[0] !in rest;
        assert NoDup([s[0]] + rest);
      }
    }
  }

  function Elements(s: seq<nat>): (r: set<nat>)
    ensures forall x: nat :: x in r <==> x in s
  {
    if s == [] then {} else
      assert s == [s[0]] + s[1..];
      {s[0]} + Elements(s[1..])
  }

  lemma {:induction false} ElementsCount(s: seq<nat>)
    requires NoDup(s)
    ensures |Elements(s)| == |s|
  {
    if s != [] {
      ElementsCount(s[1..]);
      assert s[0] !in s[1..];
    }
  }

  function Below(n: nat): (r: set<nat>)
    ensures |r| == n && forall j: nat :: j in r <==> j < n
  {
    if n == 0 then {} else Below(n - 1) + {n - 1}
  }

  /** A free list as long as the slab has objects holds all of them. */
  lemma AllListed(s: seq<nat>, n: nat)
    requires NoDup(s) && |s| == n && forall j :: j in s ==> j < n
    ensures forall j: nat :: j < n ==> j in s
  {
    ElementsCount(s);
    var elements := Elements(s);
    forall j: nat | j < n ensures j in s {
      if j !in s {
        assert elements <= Below(n) - {j};
        assert |Below(n) - {j}| == n - 1;
        SubsetSize(elements, Below(n) - {j});
      }
    }
  }

  lemma {:induction false} SubsetSize(a: set<nat>, b: set<nat>)
    requires a <= b
    ensures |a| <= |b|
    decreases a
  {
    if a != {} {
      var x :| x in a;
      SubsetSize(a - {x}, b - {x});
    }
  }

  // The slab of a live object.
  lemma LiveObject(h: Heap, k: nat, j: nat)
    requires Inv(h) && Live(h, Obj(k, j))
    ensures var c := h.use[k].cls;
      && c < NUM_CLASSES - 1 && NoDup(h.free[k] + [j]) && (forall i :: i in h.free[k] + [j] ==> i < Total(c))
      && |h.free[k]| < Total(c)
      && (h.free[k] == [] <==> k in h.full[c]) && (h.free[k] != [] <==> k in h.partial[c])
      && NoDup(h.partial[c]) && NoDup(h.full[c])
  {
    var c := h.use[k].cls;
    assert SlabOk(h, k) && PartialOk(h, c) && FullOk(h, c);
    if k in h.full[c] {
      TotalAtLeastThree(c);
    }
  }

  // kfree of an object that neither was the slab's first free one nor is its last live one.
  lemma GiveObject(h: Heap, k: nat, j: nat)
    requires Inv(h) && Live(h, Obj(k, j)) && h.free[k] != [] && |h.free[k]| + 1 < Total(h.use[k].cls)
    ensures var r := h.(free := h.free[k := h.free[k] + [j]]);
      Inv(r) && Lost(h, r, Obj(k, j)) && r.use == h.use
  {
    LiveObject(h, k, j);
    var r := h.(free := h.free[k := h.free[k] + [j]]);
    forall d: nat | d < NUM_CLASSES ensures PartialOk(r, d) && FullOk(r, d) {
      assert PartialOk(h, d) && FullOk(h, d);
    }
    forall q: nat ensures SlabOk(r, q) && BigOk(r, q) {
      assert SlabOk(h, q) && BigOk(h, q);
    }
  }

  // kfree of an object of a full slab: the slab moves to the head of the partial list.
  lemma GiveToFull(h: Heap, k: nat, j: nat)
    requires Inv(h) && Live(h, Obj(k, j)) && h.free[k] == []
    ensures h.use[k].cls < NUM_CLASSES
    ensures var c := h.use[k].cls;
      var r := MoveToPartial(h.(free := h.free[k := h.free[k] + [j]]), c, k);
      Inv(r) && Lost(h, r, Obj(k, j)) && r.use == h.use
  {
    LiveObject(h, k, j);
    var c := h.use[k].cls;
    TotalAtLeastThree(c);
    RemoveLaws(h.full[c], k);
    var r := MoveToPartial(h.(free := h.free[k := h.free[k] + [j]]), c, k);
    assert r.free[k] == [j];
    forall d: nat | d < NUM_CLASSES ensures PartialOk(r, d) && FullOk(r, d) {
      assert PartialOk(h, d) && FullOk(h, d);
    }
    forall q: nat ensures SlabOk(r, q) && BigOk(r, q) {
      assert SlabOk(h, q) && BigOk(h, q);
    }
  }

  // kfree of the last live object: the slab is unlinked and its page unmapped.
  lemma GiveLast(h: Heap, k: nat, j: nat)
    requires Inv(h) && Live(h, Obj(k, j)) && |h.free[k]| + 1 == Total(h.use[k].cls)
    ensures h.use[k].cls < NUM_CLASSES
    ensures var c := h.use[k].cls;
      var r := DropSlab(h.(free := h.free[k := h.free[k] + [j]]), c, k);
      Inv(r) && Lost(h, r, Obj(k, j)) && UsedPages(r) == UsedPages(h)[k := false]
  {
    LiveObject(h, k, j);
    var c := h.use[k].cls;
    TotalAtLeastThree(c);
    RemoveLaws(h.partial[c], k);
    AllListed(h.free[k] + [j], Total(c));
    forall i: nat | i < Total(c) && i != j ensures i in h.free[k] {
      assert i in h.free[k] + [j];
    }
    var r := DropSlab(h.(free := h.free[k := h.free[k] + [j]]), c, k);
    forall d: nat | d < NUM_CLASSES ensures PartialOk(r, d) && FullOk(r, d) {
      assert PartialOk(h, d) && FullOk(h, d);
    }
    forall q: nat ensures SlabOk(r, q) && BigOk(r, q) {
      assert SlabOk(h, q) && BigOk(h, q);
    }
  }

  lemma GiveLarge(h: Heap, k: nat)
    requires Inv(h) && Live(h, Large(k))
    ensures k + h.use[k].n <= |h.use|
    ensures var r := Free(h, Large(k));
      Inv(r) && Lost(h, r, Large(k)) && UsedPages(r) == Mark(UsedPages(h), k, h.use[k].n, false)
  {
    var r := Free(h, Large(k));
    assert BigOk(h, k);
    forall d: nat | d < NUM_CLASSES ensures PartialOk(r, d) && FullOk(r, d) {
      assert PartialOk(h, d) && FullOk(h, d);
    }
    forall q: nat ensures SlabOk(r, q) && BigOk(r, q) {
      assert SlabOk(h, q) && BigOk(h, q);
      if q < |h.use| && !(k <= q < k + h.use[k].n) && h.use[q].Big? {
        forall p | h.use[q].head <= p < h.use[q].head + h.use[q].n ensures r.use[p] == r.use[q] {
          assert h.use[p] == h.use[q];
        }
      }
    }
  }

  /** kfree of a live block keeps the invariant, ends that block and touches no other. */
  lemma FreeKeeps(h: Heap, b: Block)
    requires Inv(h) && Live(h, b)
    ensures b.Obj? ==> h.use[b.slab].cls < NUM_CLASSES
    ensures Inv(Free(h, b)) && Lost(h, Free(h, b), b)
  {
    match b
    case Large(k) => GiveLarge(h, k);
    case Obj(k, j) =>
      LiveObject(h, k, j);
      TotalAtLeastThree(h.use[k].cls);
      if h.free[k] == [] {
        GiveToFull(h, k, j);
      } else if |h.free[k]| + 1 < Total(h.use[k].cls) {
        GiveObject(h, k, j);
      } else {
        GiveLast(h, k, j);
      }
  }

  // ---- All runs ----

  datatype Event = Alloc(size: nat, page: nat) | Release(b: Block)

  // The allocator and the requests its clients hold.
  datatype Client = Client(heap: Heap, held: map<Block, nat>)

  // kmalloc outside 1025 .. 2048, with the page mmap picks; kfree of a block that is held.
  ghost predicate Step(s: Client, e: Event, t: Client) {
    match e
    case Alloc(size, page) =>
      && |s.heap.partial| == |s.heap.full| == NUM_CLASSES && (size <= 1024 || size > 2048)
      && (size <= 1024 && s.heap.partial[SizeToClass(size)] == [] ==> Leftmost(UsedPages(s.heap), page, 1))
      && (size > 2048 ==> Leftmost(UsedPages(s.heap), page, BigPages(size)))
      && (Malloc(s.heap, size, page).Got? ==>
            var Got(r, b) := Malloc(s.heap, size, page); t == Client(r, s.held[b := size]))
    case Release(b) =>
      && |s.heap.partial| == |s.heap.full| == NUM_CLASSES && b in s.held && Live(s.heap, b)
      && (b.Obj? ==> s.heap.use[b.slab].cls < NUM_CLASSES)
      && t == Client(Free(s.heap, b), s.held - {b})
  }

  // Exactly the blocks held are live, and each is as large as was asked for.
  ghost predicate ClientOk(s: Client) {
    && Inv(s.heap)
    && (forall b: Block :: b in s.held <==> Live(s.heap, b))
    && (forall b: Block :: b in s.held ==> s.held[b] <= Capacity(s.heap, b))
  }

  /** kmalloc and kfree keep lists and free lists sound, and the live blocks are exactly those that
      were returned and not yet freed. */
  lemma StepKeeps(s: Client, e: Event, t: Client)
    requires ClientOk(s) && Step(s, e, t)
    ensures ClientOk(t)
    ensures e.Alloc? ==> Malloc(s.heap, e.size, e.page).Got?
  {
    hide Inv, Live, Capacity;
    match e
    case Alloc(size, page) =>
      AllocKeeps(s, size, page, t);
    case Release(b) =>
      FreeKeeps(s.heap, b);
      forall x: Block | x in t.held ensures t.held[x] <= Capacity(t.heap, x) {
        assert SameBlock(s.heap, t.heap, x);
      }
  }

  lemma AllocKeeps(s: Client, size: nat, page: nat, t: Client)
    requires ClientOk(s) && Step(s, Alloc(size, page), t)
    ensures Malloc(s.heap, size, page).Got? && ClientOk(t)
  {
    hide Live, Capacity, Malloc;
    if size <= 1024 {
      ClassOf(size);
    }
    MallocKeeps(s.heap, size, page);
    forall x: Block | x in t.held ensures t.held[x] <= Capacity(t.heap, x) {
      assert x in s.held ==> SameBlock(s.heap, t.heap, x);
    }
  }

  ghost predicate Run(states: seq<Client>, events: seq<Event>) {
    && |states| == |events| + 1
    && forall i :: 0 <= i < |events| ==> Step(states[i], events[i], states[i + 1])
  }

  /** Over every run of kmalloc and kfree. */
  lemma {:induction false} RunKeeps(states: seq<Client>, events: seq<Event>, i: nat)
    requires Run(states, events) && ClientOk(states[0]) && i < |states|
    ensures ClientOk(states[i])
  {
    hide ClientOk, Step;
    if i > 0 {
      RunKeeps(states, events, i - 1);
      StepKeeps(states[i - 1], events[i - 1], states[i]);
    }
  }

  lemma EmptyOk()
    ensures ClientOk(Client(EMPTY_HEAP, map[]))
  {
  }

  // ---- What the invariant means for addresses ----

  // The bytes of two blocks do not meet.
  ghost predicate Apart(h: Heap, a: Block, b: Block)
    requires Live(h, a) && Live(h, b)
  {
    Address(h, a) + Capacity(h, a) <= Address(h, b) || Address(h, b) + Capacity(h, b) <= Address(h, a)
  }

  lemma ObjectInPage(c: nat, j: nat)
    requires c < NUM_CLASSES && j < Total(c)
    ensures HEADER + ObjSize(c) * j + ObjSize(c) <= PAGE_SIZE
  {
    var s := ObjSize(c);
    assert s * Total(c) <= PAGE_SIZE - HEADER;
    assert s * (j + 1) <= s * Total(c) by {
      assert s * (Total(c) - (j + 1)) >= 0;
    }
    assert s * (j + 1) == s * j + s;
  }

  // Where a live block lies.
  lemma BlockPlace(h: Heap, b: Block)
    requires Inv(h) && Live(h, b)
    ensures match b
      case Obj(k, j) =>
        PageAddr(k) + HEADER <= Address(h, b) && Address(h, b) + Capacity(h, b) <= PageAddr(k + 1) && k < |h.use| && h.use[k].SlabPage?
      case Large(k) =>
        k < |h.use| && h.use[k].Big? && k + h.use[k].n <= |h.use| && h.use[k].n > 0
        && Address(h, b) == PageAddr(k) + HEADER && Address(h, b) + Capacity(h, b) == PageAddr(k + h.use[k].n)
  {
    match b
    case Obj(k, j) =>
      assert SlabOk(h, k);
      ObjectInPage(h.use[k].cls, j);
    case Large(k) =>
      assert BigOk(h, k);
  }

  /** Blocks in use never overlap. */
  lemma LiveBlocksAreApart(h: Heap, a: Block, b: Block)
    requires Inv(h) && Live(h, a) && Live(h, b) && a != b
    ensures Apart(h, a, b)
  {
    BlockPlace(h, a);
    BlockPlace(h, b);
    var p, q := if a.Obj? then a.slab else a.head, if b.Obj? then b.slab else b.head;
    if p == q {
      if a.Obj? && b.Obj? {
        ObjectsApart(ObjSize(h.use[p].cls), a.index, b.index);
      }
    } else {
      assert BigOk(h, p) && BigOk(h, q);
      assert if p < q then h.use[p].Big? ==> p + h.use[p].n <= q else h.use[q].Big? ==> q + h.use[q].n <= p;
    }
  }

  lemma ObjectsApart(s: nat, i: nat, j: nat)
    requires i != j
    ensures s * i + s <= s * j || s * j + s <= s * i
  {
    if i < j {
      LaterObject(s, i, j);
    } else {
      LaterObject(s, j, i);
    }
  }

  lemma {:induction false} LaterObject(s: nat, i: nat, j: nat)
    requires i < j
    ensures s * i + s <= s * j
    decreases j
  {
    assert s * j == s * (j - 1) + s;
    if i < j - 1 {
      LaterObject(s, i, j - 1);
    }
  }

  /** A live block lies behind its header inside mapped heap pages, and rounding its address down to
      a page boundary finds that header again. */
  lemma HeaderIsRecovered(h: Heap, b: Block, p: nat)
    requires Inv(h) && Live(h, b)
    ensures var k := if b.Obj? then b.slab else b.head;
      && AlignDown4k(Address(h, b)) == PageAddr(k) && Address(h, b) >= PageAddr(k) + HEADER
      && KHEAP_START <= Address(h, b) && Address(h, b) + Capacity(h, b) <= KHEAP_END
    ensures Address(h, b) <= p < Address(h, b) + Capacity(h, b) ==>
      var q := (p - KHEAP_START) / PAGE_SIZE; q < |h.use| && UsedPages(h)[q]
  {
    BlockPlace(h, b);
    if b.Large? {
      assert BigOk(h, b.head);
    } else {
      assert SlabOk(h, b.slab);
      TotalAtLeastThree(h.use[b.slab].cls);
    }
  }

  // ---- The 2048-byte class ----

  // A sound heap has no slab of the 2048-byte class: such a slab would have to have a free and a
  // handed out object, and it has only one.
  lemma No2048Slabs(h: Heap)
    requires Inv(h)
    ensures h.partial[NUM_CLASSES - 1] == [] && h.full[NUM_CLASSES - 1] == []
  {
    var c := NUM_CLASSES - 1;
    assert PartialOk(h, c) && FullOk(h, c) && Total(c) == 1;
    forall k: nat ensures k !in h.partial[c] && k !in h.full[c] {
      assert SlabOk(h, k);
    }
    EmptyOrMember(h.partial[c]);
    EmptyOrMember(h.full[c]);
  }

  lemma EmptyOrMember(s: seq<nat>)
    ensures s != [] ==> exists k: nat :: k in s
  {
    if s != [] {
      assert s[0] in s;
    }
  }

  lemma SizeOf2048(size: nat)
    requires 1024 < size <= 2048
    ensures SizeToClass(size) == NUM_CLASSES - 1
  {
    ClassOf(size);
  }

  /** In every sound heap a request of the 2048-byte class makes a slab of one object, hands that
      object out, and leaves the slab on the partial list although it is full. */
  lemma Class2048LeavesFullSlabInPartial(h: Heap, size: nat, page: nat)
    requires Inv(h) && 1024 < size <= 2048 && page < KHEAP_PAGES && h.use[page] == Unused
    ensures Malloc(h, size, page).Got?
    ensures var Got(r, b) := Malloc(h, size, page);
      && b == Obj(page, 0) && Live(r, b) && Capacity(r, b) >= size
      && r.partial[NUM_CLASSES - 1] == [page] && page in r.free && r.free[page] == []
      && !PartialOk(r, NUM_CLASSES - 1)
  {
    No2048Slabs(h);
    SizeOf2048(size);
    var r := Malloc(h, size, page).heap;
    assert page in r.partial[NUM_CLASSES - 1];
  }

  /** After that the next request of the class reads free_list[-1], wherever mmap would put its page;
      and freeing the object unmaps the slab's page but leaves the slab at the head of the partial
      list. */
  lemma Class2048Breaks(h: Heap, size: nat, page: nat, again: nat, next: nat)
    requires Inv(h) && 1024 < size <= 2048 && page < KHEAP_PAGES && h.use[page] == Unused && 1024 < again <= 2048
    ensures Malloc(h, size, page).Got?
    ensures var Got(r, b) := Malloc(h, size, page);
      && Malloc(r, again, next) == Fault
      && b == Obj(page, 0) && Live(r, b)
      && Free(r, b).partial[NUM_CLASSES - 1] == [page] && Free(r, b).use[page] == Unused
  {
    Class2048LeavesFullSlabInPartial(h, size, page);
    No2048Slabs(h);
    SizeOf2048(size);
    SizeOf2048(again);
    var Got(r, b) := Malloc(h, size, page);
    var given := r.(free := r.free[page := r.free[page] + [0]]);
    assert given.free[page] == [0];
    assert Remove(given.full[7], page) == [];
    assert MoveToPartial(given, 7, page).partial[7] == [page, page];
    assert Remove([page, page], page) == [page];
  }

  /** kmalloc keeps the heap sound if and only if the request is not for the 2048-byte class, in every
      sound heap with room for the pages the request needs. */
  lemma MallocKeepsIff(h: Heap, size: nat, page: nat)
    requires Inv(h)
    requires size <= 2048 && h.partial[SizeToClass(size)] == [] ==> FreeRun(UsedPages(h), page, 1)
    requires size > 2048 ==> FreeRun(UsedPages(h), page, BigPages(size))
    ensures Malloc(h, size, page).Got?
    ensures Inv(Malloc(h, size, page).heap) <==> size <= 1024 || size > 2048
  {
    ClassOf(size);
    if size <= 1024 || size > 2048 {
      MallocKeeps(h, size, page);
    } else {
      No2048Slabs(h);
      SizeOf2048(size);
      assert !UsedPages(h)[page];
      Class2048LeavesFullSlabInPartial(h, size, page);
    }
  }
}
