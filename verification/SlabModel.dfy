/** The kernel heap allocator over page numbers and lists (kernel/memory.c:387-492).
    Slab k is the heap page k.  Its free list is modelled as storage of its own, as a stack of
    object numbers; Overlay treats the bytes it really shares with the objects.
 */
module SlabModel {
  import opened Paging
  import opened FrameBitmap
  import opened Sequences

  const NUM_CLASSES: nat := 8
  const HEADER: nat := 16       // sizeof(slab_t)

  // slab_classes.
  function ObjSize(c: nat): (size: nat)
    ensures size >= 16 && size <= 2048
  {
    match c
    case 0 => 16 case 1 => 32 case 2 => 64 case 3 => 128
    case 4 => 256 case 5 => 512 case 6 => 1024 case _ => 2048
  }

  function Total(c: nat): nat { (PAGE_SIZE - HEADER) / ObjSize(c) }

  // size_to_class: the first class that is large enough, NUM_CLASSES for the code's -1.
  function SizeToClass(size: nat): nat { ClassFrom(size, 0) }

  function ClassFrom(size: nat, c: nat): nat
    decreases NUM_CLASSES - c
  {
    if c >= NUM_CLASSES || size <= ObjSize(c) then c else ClassFrom(size, c + 1)
  }

  // fp_allocation.
  function BigPages(size: nat): nat { (size + HEADER) / PAGE_SIZE + 1 }

  datatype PageUse = Unused | SlabPage(cls: nat) | Big(head: nat, n: nat)

  datatype Heap = Heap(
    use: seq<PageUse>,            // one per heap page
    free: map<nat, seq<nat>>,     // free objects of each slab; the last is handed out next
    partial: seq<seq<nat>>,       // slabs with free objects, by class, in list order
    full: seq<seq<nat>>)          // slabs without

  function UsedPages(h: Heap): (u: seq<bool>)
    ensures |u| == |h.use| && forall k :: 0 <= k < |u| ==> (u[k] <==> h.use[k] != Unused)
  {
    seq(|h.use|, k requires 0 <= k < |h.use| => h.use[k] != Unused)
  }

  // ---- The invariant ----

  ghost predicate PartialOk(h: Heap, c: nat)
    requires c < |h.partial|
  {
    && NoDup(h.partial[c])
    && (forall k :: k in h.partial[c] ==> k < |h.use| && h.use[k] == SlabPage(c) && k in h.free && 0 < |h.free[k]| < Total(c))
  }

  ghost predicate FullOk(h: Heap, c: nat)
    requires c < |h.full|
  {
    && NoDup(h.full[c])
    && (forall k :: k in h.full[c] ==> k < |h.use| && h.use[k] == SlabPage(c) && k in h.free && h.free[k] == [])
  }

  // A slab is in one of the lists of its class, and its free objects are distinct objects of it.
  ghost predicate SlabOk(h: Heap, k: nat)
    requires |h.partial| == |h.full| == NUM_CLASSES
  {
    k < |h.use| && h.use[k].SlabPage? ==>
      && h.use[k].cls < NUM_CLASSES - 1 && k in h.free
      && (k in h.partial[h.use[k].cls] || k in h.full[h.use[k].cls])
      && NoDup(h.free[k]) && (forall j :: j in h.free[k] ==> j < Total(h.use[k].cls))
  }

  // The pages of a large block know their block.
  ghost predicate BigOk(h: Heap, q: nat) {
    q < |h.use| && h.use[q].Big? ==>
      && h.use[q].head <= q < h.use[q].head + h.use[q].n <= |h.use|
      && (forall p :: h.use[q].head <= p < h.use[q].head + h.use[q].n ==> h.use[p] == h.use[q])
  }

  ghost predicate Inv(h: Heap) {
    && |h.use| == KHEAP_PAGES && |h.partial| == |h.full| == NUM_CLASSES
    && (forall c: nat :: c < NUM_CLASSES ==> PartialOk(h, c) && FullOk(h, c))
    && (forall k: nat :: SlabOk(h, k))
    && (forall q: nat :: BigOk(h, q))
  }

  const EMPTY_HEAP: Heap :=
    Heap(seq(KHEAP_PAGES, _ => Unused), map[], seq(NUM_CLASSES, _ => []), seq(NUM_CLASSES, _ => []))

  // ---- Blocks and their addresses ----

  datatype Block = Obj(slab: nat, index: nat) | Large(head: nat)

  function PageAddr(k: nat): nat { KHEAP_START + k * PAGE_SIZE }

  function Address(h: Heap, b: Block): nat
    requires b.Obj? ==> b.slab < |h.use|
  {
    match b
    case Obj(k, j) => PageAddr(k) + HEADER + (if h.use[k].SlabPage? then ObjSize(h.use[k].cls) * j else 0)
    case Large(k) => PageAddr(k) + HEADER
  }

  // The bytes a block offers.
  function Capacity(h: Heap, b: Block): nat {
    match b
    case Obj(k, j) => if k < |h.use| && h.use[k].SlabPage? then ObjSize(h.use[k].cls) else 0
    case Large(k) => if k < |h.use| && h.use[k].Big? && h.use[k].n > 0 then h.use[k].n * PAGE_SIZE - HEADER else 0
  }

  // The blocks handed out: objects that are not on their slab's free list, and large blocks.
  predicate Live(h: Heap, b: Block) {
    match b
    case Obj(k, j) => k < |h.use| && h.use[k].SlabPage? && k in h.free && j < Total(h.use[k].cls) && j !in h.free[k]
    case Large(k) => k < |h.use| && h.use[k].Big? && h.use[k].head == k
  }

  // ---- kmalloc ----

  datatype Outcome = Got(heap: Heap, block: Block) | Fault

  // kmalloc.  `page` is where mmap would place a new slab or large block.  Fault is the read of
  // free_list[-1] from a slab without free objects at the head of the partial list.
  function Malloc(h: Heap, size: nat, page: nat): Outcome
    requires |h.partial| == |h.full| == NUM_CLASSES
  {
    var c := SizeToClass(size);
    if c == NUM_CLASSES then
      Got(h.(use := seq(|h.use|, q requires 0 <= q < |h.use| =>
                if page <= q < page + BigPages(size) then Big(page, BigPages(size)) else h.use[q])), Large(page))
    else if h.partial[c] != [] then
      var k := h.partial[c][0];
      if k !in h.free || h.free[k] == [] then Fault
      else
        var rest := h.free[k][..|h.free[k]| - 1];
        var taken := h.(free := h.free[k := rest]);
        Got(if rest == [] then MoveToFull(taken, c, k) else taken, Obj(k, h.free[k][|h.free[k]| - 1]))
    else
      if page >= |h.use| then Fault
      else
        Got(h.(use := h.use[page := SlabPage(c)],
               free := h.free[page := seq(Total(c) - 1, i => i)],
               partial := h.partial[c := [page]]),
            Obj(page, Total(c) - 1))
  }

  function MoveToFull(h: Heap, c: nat, k: nat): Heap
    requires c < |h.partial| && c < |h.full| && h.partial[c] != []
  {
    h.(partial := h.partial[c := h.partial[c][1..]], full := h.full[c := [k] + h.full[c]])
  }

  // ---- kfree ----

  function Remove(s: seq<nat>, k: nat): seq<nat> {
    if s == [] then [] else if s[0] == k then s[1..] else [s[0]] + Remove(s[1..], k)
  }

  function Free(h: Heap, b: Block): Heap
    requires |h.partial| == |h.full| == NUM_CLASSES && Live(h, b)
    requires b.Obj? ==> h.use[b.slab].cls < NUM_CLASSES
  {
    match b
    case Large(k) =>
      h.(use := seq(|h.use|, q requires 0 <= q < |h.use| => if k <= q < k + h.use[k].n then Unused else h.use[q]))
    case Obj(k, j) =>
      var c := h.use[k].cls;
      var given := h.(free := h.free[k := h.free[k] + [j]]);
      var listed := if |given.free[k]| == 1 then MoveToPartial(given, c, k) else given;
      if |given.free[k]| == Total(c) then DropSlab(listed, c, k) else listed
  }

  function MoveToPartial(h: Heap, c: nat, k: nat): Heap
    requires c < |h.partial| && c < |h.full|
  {
    h.(full := h.full[c := Remove(h.full[c], k)], partial := h.partial[c := [k] + h.partial[c]])
  }

  function DropSlab(h: Heap, c: nat, k: nat): Heap
    requires c < |h.partial| && k < |h.use|
  {
    h.(partial := h.partial[c := Remove(h.partial[c], k)], free := h.free - {k}, use := h.use[k := Unused])
  }
}
