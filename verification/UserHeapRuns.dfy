/** Runs of malloc and free (userspace/stdlib/malloc.c, userspace/stdlib/free.c): which discipline
    keeps the heap sound for good, and two short runs that break it. */
module UserHeapRuns {
  import opened UserHeapModel
  import opened UserHeapInvariant
  import opened UserHeapMalloc
  import opened UserHeapFree

  // A client's call.  `mapped` is what mmap answers if the request needs a new page block.
  datatype Call = Request(size: nat, mapped: nat) | Release(block: nat)

  datatype State = State(pool: Pool, lay: Layout)

  ghost predicate Sound(s: State) { Inv(s.pool, s.lay) }

  lemma SoundIsReadable(s: State)
    requires Sound(s)
    ensures Readable(s.pool, s.lay)
  {
    forall p, b | p in s.lay.free && b in s.lay.free[p] ensures b in s.pool.blocks {
      PageOkOf(s.pool, s.lay, p);
    }
  }

  ghost function ChoiceOf(s: State, size: nat): (c: Choice)
    requires Sound(s)
    ensures Chosen(s.pool, s.lay, c, AlignUp(size))
  {
    SoundIsReadable(s);
    PickIsChosen(s.pool, s.lay, 0, AlignUp(size));
    Pick(s.pool, s.lay, 0, AlignUp(size))
  }

  // The caller asks for a size within 32 bits, mmap answers with unused addresses, and only
  // blocks in use are released.
  ghost predicate Enabled(s: State, e: Call)
    requires Sound(s)
  {
    match e
    case Request(size, mapped) =>
      Sane(size) && (ChoiceOf(s, size).Fresh? ==> Usable(s.pool, mapped, MappedSize(size)) && mapped !in s.pool.pages)
    case Release(b) => IsLive(s.pool, b)
  }

  lemma RequestOk(s: State, size: nat, mapped: nat)
    requires Sound(s) && Enabled(s, Request(size, mapped))
    ensures UserHeapMalloc.Request(s.pool, s.lay, ChoiceOf(s, size), AlignUp(size), mapped, MappedSize(size))
    ensures forall q :: q in s.lay.order ==> q in s.pool.pages
  {
    SizesFitIff(size);
    OrderKnown(s.pool, s.lay);
    hide Sound, AlignUp, MappedSize;
    assert AlignUp(size) % 8 == 0 by {
      AlignedToEight(size);
    }
  }

  lemma AlignedToEight(size: nat)
    ensures AlignUp(size) % 8 == 0 && AlignUp(size) < WORD
  {
  }

  ghost function Step(s: State, e: Call): State
    requires Sound(s) && Enabled(s, e)
  {
    match e
    case Request(size, mapped) =>
      RequestOk(s, size, mapped);
      var c := ChoiceOf(s, size);
      State(Take(s.pool, s.lay, c, AlignUp(size), mapped, MappedSize(size)), LayoutAfterTake(s.pool, s.lay, c, AlignUp(size), mapped))
    case Release(b) => State(Freed(s.pool, s.lay, b), LayoutAfterFree(s.pool, s.lay, b))
  }

  // What malloc answers, and what it leaves behind.
  ghost predicate ServedBy(s: State, t: State, size: nat, mapped: nat, addr: nat)
    requires Sound(s) && Enabled(s, Request(size, mapped))
  {
    var c := ChoiceOf(s, size);
    && t == Step(s, Request(size, mapped)) && addr == Taken(s.pool, s.lay, c, mapped) + BLOCK_HEADER
    && (!TooTight(s.pool, s.lay, c, AlignUp(size)) ==>
          Sound(t) && Gained(s.pool, t.pool, addr - BLOCK_HEADER, AlignUp(size)) && size <= AlignUp(size))
  }

  // What free leaves behind.
  ghost predicate ReleasedBy(s: State, t: State, b: nat)
    requires Sound(s) && Enabled(s, Release(b))
  {
    t == Step(s, Release(b)) && Lost(s.pool, t.pool, b) && (!Stale(s.pool, s.lay, b) ==> Sound(t))
  }

  lemma StepServes(s: State, size: nat, mapped: nat)
    requires Sound(s) && Enabled(s, Request(size, mapped))
    ensures ServedBy(s, Step(s, Request(size, mapped)), size, mapped, Taken(s.pool, s.lay, ChoiceOf(s, size), mapped) + BLOCK_HEADER)
  {
    RequestOk(s, size, mapped);
    SizesFitIff(size);
    hide Inv, Take, LayoutAfterTake, Gained, AlignUp, MappedSize, ChoiceOf, UserHeapMalloc.Request, TooTight;
    var c := ChoiceOf(s, size);
    if !TooTight(s.pool, s.lay, c, AlignUp(size)) {
      TakeKeeps(s.pool, s.lay, c, AlignUp(size), mapped, MappedSize(size));
      MallocGives(s.pool, s.lay, c, AlignUp(size), mapped, MappedSize(size));
    }
  }

  lemma StepReleases(s: State, b: nat)
    requires Sound(s) && Enabled(s, Release(b))
    ensures ReleasedBy(s, Step(s, Release(b)), b)
  {
    hide Inv, Freed, LayoutAfterFree, Lost, Stale;
    if !Stale(s.pool, s.lay, b) {
      FreeKeeps(s.pool, s.lay, b);
    }
    FreeTakes(s.pool, s.lay, b);
  }

  // A free block of exactly the wanted size is taken, and it is not the last of its list.
  ghost predicate WholeBeforeEnd(pool: Pool, lay: Layout, c: Choice, need: nat)
    requires Chosen(pool, lay, c, need)
  {
    c.Fit? && pool.blocks[lay.free[c.page][c.index]].size == need && c.index < |lay.free[c.page]| - 1
  }

  // No split leaves 8 bytes, and a block of exactly the wanted size is taken from the end of its
  // free list only.
  ghost predicate Disciplined(s: State, e: Call)
    requires Sound(s)
  {
    match e
    case Request(size, _) =>
      var c := ChoiceOf(s, size);
      !TooTight(s.pool, s.lay, c, AlignUp(size)) && !WholeBeforeEnd(s.pool, s.lay, c, AlignUp(size))
    case Release(_) => true
  }

  // No block in use carries a link.
  ghost predicate Clean(pool: Pool) {
    forall b :: IsLive(pool, b) ==> pool.blocks[b].next == NULL
  }

  // A block comes out with a link in it exactly when it is taken whole from before the end.
  lemma CleanIff(s: State, size: nat, mapped: nat)
    requires Sound(s) && Enabled(s, Request(size, mapped)) && Clean(s.pool)
    requires !TooTight(s.pool, s.lay, ChoiceOf(s, size), AlignUp(size))
    ensures Clean(Step(s, Request(size, mapped)).pool) <==> Disciplined(s, Request(size, mapped))
  {
    RequestOk(s, size, mapped);
    var c := ChoiceOf(s, size);
    var need := AlignUp(size);
    var r := Step(s, Request(size, mapped)).pool;
    MallocGives(s.pool, s.lay, c, need, mapped, MappedSize(size));
    var b := Taken(s.pool, s.lay, c, mapped);
    GivenLink(s.pool, s.lay, c, need, mapped, MappedSize(size));
    hide Sound, Step, Enabled, ChoiceOf, Take, Chosen, AlignUp, MappedSize, UserHeapMalloc.Request;
    assert Clean(r) <==> Linkless(r, b);
  }

  // The link in the block that is handed out.
  lemma GivenLink(pool: Pool, lay: Layout, c: Choice, need: nat, mapped: nat, og: nat)
    requires UserHeapMalloc.Request(pool, lay, c, need, mapped, og)
    ensures forall q :: q in lay.order ==> q in pool.pages
    ensures Linkless(Take(pool, lay, c, need, mapped, og), Taken(pool, lay, c, mapped)) <==> !WholeBeforeEnd(pool, lay, c, need)
  {
    hide Inv, Split, TakeWhole, Usable, Carve, AppendPage, Linkless;
    OrderKnown(pool, lay);
    match c {
      case Fit(p, k) =>
        PageOkOf(pool, lay, p);
        hide PageOk;
        FitLink(pool, p, lay.tiles[p], lay.free[p], k, need);
      case Room(p) => CarveLink(pool, p, need + BLOCK_HEADER);
      case Fresh => FreshLink(pool, lay, need, mapped, og);
    }
  }

  ghost predicate Linkless(r: Pool, b: nat) {
    b in r.blocks && r.blocks[b].next == NULL
  }

  lemma CarveLink(pool: Pool, p: nat, size: nat)
    requires p in pool.pages && BLOCK_HEADER <= size <= pool.pages[p].room
    ensures Linkless(Carve(pool, p, size), pool.pages[p].bump)
  {
  }

  lemma FreshLink(pool: Pool, lay: Layout, need: nat, mapped: nat, og: nat)
    requires (forall q :: q in lay.order ==> q in pool.pages) && mapped !in pool.pages && og >= PAGE_HEADER + need + BLOCK_HEADER
    ensures Linkless(Take(pool, lay, Fresh, need, mapped, og), mapped + PAGE_HEADER)
  {
    var last := At(lay.order, |lay.order| - 1);
    assert last != NULL ==> last in lay.order;
    GrownFacts(pool, mapped, og, last, need + BLOCK_HEADER);
    hide Carve, AppendPage;
  }

  lemma FitLink(pool: Pool, p: nat, tiles: seq<nat>, free: seq<nat>, k: nat, need: nat)
    requires p in pool.pages && PageOk(pool, p, tiles, free) && k < |free|
    requires free[k] in pool.blocks && pool.blocks[free[k]].size >= need
    ensures var b, before := free[k], At(free, k - 1);
      && (before != NULL ==> before in pool.blocks)
      && Linkless(Split(pool, p, before, b, need), b)
      && (Linkless(TakeWhole(pool, p, before, b), b) <==> k == |free| - 1)
  {
    FreeBlock(pool, p, tiles, free, k, free[k]);
    FreeAreTiles(pool, p, tiles, free);
    hide PageOk;
    assert k + 1 < |free| ==> free[k + 1] in free;
  }

  /** A request leaves a sound heap whose live blocks carry no link if and only if it splits nothing
      into 8 bytes and takes no block whole from before the end of its free list.  Such a heap stays
      sound whatever is released next (ReleaseKeeps). */
  lemma RequestIsSoundIff(s: State, size: nat, mapped: nat)
    requires Sound(s) && Enabled(s, Request(size, mapped)) && Clean(s.pool)
    ensures var r := Step(s, Request(size, mapped)).pool;
      (exists after :: Inv(r, after)) && Clean(r) <==> Disciplined(s, Request(size, mapped))
    ensures Disciplined(s, Request(size, mapped)) ==> Sound(Step(s, Request(size, mapped)))
  {
    RequestOk(s, size, mapped);
    SoundIsReadable(s);
    var c := ChoiceOf(s, size);
    MallocKeepsIff(s.pool, s.lay, AlignUp(size), mapped, MappedSize(size));
    hide Inv, Clean, Take, LayoutAfterTake, Pick, UserHeapMalloc.Request;
    if !TooTight(s.pool, s.lay, c, AlignUp(size)) {
      CleanIff(s, size, mapped);
      TakeKeeps(s.pool, s.lay, c, AlignUp(size), mapped, MappedSize(size));
    }
  }

  lemma ReleaseKeeps(s: State, b: nat)
    requires Sound(s) && Clean(s.pool) && IsLive(s.pool, b)
    ensures Sound(Step(s, Release(b))) && Clean(Step(s, Release(b)).pool)
  {
    hide Inv, EndingOf, Freed, LayoutAfterFree;
    FreeKeeps(s.pool, s.lay, b);
    FreeTakes(s.pool, s.lay, b);
  }

  lemma StepKeeps(s: State, e: Call)
    requires Sound(s) && Clean(s.pool) && Enabled(s, e) && Disciplined(s, e)
    ensures Sound(Step(s, e)) && Clean(Step(s, e).pool)
  {
    hide Sound, Clean, Step, Enabled, Disciplined;
    match e {
      case Request(size, mapped) => RequestIsSoundIff(s, size, mapped);
      case Release(b) =>
        assert IsLive(s.pool, b) by { EnabledRelease(s, b); }
        ReleaseKeeps(s, b);
    }
  }

  lemma EnabledRelease(s: State, b: nat)
    requires Sound(s) && Enabled(s, Release(b))
    ensures IsLive(s.pool, b)
  {
  }

  // From a sound heap whose blocks in use carry no link, every call of the run is enabled and
  // disciplined where it happens.
  ghost predicate Runs(s: State, calls: seq<Call>)
    requires Sound(s) && Clean(s.pool)
    decreases calls
  {
    calls != [] ==>
      && Enabled(s, calls[0]) && Disciplined(s, calls[0])
      && (StepKeeps(s, calls[0]); Runs(Step(s, calls[0]), calls[1..]))
  }

  ghost function Final(s: State, calls: seq<Call>): State
    requires Sound(s) && Clean(s.pool) && Runs(s, calls)
    decreases calls
  {
    if calls == [] then s
    else
      StepKeeps(s, calls[0]);
      Final(Step(s, calls[0]), calls[1..])
  }

  // What the client holds: each block address with the size it asked for.
  ghost function HeldAfter(s: State, e: Call, held: map<nat, nat>): map<nat, nat>
    requires Sound(s)
  {
    match e
    case Request(size, mapped) => held[Taken(s.pool, s.lay, ChoiceOf(s, size), mapped) := size]
    case Release(b) => held - {b}
  }

  ghost function Held(s: State, calls: seq<Call>, held: map<nat, nat>): map<nat, nat>
    requires Sound(s) && Clean(s.pool) && Runs(s, calls)
    decreases calls
  {
    if calls == [] then held
    else
      StepKeeps(s, calls[0]);
      Held(Step(s, calls[0]), calls[1..], HeldAfter(s, calls[0], held))
  }

  ghost predicate Accounts(pool: Pool, held: map<nat, nat>) {
    && (forall b :: b in held <==> IsLive(pool, b))
    && (forall b :: b in held ==> held[b] <= pool.blocks[b].size)
  }

  lemma StepAccounts(s: State, e: Call, held: map<nat, nat>)
    requires Sound(s) && Enabled(s, e) && Disciplined(s, e) && Accounts(s.pool, held)
    ensures Accounts(Step(s, e).pool, HeldAfter(s, e, held))
  {
    hide Inv;
    match e {
      case Request(size, mapped) =>
        RequestOk(s, size, mapped);
        SizesFitIff(size);
        hide AlignUp, MappedSize, Chosen, Take;
        MallocGives(s.pool, s.lay, ChoiceOf(s, size), AlignUp(size), mapped, MappedSize(size));
      case Release(b) =>
        hide Freed;
        FreeTakes(s.pool, s.lay, b);
    }
  }

  /** Over every disciplined run the page blocks stay tiled and the free lists exact, and the live
      blocks are precisely the ones the client holds, each with the bytes it asked for. */
  lemma {:induction false} RunKeeps(s: State, calls: seq<Call>, held: map<nat, nat>)
    requires Sound(s) && Clean(s.pool) && Runs(s, calls) && Accounts(s.pool, held)
    ensures Sound(Final(s, calls)) && Clean(Final(s, calls).pool)
    ensures Accounts(Final(s, calls).pool, Held(s, calls, held))
    decreases calls
  {
    hide Sound, Clean, Step, Accounts, Enabled, Disciplined, HeldAfter;
    if calls != [] {
      StepKeeps(s, calls[0]);
      StepAccounts(s, calls[0], held);
      RunKeeps(Step(s, calls[0]), calls[1..], HeldAfter(s, calls[0], held));
    }
  }

  lemma StartIsSound()
    ensures Sound(State(EMPTY_POOL, EMPTY_LAYOUT)) && Clean(EMPTY_POOL) && Accounts(EMPTY_POOL, map[])
  {
  }
}
