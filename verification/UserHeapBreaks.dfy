/** Two short runs of malloc and free that leave the userspace heap unsound
    (userspace/stdlib/malloc.c:67-106, userspace/stdlib/free.c:61-69). */
module UserHeapBreaks {
  import opened Paging
  import opened UserHeapModel
  import opened UserHeapInvariant
  import opened UserHeapMalloc
  import opened UserHeapFree
  import opened UserHeapRuns

  const START := State(EMPTY_POOL, EMPTY_LAYOUT)

  // One page block at address 4096 holding four 8-byte blocks.
  const P: nat := 4096
  const A: nat := 4120
  const B: nat := 4144
  const C: nat := 4168
  const D: nat := 4192

  function PageWith(n: nat, first: nat): map<nat, Page>
    requires n <= 4
  {
    map[P := Page(4096, 4072 - 24 * n, A + 24 * n, first, NULL, NULL)]
  }

  function Eight(next: nat, live: bool): Block { Block(8, P, next, live) }

  const ONE_LIVE := State(Pool(P, PageWith(1, NULL), map[A := Eight(NULL, true)]),
                          Layout([P], map[P := [A]], map[P := []]))
  const TWO_LIVE := State(Pool(P, PageWith(2, NULL), ONE_LIVE.pool.blocks[B := Eight(NULL, true)]),
                          Layout([P], map[P := [A, B]], map[P := []]))
  const THREE_LIVE := State(Pool(P, PageWith(3, NULL), TWO_LIVE.pool.blocks[C := Eight(NULL, true)]),
                            Layout([P], map[P := [A, B, C]], map[P := []]))
  const FOUR_LIVE := State(Pool(P, PageWith(4, NULL), THREE_LIVE.pool.blocks[D := Eight(NULL, true)]),
                           Layout([P], map[P := [A, B, C, D]], map[P := []]))
  const A_FREE := State(Pool(P, PageWith(4, A), FOUR_LIVE.pool.blocks[A := Eight(NULL, false)]),
                        Layout([P], map[P := [A, B, C, D]], map[P := [A]]))
  const A_C_FREE := State(Pool(P, PageWith(4, A), FOUR_LIVE.pool.blocks[A := Eight(C, false)][C := Eight(NULL, false)]),
                        Layout([P], map[P := [A, B, C, D]], map[P := [A, C]]))
  // A was handed out again, with the link to C still in it.
  const A_REUSED := State(Pool(P, PageWith(4, C), FOUR_LIVE.pool.blocks[A := Eight(C, true)][C := Eight(NULL, false)]),
                        Layout([P], map[P := [A, B, C, D]], map[P := [C]]))

  lemma FirstStep()
    ensures Sound(START) && Enabled(START, Request(8, P)) && Disciplined(START, Request(8, P))
    ensures Step(START, Request(8, P)) == ONE_LIVE
  {
    StartIsSound();
    assert ChoiceOf(START, 8) == Fresh;
    assert MappedSize(8) == 4096;
  }

  lemma RoomStep(s: State, t: State, n: nat)
    requires 1 <= n < 4 && Sound(s) && s.pool.head == P && s.pool.pages == PageWith(n, NULL) && s.lay.order == [P]
    requires s.lay.free == map[P := []] && P in s.lay.tiles
    requires t.pool == Pool(P, PageWith(n + 1, NULL), s.pool.blocks[A + 24 * n := Eight(NULL, true)])
    requires t.lay == Layout([P], s.lay.tiles[P := s.lay.tiles[P] + [A + 24 * n]], map[P := []])
    ensures Enabled(s, Request(8, 0)) && Disciplined(s, Request(8, 0)) && Step(s, Request(8, 0)) == t
  {
    hide Inv;
    assert AlignUp(8) == 8;
    assert ChoiceOf(s, 8) == Room(P);
  }

  lemma FourBlocks()
    ensures Runs(START, [Request(8, P), Request(8, 0), Request(8, 0), Request(8, 0)])
    ensures Final(START, [Request(8, P), Request(8, 0), Request(8, 0), Request(8, 0)]) == FOUR_LIVE
    ensures Sound(FOUR_LIVE) && Clean(FOUR_LIVE.pool)
  {
    hide Sound, Clean, Enabled, Disciplined, Step;
    StartIsSound();
    FirstStep();
    StepKeeps(START, Request(8, P));
    assert [A] + [B] == [A, B] && [A, B] + [C] == [A, B, C] && [A, B, C] + [D] == [A, B, C, D];
    assert map[P := [A]][P := [A, B]] == map[P := [A, B]];
    assert map[P := [A, B]][P := [A, B, C]] == map[P := [A, B, C]];
    assert map[P := [A, B, C]][P := [A, B, C, D]] == map[P := [A, B, C, D]];
    RoomStep(ONE_LIVE, TWO_LIVE, 1);
    StepKeeps(ONE_LIVE, Request(8, 0));
    RoomStep(TWO_LIVE, THREE_LIVE, 2);
    StepKeeps(TWO_LIVE, Request(8, 0));
    RoomStep(THREE_LIVE, FOUR_LIVE, 3);
    StepKeeps(THREE_LIVE, Request(8, 0));
    var r := Request(8, 0);
    assert [Request(8, P), r, r, r][1..] == [r, r, r] && [r, r, r][1..] == [r, r] && [r, r][1..] == [r] && [r][1..] == [];
    assert Runs(FOUR_LIVE, []) && Final(FOUR_LIVE, []) == FOUR_LIVE;
    assert Runs(THREE_LIVE, [r]) && Final(THREE_LIVE, [r]) == FOUR_LIVE;
    assert Runs(TWO_LIVE, [r, r]) && Final(TWO_LIVE, [r, r]) == FOUR_LIVE;
    assert Runs(ONE_LIVE, [r, r, r]) && Final(ONE_LIVE, [r, r, r]) == FOUR_LIVE;
  }

  lemma ReleaseFirst()
    requires Sound(FOUR_LIVE)
    ensures Enabled(FOUR_LIVE, Release(A)) && Disciplined(FOUR_LIVE, Release(A))
    ensures Step(FOUR_LIVE, Release(A)) == A_FREE
  {
    hide Inv;
    assert !PageFree(FOUR_LIVE.pool, FOUR_LIVE.lay, A);
    assert [] + [A] == [A];
  }

  lemma ReleaseThird()
    requires Sound(A_FREE)
    ensures Enabled(A_FREE, Release(C)) && Disciplined(A_FREE, Release(C)) && Step(A_FREE, Release(C)) == A_C_FREE
  {
    hide Inv;
    assert Bytes(A_FREE.pool, [A]) == 24;
    assert !PageFree(A_FREE.pool, A_FREE.lay, C);
    assert EndingOf(A_FREE.pool, A_FREE.lay, C) == Appends;
    assert [A] + [C] == [A, C];
    assert Freed(A_FREE.pool, A_FREE.lay, C).blocks == A_C_FREE.pool.blocks;
    assert LayoutAfterFree(A_FREE.pool, A_FREE.lay, C) == A_C_FREE.lay;
  }

  lemma ReuseChoice()
    requires Sound(A_C_FREE)
    ensures ChoiceOf(A_C_FREE, 8) == Fit(P, 0) && AlignUp(8) == 8 && Enabled(A_C_FREE, Request(8, 0))
    ensures !Disciplined(A_C_FREE, Request(8, 0))
  {
    hide Inv;
    assert AlignUp(8) == 8;
    assert FirstFit(A_C_FREE.pool, [A, C], 0, 8) == 0;
  }

  lemma ReuseTakes()
    ensures TakeWhole(A_C_FREE.pool, P, NULL, A) == A_REUSED.pool
    ensures Chosen(A_C_FREE.pool, A_C_FREE.lay, Fit(P, 0), 8)
    ensures LayoutAfterTake(A_C_FREE.pool, A_C_FREE.lay, Fit(P, 0), 8, 0) == A_REUSED.lay
  {
    assert TakeWhole(A_C_FREE.pool, P, NULL, A).blocks == A_REUSED.pool.blocks;
    assert Without([A, C], 0) == [C];
  }

  lemma ReuseStep()
    requires Sound(A_C_FREE)
    ensures Enabled(A_C_FREE, Request(8, 0)) && Step(A_C_FREE, Request(8, 0)) == A_REUSED && Sound(A_REUSED)
  {
    hide Inv, Disciplined, Enabled, ChoiceOf;
    ReuseChoice();
    RequestOk(A_C_FREE, 8, 0);
    ReuseTakes();
    hide TakeWhole, LayoutAfterTake;
    TakeKeeps(A_C_FREE.pool, A_C_FREE.lay, Fit(P, 0), 8, 0, MappedSize(8));
  }

  /** Four requests, two releases, a request and a release, all of them legal: the free list then
      runs C, A, C, A, ... for ever. */
  lemma ReuseMakesACycle()
    ensures Sound(FOUR_LIVE) && Runs(START, [Request(8, P), Request(8, 0), Request(8, 0), Request(8, 0)])
    ensures Final(START, [Request(8, P), Request(8, 0), Request(8, 0), Request(8, 0)]) == FOUR_LIVE
    ensures Enabled(FOUR_LIVE, Release(A)) && Step(FOUR_LIVE, Release(A)) == A_FREE
    ensures Sound(A_FREE) && Enabled(A_FREE, Release(C)) && Step(A_FREE, Release(C)) == A_C_FREE
    ensures Sound(A_C_FREE) && Enabled(A_C_FREE, Request(8, 0)) && Step(A_C_FREE, Request(8, 0)) == A_REUSED
    ensures Sound(A_REUSED) && Enabled(A_REUSED, Release(A))
    ensures var r := Step(A_REUSED, Release(A)).pool;
      && P in r.pages && r.pages[P].first == C
      && C in r.blocks && r.blocks[C].next == A && A in r.blocks && r.blocks[A].next == C
  {
    hide Inv, Clean, Disciplined, Enabled, Step;
    FourBlocks();
    ReleaseFirst();
    StepKeeps(FOUR_LIVE, Release(A));
    ReleaseThird();
    StepKeeps(A_FREE, Release(C));
    ReuseStep();
    CycleCloses();
  }

  lemma CycleCloses()
    requires Sound(A_REUSED)
    ensures Enabled(A_REUSED, Release(A))
    ensures var r := Step(A_REUSED, Release(A)).pool;
      && P in r.pages && r.pages[P].first == C
      && C in r.blocks && r.blocks[C].next == A && A in r.blocks && r.blocks[A].next == C
  {
    hide Inv;
    assert Bytes(A_REUSED.pool, [C]) == 24;
    assert !PageFree(A_REUSED.pool, A_REUSED.lay, A);
  }

  // ---- A split that leaves 8 bytes ----

  const E: nat := 4152    // the block after a 16-byte block at A

  const ONE_OF_SIXTEEN := State(Pool(P, map[P := Page(4096, 4040, E, NULL, NULL, NULL)], map[A := Block(16, P, NULL, true)]),
                         Layout([P], map[P := [A]], map[P := []]))
  const TWO_SIZES := State(Pool(P, map[P := Page(4096, 4016, E + 24, NULL, NULL, NULL)], ONE_OF_SIXTEEN.pool.blocks[E := Eight(NULL, true)]),
                      Layout([P], map[P := [A, E]], map[P := []]))
  const GAP := State(Pool(P, map[P := Page(4096, 4016, E + 24, A, NULL, NULL)],
                          map[A := Block(16, P, NULL, false), E := Eight(NULL, true)]),
                     Layout([P], map[P := [A, E]], map[P := [A]]))

  lemma SixteenStep()
    ensures Sound(START) && Enabled(START, Request(16, P)) && Disciplined(START, Request(16, P))
    ensures Step(START, Request(16, P)) == ONE_OF_SIXTEEN
  {
    StartIsSound();
    assert AlignUp(16) == 16 && MappedSize(16) == 4096;
    assert ChoiceOf(START, 16) == Fresh;
  }

  lemma BothStep()
    requires Sound(ONE_OF_SIXTEEN)
    ensures Enabled(ONE_OF_SIXTEEN, Request(8, 0)) && Disciplined(ONE_OF_SIXTEEN, Request(8, 0))
    ensures Step(ONE_OF_SIXTEEN, Request(8, 0)) == TWO_SIZES
  {
    hide Inv;
    assert AlignUp(8) == 8;
    assert ChoiceOf(ONE_OF_SIXTEEN, 8) == Room(P);
    assert [A] + [E] == [A, E];
  }

  lemma GapStep()
    requires Sound(TWO_SIZES)
    ensures Enabled(TWO_SIZES, Release(A)) && Disciplined(TWO_SIZES, Release(A)) && Step(TWO_SIZES, Release(A)) == GAP
  {
    hide Inv;
    assert !PageFree(TWO_SIZES.pool, TWO_SIZES.lay, A);
    assert EndingOf(TWO_SIZES.pool, TWO_SIZES.lay, A) == Starts;
    assert [] + [A] == [A];
    assert Freed(TWO_SIZES.pool, TWO_SIZES.lay, A).blocks == GAP.pool.blocks;
  }

  /** A released 16-byte block serves a request for 8: the rest gets the size 2^32 - 8. */
  lemma SplitUnderflows()
    ensures Runs(START, [Request(16, P), Request(8, 0), Release(A)])
    ensures Final(START, [Request(16, P), Request(8, 0), Release(A)]) == GAP
    ensures Sound(GAP) && Enabled(GAP, Request(8, 0))
    ensures var r := Step(GAP, Request(8, 0)).pool; A + 24 in r.blocks && r.blocks[A + 24].size == WORD - 8
  {
    hide Inv, Clean, Disciplined, Enabled, Step;
    SixteenStep();
    StartIsSound();
    StepKeeps(START, Request(16, P));
    BothStep();
    StepKeeps(ONE_OF_SIXTEEN, Request(8, 0));
    GapStep();
    StepKeeps(TWO_SIZES, Release(A));
    assert [Request(16, P), Request(8, 0), Release(A)][1..] == [Request(8, 0), Release(A)];
    assert [Request(8, 0), Release(A)][1..] == [Release(A)] && [Release(A)][1..] == [];
    assert Runs(GAP, []) && Final(GAP, []) == GAP;
    assert Runs(TWO_SIZES, [Release(A)]) && Final(TWO_SIZES, [Release(A)]) == GAP;
    assert Runs(ONE_OF_SIXTEEN, [Request(8, 0), Release(A)]) && Final(ONE_OF_SIXTEEN, [Request(8, 0), Release(A)]) == GAP;
    LastSplit();
  }

  lemma LastSplit()
    requires Sound(GAP)
    ensures Enabled(GAP, Request(8, 0))
    ensures var r := Step(GAP, Request(8, 0)).pool; A + 24 in r.blocks && r.blocks[A + 24].size == WORD - 8
  {
    hide Inv;
    assert AlignUp(8) == 8;
    assert ChoiceOf(GAP, 8) == Fit(P, 0);
  }
}
