/** The bytes behind a slab's header hold both the free list and the objects
    (kernel/memory.c:421, 439-456, 471; kernel/include/memory.h:44-54).
    Cell i of free_list is the 4 bytes from HEADER + 4i on; object j of class c is the ObjSize(c)
    bytes from HEADER + ObjSize(c) * j on.
 */
module Overlay {
  import opened Paging
  import opened SlabModel
  import SlabInvariant

  const CELL: nat := 4

  predicate InCell(i: nat, p: nat) { HEADER + CELL * i <= p < HEADER + CELL * i + CELL }

  predicate InObject(c: nat, j: nat, p: nat) { HEADER + ObjSize(c) * j <= p < HEADER + ObjSize(c) * j + ObjSize(c) }

  ghost predicate CellMeetsObject(c: nat, i: nat, j: nat) {
    exists p: nat :: InCell(i, p) && InObject(c, j, p)
  }

  // The object whose bytes cell i lies in.
  function Under(c: nat, i: nat): nat { CELL * i / ObjSize(c) }

  /** A cell lies inside exactly one object. */
  lemma CellLiesUnder(c: nat, i: nat, j: nat)
    ensures CellMeetsObject(c, i, j) <==> j == Under(c, i)
  {
    var s := ObjSize(c);
    var u := Under(c, i);
    assert CELL * i == s * u + (CELL * i) % s;
    assert (CELL * i) % s + CELL <= s by { CellFits(c, i); }
    if j == u {
      var p := HEADER + CELL * i;
      assert InCell(i, p) && InObject(c, j, p);
    } else {
      SlabInvariant.ObjectsApart(s, u, j);
    }
  }

  lemma CellFits(c: nat, i: nat)
    ensures (CELL * i) % ObjSize(c) + CELL <= ObjSize(c)
  {
    var m := ObjSize(c) / CELL;
    assert ObjSize(c) == CELL * m && m > 0;
    MultipleFits(i, m);
  }

  lemma MultipleFits(i: nat, m: nat)
    requires m > 0
    ensures (CELL * i) % (CELL * m) + CELL <= CELL * m
  {
    var s, x := CELL * m, CELL * i;
    var q, r := x / s, x % s;
    assert x == s * q + r;
    var t := m * q;
    assert s * q == CELL * t;
    assert r == CELL * (i - t);
  }

  // ---- One slab ----

  // Objects of the slab that are handed out when `free` is its free list.
  predicate Out(c: nat, free: seq<nat>, j: nat) { j < Total(c) && j !in free }

  // The cells in use meet no object that is handed out.
  ghost predicate CellsApart(c: nat, free: seq<nat>) {
    forall i: nat, j: nat :: i < |free| && Out(c, free, j) ==> !CellMeetsObject(c, i, j)
  }

  // The store of kfree(object j) meets no other object that is handed out.
  ghost predicate PushHarmless(c: nat, free: seq<nat>, j: nat) {
    forall x: nat :: x != j && Out(c, free, x) ==> !CellMeetsObject(c, |free|, x)
  }

  /** kfree of object j leaves every other object in use intact exactly when the object under the
      cell it stores to is j itself or free. */
  lemma PushHarmlessIff(c: nat, free: seq<nat>, j: nat)
    requires c < NUM_CLASSES && Out(c, free, j) && |free| < Total(c)
    ensures PushHarmless(c, free, j) <==> Under(c, |free|) == j || Under(c, |free|) in free
  {
    var u := Under(c, |free|);
    UnderIsObject(c, |free|);
    forall x: nat ensures CellMeetsObject(c, |free|, x) <==> x == u {
      CellLiesUnder(c, |free|, x);
    }
    if u != j && u !in free {
      assert Out(c, free, u);
    }
  }

  lemma UnderIsObject(c: nat, i: nat)
    requires i < Total(c)
    ensures Under(c, i) <= i
  {
  }

  /** Freeing any object but object 0 of a full slab overwrites object 0, which is in use. */
  lemma FullSlabPushOverwritesObjectZero(c: nat, j: nat)
    requires c < NUM_CLASSES && 0 < j < Total(c)
    ensures Out(c, [], 0) && CellMeetsObject(c, 0, 0) && !PushHarmless(c, [], j)
  {
    CellLiesUnder(c, 0, 0);
    PushHarmlessIff(c, [], j);
  }

  // ---- Last in, first out ----

  // A slab together with the objects handed out, in the order of their allocation.
  datatype Lifo = Lifo(free: seq<nat>, out: seq<nat>)

  datatype Op = Take | Give

  // Take hands out the last free object; Give frees the object handed out last.
  function Next(s: Lifo, op: Op): Lifo {
    match op
    case Take => if s.free == [] then s else Lifo(s.free[..|s.free| - 1], s.out + [s.free[|s.free| - 1]])
    case Give => if s.out == [] then s else Lifo(s.free + [s.out[|s.out| - 1]], s.out[..|s.out| - 1])
  }

  function After(s: Lifo, ops: seq<Op>): Lifo {
    if ops == [] then s else Next(After(s, ops[..|ops| - 1]), ops[|ops| - 1])
  }

  function NewSlab(c: nat): Lifo { Lifo(seq(Total(c), i => i), []) }

  // The free list ascends from 0, and the objects handed out are the ones above it.
  ghost predicate Stacked(c: nat, s: Lifo) {
    && |s.free| + |s.out| == Total(c)
    && (forall i :: 0 <= i < |s.free| ==> s.free[i] == i)
    && (forall i :: 0 <= i < |s.out| ==> s.out[i] == Total(c) - 1 - i)
  }

  lemma {:induction false} AlwaysStacked(c: nat, ops: seq<Op>)
    ensures Stacked(c, After(NewSlab(c), ops))
  {
    if ops != [] {
      AlwaysStacked(c, ops[..|ops| - 1]);
    }
  }

  lemma StackedOut(c: nat, s: Lifo, j: nat)
    requires Stacked(c, s)
    ensures Out(c, s.free, j) <==> |s.free| <= j < Total(c)
    ensures j in s.out <==> Out(c, s.free, j)
  {
    if j < |s.free| {
      assert s.free[j] == j;
    }
    if |s.free| <= j < Total(c) {
      assert s.out[Total(c) - 1 - j] == j;
    }
  }

  /** If each slab's objects are freed in reverse allocation order, then at every moment the cells in
      use meet no object in use, and the next kfree overwrites none. */
  lemma LifoIsSafe(c: nat, ops: seq<Op>)
    requires c < NUM_CLASSES
    ensures var s := After(NewSlab(c), ops);
      && CellsApart(c, s.free)
      && (forall j: nat :: j in s.out <==> Out(c, s.free, j))
      && (s.out != [] ==> PushHarmless(c, s.free, s.out[|s.out| - 1]))
  {
    var s := After(NewSlab(c), ops);
    AlwaysStacked(c, ops);
    forall j: nat ensures (j in s.out <==> Out(c, s.free, j)) && (Out(c, s.free, j) <==> |s.free| <= j < Total(c)) {
      StackedOut(c, s, j);
    }
    forall i: nat, j: nat | i < |s.free| && Out(c, s.free, j) ensures !CellMeetsObject(c, i, j) {
      CellLiesUnder(c, i, j);
      UnderIsObject(c, i);
    }
    if s.out != [] {
      var j := s.out[|s.out| - 1];
      assert j == |s.free|;
      PushHarmlessIff(c, s.free, j);
      UnderIsObject(c, j);
      if Under(c, j) < j {
        assert s.free[Under(c, j)] == Under(c, j);
      }
    }
  }
}
