/** The physical frame allocator (kernel/memory.c:54-61, 136-171; kernel/include/memory.h:27-29).
    The simple form is a sequence of booleans, one per frame; the class keeps the
    kernel's byte-packed array and is proved against it.
 */
module FrameBitmap {

  // ---- The simple form ----

  ghost predicate FreeRun(used: seq<bool>, start: nat, n: nat) {
    start + n <= |used| && forall k :: start <= k < start + n ==> !used[k]
  }

  ghost predicate HasRun(used: seq<bool>, n: nat) {
    exists start: nat :: FreeRun(used, start, n)
  }

  ghost predicate Leftmost(used: seq<bool>, start: nat, n: nat) {
    && FreeRun(used, start, n)
    && forall t: nat :: t < start ==> !FreeRun(used, t, n)
  }

  ghost function Mark(used: seq<bool>, start: nat, n: nat, bit: bool): (r: seq<bool>)
    requires start + n <= |used|
    ensures |r| == |used|
    ensures forall k :: 0 <= k < |used| ==> r[k] == if start <= k < start + n then bit else used[k]
  {
    used[..start] + seq(n, _ => bit) + used[start + n..]
  }

  lemma MarkOne(used: seq<bool>, start: nat, bit: bool)
    requires start < |used|
    ensures Mark(used, start, 1, bit) == used[start := bit]
  {
  }

  lemma MarkSnoc(used: seq<bool>, start: nat, n: nat, bit: bool)
    requires start + n < |used|
    ensures Mark(used, start, n + 1, bit) == Mark(used, start, n, bit)[start + n := bit]
  {
  }

  // ---- Byte-packed bits ----

  function BitSet(byte: bv8, k: nat): bv8
    requires k < 8
  {
    byte | (1 << k)
  }

  function BitClear(byte: bv8, k: nat): bv8
    requires k < 8
  {
    byte & !(1 << k)
  }

  function BitGet(byte: bv8, k: nat): bv8
    requires k < 8
  {
    (byte >> k) & 1
  }

  /** Setting one bit of a byte changes that bit and no other. */
  lemma SetLaw(byte: bv8, k: nat, j: nat)
    requires k < 8 && j < 8
    ensures BitGet(BitSet(byte, k), j) == if j == k then 1 else BitGet(byte, j)
  {
    if k == 0 {
    } else if k == 1 {
    } else if k == 2 {
    } else if k == 3 {
    } else if k == 4 {
    } else if k == 5 {
    } else if k == 6 {
    } else {
    }
  }

  /** Clearing one bit of a byte changes that bit and no other. */
  lemma ClearLaw(byte: bv8, k: nat, j: nat)
    requires k < 8 && j < 8
    ensures BitGet(BitClear(byte, k), j) == if j == k then 0 else BitGet(byte, j)
  {
    if k == 0 {
    } else if k == 1 {
    } else if k == 2 {
    } else if k == 3 {
    } else if k == 4 {
    } else if k == 5 {
    } else if k == 6 {
    } else {
    }
  }

  class Bitmap {
    const bytes: array<bv8>
    const size: nat

    ghost predicate Valid() {
      size <= 8 * bytes.Length
    }

    ghost function Used(): (u: seq<bool>)
      requires Valid()
      reads bytes
      ensures |u| == size
    {
      seq(size, i requires 0 <= i < size reads bytes => BitGet(bytes[i / 8], i % 8) == 1)
    }

    /** Wraps the memory at `storage`, whatever it holds, and clears its first `n` bits. */
    constructor (storage: array<bv8>, n: nat)
      requires n <= 8 * storage.Length
      modifies storage
      ensures Valid() && bytes == storage && size == n
      ensures forall k :: 0 <= k < n ==> !Used()[k]
    {
      bytes := storage;
      size := n;
      new;
      for i := 0 to n
        invariant forall k :: 0 <= k < i ==> !Used()[k]
      {
        Clear(i);
      }
    }

    method Set(i: nat)
      requires Valid() && i < size
      modifies bytes
      ensures Used() == old(Used())[i := true]
    {
      bytes[i / 8] := BitSet(bytes[i / 8], i % 8);
      forall k | 0 <= k < size ensures Used()[k] == old(Used())[i := true][k] {
        SetLaw(old(bytes[i / 8]), i % 8, k % 8);
      }
    }

    method Clear(i: nat)
      requires Valid() && i < size
      modifies bytes
      ensures Used() == old(Used())[i := false]
    {
      bytes[i / 8] := BitClear(bytes[i / 8], i % 8);
      forall k | 0 <= k < size ensures Used()[k] == old(Used())[i := false][k] {
        ClearLaw(old(bytes[i / 8]), i % 8, k % 8);
      }
    }

    /** set_used_bitmaps: marks `n` frames from `start`. */
    method SetUsed(start: nat, n: nat)
      requires Valid() && start + n <= size
      modifies bytes
      ensures Used() == Mark(old(Used()), start, n, true)
    {
      ghost var before := Used();
      for i := 0 to n
        invariant Used() == Mark(before, start, i, true)
      {
        MarkSnoc(before, start, i, true);
        Set(start + i);
      }
    }

    /** The scan of pmm_alloc.  It is total: it stops at `size` exactly when no free run of
        length `n` exists, and otherwise at the last frame of the leftmost such run. */
    method Scan(n: nat) returns (i: nat)
      requires Valid() && n >= 1
      ensures i <= size
      ensures i < size <==> HasRun(Used(), n)
      ensures i < size ==> n <= i + 1 && Leftmost(Used(), i - (n - 1), n)
    {
      ghost var used := Used();
      var run := 0;
      i := 0;
      while i < size
        invariant run < n && run <= i <= size
        invariant forall k :: i - run <= k < i ==> !used[k]
        invariant run < i ==> used[i - run - 1]
        invariant forall t: nat :: t + n <= i ==> !FreeRun(used, t, n)
      {
        if BitGet(bytes[i / 8], i % 8) != 0 {
          assert used[i] by { BitIsZeroOrOne(bytes[i / 8], i % 8); }
          run := 0;
        } else {
          run := run + 1;
          if run == n {
            break;
          }
        }
        i := i + 1;
      }
      if i < size {
        assert FreeRun(used, i - (n - 1), n);
        forall t: nat | t < i - (n - 1) ensures !FreeRun(used, t, n) {
        }
      }
    }

    /** pmm_alloc, in frame numbers.  `n - 1` is taken from an unsigned index, so the code
        needs n >= 1; exhaustion is not handled, so it needs a free run. */
    method Alloc(n: nat) returns (start: nat)
      requires Valid() && n >= 1 && HasRun(Used(), n)
      modifies bytes
      ensures Leftmost(old(Used()), start, n)
      ensures Used() == Mark(old(Used()), start, n, true)
    {
      var i := Scan(n);
      ghost var before := Used();
      start := i - (n - 1);
      var j := start;
      while j <= i
        invariant start <= j <= i + 1
        invariant Used() == Mark(before, start, j - start, true)
      {
        MarkSnoc(before, start, j - start, true);
        Set(j);
        j := j + 1;
      }
    }

    /** pmm_free, in frame numbers. */
    method Free(start: nat, n: nat)
      requires Valid() && start + n <= size
      modifies bytes
      ensures Used() == Mark(old(Used()), start, n, false)
    {
      ghost var before := Used();
      for i := 0 to n
        invariant Used() == Mark(before, start, i, false)
      {
        MarkSnoc(before, start, i, false);
        Clear(start + i);
      }
    }
  }

  // 2 to the power k.
  function Weight(k: nat): (w: bv8)
    requires k < 8
    ensures w != 0
  {
    match k
    case 0 => 1 case 1 => 2 case 2 => 4 case 3 => 8 case 4 => 16 case 5 => 32 case 6 => 64 case _ => 128
  }

  /** Bit k of a byte is the binary digit of weight 2^k. */
  lemma BitIsDigit(byte: bv8, k: nat)
    requires k < 8
    ensures BitGet(byte, k) == byte / Weight(k) % 2
  {
    if k == 0 {
    } else if k == 1 {
    } else if k == 2 {
    } else if k == 3 {
    } else if k == 4 {
    } else if k == 5 {
    } else if k == 6 {
    } else {
    }
  }

  lemma BitIsZeroOrOne(byte: bv8, k: nat)
    requires k < 8
    ensures BitGet(byte, k) == 0 || BitGet(byte, k) == 1
  {
  }

  // ---- Properties of the simple form ----

  /** pmm_free of a fresh allocation restores the set of free frames. */
  lemma FreeUndoesAlloc(used: seq<bool>, start: nat, n: nat)
    requires Leftmost(used, start, n)
    ensures Mark(Mark(used, start, n, true), start, n, false) == used
  {
  }

  datatype FrameEvent = AllocRun(n: nat) | FreeRange(start: nat, n: nat)

  // The bitmap and, beside it, the frames handed out and not yet returned.
  datatype FrameState = FrameState(used: seq<bool>, out: set<nat>)

  ghost predicate FrameStep(s: FrameState, e: FrameEvent, t: FrameState) {
    match e
    case AllocRun(n) =>
      exists start: nat ::
        && Leftmost(s.used, start, n)
        && t.used == Mark(s.used, start, n, true)
        && forall k :: k in t.out <==> k in s.out || start <= k < start + n
    case FreeRange(start, n) =>
      && start + n <= |s.used|
      && (forall k :: start <= k < start + n ==> k in s.out)
      && t.used == Mark(s.used, start, n, false)
      && forall k :: k in t.out <==> k in s.out && !(start <= k < start + n)
  }

  ghost predicate FrameRun(run: seq<FrameState>, events: seq<FrameEvent>) {
    && |run| == |events| + 1
    && forall i :: 0 <= i < |events| ==> FrameStep(run[i], events[i], run[i + 1])
  }

  /** In every run that frees only allocated frames, a frame is used exactly when it was used
      at the start or is handed out now, and no frame used at the start is ever handed out. */
  lemma {:induction false} ReservedFramesStay(run: seq<FrameState>, events: seq<FrameEvent>, i: nat)
    requires FrameRun(run, events) && run[0].out == {}
    requires i < |run|
    ensures |run[i].used| == |run[0].used|
    ensures forall k :: 0 <= k < |run[i].used| ==> (run[i].used[k] <==> run[0].used[k] || k in run[i].out)
    ensures forall k :: k in run[i].out ==> 0 <= k < |run[0].used| && !run[0].used[k]
  {
    if i > 0 {
      ReservedFramesStay(run, events, i - 1);
      assert FrameStep(run[i - 1], events[i - 1], run[i]);
    }
  }
}
