/** The mutable kernel state behind `Memory.Mem`: the frame bitmap, physical memory, the kernel
    directory and kheap_pages (kernel/memory.c:11-41, 114-171).
    The temporary window (map_tmp_page, unmap_tmp_page) is modelled as direct access to one
    frame; TLB invalidation has no state here.
 */
module Machine {
  import opened Paging
  import opened Memory
  import opened FrameBitmap

  // The least free frame, or |owner| when there is none.
  function FirstFree(owner: seq<Use>): nat { FirstFreeFrom(owner, 0) }

  function FirstFreeFrom(owner: seq<Use>, i: nat): nat
    decreases |owner| - i
  {
    if i >= |owner| || owner[i] == Free then i else FirstFreeFrom(owner, i + 1)
  }

  lemma {:induction false} FirstFreeFromIsLeast(owner: seq<Use>, i: nat)
    requires i <= |owner|
    ensures var f := FirstFreeFrom(owner, i);
      && i <= f <= |owner|
      && (f < |owner| ==> owner[f] == Free)
      && (forall g :: i <= g < f ==> owner[g] != Free)
    decreases |owner| - i
  {
    if i < |owner| && owner[i] != Free {
      FirstFreeFromIsLeast(owner, i + 1);
    }
  }

  lemma FirstFreeIsLeast(owner: seq<Use>)
    ensures var f := FirstFree(owner);
      && f <= |owner|
      && (f < |owner| ==> owner[f] == Free)
      && (forall g :: 0 <= g < f ==> owner[g] != Free)
  {
    FirstFreeFromIsLeast(owner, 0);
  }

  ghost function HeapBits(bytes: seq<nat>): (h: seq<bool>)
    ensures |h| == |bytes| && forall k :: 0 <= k < |bytes| ==> (h[k] <==> bytes[k] != 0)
  {
    seq(|bytes|, k requires 0 <= k < |bytes| => bytes[k] != 0)
  }

  class Machine {
    const bitmap: Bitmap
    const kpd: array<nat>
    const kheap: array<nat>
    var ram: seq<Page>
    ghost var owner: seq<Use>

    ghost function View(): Mem
      reads this, kpd, kheap
    {
      Mem(owner, ram, kpd[..], HeapBits(kheap[..]))
    }

    // The bitmap marks exactly the owned frames.
    ghost predicate Coherent()
      reads this, bitmap.bytes, kpd, kheap
    {
      && kpd != kheap && kpd as object != bitmap.bytes && kheap as object != bitmap.bytes
      && Shape(View())
      && bitmap.Valid() && bitmap.size == |owner|
      && forall f :: 0 <= f < |owner| ==> (bitmap.Used()[f] <==> owner[f] != Free)
    }

    ghost predicate Valid()
      reads this, bitmap.bytes, kpd, kheap
    {
      Coherent() && Inv(View())
    }

    /** State after boot: nothing mapped on the kernel heap and no user directory. */
    constructor (bitmap: Bitmap, frames: seq<Page>, directory: array<nat>, heapMap: array<nat>)
      requires bitmap.Valid() && bitmap.size == |frames| <= 0x10_0000
      requires forall f :: 0 <= f < |frames| ==> |frames[f]| == ENTRIES
      requires directory != heapMap && directory as object != bitmap.bytes && heapMap as object != bitmap.bytes
      requires directory.Length == ENTRIES && heapMap.Length == KHEAP_PAGES
      requires forall i :: KHEAP_FIRST_PDE <= i < KHEAP_LIMIT_PDE ==> directory[i] == 0
      requires forall k :: 0 <= k < KHEAP_PAGES ==> heapMap[k] == 0
      ensures Valid() && this.bitmap == bitmap && kpd == directory && kheap == heapMap && ram == frames
      ensures forall f :: 0 <= f < |owner| ==> owner[f] == if bitmap.Used()[f] then Reserved else Free
    {
      this.bitmap := bitmap;
      kpd := directory;
      kheap := heapMap;
      ram := frames;
      owner := seq(|frames|, f requires 0 <= f < |frames| && bitmap.Valid() && bitmap.size == |frames| reads bitmap.bytes =>
                     if bitmap.Used()[f] then Reserved else Free);
      new;
      assert forall u: Use :: Slot(View(), u) == 0;
      assert forall u: Use :: NamesOwn(View(), u);
      assert forall f: nat :: OwnIsNamed(View(), f);
    }

    // The loop that clears a frame through the window.
    method ClearFrame(f: nat)
      requires Coherent() && f < |ram|
      modifies this`ram
      ensures Coherent() && View() == old(View()).(ram := old(ram)[f := ZeroPage()])
    {
      for i := 0 to ENTRIES
        invariant |ram| == |old(ram)| && |ram[f]| == ENTRIES
        invariant forall g :: 0 <= g < |ram| && g != f ==> ram[g] == old(ram)[g]
        invariant forall j :: 0 <= j < i ==> ram[f][j] == 0
      {
        ram := Poke(ram, f, i, 0);
      }
      assert ram[f] == ZeroPage();
      assert ram == old(ram)[f := ZeroPage()];
    }

    /** pmm_alloc(1) and the clearing of the new frame. */
    method TakeFrame(ghost use: Use) returns (f: nat)
      requires Coherent() && use != Free && FirstFree(owner) < |owner|
      modifies this, bitmap.bytes
      ensures Coherent() && f == FirstFree(old(owner))
      ensures View() == old(View()).(owner := old(owner)[f := use], ram := old(ram)[f := ZeroPage()])
    {
      ghost var first := FirstFree(owner);
      FirstFreeIsLeast(owner);
      assert FreeRun(bitmap.Used(), first, 1);
      f := bitmap.Alloc(1);
      assert f == first by {
        assert !old(bitmap.Used())[f];
      }
      owner := owner[f := use];
      ClearFrame(f);
    }

    /** pmm_free of one frame. */
    method GiveFrame(f: nat)
      requires Coherent() && f < |owner|
      modifies this`owner, bitmap.bytes
      ensures Coherent() && View() == old(View()).(owner := old(owner)[f := Free])
    {
      bitmap.Free(f, 1);
      owner := owner[f := Free];
    }

    /** One word stored through the window. */
    method Store(f: nat, j: nat, w: nat)
      requires Coherent()
      modifies this`ram
      ensures Coherent() && View() == old(View()).(ram := Poke(old(ram), f, j, w))
    {
      ram := Poke(ram, f, j, w);
    }
  }
}
