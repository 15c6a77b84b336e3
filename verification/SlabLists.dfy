/** The doubly linked slab lists, as the links stored in slab headers (kernel/memory.c:422-431,
    472-489; kernel/include/memory.h:44-68). */
module SlabLists {
  import opened Paging
  import opened SlabModel
  import opened Sequences

  const NULL: nat := 0

  datatype Owner = NoCache | Cache(cls: nat)

  // slab_t.  The free list is storage of its own; freeCount says how much of it is in use.
  datatype Header = Header(next: nat, prev: nat, owner: Owner, total: nat, freeCount: nat, freeList: seq<nat>)

  // The header at each mapped slab or large block, by address.
  type Headers = map<nat, Header>

  // The address of slab i of a list, NULL outside it.
  function At(list: seq<nat>, i: int): nat {
    if 0 <= i < |list| then PageAddr(list[i]) else NULL
  }

  // The header at address a has these links.
  ghost predicate Links(hdr: Headers, a: nat, next: nat, prev: nat) {
    a in hdr && hdr[a].next == next && hdr[a].prev == prev
  }

  ghost predicate Linked(hdr: Headers, head: nat, list: seq<nat>) {
    && head == At(list, 0)
    && (forall i :: 0 <= i < |list| ==> Links(hdr, PageAddr(list[i]), At(list, i + 1), At(list, i - 1)))
  }

  function SetNext(hdr: Headers, a: nat, to: nat): Headers
    requires a in hdr
  {
    hdr[a := hdr[a].(next := to)]
  }

  function SetPrev(hdr: Headers, a: nat, to: nat): Headers
    requires a in hdr
  {
    hdr[a := hdr[a].(prev := to)]
  }

  // Neither set of keys nor anything but links differ.
  ghost predicate OnlyLinks(hdr: Headers, r: Headers) {
    && r.Keys == hdr.Keys
    && (forall a :: a in hdr ==> r[a] == hdr[a].(next := r[a].next, prev := r[a].prev))
  }

  // The header of a slab outside the list is the same in both.
  ghost predicate SameOutside(hdr: Headers, r: Headers, list: seq<nat>) {
    forall k: nat :: k !in list && PageAddr(k) in hdr ==> PageAddr(k) in r && r[PageAddr(k)] == hdr[PageAddr(k)]
  }

  /** A list none of whose headers changed is still linked. */
  lemma LinkedElsewhere(hdr: Headers, r: Headers, head: nat, list: seq<nat>)
    requires Linked(hdr, head, list)
    requires forall k :: k in list && PageAddr(k) in hdr ==> Links(r, PageAddr(k), hdr[PageAddr(k)].next, hdr[PageAddr(k)].prev)
    ensures Linked(r, head, list)
  {
    forall i | 0 <= i < |list| ensures Links(r, PageAddr(list[i]), At(list, i + 1), At(list, i - 1)) {
      assert list[i] in list && Links(hdr, PageAddr(list[i]), At(list, i + 1), At(list, i - 1));
    }
  }

  function Without(list: seq<nat>, i: nat): seq<nat>
    requires i < |list|
  {
    list[..i] + list[i + 1..]
  }

  lemma {:induction false} WithoutIsRemove(list: seq<nat>, i: nat)
    requires i < |list| && NoDup(list)
    ensures Without(list, i) == Remove(list, list[i])
  {
    if i > 0 {
      WithoutIsRemove(list[1..], i - 1);
      assert list[0] != list[i];
      assert Without(list, i) == [list[0]] + Without(list[1..], i - 1);
    }
  }

  // The two link stores that take the slab at address a out of its list.
  function Unlink(hdr: Headers, a: nat): Headers
    requires a in hdr && (hdr[a].prev != NULL ==> hdr[a].prev in hdr) && (hdr[a].next != NULL ==> hdr[a].next in hdr)
  {
    var h1 := if hdr[a].prev != NULL then SetNext(hdr, hdr[a].prev, hdr[a].next) else hdr;
    if hdr[a].next != NULL then SetPrev(h1, hdr[a].next, hdr[a].prev) else h1
  }

  lemma Neighbours(hdr: Headers, head: nat, list: seq<nat>, i: nat)
    requires Linked(hdr, head, list) && i < |list|
    ensures var a := PageAddr(list[i]);
      && Links(hdr, a, At(list, i + 1), At(list, i - 1))
      && (hdr[a].prev != NULL ==> hdr[a].prev in hdr) && (hdr[a].next != NULL ==> hdr[a].next in hdr)
  {
    assert Links(hdr, PageAddr(list[i]), At(list, i + 1), At(list, i - 1));
    if i > 0 {
      assert Links(hdr, PageAddr(list[i - 1]), At(list, i), At(list, i - 2));
    }
    if i + 1 < |list| {
      assert Links(hdr, PageAddr(list[i + 1]), At(list, i + 2), At(list, i));
    }
  }

  // The links of every header after Unlink.
  lemma UnlinkAt(hdr: Headers, a: nat, b: nat)
    requires a in hdr && (hdr[a].prev != NULL ==> hdr[a].prev in hdr) && (hdr[a].next != NULL ==> hdr[a].next in hdr)
    requires b in hdr && b != NULL
    ensures Links(Unlink(hdr, a), b,
                  if b == hdr[a].prev then hdr[a].next else hdr[b].next,
                  if b == hdr[a].next then hdr[a].prev else hdr[b].prev)
    ensures OnlyLinks(hdr, Unlink(hdr, a))
  {
  }

  lemma WithoutAt(list: seq<nat>, i: nat, j: int)
    requires i < |list|
    ensures At(Without(list, i), j) == if j < i then At(list, j) else At(list, j + 1)
  {
  }

  lemma UnlinkNode(hdr: Headers, head: nat, list: seq<nat>, i: nat, p: nat)
    requires Linked(hdr, head, list) && NoDup(list) && i < |list| && p < |list| && p != i
    ensures var a := PageAddr(list[i]);
      && a in hdr && (hdr[a].prev != NULL ==> hdr[a].prev in hdr) && (hdr[a].next != NULL ==> hdr[a].next in hdr)
      && Links(Unlink(hdr, a), PageAddr(list[p]),
               if p == i - 1 then At(list, i + 1) else At(list, p + 1),
               if p == i + 1 then At(list, i - 1) else At(list, p - 1))
  {
    hide Unlink;
    Neighbours(hdr, head, list, i);
    var a, b := PageAddr(list[i]), PageAddr(list[p]);
    assert Links(hdr, b, At(list, p + 1), At(list, p - 1));
    UnlinkAt(hdr, a, b);
    assert i > 0 ==> (b == At(list, i - 1) <==> p == i - 1) by { SamePlace(list, p, i - 1); }
    assert i + 1 < |list| ==> (b == At(list, i + 1) <==> p == i + 1) by { SamePlace(list, p, i + 1); }
  }

  lemma SamePlace(list: seq<nat>, p: nat, q: int)
    requires NoDup(list) && p < |list|
    ensures PageAddr(list[p]) == At(list, q) <==> p == q
  {
    if 0 <= q < |list| && p != q {
      assert if p < q then list[p] != list[q] else list[q] != list[p];
    }
  }

  /** Unlinking slab i leaves the other slabs linked in order, with the head moved on if need be. */
  lemma UnlinkKeepsLinked(hdr: Headers, head: nat, list: seq<nat>, i: nat)
    requires Linked(hdr, head, list) && NoDup(list) && i < |list|
    ensures var a := PageAddr(list[i]);
      && a in hdr && (hdr[a].prev != NULL ==> hdr[a].prev in hdr) && (hdr[a].next != NULL ==> hdr[a].next in hdr)
      && Linked(Unlink(hdr, a), if head == a then hdr[a].next else head, Without(list, i))
      && OnlyLinks(hdr, Unlink(hdr, a)) && SameOutside(hdr, Unlink(hdr, a), list)
  {
    hide Links, OnlyLinks, SameOutside, Unlink, At;
    var a := PageAddr(list[i]);
    UnlinkFrame(hdr, head, list, i);
    var r := Unlink(hdr, a);
    var rest := Without(list, i);
    forall j | 0 <= j < |rest| ensures Links(r, PageAddr(rest[j]), At(rest, j + 1), At(rest, j - 1)) {
      var p := if j < i then j else j + 1;
      UnlinkNode(hdr, head, list, i, p);
      WithoutAt(list, i, j + 1);
      WithoutAt(list, i, j - 1);
      assert rest[j] == list[p];
    }
    WithoutAt(list, i, 0);
    SamePlace(list, i, 0);
  }

  lemma UnlinkFrame(hdr: Headers, head: nat, list: seq<nat>, i: nat)
    requires Linked(hdr, head, list) && i < |list|
    ensures var a := PageAddr(list[i]);
      && a in hdr && (hdr[a].prev != NULL ==> hdr[a].prev in hdr) && (hdr[a].next != NULL ==> hdr[a].next in hdr)
      && hdr[a].next == At(list, i + 1)
      && OnlyLinks(hdr, Unlink(hdr, a)) && SameOutside(hdr, Unlink(hdr, a), list)
  {
    hide Unlink, NoDup;
    Neighbours(hdr, head, list, i);
    var a := PageAddr(list[i]);
    UnlinkAt(hdr, a, a);
    forall k: nat | k !in list && PageAddr(k) in hdr ensures PageAddr(k) in Unlink(hdr, a) && Unlink(hdr, a)[PageAddr(k)] == hdr[PageAddr(k)] {
      NotAt(list, k, i - 1);
      NotAt(list, k, i + 1);
      UnlinkElsewhere(hdr, a, PageAddr(k));
    }
  }

  lemma NotAt(list: seq<nat>, k: nat, i: int)
    requires k !in list
    ensures PageAddr(k) != At(list, i)
  {
  }

  lemma UnlinkElsewhere(hdr: Headers, a: nat, b: nat)
    requires a in hdr && (hdr[a].prev != NULL ==> hdr[a].prev in hdr) && (hdr[a].next != NULL ==> hdr[a].next in hdr)
    requires b in hdr && b != hdr[a].prev && b != hdr[a].next
    ensures b in Unlink(hdr, a) && Unlink(hdr, a)[b] == hdr[b]
  {
  }

  // The stores that put the slab at address a at the front of a list.
  function PushFront(hdr: Headers, head: nat, a: nat): Headers
    requires a in hdr && (head != NULL ==> head in hdr)
  {
    var h1 := if head != NULL then SetPrev(hdr, head, a) else hdr;
    SetPrev(SetNext(h1, a, head), a, NULL)
  }

  // The links of every header after PushFront.
  lemma PushFrontAt(hdr: Headers, head: nat, a: nat, b: nat)
    requires a in hdr && (head != NULL ==> head in hdr) && head != a && b in hdr && b != NULL
    ensures Links(PushFront(hdr, head, a), b,
                  if b == a then head else hdr[b].next,
                  if b == a then NULL else if b == head then a else hdr[b].prev)
    ensures b != a && b != head ==> PushFront(hdr, head, a)[b] == hdr[b]
    ensures OnlyLinks(hdr, PushFront(hdr, head, a))
  {
  }

  /** Pushing a slab that is on no list puts it first and leaves the others linked in order. */
  lemma PushFrontLinks(hdr: Headers, head: nat, list: seq<nat>, k: nat)
    requires Linked(hdr, head, list) && NoDup(list) && k !in list && PageAddr(k) in hdr
    ensures head != NULL ==> head in hdr
    ensures var r := PushFront(hdr, head, PageAddr(k));
      Linked(r, PageAddr(k), [k] + list) && OnlyLinks(hdr, r) && SameOutside(hdr, r, [k] + list)
  {
    if list != [] {
      assert Links(hdr, PageAddr(list[0]), At(list, 1), At(list, -1));
    }
    var r, a := PushFront(hdr, head, PageAddr(k)), PageAddr(k);
    var longer := [k] + list;
    NotAt(list, k, 0);
    PushFrontAt(hdr, head, a, a);
    hide PushFront, NoDup;
    forall j | 0 <= j < |longer| ensures Links(r, PageAddr(longer[j]), At(longer, j + 1), At(longer, j - 1)) {
      if j > 0 {
        var p := j - 1;
        assert list[p] in list && Links(hdr, PageAddr(list[p]), At(list, p + 1), At(list, p - 1));
        SamePlace(list, p, 0);
        NotAt(list, k, p);
        PushFrontAt(hdr, head, a, PageAddr(list[p]));
      }
    }
    forall q: nat | q !in longer && PageAddr(q) in hdr ensures PageAddr(q) in r && r[PageAddr(q)] == hdr[PageAddr(q)] {
      NotAt(list, q, 0);
      NotAt([k], q, 0);
      PushFrontAt(hdr, head, a, PageAddr(q));
    }
  }
}
