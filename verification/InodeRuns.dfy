/** Runs of the inode store: every file reads back its own latest bytes
    (kernel/filesystem/fs.c:62-146). */
module InodeRuns {
  import opened FrameBitmap
  import opened InodeModel
  import opened InodeLemmas

  // What was last written under an inode number.
  datatype File = File(inode: Inode, data: seq<bv8>)

  // Alloc is alloc_inode_num; Write is write_inode_data followed by write_inode.  `stale` is what
  // the inode's sector array held before.
  datatype Event = Alloc | Write(num: nat, kind: nat, sectors: nat, stale: seq<nat>, data: seq<bv8>)

  datatype Store = Store(disk: Disk, files: map<nat, File>, taken: set<nat>)

  ghost predicate FileOk(d: Disk, num: nat, f: File)
    requires IsDisk(d)
  {
    && num < INODES && IsInode(f.inode) && ReadInode(d, num) == f.inode
    && f.inode.sectors <= MAX_SECTORS && f.inode.size == |f.data| <= SECTOR * f.inode.sectors
    && (forall i :: 0 <= i < f.inode.sectors ==> Holds(d, f, i))
  }

  // Sector i of the file is marked and holds the i-th piece of the data.
  ghost predicate Holds(d: Disk, f: File, i: nat)
    requires IsDisk(d) && i < |f.inode.sector|
  {
    f.inode.sector[i] < BITS && Used(d, DBMAP)[f.inode.sector[i]] && Data(d, f.inode.sector[i]) == Chunk(f.data, i)
  }

  ghost predicate Owns(f: File, k: nat) {
    exists i :: 0 <= i < f.inode.sectors && i < |f.inode.sector| && f.inode.sector[i] == k
  }

  ghost predicate FilesApart(files: map<nat, File>) {
    forall a, b, k :: a in files && b in files && a != b && Owns(files[a], k) ==> !Owns(files[b], k)
  }

  ghost predicate Inv(s: Store) {
    && IsDisk(s.disk) && FilesApart(s.files)
    && (forall num :: num in s.files ==> FileOk(s.disk, num, s.files[num]))
    && (forall num :: num in s.taken ==> num < BITS && Used(s.disk, IBMAP)[num])
  }

  ghost predicate Enabled(d: Disk, e: Event)
    requires IsDisk(d)
  {
    e.Write? ==>
      && e.num < INODES && e.sectors <= MAX_SECTORS && |e.data| <= SECTOR * e.sectors
      && IsInode(Inode(e.kind, |e.data|, e.sectors, e.stale))
      && e.sectors <= Clear(Used(d, DBMAP), 0)
  }

  // The disk after the event, and the inode number or the inode it produced.
  ghost function AllocDisk(d: Disk): Disk
    requires IsDisk(d)
  {
    var k := FirstClear(Used(d, IBMAP), 0);
    if k < BITS then SetBit(d, IBMAP, k) else d
  }

  ghost function Written(d: Disk, e: Event): (Disk, Inode)
    requires IsDisk(d) && e.Write? && Enabled(d, e)
  {
    var (d1, n) := WriteData(d, Inode(e.kind, |e.data|, e.sectors, e.stale), e.data);
    (WriteInode(d1, n, e.num), n)
  }

  ghost function Step(s: Store, e: Event): Store
    requires IsDisk(s.disk) && Enabled(s.disk, e)
  {
    match e
    case Alloc =>
      var k := FirstClear(Used(s.disk, IBMAP), 0);
      Store(AllocDisk(s.disk), s.files, if k < BITS then s.taken + {k} else s.taken)
    case Write(num, _, _, _, data) =>
      var (d, n) := Written(s.disk, e);
      Store(d, s.files[num := File(n, data)], s.taken)
  }

  /** Allocating an inode number hands out the first one whose bit is clear, sets that bit and
      nothing else; a number is never handed out twice. */
  lemma AllocEffect(s: Store)
    requires Inv(s)
    ensures var k, r := FirstClear(Used(s.disk, IBMAP), 0), AllocDisk(s.disk);
      && IsDisk(r)
      && (k < BITS ==> k !in s.taken && Used(r, IBMAP) == Used(s.disk, IBMAP)[k := true])
      && (k == BITS ==> r == s.disk)
      && (forall lba :: 0 <= lba < |r| && !(IBMAP <= lba < DBMAP) ==> r[lba] == s.disk[lba])
  {
    var k := FirstClear(Used(s.disk, IBMAP), 0);
    hide SetBit, Used;
    if k < BITS {
      SetBitUsed(s.disk, IBMAP, k);
    }
  }

  // A file none of whose sectors changed is as it was.
  lemma FileElsewhere(d: Disk, r: Disk, num: nat, f: File)
    requires IsDisk(d) && IsDisk(r) && FileOk(d, num, f)
    requires ReadInode(r, num) == ReadInode(d, num)
    requires forall k: nat :: k < BITS && Used(d, DBMAP)[k] ==> Used(r, DBMAP)[k]
    requires forall k: nat :: k < BITS && Used(d, DBMAP)[k] ==> Data(r, k) == Data(d, k)
    ensures FileOk(r, num, f)
  {
    hide Used, ReadInode, Chunk;
    forall i | 0 <= i < f.inode.sectors ensures Holds(r, f, i) {
      assert Holds(d, f, i);
    }
  }

  // r is d after a write that picked these sectors and filled in inode n.
  ghost predicate Changed(d: Disk, e: Event, r: Disk, n: Inode, picks: seq<nat>)
    requires IsDisk(d) && e.Write?
  {
    && IsDisk(r) && IsInode(n) && |picks| == e.sectors <= MAX_SECTORS == |e.stale|
    && n == Inode(e.kind, |e.data|, e.sectors, picks + e.stale[e.sectors..])
    && (forall lba :: 0 <= lba < DATA_OFFSET && !(DBMAP <= lba < IBLOCK_OFFSET) && lba != InodeLba(e.num) ==> r[lba] == d[lba])
    && e.num < INODES && ReadInode(r, e.num) == n
    && (forall other: nat :: other < INODES && other != e.num ==> ReadInode(r, other) == ReadInode(d, other))
    && Used(r, IBMAP) == Used(d, IBMAP)
    && (forall i :: 0 <= i < |picks| ==> picks[i] < BITS && !Used(d, DBMAP)[picks[i]])
    && (forall k: nat :: k < BITS ==> Used(r, DBMAP)[k] == (Used(d, DBMAP)[k] || k in picks))
    && (forall k: nat :: k < BITS && k !in picks ==> Data(r, k) == Data(d, k))
    && (forall c :: 0 <= c < |picks| ==> Data(r, picks[c]) == Chunk(e.data, c))
  }

  /** What one write of a file changes: the bits and sectors it picked, all clear before, and its own
      inode slot.  No other slot, no marked data sector and no inode bitmap bit changes. */
  lemma WriteEffect(d: Disk, e: Event)
    requires IsDisk(d) && e.Write? && Enabled(d, e)
    ensures Changed(d, e, Written(d, e).0, Written(d, e).1, Picks(Used(d, DBMAP), 0, e.sectors))
  {
    var picks := Picks(Used(d, DBMAP), 0, e.sectors);
    PicksCount(Used(d, DBMAP), 0, e.sectors);
    var n := SetSectors(Inode(e.kind, |e.data|, e.sectors, e.stale), picks);
    var d2 := SetBits(PutData(d, picks, e.data), DBMAP, picks);
    assert Written(d, e) == (WriteInode(d2, n, e.num), n);
    hide Picks, Clear, Written, PutData, SetBits, Chunk, Used, WriteInode, ReadInode, DataChanged, SlotChanged, Changed;
    DataEffect(d, picks, e.sectors, e.data);
    SlotsBefore(d, d2, picks, e.data);
    FilledIn(e, picks);
    SlotEffect(d2, n, e.num);
    BothChanged(d, e, d2, WriteInode(d2, n, e.num), n, picks);
  }

  lemma FilledIn(e: Event, picks: seq<nat>)
    requires e.Write? && e.sectors <= MAX_SECTORS && IsInode(Inode(e.kind, |e.data|, e.sectors, e.stale))
    requires |picks| == e.sectors && Positions(picks)
    ensures var n := SetSectors(Inode(e.kind, |e.data|, e.sectors, e.stale), picks);
      IsInode(n) && n == Inode(e.kind, |e.data|, e.sectors, picks + e.stale[e.sectors..])
  {
  }

  lemma BothChanged(d: Disk, e: Event, d2: Disk, r: Disk, n: Inode, picks: seq<nat>)
    requires IsDisk(d) && IsDisk(d2) && IsDisk(r) && e.Write? && e.num < INODES && e.sectors <= MAX_SECTORS == |e.stale|
    requires IsInode(n) && n == Inode(e.kind, |e.data|, e.sectors, picks + e.stale[e.sectors..]) && |picks| == e.sectors
    requires DataChanged(d, d2, picks, e.data) && SlotChanged(d2, r, n, e.num)
    requires forall num: nat :: num < INODES ==> ReadInode(d2, num) == ReadInode(d, num)
    requires forall i :: 0 <= i < |picks| ==> picks[i] < BITS && !Used(d, DBMAP)[picks[i]]
    ensures Changed(d, e, r, n, picks)
  {
    hide Used, ReadInode, Chunk, IsInode;
  }

  lemma SlotsBefore(d: Disk, r: Disk, picks: seq<nat>, data: seq<bv8>)
    requires IsDisk(d) && IsDisk(r) && DataChanged(d, r, picks, data)
    ensures forall num: nat :: num < INODES ==> ReadInode(r, num) == ReadInode(d, num)
  {
    forall num: nat | num < INODES ensures ReadInode(r, num) == ReadInode(d, num) {
      SameSlot(d, r, num);
    }
  }

  // Data and data bitmap.
  ghost predicate DataChanged(d: Disk, r: Disk, picks: seq<nat>, data: seq<bv8>)
    requires IsDisk(d) && IsDisk(r)
  {
    && Used(r, IBMAP) == Used(d, IBMAP) && Positions(picks)
    && (forall lba :: 0 <= lba < DATA_OFFSET && !(DBMAP <= lba < IBLOCK_OFFSET) ==> r[lba] == d[lba])
    && (forall k: nat :: k < BITS ==> Used(r, DBMAP)[k] == (Used(d, DBMAP)[k] || k in picks))
    && (forall k: nat :: k < BITS && k !in picks ==> Data(r, k) == Data(d, k))
    && (forall c :: 0 <= c < |picks| ==> Data(r, picks[c]) == Chunk(data, c))
  }

  lemma DataEffect(d: Disk, picks: seq<nat>, count: nat, data: seq<bv8>)
    requires IsDisk(d) && picks == Picks(Used(d, DBMAP), 0, count)
    ensures IsDisk(SetBits(PutData(d, picks, data), DBMAP, picks))
    ensures DataChanged(d, SetBits(PutData(d, picks, data), DBMAP, picks), picks, data)
  {
    hide Picks, PutData, SetBits, Chunk, Used, Data;
    PicksAscend(Used(d, DBMAP), 0, count);
    assert Positions(picks);
    var d1 := PutData(d, picks, data);
    PutDataAt(d, picks, data);
    UsedSame(d, d1, DBMAP);
    UsedSame(d, d1, IBMAP);
    MarkEffect(d1, picks);
  }

  // Setting bits of the data bitmap leaves everything else alone.
  lemma MarkEffect(d: Disk, picks: seq<nat>)
    requires IsDisk(d) && Positions(picks)
    ensures var r := SetBits(d, DBMAP, picks);
      && IsDisk(r) && Used(r, IBMAP) == Used(d, IBMAP)
      && (forall lba :: 0 <= lba < DATA_OFFSET && !(DBMAP <= lba < IBLOCK_OFFSET) ==> r[lba] == d[lba])
      && (forall k: nat :: k < BITS ==> Used(r, DBMAP)[k] == (Used(d, DBMAP)[k] || k in picks))
      && (forall k: nat :: k < BITS ==> Data(r, k) == Data(d, k))
  {
    hide SetBits, Used;
    SetBitsUsed(d, DBMAP, picks);
    UsedSame(d, SetBits(d, DBMAP, picks), IBMAP);
  }

  // The inode table.
  ghost predicate SlotChanged(d: Disk, r: Disk, n: Inode, num: nat)
    requires IsDisk(d) && IsDisk(r) && num < INODES
  {
    && ReadInode(r, num) == n && (forall lba :: 0 <= lba < |d| && lba != InodeLba(num) ==> r[lba] == d[lba])
    && (forall other: nat :: other < INODES && other != num ==> ReadInode(r, other) == ReadInode(d, other))
    && Used(r, IBMAP) == Used(d, IBMAP) && Used(r, DBMAP) == Used(d, DBMAP)
    && (forall k: nat :: k < BITS ==> Data(r, k) == Data(d, k))
  }

  lemma SlotEffect(d: Disk, n: Inode, num: nat)
    requires IsDisk(d) && IsInode(n) && num < INODES
    ensures SlotChanged(d, WriteInode(d, n, num), n, num)
  {
    hide Used, WriteInode, ReadInode;
    WriteInodeReads(d, n, num, num);
    UsedSame(d, WriteInode(d, n, num), IBMAP);
    UsedSame(d, WriteInode(d, n, num), DBMAP);
    forall other | 0 <= other < INODES && other != num ensures ReadInode(WriteInode(d, n, num), other) == ReadInode(d, other) {
      WriteInodeReads(d, n, num, other);
    }
  }

  lemma SameSlot(d: Disk, r: Disk, num: nat)
    requires IsDisk(d) && IsDisk(r) && num < INODES && r[InodeLba(num)] == d[InodeLba(num)]
    ensures ReadInode(r, num) == ReadInode(d, num)
  {
  }

  lemma AllocKeeps(s: Store)
    requires Inv(s)
    ensures Inv(Step(s, Alloc))
  {
    AllocEffect(s);
    hide AllocDisk, Used, Chunk, ReadInode, FilesApart, FileOk;
    var r := AllocDisk(s.disk);
    forall num | num in s.files ensures FileOk(r, num, s.files[num]) {
      FileAfterAlloc(s.disk, r, num, s.files[num]);
    }
  }

  lemma FileAfterAlloc(d: Disk, r: Disk, num: nat, f: File)
    requires IsDisk(d) && IsDisk(r) && FileOk(d, num, f)
    requires forall lba :: 0 <= lba < |r| && !(IBMAP <= lba < DBMAP) ==> r[lba] == d[lba]
    ensures FileOk(r, num, f)
  {
    SameSlot(d, r, num);
    UsedSame(d, r, DBMAP);
    hide Used, ReadInode, Chunk;
    FileElsewhere(d, r, num, f);
  }

  lemma WriteKeeps(s: Store, e: Event)
    requires Inv(s) && e.Write? && Enabled(s.disk, e)
    ensures Inv(Step(s, e))
  {
    hide FirstClear, AllocDisk, Written, Picks, Used, FilesApart, FileOk, Changed;
    WriteEffect(s.disk, e);
    var picks := Picks(Used(s.disk, DBMAP), 0, e.sectors);
    var (r, n) := Written(s.disk, e);
    assert IsDisk(r) by { SameNumbers(s.disk, e, r, n, picks); }
    forall num | num in s.files && num != e.num ensures FileOk(r, num, s.files[num]) {
      OlderFile(s.disk, e, r, n, picks, num, s.files[num]);
    }
    NewFileOk(s.disk, e, r, n, picks);
    NewFileApart(s, e, r, n, picks);
    SameNumbers(s.disk, e, r, n, picks);
  }

  lemma SameNumbers(d: Disk, e: Event, r: Disk, n: Inode, picks: seq<nat>)
    requires IsDisk(d) && e.Write? && Changed(d, e, r, n, picks)
    ensures IsDisk(r) && Used(r, IBMAP) == Used(d, IBMAP)
  {
  }

  lemma OlderFile(d: Disk, e: Event, r: Disk, n: Inode, picks: seq<nat>, num: nat, f: File)
    requires IsDisk(d) && e.Write? && Changed(d, e, r, n, picks) && num != e.num && FileOk(d, num, f)
    ensures FileOk(r, num, f)
  {
    hide Used, ReadInode, Chunk;
    assert forall k: nat :: k < BITS && Used(d, DBMAP)[k] ==> k !in picks;
    FileElsewhere(d, r, num, f);
  }

  lemma NewFileOk(d: Disk, e: Event, r: Disk, n: Inode, picks: seq<nat>)
    requires IsDisk(d) && e.Write? && Changed(d, e, r, n, picks) && |e.data| <= SECTOR * e.sectors
    ensures FileOk(r, e.num, File(n, e.data))
  {
    hide Used, Chunk, ReadInode;
    forall i | 0 <= i < n.sectors ensures Holds(r, File(n, e.data), i) {
      assert n.sector[i] == picks[i];
    }
  }

  // A marked sector is none of the sectors a write picks.
  lemma PicksAreNew(d: Disk, e: Event, r: Disk, n: Inode, picks: seq<nat>, k: nat)
    requires IsDisk(d) && e.Write? && Changed(d, e, r, n, picks) && k < BITS && Used(d, DBMAP)[k]
    ensures !Owns(File(n, e.data), k) && Used(r, DBMAP)[k]
  {
    hide Used, Chunk, ReadInode;
    forall i | 0 <= i < n.sectors ensures n.sector[i] != k {
      assert n.sector[i] == picks[i];
    }
  }

  lemma OwnedIsMarked(d: Disk, num: nat, f: File, k: nat)
    requires IsDisk(d) && FileOk(d, num, f) && Owns(f, k)
    ensures k < BITS && Used(d, DBMAP)[k]
  {
    hide Used, Chunk, ReadInode;
    var i :| 0 <= i < f.inode.sectors && i < |f.inode.sector| && f.inode.sector[i] == k;
    assert Holds(d, f, i);
  }

  lemma NewFileApart(s: Store, e: Event, r: Disk, n: Inode, picks: seq<nat>)
    requires Inv(s) && e.Write? && Changed(s.disk, e, r, n, picks)
    ensures FilesApart(s.files[e.num := File(n, e.data)])
  {
    hide Used, Changed, FileOk, Owns;
    var files, f := s.files[e.num := File(n, e.data)], File(n, e.data);
    forall a, k | a in s.files && Owns(s.files[a], k) ensures !Owns(f, k) {
      OwnedIsMarked(s.disk, a, s.files[a], k);
      PicksAreNew(s.disk, e, r, n, picks, k);
    }
  }

  lemma StepKeeps(s: Store, e: Event)
    requires Inv(s) && Enabled(s.disk, e)
    ensures Inv(Step(s, e))
  {
    hide Inv, Step, Enabled;
    match e {
      case Alloc => AllocKeeps(s);
      case Write(_, _, _, _, _) => WriteKeeps(s, e);
    }
  }

  // Every event of the run is enabled where it happens.
  ghost predicate Runs(s: Store, events: seq<Event>)
    requires Inv(s)
    decreases events
  {
    events != [] ==> Enabled(s.disk, events[0]) && (StepKeeps(s, events[0]); Runs(Step(s, events[0]), events[1..]))
  }

  ghost function Final(s: Store, events: seq<Event>): Store
    requires Inv(s) && Runs(s, events)
    decreases events
  {
    if events == [] then s
    else
      StepKeeps(s, events[0]);
      Final(Step(s, events[0]), events[1..])
  }

  // The data last written under each number.
  ghost function Latest(events: seq<Event>, data: map<nat, seq<bv8>>): map<nat, seq<bv8>>
    decreases events
  {
    if events == [] then data
    else Latest(events[1..], if events[0].Write? then data[events[0].num := events[0].data] else data)
  }

  ghost predicate Records(s: Store, data: map<nat, seq<bv8>>) {
    s.files.Keys == data.Keys && forall num :: num in data ==> s.files[num].data == data[num]
  }

  /** File store round trip: after every run of allocations and writes, reading back the inode and
      then the data of any number written gives its latest bytes, zero padded to whole sectors. */
  lemma {:induction false} ReadsBackLatest(s: Store, events: seq<Event>, data: map<nat, seq<bv8>>, num: nat)
    requires Inv(s) && Runs(s, events) && Records(s, data) && num in Latest(events, data)
    ensures var d, bytes := Final(s, events).disk, Latest(events, data)[num];
      && IsDisk(d) && num < INODES
      && var n := ReadInode(d, num);
      && n.size == |bytes| <= SECTOR * n.sectors && n.sectors <= |n.sector|
      && (forall i :: 0 <= i < n.sectors ==> n.sector[i] < BITS)
      && ReadData(d, n, n.sectors) == Padded(bytes, n.sectors)
    decreases events
  {
    hide Inv, Enabled, FileOk, ReadInode, ReadData, Padded, Written, AllocDisk, IsDisk;
    if events == [] {
      ReadsBack(s, num);
    } else {
      var e := events[0];
      IsDiskOf(s);
      StepKeeps(s, e);
      ReadsBackLatest(Step(s, e), events[1..], if e.Write? then data[e.num := e.data] else data, num);
    }
  }

  lemma IsDiskOf(s: Store)
    requires Inv(s)
    ensures IsDisk(s.disk)
  {
  }

  lemma ReadsBack(s: Store, num: nat)
    requires Inv(s) && num in s.files
    ensures var bytes := s.files[num].data;
      && IsDisk(s.disk) && num < INODES
      && var n := ReadInode(s.disk, num);
      && n.size == |bytes| <= SECTOR * n.sectors && n.sectors <= |n.sector|
      && (forall i :: 0 <= i < n.sectors ==> n.sector[i] < BITS)
      && ReadData(s.disk, n, n.sectors) == Padded(bytes, n.sectors)
  {
    hide Used, Chunk, ReadInode, FilesApart;
    var f := s.files[num];
    assert FileOk(s.disk, num, f);
    forall i | 0 <= i < f.inode.sectors
      ensures f.inode.sector[i] < BITS && Data(s.disk, f.inode.sector[i]) == Chunk(f.data, i)
    {
      assert Holds(s.disk, f, i);
    }
    ReadDataAt(s.disk, f.inode, f.inode.sectors, f.data);
    assert Padded(f.data, f.inode.sectors)[..SECTOR * f.inode.sectors] == Padded(f.data, f.inode.sectors);
  }

  /** Over every run of enabled events every file stays stored on marked sectors of its own. */
  lemma {:induction false} RunKeeps(s: Store, events: seq<Event>)
    requires Inv(s) && Runs(s, events)
    ensures Inv(Final(s, events))
    decreases events
  {
    hide Inv, Enabled, Step;
    if events != [] {
      IsDiskOf(s);
      StepKeeps(s, events[0]);
      RunKeeps(Step(s, events[0]), events[1..]);
    }
  }

  /** Sectors are never released: the old sectors of a file that is written again stay marked and
      belong to no file. */
  lemma RewriteLeaks(s: Store, e: Event, k: nat)
    requires Inv(s) && e.Write? && Enabled(s.disk, e) && e.num in s.files && Owns(s.files[e.num], k)
    ensures var t := Step(s, e);
      && IsDisk(t.disk) && k < BITS && Used(t.disk, DBMAP)[k]
      && forall num :: num in t.files ==> !Owns(t.files[num], k)
  {
    hide Written, Picks, Used, Changed, FileOk, Owns;
    WriteEffect(s.disk, e);
    var picks := Picks(Used(s.disk, DBMAP), 0, e.sectors);
    var (r, n) := Written(s.disk, e);
    OwnedIsMarked(s.disk, e.num, s.files[e.num], k);
    SameNumbers(s.disk, e, r, n, picks);
    PicksAreNew(s.disk, e, r, n, picks, k);
  }

  ghost predicate Owned(s: Store, k: nat) {
    exists num :: num in s.files && Owns(s.files[num], k)
  }

  // Every marked data sector belongs to a file.
  ghost predicate AllOwned(s: Store)
    requires IsDisk(s.disk)
  {
    forall k: nat :: k < BITS && Used(s.disk, DBMAP)[k] ==> Owned(s, k)
  }

  // The event writes a file that has sectors already.
  ghost predicate Rewrites(s: Store, e: Event) {
    e.Write? && e.num in s.files && s.files[e.num].inode.sectors != 0
  }

  /** A write of a store without leaks leaks a sector if and only if the file had sectors before. */
  lemma WriteLeaksIff(s: Store, e: Event)
    requires Inv(s) && e.Write? && Enabled(s.disk, e) && AllOwned(s)
    ensures IsDisk(Step(s, e).disk)
    ensures AllOwned(Step(s, e)) <==> !Rewrites(s, e)
  {
    hide Written, Picks, Clear, Used, Changed, FileOk, FilesApart, Owns;
    WriteEffect(s.disk, e);
    var picks := Picks(Used(s.disk, DBMAP), 0, e.sectors);
    var (r, n) := Written(s.disk, e);
    SameNumbers(s.disk, e, r, n, picks);
    var t := Step(s, e);
    if Rewrites(s, e) {
      var k := FirstSector(s, e.num);
      RewriteLeaks(s, e, k);
      assert !Owned(t, k);
    } else {
      forall k: nat | k < BITS && Used(r, DBMAP)[k] ensures Owned(t, k) {
        MarkedByWrite(s.disk, e, r, n, picks, k);
        if Owns(File(n, e.data), k) {
          assert e.num in t.files;
        } else {
          assert Owned(s, k);
          var num :| num in s.files && Owns(s.files[num], k);
          OwnerHasSectors(s.files[num], k);
          assert num in t.files && t.files[num] == s.files[num];
        }
      }
    }
  }

  lemma OwnerHasSectors(f: File, k: nat)
    requires Owns(f, k)
    ensures f.inode.sectors != 0
  {
  }

  lemma FirstSector(s: Store, num: nat) returns (k: nat)
    requires Inv(s) && num in s.files && s.files[num].inode.sectors != 0
    ensures Owns(s.files[num], k)
  {
    hide ReadInode, Used, Holds;
    assert FileOk(s.disk, num, s.files[num]);
    k := s.files[num].inode.sector[0];
  }

  lemma MarkedByWrite(d: Disk, e: Event, r: Disk, n: Inode, picks: seq<nat>, k: nat)
    requires IsDisk(d) && e.Write? && Changed(d, e, r, n, picks) && k < BITS && Used(r, DBMAP)[k]
    ensures Used(d, DBMAP)[k] || Owns(File(n, e.data), k)
  {
    hide Used, Chunk, ReadInode;
    if k in picks {
      var i :| 0 <= i < |picks| && picks[i] == k;
      assert n.sector[i] == k;
    }
  }

  // A marked sector without an owner keeps being one.
  lemma LeakStays(s: Store, e: Event, k: nat)
    requires Inv(s) && Enabled(s.disk, e) && k < BITS && Used(s.disk, DBMAP)[k] && !Owned(s, k)
    ensures var t := Step(s, e); IsDisk(t.disk) && Used(t.disk, DBMAP)[k] && !Owned(t, k)
  {
    hide Written, Picks, Clear, Used, Changed, FileOk, FilesApart, Owns, AllocDisk, FirstClear;
    if e.Write? {
      WriteEffect(s.disk, e);
      var picks := Picks(Used(s.disk, DBMAP), 0, e.sectors);
      var (r, n) := Written(s.disk, e);
      SameNumbers(s.disk, e, r, n, picks);
      PicksAreNew(s.disk, e, r, n, picks, k);
    } else {
      AllocEffect(s);
      UsedSame(s.disk, AllocDisk(s.disk), DBMAP);
    }
  }

  ghost predicate NeverRewrites(s: Store, events: seq<Event>)
    requires Inv(s) && Runs(s, events)
    decreases events
  {
    events != [] ==> !Rewrites(s, events[0]) && (StepKeeps(s, events[0]); NeverRewrites(Step(s, events[0]), events[1..]))
  }

  lemma {:induction false} LeakStaysOverRuns(s: Store, events: seq<Event>, k: nat)
    requires Inv(s) && Runs(s, events) && k < BITS && Used(s.disk, DBMAP)[k] && !Owned(s, k)
    ensures var t := Final(s, events); IsDisk(t.disk) && Used(t.disk, DBMAP)[k] && !Owned(t, k)
    decreases events
  {
    hide Inv, Enabled, Step, Used, Owned;
    IsDiskOf(s);
    if events != [] {
      StepKeeps(s, events[0]);
      LeakStays(s, events[0], k);
      LeakStaysOverRuns(Step(s, events[0]), events[1..], k);
    }
  }

  /** The data bitmap stays exact over a run, every marked sector belonging to a file, if and only if
      the run never writes a file that has sectors already. */
  lemma {:induction false} NoLeakIffNeverRewrites(s: Store, events: seq<Event>)
    requires Inv(s) && Runs(s, events) && AllOwned(s)
    ensures IsDisk(Final(s, events).disk)
    ensures AllOwned(Final(s, events)) <==> NeverRewrites(s, events)
    decreases events
  {
    hide Inv, Enabled, Step, Used, Owned, Rewrites, AllOwned;
    IsDiskOf(s);
    if events != [] {
      var e, t := events[0], Step(s, events[0]);
      StepKeeps(s, e);
      IsDiskOf(t);
      StepLeaksIff(s, e);
      if Rewrites(s, e) {
        var k := Leak(t);
        LeakStaysOverRuns(t, events[1..], k);
        NotAllOwned(Final(s, events), k);
      } else {
        NoLeakIffNeverRewrites(t, events[1..]);
      }
    }
  }

  lemma StepLeaksIff(s: Store, e: Event)
    requires Inv(s) && Enabled(s.disk, e) && AllOwned(s)
    ensures IsDisk(Step(s, e).disk)
    ensures AllOwned(Step(s, e)) <==> !Rewrites(s, e)
  {
    if e.Write? {
      WriteLeaksIff(s, e);
    } else {
      hide AllocDisk, Used, FirstClear, FileOk, FilesApart, Owns;
      AllocEffect(s);
      UsedSame(s.disk, AllocDisk(s.disk), DBMAP);
      forall k: nat | k < BITS && Used(s.disk, DBMAP)[k] ensures Owned(Step(s, e), k) {
        assert Owned(s, k);
      }
    }
  }

  lemma Leak(s: Store) returns (k: nat)
    requires IsDisk(s.disk) && !AllOwned(s)
    ensures k < BITS && Used(s.disk, DBMAP)[k] && !Owned(s, k)
  {
    hide Used, Owned;
    k :| k < BITS && Used(s.disk, DBMAP)[k] && !Owned(s, k);
  }

  lemma NotAllOwned(s: Store, k: nat)
    requires IsDisk(s.disk) && k < BITS && Used(s.disk, DBMAP)[k] && !Owned(s, k)
    ensures !AllOwned(s)
  {
    hide Used, Owned;
  }

  // Every entry the filled-in inode uses names a sector with its piece of the data.
  ghost predicate Stored(d: Disk, n: Inode, data: seq<bv8>)
    requires IsDisk(d) && n.sectors <= |n.sector|
  {
    forall i :: 0 <= i < n.sectors ==> n.sector[i] < BITS && Data(d, n.sector[i]) == Chunk(data, i)
  }

  /** write_inode_data stores the whole file, whatever the inode's sector array held before, if and
      only if the data bitmap has as many clear bits as the file has sectors. */
  lemma StoresAllIff(d: Disk, kind: nat, size: nat, sectors: nat, data: seq<bv8>)
    requires IsDisk(d) && sectors <= MAX_SECTORS && kind < 256 && size < 0x1_0000
    ensures sectors <= Clear(Used(d, DBMAP), 0) <==>
      forall stale: seq<nat> :: IsInode(Inode(kind, size, sectors, stale)) ==>
        var r := WriteData(d, Inode(kind, size, sectors, stale), data); Stored(r.0, r.1, data)
  {
    var picks := Picks(Used(d, DBMAP), 0, sectors);
    PicksAscend(Used(d, DBMAP), 0, sectors);
    PicksCount(Used(d, DBMAP), 0, sectors);
    hide Picks, Clear, Used, Chunk, SetBits, PutData;
    PutDataAt(d, picks, data);
    SetBitsUsed(PutData(d, picks, data), DBMAP, picks);
    if |picks| == sectors {
      forall stale: seq<nat> | IsInode(Inode(kind, size, sectors, stale))
        ensures var r := WriteData(d, Inode(kind, size, sectors, stale), data); Stored(r.0, r.1, data)
      {
      }
    } else {
      var stale: seq<nat> := seq(MAX_SECTORS, _ => BITS);
      var n := Inode(kind, size, sectors, stale);
      assert IsInode(n);
      assert WriteData(d, n, data).1.sector[|picks|] == BITS;
      assert !Stored(WriteData(d, n, data).0, WriteData(d, n, data).1, data);
    }
  }

  /** From number 320 on, writing an inode overwrites 64 bytes of a data sector. */
  lemma LateInodeOverwritesData(d: Disk, n: Inode, num: nat)
    requires IsDisk(d) && IsInode(n) && num >= INODES && InodeLba(num) < |d|
    ensures InodeLba(num) == DATA_OFFSET + (num - INODES) / 8
    ensures WriteInode(d, n, num)[DATA_OFFSET + (num - INODES) / 8][InodeAt(num)..InodeAt(num) + INODE_SIZE] == Encode(n)
  {
    hide Encode;
    SpliceAt(d[InodeLba(num)], InodeAt(num), Encode(n), 0, 0);
  }
}
