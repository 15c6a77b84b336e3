/** Bitmaps, inode slots and data sectors of the inode store, one operation at a time
    (kernel/filesystem/fs.c:62-146). */
module InodeLemmas {
  import opened FrameBitmap
  import opened InodeModel

  // ---- Bitmaps ----

  /** Setting one bit on disk sets that bit, and no other sector changes. */
  lemma SetBitUsed(d: Disk, base: nat, k: nat)
    requires IsDisk(d) && base + BITMAP_SECTORS <= |d| && k < BITS
    ensures Used(SetBit(d, base, k), base) == Used(d, base)[k := true]
    ensures BitmapBytes(SetBit(d, base, k), base) == BitmapBytes(d, base)[k / 8 := BitSet(ByteAt(d, base, k / 8), k % 8)]
    ensures forall lba :: 0 <= lba < |d| && !(base <= lba < base + BITMAP_SECTORS) ==> SetBit(d, base, k)[lba] == d[lba]
  {
    var r := SetBit(d, base, k);
    forall i | 0 <= i < BITS / 8
      ensures ByteAt(r, base, i) == if i == k / 8 then BitSet(ByteAt(d, base, i), k % 8) else ByteAt(d, base, i)
    {
      hide BitSet;
      ByteChanged(d, base, k, i);
    }
    hide SetBit, ByteAt;
    forall j | 0 <= j < BITS ensures Used(r, base)[j] == Used(d, base)[k := true][j] {
      BitChanged(ByteAt(d, base, j / 8), ByteAt(r, base, j / 8), k, j);
    }
  }

  lemma ByteChanged(d: Disk, base: nat, k: nat, i: nat)
    requires IsDisk(d) && base + BITMAP_SECTORS <= |d| && k < BITS && i < BITS / 8
    ensures ByteAt(SetBit(d, base, k), base, i) == if i == k / 8 then BitSet(ByteAt(d, base, i), k % 8) else ByteAt(d, base, i)
  {
    var b := k / 8;
    assert i / SECTOR == b / SECTOR && i % SECTOR == b % SECTOR ==> i == b;
  }

  lemma BitChanged(old_: bv8, new_: bv8, k: nat, j: nat)
    requires new_ == if j / 8 == k / 8 then BitSet(old_, k % 8) else old_
    ensures BitGet(new_, j % 8) == if j == k then 1 else BitGet(old_, j % 8)
  {
    SetLaw(old_, k % 8, j % 8);
    hide BitSet, BitGet;
  }

  /** Setting several bits sets those bits, and no other sector changes. */
  lemma {:induction false} SetBitsUsed(d: Disk, base: nat, ks: seq<nat>)
    requires IsDisk(d) && base + BITMAP_SECTORS <= |d| && Positions(ks)
    ensures forall j :: 0 <= j < BITS ==> Used(SetBits(d, base, ks), base)[j] == (Used(d, base)[j] || j in ks)
    ensures forall lba :: 0 <= lba < |d| && !(base <= lba < base + BITMAP_SECTORS) ==> SetBits(d, base, ks)[lba] == d[lba]
  {
    hide SetBit, ByteAt, Used;
    if ks != [] {
      var front, k := ks[..|ks| - 1], ks[|ks| - 1];
      assert ks == front + [k];
      SetBitsUsed(d, base, front);
      SetBitUsed(SetBits(d, base, front), base, k);
    }
  }

  // A bitmap depends on its own sectors only.
  lemma UsedSame(d: Disk, r: Disk, base: nat)
    requires IsDisk(d) && IsDisk(r) && base + BITMAP_SECTORS <= |d|
    requires forall lba :: base <= lba < base + BITMAP_SECTORS ==> r[lba] == d[lba]
    ensures Used(r, base) == Used(d, base) && BitmapBytes(r, base) == BitmapBytes(d, base)
  {
    forall i | 0 <= i < BITS / 8 ensures ByteAt(r, base, i) == ByteAt(d, base, i) {
      assert i / SECTOR < BITMAP_SECTORS;
    }
    hide ByteAt;
  }

  // ---- Picking sectors ----

  ghost predicate Ascending(s: seq<nat>) {
    forall i, j :: 0 <= i < j < |s| ==> s[i] < s[j]
  }

  /** The picks are in ascending order. */
  lemma {:induction false} PicksAscend(used: seq<bool>, from: nat, n: nat)
    requires from <= |used|
    ensures Ascending(Picks(used, from, n))
    decreases |used| - from
  {
    if n > 0 && from < |used| {
      PicksAscend(used, from + 1, if used[from] then n else n - 1);
    }
  }

  /** A write finds as many sectors as it asks for or as there are clear ones, whichever is less. */
  lemma {:induction false} PicksCount(used: seq<bool>, from: nat, n: nat)
    requires from <= |used|
    ensures |Picks(used, from, n)| == if n <= Clear(used, from) then n else Clear(used, from)
    decreases |used| - from
  {
    if n > 0 && from < |used| {
      PicksCount(used, from + 1, if used[from] then n else n - 1);
    }
  }

  /** A clear position is passed over only if n earlier ones were picked. */
  lemma {:induction false} PicksAreFirst(used: seq<bool>, from: nat, n: nat, k: nat)
    requires from <= k < |used| && !used[k]
    ensures var p := Picks(used, from, n);
      k in p || (|p| == n && forall i :: 0 <= i < n ==> p[i] < k)
    decreases |used| - from
  {
    if n > 0 && from < k {
      PicksAreFirst(used, from + 1, if used[from] then n else n - 1, k);
    }
  }

  // One step of the scan.
  lemma {:induction false} PicksFrom(used: seq<bool>, from: nat, to: nat, n: nat)
    requires from <= to <= |used|
    ensures Picks(used, from, n) == Picks(used[..to], from, n) + Picks(used, to, n - |Picks(used[..to], from, n)|)
    decreases |used| - from
  {
    if from < to && n > 0 {
      PicksFrom(used, from + 1, to, if used[from] then n else n - 1);
    }
  }

  // ---- Data sectors ----

  /** Each picked sector gets its piece of the data, and no other sector changes. */
  lemma {:induction false} PutDataAt(d: Disk, picks: seq<nat>, data: seq<bv8>)
    requires IsDisk(d) && Positions(picks) && Ascending(picks)
    ensures forall c :: 0 <= c < |picks| ==> Data(PutData(d, picks, data), picks[c]) == Chunk(data, c)
    ensures forall lba :: 0 <= lba < DATA_OFFSET ==> PutData(d, picks, data)[lba] == d[lba]
    ensures forall k: nat :: k < BITS && k !in picks ==> Data(PutData(d, picks, data), k) == Data(d, k)
  {
    hide Chunk;
    if picks != [] {
      var front := picks[..|picks| - 1];
      assert picks == front + [picks[|picks| - 1]];
      PutDataAt(d, front, data);
    }
  }

  // ---- Inodes ----

  lemma ByteVal(v: nat)
    requires v < 256
    ensures Val(Low(v)) == v
  {
  }

  lemma LowVal(v: nat)
    ensures Val(Low(v)) == v % 256
  {
    hide Val;
    assert Low(v) == Low(v % 256);
    hide Low;
    ByteVal(v % 256);
  }

  lemma Digits(v: nat)
    ensures v < 0x1_0000 ==> v == v % 256 + 256 * (v / 256 % 256)
    ensures v < 0x1_0000_0000 ==>
      v == v % 256 + 0x100 * (v / 0x100 % 256) + 0x1_0000 * (v / 0x1_0000 % 256) + 0x100_0000 * (v / 0x100_0000 % 256)
  {
    assert v / 0x1_0000 == v / 0x100 / 256 && v / 0x100_0000 == v / 0x100 / 256 / 256;
  }

  // The four bytes of sector[j] in memory.
  lemma WordBytes(n: Inode, j: nat)
    requires IsInode(n) && j < MAX_SECTORS
    ensures var s, v, i := Encode(n), n.sector[j], 8 + 4 * j;
      s[i] == Low(v) && s[i + 1] == Low(v / 0x100) && s[i + 2] == Low(v / 0x1_0000) && s[i + 3] == Low(v / 0x100_0000)
  {
    hide Low;
    var i := 8 + 4 * j;
    assert (i - 8) / 4 == j && (i + 1 - 8) / 4 == j && (i + 2 - 8) / 4 == j && (i + 3 - 8) / 4 == j;
    assert i % 4 == 0 && (i + 1) % 4 == 1 && (i + 2) % 4 == 2 && (i + 3) % 4 == 3;
  }

  lemma WordRoundTrip(n: Inode, j: nat)
    requires IsInode(n) && j < MAX_SECTORS
    ensures Word32(Encode(n), 8 + 4 * j) == n.sector[j]
  {
    hide Low, Val, InodeByte, Encode;
    var v := n.sector[j];
    WordBytes(n, j);
    LowVal(v);
    LowVal(v / 0x100);
    LowVal(v / 0x1_0000);
    LowVal(v / 0x100_0000);
    Digits(v);
  }

  /** An inode written to disk bytes is read back as it was. */
  lemma InodeRoundTrip(n: Inode)
    requires IsInode(n)
    ensures Decode(Encode(n)) == n
  {
    hide Encode, InodeByte, Word32, Low, Val;
    var s := Encode(n);
    HeadRoundTrip(n);
    forall j | 0 <= j < MAX_SECTORS ensures Word32(s, 8 + 4 * j) == n.sector[j] {
      WordRoundTrip(n, j);
    }
    var words := seq(MAX_SECTORS, j requires 0 <= j < MAX_SECTORS => Word32(s, 8 + 4 * j));
    assert words == n.sector;
    assert Decode(s).sector == words;
  }

  lemma HeadRoundTrip(n: Inode)
    requires IsInode(n)
    ensures var s := Encode(n);
      Val(s[0]) == n.kind && Val(s[2]) + 256 * Val(s[3]) == n.size && Val(s[4]) + 256 * Val(s[5]) == n.sectors
  {
    var s := Encode(n);
    assert s[0] == Low(n.kind) && s[2] == Low(n.size) && s[3] == Low(n.size / 256) && s[4] == Low(n.sectors) && s[5] == Low(n.sectors / 256);
    hide Low, Val, InodeByte, Encode;
    LowVal(n.kind);
    LowVal(n.size);
    LowVal(n.size / 256);
    LowVal(n.sectors);
    LowVal(n.sectors / 256);
    Digits(n.size);
    Digits(n.sectors);
  }

  lemma SpliceAt(s: seq<bv8>, at: nat, part: seq<bv8>, i: nat, n: nat)
    requires at + |part| <= |s| && i + n <= |s|
    ensures Splice(s, at, part)[at..at + |part|] == part
    ensures i + n <= at || at + |part| <= i ==> Splice(s, at, part)[i..i + n] == s[i..i + n]
  {
  }

  /** Writing an inode stores it in its slot, leaves every other slot as it was, and touches the one
      sector the slot is in. */
  lemma WriteInodeReads(d: Disk, n: Inode, num: nat, other: nat)
    requires IsDisk(d) && IsInode(n) && InodeLba(num) < |d| && InodeLba(other) < |d|
    ensures ReadInode(WriteInode(d, n, num), other) == if other == num then n else ReadInode(d, other)
    ensures forall lba :: 0 <= lba < |d| && lba != InodeLba(num) ==> WriteInode(d, n, num)[lba] == d[lba]
  {
    InodeRoundTrip(n);
    hide Encode, Decode, Splice;
    SpliceAt(d[InodeLba(num)], InodeAt(num), Encode(n), InodeAt(other), INODE_SIZE);
    assert other != num && InodeLba(other) == InodeLba(num) ==>
      InodeAt(other) + INODE_SIZE <= InodeAt(num) || InodeAt(num) + INODE_SIZE <= InodeAt(other);
  }

  // Byte a of the whole device.
  ghost function DeviceByte(d: Disk, a: nat): bv8
    requires IsDisk(d) && a / 512 < |d|
  {
    d[a / 512][a % 512]
  }

  /** Where things are on the device, in bytes: bit k of the inode bitmap is bit k % 8 of byte k / 8 of the
      bytes from sector 9 on, bit k of the data bitmap likewise from sector 17 on, inode num has the 64
      bytes from 25 * 512 + 64 * num on, and data sector k the 512 bytes from (65 + k) * 512 on. */
  lemma OnDisk(d: Disk, k: nat, num: nat, i: nat)
    requires IsDisk(d) && k < 32768 && num < 320
    ensures Used(d, IBMAP)[k] <==> BitGet(DeviceByte(d, 9 * 512 + k / 8), k % 8) == 1
    ensures Used(d, DBMAP)[k] <==> BitGet(DeviceByte(d, 17 * 512 + k / 8), k % 8) == 1
    ensures i < 64 ==> d[InodeLba(num)][InodeAt(num) + i] == DeviceByte(d, 25 * 512 + 64 * num + i)
    ensures i < 512 ==> Data(d, k)[i] == DeviceByte(d, (65 + k) * 512 + i)
  {
    hide BitGet;
  }

  /** The bytes of an inode: type, then at 2 the size, at 4 the number of sectors and from 8 on the
      sector numbers, each with its low byte first. */
  lemma InodeBytes(n: Inode, j: nat)
    requires IsInode(n) && j < 14
    ensures var s := Encode(n);
      && Val(s[0]) == n.kind && Val(s[2]) + 0x100 * Val(s[3]) == n.size && Val(s[4]) + 0x100 * Val(s[5]) == n.sectors
      && Val(s[8 + 4 * j]) + 0x100 * Val(s[9 + 4 * j]) + 0x1_0000 * Val(s[10 + 4 * j]) + 0x100_0000 * Val(s[11 + 4 * j]) == n.sector[j]
  {
    HeadRoundTrip(n);
    WordRoundTrip(n, j);
    hide Encode, InodeByte, Val;
  }

  /** An inode number names a slot of the inode table exactly below 320: from there on the slot lies
      in a data sector. */
  lemma SlotInTableIff(num: nat)
    ensures IBLOCK_OFFSET <= InodeLba(num)
    ensures InodeLba(num) < DATA_OFFSET <==> num < INODES
  {
  }

  // ---- Writing and reading back ----

  lemma {:induction false} ReadDataAt(d: Disk, n: Inode, k: nat, data: seq<bv8>)
    requires IsDisk(d) && k <= |n.sector| && |data| <= SECTOR * n.sectors && k <= n.sectors
    requires forall i :: 0 <= i < k ==> n.sector[i] < BITS && Data(d, n.sector[i]) == Chunk(data, i)
    ensures ReadData(d, n, k) == Padded(data, n.sectors)[..SECTOR * k]
  {
    if k > 0 {
      ReadDataAt(d, n, k - 1, data);
      var all := Padded(data, n.sectors);
      assert all[..SECTOR * k] == all[..SECTOR * (k - 1)] + all[SECTOR * (k - 1)..SECTOR * k];
      assert all[SECTOR * (k - 1)..SECTOR * k] == Chunk(data, k - 1);
    }
  }
}
