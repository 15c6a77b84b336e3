/** The inode store over a block device (kernel/filesystem/fs.c:40-146).
    The device is its sectors; disk_read and disk_write copy whole sectors between it and byte
    buffers.
 */
module FileStore {
  import opened FrameBitmap
  import opened InodeModel
  import opened InodeLemmas
  import opened InodeRuns

  // The disk after eight sectors were overwritten with these bytes.
  ghost function PutBitmap(d: Disk, base: nat, bytes: seq<bv8>, n: nat): (r: Disk)
    requires IsDisk(d) && base + n <= |d| && n <= BITMAP_SECTORS && |bytes| == BITS / 8
    ensures IsDisk(r)
  {
    seq(|d|, lba requires 0 <= lba < |d| =>
      if base <= lba < base + n then bytes[SECTOR * (lba - base)..SECTOR * (lba - base + 1)] else d[lba])
  }

  // Writing back the bytes of a bitmap makes its sectors those of r.
  lemma PutBitmapIs(d: Disk, r: Disk, base: nat)
    requires IsDisk(d) && IsDisk(r) && base + BITMAP_SECTORS <= |d|
    requires forall lba :: 0 <= lba < |d| && !(base <= lba < base + BITMAP_SECTORS) ==> r[lba] == d[lba]
    ensures PutBitmap(d, base, BitmapBytes(r, base), BITMAP_SECTORS) == r
  {
    var p, bytes := PutBitmap(d, base, BitmapBytes(r, base), BITMAP_SECTORS), BitmapBytes(r, base);
    forall lba | 0 <= lba < |d| ensures p[lba] == r[lba] {
      if base <= lba < base + BITMAP_SECTORS {
        forall i | 0 <= i < SECTOR ensures p[lba][i] == r[lba][i] {
          var b := SECTOR * (lba - base) + i;
          assert b / SECTOR == lba - base && b % SECTOR == i;
          assert bytes[b] == ByteAt(r, base, b);
        }
      }
    }
  }

  // Setting bits looks at no sector but those of the bitmap.
  lemma {:induction false} SetBitsOf(d: Disk, r: Disk, base: nat, ks: seq<nat>)
    requires IsDisk(d) && IsDisk(r) && base + BITMAP_SECTORS <= |d| && Positions(ks)
    requires forall lba :: base <= lba < base + BITMAP_SECTORS ==> r[lba] == d[lba]
    ensures forall lba :: base <= lba < base + BITMAP_SECTORS ==> SetBits(r, base, ks)[lba] == SetBits(d, base, ks)[lba]
    ensures BitmapBytes(SetBits(r, base, ks), base) == BitmapBytes(SetBits(d, base, ks), base)
  {
    if ks != [] {
      SetBitsOf(d, r, base, ks[..|ks| - 1]);
    }
    hide SetBits;
    UsedSame(SetBits(d, base, ks), SetBits(r, base, ks), base);
  }

  // One more bit.
  lemma NextBit(d: Disk, base: nat, ks: seq<nat>, k: nat)
    requires IsDisk(d) && base + BITMAP_SECTORS <= |d| && Positions(ks) && k < BITS
    ensures Positions(ks + [k])
    ensures var s := SetBits(d, base, ks);
      && SetBits(d, base, ks + [k]) == SetBit(s, base, k)
      && BitmapBytes(SetBits(d, base, ks + [k]), base) == BitmapBytes(s, base)[k / 8 := BitSet(ByteAt(s, base, k / 8), k % 8)]
  {
    assert (ks + [k])[..|ks|] == ks;
    SetBitUsed(SetBits(d, base, ks), base, k);
  }

  // The bit the scan is looking at.
  lemma BitAt(d: Disk, base: nat, i: nat, j: nat)
    requires IsDisk(d) && base + BITMAP_SECTORS <= |d| && i < BITS / 8 && j < 8
    ensures (8 * i + j) / 8 == i && (8 * i + j) % 8 == j
    ensures Used(d, base)[8 * i + j] <==> BitGet(BitmapBytes(d, base)[i], j) != 0
  {
    BitIsZeroOrOne(BitmapBytes(d, base)[i], j);
    hide BitGet;
  }

  // Where the scan of write_inode_data is after k bits.
  ghost predicate Scanned(d: Disk, inode: Inode, data: seq<bv8>, k: nat, picks: seq<nat>, disk: Disk, n: Inode, bmap: seq<bv8>)
    requires IsDisk(d)
  {
    && k <= BITS && Positions(picks) && |picks| <= inode.sectors <= MAX_SECTORS == |inode.sector|
    && (forall i :: 0 <= i < |picks| ==> picks[i] < k)
    && Picks(Used(d, DBMAP), 0, inode.sectors) == picks + Picks(Used(d, DBMAP), k, inode.sectors - |picks|)
    && disk == PutData(d, picks, data) && n == SetSectors(inode, picks)
    && bmap == BitmapBytes(SetBits(d, DBMAP, picks), DBMAP)
  }

  lemma ScanStarts(d: Disk, inode: Inode, data: seq<bv8>)
    requires IsDisk(d) && inode.sectors <= MAX_SECTORS == |inode.sector|
    ensures Scanned(d, inode, data, 0, [], d, inode, BitmapBytes(d, DBMAP))
  {
    hide Picks, Used, BitmapBytes;
  }

  // Once all sectors were picked the rest of the scan does nothing.
  lemma ScanIdles(d: Disk, inode: Inode, data: seq<bv8>, k: nat, m: nat, picks: seq<nat>, disk: Disk, n: Inode, bmap: seq<bv8>)
    requires IsDisk(d) && Scanned(d, inode, data, k, picks, disk, n, bmap) && |picks| == inode.sectors && k <= m <= BITS
    ensures Scanned(d, inode, data, m, picks, disk, n, bmap)
  {
    hide Used, BitmapBytes, SetBits, PutData;
  }

  // The bit of the buffer the scan is looking at, and a step over a bit that is set.
  lemma ScanBit(d: Disk, inode: Inode, data: seq<bv8>, i: nat, j: nat, picks: seq<nat>, disk: Disk, n: Inode, bmap: seq<bv8>)
    requires IsDisk(d) && i < BITS / 8 && j < 8
    requires Scanned(d, inode, data, 8 * i + j, picks, disk, n, bmap) && |picks| < inode.sectors
    ensures |bmap| == BITS / 8
    ensures BitGet(bmap[i], j) == 0 <==> !Used(d, DBMAP)[8 * i + j]
    ensures BitGet(bmap[i], j) != 0 ==> Scanned(d, inode, data, 8 * i + j + 1, picks, disk, n, bmap)
  {
    hide BitGet, BitmapBytes, SetBits, PutData, Used;
    SetBitsUsed(d, DBMAP, picks);
    BitAt(SetBits(d, DBMAP, picks), DBMAP, i, j);
    assert 8 * i + j !in picks;
  }

  // The scan takes a clear bit.
  lemma ScanTakes(d: Disk, inode: Inode, data: seq<bv8>, i: nat, j: nat, picks: seq<nat>, disk: Disk, n: Inode, bmap: seq<bv8>)
    requires IsDisk(d) && i < BITS / 8 && j < 8
    requires Scanned(d, inode, data, 8 * i + j, picks, disk, n, bmap) && |picks| < inode.sectors
    requires !Used(d, DBMAP)[8 * i + j] && |bmap| == BITS / 8
    ensures IsDisk(disk) && |n.sector| == MAX_SECTORS
    ensures var k: nat := 8 * i + j;
      Scanned(d, inode, data, k + 1, picks + [k], disk[DATA_OFFSET + k := Chunk(data, |picks|)],
              n.(sector := n.sector[|picks| := k]), bmap[i := BitSet(bmap[i], j)])
  {
    hide BitGet, BitSet, BitmapBytes, SetBits, SetBit, Used, Chunk, Picks, PutData;
    var k: nat := 8 * i + j;
    NextBit(d, DBMAP, picks, k);
    BitAt(d, DBMAP, i, j);
    ByteOf(SetBits(d, DBMAP, picks), DBMAP, i);
    NextPick(Used(d, DBMAP), picks, k, inode.sectors);
    NextSector(d, picks, k, data);
    assert SetSectors(inode, picks).sector[|picks| := k] == SetSectors(inode, picks + [k]).sector;
  }

  lemma NextPick(used: seq<bool>, picks: seq<nat>, k: nat, n: nat)
    requires |picks| < n && k < |used| && !used[k] && Picks(used, 0, n) == picks + Picks(used, k, n - |picks|)
    ensures Picks(used, 0, n) == picks + [k] + Picks(used, k + 1, n - |picks| - 1)
  {
    assert Picks(used, k, n - |picks|) == [k] + Picks(used, k + 1, n - |picks| - 1);
    hide Picks;
  }

  lemma NextSector(d: Disk, picks: seq<nat>, k: nat, data: seq<bv8>)
    requires IsDisk(d) && Positions(picks) && k < BITS
    ensures PutData(d, picks + [k], data) == PutData(d, picks, data)[DATA_OFFSET + k := Chunk(data, |picks|)]
  {
    assert (picks + [k])[..|picks|] == picks;
    hide Chunk;
  }

  lemma ByteOf(d: Disk, base: nat, i: nat)
    requires IsDisk(d) && base + BITMAP_SECTORS <= |d| && i < BITS / 8
    ensures BitmapBytes(d, base)[i] == ByteAt(d, base, i)
  {
  }

  // The scan is over: writing the bitmap back completes the write.
  lemma ScanEnds(d: Disk, inode: Inode, data: seq<bv8>, picks: seq<nat>, disk: Disk, n: Inode, bmap: seq<bv8>)
    requires IsDisk(d) && Scanned(d, inode, data, BITS, picks, disk, n, bmap)
    ensures IsDisk(disk) && |bmap| == BITS / 8
    ensures WriteData(d, inode, data) == (PutBitmap(disk, DBMAP, bmap, BITMAP_SECTORS), n)
  {
    hide BitmapBytes, SetBits, Used, Chunk, PutBitmap, PutData;
    PicksAscend(Used(d, DBMAP), 0, inode.sectors);
    assert picks == Picks(Used(d, DBMAP), 0, inode.sectors);
    PutDataAt(d, picks, data);
    SetBitsOf(d, disk, DBMAP, picks);
    SetBitsUsed(disk, DBMAP, picks);
    PutBitmapIs(disk, SetBits(disk, DBMAP, picks), DBMAP);
  }

  lemma PaddedChunk(data: seq<bv8>, sectors: nat, c: nat)
    requires |data| <= SECTOR * sectors && c < sectors
    ensures Padded(data, sectors)[SECTOR * c..SECTOR * c + SECTOR] == Chunk(data, c)
  {
  }

  // The scan of alloc_inode_num writes back the bitmap with one bit set.
  lemma SetBitStored(d: Disk, base: nat, i: nat, j: nat)
    requires IsDisk(d) && base + BITMAP_SECTORS <= |d| && i < BITS / 8 && j < 8
    ensures PutBitmap(d, base, BitmapBytes(d, base)[i := BitSet(BitmapBytes(d, base)[i], j)], BITMAP_SECTORS) == SetBit(d, base, 8 * i + j)
  {
    hide BitSet, SetBit, Used, PutBitmap, BitmapBytes;
    BitAt(d, base, i, j);
    ByteOf(d, base, i);
    SetBitUsed(d, base, 8 * i + j);
    PutBitmapIs(d, SetBit(d, base, 8 * i + j), base);
  }

  class Device {
    var disk: Disk

    ghost predicate Valid()
      reads this
    {
      IsDisk(disk)
    }

    // disk_read and disk_write of one sector.
    method ReadSector(lba: nat, buf: array<bv8>, at: nat)
      requires Valid() && lba < |disk| && at + SECTOR <= buf.Length
      modifies buf
      ensures buf[..] == Splice(old(buf[..]), at, disk[lba])
    {
      for i := 0 to SECTOR
        invariant forall k :: 0 <= k < i ==> buf[at + k] == disk[lba][k]
        invariant forall k :: 0 <= k < buf.Length && !(at <= k < at + i) ==> buf[k] == old(buf[k])
      {
        buf[at + i] := disk[lba][i];
      }
    }

    method WriteSector(lba: nat, buf: array<bv8>, at: nat)
      requires Valid() && lba < |disk| && at + SECTOR <= buf.Length
      modifies this
      ensures Valid() && disk == old(disk)[lba := buf[at..at + SECTOR]]
    {
      disk := disk[lba := buf[at..at + SECTOR]];
    }

    // disk_read and disk_write of the eight sectors of a bitmap.
    method ReadBitmap(base: nat, buf: array<bv8>)
      requires Valid() && base + BITMAP_SECTORS <= |disk| && buf.Length == BITS / 8
      modifies buf
      ensures buf[..] == BitmapBytes(disk, base)
    {
      for c := 0 to BITMAP_SECTORS
        invariant forall i :: 0 <= i < SECTOR * c ==> buf[i] == ByteAt(disk, base, i)
      {
        ghost var before := buf[..];
        ReadSector(base + c, buf, SECTOR * c);
        forall i | 0 <= i < SECTOR * (c + 1) ensures buf[i] == ByteAt(disk, base, i) {
          assert buf[i] == buf[..][i];
          assert i < SECTOR * c ==> before[i] == ByteAt(disk, base, i);
          assert i >= SECTOR * c ==> i / SECTOR == c && i % SECTOR == i - SECTOR * c;
        }
      }
    }

    method WriteBitmap(base: nat, buf: array<bv8>)
      requires Valid() && base + BITMAP_SECTORS <= |disk| && buf.Length == BITS / 8
      modifies this
      ensures Valid() && disk == PutBitmap(old(disk), base, buf[..], BITMAP_SECTORS)
    {
      assert disk == PutBitmap(old(disk), base, buf[..], 0);
      for c := 0 to BITMAP_SECTORS
        invariant Valid() && disk == PutBitmap(old(disk), base, buf[..], c)
      {
        WriteSector(base + c, buf, SECTOR * c);
        assert buf[SECTOR * c..SECTOR * (c + 1)] == buf[..][SECTOR * c..SECTOR * (c + 1)];
        assert disk == PutBitmap(old(disk), base, buf[..], c + 1);
      }
    }

    /** alloc_inode_num. */
    method AllocInodeNum() returns (num: int)
      requires Valid()
      modifies this
      ensures Valid() && disk == AllocDisk(old(disk))
      ensures var k := FirstClear(Used(old(disk), IBMAP), 0); num == if k < BITS then k else -1
    {
      hide IsDisk, Used, SetBit, PutBitmap, BitGet, BitSet, BitmapBytes;
      Extent(disk);
      var bmap := new bv8[4096];
      ReadBitmap(IBMAP, bmap);
      ghost var d, used := disk, Used(disk, IBMAP);
      for i := 0 to 4096
        invariant bmap[..] == BitmapBytes(d, IBMAP) && disk == d
        invariant FirstClear(used, 0) == FirstClear(used, 8 * i)
      {
        for j := 0 to 8
          invariant bmap[..] == BitmapBytes(d, IBMAP) && disk == d
          invariant FirstClear(used, 0) == FirstClear(used, 8 * i + j)
        {
          BitAt(d, IBMAP, i, j);
          assert bmap[i] == bmap[..][i];
          if BitGet(bmap[i], j) == 0 {
            SetBitStored(d, IBMAP, i, j);
            bmap[i] := BitSet(bmap[i], j);
            WriteBitmap(IBMAP, bmap);
            return 8 * i + j;
          }
        }
      }
      return -1;
    }

    // The zeroed buffer with the data at its front.
    method Pad(data: array<bv8>, size: nat, sectors: nat) returns (buffer: array<bv8>)
      requires size <= data.Length && size <= SECTOR * sectors
      ensures fresh(buffer) && buffer[..] == Padded(data[..size], sectors)
    {
      buffer := new bv8[512 * sectors](_ => 0);
      for i := 0 to size
        invariant forall k :: 0 <= k < i ==> buffer[k] == data[k]
        invariant forall k :: i <= k < buffer.Length ==> buffer[k] == 0
      {
        buffer[i] := data[i];
      }
    }

    /** write_inode_data: the inode comes back with its sector array filled in. */
    method WriteInodeData(inode: Inode, data: array<bv8>, size: nat) returns (n: Inode)
      requires Valid() && inode.sectors <= MAX_SECTORS == |inode.sector| && size <= data.Length && size <= SECTOR * inode.sectors
      modifies this
      ensures Valid() && (disk, n) == WriteData(old(disk), inode, data[..size])
    {
      hide IsDisk, Used, Scanned, PutBitmap, WriteData, BitGet, BitSet, BitmapBytes, Chunk, Padded;
      Extent(disk);
      var bmap := new bv8[4096];
      ReadBitmap(DBMAP, bmap);
      var buffer := Pad(data, size, inode.sectors);
      ghost var d, bytes := disk, data[..size];
      ghost var picks: seq<nat> := [];
      n := inode;
      var count := 0;
      ScanStarts(d, inode, bytes);
      for i := 0 to 4096
        invariant Valid() && count == |picks| <= inode.sectors && Scanned(d, inode, bytes, 8 * i, picks, disk, n, bmap[..])
        invariant buffer[..] == Padded(bytes, inode.sectors)
      {
        for j := 0 to 8
          invariant Valid() && count == |picks| <= inode.sectors && Scanned(d, inode, bytes, 8 * i + j, picks, disk, n, bmap[..])
          invariant buffer[..] == Padded(bytes, inode.sectors)
        {
          if count >= inode.sectors {
            ScanIdles(d, inode, bytes, 8 * i + j, 8 * (i + 1), picks, disk, n, bmap[..]);
            break;
          }
          ScanBit(d, inode, bytes, i, j, picks, disk, n, bmap[..]);
          if BitGet(bmap[i], j) == 0 {
            ScanTakes(d, inode, bytes, i, j, picks, disk, n, bmap[..]);
            PaddedChunk(bytes, inode.sectors, count);
            Extent(disk);
            bmap[i] := BitSet(bmap[i], j);
            var idx := i * 8 + j;
            n := n.(sector := n.sector[count := idx]);
            assert buffer[SECTOR * count..SECTOR * count + SECTOR] == buffer[..][SECTOR * count..SECTOR * count + SECTOR];
            WriteSector(DATA_OFFSET + idx, buffer, SECTOR * count);
            picks := picks + [idx];
            count := count + 1;
          }
        }
      }
      ScanEnds(d, inode, bytes, picks, disk, n, bmap[..]);
      Extent(disk);
      WriteBitmap(DBMAP, bmap);
    }

    /** read_inode_data. */
    method ReadInodeData(n: Inode) returns (buffer: array<bv8>)
      requires Valid() && n.sectors <= |n.sector| && (forall i :: 0 <= i < n.sectors ==> n.sector[i] < BITS)
      ensures fresh(buffer) && buffer[..] == ReadData(disk, n, n.sectors)
    {
      buffer := new bv8[512 * n.sectors];
      for i := 0 to n.sectors
        invariant buffer[..SECTOR * i] == ReadData(disk, n, i)
      {
        ghost var before := buffer[..];
        ReadSector(DATA_OFFSET + n.sector[i], buffer, SECTOR * i);
        assert buffer[..SECTOR * (i + 1)] == before[..SECTOR * i] + Data(disk, n.sector[i]);
      }
      assert buffer[..] == buffer[..SECTOR * n.sectors];
    }

    // Copy an inode into a sector buffer.
    method PutInode(n: Inode, buf: array<bv8>, at: nat)
      requires |n.sector| == MAX_SECTORS && at + INODE_SIZE <= buf.Length
      modifies buf
      ensures buf[..] == Splice(old(buf[..]), at, Encode(n))
    {
      hide InodeByte;
      for i := 0 to INODE_SIZE
        invariant forall k :: 0 <= k < i ==> buf[at + k] == InodeByte(n, k)
        invariant forall k :: 0 <= k < buf.Length && !(at <= k < at + i) ==> buf[k] == old(buf[k])
      {
        buf[at + i] := InodeByte(n, i);
      }
    }

    /** write_inode. */
    method WriteInode(n: Inode, num: nat)
      requires Valid() && |n.sector| == MAX_SECTORS && InodeLba(num) < |disk|
      modifies this
      ensures Valid() && disk == InodeModel.WriteInode(old(disk), n, num)
    {
      hide Encode;
      var sectorBuffer := new bv8[512];
      var lba, at := IBLOCK_OFFSET + num / 8, num % 8 * INODE_SIZE;
      ReadSector(lba, sectorBuffer, 0);
      assert sectorBuffer[..] == disk[lba];
      PutInode(n, sectorBuffer, at);
      assert sectorBuffer[0..SECTOR] == sectorBuffer[..];
      WriteSector(lba, sectorBuffer, 0);
    }

    /** read_inode. */
    method ReadInode(num: nat) returns (n: Inode)
      requires Valid() && InodeLba(num) < |disk|
      ensures n == InodeModel.ReadInode(disk, num)
    {
      var sectorBuffer := new bv8[512];
      var lba, at := IBLOCK_OFFSET + num / 8, num % 8 * INODE_SIZE;
      ReadSector(lba, sectorBuffer, 0);
      assert sectorBuffer[..] == disk[lba];
      n := Decode(sectorBuffer[at..at + INODE_SIZE]);
    }
  }

  lemma Extent(d: Disk)
    requires IsDisk(d)
    ensures |d| == DATA_OFFSET + BITS
  {
  }
}
