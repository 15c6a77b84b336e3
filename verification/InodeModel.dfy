/** The on-disk inode store as functions on the disk (kernel/filesystem/fs.c:62-146,
    kernel/include/filesystem/fs.h:8-26).
    A disk is a sequence of 512-byte sectors.  Sectors 9-16 hold the inode bitmap, 17-24 the data
    bitmap, 25-64 the inode table of eight 64-byte inodes a sector, and 65 onwards the data.
 */
module InodeModel {
  import opened FrameBitmap

  const SECTOR: nat := 512
  const IBMAP: nat := 9
  const DBMAP: nat := 17
  const BITMAP_SECTORS: nat := 8
  const BITS: nat := 32768           // bits of a bitmap of 8 sectors
  const IBLOCK_OFFSET: nat := 25
  const DATA_OFFSET: nat := 65
  const INODES: nat := 320           // inodes the table has room for
  const MAX_SECTORS: nat := 14
  const INODE_SIZE: nat := 64        // sizeof(inode_t)

  type Disk = seq<seq<bv8>>

  // Every sector the bitmaps can name exists.
  ghost predicate IsDisk(d: Disk) {
    |d| == DATA_OFFSET + BITS && forall lba :: 0 <= lba < |d| ==> |d[lba]| == SECTOR
  }

  // Data sector k.
  function Data(d: Disk, k: nat): seq<bv8>
    requires DATA_OFFSET + k < |d|
  {
    d[DATA_OFFSET + k]
  }

  // ---- Bitmaps ----

  // Byte i of the eight sectors from base on.
  function ByteAt(d: Disk, base: nat, i: nat): bv8
    requires IsDisk(d) && base + BITMAP_SECTORS <= |d| && i < BITS / 8
  {
    d[base + i / SECTOR][i % SECTOR]
  }

  ghost function BitmapBytes(d: Disk, base: nat): (s: seq<bv8>)
    requires IsDisk(d) && base + BITMAP_SECTORS <= |d|
    ensures |s| == BITS / 8
  {
    seq(BITS / 8, i requires 0 <= i < BITS / 8 => ByteAt(d, base, i))
  }

  ghost function Used(d: Disk, base: nat): (u: seq<bool>)
    requires IsDisk(d) && base + BITMAP_SECTORS <= |d|
    ensures |u| == BITS
  {
    seq(BITS, k requires 0 <= k < BITS => BitGet(ByteAt(d, base, k / 8), k % 8) == 1)
  }

  ghost function SetBit(d: Disk, base: nat, k: nat): (r: Disk)
    requires IsDisk(d) && base + BITMAP_SECTORS <= |d| && k < BITS
    ensures IsDisk(r)
  {
    var lba, i := base + k / 8 / SECTOR, k / 8 % SECTOR;
    d[lba := d[lba][i := BitSet(d[lba][i], k % 8)]]
  }

  // Positions in a bitmap.
  ghost predicate Positions(ks: seq<nat>) {
    forall i :: 0 <= i < |ks| ==> ks[i] < BITS
  }

  ghost function SetBits(d: Disk, base: nat, ks: seq<nat>): (r: Disk)
    requires IsDisk(d) && base + BITMAP_SECTORS <= |d| && Positions(ks)
    ensures IsDisk(r)
  {
    if ks == [] then d else SetBit(SetBits(d, base, ks[..|ks| - 1]), base, ks[|ks| - 1])
  }

  // ---- Inodes ----

  // inode_t: type, size, sectors and sector[14].
  datatype Inode = Inode(kind: nat, size: nat, sectors: nat, sector: seq<nat>)

  ghost predicate IsInode(n: Inode) {
    && n.kind < 256 && n.size < 0x1_0000 && n.sectors < 0x1_0000
    && |n.sector| == MAX_SECTORS && forall i :: 0 <= i < MAX_SECTORS ==> n.sector[i] < 0x1_0000_0000
  }

  function Low(v: nat): bv8 { (v % 256) as bv8 }
  function Val(b: bv8): nat { b as nat }

  // Byte i of an inode in memory, little endian; the padding at 1, 6 and 7 is written as zero.
  function InodeByte(n: Inode, i: nat): bv8
    requires |n.sector| == MAX_SECTORS && i < INODE_SIZE
  {
    if i == 0 then Low(n.kind)
    else if i == 2 then Low(n.size) else if i == 3 then Low(n.size / 256)
    else if i == 4 then Low(n.sectors) else if i == 5 then Low(n.sectors / 256)
    else if i < 8 then 0
    else
      var v := n.sector[(i - 8) / 4];
      if i % 4 == 0 then Low(v) else if i % 4 == 1 then Low(v / 0x100)
      else if i % 4 == 2 then Low(v / 0x1_0000) else Low(v / 0x100_0000)
  }

  function Encode(n: Inode): (s: seq<bv8>)
    requires |n.sector| == MAX_SECTORS
    ensures |s| == INODE_SIZE
  {
    seq(INODE_SIZE, i requires 0 <= i < INODE_SIZE => InodeByte(n, i))
  }

  function Word32(s: seq<bv8>, i: nat): nat
    requires i + 4 <= |s|
  {
    Val(s[i]) + 0x100 * Val(s[i + 1]) + 0x1_0000 * Val(s[i + 2]) + 0x100_0000 * Val(s[i + 3])
  }

  function Decode(s: seq<bv8>): Inode
    requires |s| == INODE_SIZE
  {
    Inode(Val(s[0]), Val(s[2]) + 256 * Val(s[3]), Val(s[4]) + 256 * Val(s[5]),
          seq(MAX_SECTORS, j requires 0 <= j < MAX_SECTORS => Word32(s, 8 + 4 * j)))
  }

  // The sector and the place in it where inode `num` is kept.
  function InodeLba(num: nat): nat { IBLOCK_OFFSET + num / 8 }
  function InodeAt(num: nat): (i: nat)
    ensures i + INODE_SIZE <= SECTOR
  {
    num % 8 * INODE_SIZE
  }

  function Splice(s: seq<bv8>, at: nat, part: seq<bv8>): (r: seq<bv8>)
    requires at + |part| <= |s|
    ensures |r| == |s|
  {
    s[..at] + part + s[at + |part|..]
  }

  // write_inode and read_inode.
  ghost function WriteInode(d: Disk, n: Inode, num: nat): (r: Disk)
    requires IsDisk(d) && |n.sector| == MAX_SECTORS && InodeLba(num) < |d|
    ensures IsDisk(r)
  {
    d[InodeLba(num) := Splice(d[InodeLba(num)], InodeAt(num), Encode(n))]
  }

  ghost function ReadInode(d: Disk, num: nat): Inode
    requires IsDisk(d) && InodeLba(num) < |d|
  {
    Decode(d[InodeLba(num)][InodeAt(num)..InodeAt(num) + INODE_SIZE])
  }

  // ---- Inode numbers ----

  // alloc_inode_num: the first clear bit, BITS if there is none.
  ghost function FirstClear(used: seq<bool>, from: nat): (k: nat)
    requires from <= |used|
    ensures from <= k <= |used| && (forall j :: from <= j < k ==> used[j]) && (k < |used| ==> !used[k])
    decreases |used| - from
  {
    if from == |used| || !used[from] then from else FirstClear(used, from + 1)
  }

  // ---- File data ----

  // The first n clear positions from `from` on; fewer if there are no more.
  ghost function Picks(used: seq<bool>, from: nat, n: nat): (p: seq<nat>)
    requires from <= |used|
    ensures |p| <= n && forall i :: 0 <= i < |p| ==> from <= p[i] < |used| && !used[p[i]]
    decreases |used| - from
  {
    if n == 0 || from == |used| then []
    else if used[from] then Picks(used, from + 1, n)
    else [from] + Picks(used, from + 1, n - 1)
  }

  // The clear positions from `from` on.
  ghost function Clear(used: seq<bool>, from: nat): nat
    requires from <= |used|
    decreases |used| - from
  {
    if from == |used| then 0 else (if used[from] then 0 else 1) + Clear(used, from + 1)
  }

  // Sector c of the zero-padded data.
  function Chunk(data: seq<bv8>, c: nat): (s: seq<bv8>)
    ensures |s| == SECTOR
  {
    seq(SECTOR, i requires 0 <= i < SECTOR => if c * SECTOR + i < |data| then data[c * SECTOR + i] else 0)
  }

  ghost function PutData(d: Disk, picks: seq<nat>, data: seq<bv8>): (r: Disk)
    requires IsDisk(d) && Positions(picks)
    ensures IsDisk(r)
  {
    if picks == [] then d
    else PutData(d, picks[..|picks| - 1], data)[DATA_OFFSET + picks[|picks| - 1] := Chunk(data, |picks| - 1)]
  }

  function SetSectors(n: Inode, picks: seq<nat>): Inode
    requires |picks| <= |n.sector|
  {
    n.(sector := picks + n.sector[|picks|..])
  }

  // write_inode_data: the disk and the inode it fills in.
  ghost function WriteData(d: Disk, n: Inode, data: seq<bv8>): (r: (Disk, Inode))
    requires IsDisk(d) && n.sectors <= MAX_SECTORS == |n.sector|
    ensures IsDisk(r.0)
  {
    var picks := Picks(Used(d, DBMAP), 0, n.sectors);
    (SetBits(PutData(d, picks, data), DBMAP, picks), SetSectors(n, picks))
  }

  // read_inode_data: the sectors in the order the inode lists them.
  ghost function ReadData(d: Disk, n: Inode, k: nat): seq<bv8>
    requires IsDisk(d) && k <= |n.sector| && forall i :: 0 <= i < k ==> n.sector[i] < BITS
  {
    if k == 0 then [] else ReadData(d, n, k - 1) + Data(d, n.sector[k - 1])
  }

  function Padded(data: seq<bv8>, sectors: nat): (s: seq<bv8>)
    requires |data| <= SECTOR * sectors
    ensures |s| == SECTOR * sectors
  {
    data + seq(SECTOR * sectors - |data|, _ => 0)
  }
}
