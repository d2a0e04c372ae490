/** `partition_format` and `mount_partition` of `src/fs/fs.c`: the volume that every run of operations
    starts from. */
module FsFormat {
  import opened Bytes
  import opened Bitmaps
  import opened Partitions
  import opened Images
  import opened BlockMap
  import opened InodeTable
  import opened DirMap
  import opened FsState
  import opened FsCreate
  import opened FsMkDir

  // ---- The layout ----

  /** Boot sector, super block, inode bit map and inode table. */
  const META_SECTS: nat := 2 + 1 + TABLE_SECTS

  function CeilDiv(x: nat, y: nat): nat
    requires y > 0
  {
    (x + y - 1) / y
  }

  /** The first guess at the size of the block bit map, the number of data blocks that it leaves, and the
      size that is used. */
  function GuessSects(secCnt: nat): nat
    requires secCnt > META_SECTS
  {
    CeilDiv(secCnt - META_SECTS, 4096)
  }

  function BitLen(secCnt: nat): nat
    requires secCnt > META_SECTS
  {
    secCnt - META_SECTS - GuessSects(secCnt)
  }

  function BitmapSects(secCnt: nat): nat
    requires secCnt > META_SECTS
  {
    CeilDiv(BitLen(secCnt), 4096)
  }

  function TableLba(startLba: nat, secCnt: nat): nat
    requires secCnt > META_SECTS
  {
    startLba + 2 + BitmapSects(secCnt) + 1
  }

  function DataLba(startLba: nat, secCnt: nat): nat
    requires secCnt > META_SECTS
  {
    TableLba(startLba, secCnt) + TABLE_SECTS
  }

  const SUPER_BLOCK_MAGIC: u32 := 0x1959_0318

  /** The fields of the super block. */
  function SuperWords(startLba: nat, secCnt: nat): (w: seq<u32>)
    requires secCnt > META_SECTS && startLba + secCnt < 0x1000_0000
    ensures |w| == 13
  {
    LayoutFits(startLba, secCnt);
    [SUPER_BLOCK_MAGIC, secCnt, MAX_FILES_PER_PART, startLba,
     startLba + 2, BitmapSects(secCnt), startLba + 2 + BitmapSects(secCnt), 1,
     TableLba(startLba, secCnt), TABLE_SECTS, DataLba(startLba, secCnt), 0, ENTRY_SIZE]
  }

  /** The super block on the disk; `pad` are its 460 unused bytes. */
  function SuperBlock(startLba: nat, secCnt: nat, pad: seq<byte>): Sector
    requires secCnt > META_SECTS && startLba + secCnt < 0x1000_0000 && |pad| == 460
  {
    BytesOf(SuperWords(startLba, secCnt)) + pad
  }

  /** The super block tells the layout. */
  ghost predicate HasSuperBlock(disk: seq<Sector>, startLba: nat, secCnt: nat)
    requires secCnt > META_SECTS && startLba + secCnt < 0x1000_0000
  {
    startLba + 1 < |disk| && Words(disk[startLba + 1])[..13] == SuperWords(startLba, secCnt)
  }

  lemma SuperBlockRead(startLba: nat, secCnt: nat, pad: seq<byte>)
    requires secCnt > META_SECTS && startLba + secCnt < 0x1000_0000 && |pad| == 460
    ensures Words(SuperBlock(startLba, secCnt, pad))[..13] == SuperWords(startLba, secCnt)
  {
    var ws := SuperWords(startLba, secCnt);
    forall i | 0 <= i < 13
      ensures Words(SuperBlock(startLba, secCnt, pad))[i] == ws[i]
    {
      WordsBefore(ws, pad, i);
    }
  }

  /** Where the fields of `struct super_block` lie. */
  lemma SuperBlockLayout(startLba: nat, secCnt: nat, pad: seq<byte>)
    requires secCnt > META_SECTS && startLba + secCnt < 0x1000_0000 && |pad| == 460
    ensures var s := SuperBlock(startLba, secCnt, pad);
            && WordAt(s, 0) == SUPER_BLOCK_MAGIC && WordAt(s, 4) == secCnt && WordAt(s, 8) == 4096
            && WordAt(s, 12) == startLba
            && WordAt(s, 16) == startLba + 2 && WordAt(s, 20) == BitmapSects(secCnt)
            && WordAt(s, 24) == WordAt(s, 16) + WordAt(s, 20) && WordAt(s, 28) == 1
            && WordAt(s, 32) == WordAt(s, 24) + 1 && WordAt(s, 36) == 864
            && WordAt(s, 40) == WordAt(s, 32) + 864 && WordAt(s, 44) == 0 && WordAt(s, 48) == 24
  {
    hide WordAt, Words, BytesOf, BitmapSects;
    var ws, s := SuperWords(startLba, secCnt), SuperBlock(startLba, secCnt, pad);
    forall i: nat | i < 13
      ensures WordAt(s, 4 * i) == ws[i]
    {
      WordsBefore(ws, pad, i);
      WordsAt(s, i);
    }
    assert WordAt(s, 4 * 0) == ws[0] && WordAt(s, 4 * 1) == ws[1] && WordAt(s, 4 * 2) == ws[2];
    assert WordAt(s, 4 * 3) == ws[3] && WordAt(s, 4 * 4) == ws[4] && WordAt(s, 4 * 5) == ws[5];
    assert WordAt(s, 4 * 6) == ws[6] && WordAt(s, 4 * 7) == ws[7] && WordAt(s, 4 * 8) == ws[8];
    assert WordAt(s, 4 * 9) == ws[9] && WordAt(s, 4 * 10) == ws[10] && WordAt(s, 4 * 11) == ws[11];
    assert WordAt(s, 4 * 12) == ws[12];
  }

  lemma LayoutFits(startLba: nat, secCnt: nat)
    requires secCnt > META_SECTS
    ensures BitmapSects(secCnt) <= GuessSects(secCnt) && GuessSects(secCnt) <= secCnt - META_SECTS
    ensures DataLba(startLba, secCnt) + BitLen(secCnt) + GuessSects(secCnt) == startLba + secCnt + BitmapSects(secCnt)
    ensures BitLen(secCnt) <= 4096 * BitmapSects(secCnt) < BitLen(secCnt) + 4096
    ensures BitmapSects(secCnt) == GuessSects(secCnt) ==> BitLen(secCnt) < 4096 * BitmapSects(secCnt)
  {
    assert GuessSects(secCnt) >= 1;
    assert BitLen(secCnt) + GuessSects(secCnt) <= 4096 * GuessSects(secCnt);
  }

  // ---- The block bit map ----

  /** Bit `i` of the block bit map of a new volume: the root directory has the first block, unless the
      byte of bit 0 is also the one where the map ends, and bit `bitLen` is clear, too. */
  predicate NewBit(bitLen: nat, i: nat) {
    i > bitLen || (i == 0 && bitLen >= 8)
  }

  /** The bit map ends within the buffer, which holds the larger of the bit map and the inode table. */
  predicate FitsFormatBuffer(secCnt: nat)
    requires secCnt > META_SECTS
  {
    BitLen(secCnt) / 4096 < BitmapSects(secCnt) || BitLen(secCnt) / 4096 < TABLE_SECTS
  }

  /** The block bit map, built in a buffer of `sects` sectors. */
  method FormatBits(bitLen: nat, sects: nat) returns (buf: array<bv8>)
    requires bitLen / 4096 < sects
    ensures fresh(buf) && buf.Length == 512 * sects
    ensures forall i {:trigger BitAt(buf[..], i)} :: 0 <= i < 4096 * (bitLen / 4096 + 1) ==>
              BitAt(buf[..], i) == NewBit(bitLen, i)
    ensures forall k :: 512 * (bitLen / 4096 + 1) <= k < buf.Length ==> buf[k] == 0
  {
    buf := new bv8[512 * sects](i => 0);
    buf[0] := buf[0] | 0x01;
    var last := bitLen / 8;
    var end := last + (512 - last % 512);
    assert end == 512 * (bitLen / 4096 + 1);
    forall k | last <= k < end {
      buf[k] := 0xff;
    }
    ghost var was := buf[..];
    var bit := 0;
    while bit <= bitLen % 8
      invariant bit <= bitLen % 8 + 1
      invariant forall k :: 0 <= k < buf.Length && k != last ==> buf[k] == was[k]
      invariant forall j :: 0 <= j < 8 ==> BitOf(buf[last], j) == (j >= bit)
    {
      var byte := buf[last] & !Mask(bit);
      forall j | 0 <= j < 8
        ensures BitOf(byte, j) == (j >= bit + 1)
      {
        ClearMask(buf[last], bit, j);
      }
      buf[last] := byte;
      bit := bit + 1;
    }
    forall i | 0 <= i < 4096 * (bitLen / 4096 + 1)
      ensures BitAt(buf[..], i) == NewBit(bitLen, i)
    {
      var k := i / 8;
      if k == last {
        assert BitAt(buf[..], i) == BitOf(buf[last], i % 8);
      } else {
        assert buf[..][k] == was[k];
        ByteIs(was[k], i % 8);
      }
    }
  }

  lemma ByteIs(b: bv8, j: nat)
    requires j < 8
    ensures b == 0xff ==> BitOf(b, j)
    ensures b == 0 ==> !BitOf(b, j)
    ensures b == 1 ==> (BitOf(b, j) <==> j == 0)
  {
  }

  // ---- The disk ----

  /** The inode of the root directory. */
  function RootInode(ds: u32, ctime: u64, mtime: u64, atime: u64): (i: Inode)
    ensures |i.sectors| == 13
  {
    Inode(0, 2 * ENTRY_SIZE, 0, ctime, mtime, atime, 4, 0, false, Zeros(13)[0 := ds])
  }

  const FIRST_BIT: Sector := [1] + ZeroBytes(511)

  /** What `partition_format` leaves on the disk: `bytes` are those of the block bit map. */
  ghost predicate Formatted(disk: seq<Sector>, startLba: nat, secCnt: nat, bytes: seq<bv8>, root: Inode)
    requires secCnt > META_SECTS && startLba + secCnt < 0x1000_0000 && |root.sectors| == 13
  {
    var sects, tableLba, ds := BitmapSects(secCnt), TableLba(startLba, secCnt), DataLba(startLba, secCnt);
    && startLba + secCnt <= |disk| && ds < |disk|
    && HasSuperBlock(disk, startLba, secCnt)
    && 512 * sects <= |bytes|
    && (forall i {:trigger BitAt(bytes, i)} :: 0 <= i < 4096 * sects ==> BitAt(bytes, i) == NewBit(BitLen(secCnt), i))
    && (forall k :: 0 <= k < sects ==> disk[startLba + 2 + k] == BitSector(bytes, k))
    && disk[tableLba - 1] == FIRST_BIT
    && Record(disk, tableLba, 0) == Encode(root)
    && disk[ds] == DotSector(0, 0)
  }

  /** The inode table with the root directory as its only record. */
  function NewTable(root: Inode): (t: seq<Sector>)
    requires |root.sectors| == 13
    ensures |t| == TABLE_SECTS
  {
    [FirstSector(root)] + seq<Sector>(TABLE_SECTS - 1, _ => ZERO_SECTOR)
  }

  function FirstSector(root: Inode): Sector
    requires |root.sectors| == 13
  {
    Splice(ZERO_SECTOR, 0, Encode(root))
  }

  /** The first `sects` sectors of a buffer. */
  function MapSectors(bytes: seq<bv8>, sects: nat): (t: seq<Sector>)
    requires 512 * sects <= |bytes|
    ensures |t| == sects && forall k :: 0 <= k < sects ==> t[k] == BitSector(bytes, k)
  {
    seq<Sector>(sects, k requires 0 <= k < sects => BitSector(bytes, k))
  }

  /** `partition_format`; `pad` is what the unused bytes of the super block happen to hold. */
  method PartitionFormat(disk: seq<Sector>, startLba: nat, secCnt: nat, pad: seq<byte>, ctime: u64, mtime: u64,
                         atime: u64)
    returns (disk': seq<Sector>, ghost bytes: seq<bv8>)
    requires secCnt > META_SECTS && startLba + secCnt <= |disk| <= startLba + secCnt + 1
             && startLba + secCnt < 0x1000_0000
    requires DataLba(startLba, secCnt) < startLba + secCnt && |pad| == 460 && FitsFormatBuffer(secCnt)
    ensures Formatted(disk', startLba, secCnt, bytes, RootInode(DataLba(startLba, secCnt), ctime, mtime, atime))
    ensures |disk'| == |disk|
    ensures forall k :: 0 <= k < |disk| && !(startLba < k <= DataLba(startLba, secCnt)) ==> disk'[k] == disk[k]
  {
    hide Formatted, NewBit, FirstSector, DotSector, SuperWords, Words;
    LayoutFits(startLba, secCnt);
    var sects, tableLba, ds := BitmapSects(secCnt), TableLba(startLba, secCnt), DataLba(startLba, secCnt);
    var buf := FormatBits(BitLen(secCnt), if sects >= TABLE_SECTS then sects else TABLE_SECTS);
    bytes := buf[..];
    var root := RootInode(ds, ctime, mtime, atime);
    var sectors := MapSectors(buf[..], sects);
    var sb := SuperBlock(startLba, secCnt, pad);
    disk' := disk[startLba + 1 := sb];
    disk' := Splice(disk', startLba + 2, sectors);
    disk' := disk'[startLba + 2 + sects := FIRST_BIT];
    disk' := Splice(disk', tableLba, NewTable(root));
    disk' := disk'[ds := DotSector(0, 0)];
    assert disk' == Written(disk, startLba + 1, sb, sectors, NewTable(root), DotSector(0, 0));
    SuperBlockRead(startLba, secCnt, pad);
    WrittenIsFormatted(disk, startLba, secCnt, sb, bytes, root);
  }

  /** The five writes of `partition_format`. */
  function Written(disk: seq<Sector>, a: nat, sb: Sector, bits: seq<Sector>, table: seq<Sector>,
                   data: Sector): (d: seq<Sector>)
    requires a + 1 + |bits| + 1 + |table| < |disk|
    ensures |d| == |disk|
  {
    var lba := a + 2 + |bits|;
    Splice(Splice(disk[a := sb], a + 1, bits)[lba - 1 := FIRST_BIT], lba, table)[lba + |table| := data]
  }

  /** They do not overlap. */
  lemma WrittenParts(disk: seq<Sector>, a: nat, sb: Sector, bits: seq<Sector>, table: seq<Sector>, data: Sector)
    requires a + 1 + |bits| + 1 + |table| < |disk| && |table| > 0
    ensures var lba, d := a + 2 + |bits|, Written(disk, a, sb, bits, table, data);
            && (forall k :: 0 <= k < |bits| ==> d[a + 1 + k] == bits[k])
            && d[a] == sb && d[lba - 1] == FIRST_BIT && d[lba] == table[0] && d[lba + |table|] == data
            && (forall k :: 0 <= k < |disk| && !(a <= k <= lba + |table|) ==> d[k] == disk[k])
  {
  }

  lemma WrittenIsFormatted(disk: seq<Sector>, startLba: nat, secCnt: nat, sb: Sector, bytes: seq<bv8>, root: Inode)
    requires secCnt > META_SECTS && |root.sectors| == 13
    requires startLba + secCnt <= |disk| && DataLba(startLba, secCnt) < |disk| && 512 * BitmapSects(secCnt) <= |bytes|
    requires startLba + secCnt < 0x1000_0000 && Words(sb)[..13] == SuperWords(startLba, secCnt)
    requires forall i {:trigger BitAt(bytes, i)} :: 0 <= i < 4096 * BitmapSects(secCnt) ==>
               BitAt(bytes, i) == NewBit(BitLen(secCnt), i)
    ensures var d := Written(disk, startLba + 1, sb, MapSectors(bytes, BitmapSects(secCnt)), NewTable(root),
                             DotSector(0, 0));
            && Formatted(d, startLba, secCnt, bytes, root)
            && (forall k :: 0 <= k < |disk| && !(startLba < k <= DataLba(startLba, secCnt)) ==> d[k] == disk[k])
  {
    hide NewBit, BitSector, DotSector, FirstSector, GuessSects, BitmapSects, BitLen, Written, SuperWords, Words;
    var bits := MapSectors(bytes, BitmapSects(secCnt));
    var d := Written(disk, startLba + 1, sb, bits, NewTable(root), DotSector(0, 0));
    WrittenParts(disk, startLba + 1, sb, bits, NewTable(root), DotSector(0, 0));
    FirstRecord(d, TableLba(startLba, secCnt), root);
    forall k | 0 <= k < |bits|
      ensures d[startLba + 2 + k] == BitSector(bytes, k)
    {
      assert d[startLba + 1 + 1 + k] == bits[k];
    }
  }

  lemma FirstRecord(disk: seq<Sector>, lba: nat, root: Inode)
    requires HasTable(disk, lba) && |root.sectors| == 13 && disk[lba] == FirstSector(root)
    ensures Record(disk, lba, 0) == Encode(root)
  {
    forall j | 0 <= j < INODE_SIZE
      ensures Record(disk, lba, 0)[j] == Encode(root)[j]
    {
      assert Record(disk, lba, 0)[j] == TableByte(disk, lba, j) == disk[lba][j];
    }
  }

  // ---- Mounting ----

  /** The bytes of `sects` sectors. */
  function BytesAt(disk: seq<Sector>, lba: nat, sects: nat): (b: seq<bv8>)
    requires lba + sects <= |disk|
    ensures |b| == 512 * sects
  {
    seq<bv8>(512 * sects, i requires 0 <= i < 512 * sects => disk[lba + i / 512][i % 512] as bv8)
  }

  lemma BytesRead(disk: seq<Sector>, lba: nat, sects: nat, i: nat)
    requires lba + sects <= |disk| && i < 4096 * sects
    ensures BitAt(BytesAt(disk, lba, sects), i) == DiskBit(disk, lba, i)
  {
    var j := i / 8;
    assert j / 512 == i / 4096 && j % 512 == i / 8 % 512;
    assert BytesAt(disk, lba, sects)[j] == disk[lba + j / 512][j % 512] as bv8;
  }

  /** The bits of a partition that was mounted are those on its disk. */
  lemma MountedIsOnDisk(g: Image)
    requires HasMaps(g) && MapLba(g) + |g.bits| / 4096 <= |g.disk|
    requires Represents(g.bits, BytesAt(g.disk, MapLba(g), |g.bits| / 4096))
    requires Represents(g.ibits, BytesAt(g.disk, g.lba - 1, 1))
    ensures OnDiskBut(g, {})
  {
    hide DiskBit, BytesAt, BitAt;
    forall i | 0 <= i < |g.bits|
      ensures Saved(g, i)
    {
      BytesRead(g.disk, MapLba(g), |g.bits| / 4096, i);
    }
    forall no | 0 <= no < MAX_FILES_PER_PART
      ensures InodeSaved(g, no)
    {
      BytesRead(g.disk, g.lba - 1, 1, no);
    }
  }

  lemma MountedMaps(part: Partition, startLba: nat, secCnt: nat)
    requires secCnt > META_SECTS && part.Geometry() && part.blockBitmap.Valid() && part.inodeBitmap.Valid()
    requires part.blockBitmap.bytesLen == 512 * BitmapSects(secCnt) && part.startLba == startLba
    requires part.startLba + part.secCnt <= |part.disk| && part.inodeTableLba == TableLba(startLba, secCnt)
    requires Represents(part.Bits(), BytesAt(part.disk, startLba + 2, BitmapSects(secCnt)))
    requires Represents(part.InodeBits(), BytesAt(part.disk, TableLba(startLba, secCnt) - 1, 1))
    ensures OnDiskBut(Snap(part), {}) && |part.Bits()| == 4096 * BitmapSects(secCnt)
  {
    hide Represents, BytesAt, BitmapSects;
    MountedIsOnDisk(Snap(part));
  }

  /** Two partitions with the same disk, both of which are on it, have the same bits. */
  lemma SameOnDisk(g: Image, g': Image, late: set<nat>)
    requires OnDiskBut(g, late) && OnDiskBut(g', {})
    requires g'.disk == g.disk && g'.lba == g.lba && g'.ds == g.ds && |g'.bits| == |g.bits|
    ensures g'.ibits == g.ibits
    ensures forall i :: 0 <= i < |g.bits| && g.ds + i !in late ==> g'.bits[i] == g.bits[i]
    ensures late == {} ==> g'.bits == g.bits
  {
    hide DiskBit;
    assert MapLba(g') == MapLba(g);
    forall i | 0 <= i < |g.bits| && g.ds + i !in late
      ensures g'.bits[i] == g.bits[i]
    {
      assert Saved(g, i) && g.ds + i !in {} && Saved(g', i);
    }
    forall no | 0 <= no < MAX_FILES_PER_PART
      ensures g'.ibits[no] == g.ibits[no]
    {
      assert InodeSaved(g, no) && InodeSaved(g', no);
    }
  }

  /** `mount_partition`, for a partition whose super block is one of `partition_format`. */
  method MountPartition(disk: seq<Sector>, startLba: nat, secCnt: nat, behind: bv8) returns (part: Partition)
    requires secCnt > META_SECTS && startLba + secCnt <= |disk| <= startLba + secCnt + 1
             && startLba + secCnt < 0x1000_0000
    requires DataLba(startLba, secCnt) < startLba + secCnt && BitLen(secCnt) > 0
    requires HasSuperBlock(disk, startLba, secCnt)
    ensures fresh(part) && fresh(part.blockBitmap) && fresh(part.blockBitmap.bits)
    ensures fresh(part.inodeBitmap) && fresh(part.inodeBitmap.bits)
    ensures part.Geometry() && part.blockBitmap.Valid() && part.inodeBitmap.Valid()
    ensures part.disk == disk && part.diskSects == |disk| && part.open == map[] && part.startLba == startLba
            && part.secCnt == secCnt
    ensures part.inodeTableLba == TableLba(startLba, secCnt) && part.dataStartLba == DataLba(startLba, secCnt)
    ensures Represents(part.Bits(), BytesAt(disk, startLba + 2, BitmapSects(secCnt)))
    ensures Represents(part.InodeBits(), BytesAt(disk, TableLba(startLba, secCnt) - 1, 1))
    ensures OnDiskBut(Snap(part), {}) && |part.Bits()| == 4096 * BitmapSects(secCnt)
  {
    LayoutFits(startLba, secCnt);
    var sb := Words(disk[startLba + 1])[..13];
    assert sb == SuperWords(startLba, secCnt);
    hide Words, HasSuperBlock, GuessSects, BitLen, Represents, BytesAt, OnDiskBut;
    var blockBitmap := new Bitmap(512 * sb[5], behind);
    blockBitmap.Load(BytesAt(disk, sb[4], sb[5]));
    var inodeBitmap := new Bitmap(512 * sb[7], behind);
    inodeBitmap.Load(BytesAt(disk, sb[6], sb[7]));
    part := new Partition(startLba, secCnt, sb[4], sb[6], sb[8], sb[10], blockBitmap, inodeBitmap, disk);
    MountedMaps(part, startLba, secCnt);
  }

  // ---- The first volume ----

  const ONLY_ROOT: map<u32, Kind> := map[0 := DirKind(0, 0)]

  /** A bit behind bit `BitLen` stands for a sector of the disk. */
  predicate TailReaches(startLba: nat, secCnt: nat, total: nat)
    requires secCnt > META_SECTS
  {
    BitLen(secCnt) + 1 < 4096 * BitmapSects(secCnt) && DataLba(startLba, secCnt) + BitLen(secCnt) + 1 < total
  }

  /** The bits of a new volume. */
  ghost predicate NewBits(g: Image, startLba: nat, secCnt: nat)
    requires secCnt > META_SECTS
  {
    && g.ds == DataLba(startLba, secCnt) < |g.disk| && startLba + secCnt <= |g.disk| <= startLba + secCnt + 1
    && |g.bits| == 4096 * BitmapSects(secCnt)
    && forall i :: 0 <= i < |g.bits| ==> g.bits[i] == NewBit(BitLen(secCnt), i)
  }

  /** The root directory of a new volume. */
  ghost predicate NewRoot(g: Image) {
    && Geometry(g) && g.ds < |g.disk| && g.ds < 0x1_0000_0000
    && I(g, 0).no == 0 && I(g, 0).openCnts == 0 && !I(g, 0).writeDeny
    && I(g, 0).size == 2 * ENTRY_SIZE && I(g, 0).sectors == Zeros(13)[0 := g.ds] && g.disk[g.ds] == DotSector(0, 0)
  }

  lemma RootShape(g: Image)
    requires NewRoot(g)
    ensures ShapeOK(g, 0, DirKind(0, 0)) && IsBlankDir(FlatI(g, 0), 0, 0)
    ensures forall k :: 0 <= k < SLOTS ==> SlotsI(g, 0)[k] == if k == 0 then g.ds else 0
  {
    hide DirShape, IsBlankDir, Slots, Flat, Loaded, DotSector;
    NewDirIsGood(I(g, 0).sectors, g.disk, 0, 0, g.ds);
  }

  lemma OneSlot(slots: seq<u32>, blk: u32, bits: seq<bool>, limit: nat)
    requires |slots| == SLOTS && forall k :: 0 <= k < SLOTS ==> slots[k] == if k == 0 then blk else 0
    requires 0 < blk < limit
    ensures BlocksOf(slots) == {blk}
    ensures Owns(slots, bits, blk, limit) <==> |bits| > 0 && bits[0]
  {
    assert slots[0] == blk;
  }

  lemma RootNames(g: Image)
    requires NewRoot(g) && IsBlankDir(FlatI(g, 0), 0, 0)
    ensures NamesOK(g, ONLY_ROOT) && RootOK(g)
  {
    hide Flat, Loaded;
    assert forall d, p: nat, c :: !ChildOf(g, ONLY_ROOT, d, p, c);
  }

  /** A new volume is consistent, with the root directory as its only inode, iff its bit map is long enough
      to keep the bit of the root block and short enough for the disk. */
  lemma NewVolume(g: Image, startLba: nat, secCnt: nat)
    requires secCnt > META_SECTS && NewBits(g, startLba, secCnt) && NewRoot(g) && g.open == map[]
    requires |g.ibits| == MAX_FILES_PER_PART && forall i :: 0 <= i < |g.ibits| ==> g.ibits[i] == (i == 0)
    ensures Consistent(g, ONLY_ROOT) <==> BitLen(secCnt) >= 8 && !TailReaches(startLba, secCnt, |g.disk|)
  {
    hide Slots, Flat, Loaded, DirShape, FileShape, IsBlankDir, Owns, NamesOK, TailReaches, NewBit, BitsOwned, RootOK,
         BitLen;
    RootShape(g);
    RootNames(g);
    OneSlot(SlotsI(g, 0), g.ds, g.bits, |g.disk|);
    NewBitsOwned(g, startLba, secCnt);
    FirstBitSet(g, startLba, secCnt);
    assert StoreOK(g, ONLY_ROOT, {}) <==> InodeOK(g, 0, DirKind(0, 0)) && BitsOwned(g, ONLY_ROOT, {});
  }

  lemma FirstBitSet(g: Image, startLba: nat, secCnt: nat)
    requires secCnt > META_SECTS && NewBits(g, startLba, secCnt)
    ensures |g.bits| > 0 && g.bits[0] <==> BitLen(secCnt) >= 8
  {
    LayoutFits(startLba, secCnt);
  }

  lemma NewBitsOwned(g: Image, startLba: nat, secCnt: nat)
    requires secCnt > META_SECTS && NewBits(g, startLba, secCnt) && Geometry(g) && Blk(g, 0) == {g.ds}
    ensures BitsOwned(g, ONLY_ROOT, {}) <==> !TailReaches(startLba, secCnt, |g.disk|)
  {
    LayoutFits(startLba, secCnt);
    hide Blk, Geometry;
    var n := BitLen(secCnt);
    if TailReaches(startLba, secCnt, |g.disk|) {
      assert g.bits[n + 1];
      assert g.ds + n + 1 < |g.disk|;
      assert !Owned(g, ONLY_ROOT, g.ds + n + 1);
    } else {
      forall i | 0 <= i < |g.bits| && g.bits[i] && g.ds + i < |g.disk|
        ensures Owned(g, ONLY_ROOT, g.ds + i)
      {
        assert i == 0;
        assert g.ds in Blk(g, 0);
      }
    }
  }

  /** All clear bits of a new volume stand for sectors below `total`, the end of the partition or one more,
      iff the bit map has become shorter than the first guess or it is one more: `partition_format` clears
      one bit too many. */
  lemma FreeBitsInsideIff(g: Image, startLba: nat, secCnt: nat, total: nat)
    requires secCnt > META_SECTS && NewBits(g, startLba, secCnt) && startLba + secCnt <= total <= startLba + secCnt + 1
    ensures (forall i :: 0 <= i < |g.bits| && !g.bits[i] ==> g.ds + i < total)
            <==> BitmapSects(secCnt) < GuessSects(secCnt) || total == startLba + secCnt + 1
    ensures BitmapSects(secCnt) == GuessSects(secCnt) ==>
              BitLen(secCnt) < |g.bits| && !g.bits[BitLen(secCnt)] && g.ds + BitLen(secCnt) == startLba + secCnt
  {
    LayoutFits(startLba, secCnt);
    hide GuessSects, BitmapSects, Geometry;
    var n := BitLen(secCnt);
    forall i | 0 <= i < |g.bits| && !g.bits[i]
      ensures i <= n
    {
      assert !NewBit(n, i);
    }
    if BitmapSects(secCnt) == GuessSects(secCnt) {
      assert !NewBit(n, n);
      assert !g.bits[n];
    }
  }

  /** The bytes that were written are read again. */
  lemma ReadBits(disk: seq<Sector>, lba: nat, bytes: seq<bv8>, sects: nat, i: nat)
    requires lba + sects <= |disk| && 512 * sects <= |bytes| && i < 4096 * sects
    requires forall k :: 0 <= k < sects ==> disk[lba + k] == BitSector(bytes, k)
    ensures BitAt(BytesAt(disk, lba, sects), i) == BitAt(bytes, i)
  {
    var j := i / 8;
    assert disk[lba + j / 512] == BitSector(bytes, j / 512);
    assert BytesAt(disk, lba, sects)[j] == bytes[j];
  }

  lemma ReadFirstBit(disk: seq<Sector>, lba: nat, i: nat)
    requires lba < |disk| && disk[lba] == FIRST_BIT && i < 4096
    ensures BitAt(BytesAt(disk, lba, 1), i) == (i == 0)
  {
    var b := BytesAt(disk, lba, 1)[i / 8];
    ByteIs(b, i % 8);
  }

  /** A partition is formatted and mounted. The result is a consistent volume with the root directory as
      its only inode, and its free bits stand for blocks of the partition, each iff the sizes allow. */
  method FormatAndMount(disk: seq<Sector>, startLba: nat, secCnt: nat, pad: seq<byte>, behind: bv8,
                        ctime: u64, mtime: u64, atime: u64) returns (part: Partition)
    requires secCnt > META_SECTS && startLba + secCnt <= |disk| <= startLba + secCnt + 1
             && startLba + secCnt < 0x1000_0000
    requires DataLba(startLba, secCnt) < startLba + secCnt && 0 < BitLen(secCnt)
    requires |pad| == 460 && FitsFormatBuffer(secCnt)
    ensures fresh(part.blockBitmap) && fresh(part.blockBitmap.bits)
    ensures fresh(part.inodeBitmap) && fresh(part.inodeBitmap.bits)
    ensures fresh(part) && part.Geometry() && part.open == map[] && |part.disk| == |disk|
    ensures forall k :: 0 <= k < |disk| && !(startLba < k <= part.dataStartLba) ==> part.disk[k] == disk[k]
    ensures NewBits(Snap(part), startLba, secCnt) && NewRoot(Snap(part))
    ensures Consistent(Snap(part), ONLY_ROOT) <==> BitLen(secCnt) >= 8 && !TailReaches(startLba, secCnt, |disk|)
    ensures part.Valid() <==> BitmapSects(secCnt) < GuessSects(secCnt) || |disk| == startLba + secCnt + 1
    ensures HasSuperBlock(part.disk, startLba, secCnt) && part.startLba == startLba && part.secCnt == secCnt
    ensures OnDiskBut(Snap(part), {}) && MapLba(Snap(part)) == startLba + 2
    ensures part.inodeTableLba == TableLba(startLba, secCnt) && |part.Bits()| == 4096 * BitmapSects(secCnt)
  {
    hide OnDiskBut;
    var disk', bytes := PartitionFormat(disk, startLba, secCnt, pad, ctime, mtime, atime);
    part := MountPartition(disk', startLba, secCnt, behind);
    ghost var g := Snap(part);
    MountedBits(g, startLba, secCnt, bytes, RootInode(g.ds, ctime, mtime, atime));
    hide Consistent, NewRoot, NewBits, TailReaches, GuessSects, BitLen, DotSector, Formatted, RootInode, Represents;
    NewVolume(g, startLba, secCnt);
    FreeBitsInsideIff(g, startLba, secCnt, |disk|);
  }

  lemma MountedBits(g: Image, startLba: nat, secCnt: nat, bytes: seq<bv8>, root: Inode)
    requires secCnt > META_SECTS && Geometry(g) && g.lba == TableLba(startLba, secCnt)
             && g.ds == DataLba(startLba, secCnt)
    requires startLba + secCnt < 0x1000_0000
    requires g.ds < 0x1_0000_0000 && |g.disk| <= startLba + secCnt + 1
    requires exists c, m, a :: root == RootInode(g.ds, c, m, a)
    requires Formatted(g.disk, startLba, secCnt, bytes, root)
    requires Represents(g.bits, BytesAt(g.disk, startLba + 2, BitmapSects(secCnt)))
    requires Represents(g.ibits, BytesAt(g.disk, g.lba - 1, 1))
    ensures NewBits(g, startLba, secCnt) && NewRoot(g)
    ensures |g.ibits| == MAX_FILES_PER_PART && forall i :: 0 <= i < |g.ibits| ==> g.ibits[i] == (i == 0)
  {
    hide BitmapSects, BitLen, GuessSects, NewBit, Record, DotSector, BitAt, BitSector, BytesAt, HasSuperBlock;
    forall i | 0 <= i < |g.bits|
      ensures g.bits[i] == NewBit(BitLen(secCnt), i)
    {
      ReadBits(g.disk, startLba + 2, bytes, BitmapSects(secCnt), i);
    }
    forall i | 0 <= i < |g.ibits|
      ensures g.ibits[i] == (i == 0)
    {
      ReadFirstBit(g.disk, g.lba - 1, i);
    }
    DecodeEncode(root);
  }
}
