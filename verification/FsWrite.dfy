/** `sys_write` on a volume (`src/fs/fs.c`, `src/fs/file.c`): the invariant of the whole volume, and what
    happens to the other inodes. */
module FsWrite {
  import opened Bytes
  import opened Bitmaps
  import opened Partitions
  import opened Images
  import opened BlockMap
  import opened InodeTable
  import opened FileOps
  import opened FsState
  import opened FsSteps

  /** An open file of a consistent volume is a good inode. */
  lemma OpenFileIsGood(g: Image, kinds: map<u32, Kind>, no: u32)
    requires Consistent(g, kinds) && no in g.open && no in kinds && kinds[no] == FileKind
    ensures GoodInode(g.open[no], g.disk, g.bits, g.ds)
    ensures no < 256 && I(g, no) == Pure(g.open[no])
  {
    assert InodeOK(g, no, kinds[no]);
    hide NamesOK, StoreOK, Owns, FileShape;
  }

  /** The record of inode `no` was stored. */
  lemma StoredIs(g: Image, g': Image, no: u32, i: Inode)
    requires Geometry(g') && g'.lba == g.lba && no < 256 && |i.sectors| == 13 && i.no == no
    requires TableStored(g.disk, g'.disk, g.lba, no % 256, Encode(Pure(i)))
    ensures I(g', no) == Pure(i)
    ensures forall m: nat :: m < MAX_FILES_PER_PART && m != no ==> Record(g'.disk, g.lba, m) == Record(g.disk, g.lba, m)
  {
    LoadedAfter(g'.disk, g.lba, Pure(i));
  }

  /** The open inodes still agree with their records when only inode `no`, now `i`, was changed. */
  lemma CacheAfter(g: Image, g': Image, kinds: map<u32, Kind>, no: u32, i: Inode)
    requires Geometry(g) && Geometry(g') && CacheOK(g, kinds) && no in kinds && no < MAX_FILES_PER_PART
    requires I(g', no) == Pure(i) && i.no == no && 1 <= i.openCnts < 0xffff_ffff
    requires g'.open == g.open[no := i]
    requires forall m :: m in kinds && m != no && m < MAX_FILES_PER_PART ==> I(g', m) == I(g, m)
    ensures CacheOK(g', kinds)
  {
    hide I, Geometry;
  }

  lemma AppendKeepsVolume(g: Image, g': Image, kinds: map<u32, Kind>, no: u32, buf: seq<byte>)
    requires Consistent(g, kinds) && no in g.open && no in kinds && kinds[no] == FileKind && no in g'.open
    requires |g.open[no].sectors| == 13 && g.open[no].size + |buf| < 512 * MAX_BLOCKS
    requires Appended(g.open[no], g.disk, g.bits, g'.open[no], g'.disk, g'.bits, buf, g.ds)
    requires TableStored(g.disk, g'.disk, g.lba, no % 256, Encode(Pure(g'.open[no])))
    requires g'.open == g.open[no := g'.open[no]] && g'.ibits == g.ibits && g'.lba == g.lba && g'.ds == g.ds
    ensures Consistent(g', kinds)
    ensures forall m :: m in kinds && m != no ==> m < MAX_FILES_PER_PART && Untouched(g, g', m)
    ensures I(g', no).size <= 512 * MAX_BLOCKS && I(g, no).size <= 512 * MAX_BLOCKS
    ensures ContentI(g', no) == ContentI(g, no) + buf
  {
    hide Owns, FileShape, Grew, NamesOK, Untouched, StoreOK, CacheOK, FlatI, Content, Record, Slots, BlocksOf;
    var i := g'.open[no];
    OpenFileIsGood(g, kinds, no);
    CacheEntry(g, kinds, no);
    StoredIs(g, g', no, i);
    assert SlotsI(g', no) == Slots(i.sectors, g'.disk);
    assert SlotsI(g, no) == Slots(g.open[no].sectors, g.disk);
    SizesSame(SlotsI(g, no), g.bits, SlotsI(g', no), g'.bits, g.ds, |g'.disk|);
    assert RestKept(g, g', no, Blk(g', no));
    GrowStep(g, g', kinds, no, {}, Blk(g', no));
    forall m | m in kinds && m != no
      ensures m < MAX_FILES_PER_PART && I(g', m) == I(g, m) && FlatI(g', m) == FlatI(g, m)
    {
      UntouchedParts(g, g', m);
    }
    CacheAfter(g, g', kinds, no, i);
    NamesKept(g, g', kinds);
    FileSize(g.open[no], g.disk);
    FileSize(i, g'.disk);
  }

  lemma FileSize(i: Inode, disk: seq<Sector>)
    requires |i.sectors| == 13 && FileShape(i.sectors, i.size, disk)
    ensures i.size <= 512 * MAX_BLOCKS
  {
  }

  lemma CacheEntry(g: Image, kinds: map<u32, Kind>, no: u32)
    requires Geometry(g) && CacheOK(g, kinds) && no in g.open && no < MAX_FILES_PER_PART
    ensures no in kinds && 1 <= g.open[no].openCnts < 0xffff_ffff && I(g, no) == Pure(g.open[no]) && I(g, no).no == no
  {
  }

  lemma UntouchedParts(g: Image, g': Image, m: u32)
    requires Geometry(g) && Geometry(g') && m < MAX_FILES_PER_PART && Untouched(g, g', m)
    ensures I(g', m) == I(g, m) && FlatI(g', m) == FlatI(g, m)
  {
  }

  lemma SizesSame(slots: seq<u32>, bits: seq<bool>, slots': seq<u32>, bits': seq<bool>, ds: nat, limit: nat)
    requires Grew(slots, bits, slots', bits', ds, limit)
    ensures |bits'| == |bits|
  {
  }

  /** The file stays below the size limit, and there are blocks for `count` more bytes. */
  ghost predicate CanWrite(g: Image, no: u32, count: nat) {
    && Geometry(g) && no < MAX_FILES_PER_PART && I(g, no).size + count < 512 * MAX_BLOCKS
    && WriteBlocks(g, no, count) <= FreeCount(g.bits)
  }

  /** The number of blocks that `count` more bytes of file `no` need. */
  ghost function WriteBlocks(g: Image, no: u32, count: nat): nat
    requires Geometry(g) && no < MAX_FILES_PER_PART
  {
    BlocksNeeded(I(g, no).sectors, I(g, no).size, count)
  }

  /** From `g` to `g'` the open file `no` got the bytes `buf` at its end. */
  ghost predicate Wrote(g: Image, g': Image, kinds: map<u32, Kind>, no: u32, buf: seq<byte>) {
    && Geometry(g) && Geometry(g') && no < MAX_FILES_PER_PART
    && I(g', no).size <= 512 * MAX_BLOCKS && I(g, no).size <= 512 * MAX_BLOCKS
    && ContentI(g', no) == ContentI(g, no) + buf
    && (forall m :: m in kinds && m != no ==> m < MAX_FILES_PER_PART && Untouched(g, g', m))
    && no in g.open && no in g'.open && g'.open == g.open[no := g'.open[no]]
       && g'.open[no].openCnts == g.open[no].openCnts
  }

  /** Only bit maps have changed, on the disk and in memory, and no block has become free. */
  ghost predicate OnlyTaken(g: Image, g': Image) {
    && Geometry(g) && Geometry(g') && g'.lba == g.lba && g'.ds == g.ds && g'.ibits == g.ibits
    && TableKept(g.disk, g'.disk, g.lba) && DataKept(g.disk, g'.disk, g.ds, {}) && BitsGrow(g.bits, g'.bits)
  }

  lemma TakenUntouched(g: Image, g': Image, kinds: map<u32, Kind>, m: u32)
    requires OnlyTaken(g, g') && StoreOK(g, kinds, {}) && m in kinds
    ensures Geometry(g') && m < MAX_FILES_PER_PART && Untouched(g, g', m)
  {
    hide StoreOK, DataKept, BitsGrow;
    BitsOfOwned(g, kinds, {}, m);
    RecordKept(g.disk, g'.disk, g.lba, m);
    UntouchedBy(g, g', m, {});
  }

  /** A block that was taken without becoming anybody's is lost: no volume fits the bit map. */
  lemma TakenIsLost(g: Image, g': Image, kinds: map<u32, Kind>, i: nat)
    requires OnlyTaken(g, g') && i < |g.bits| && !g.bits[i] && g'.bits[i] && g.ds + i < |g.disk|
    requires Consistent(g, kinds)
    ensures forall k :: !Consistent(g', k)
  {
    hide Consistent, StoreOK, NamesOK, CacheOK, Geometry, NumbersOK, OnlyTaken;
    StoreOf(g, kinds);
    TakenSizes(g, g');
    forall k
      ensures !Consistent(g', k)
    {
      if SameNumbers(g', k, kinds) {
        NotOwned(g, g', kinds, k, i);
      }
      NeedsOwner(g', k, i);
      NumbersAre(g, g', kinds, k);
    }
  }

  lemma StoreOf(g: Image, kinds: map<u32, Kind>)
    requires Consistent(g, kinds)
    ensures Geometry(g) && NumbersOK(g, kinds) && StoreOK(g, kinds, {})
  {
    hide StoreOK, NamesOK, CacheOK, NumbersOK;
  }

  lemma TakenSizes(g: Image, g': Image)
    requires OnlyTaken(g, g')
    ensures Geometry(g) && Geometry(g') && |g'.bits| == |g.bits| && |g'.disk| == |g.disk| && g'.ds == g.ds
  {
    hide Geometry;
  }

  ghost predicate SameNumbers(g: Image, k: map<u32, Kind>, kinds: map<u32, Kind>) {
    forall m :: m in k ==> m in kinds
  }

  lemma NumbersAre(g: Image, g': Image, kinds: map<u32, Kind>, k: map<u32, Kind>)
    requires OnlyTaken(g, g') && NumbersOK(g, kinds)
    ensures NumbersOK(g', k) ==> SameNumbers(g', k, kinds)
  {
  }

  lemma NotOwned(g: Image, g': Image, kinds: map<u32, Kind>, k: map<u32, Kind>, i: nat)
    requires OnlyTaken(g, g') && i < |g.bits| && !g.bits[i] && SameNumbers(g', k, kinds)
    requires Geometry(g') && StoreOK(g, kinds, {})
    ensures !Owned(g', k, g.ds + i)
  {
    hide StoreOK, Geometry, Blk;
    forall m | m in k && m < MAX_FILES_PER_PART
      ensures g.ds + i !in Blk(g', m)
    {
      TakenUntouched(g, g', kinds, m);
      BitsOfOwned(g, kinds, {}, m);
      UntouchedBlocks(g, g', m);
    }
  }

  lemma NeedsOwner(g: Image, k: map<u32, Kind>, i: nat)
    requires Geometry(g) && i < |g.bits| && g.bits[i] && g.ds + i < |g.disk|
    ensures Consistent(g, k) ==> Owned(g, k, g.ds + i) && NumbersOK(g, k)
  {
    hide Owned, CacheOK, NamesOK, InodeOK, Blk, NoSharing, PendingOK, Geometry, RootOK;
  }

  lemma BitTaken(bits: seq<bool>, bits': seq<bool>) returns (i: nat)
    requires BitsGrow(bits, bits') && FreeCount(bits') != FreeCount(bits)
    ensures i < |bits| && !bits[i] && bits'[i]
  {
    assert bits' != bits;
    i :| 0 <= i < |bits| && bits'[i] != bits[i];
  }

  /** What a write of `count` bytes to file `no` that fails does to the volume: no record and no block has
      changed. */
  ghost predicate NotWritten(g: Image, g': Image, kinds: map<u32, Kind>, no: u32, count: nat) {
    && OnlyTaken(g, g')
    && no in g.open && no in g'.open && g'.open == g.open[no := g'.open[no]]
    && WriteFailed(g.open[no], g.disk, g.bits, g'.open[no], g'.disk, g'.bits, g.ds, count)
    && forall m :: m in kinds ==> m < MAX_FILES_PER_PART && Untouched(g, g', m)
  }

  /** The blocks that a write of `count` bytes to file `no` takes without writing their bits to the disk. */
  ghost function LateWrite(g: Image, no: u32, count: nat): set<nat>
    requires Geometry(g) && no < MAX_FILES_PER_PART
  {
    LateBlocks(g.bits, g.ds, I(g, no).sectors, I(g, no).size, count)
  }

  /** `sys_write` to an open file. A success appends the buffer to that file, leaves every other inode
      alone, and keeps the volume consistent. A failure changes nothing or has lost blocks: then no volume
      fits the bit map any more, but every inode and every block is still as it was. */
  method SysWrite(part: Partition, file: File, buf: seq<byte>, ghost kinds: map<u32, Kind>) returns (r: int)
    requires part.Valid() && |buf| <= MAX_BUF
    requires file.fdInode in part.open && file.fdInode in kinds && kinds[file.fdInode] == FileKind
    requires Consistent(Snap(part), kinds)
    modifies part`disk, part`open, part.blockBitmap, part.blockBitmap.bits, file`fdPos
    ensures part.Valid()
    ensures r == if CanWrite(old(Snap(part)), file.fdInode, |buf|) then |buf| else -1
    ensures r != -1 ==> Consistent(Snap(part), kinds) && Wrote(old(Snap(part)), Snap(part), kinds, file.fdInode, buf)
    ensures r != -1 ==> FreeCount(part.Bits())
                        == FreeCount(old(part.Bits())) - WriteBlocks(old(Snap(part)), file.fdInode, |buf|)
    ensures FilesKept(old(Snap(part)), Snap(part), kinds, if r == -1 then {} else {file.fdInode})
    ensures r == -1 ==> NotWritten(old(Snap(part)), Snap(part), kinds, file.fdInode, |buf|)
    ensures r == -1 && FreeCount(part.Bits()) == FreeCount(old(part.Bits())) ==> Snap(part) == old(Snap(part))
    ensures r == -1 && FreeCount(part.Bits()) != FreeCount(old(part.Bits())) ==> forall k :: !Consistent(Snap(part), k)
    ensures file.fdInode < MAX_FILES_PER_PART && Geometry(old(Snap(part)))
    ensures Recorded(old(Snap(part)), Snap(part), LateWrite(old(Snap(part)), file.fdInode, |buf|))
  {
    hide Recorded, LateBlocks;
    hide Owns, FileShape, Grew, NamesOK, StoreOK, CacheOK, Untouched, Appended, TableStored, FreeCount, BlocksNeeded,
         Content, FilesKept;
    ghost var g := Snap(part);
    OpenFileIsGood(g, kinds, file.fdInode);
    r := FileWrite(part, file, buf);
    if r != -1 {
      AppendKeepsVolume(g, Snap(part), kinds, file.fdInode, buf);
      AppendedInode(g.open[file.fdInode], g.disk, g.bits, part.open[file.fdInode], part.disk, part.Bits(), buf, g.ds);
    } else {
      FailedWrite(g, Snap(part), kinds, file.fdInode, |buf|);
    }
    OtherFiles(g, Snap(part), kinds, if r == -1 then {} else {file.fdInode});
  }

  lemma OtherFiles(g: Image, g': Image, kinds: map<u32, Kind>, x: set<u32>)
    requires Geometry(g') && |g'.disk| == |g.disk|
    requires Geometry(g) && forall m :: m in kinds && m !in x ==> m < MAX_FILES_PER_PART && Untouched(g, g', m)
    requires Consistent(g, kinds)
    ensures FilesKept(g, g', kinds, x)
  {
    hide Consistent, Untouched, FilesKept, StoreOK;
    StoreOf(g, kinds);
    UntouchedFiles(g, g', kinds, x);
  }

  /** A failed write, seen on the whole volume. */
  lemma FailedWrite(g: Image, g': Image, kinds: map<u32, Kind>, no: u32, count: nat)
    requires OnlyTaken(g, g') && no in g.open && no in g'.open && g'.open == g.open[no := g'.open[no]]
    requires WriteFailed(g.open[no], g.disk, g.bits, g'.open[no], g'.disk, g'.bits, g.ds, count)
    requires forall i :: 0 <= i < |g.bits| && !g.bits[i] ==> g.ds + i < |g.disk|
    requires Consistent(g, kinds)
    ensures NotWritten(g, g', kinds, no, count)
    ensures FreeCount(g'.bits) == FreeCount(g.bits) ==> g' == g
    ensures FreeCount(g'.bits) != FreeCount(g.bits) ==> forall k :: !Consistent(g', k)
  {
    hide StoreOK, NamesOK, CacheOK, RootOK, FreeCount, Untouched, GoodInode, DataKept, TableKept;
    if FreeCount(g'.bits) != FreeCount(g.bits) {
      var i := BitTaken(g.bits, g'.bits);
      TakenIsLost(g, g', kinds, i);
    }
    forall m | m in kinds
      ensures m < MAX_FILES_PER_PART && Untouched(g, g', m)
    {
      TakenUntouched(g, g', kinds, m);
    }
  }

  lemma AppendedInode(i0: Inode, disk0: seq<Sector>, bits0: seq<bool>,
                      i: Inode, disk: seq<Sector>, bits: seq<bool>, buf: seq<byte>, ds: nat)
    requires |i0.sectors| == 13 && i0.size + |buf| < 512 * MAX_BLOCKS
             && Appended(i0, disk0, bits0, i, disk, bits, buf, ds)
    ensures i.openCnts == i0.openCnts
  {
  }
}
