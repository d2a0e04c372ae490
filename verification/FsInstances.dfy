/** Two short runs on a new volume of eight free blocks that lose something: `sys_mkdir` a block, and
    `sys_rmdir` an inode. */
module FsInstances {
  import opened Bytes
  import opened Bitmaps
  import opened Partitions
  import opened Images
  import opened InodeTable
  import opened FileOps
  import opened DirMap
  import opened DirOps
  import opened FsState
  import opened FsWrite
  import opened FsCreate
  import opened FsMkDir
  import opened FsRemove
  import opened FsRoundTrip
  import opened FsFormat
  import opened FsRuns

  const SMALL: nat := 876

  /** The sizes of a partition of that many sectors. */
  lemma SmallSizes()
    ensures SMALL > META_SECTS && BitLen(SMALL) == 8 && BitmapSects(SMALL) == 1 && GuessSects(SMALL) == 1
    ensures DataLba(0, SMALL) == 868 && !TailReaches(0, SMALL, 877) && FitsFormatBuffer(SMALL)
  {
  }

  /** Clear bits 1 to `n`, and no others. */
  lemma {:induction false} CountClear(bits: seq<bool>, n: nat, k: nat)
    requires k <= |bits| && forall i :: 0 <= i < k ==> (bits[i] <==> i == 0 || i > n)
    ensures FreeCount(bits[..k]) == if k == 0 then 0 else if k <= n then k - 1 else n
  {
    if k > 0 {
      CountClear(bits, n, k - 1);
      assert bits[..k] == bits[..k - 1] + [bits[k - 1]];
    }
  }

  /** The root directory is open, the first `used` of its slots are taken, all in its first block. */
  ghost predicate RootUsed(g: Image, kinds: map<u32, Kind>, used: nat) {
    && Consistent(g, kinds) && Geometry(g) && 0 in kinds && kinds[0] == DirKind(0, 0)
    && 0 in g.open && g.open[0].openCnts == 1
    && (forall q :: 0 <= q < FLAT ==> (Live(FlatI(g, 0)[q]) <==> q < used))
  }

  /** Exactly the numbers up to `k` are taken. */
  ghost predicate UpTo(kinds: map<u32, Kind>, k: nat) {
    forall j: u32 :: j in kinds <==> j <= k
  }

  /** A new volume with the root directory open. */
  method SmallVolume() returns (part: Partition)
    ensures fresh(part) && fresh(part.blockBitmap) && fresh(part.blockBitmap.bits)
    ensures fresh(part.inodeBitmap) && fresh(part.inodeBitmap.bits)
    ensures part.Valid() && FreeCount(part.Bits()) == 8
    ensures RootUsed(Snap(part), ONLY_ROOT, 2) && part.open.Keys == {0}
  {
    SmallSizes();
    hide Consistent, NewRoot, RootUsed, FreeCount, Loaded, OnDiskBut, HasSuperBlock;
    var disk: seq<Sector> := seq(877, _ => ZERO_SECTOR);
    part := FormatAndMount(disk, 0, SMALL, ZeroBytes(460), 0, 0, 0, 0);
    ghost var g := Snap(part);
    SmallFree(g);
    MayOpen(g, ONLY_ROOT, 0);
    var inode := InodeOpen(part, 0);
    OpenedVolume(g, Snap(part), ONLY_ROOT, 0, inode);
    RootIsUsed(g, Snap(part));
  }

  lemma SmallFree(g: Image)
    requires SMALL > META_SECTS && NewBits(g, 0, SMALL) && BitLen(SMALL) == 8 && BitmapSects(SMALL) == 1
    ensures FreeCount(g.bits) == 8
  {
    CountClear(g.bits, 8, 4096);
    assert g.bits[..4096] == g.bits;
  }

  lemma RootIsUsed(g: Image, g': Image)
    requires NewRoot(g) && Consistent(g', ONLY_ROOT) && 0 in g'.open && g'.open[0].openCnts == 1
    requires g' == g.(open := g'.open)
    ensures RootUsed(g', ONLY_ROOT, 2)
  {
    RootGeometry(g);
    hide Consistent, NewRoot, I, FlatI, IsBlankDir, Live, ShapeOK;
    RootShape(g);
    FlatSame(g, g', 0);
    BlankUsed(FlatI(g, 0));
  }

  lemma RootGeometry(g: Image)
    requires NewRoot(g)
    ensures Geometry(g)
  {
  }

  lemma BlankUsed(flat: seq<DirEntry>)
    requires |flat| == FLAT && IsBlankDir(flat, 0, 0)
    ensures forall q :: 0 <= q < FLAT ==> (Live(flat[q]) <==> q < 2)
  {
  }

  // ---- A file that comes and goes ----

  /** On a new volume of eight free blocks, a file can be created, written, read back, closed and removed iff it
      is shorter than eight blocks. */
  method FirstFile(buf: seq<byte>) returns (part: Partition, done: bool, back: ReadOutcome)
    requires |buf| <= MAX_BUF
    ensures fresh(part) && part.Valid()
    ensures done <==> |buf| < 4096
    ensures done ==> back == Data(buf) && Consistent(Snap(part), ONLY_ROOT)
  {
    hide Consistent, RootUsed, FreeCount, RoomFor, FileFits, EntryBlocks, Restored, ReadSpec;
    part := SmallVolume();
    OnlyZero();
    RoomInRoot(Snap(part), ONLY_ROOT, 2, 0);
    UsedParts(Snap(part), ONLY_ROOT, 2);
    NoBlockNeeded(Snap(part), ONLY_ROOT, 2);
    SmallFits(Snap(part), |buf|);
    FileNamesAreGood(0);
    done, back := WholeLife(part, 0, FileName(0), buf, ONLY_ROOT);
    if done {
      ReadsAll(buf);
    }
  }

  lemma SmallFits(g: Image, count: nat)
    requires Geometry(g) && FreeCount(g.bits) == 8 && EntryBlocks(g, 0) == 0
    ensures FileFits(g, 0, count) <==> count < 4096
  {
    hide EntryBlocks, I;
  }

  lemma ReadsAll(buf: seq<byte>)
    requires |buf| < 4096
    ensures ReadSpec(buf, 0, |buf|) == Data(buf)
  {
  }

  // ---- A directory that is removed while it is open ----

  const A_NAME: seq<byte> := [97, 0, 0, 0, 0, 0, 0, 0, 0, 0, 0, 0, 0, 0, 0, 0]

  lemma RoomInRoot(g: Image, kinds: map<u32, Kind>, used: nat, k: nat)
    requires RootUsed(g, kinds, used) && UpTo(kinds, k) && used < FLAT && k + 1 < 256
    ensures RoomFor(g, kinds, 0)
  {
    hide StoreOK, NamesOK, CacheOK, RootOK, FlatI, Live;
    var n: u32 := k + 1;
    assert !g.ibits[n];
    assert !Live(FlatI(g, 0)[used]);
  }

  lemma FirstIs(flat: seq<DirEntry>, used: nat, p: nat)
    requires |flat| == FLAT && used < FLAT && FirstFree(flat, p)
    requires forall q :: 0 <= q < FLAT ==> (Live(flat[q]) <==> q < used)
    ensures p == used
  {
    hide Live;
    assert !Live(flat[used]);
  }

  /** A new entry takes the next slot and the next number. */
  lemma NextUsed(g: Image, g': Image, kinds: map<u32, Kind>, kinds': map<u32, Kind>, e: DirEntry, kind: Kind,
                 used: nat, k: nat)
    requires RootUsed(g, kinds, used) && UpTo(kinds, k) && used < FLAT
    requires Created(g, g', kinds, kinds', 0, e, kind) && Live(e)
    requires Consistent(g', kinds') && 0 in g'.open && g'.open[0].openCnts == 1
    ensures e.ino == k + 1 && UpTo(kinds', k + 1) && RootUsed(g', kinds', used + 1)
  {
    hide Consistent, FlatI, I, Untouched, Live, Extends;
    assert !(k + 1 in kinds);
    var p := SlotOfEntry(FlatI(g, 0), FlatI(g', 0), e);
    FirstIs(FlatI(g, 0), used, p);
  }

  /** The first slots of the root directory are in its block. */
  lemma NoBlockNeeded(g: Image, kinds: map<u32, Kind>, used: nat)
    requires RootUsed(g, kinds, used) && used < FLAT
    ensures used < 21 ==> EntryBlocks(g, 0) == 0
    ensures used == 21 ==> EntryBlocks(g, 0) == 1
  {
    hide Consistent, Flat, Loaded, Live, BlockDead;
    RootSectors(g, kinds);
    NeedIs(I(g, 0).sectors, g.disk, used);
  }

  lemma RootSectors(g: Image, kinds: map<u32, Kind>)
    requires Consistent(g, kinds) && 0 in kinds && kinds[0].DirKind?
    ensures Geometry(g) && I(g, 0).sectors[0] != 0
    ensures BlockDead(FlatI(g, 0), 1) ==> I(g, 0).sectors[1] == 0
  {
    hide Consistent, DirShape, Loaded, Flat, LiveCount, BlockDead;
    DirOfVolume(g, kinds, 0);
    SectorsFollowSlots(I(g, 0).sectors, I(g, 0).size, g.disk, 0);
    SectorsFollowSlots(I(g, 0).sectors, I(g, 0).size, g.disk, 1);
  }

  lemma NeedIs(sec: seq<u32>, disk: seq<Sector>, used: nat)
    requires |sec| == 13 && used < FLAT && sec[0] != 0 && forall q :: 0 <= q < FLAT ==>
               (Live(Flat(sec, disk)[q]) <==> q < used)
    requires BlockDead(Flat(sec, disk), 1) ==> sec[1] == 0
    ensures used < 21 ==> !NeedsBlock(sec, disk)
    ensures used == 21 ==> NeedsBlock(sec, disk)
  {
    hide Flat, Live;
    assert FirstFree(Flat(sec, disk), used);
    if NeedsBlock(sec, disk) {
      var p: nat :| p < FLAT && FirstFree(Flat(sec, disk), p) && sec[p / 21] == 0;
      assert p == used;
    }
  }

  /** A directory is made in the root directory of a new volume, opened, and removed: what is left is no
      volume any more. */
  method OpenDirRemoved() returns (part: Partition)
    ensures fresh(part) && part.Valid() && forall k :: !Consistent(Snap(part), k)
  {
    hide Consistent, RootUsed, UpTo, Created, FreeCount, RoomFor, FilesKept, Loaded, ChildOf, Childless, Gone,
         EntryBlocks, NeedsBlock;
    part := SmallVolume();
    ghost var g := Snap(part);
    OnlyZero();
    RoomInRoot(g, ONLY_ROOT, 2, 0);
    UsedParts(g, ONLY_ROOT, 2);
    NoBlockNeeded(g, ONLY_ROOT, 2);
    NeedAsCount(g);
    var r, no;
    ghost var kinds, blk;
    r, no, kinds, blk := MkDir(part, 0, A_NAME, ONLY_ROOT);
    ghost var g1 := Snap(part);
    NextUsed(g, g1, ONLY_ROOT, kinds, DirEntry(A_NAME, no, FT_DIRECTORY), DirKind(0, 1), 2, 0);
    CreatedKinds(g, g1, ONLY_ROOT, kinds, 0, DirEntry(A_NAME, no, FT_DIRECTORY), DirKind(0, 1));
    MayOpen(g1, kinds, 1);
    var dir := InodeOpen(part, 1);
    ghost var g2 := Snap(part);
    OpenedVolume(g1, g2, kinds, 1, dir);
    ghost var p := EntryOf(g, g1, g2, kinds, DirEntry(A_NAME, 1, FT_DIRECTORY), DirKind(0, 1));
    OnlyChild(g2, kinds);
    var res := RmDir(part, 0, 1, kinds, p);
  }

  lemma OnlyZero()
    ensures UpTo(ONLY_ROOT, 0)
  {
  }

  lemma UsedParts(g: Image, kinds: map<u32, Kind>, used: nat)
    requires RootUsed(g, kinds, used)
    ensures Consistent(g, kinds) && Geometry(g) && 0 in kinds && kinds[0] == DirKind(0, 0)
    ensures 0 in g.open && g.open[0].openCnts == 1
  {
    hide Consistent, FlatI, Live;
  }

  lemma NeedAsCount(g: Image)
    requires Geometry(g)
    ensures EntryBlocks(g, 0) == 0 <==> !NeedsBlock(I(g, 0).sectors, g.disk)
  {
    hide I, NeedsBlock;
  }

  lemma EntryOf(g: Image, g1: Image, g2: Image, kinds: map<u32, Kind>, e: DirEntry, kind: Kind) returns (p: nat)
    requires Created(g, g1, ONLY_ROOT, kinds, 0, e, kind) && Live(e) && e.ino == 1
    requires Geometry(g2) && Untouched(g1, g2, 0)
    ensures ChildOf(g2, kinds, 0, p, 1)
  {
    hide I, FlatI, Untouched, Extends, Live;
    p := EntryPlace(g, g1, g2, ONLY_ROOT, kinds, 0, e, kind);
  }

  /** Where there are two inodes, the second has no children. */
  lemma OnlyChild(g: Image, kinds: map<u32, Kind>)
    requires Consistent(g, kinds) && UpTo(kinds, 1)
    ensures Geometry(g) && Childless(g, kinds, 1)
  {
    hide StoreOK, CacheOK, RootOK, NumbersOK, AllEntered, DotsOK, EntriesUnique, FlatI, Geometry;
    forall q: nat, c
      ensures !ChildOf(g, kinds, 1, q, c)
    {
      assert ChildOf(g, kinds, 1, q, c) ==> EntryOK(g, kinds, 1, q, c);
    }
  }

  // ---- A directory whose entry finds no block ----

  /** The name of the file number `k`. */
  function FileName(k: nat): (name: seq<byte>)
    requires k < 100
    ensures |name| == 16
  {
    [97 + k] + ZeroBytes(15)
  }

  lemma FileNamesAreGood(k: nat)
    requires k < 100
    ensures Child(DirEntry(FileName(k), 0, FT_REGULAR)) && Child(DirEntry(FileName(k), 0, FT_DIRECTORY))
  {
  }

  /** One more empty file in the root directory, while its entry needs no block. */
  method OneMoreFile(part: Partition, ghost kinds: map<u32, Kind>, k: nat) returns (ghost kinds': map<u32, Kind>)
    requires part.Valid() && k < 19 && RootUsed(Snap(part), kinds, k + 2) && UpTo(kinds, k)
    modifies part`disk, part`open, part.blockBitmap, part.blockBitmap.bits, part.inodeBitmap, part.inodeBitmap.bits
    ensures part.Valid() && RootUsed(Snap(part), kinds', k + 3) && UpTo(kinds', k + 1)
    ensures FreeCount(part.Bits()) == FreeCount(old(part.Bits()))
    ensures kinds' == kinds[k + 1 := FileKind] && (k + 1) as u32 in part.open
            && part.open[k + 1] == FreshInode(k + 1).(openCnts := 1)
  {
    hide Consistent, RootUsed, UpTo, Created, FreeCount, RoomFor, FilesKept, EntryBlocks, NeedsBlock, I;
    ghost var g := Snap(part);
    FileNamesAreGood(k);
    RoomInRoot(g, kinds, k + 2, k);
    UsedParts(g, kinds, k + 2);
    NoBlockNeeded(g, kinds, k + 2);
    NeedAsCount(g);
    var r;
    r, kinds' := FileCreate(part, 0, FileName(k), kinds);
    NextUsed(g, Snap(part), kinds, kinds', DirEntry(FileName(k), r, FT_REGULAR), FileKind, k + 2, k);
    CreatedKinds(g, Snap(part), kinds, kinds', 0, DirEntry(FileName(k), r, FT_REGULAR), FileKind);
  }

  /** Seven of the eight free blocks of a new volume go to a file. */
  method SevenBlocksUsed() returns (part: Partition, ghost kinds: map<u32, Kind>)
    ensures fresh(part) && fresh(part.blockBitmap) && fresh(part.blockBitmap.bits)
    ensures fresh(part.inodeBitmap) && fresh(part.inodeBitmap.bits)
    ensures part.Valid() && RootUsed(Snap(part), kinds, 3) && UpTo(kinds, 1) && FreeCount(part.Bits()) == 1
  {
    hide Consistent, RootUsed, UpTo, FreeCount, I, CanWrite, Wrote, NotWritten, FilesKept, WriteBlocks;
    part := SmallVolume();
    OnlyZero();
    kinds := OneMoreFile(part, ONLY_ROOT, 0);
    ghost var g := Snap(part);
    UsedParts(g, kinds, 3);
    FreshIsEmpty(g, kinds, 1);
    SevenNeeded(g, 1);
    var file := new File(1);
    var r := SysWrite(part, file, ZeroBytes(3072), kinds);
    RootStillUsed(g, Snap(part), kinds);
  }

  lemma SevenNeeded(g: Image, no: u32)
    requires Geometry(g) && no < MAX_FILES_PER_PART && I(g, no).size == 0 && I(g, no).sectors == Zeros(13)
    requires FreeCount(g.bits) == 8
    ensures WriteBlocks(g, no, 3072) == 7 && CanWrite(g, no, 3072)
  {
    hide I;
  }

  lemma RootStillUsed(g: Image, g': Image, kinds: map<u32, Kind>)
    requires RootUsed(g, kinds, 3) && Wrote(g, g', kinds, 1, ZeroBytes(3072)) && Consistent(g', kinds)
    ensures RootUsed(g', kinds, 3)
  {
    hide Consistent, I, FlatI, Live, ContentI, Untouched;
    UntouchedParts(g, g', 0);
  }

  /** The first block of the root directory is filled, and a directory is made: the last free block is lost. */
  method BlockLost() returns (part: Partition, ghost kinds: map<u32, Kind>, ghost b: u32)
    ensures fresh(part) && part.Valid() && Leaks(Snap(part), kinds, b)
  {
    hide Consistent, RootUsed, UpTo, FreeCount, RoomFor, EntryBlocks, NeedsBlock, Leaks, Created, FilesKept, I;
    part, kinds := SevenBlocksUsed();
    var k := 1;
    while k < 19
      invariant 1 <= k <= 19 && part.Valid()
      invariant RootUsed(Snap(part), kinds, k + 2) && UpTo(kinds, k) && FreeCount(part.Bits()) == 1
    {
      kinds := OneMoreFile(part, kinds, k);
      k := k + 1;
    }
    ghost var g := Snap(part);
    FileNamesAreGood(19);
    RoomInRoot(g, kinds, 21, 19);
    UsedParts(g, kinds, 21);
    NoBlockNeeded(g, kinds, 21);
    NeedAsCount(g);
    var r, no;
    ghost var after;
    r, no, after, b := MkDir(part, 0, FileName(19), kinds);
  }
}
