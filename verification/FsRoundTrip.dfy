/** A file's whole life: creating it, writing it, reading it back and removing it leaves nothing behind. */
module FsRoundTrip {
  import opened Bytes
  import opened Bitmaps
  import opened Partitions
  import opened Images
  import opened BlockMap
  import opened InodeTable
  import opened FileOps
  import opened Release
  import opened DirMap
  import opened DirOps
  import opened FsState
  import opened FsSteps
  import opened FsWrite
  import opened FsCreate
  import opened FsRemove

  /** The bits beyond the end of the partition are set, as `partition_format` leaves them. */
  ghost predicate TailSet(g: Image) {
    forall i :: 0 <= i < |g.bits| && g.ds + i >= |g.disk| ==> g.bits[i]
  }

  /** The block bit map follows from who owns which block. */
  lemma BitsDetermined(g: Image, g': Image, kinds: map<u32, Kind>)
    requires Geometry(g) && Geometry(g') && TailSet(g) && TailSet(g')
    requires |g'.bits| == |g.bits| && |g'.disk| == |g.disk| && g'.ds == g.ds
    requires forall m :: m in kinds ==> m < MAX_FILES_PER_PART && Blk(g', m) == Blk(g, m)
    requires StoreOK(g, kinds, {}) && StoreOK(g', kinds, {})
    ensures g'.bits == g.bits
  {
    hide InodeOK, Blk, Geometry, StoreOK;
    forall i | 0 <= i < |g.bits|
      ensures g'.bits[i] == g.bits[i]
    {
      if g.ds + i < |g.disk| {
        BitIffOwned(g, kinds, i);
        BitIffOwned(g', kinds, i);
        if g.bits[i] {
          var m :| m in kinds && m < MAX_FILES_PER_PART && g.ds + i in Blk(g, m);
          assert g.ds + i in Blk(g', m);
        }
        if g'.bits[i] {
          var m :| m in kinds && m < MAX_FILES_PER_PART && g.ds + i in Blk(g', m);
          assert g.ds + i in Blk(g, m);
        }
      }
    }
  }

  /** A bit of a data block is set iff some inode owns the block. */
  lemma BitIffOwned(g: Image, kinds: map<u32, Kind>, i: nat)
    requires Geometry(g) && i < |g.bits| && g.ds + i < |g.disk|
    requires StoreOK(g, kinds, {})
    ensures g.bits[i] <==> Owned(g, kinds, g.ds + i)
  {
    hide InodeOK, Blk, Geometry;
    if Owned(g, kinds, g.ds + i) {
      var m :| m in kinds && m < MAX_FILES_PER_PART && g.ds + i in Blk(g, m);
      BitsOfOwned(g, kinds, {}, m);
    }
  }

  /** Which of its blocks a directory has follows from its slots. */
  lemma SectorsFollowSlots(sec: seq<u32>, size: nat, disk: seq<Sector>, k: nat)
    requires |sec| == 13 && DirShape(sec, size, disk) && k < 13
    ensures sec[k] != 0 <==> k == 0 || (k < DIRECT && !BlockDead(Flat(sec, disk), k))
  {
    hide GoodSlots, LiveCount;
    if 1 <= k < DIRECT && sec[k] == 0 {
      forall j | 21 * k <= j < 21 * k + 21
        ensures !Live(Flat(sec, disk)[j])
      {
        assert j / 21 == k;
      }
    }
  }

  /** A directory that took an entry and lost it again has the blocks it had. */
  lemma SectorsRestored(sec0: seq<u32>, size0: nat, disk0: seq<Sector>, sec1: seq<u32>, sec3: seq<u32>, size3: nat,
                        disk3: seq<Sector>)
    requires |sec0| == |sec1| == |sec3| == 13 && DirShape(sec0, size0, disk0) && DirShape(sec3, size3, disk3)
    requires Extends(sec0, sec1) && Extends(sec3, sec1) && Flat(sec3, disk3) == Flat(sec0, disk0)
    ensures sec3 == sec0
  {
    hide DirShape, Flat, BlockDead;
    forall k | 0 <= k < 13
      ensures sec3[k] == sec0[k]
    {
      SectorsFollowSlots(sec0, size0, disk0, k);
      SectorsFollowSlots(sec3, size3, disk3, k);
    }
  }

  /** A directory of a consistent volume has its shape. */
  lemma DirOfVolume(g: Image, kinds: map<u32, Kind>, d: u32)
    requires d in kinds && kinds[d].DirKind? && Consistent(g, kinds)
    ensures Geometry(g) && d < MAX_FILES_PER_PART && DirShape(I(g, d).sectors, I(g, d).size, g.disk)
    ensures forall x :: 0 <= x < FLAT && !Live(FlatI(g, d)[x]) ==> FlatI(g, d)[x] == NO_ENTRY
    ensures I(g, d).sectors[TABLE] == 0 && I(g, d).size == ENTRY_SIZE * LiveCount(FlatI(g, d))
  {
    assert InodeOK(g, d, kinds[d]);
    hide StoreOK, CacheOK, RootOK, NamesOK, Owns, Loaded, Slots, FileShape;
  }

  /** The slot that was filled is the slot that is cleared. */
  lemma SlotRestored(g0: Image, g1: Image, g2: Image, kinds: map<u32, Kind>, kinds1: map<u32, Kind>, d: u32, p: nat,
                     e: DirEntry)
    requires Geometry(g0) && Geometry(g1) && Geometry(g2) && d < MAX_FILES_PER_PART && Live(e)
    requires Entered(FlatI(g0, d), FlatI(g1, d), e) && FlatI(g2, d) == FlatI(g1, d)
    requires forall x :: 0 <= x < FLAT && !Live(FlatI(g0, d)[x]) ==> FlatI(g0, d)[x] == NO_ENTRY
    requires ChildOf(g2, kinds1, d, p, e.ino)
    requires EntriesUnique(g2, kinds1)
    ensures FlatI(g2, d)[p := NO_ENTRY] == FlatI(g0, d)
  {
    hide I, Flat, Geometry;
    var p0: nat :| 2 <= p0 < FLAT && FirstFree(FlatI(g0, d), p0) && FlatI(g1, d) == FlatI(g0, d)[p0 := e];
    assert ChildOf(g2, kinds1, d, p0, e.ino);
    assert p == p0;
  }

  /** The state is as it was: every inode, every slot, every block and both bit maps. */
  ghost predicate Restored(g: Image, g': Image, kinds: map<u32, Kind>, d: u32) {
    && Geometry(g) && Geometry(g') && d < MAX_FILES_PER_PART
    && g'.bits == g.bits && g'.ibits == g.ibits
    && FlatI(g', d) == FlatI(g, d) && I(g', d).sectors == I(g, d).sectors && I(g', d).size == I(g, d).size
    && forall m :: m in kinds && m != d ==> m < MAX_FILES_PER_PART && Untouched(g, g', m)
  }

  /** Create, change the new file in any way that leaves the others alone, and remove it. */
  lemma LifeLeavesNothing(g0: Image, g1: Image, g2: Image, g3: Image, kinds: map<u32, Kind>, kinds1: map<u32, Kind>,
                          d: u32, p: nat, e: DirEntry, kind: Kind)
    requires d in kinds && kinds[d].DirKind? && Live(e)
    requires |g1.disk| == |g2.disk| == |g3.disk| == |g0.disk| && |g3.bits| == |g0.bits| && g3.ds == g0.ds
    requires TailSet(g0) && TailSet(g3)
    requires Created(g0, g1, kinds, kinds1, d, e, kind) && Gone(g2, g3, kinds1, d, p, e.ino)
    requires forall m :: m in kinds1 && m != e.ino ==> m < MAX_FILES_PER_PART && Untouched(g1, g2, m)
    requires ChildOf(g2, kinds1, d, p, e.ino)
    requires Consistent(g0, kinds)
    requires Consistent(g2, kinds1)
    requires Consistent(g3, kinds)
    ensures Restored(g0, g3, kinds, d)
  {
    hide StoreOK, CacheOK, RootOK, FlatI, I, Untouched, Dropped, Blk, Extends, ChildOf, TailSet, EntriesOK,
         EntriesUnique,
         DotsOK, AllEntered, Entered, LiveCount, DirShape;
    UntouchedParts(g1, g2, d);
    DirOfVolume(g0, kinds, d);
    SlotRestored(g0, g1, g2, kinds, kinds1, d, p, e);
    DirRestored(g0, g1, g3, kinds, d);
    forall m | m in kinds && m != d
      ensures m < MAX_FILES_PER_PART && Untouched(g0, g3, m) && Blk(g3, m) == Blk(g0, m)
    {
      UntouchedTwice(g0, g1, g2, m);
      UntouchedTwice(g0, g2, g3, m);
      UntouchedBlocks(g0, g3, m);
    }
    BitsDetermined(g0, g3, kinds);
    NumbersDetermined(g0, g3, kinds);
  }

  lemma NumbersDetermined(g: Image, g': Image, kinds: map<u32, Kind>)
    requires NumbersOK(g, kinds) && NumbersOK(g', kinds)
    ensures g'.ibits == g.ibits
  {
    forall no: nat | no < MAX_FILES_PER_PART
      ensures g'.ibits[no] == g.ibits[no]
    {
      var n: u32 := no;
      assert g.ibits[n] <==> n in kinds;
    }
  }

  lemma DirRestored(g0: Image, g1: Image, g3: Image, kinds: map<u32, Kind>, d: u32)
    requires d in kinds && kinds[d].DirKind? && d < MAX_FILES_PER_PART
    requires Geometry(g0) && Geometry(g1) && Geometry(g3) && FlatI(g3, d) == FlatI(g0, d)
    requires Extends(I(g0, d).sectors, I(g1, d).sectors) && Extends(I(g3, d).sectors, I(g1, d).sectors)
    requires Consistent(g0, kinds) && Consistent(g3, kinds)
    ensures I(g3, d).sectors == I(g0, d).sectors && I(g3, d).size == I(g0, d).size && Blk(g3, d) == Blk(g0, d)
  {
    hide Consistent, DirShape, Loaded, Flat, Extends, LiveCount;
    DirOfVolume(g0, kinds, d);
    DirOfVolume(g3, kinds, d);
    SectorsRestored(I(g0, d).sectors, I(g0, d).size, g0.disk, I(g1, d).sectors, I(g3, d).sectors, I(g3, d).size,
                    g3.disk);
    DirectSlots(I(g0, d).sectors, g0.disk, I(g3, d).sectors, g3.disk);
    assert SlotsI(g3, d) == SlotsI(g0, d);
  }

  /** Closing an inode that is allocated changes no more than the open inodes. */
  lemma ClosedVolume(g: Image, g': Image, kinds: map<u32, Kind>, c: u32)
    requires Consistent(g, kinds) && g' == g.(open := g.open - {c})
    ensures Consistent(g', kinds) && forall m :: m in kinds ==> m < MAX_FILES_PER_PART && Untouched(g, g', m)
  {
    hide StoreOK, NamesOK, Untouched, FlatI, I;
    NumbersInRange(kinds, g);
    StoreSame(g, g', kinds, {});
    SameUntouched(g, g', kinds);
    forall m | m in kinds
      ensures I(g', m) == I(g, m) && FlatI(g', m) == FlatI(g, m)
    {
      UntouchedParts(g, g', m);
    }
    NamesKept(g, g', kinds);
  }

  /** `sys_read` of an open file from its start. */
  method ReadBack(part: Partition, no: u32, count: nat, ghost kinds: map<u32, Kind>) returns (r: ReadOutcome)
    requires part.Valid() && count <= MAX_BUF && no in part.open && no in kinds && kinds[no] == FileKind
    requires Consistent(Snap(part), kinds)
    ensures Geometry(Snap(part)) && no < MAX_FILES_PER_PART && I(Snap(part), no).size <= 512 * MAX_BLOCKS
    ensures r == ReadSpec(ContentI(Snap(part), no), 0, count)
  {
    hide Consistent, Content, GoodInode, ReadSpec, Loaded;
    OpenFileIsGood(Snap(part), kinds, no);
    SizeBounded(part.open[no], part.disk, part.Bits(), part.dataStartLba);
    var file := new File(no);
    r := FileRead(part, file, count);
  }

  lemma CreatedParts(g: Image, g': Image, kinds: map<u32, Kind>, kinds': map<u32, Kind>, d: u32, e: DirEntry,
                     kind: Kind)
    requires Created(g, g', kinds, kinds', d, e, kind)
    ensures Geometry(g) && Geometry(g') && e.ino in kinds' && kinds'[e.ino] == kind && e.ino !in kinds
            && kinds' - {e.ino} == kinds
    ensures e.ino < MAX_FILES_PER_PART && d < MAX_FILES_PER_PART
    ensures forall m :: m in kinds && m != d ==> m < MAX_FILES_PER_PART && Untouched(g, g', m)
  {
    hide FlatI, I, Untouched, Extends, Entered;
  }

  lemma WroteParts(g: Image, g': Image, kinds: map<u32, Kind>, no: u32, buf: seq<byte>)
    requires Wrote(g, g', kinds, no, buf)
    ensures Geometry(g) && Geometry(g') && no < MAX_FILES_PER_PART
    ensures forall m :: m in kinds && m != no ==> m < MAX_FILES_PER_PART && Untouched(g, g', m)
    ensures no in g.open && no in g'.open && g'.open == g.open[no := g'.open[no]]
            && g'.open[no].openCnts == g.open[no].openCnts
    ensures I(g, no).size == 0 ==> I(g', no).size <= 512 * MAX_BLOCKS && ContentI(g', no) == buf
  {
    hide I, Untouched;
  }

  /** A new inode that is open once is as it was made. */
  lemma FreshIsEmpty(g: Image, kinds: map<u32, Kind>, no: u32)
    requires no in g.open && g.open[no] == FreshInode(no).(openCnts := 1)
    requires Consistent(g, kinds)
    ensures no in kinds && no < MAX_FILES_PER_PART && I(g, no).size == 0 && I(g, no).sectors == Zeros(13)
  {
    hide StoreOK, NamesOK, RootOK, NumbersOK, I;
  }

  /** There is room for a new entry in directory `d` and for a new file of `count` bytes. */
  ghost predicate FileFits(g: Image, d: u32, count: nat) {
    && Geometry(g) && d < MAX_FILES_PER_PART && count < 512 * MAX_BLOCKS
    && EntryBlocks(g, d) + BlocksNeeded(Zeros(13), 0, count) <= FreeCount(g.bits)
  }

  lemma FitsIff(g: Image, g1: Image, d: u32, no: u32, count: nat)
    requires Geometry(g) && Geometry(g1) && d < MAX_FILES_PER_PART && no < MAX_FILES_PER_PART
    requires FreeCount(g1.bits) + EntryBlocks(g, d) == FreeCount(g.bits)
    requires I(g1, no).size == 0 && I(g1, no).sectors == Zeros(13)
    ensures CanWrite(g1, no, count) <==> FileFits(g, d, count)
  {
    hide EntryBlocks, FreeCount, I, BlocksNeeded;
  }

  lemma NoEntryNoFile(g: Image, d: u32, count: nat)
    requires Geometry(g) && d < MAX_FILES_PER_PART && NeedsBlock(I(g, d).sectors, g.disk) && FreeCount(g.bits) == 0
    ensures !FileFits(g, d, count)
  {
    hide FreeCount, I, NeedsBlock;
  }

  /** Create a file in the open directory `d`, write it, read it back and close it. */
  method CreateAndFill(part: Partition, d: u32, filename: seq<byte>, buf: seq<byte>, ghost kinds: map<u32, Kind>)
    returns (no: u32, back: ReadOutcome, ghost g1: Image, ghost kinds1: map<u32, Kind>)
    requires part.Valid() && |buf| <= MAX_BUF
    requires |filename| == 16 && Child(DirEntry(filename, 0, FT_REGULAR))
    requires RoomFor(Snap(part), kinds, d)
    requires Consistent(Snap(part), kinds)
    modifies part`disk, part`open, part.blockBitmap, part.blockBitmap.bits, part.inodeBitmap, part.inodeBitmap.bits
    ensures part.Valid()
    ensures no != 0 <==> FileFits(old(Snap(part)), d, |buf|)
    ensures no != 0 ==> back == ReadSpec(buf, 0, |buf|) && no !in part.open && no < MAX_FILES_PER_PART
    ensures no != 0 ==> Consistent(Snap(part), kinds1)
    ensures no != 0 ==> Created(old(Snap(part)), g1, kinds, kinds1, d, DirEntry(filename, no, FT_REGULAR), FileKind)
    ensures no != 0 ==> forall m :: m in kinds1 && m != no ==> m < MAX_FILES_PER_PART && Untouched(g1, Snap(part), m)
    ensures no != 0 ==> |g1.disk| == |part.disk| && d in part.open
  {
    hide StoreOK, NamesOK, CacheOK, RootOK, Untouched, FlatI, I, Consistent, Created, Content, FreeCount, ReadSpec,
         CanWrite, Wrote, ContentI, FileFits, EntryBlocks, NeedsBlock;
    back, no := NoData, 0;
    ghost var g0 := Snap(part);
    assert d < MAX_FILES_PER_PART;
    var r;
    r, kinds1 := FileCreate(part, d, filename, kinds);
    g1 := Snap(part);
    if r == -1 {
      NoEntryNoFile(g0, d, |buf|);
      return;
    }
    CreatedParts(g0, g1, kinds, kinds1, d, DirEntry(filename, r, FT_REGULAR), FileKind);
    FreshIsEmpty(g1, kinds1, r);
    FitsIff(g0, g1, d, r, |buf|);
    hide RoomFor;
    var file := new File(r);
    var n := SysWrite(part, file, buf, kinds1);
    if n == -1 {
      return;
    }
    no := r;
    ghost var gw := Snap(part);
    WroteParts(g1, gw, kinds1, no, buf);
    back := ReadBack(part, no, |buf|, kinds1);
    InodeClose(part, no);
    ClosedVolume(gw, Snap(part), kinds1, no);
    OthersTwice(g1, gw, Snap(part), kinds1, no);
  }

  lemma OthersTwice(g: Image, g1: Image, g2: Image, kinds: map<u32, Kind>, no: u32)
    requires Geometry(g) && Geometry(g1) && Geometry(g2) && |g1.disk| == |g.disk|
    requires forall m :: m in kinds && m != no ==> m < MAX_FILES_PER_PART && Untouched(g, g1, m)
    requires forall m :: m in kinds ==> m < MAX_FILES_PER_PART && Untouched(g1, g2, m)
    ensures forall m :: m in kinds && m != no ==> m < MAX_FILES_PER_PART && Untouched(g, g2, m)
  {
    hide Untouched, Geometry;
    forall m | m in kinds && m != no
      ensures m < MAX_FILES_PER_PART && Untouched(g, g2, m)
    {
      UntouchedTwice(g, g1, g2, m);
    }
  }

  /** Where the entry of the new file is. */
  lemma EntryPlace(g0: Image, g1: Image, g2: Image, kinds: map<u32, Kind>, kinds1: map<u32, Kind>, d: u32, e: DirEntry,
                   kind: Kind) returns (p: nat)
    requires Created(g0, g1, kinds, kinds1, d, e, kind) && d in kinds && kinds[d].DirKind? && Live(e)
    requires Geometry(g2) && Untouched(g1, g2, d)
    ensures ChildOf(g2, kinds1, d, p, e.ino)
  {
    hide I, FlatI, Untouched, Extends, Live;
    UntouchedParts(g1, g2, d);
    p := SlotOfEntry(FlatI(g0, d), FlatI(g1, d), e);
  }

  lemma SlotOfEntry(flat: seq<DirEntry>, flat': seq<DirEntry>, e: DirEntry) returns (p: nat)
    requires |flat| == FLAT && Entered(flat, flat', e)
    ensures 2 <= p < FLAT && FirstFree(flat, p) && flat' == flat[p := e]
  {
    hide Live;
    p :| 2 <= p < FLAT && FirstFree(flat, p) && flat' == flat[p := e];
  }

  /** Create a file in the open directory `d`, write it, read it back, close it and remove it, if there is
      room for it. What is read is what was written, and nothing is left behind. */
  method WholeLife(part: Partition, d: u32, filename: seq<byte>, buf: seq<byte>, ghost kinds: map<u32, Kind>)
    returns (done: bool, back: ReadOutcome)
    requires part.Valid() && |buf| <= MAX_BUF
    requires |filename| == 16 && Child(DirEntry(filename, 0, FT_REGULAR))
    requires RoomFor(Snap(part), kinds, d)
    requires Consistent(Snap(part), kinds)
    modifies part`disk, part`open, part.blockBitmap, part.blockBitmap.bits, part.inodeBitmap, part.inodeBitmap.bits
    ensures part.Valid()
    ensures done <==> FileFits(old(Snap(part)), d, |buf|)
    ensures done ==> back == ReadSpec(buf, 0, |buf|)
    ensures done ==> Restored(old(Snap(part)), Snap(part), kinds, d)
    ensures done ==> Consistent(Snap(part), kinds)
  {
    hide StoreOK, NamesOK, CacheOK, RootOK, Untouched, FlatI, I, ChildOf, Gone, Consistent, Created, Restored,
         ReadSpec, TailSet, FileFits;
    ghost var g0 := Snap(part);
    assert TailSet(g0) by { TailOfValid(part); }
    RoomParts(g0, kinds, d);
    hide RoomFor;
    var no;
    ghost var g1, kinds1;
    no, back, g1, kinds1 := CreateAndFill(part, d, filename, buf, kinds);
    done := no != 0;
    if done {
      ghost var e := DirEntry(filename, no, FT_REGULAR);
      ghost var g2 := Snap(part);
      CreatedParts(g0, g1, kinds, kinds1, d, e, FileKind);
      ghost var p := EntryPlace(g0, g1, g2, kinds, kinds1, d, e, FileKind);
      var r := Unlink(part, d, no, kinds1, p);
      TailOfValid(part);
      LifeLeavesNothing(g0, g1, g2, Snap(part), kinds, kinds1, d, p, e, FileKind);
    }
  }

  lemma TailOfValid(part: Partition)
    requires part.Valid()
    ensures TailSet(Snap(part))
  {
  }
}
