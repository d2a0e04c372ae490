/** `sys_mkdir` of `src/fs/fs.c`, behind the path search. */
module FsMkDir {
  import opened Bytes
  import opened Bitmaps
  import opened Partitions
  import opened Images
  import opened BlockMap
  import opened InodeTable
  import opened Allocation
  import opened DirMap
  import opened DirOps
  import opened FsState
  import opened FsSteps
  import opened FsWrite
  import opened FsCreate

  const DOT_NAME: seq<byte> := [46, 0, 0, 0, 0, 0, 0, 0, 0, 0, 0, 0, 0, 0, 0, 0]
  const DOTDOT_NAME: seq<byte> := [46, 46, 0, 0, 0, 0, 0, 0, 0, 0, 0, 0, 0, 0, 0, 0]

  /** The first block of the directory `no` below `parent`. */
  function DotSector(no: u32, parent: u32): Sector {
    Splice(ZERO_SECTOR, 0, EncodeEntry(DirEntry(DOT_NAME, no, FT_DIRECTORY))
                           + EncodeEntry(DirEntry(DOTDOT_NAME, parent, FT_DIRECTORY)))
  }

  lemma DotEntries(no: u32, parent: u32, k: nat)
    requires k < ENTRIES_PER_SEC
    ensures EntryAt(DotSector(no, parent), k) ==
            if k == 0 then DirEntry(DOT_NAME, no, FT_DIRECTORY)
            else if k == 1 then DirEntry(DOTDOT_NAME, parent, FT_DIRECTORY) else NO_ENTRY
  {
    var dot, dotDot := DirEntry(DOT_NAME, no, FT_DIRECTORY), DirEntry(DOTDOT_NAME, parent, FT_DIRECTORY);
    var one := Splice(ZERO_SECTOR, 0, EncodeEntry(dot));
    EntrySpliced(ZERO_SECTOR, 0, dot, k);
    EntrySpliced(one, 1, dotDot, k);
    assert DotSector(no, parent) == Splice(one, ENTRY_SIZE, EncodeEntry(dotDot));
    EntryOfZeros(k);
  }

  /** The inode that `sys_mkdir` builds on its stack. */
  function NewDirInode(no: u32, blockLba: u32): (i: Inode)
    ensures |i.sectors| == 13
  {
    FreshInode(no).(size := 2 * ENTRY_SIZE, sectors := Zeros(13)[0 := blockLba])
  }

  /** Such an inode is a directory without children. */
  lemma NewDirIsGood(sec: seq<u32>, disk: seq<Sector>, no: u32, parent: u32, blk: u32)
    requires sec == Zeros(13)[0 := blk] && 0 < blk < |disk| && disk[blk] == DotSector(no, parent)
    ensures DirShape(sec, 2 * ENTRY_SIZE, disk)
    ensures IsBlankDir(Flat(sec, disk), no, parent)
    ensures forall k :: 0 <= k < SLOTS ==> Slots(sec, disk)[k] == if k == 0 then blk else 0
  {
    var flat := Flat(sec, disk);
    forall p | 0 <= p < FLAT
      ensures flat[p] == if p == 0 then DirEntry(DOT_NAME, no, FT_DIRECTORY)
                         else if p == 1 then DirEntry(DOTDOT_NAME, parent, FT_DIRECTORY) else NO_ENTRY
    {
      if p < 21 {
        SlotIndex(0, p);
        DotEntries(no, parent, p);
      } else {
        assert p / 21 >= 1;
      }
    }
    CountTwo(Flags(flat));
    DirectSlots(sec, disk, sec, disk);
  }

  lemma NewDirOnVolume(g: Image, no: u32, parent: u32, blk: u32, kind: Kind)
    requires Geometry(g) && no < 256 && I(g, no) == NewDirInode(no, blk) && kind.DirKind?
    requires g.ds <= blk < |g.disk| && g.disk[blk] == DotSector(no, parent)
    requires blk - g.ds < |g.bits| && g.bits[blk - g.ds]
    ensures InodeOK(g, no, kind) && Blk(g, no) == {blk} && IsBlankDir(FlatI(g, no), no, parent)
  {
    hide DirShape, IsBlankDir, Slots, Flat, Loaded;
    NewDirIsGood(I(g, no).sectors, g.disk, no, parent, blk);
    var slots := SlotsI(g, no);
    assert slots[0] == blk;
  }

  /** The block of the root directory is taken, so a new block is never the first one. */
  lemma RootBlockTaken(g: Image, kinds: map<u32, Kind>)
    requires Consistent(g, kinds)
    ensures |g.bits| > 0 && g.bits[0]
  {
    assert InodeOK(g, 0, kinds[0]);
    hide NamesOK, StoreOK, CacheOK, DirShape, Owns, Slots, Loaded, FileShape;
    assert SlotsI(g, 0)[0] == I(g, 0).sectors[0];
    FirstOwned(SlotsI(g, 0), g.bits, g.ds, |g.disk|);
  }

  lemma FirstOwned(slots: seq<u32>, bits: seq<bool>, ds: nat, limit: nat)
    requires Owns(slots, bits, ds, limit) && |slots| > 0 && slots[0] == ds > 0
    ensures |bits| > 0 && bits[0]
  {
  }

  /** A directory as the open inode `i` shows it, on a volume where blocks are set aside. */
  lemma DirIsGood(g: Image, kinds: map<u32, Kind>, q: set<u32>, d: u32, i: Inode)
    requires Geometry(g) && d in kinds && kinds[d].DirKind? && d < MAX_FILES_PER_PART
    requires |i.sectors| == 13 && I(g, d) == Pure(i)
    requires StoreOK(g, kinds, q)
    ensures GoodDir(i, g.disk, g.bits, g.ds) && DirBlocks(i.sectors, g.disk, g.bits, g.ds)
    ensures FlatI(g, d) == Flat(i.sectors, g.disk)
  {
    assert InodeOK(g, d, kinds[d]);
    hide StoreOK, Owns, DirShape;
    DirHasNoTable(i, g.disk);
  }

  /** The volume is as it should be, but for the block `b`, whose bit is set and which nobody owns. */
  ghost predicate Leaks(g: Image, kinds: map<u32, Kind>, b: u32) {
    && Geometry(g) && NumbersOK(g, kinds) && CacheOK(g, kinds) && StoreOK(g, kinds, {b})
    && RootOK(g) && NamesOK(g, kinds)
    && g.ds <= b && b - g.ds < |g.bits| && g.bits[b - g.ds] && !Owned(g, kinds, b)
  }

  /** Nothing happened but that block `b` got lost. */
  lemma LeakedOnly(g: Image, g': Image, kinds: map<u32, Kind>, b: u32)
    requires Geometry(g') && g'.open == g.open && g'.ibits == g.ibits
    requires StoreOK(g', kinds, {b})
    requires Geometry(g) && forall m :: m in kinds ==> m < MAX_FILES_PER_PART && Untouched(g, g', m)
    requires g'.ds == g.ds
    requires Consistent(g, kinds)
    ensures Leaks(g', kinds, b)
  {
    hide StoreOK, NamesOK, CacheOK, I, FlatI, Untouched, Geometry, Owned;
    forall m | m in kinds
      ensures m < MAX_FILES_PER_PART && I(g', m) == I(g, m) && FlatI(g', m) == FlatI(g, m)
    {
      UntouchedParts(g, g', m);
    }
    NamesKept(g, g', kinds);
    SameCache(g, g', kinds);
    PendingIsLost(g', kinds, b);
  }

  lemma SameCache(g: Image, g': Image, kinds: map<u32, Kind>)
    requires Geometry(g) && Geometry(g') && g'.open == g.open && CacheOK(g, kinds)
    requires forall m :: m in kinds && m < MAX_FILES_PER_PART ==> I(g', m) == I(g, m)
    ensures CacheOK(g', kinds)
  {
    hide I, Geometry;
  }

  lemma PendingIsLost(g: Image, kinds: map<u32, Kind>, b: u32)
    requires Geometry(g) && StoreOK(g, kinds, {b})
    ensures g.ds <= b && b - g.ds < |g.bits| && g.bits[b - g.ds] && !Owned(g, kinds, b)
  {
    hide Geometry, InodeOK, Blk;
    assert b in {b};
  }

  /** The number `no` and the block `blk`, which holds `.` and `..`, are set aside. */
  ghost predicate Prepared(g: Image, g': Image, kinds: map<u32, Kind>, d: u32, no: u32, blk: u32) {
    && Geometry(g) && Geometry(g') && d < 256 && 0 < no < 256 && no !in kinds
    && |g.ibits| == MAX_FILES_PER_PART && !g.ibits[no] && g'.ibits == g.ibits[no := true]
    && g'.open == g.open && g'.ds == g.ds && g'.lba == g.lba && |g'.disk| == |g.disk| && |g'.bits| == |g.bits|
    && (forall j: u32 :: j < no ==> j in kinds)
    && g.ds < blk < |g.disk| && blk - g.ds < |g.bits| && !g.bits[blk - g.ds] && g'.disk[blk] == DotSector(no, d)
    && FreeCount(g'.bits) == FreeCount(g.bits) - 1
    && StoreOK(g', kinds, {blk})
    && forall m :: m in kinds ==> m < MAX_FILES_PER_PART && Untouched(g, g', m)
  }

  lemma BlockSetAside(g: Image, g0: Image, g1: Image, kinds: map<u32, Kind>, d: u32, no: u32, b: u32)
    requires Geometry(g0) && Geometry(g) && g0 == g.(ibits := g0.ibits) && |g1.disk| == |g0.disk|
    requires g1 == g0.(disk := g1.disk, bits := g1.bits) && Taken(g0.bits, g1.bits, g0.ds, |g0.disk|, {b})
    requires DataKept(g0.disk, g1.disk, g0.ds, {b}) && TableKept(g0.disk, g1.disk, g0.lba)
    requires d < 256 && 0 < no < 256 && no !in kinds && |g.ibits| == MAX_FILES_PER_PART && !g.ibits[no]
    requires forall j: u32 :: j < no ==> j in kinds
    requires g0.ibits == g.ibits[no := true] && b < |g1.disk| && g1.disk[b] == DotSector(no, d)
    requires FreeCount(g1.bits) == FreeCount(g.bits) - 1 && |g.bits| > 0 && g.bits[0]
    requires StoreOK(g0, kinds, {}) && 0 in kinds
    ensures Prepared(g, g1, kinds, d, no, b) && b != g.ds
  {
    hide StoreOK, Untouched, FlatI, I, Record, FreeCount, DotSector;
    assert b in {b};
    forall m: nat | m < MAX_FILES_PER_PART
      ensures Record(g1.disk, g0.lba, m) == Record(g0.disk, g0.lba, m)
    {
      RecordKept(g0.disk, g1.disk, g0.lba, m);
    }
    PendStep(g0, g1, kinds, b);
    SameUntouched(g, g0, kinds);
    forall m | m in kinds
      ensures m < MAX_FILES_PER_PART && Untouched(g, g1, m)
    {
      UntouchedTwice(g, g0, g1, m);
    }
  }

  /** Lines 552-589: the number and the block of the new directory. */
  method PrepareDir(part: Partition, d: u32, ghost kinds: map<u32, Kind>) returns (ok: bool, no: u32, blockLba: u32)
    requires part.Valid()
    requires RoomFor(Snap(part), kinds, d)
    requires Consistent(Snap(part), kinds)
    modifies part`disk, part.blockBitmap, part.blockBitmap.bits, part.inodeBitmap, part.inodeBitmap.bits
    ensures part.Valid()
    ensures ok <==> FreeCount(old(part.Bits())) > 0
    ensures !ok ==> Snap(part) == old(Snap(part))
    ensures ok ==> Prepared(old(Snap(part)), Snap(part), kinds, d, no, blockLba)
    ensures ok ==> Recorded(old(Snap(part)).(ibits := part.InodeBits()), Snap(part), {})
                   && part.disk[part.inodeBitmapLba] == old(part.disk)[part.inodeBitmapLba]
  {
    hide StoreOK, NamesOK, CacheOK, RootOK, Owns, GoodDir, DirBlocks, Untouched, FlatI, I, Record, InodeOK, Live,
         DotSector, FreeCount, Prepared, Taken, DataKept, TableKept, Recorded;
    ghost var g := Snap(part);
    RootBlockTaken(g, kinds);
    RoomParts(g, kinds, d);
    no := TakeNumber(part, kinds, d);
    ghost var g0 := Snap(part);
    var lba := StoreInNewBlock(part, DotSector(no, d));
    ok, blockLba := lba != -1, 0;
    if !ok {
      part.inodeBitmap.Set(no, false);
      assert part.InodeBits() == g.ibits;
      return;
    }
    blockLba := lba;
    BlockSetAside(g, g0, Snap(part), kinds, d, no, blockLba);
    var blockBitmapIdx := blockLba - part.dataStartLba;
    assert blockBitmapIdx != 0;
  }

  /** The parent is still as it was when the entry is made. */
  lemma ReadyToEnter(g: Image, g1: Image, kinds: map<u32, Kind>, d: u32, no: u32, blk: u32)
    requires Prepared(g, g1, kinds, d, no, blk) && RoomFor(g, kinds, d)
    requires Consistent(g, kinds)
    ensures d in g1.open && |g1.open[d].sectors| == 13 && I(g1, d) == Pure(g1.open[d]) && I(g1, d) == I(g, d)
    ensures GoodDir(g1.open[d], g1.disk, g1.bits, g1.ds) && DirBlocks(g1.open[d].sectors, g1.disk, g1.bits, g1.ds)
    ensures exists x :: 0 <= x < FLAT && !Live(FlatI(g1, d)[x])
    ensures forall x :: 2 <= x < FLAT && Live(FlatI(g1, d)[x]) ==> FlatI(g1, d)[x].ino != no
    ensures g1.open[d].size <= ENTRY_SIZE * FLAT && g1.open[d].no == d && 1 <= g1.open[d].openCnts < 0xffff_ffff
    ensures FlatI(g1, d) == FlatI(g, d) && NeedsBlock(I(g1, d).sectors, g1.disk) == NeedsBlock(I(g, d).sectors, g.disk)
  {
    hide StoreOK, NamesOK, CacheOK, RootOK, Owns, GoodDir, DirBlocks, Untouched, FlatI, I, Live, DotSector, FreeCount,
         NeedsBlock;
    RoomParts(g, kinds, d);
    BeforeEntry(g, kinds, d);
    UntouchedParts(g, g1, d);
    DirIsGood(g1, kinds, {blk}, d, g1.open[d]);
    SameNeed(g, g1, d);
  }

  lemma SameNeed(g: Image, g1: Image, d: u32)
    requires Geometry(g) && Geometry(g1) && d < MAX_FILES_PER_PART && FlatI(g1, d) == FlatI(g, d) && I(g1, d) == I(g, d)
    ensures NeedsBlock(I(g1, d).sectors, g1.disk) == NeedsBlock(I(g, d).sectors, g.disk)
  {
    hide Loaded, FirstFree, Flat;
  }

  /** Giving the number back does not give the block back. */
  lemma LeakedAfter(g: Image, g1: Image, g2: Image, kinds: map<u32, Kind>, d: u32, no: u32, blk: u32)
    requires Prepared(g, g1, kinds, d, no, blk) && g2 == g1.(ibits := g.ibits)
    requires Consistent(g, kinds)
    ensures Leaks(g2, kinds, blk)
    ensures blk >= g.ds && blk - g.ds < |g.bits| && !g.bits[blk - g.ds]
  {
    hide StoreOK, NamesOK, CacheOK, RootOK, Untouched, I, FlatI, FreeCount, DotSector, Leaks;
    StoreSame(g1, g2, kinds, {blk});
    SameUntouched(g1, g2, kinds);
    UntouchedAll(g, g1, g2, kinds);
    LeakedOnly(g, g2, kinds, blk);
  }

  /** All three stages of `sys_mkdir`: `g1` is prepared, `g2` has the entry, and `g3` the record. */
  lemma DirAppears(g: Image, g1: Image, g2: Image, g3: Image, kinds: map<u32, Kind>, d: u32, i: Inode, p: nat,
                   e: DirEntry, no: u32, blk: u32)
    requires Prepared(g, g1, kinds, d, no, blk) && Geometry(g2) && Geometry(g3)
    requires d in kinds && d in g.open && kinds[d].DirKind?
    requires |g2.disk| == |g.disk| && g2.ds == g.ds && g2.lba == g.lba && |g2.bits| == |g.bits|
             && StoreOK(g2, kinds, {blk})
    requires forall m :: m in kinds && m != d ==> m < MAX_FILES_PER_PART && Untouched(g1, g2, m)
    requires I(g2, d) == Pure(i) && i.no == d && 1 <= i.openCnts < 0xffff_ffff
    requires 2 <= p < FLAT && FlatI(g2, d) == FlatI(g1, d)[p := e] && FirstFree(FlatI(g1, d), p)
    requires Extends(I(g1, d).sectors, I(g2, d).sectors) && g2.disk[blk] == g1.disk[blk]
    requires Live(e) && e.ino == no && e.ftype == FT_DIRECTORY
    requires RestKept(g2, g3, no, {}) && g3.bits == g2.bits && g3.ibits == g1.ibits
    requires I(g3, no) == NewDirInode(no, blk) && g3.open == g.open[d := i]
    requires no !in g.open
    requires Consistent(g, kinds)
    ensures Consistent(g3, kinds[no := DirKind(d, kinds[d].depth + 1)])
    ensures Created(g, g3, kinds, kinds[no := DirKind(d, kinds[d].depth + 1)], d, e, DirKind(d, kinds[d].depth + 1))
  {
    hide StoreOK, NamesOK, CacheOK, RootOK, Untouched, FlatI, I, Record, InodeOK, Blk, Live, DotSector, FreeCount,
         IsBlankDir;
    PendingIsLost(g2, kinds, blk);
    NewDirOnVolume(g3, no, d, blk, DirKind(d, kinds[d].depth + 1));
    assert OpenAfter(g, g3, d, i, no);
    InodeAppears(g, g1, g2, g3, kinds, DirKind(d, kinds[d].depth + 1), d, i, p, e, no, {blk});
  }

  /** The number was given back before it reached the disk. */
  lemma LeakRecorded(g: Image, g1: Image, g2: Image)
    requires HasMaps(g) && Recorded(g.(ibits := g1.ibits), g1, {}) && g2 == g1.(ibits := g.ibits)
    requires g1.disk[g.lba - 1] == g.disk[g.lba - 1]
    ensures Recorded(g, g2, {})
  {
    var g0 := g.(ibits := g1.ibits);
    assert MapLba(g0) == MapLba(g) && MapLba(g1) == MapLba(g) && MapLba(g2) == MapLba(g);
    forall i | 0 <= i < |g.bits|
      ensures Saved(g0, i) == Saved(g, i) && Saved(g2, i) == Saved(g1, i)
    {
    }
    forall no | 0 <= no < MAX_FILES_PER_PART
      ensures InodeSaved(g2, no) == InodeSaved(g, no)
    {
      assert no / 4096 == 0;
    }
    hide Saved, InodeSaved;
  }

  datatype MkDirResult = Made | NoBlock | Leaked

  /** `sys_mkdir` in the open directory `d`. It makes an empty directory iff there is a block for it and,
      when the entry needs one, another. Without any block it leaves no trace; with one block too
      few it has lost that block for good. */
  method MkDir(part: Partition, d: u32, filename: seq<byte>, ghost kinds: map<u32, Kind>)
    returns (r: MkDirResult, no: u32, ghost kinds': map<u32, Kind>, ghost blk: u32)
    requires part.Valid()
    requires |filename| == 16 && Child(DirEntry(filename, 0, FT_DIRECTORY))
    requires RoomFor(Snap(part), kinds, d)
    requires Consistent(Snap(part), kinds)
    modifies part`disk, part`open, part.blockBitmap, part.blockBitmap.bits, part.inodeBitmap, part.inodeBitmap.bits
    ensures part.Valid()
    ensures r == NoBlock <==> FreeCount(old(part.Bits())) == 0
    ensures r == Leaked <==> FreeCount(old(part.Bits())) == 1
                             && NeedsBlock(I(old(Snap(part)), d).sectors, old(part.disk))
    ensures r == NoBlock ==> Snap(part) == old(Snap(part))
    ensures r == Leaked ==> Leaks(Snap(part), kinds, blk)
    ensures r == Leaked ==> blk >= part.dataStartLba && blk - part.dataStartLba < |old(part.Bits())|
                            && !old(part.Bits())[blk - part.dataStartLba]
    ensures r == Made ==> Consistent(Snap(part), kinds')
    ensures r == Made ==> 0 < no < 256
    ensures r == Made ==> Created(old(Snap(part)), Snap(part), kinds, kinds', d, DirEntry(filename, no, FT_DIRECTORY),
                                  DirKind(d, kinds[d].depth + 1))
    ensures r == Made ==> FreeCount(part.Bits()) + 1 + EntryBlocks(old(Snap(part)), d) == FreeCount(old(part.Bits()))
    ensures r == Made ==> d in part.open && part.open == old(part.open)[d := part.open[d]]
    ensures r == Made ==> part.open[d].openCnts == old(part.open)[d].openCnts
    ensures r == Made ==> FilesKept(old(Snap(part)), Snap(part), kinds, {d})
    ensures Recorded(old(Snap(part)), Snap(part), {})
  {
    hide StoreOK, NamesOK, CacheOK, RootOK, Owns, GoodDir, DirBlocks, Untouched, FlatI, I, Record, InodeOK, Consistent,
         Created, NeedsBlock, Leaks, DotSector, FilesKept, FirstFree, FreeCount, Recorded, NumbersStored;
    ghost var g := Snap(part);
    SameRecorded(part, g);
    MapsOfValid(part);
    RoomParts(g, kinds, d);
    hide RoomFor;
    kinds', blk := kinds, 0;
    var ok, blockLba;
    ok, no, blockLba := PrepareDir(part, d, kinds);
    if !ok {
      return NoBlock, no, kinds, 0;
    }
    ghost var g1 := Snap(part);
    ReadyToEnter(g, g1, kinds, d, no, blockLba);
    var e := DirEntry(filename, no, FT_DIRECTORY);
    ghost var p;
    ok, p := EnterInParent(part, d, e, kinds, {blockLba});
    blk := blockLba;
    if !ok {
      part.inodeBitmap.Set(no, false);
      assert part.InodeBits() == g.ibits;
      LeakedAfter(g, g1, Snap(part), kinds, d, no, blk);
      LeakRecorded(g, g1, Snap(part));
      return Leaked, no, kinds, blk;
    }
    ghost var g2 := Snap(part);
    RecordedTwice(g.(ibits := g1.ibits), g1, g2, {});
    assert blockLba in {blockLba};
    StoreNewInode(part, NewDirInode(no, blockLba));
    kinds' := kinds[no := DirKind(d, kinds[d].depth + 1)];
    NumberRecorded(g, g.(ibits := g1.ibits), g2, Snap(part), Snap(part));
    DirAppears(g, g1, g2, Snap(part), kinds, d, part.open[d], p, e, no, blk);
    CreatedFiles(g, Snap(part), kinds, kinds', d, e, DirKind(d, kinds[d].depth + 1));
    r := Made;
  }

  lemma UntouchedAll(g: Image, g1: Image, g2: Image, kinds: map<u32, Kind>)
    requires Geometry(g) && Geometry(g1) && Geometry(g2) && |g1.disk| == |g.disk|
    requires forall m :: m in kinds ==> m < MAX_FILES_PER_PART && Untouched(g, g1, m) && Untouched(g1, g2, m)
    ensures forall m :: m in kinds ==> m < MAX_FILES_PER_PART && Untouched(g, g2, m)
  {
    hide Untouched;
    forall m | m in kinds
      ensures m < MAX_FILES_PER_PART && Untouched(g, g2, m)
    {
      UntouchedTwice(g, g1, g2, m);
    }
  }
}
