/** `file_create` of `src/fs/file.c`, behind the path search, and what `sys_mkdir` shares with it. */
module FsCreate {
  import opened Bytes
  import opened Bitmaps
  import opened Partitions
  import opened Images
  import opened BlockMap
  import opened InodeTable
  import opened Allocation
  import opened DirMap
  import opened DirOps
  import opened FsState
  import opened FsSteps
  import opened FsWrite

  /** `inode_init` on zeroed memory. */
  function FreshInode(no: u32): (i: Inode)
    ensures |i.sectors| == 13
  {
    Inode(no, 0, 0, 0, 0, 0, 0, 0, false, Zeros(13))
  }

  lemma DirSize(i: Inode, disk: seq<Sector>)
    requires |i.sectors| == 13 && DirShape(i.sectors, i.size, disk)
    ensures i.size <= ENTRY_SIZE * FLAT
  {
    var fs := Flags(Flat(i.sectors, disk));
    assert Count(fs) <= |multiset(fs)| == |fs|;
  }

  /** An open directory of a consistent volume. */
  lemma OpenDirIsGood(g: Image, kinds: map<u32, Kind>, d: u32)
    requires Consistent(g, kinds) && d in g.open && d in kinds && kinds[d].DirKind?
    ensures GoodDir(g.open[d], g.disk, g.bits, g.ds) && d < 256
    ensures I(g, d) == Pure(g.open[d]) && DirBlocks(g.open[d].sectors, g.disk, g.bits, g.ds)
    ensures g.open[d].size <= ENTRY_SIZE * FLAT && g.open[d].no == d && 1 <= g.open[d].openCnts < 0xffff_ffff
    ensures FlatI(g, d) == Flat(g.open[d].sectors, g.disk)
  {
    assert InodeOK(g, d, kinds[d]);
    hide NamesOK, StoreOK, Owns, DirShape;
    DirSize(g.open[d], g.disk);
    DirHasNoTable(g.open[d], g.disk);
  }

  lemma DirHasNoTable(i: Inode, disk: seq<Sector>)
    requires |i.sectors| == 13 && DirShape(i.sectors, i.size, disk)
    ensures i.sectors[TABLE] == 0 && i.sectors[0] != 0
  {
  }

  /** The first half of an insertion: the parent directory `d`, now `i`, took the entry at slot `p`. */
  lemma ParentStep(g: Image, g': Image, kinds: map<u32, Kind>, d: u32, i: Inode, b: nat, p: nat, e: DirEntry,
                   q: set<u32>)
    requires Geometry(g) && Geometry(g') && StoreOK(g, kinds, q) && d in kinds && kinds[d].DirKind? && d < 256
    requires |i.sectors| == 13 && i.no == d && I(g, d).size as nat + ENTRY_SIZE < 0x1_0000_0000
    requires Pure(i) == I(g, d).(size := I(g, d).size + ENTRY_SIZE, sectors := i.sectors)
    requires Inserted(I(g, d).sectors, g.disk, g.bits, i.sectors, g'.disk, g'.bits, g.ds, b, p, e)
    requires TableStored(g.disk, g'.disk, g.lba, d % 256, Encode(Pure(i)))
    requires g'.lba == g.lba && g'.ds == g.ds
    requires Child(e) && forall x :: 2 <= x < FLAT && Live(FlatI(g, d)[x]) ==> FlatI(g, d)[x].ino != e.ino
    ensures StoreOK(g', kinds, q)
    ensures forall m :: m in kinds && m != d ==> m < MAX_FILES_PER_PART && Untouched(g, g', m)
    ensures I(g', d) == Pure(i) && FlatI(g', d) == FlatI(g, d)[p := e]
    ensures 2 <= p < FLAT && FirstFree(FlatI(g, d), p) && Extends(I(g, d).sectors, I(g', d).sectors)
    ensures forall x :: x in q ==> x < |g'.disk| && g'.disk[x] == g.disk[x]
  {
    assert InodeOK(g, d, kinds[d]);
    hide StoreOK, Owns, Grew, Untouched, Inserted, DirShape, Flat, Slots, BlocksOf, SlotsI, Blk, FirstFree;
    StoredIs(g, g', d, i);
    assert DirShape(I(g, d).sectors, I(g, d).size, g.disk);
    assert FlatI(g, d) == Flat(I(g, d).sectors, g.disk);
    InsertedShape(I(g, d), g.disk, g.bits, i.sectors, g'.disk, g'.bits, g.ds, b, p, e);
    InsertedBlock(g, g', d, i, b, p, e);
    GrowStep(g, g', kinds, d, q, {i.sectors[b]});
    PendingSame(g, g', kinds, d, q, i.sectors[b]);
  }

  lemma PendingSame(g: Image, g': Image, kinds: map<u32, Kind>, d: u32, q: set<u32>, b: u32)
    requires Geometry(g) && Geometry(g') && StoreOK(g, kinds, q) && StoreOK(g', kinds, q)
    requires d in kinds && d < MAX_FILES_PER_PART && b in Blk(g', d) && DataKept(g.disk, g'.disk, g.ds, {b})
    ensures forall x :: x in q ==> x < |g'.disk| && g'.disk[x] == g.disk[x]
  {
    hide InodeOK, Blk, Geometry, Owned;
  }

  lemma InsertedShape(i: Inode, disk: seq<Sector>, bits: seq<bool>, sec': seq<u32>, disk': seq<Sector>,
                      bits': seq<bool>,
                      ds: nat, b: nat, p: nat, e: DirEntry)
    requires |i.sectors| == 13 && DirShape(i.sectors, i.size, disk)
    requires Inserted(i.sectors, disk, bits, sec', disk', bits', ds, b, p, e)
    requires Child(e) && forall x :: 2 <= x < FLAT && Live(Flat(i.sectors, disk)[x]) ==>
               Flat(i.sectors, disk)[x].ino != e.ino
    ensures DirShape(sec', i.size + ENTRY_SIZE, disk')
    ensures Flat(sec', disk') == Flat(i.sectors, disk)[p := e]
    ensures 2 <= p < FLAT && FirstFree(Flat(i.sectors, disk), p) && Extends(i.sectors, sec')
  {
    hide Grew, Flat, LiveCount;
    DotsFirst(i, disk);
    InsertKeepsShape(i.sectors, i.size, disk, sec', disk', b, p, e);
  }

  lemma InsertedBlock(g: Image, g': Image, d: u32, i: Inode, b: nat, p: nat, e: DirEntry)
    requires Geometry(g) && Geometry(g') && d < 256 && |i.sectors| == 13 && I(g', d) == Pure(i)
    requires Inserted(I(g, d).sectors, g.disk, g.bits, i.sectors, g'.disk, g'.bits, g.ds, b, p, e)
    requires g'.lba == g.lba && g'.ds == g.ds
    requires forall m: nat :: m < MAX_FILES_PER_PART && m != d ==> Record(g'.disk, g.lba, m) == Record(g.disk, g.lba, m)
    ensures b < DIRECT && {i.sectors[b]} <= Blk(g', d)
    ensures RestKept(g, g', d, {i.sectors[b]})
    ensures Grew(SlotsI(g, d), g.bits, SlotsI(g', d), g'.bits, g.ds, |g.disk|)
  {
    hide Grew, Flat, Record;
    SizesSame(SlotsI(g, d), g.bits, SlotsI(g', d), g'.bits, g.ds, |g'.disk|);
    assert SlotsI(g', d)[b] == i.sectors[b];
  }

  lemma DotsFirst(i: Inode, disk: seq<Sector>)
    requires |i.sectors| == 13 && DirShape(i.sectors, i.size, disk)
    ensures Live(Flat(i.sectors, disk)[0]) && Live(Flat(i.sectors, disk)[1]) && i.sectors[0] != 0
  {
  }

  /** Untouched twice is untouched. */
  lemma UntouchedTwice(g: Image, g1: Image, g2: Image, m: u32)
    requires Geometry(g) && Geometry(g1) && Geometry(g2) && m < MAX_FILES_PER_PART
    requires |g1.disk| == |g.disk|
    requires Untouched(g, g1, m) && Untouched(g1, g2, m)
    ensures Untouched(g, g2, m)
  {
    hide I, FlatI;
  }

  /** The open inodes after an entry was made: the directory, perhaps the new inode, and the others. */
  ghost predicate OpenAfter(g: Image, g': Image, d: u32, i: Inode, no: u32)
    requires Geometry(g')
  {
    forall m :: m in g'.open ==>
      if m == d then g'.open[m] == i
      else if m == no then no < MAX_FILES_PER_PART && g'.open[no].openCnts == 1 && I(g', no) == Pure(g'.open[no])
      else m in g.open && g'.open[m] == g.open[m]
  }

  /** The slots of a new directory `no` below `d`. */
  ghost predicate IsBlankDir(flat: seq<DirEntry>, no: u32, d: u32)
    requires |flat| == FLAT
  {
    && flat[0].ino == no && flat[0].ftype == FT_DIRECTORY && flat[1].ino == d && flat[1].ftype == FT_DIRECTORY
    && forall q :: 2 <= q < FLAT ==> !Live(flat[q])
  }

  /** The volume after both halves: `g1` has the entry, `g2` has the new inode. */
  lemma EntryKeepsVolume(g: Image, g1: Image, g2: Image, kinds: map<u32, Kind>, d: u32, i: Inode, p: nat, e: DirEntry,
                         no: u32, kind: Kind)
    requires Geometry(g) && Geometry(g1) && Geometry(g2) && |g1.disk| == |g.disk| && g2.ds == g.ds
    requires d in kinds && d < 256 && kinds[d].DirKind? && no !in kinds && no != 0 && no < 256
    requires I(g1, d) == Pure(i) && i.no == d && 1 <= i.openCnts < 0xffff_ffff
    requires 2 <= p < FLAT && FlatI(g1, d) == FlatI(g, d)[p := e] && !Live(FlatI(g, d)[p])
    requires Extends(I(g, d).sectors, I(g1, d).sectors)
    requires Live(e) && e.ino == no && e.ftype == if kind.DirKind? then FT_DIRECTORY else FT_REGULAR
    requires kind.DirKind? ==> kind == DirKind(d, kinds[d].depth + 1)
    requires kind.DirKind? ==> IsBlankDir(FlatI(g2, no), no, d)
    requires Clean(I(g2, no), no) && OpenAfter(g, g2, d, i, no)
    requires |g.ibits| == MAX_FILES_PER_PART && g2.ibits == g.ibits[no := true]
    requires forall m :: m in kinds && m != d ==> m < MAX_FILES_PER_PART && Untouched(g, g1, m)
    requires forall m :: m in kinds ==> m < MAX_FILES_PER_PART && Untouched(g1, g2, m)
    requires StoreOK(g2, kinds[no := kind], {})
    requires NumbersOK(g, kinds) && CacheOK(g, kinds) && RootOK(g)
    requires NamesOK(g, kinds)
    ensures Consistent(g2, kinds[no := kind])
    ensures forall m :: m in kinds && m != d ==> Untouched(g, g2, m)
  {
    hide StoreOK, NamesOK, I, FlatI, Untouched, Geometry, Pure, OpenAfter, CacheOK, RootOK, Extends, IsBlankDir, Live;
    forall m | m in kinds
      ensures m < MAX_FILES_PER_PART && I(g2, m) == I(g1, m) && FlatI(g2, m) == FlatI(g1, m)
      ensures m != d ==> Untouched(g, g2, m) && I(g2, m) == I(g, m) && FlatI(g2, m) == FlatI(g, m)
    {
      UntouchedParts(g1, g2, m);
      if m != d {
        UntouchedParts(g, g1, m);
        UntouchedTwice(g, g1, g2, m);
      }
    }
    SameRoot(g, g1, g2, d);
    CacheAfterEntry(g, g2, kinds, d, i, no, kind);
    BlankDirParts(g2, kind, no, d);
    NamesAfterInsert(g, g2, kinds, no, kind, d, p, e);
  }

  lemma BlankDirParts(g: Image, kind: Kind, no: u32, d: u32)
    requires Geometry(g) && no < MAX_FILES_PER_PART && (kind.DirKind? ==> IsBlankDir(FlatI(g, no), no, d))
    ensures kind.DirKind? ==> FlatI(g, no)[0].ino == no && FlatI(g, no)[1].ino == d
                              && FlatI(g, no)[0].ftype == FT_DIRECTORY && FlatI(g, no)[1].ftype == FT_DIRECTORY
                              && forall q :: 2 <= q < FLAT ==> !Live(FlatI(g, no)[q])
  {
  }

  lemma SameRoot(g: Image, g1: Image, g2: Image, d: u32)
    requires Geometry(g) && Geometry(g1) && Geometry(g2) && RootOK(g) && g2.ds == g.ds && d < MAX_FILES_PER_PART
    requires Extends(I(g, d).sectors, I(g1, d).sectors) && I(g2, d) == I(g1, d)
    requires d != 0 ==> I(g2, 0) == I(g, 0)
    ensures RootOK(g2)
  {
    hide I;
  }

  lemma CacheAfterEntry(g: Image, g': Image, kinds: map<u32, Kind>, d: u32, i: Inode, no: u32, kind: Kind)
    requires Geometry(g) && Geometry(g') && d in kinds && d < 256 && no !in kinds && no < 256
    requires I(g', d) == Pure(i) && i.no == d && 1 <= i.openCnts < 0xffff_ffff
    requires Clean(I(g', no), no) && OpenAfter(g, g', d, i, no)
    requires forall m :: m in kinds && m != d && m < MAX_FILES_PER_PART ==> I(g', m) == I(g, m)
    requires CacheOK(g, kinds)
    ensures CacheOK(g', kinds[no := kind])
  {
    hide I, Geometry;
  }

  lemma BlankInode(g: Image, no: u32)
    requires Geometry(g) && no < MAX_FILES_PER_PART && I(g, no) == FreshInode(no)
    ensures InodeOK(g, no, FileKind) && Blk(g, no) == {}
  {
    assert Table(Zeros(13), g.disk) == Zeros(128);
  }

  /** The insertion survives a change of the disk outside the data area. */
  lemma InsertedSynced(sec: seq<u32>, disk: seq<Sector>, bits: seq<bool>, sec': seq<u32>, disk1: seq<Sector>,
                       bits': seq<bool>,
                       ds: nat, b: nat, p: nat, e: DirEntry, disk2: seq<Sector>)
    requires DirBlocks(sec, disk, bits, ds) && Inserted(sec, disk, bits, sec', disk1, bits', ds, b, p, e)
    requires DataKept(disk1, disk2, ds, {})
    ensures Inserted(sec, disk, bits, sec', disk2, bits', ds, b, p, e)
  {
    hide FirstFree;
    var slots, slots' := Slots(sec, disk), Slots(sec', disk1);
    GrewKeepsOwns(slots, bits, slots', bits', ds, |disk|);
    SlotsKept(sec', disk1, disk2);
    hide Grew, Owns;
    assert DirBlocks(sec', disk1, bits', ds);
    forall q | 0 <= q < FLAT
      ensures SlotAt(sec', disk2, q) == SlotAt(sec', disk1, q)
    {
      if sec'[q / 21] != 0 {
        DirBlock(sec', disk1, bits', ds, q / 21);
      }
    }
    assert Flat(sec', disk2) == Flat(sec', disk1);
  }

  /** The number of blocks that one more entry in directory `d` needs. */
  ghost function EntryBlocks(g: Image, d: u32): nat
    requires Geometry(g) && d < MAX_FILES_PER_PART
  {
    if NeedsBlock(I(g, d).sectors, g.disk) then 1 else 0
  }

  /** `sync_dir_entry` on the open directory `d` followed by `inode_sync` of it. */
  method EnterInParent(part: Partition, d: u32, e: DirEntry, ghost kinds: map<u32, Kind>, ghost q: set<u32>)
    returns (ok: bool, ghost p: nat)
    requires part.Valid() && Geometry(Snap(part)) && d in part.open && d in kinds && d < 256 && kinds[d].DirKind?
    requires GoodDir(part.open[d], part.disk, part.Bits(), part.dataStartLba) && I(Snap(part), d) == Pure(part.open[d])
    requires DirBlocks(part.open[d].sectors, part.disk, part.Bits(), part.dataStartLba)
    requires part.open[d].no == d && part.open[d].size <= ENTRY_SIZE * FLAT
    requires exists x :: 0 <= x < FLAT && !Live(FlatI(Snap(part), d)[x])
    requires |e.filename| == 16 && Child(e)
    requires forall x :: 2 <= x < FLAT && Live(FlatI(Snap(part), d)[x]) ==> FlatI(Snap(part), d)[x].ino != e.ino
    requires StoreOK(Snap(part), kinds, q)
    modifies part`disk, part`open, part.blockBitmap, part.blockBitmap.bits
    ensures part.Valid() && Geometry(Snap(part)) && |part.disk| == |old(part.disk)|
    ensures !ok ==> Snap(part) == old(Snap(part))
    ensures ok <==> !(NeedsBlock(I(old(Snap(part)), d).sectors, old(part.disk)) && FreeCount(old(part.Bits())) == 0)
    ensures ok ==> FreeCount(part.Bits()) + EntryBlocks(old(Snap(part)), d) == FreeCount(old(part.Bits()))
    ensures ok ==> forall b :: b in q ==> b < |part.disk| && part.disk[b] == old(part.disk)[b]
    ensures ok ==> d in part.open && part.open == old(part.open)[d := part.open[d]]
    ensures ok ==> part.open[d] == old(part.open)[d].(size := part.open[d].size, sectors := part.open[d].sectors)
    ensures ok ==> StoreOK(Snap(part), kinds, q)
    ensures ok ==> forall m :: m in kinds && m != d ==>
              m < MAX_FILES_PER_PART && Untouched(old(Snap(part)), Snap(part), m)
    ensures ok ==> 2 <= p < FLAT && FirstFree(FlatI(old(Snap(part)), d), p)
    ensures ok ==> I(Snap(part), d) == Pure(part.open[d]) && FlatI(Snap(part), d) == FlatI(old(Snap(part)), d)[p := e]
    ensures ok ==> Extends(I(old(Snap(part)), d).sectors, I(Snap(part), d).sectors)
    ensures Recorded(old(Snap(part)), Snap(part), {})
  {
    hide StoreOK, Owns, GoodDir, DirShape, Flat, Untouched, Inserted, Slots, Record, TableStored, DirBlocks, Loaded,
         NeedsBlock, FreeCount, FirstFree, Recorded;
    ghost var g := Snap(part);
    var inode;
    ghost var b;
    ok, inode, b, p := SyncDirEntry(part, part.open[d], e);
    if ok {
      ghost var disk1, g1 := part.disk, Snap(part);
      part.open := part.open[d := inode];
      InodeSync(part, inode);
      OutsideRecorded(part, g, g1, {});
      StoredAfterKept(g.disk, disk1, part.disk, g.lba, d % 256, Encode(Pure(inode)));
      InsertedSynced(g.open[d].sectors, g.disk, g.bits, inode.sectors, disk1, part.Bits(), g.ds, b, p, e, part.disk);
      ParentStep(g, Snap(part), kinds, d, inode, b, p, e, q);
    }
  }

  /** The sector of the inode bit map was written, and none before it. */
  ghost predicate NumbersStored(g: Image, g': Image) {
    && SamePlace(g, g') && g'.bits == g.bits && g'.ibits == g.ibits
    && (forall k :: 0 <= k < g.lba - 1 ==> g'.disk[k] == g.disk[k])
    && forall no :: 0 <= no < MAX_FILES_PER_PART ==> InodeSaved(g', no)
  }

  lemma NumbersAreStored(part: Partition, g: Image, disk1: seq<Sector>)
    requires part.Valid() && |disk1| == |part.disk| && Snap(part) == g.(disk := part.disk) && |g.disk| == |disk1|
    requires forall k :: 0 <= k < g.lba ==> disk1[k] == g.disk[k]
    requires part.inodeBitmap.bits.Length >= 512 && part.inodeBitmapLba < |disk1|
    requires part.disk == disk1[part.inodeBitmapLba := BitSector(part.inodeBitmap.bits[..], 0)]
    ensures NumbersStored(g, Snap(part))
  {
    MapsOfValid(part);
    BytesOfValid(part);
    StillPlaced(Snap(part), g);
    forall no | 0 <= no < MAX_FILES_PER_PART
      ensures InodeSaved(Snap(part), no)
    {
      BitInSector(part.inodeBitmap.bits[..], part.disk, g.lba - 1, no);
    }
  }

  /** A number was taken, an entry was made, and the sector of the inode bit map was written at last. */
  lemma NumberRecorded(g: Image, g0: Image, g1: Image, g2: Image, g3: Image)
    requires HasMaps(g) && g0 == g.(ibits := g0.ibits) && Recorded(g0, g1, {}) && NumbersStored(g1, g2)
    requires g3 == g2.(open := g3.open)
    ensures Recorded(g, g3, {})
  {
    hide DiskBit;
    assert MapLba(g0) == MapLba(g) && MapLba(g1) == MapLba(g) && MapLba(g2) == MapLba(g);
    forall i | 0 <= i < |g.bits|
      ensures Saved(g0, i) == Saved(g, i) && Saved(g3, i) == Saved(g1, i)
    {
      SavedBefore(g1, g2, i);
    }
    forall no | 0 <= no < MAX_FILES_PER_PART
      ensures InodeSaved(g3, no)
    {
      assert InodeSaved(g2, no);
    }
    hide Saved, InodeSaved;
  }

  lemma SavedBefore(g: Image, g': Image, i: nat)
    requires SamePlace(g, g') && g'.bits == g.bits && i < |g.bits|
    requires forall k :: 0 <= k < g.lba - 1 ==> g'.disk[k] == g.disk[k]
    ensures Saved(g', i) == Saved(g, i)
  {
    assert i / 4096 < |g.bits| / 4096;
  }

  /** The last steps of both operations: the record of the new inode and the sector of the inode bit map
      are written. */
  method StoreNewInode(part: Partition, inode: Inode)
    requires part.Valid() && Geometry(Snap(part)) && |inode.sectors| == 13 && inode.no < 256 && Pure(inode) == inode
    modifies part`disk
    ensures part.Valid() && Geometry(Snap(part))
    ensures RestKept(old(Snap(part)), Snap(part), inode.no, {})
    ensures I(Snap(part), inode.no) == inode
    ensures NumbersStored(old(Snap(part)), Snap(part))
  {
    hide Record;
    ghost var g := Snap(part);
    InodeSync(part, inode);
    ghost var disk1 := part.disk;
    InodeBitmapSync(part, inode.no);
    NumbersAreStored(part, g, disk1);
    forall m: nat | m < MAX_FILES_PER_PART
      ensures Record(part.disk, g.lba, m) == Record(disk1, g.lba, m)
    {
      RecordKept(disk1, part.disk, g.lba, m);
    }
    LoadedAfter(part.disk, g.lba, inode);
  }

  /** What is mapped stays mapped to the same block. */
  ghost predicate Extends(sec: seq<u32>, sec': seq<u32>) {
    |sec| == |sec'| && forall k :: 0 <= k < |sec| && sec[k] != 0 ==> sec'[k] == sec[k]
  }

  /** The lowest free slot of a directory took the entry. */
  ghost predicate Entered(flat: seq<DirEntry>, flat': seq<DirEntry>, e: DirEntry)
    requires |flat| == FLAT
  {
    exists p: nat :: 2 <= p < FLAT && FirstFree(flat, p) && flat' == flat[p := e]
  }

  /** What both operations need to know of the volume before they start. */
  lemma BeforeEntry(g: Image, kinds: map<u32, Kind>, d: u32)
    requires Consistent(g, kinds) && d in g.open && d in kinds && kinds[d].DirKind?
    ensures forall m :: m in g.open ==> m in kinds
    ensures forall x :: 2 <= x < FLAT && Live(FlatI(g, d)[x]) ==> FlatI(g, d)[x].ino in kinds
  {
    hide StoreOK, CacheOK, Geometry, FlatI, Live;
    forall x | 2 <= x < FLAT && Live(FlatI(g, d)[x])
      ensures FlatI(g, d)[x].ino in kinds
    {
      assert ChildOf(g, kinds, d, x, FlatI(g, d)[x].ino);
      assert EntryOK(g, kinds, d, x, FlatI(g, d)[x].ino);
    }
    OpenInKinds(g, kinds);
  }

  lemma OpenInKinds(g: Image, kinds: map<u32, Kind>)
    requires Geometry(g) && CacheOK(g, kinds)
    ensures forall m :: m in g.open ==> m in kinds
  {
    hide Geometry, I;
  }

  /** The three stages of an operation that makes an inode: `g0` has its number and its blocks set aside,
      `g1` the entry for it in the directory `d`, and `g2` its record. */
  lemma InodeAppears(g: Image, g0: Image, g1: Image, g2: Image, kinds: map<u32, Kind>, kind: Kind,
                     d: u32, i: Inode, p: nat, e: DirEntry, no: u32, q: set<u32>)
    requires Geometry(g0) && Geometry(g1) && Geometry(g2)
    requires d in kinds && d < 256 && no !in kinds && no != 0 && no < 256 && d in g.open && kinds[d].DirKind?
    requires |g.ibits| == MAX_FILES_PER_PART && g2.ibits == g.ibits[no := true]
    requires |g0.disk| == |g1.disk| == |g.disk| && g1.ds == g0.ds == g.ds
    requires StoreOK(g1, kinds, q)
    requires Geometry(g) && forall m :: m in kinds ==> m < MAX_FILES_PER_PART && Untouched(g, g0, m)
    requires forall m :: m in kinds && m != d ==> m < MAX_FILES_PER_PART && Untouched(g0, g1, m)
    requires I(g1, d) == Pure(i) && i.no == d && 1 <= i.openCnts < 0xffff_ffff
    requires 2 <= p < FLAT && FlatI(g1, d) == FlatI(g0, d)[p := e] && FirstFree(FlatI(g0, d), p)
    requires forall j: u32 :: j < no ==> j in kinds
    requires Extends(I(g0, d).sectors, I(g1, d).sectors)
    requires Live(e) && e.ino == no && e.ftype == if kind.DirKind? then FT_DIRECTORY else FT_REGULAR
    requires RestKept(g1, g2, no, {}) && g2.bits == g1.bits
    requires Blk(g2, no) == q && InodeOK(g2, no, kind) && Clean(I(g2, no), no) && OpenAfter(g, g2, d, i, no)
    requires kind.DirKind? ==> kind == DirKind(d, kinds[d].depth + 1) && IsBlankDir(FlatI(g2, no), no, d)
    requires Consistent(g, kinds)
    ensures Consistent(g2, kinds[no := kind])
    ensures Created(g, g2, kinds, kinds[no := kind], d, e, kind)
  {
    hide StoreOK, NamesOK, CacheOK, RootOK, Untouched, FlatI, I, Record, InodeOK, Blk, Live, OpenAfter;
    AppearStep(g1, g2, kinds, no, kind, q);
    UntouchedParts(g, g0, d);
    UntouchedParts(g1, g2, d);
    forall m | m in kinds && m != d
      ensures m < MAX_FILES_PER_PART && Untouched(g, g1, m)
    {
      UntouchedTwice(g, g0, g1, m);
    }
    EntryKeepsVolume(g, g1, g2, kinds, d, i, p, e, no, kind);
  }

  lemma SameUntouched(g: Image, g0: Image, kinds: map<u32, Kind>)
    requires Geometry(g) && Geometry(g0) && forall m :: m in kinds ==> m < MAX_FILES_PER_PART
    requires g0.disk == g.disk && g0.lba == g.lba
    ensures forall m :: m in kinds ==> Untouched(g, g0, m)
  {
    forall m | m in kinds
      ensures Untouched(g, g0, m)
    {
      FlatSame(g, g0, m);
    }
  }

  lemma FileAppears(g: Image, g0: Image, g1: Image, g2: Image, kinds: map<u32, Kind>, d: u32, i: Inode, p: nat,
                    e: DirEntry, no: u32)
    requires Geometry(g0) && Geometry(g1) && Geometry(g2)
    requires d in kinds && d < 256 && no !in kinds && no != 0 && no < 256 && d in g.open && kinds[d].DirKind?
    requires |g.ibits| == MAX_FILES_PER_PART && g0 == g.(ibits := g.ibits[no := true])
    requires |g1.disk| == |g.disk| && g1.open == g.open[d := i] && g1.ibits == g0.ibits && g1.ds == g.ds
             && g1.lba == g.lba
    requires StoreOK(g1, kinds, {})
    requires forall m :: m in kinds && m != d ==> m < MAX_FILES_PER_PART && Untouched(g0, g1, m)
    requires I(g1, d) == Pure(i) && i.no == d && 1 <= i.openCnts < 0xffff_ffff
    requires 2 <= p < FLAT && FlatI(g1, d) == FlatI(g0, d)[p := e] && FirstFree(FlatI(g0, d), p)
    requires forall j: u32 :: j < no ==> j in kinds
    requires Extends(I(g0, d).sectors, I(g1, d).sectors)
    requires Live(e) && e.ino == no && e.ftype == FT_REGULAR
    requires RestKept(g1, g2, no, {}) && g2.bits == g1.bits && g2.ibits == g1.ibits
    requires I(g2, no) == FreshInode(no) && g2.open == g1.open[no := FreshInode(no).(openCnts := 1)]
    requires Consistent(g, kinds)
    ensures Consistent(g2, kinds[no := FileKind])
    ensures Created(g, g2, kinds, kinds[no := FileKind], d, e, FileKind)
  {
    hide StoreOK, NamesOK, CacheOK, RootOK, Untouched, FlatI, I, Record, InodeOK, Blk, Live;
    BlankInode(g2, no);
    SameUntouched(g, g0, kinds);
    assert OpenAfter(g, g2, d, i, no);
    InodeAppears(g, g0, g1, g2, kinds, FileKind, d, i, p, e, no, {});
  }

  /** Directory `d` is open and has a free slot, and a number that survives `inode_sync` is free. */
  ghost predicate RoomFor(g: Image, kinds: map<u32, Kind>, d: u32) {
    && Geometry(g) && d in g.open && d in kinds && kinds[d].DirKind? && d < MAX_FILES_PER_PART
    && (exists x :: 0 <= x < FLAT && !Live(FlatI(g, d)[x]))
    && (exists no :: 0 <= no < 256 && no < |g.ibits| && !g.ibits[no])
  }

  /** From `g` to `g'` an inode appeared: `e`, in the lowest free slot of the directory `d`, refers to it, and
      its number is the lowest that was free. */
  ghost predicate Created(g: Image, g': Image, kinds: map<u32, Kind>, kinds': map<u32, Kind>, d: u32, e: DirEntry,
                          kind: Kind) {
    && Geometry(g) && Geometry(g') && d < MAX_FILES_PER_PART && e.ino < MAX_FILES_PER_PART
    && e.ino !in kinds && kinds' == kinds[e.ino := kind] && (forall j: u32 :: j < e.ino ==> j in kinds)
    && Entered(FlatI(g, d), FlatI(g', d), e) && Extends(I(g, d).sectors, I(g', d).sectors)
    && (forall m :: m in kinds && m != d ==> m < MAX_FILES_PER_PART && Untouched(g, g', m))
  }

  lemma RoomParts(g: Image, kinds: map<u32, Kind>, d: u32)
    requires RoomFor(g, kinds, d) && Consistent(g, kinds)
    ensures Geometry(g) && d in g.open && d in kinds && kinds[d].DirKind? && d < 256 && |g.open[d].sectors| == 13
    ensures exists x :: 0 <= x < FLAT && !Live(FlatI(g, d)[x])
    ensures exists no :: 0 <= no < 256 && no < |g.ibits| && !g.ibits[no]
    ensures GoodDir(g.open[d], g.disk, g.bits, g.ds) && I(g, d) == Pure(g.open[d])
    ensures DirBlocks(g.open[d].sectors, g.disk, g.bits, g.ds)
    ensures g.open[d].size <= ENTRY_SIZE * FLAT && g.open[d].no == d && 1 <= g.open[d].openCnts < 0xffff_ffff
    ensures forall m :: m in g.open ==> m in kinds
  {
    hide StoreOK, NamesOK, CacheOK, RootOK, Owns, GoodDir, DirBlocks, FlatI, I, NumbersOK;
    OpenDirIsGood(g, kinds, d);
    BeforeEntry(g, kinds, d);
  }

  /** `inode_bitmap_alloc`, which cannot fail here. */
  method TakeNumber(part: Partition, ghost kinds: map<u32, Kind>, ghost d: u32) returns (no: u32)
    requires part.Valid()
    requires RoomFor(Snap(part), kinds, d)
    requires Consistent(Snap(part), kinds)
    modifies part.inodeBitmap, part.inodeBitmap.bits
    ensures part.Valid() && 0 < no < 256 && no !in kinds
    ensures |old(part.InodeBits())| == MAX_FILES_PER_PART && part.InodeBits() == old(part.InodeBits())[no := true]
    ensures !old(part.InodeBits())[no] && forall j: u32 :: j < no ==> j in kinds
    ensures Geometry(Snap(part)) && StoreOK(Snap(part), kinds, {})
    ensures d in part.open && d < 256 && I(Snap(part), d) == Pure(part.open[d])
    ensures FlatI(Snap(part), d) == FlatI(old(Snap(part)), d) && I(Snap(part), d) == I(old(Snap(part)), d)
    ensures exists x :: 0 <= x < FLAT && !Live(FlatI(Snap(part), d)[x])
    ensures forall x :: 2 <= x < FLAT && Live(FlatI(Snap(part), d)[x]) ==> FlatI(Snap(part), d)[x].ino != no
  {
    hide StoreOK, NamesOK, CacheOK, RootOK, Owns, GoodDir, DirBlocks, FlatI, I, Record, InodeOK, Live;
    ghost var g := Snap(part);
    RoomParts(g, kinds, d);
    BeforeEntry(g, kinds, d);
    var bitNo := InodeBitmapAlloc(part);
    no := bitNo;
    ghost var g0 := Snap(part);
    StoreSame(g, g0, kinds, {});
    FlatSame(g, g0, d);
  }

  /** `file_create` in the open directory `d`: the lowest free inode number becomes an empty file with
      one entry. It fails, without a trace, iff the entry needs a block and there is none. */
  method FileCreate(part: Partition, d: u32, filename: seq<byte>, ghost kinds: map<u32, Kind>)
    returns (r: int, ghost kinds': map<u32, Kind>)
    requires part.Valid()
    requires |filename| == 16 && Child(DirEntry(filename, 0, FT_REGULAR))
    requires RoomFor(Snap(part), kinds, d)
    requires Consistent(Snap(part), kinds)
    modifies part`disk, part`open, part.blockBitmap, part.blockBitmap.bits, part.inodeBitmap, part.inodeBitmap.bits
    ensures part.Valid() && Consistent(Snap(part), kinds')
    ensures r == -1 <==> NeedsBlock(I(old(Snap(part)), d).sectors, old(part.disk)) && FreeCount(old(part.Bits())) == 0
    ensures r == -1 ==> kinds' == kinds && Snap(part) == old(Snap(part))
    ensures r != -1 ==> d in part.open && 0 < r < 256 && r as u32 in part.open
                        && part.open[r as u32] == FreshInode(r as u32).(openCnts := 1)
    ensures r != -1 ==> Created(old(Snap(part)), Snap(part), kinds, kinds', d,
                                DirEntry(filename, r as u32, FT_REGULAR), FileKind)
    ensures r != -1 ==> FreeCount(part.Bits()) + EntryBlocks(old(Snap(part)), d) == FreeCount(old(part.Bits()))
    ensures r != -1 ==> part.open == old(part.open)[d := part.open[d]][r as u32 := part.open[r as u32]]
    ensures r != -1 ==> part.open[d].openCnts == old(part.open)[d].openCnts
    ensures r != -1 ==> FilesKept(old(Snap(part)), Snap(part), kinds, {d})
    ensures Recorded(old(Snap(part)), Snap(part), {})
  {
    hide StoreOK, NamesOK, CacheOK, RootOK, Owns, GoodDir, DirBlocks, Untouched, FlatI, I, Record, InodeOK, Consistent,
         Created, NeedsBlock, FreeCount, FilesKept, FirstFree, Recorded, NumbersStored;
    ghost var g := Snap(part);
    SameRecorded(part, g);
    MapsOfValid(part);
    RoomParts(g, kinds, d);
    hide RoomFor;
    kinds' := kinds;
    var no: u32 := TakeNumber(part, kinds, d);
    var e := DirEntry(filename, no, FT_REGULAR);
    ghost var g0 := Snap(part);
    var ok;
    ghost var p;
    ok, p := EnterInParent(part, d, e, kinds, {});
    if !ok {
      part.inodeBitmap.Set(no, false);
      assert part.InodeBits() == g.ibits;
      return -1, kinds';
    }
    ghost var g1 := Snap(part);
    StoreNewInode(part, FreshInode(no));
    ghost var g2 := Snap(part);
    part.open := part.open[no := FreshInode(no).(openCnts := 1)];
    r := no;
    kinds' := kinds[no := FileKind];
    FlatSame(g2, Snap(part), no);
    NumberRecorded(g, g0, g1, g2, Snap(part));
    FileAppears(g, g0, g1, Snap(part), kinds, d, part.open[d], p, e, no);
    CreatedFiles(g, Snap(part), kinds, kinds', d, e, FileKind);
  }

  lemma CreatedFiles(g: Image, g': Image, kinds: map<u32, Kind>, kinds': map<u32, Kind>, d: u32, e: DirEntry,
                     kind: Kind)
    requires Created(g, g', kinds, kinds', d, e, kind) && |g'.disk| == |g.disk|
    requires Consistent(g, kinds)
    ensures FilesKept(g, g', kinds, {d})
  {
    hide Consistent, Untouched, FlatI, Entered, Extends, FilesKept;
    OtherFiles(g, g', kinds, {d});
  }

  /** The invariant of the blocks does not speak of the inode bit map and of the open inodes. */
  lemma StoreSame(g: Image, g': Image, kinds: map<u32, Kind>, q: set<u32>)
    requires Geometry(g) && Geometry(g') && StoreOK(g, kinds, q)
    requires g'.disk == g.disk && g'.bits == g.bits && g'.lba == g.lba && g'.ds == g.ds
    ensures StoreOK(g', kinds, q)
  {
    hide InodeOK, Blk, Geometry, BitsOwned;
    forall m | m in kinds
      ensures m < MAX_FILES_PER_PART && Blk(g', m) == Blk(g, m) && InodeOK(g', m, kinds[m])
    {
      InodeSame(g, g', m, kinds[m]);
    }
    BitsOwnedSame(g, g', kinds, q);
  }

  lemma BitsOwnedSame(g: Image, g': Image, kinds: map<u32, Kind>, q: set<u32>)
    requires Geometry(g) && Geometry(g') && BitsOwned(g, kinds, q)
    requires |g'.disk| == |g.disk| && g'.bits == g.bits && g'.ds == g.ds
    requires forall m :: m in kinds && m < MAX_FILES_PER_PART ==> Blk(g', m) == Blk(g, m)
    ensures BitsOwned(g', kinds, q)
  {
    hide Blk, Geometry;
    forall i | 0 <= i < |g.bits| && g.bits[i] && g.ds + i < |g.disk| && g.ds + i !in q
      ensures Owned(g', kinds, g.ds + i)
    {
      var m :| m in kinds && m < MAX_FILES_PER_PART && g.ds + i in Blk(g, m);
      assert g.ds + i in Blk(g', m);
    }
  }

  lemma InodeSame(g: Image, g': Image, m: u32, kind: Kind)
    requires Geometry(g) && Geometry(g') && m < MAX_FILES_PER_PART
    requires g'.disk == g.disk && g'.bits == g.bits && g'.lba == g.lba && g'.ds == g.ds
    ensures Blk(g', m) == Blk(g, m) && InodeOK(g', m, kind) == InodeOK(g, m, kind)
  {
    hide Owns, FileShape, DirShape, Slots;
  }

  lemma FlatSame(g: Image, g': Image, d: u32)
    requires Geometry(g) && Geometry(g') && d < MAX_FILES_PER_PART
    requires g'.disk == g.disk && g'.lba == g.lba
    ensures FlatI(g', d) == FlatI(g, d) && I(g', d) == I(g, d)
  {
  }
}
