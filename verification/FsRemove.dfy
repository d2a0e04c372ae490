/** `sys_unlink` and `sys_rmdir` of `src/fs/fs.c`, behind the path search, with `dir_remove` of
    `src/fs/dir.c`. */
module FsRemove {
  import opened Bytes
  import opened Partitions
  import opened Images
  import opened BlockMap
  import opened InodeTable
  import opened Allocation
  import opened Release
  import opened DirMap
  import opened DirOps
  import opened FsState
  import opened FsSteps
  import opened FsWrite
  import opened FsCreate
  import opened FsMkDir

  /** The removal survives a change of the disk outside the data area. */
  lemma RemovedSynced(sec: seq<u32>, disk: seq<Sector>, bits: seq<bool>, sec': seq<u32>, disk1: seq<Sector>,
                      bits': seq<bool>,
                      ds: nat, b: nat, p: nat, disk2: seq<Sector>)
    requires DirBlocks(sec, disk, bits, ds) && Removed(sec, disk, bits, sec', disk1, bits', ds, b, p)
    requires DataKept(disk1, disk2, ds, {})
    ensures Removed(sec, disk, bits, sec', disk2, bits', ds, b, p)
  {
    hide Owns, Dropped, Live;
    forall q | 0 <= q < FLAT
      ensures SlotAt(sec', disk2, q) == SlotAt(sec', disk1, q)
    {
      if sec'[q / 21] != 0 {
        DirBlock(sec, disk, bits, ds, q / 21);
      }
    }
    assert Flat(sec', disk2) == Flat(sec', disk1);
  }

  /** The blocks of a directory after a removal. */
  lemma RemovedBlocks(sec: seq<u32>, disk: seq<Sector>, bits: seq<bool>, sec': seq<u32>, disk': seq<Sector>,
                      bits': seq<bool>,
                      ds: nat, b: nat, p: nat)
    requires DirBlocks(sec, disk, bits, ds) && Removed(sec, disk, bits, sec', disk', bits', ds, b, p)
    ensures var old_, new_ := BlocksOf(Slots(sec, disk)), BlocksOf(Slots(sec', disk'));
            sec[b] in old_ && new_ <= old_ && old_ - new_ == if sec'[b] == 0 then {sec[b]} else {}
    ensures Owns(Slots(sec', disk'), bits', ds, |disk'|)
  {
    hide Live, Flat, Owns;
    DirectSlots(sec, disk, sec', disk');
    var slots, slots' := Slots(sec, disk), Slots(sec', disk');
    DirBlock(sec, disk, bits, ds, b);
    SlotsLost(slots, slots', b);
    OwnsLess(slots, bits, slots', bits', ds, |disk|, b);
  }

  lemma SlotsLost(slots: seq<u32>, slots': seq<u32>, b: nat)
    requires |slots| == |slots'| && b < |slots| && slots[b] != 0
    requires forall k :: 0 <= k < |slots| && k != b ==> slots'[k] == slots[k] && slots[k] != slots[b]
    requires slots'[b] == 0 || slots'[b] == slots[b]
    ensures BlocksOf(slots') <= BlocksOf(slots)
    ensures BlocksOf(slots) - BlocksOf(slots') == if slots'[b] == 0 then {slots[b]} else {}
  {
    forall x | x in BlocksOf(slots')
      ensures x in BlocksOf(slots)
    {
      var k :| 0 <= k < |slots'| && slots'[k] != 0 && slots'[k] == x;
      assert slots[k] == x;
    }
    forall x | x in BlocksOf(slots) && x != slots[b]
      ensures x in BlocksOf(slots')
    {
      var k :| 0 <= k < |slots| && slots[k] != 0 && slots[k] == x;
      assert slots'[k] == x;
    }
    assert slots[b] in BlocksOf(slots);
    assert slots'[b] != 0 ==> slots[b] in BlocksOf(slots');
  }

  lemma OwnsLess(slots: seq<u32>, bits: seq<bool>, slots': seq<u32>, bits': seq<bool>, ds: nat, limit: nat, b: nat)
    requires |slots| == |slots'| && b < |slots| && slots[b] != 0 && Owns(slots, bits, ds, limit)
    requires forall k :: 0 <= k < |slots| && k != b ==> slots'[k] == slots[k]
    requires slots'[b] == 0 || slots'[b] == slots[b]
    requires Dropped(bits, bits', ds, if slots'[b] == 0 then {slots[b]} else {})
    ensures Owns(slots', bits', ds, limit)
  {
    forall k | 0 <= k < |slots'| && slots'[k] != 0
      ensures bits'[slots'[k] - ds] && slots'[k] == slots[k]
    {
      assert k < b ==> slots[k] != slots[b];
      assert k > b ==> slots[b] != slots[k];
      assert ds + (slots[k] - ds) == slots[k];
    }
  }

  /** A removal and the sync of the inode after it, as one change of the disk. */
  lemma DeletedSynced(i0: Inode, disk: seq<Sector>, bits: seq<bool>, i: Inode, disk1: seq<Sector>, disk2: seq<Sector>,
                      bits': seq<bool>,
                      lba: nat, ds: nat, b: nat, p: nat, c: u32)
    requires |i0.sectors| == 13 && DirShape(i0.sectors, i0.size, disk) && DirBlocks(i0.sectors, disk, bits, ds)
    requires Deleted(i0, disk, bits, i, disk1, bits', ds, b, p, c) && |i.sectors| == 13 && lba + TABLE_SECTS <= ds
    requires TableKept(disk, disk1, lba) && Stored(disk1, disk2, lba, i.no % 256, Encode(Pure(i)))
    ensures Removed(i0.sectors, disk, bits, i.sectors, disk2, bits', ds, b, p) && ChildAt(Flat(i0.sectors, disk), p, c)
    ensures DirShape(i.sectors, i.size, disk2) && i.sectors[0] == i0.sectors[0] && Extends(i.sectors, i0.sectors)
    ensures TableStored(disk, disk2, lba, i.no % 256, Encode(Pure(i)))
  {
    hide Owns, Dropped, Live, GoodSlots, LiveCount, Flat, Record, Slots;
    StoredAfterKept(disk, disk1, disk2, lba, i.no % 256, Encode(Pure(i)));
    RemovedSynced(i0.sectors, disk, bits, i.sectors, disk1, bits', ds, b, p, disk2);
    RemoveKeepsShape(i0.sectors, i0.size, disk, i.sectors, disk2, b, p);
  }

  /** The directory `d`, open as `i0` before and as `i` after, lost the entry at slot `p`, which referred
      to `c`. */
  lemma LeaveStep(g: Image, disk1: seq<Sector>, g': Image, kinds: map<u32, Kind>, d: u32, i0: Inode, i: Inode, b: nat,
                  p: nat, c: u32)
    requires Geometry(g) && Geometry(g') && d in kinds && kinds[d].DirKind? && d < 256
    requires |i0.sectors| == 13 && |i.sectors| == 13 && i.no == d && I(g, d) == Pure(i0)
    requires Deleted(i0, g.disk, g.bits, i, disk1, g'.bits, g.ds, b, p, c)
    requires TableKept(g.disk, disk1, g.lba) && Stored(disk1, g'.disk, g.lba, i.no % 256, Encode(Pure(i)))
    requires |disk1| == |g.disk| && |g'.disk| == |g.disk| && g'.lba == g.lba && g'.ds == g.ds
    requires StoreOK(g, kinds, {})
    ensures StoreOK(g', kinds, {})
    ensures forall m :: m in kinds && m != d ==> m < MAX_FILES_PER_PART && Untouched(g, g', m)
    ensures I(g', d) == Pure(i) && FlatI(g', d) == FlatI(g, d)[p := NO_ENTRY]
    ensures ChildAt(FlatI(g, d), p, c) && Extends(I(g', d).sectors, I(g, d).sectors)
    ensures I(g', d).sectors[0] == I(g, d).sectors[0]
    ensures Blk(g', d) <= Blk(g, d) && Dropped(g.bits, g'.bits, g.ds, Blk(g, d) - Blk(g', d))
  {
    hide StoreOK, Owns, Untouched, DirShape, Slots, BlocksOf, Flat, Record, Removed, Stored, TableKept, Deleted,
         TableStored, Extends,
         ChildAt, DirBlocks, Loaded;
    DirIsGood(g, kinds, {}, d, i0);
    DeletedSynced(i0, g.disk, g.bits, i, disk1, g'.disk, g'.bits, g.lba, g.ds, b, p, c);
    StoredIs(g, g', d, i);
    RemovedFacts(i0.sectors, g.disk, g.bits, i.sectors, g'.disk, g'.bits, g.ds, b, p);
    RemovedBlocks(i0.sectors, g.disk, g.bits, i.sectors, g'.disk, g'.bits, g.ds, b, p);
    DropStep(g, g', kinds, kinds, d, if i.sectors[b] == 0 then {} else {i0.sectors[b]});
  }

  lemma RemovedFacts(sec: seq<u32>, disk: seq<Sector>, bits: seq<bool>, sec': seq<u32>, disk': seq<Sector>,
                     bits': seq<bool>,
                     ds: nat, b: nat, p: nat)
    requires Removed(sec, disk, bits, sec', disk', bits', ds, b, p)
    ensures |sec| == |sec'| == 13 && b < DIRECT
    ensures Dropped(bits, bits', ds, if sec'[b] == 0 then {sec[b]} else {}) && 2 <= p < FLAT
    ensures DataKept(disk, disk', ds, if sec'[b] == 0 then {} else {sec[b]}) && |bits'| == |bits|
    ensures Flat(sec', disk') == Flat(sec, disk)[p := NO_ENTRY]
  {
  }

  /** From `g` to `g'` the directory `d` lost its entry for `c` at slot `p`, and nothing else happened. */
  ghost predicate HasLeft(g: Image, g': Image, kinds: map<u32, Kind>, d: u32, p: nat, c: u32) {
    && Geometry(g) && Geometry(g') && d in kinds && d < 256 && 2 <= p < FLAT
    && |g'.disk| == |g.disk| && g'.lba == g.lba && g'.ds == g.ds && |g'.bits| == |g.bits| && g'.ibits == g.ibits
    && d in g.open && d in g'.open && g'.open == g.open[d := g'.open[d]]
    && |g'.open[d].sectors| == 13 && g'.open[d].no == d && g'.open[d].openCnts == g.open[d].openCnts
    && I(g', d) == Pure(g'.open[d]) && FlatI(g', d) == FlatI(g, d)[p := NO_ENTRY]
    && Extends(I(g', d).sectors, I(g, d).sectors) && I(g', d).sectors[0] == I(g, d).sectors[0]
    && (forall m :: m in kinds && m != d ==> m < MAX_FILES_PER_PART && Untouched(g, g', m))
    && StoreOK(g', kinds, {})
    && Blk(g', d) <= Blk(g, d) && Dropped(g.bits, g'.bits, g.ds, Blk(g, d) - Blk(g', d))
  }

  /** What makes `delete_dir_entry` find the entry. */
  lemma EntryIsThere(g: Image, kinds: map<u32, Kind>, d: u32, p: nat, c: u32)
    requires Consistent(g, kinds) && d in g.open && ChildOf(g, kinds, d, p, c)
    ensures |g.open[d].sectors| == 13 && GoodDir(g.open[d], g.disk, g.bits, g.ds) && I(g, d) == Pure(g.open[d])
    ensures FlatI(g, d) == Flat(g.open[d].sectors, g.disk)
    ensures g.open[d].no == d && d in kinds && d < 256 && 1 <= g.open[d].openCnts < 0xffff_ffff && c in kinds && c != 0
            && c != d && c < 256
    ensures ChildAt(FlatI(g, d), p, c)
    ensures forall q: nat :: ChildAt(FlatI(g, d), q, c) ==> q == p
  {
    hide StoreOK, CacheOK, RootOK, Owns, FlatI;
    OpenDirIsGood(g, kinds, d);
    assert EntryOK(g, kinds, d, p, c);
    UniqueChild(FlatI(g, d), p, c, g.open[d], g.disk);
  }

  lemma UniqueChild(flat: seq<DirEntry>, p: nat, c: u32, i: Inode, disk: seq<Sector>)
    requires |i.sectors| == 13 && DirShape(i.sectors, i.size, disk) && flat == Flat(i.sectors, disk)
    requires 2 <= p < FLAT && Live(flat[p]) && flat[p].ino == c
    ensures ChildAt(flat, p, c) && forall q: nat :: ChildAt(flat, q, c) ==> q == p
  {
  }

  /** `delete_dir_entry` on the open directory `d`. */
  method LeaveParent(part: Partition, d: u32, c: u32, ghost kinds: map<u32, Kind>, ghost p: nat)
    requires part.Valid() && d in part.open && Geometry(Snap(part)) && ChildOf(Snap(part), kinds, d, p, c)
    requires Consistent(Snap(part), kinds)
    modifies part`disk, part`open, part.blockBitmap, part.blockBitmap.bits
    ensures part.Valid() && HasLeft(old(Snap(part)), Snap(part), kinds, d, p, c)
    ensures Recorded(old(Snap(part)), Snap(part), {})
  {
    hide StoreOK, NamesOK, CacheOK, RootOK, NumbersOK, Owns, GoodDir, Untouched, I, FlatI, Flat, Blk, Dropped, ChildAt,
         Stored, TableKept, Removed, Extends, DirShape, Recorded;
    ghost var g := Snap(part);
    EntryIsThere(g, kinds, d, p, c);
    var found, inode;
    ghost var b, q, disk1;
    found, inode, b, q, disk1 := DeleteDirEntry(part, part.open[d], c);
    assert found;
    ghost var gd := Snap(part);
    part.open := part.open[d := inode];
    OutsideRecorded(part, g, gd, {});
    LeaveStep(g, disk1, Snap(part), kinds, d, g.open[d], inode, b, q, c);
  }

  /** Inode `c` was released: its blocks, its number and its record. */
  lemma ReleaseStep(g: Image, g': Image, kinds: map<u32, Kind>, c: u32)
    requires Geometry(g) && Geometry(g') && c in kinds && c < MAX_FILES_PER_PART
    requires g'.lba == g.lba && g'.ds == g.ds && Dropped(g.bits, g'.bits, g.ds, Blk(g, c))
    requires DataKept(g.disk, g'.disk, g.ds, {}) && TableStored(g.disk, g'.disk, g.lba, c, BLANK_RECORD)
    requires StoreOK(g, kinds, {})
    ensures StoreOK(g', kinds - {c}, {})
    ensures forall m :: m in kinds && m != c ==> m < MAX_FILES_PER_PART && Untouched(g, g', m)
  {
    assert |g'.disk| == |g.disk| && |g'.bits| == |g.bits|;
    hide StoreOK, Untouched, Blk, Dropped, Record, DataKept;
    assert Blk(g, c) - {} == Blk(g, c);
    DropStep(g, g', kinds, kinds - {c}, c, {});
  }

  /** From `g` to `g'` the inode `c` disappeared, with its entry at slot `p` of the directory `d`, and
      exactly its blocks and those that `d` gave up are free again. */
  ghost predicate Gone(g: Image, g': Image, kinds: map<u32, Kind>, d: u32, p: nat, c: u32) {
    && Geometry(g) && Geometry(g') && d < MAX_FILES_PER_PART && c < MAX_FILES_PER_PART && p < FLAT && d in kinds
       && c in kinds
    && FlatI(g', d) == FlatI(g, d)[p := NO_ENTRY]
    && Extends(I(g', d).sectors, I(g, d).sectors)
    && (forall m :: m in kinds && m != d && m != c ==> m < MAX_FILES_PER_PART && Untouched(g, g', m))
    && Blk(g', d) <= Blk(g, d) && Dropped(g.bits, g'.bits, g.ds, Blk(g, c) + (Blk(g, d) - Blk(g', d)))
    && |g.ibits| > c && g'.ibits == g.ibits[c := false]
  }

  lemma DroppedTwice(bits: seq<bool>, bits1: seq<bool>, bits2: seq<bool>, ds: nat, s: set<u32>, t: set<u32>)
    requires Dropped(bits, bits1, ds, s) && Dropped(bits1, bits2, ds, t)
    ensures Dropped(bits, bits2, ds, t + s)
  {
  }

  /** From `g1` to `g2` the inode `c` was released. */
  ghost predicate Erased(g1: Image, g2: Image, c: u32) {
    && Geometry(g1) && Geometry(g2) && c < MAX_FILES_PER_PART
    && g2.lba == g1.lba && g2.ds == g1.ds && Dropped(g1.bits, g2.bits, g1.ds, Blk(g1, c))
    && DataKept(g1.disk, g2.disk, g1.ds, {}) && TableStored(g1.disk, g2.disk, g1.lba, c, BLANK_RECORD)
    && c < |g1.ibits| && g2.ibits == g1.ibits[c := false]
  }

  /** Both steps of a removal: `g1` lost the entry, `g2` the inode. */
  lemma Vanishes(g: Image, g1: Image, g2: Image, kinds: map<u32, Kind>, d: u32, p: nat, c: u32)
    requires HasLeft(g, g1, kinds, d, p, c) && Erased(g1, g2, c) && c in kinds && c != d && c != 0
    ensures Gone(g, g2, kinds, d, p, c)
    ensures I(g2, d) == I(g1, d) && StoreOK(g2, kinds - {c}, {})
    ensures forall m :: m in kinds && m != d && m != c ==> m < MAX_FILES_PER_PART && Untouched(g, g2, m)
  {
    hide StoreOK, NamesOK, CacheOK, RootOK, Untouched, FlatI, I, Blk, Dropped, DataKept, TableStored, Extends, ChildOf;
    ReleaseStep(g1, g2, kinds, c);
    UntouchedParts(g1, g2, d);
    UntouchedBlocks(g1, g2, d);
    UntouchedBlocks(g, g1, c);
    DroppedTwice(g.bits, g1.bits, g2.bits, g.ds, Blk(g, d) - Blk(g1, d), Blk(g1, c));
    forall m | m in kinds && m != d && m != c
      ensures m < MAX_FILES_PER_PART && Untouched(g, g2, m)
    {
      UntouchedTwice(g, g1, g2, m);
    }
  }

  /** If the inode had no children and is not open any more, the volume is consistent again. */
  lemma VanishedVolume(g: Image, g1: Image, g2: Image, kinds: map<u32, Kind>, d: u32, p: nat, c: u32)
    requires HasLeft(g, g1, kinds, d, p, c) && Erased(g1, g2, c) && c in kinds && c != d && c != 0
    requires g2.open == g1.open - {c}
    requires Childless(g, kinds, c)
    requires ChildOf(g, kinds, d, p, c)
    requires Consistent(g, kinds)
    ensures Consistent(g2, kinds - {c})
  {
    hide StoreOK, NamesOK, CacheOK, RootOK, Untouched, FlatI, I, Blk, Dropped, DataKept, TableStored, Extends, ChildOf;
    Vanishes(g, g1, g2, kinds, d, p, c);
    forall m | m in kinds && m != d && m != c
      ensures m < MAX_FILES_PER_PART && I(g2, m) == I(g, m) && FlatI(g2, m) == FlatI(g, m)
    {
      UntouchedParts(g, g2, m);
    }
    CacheAfterGone(g, g2, kinds, d, g1.open[d], c);
    RootStays(g, g2, d);
    NamesAfterRemove(g, g2, kinds, c, d, p);
  }

  lemma RootStays(g: Image, g': Image, d: u32)
    requires Geometry(g) && Geometry(g') && d < MAX_FILES_PER_PART && g'.ds == g.ds && RootOK(g)
    requires I(g', d).sectors[0] == I(g, d).sectors[0] && (d != 0 ==> I(g', 0) == I(g, 0))
    ensures RootOK(g')
  {
  }

  lemma CacheAfterGone(g: Image, g': Image, kinds: map<u32, Kind>, d: u32, i: Inode, c: u32)
    requires Geometry(g) && Geometry(g') && d in g.open && d in kinds && d < MAX_FILES_PER_PART && c != d
    requires g'.open == g.open[d := i] - {c} && i.no == d && i.openCnts == g.open[d].openCnts && I(g', d) == Pure(i)
    requires forall m :: m in kinds && m != d && m != c && m < MAX_FILES_PER_PART ==> I(g', m) == I(g, m)
    requires CacheOK(g, kinds)
    ensures CacheOK(g', kinds - {c})
  {
    hide I, Geometry;
  }

  /** The inode to be released is as its record or its open copy has it. */
  lemma ReadyToRelease(g: Image, g1: Image, kinds: map<u32, Kind>, d: u32, p: nat, c: u32, i: Inode)
    requires HasLeft(g, g1, kinds, d, p, c) && c in kinds && c != d && c < MAX_FILES_PER_PART
    requires i == Cur(g1.disk, g1.open, g1.lba, c)
    requires Consistent(g, kinds)
    ensures |i.sectors| == 13 && i.no == c && i.sectors == I(g1, c).sectors
    ensures c in g1.open ==> g1.open[c] == g.open[c] && 1 <= g1.open[c].openCnts < 0xffff_ffff
    ensures Owns(Slots(i.sectors, g1.disk), g1.bits, g1.ds, |g1.disk|)
    ensures BlocksOf(Slots(i.sectors, g1.disk)) == Blk(g1, c)
  {
    hide StoreOK, NamesOK, RootOK, Untouched, FlatI, Loaded, Dropped, DataKept, Extends, ChildOf, ShapeOK, Owns, Flat,
         NumbersOK;
    UntouchedParts(g, g1, c);
    OneInodeOK(g1, kinds, c);
  }

  lemma OneInodeOK(g: Image, kinds: map<u32, Kind>, m: u32)
    requires Geometry(g) && m in kinds && m < MAX_FILES_PER_PART
    requires StoreOK(g, kinds, {})
    ensures InodeOK(g, m, kinds[m])
  {
    hide InodeOK;
  }

  /** `delete_dir_entry` and `inode_release`, the core of `sys_unlink` and of `dir_remove`. */
  method RemoveInode(part: Partition, d: u32, c: u32, ghost kinds: map<u32, Kind>, ghost p: nat)
    returns (ghost g1: Image)
    requires part.Valid() && d in part.open && Geometry(Snap(part)) && ChildOf(Snap(part), kinds, d, p, c)
    requires Consistent(Snap(part), kinds)
    modifies part`disk, part`open, part.blockBitmap, part.blockBitmap.bits, part.inodeBitmap, part.inodeBitmap.bits
    ensures part.Valid() && c in kinds && c != d && c != 0 && c < 256
    ensures HasLeft(old(Snap(part)), g1, kinds, d, p, c) && Erased(g1, Snap(part), c)
    ensures part.open == g1.open && d in part.open && part.open == old(part.open)[d := part.open[d]]
    ensures Recorded(old(Snap(part)), Snap(part), {})
  {
    hide StoreOK, NamesOK, CacheOK, RootOK, Untouched, FlatI, I, Dropped, DataKept, TableStored, Extends, ChildOf,
         Consistent, Owns, HasLeft, Loaded, Recorded;
    ghost var g := Snap(part);
    EntryIsThere(g, kinds, d, p, c);
    LeaveParent(part, d, c, kinds, p);
    g1 := Snap(part);
    LeftParts(g, g1, kinds, d, p, c);
    ghost var i := Cur(part.disk, part.open, part.inodeTableLba, c);
    ReadyToRelease(g, g1, kinds, d, p, c, i);
    InodeRelease(part, c, i);
    RecordedTwice(g, g1, Snap(part), {});
  }

  /** Inode `c` is no directory with children. */
  ghost predicate Childless(g: Image, kinds: map<u32, Kind>, c: u32)
    requires Geometry(g)
  {
    forall q: nat, c' :: !ChildOf(g, kinds, c, q, c')
  }

  lemma GoneFiles(g: Image, g': Image, kinds: map<u32, Kind>, d: u32, p: nat, c: u32)
    requires Gone(g, g', kinds, d, p, c) && |g'.disk| == |g.disk|
    requires Consistent(g, kinds)
    ensures FilesKept(g, g', kinds, {d, c})
  {
    hide Consistent, Untouched, FlatI, Extends, Dropped, FilesKept;
    OtherFiles(g, g', kinds, {d, c});
  }

  /** `sys_unlink` of the child `c` of the open directory `d`, a regular file. It refuses a file that is
      open; otherwise the file disappears, and exactly its blocks become free. */
  method Unlink(part: Partition, d: u32, c: u32, ghost kinds: map<u32, Kind>, ghost p: nat) returns (r: int)
    requires part.Valid() && d in part.open && Geometry(Snap(part)) && ChildOf(Snap(part), kinds, d, p, c)
    requires c in kinds && kinds[c] == FileKind
    requires Consistent(Snap(part), kinds)
    modifies part`disk, part`open, part.blockBitmap, part.blockBitmap.bits, part.inodeBitmap, part.inodeBitmap.bits
    ensures part.Valid()
    ensures r == (if c in old(part.open) then -1 else 0)
    ensures r == -1 ==> Snap(part) == old(Snap(part))
    ensures r == 0 ==> Consistent(Snap(part), kinds - {c}) && Gone(old(Snap(part)), Snap(part), kinds, d, p, c)
    ensures r == 0 ==> d in part.open && part.open == old(part.open)[d := part.open[d]]
    ensures r == 0 ==> FilesKept(old(Snap(part)), Snap(part), kinds, {d, c})
    ensures Recorded(old(Snap(part)), Snap(part), {})
  {
    hide StoreOK, NamesOK, CacheOK, RootOK, Untouched, FlatI, I, Erased, ChildOf, Gone, Consistent, HasLeft, FilesKept,
         Recorded;
    ghost var g := Snap(part);
    SameRecorded(part, g);
    if c in part.open {
      return -1;
    }
    ghost var g1 := RemoveInode(part, d, c, kinds, p);
    NoChildren(g, kinds, c);
    assert part.open == g1.open - {c};
    Vanishes(g, g1, Snap(part), kinds, d, p, c);
    VanishedVolume(g, g1, Snap(part), kinds, d, p, c);
    GoneFiles(g, Snap(part), kinds, d, p, c);
    r := 0;
  }

  lemma NoChildren(g: Image, kinds: map<u32, Kind>, c: u32)
    requires Geometry(g) && c in kinds && kinds[c] == FileKind
    ensures Childless(g, kinds, c)
  {
  }

  lemma LeftParts(g: Image, g': Image, kinds: map<u32, Kind>, d: u32, p: nat, c: u32)
    requires HasLeft(g, g', kinds, d, p, c)
    ensures Geometry(g') && d in g.open && d in g'.open && g'.open == g.open[d := g'.open[d]] && g'.ibits == g.ibits
    ensures |g'.disk| == |g.disk| && g'.lba == g.lba && g'.ds == g.ds
  {
    hide StoreOK, Untouched, I, FlatI, Blk, Dropped, Extends;
  }

  // ---- Directories ----

  /** Opening an inode changes no more than the open inodes. */
  lemma OpenedVolume(g: Image, gO: Image, kinds: map<u32, Kind>, c: u32, i: Inode)
    requires Consistent(g, kinds) && c in kinds && c < MAX_FILES_PER_PART
    requires gO == g.(open := g.open[c := i]) && 1 <= i.openCnts < 0xffff_ffff && Pure(i) == I(g, c)
    ensures Consistent(gO, kinds) && forall m :: m in kinds ==> m < MAX_FILES_PER_PART && Untouched(g, gO, m)
  {
    hide StoreOK, NamesOK, Untouched, FlatI, I;
    NumbersInRange(kinds, g);
    StoreSame(g, gO, kinds, {});
    SameUntouched(g, gO, kinds);
    forall m | m in kinds
      ensures I(gO, m) == I(g, m) && FlatI(gO, m) == FlatI(g, m)
    {
      UntouchedParts(g, gO, m);
    }
    NamesKept(g, gO, kinds);
  }

  lemma NumbersInRange(kinds: map<u32, Kind>, g: Image)
    requires NumbersOK(g, kinds)
    ensures forall m :: m in kinds ==> m < MAX_FILES_PER_PART
  {
  }

  /** `dir_is_empty` tells whether the directory has children, and if it has none, `dir_remove` does not
      fail its assertions. */
  lemma EmptyIffNoChild(g: Image, kinds: map<u32, Kind>, c: u32)
    requires Consistent(g, kinds) && c in g.open && c in kinds && kinds[c].DirKind?
    ensures DirIsEmpty(g.open[c]) <==> Childless(g, kinds, c)
    ensures DirIsEmpty(g.open[c]) ==> |g.open[c].sectors| == 13 && forall k :: 1 <= k < 13 ==> g.open[c].sectors[k] == 0
  {
    hide StoreOK, NamesOK, CacheOK, NumbersOK, Owns, FlatI, I, DirShape;
    OpenDirIsGood(g, kinds, c);
    EmptyDirHasOneBlock(g.open[c], g.disk, g.bits, g.ds);
    ChildIsLive(g.open[c], g.disk);
    if !DirIsEmpty(g.open[c]) {
      var p :| 0 <= p < FLAT && Child(Flat(g.open[c].sectors, g.disk)[p]);
      assert ChildOf(g, kinds, c, p, FlatI(g, c)[p].ino);
    }
  }

  lemma ChildIsLive(i: Inode, disk: seq<Sector>)
    requires |i.sectors| == 13 && DirShape(i.sectors, i.size, disk)
    ensures forall p :: 0 <= p < FLAT ==>
              (Child(Flat(i.sectors, disk)[p]) <==> 2 <= p && Live(Flat(i.sectors, disk)[p]))
  {
    hide Flat, LiveCount, Slots;
  }

  /** The loop of `dir_remove` (lines 352-356), whose assertion holds. */
  method CheckSectors(sec: seq<u32>)
    requires |sec| == 13 && forall k :: 1 <= k < 13 ==> sec[k] == 0
  {
    var blockIdx := 1;
    while blockIdx < 13 {
      assert sec[blockIdx] == 0;
      blockIdx := blockIdx + 1;
    }
  }

  lemma GoneFrom(g: Image, gO: Image, g2: Image, kinds: map<u32, Kind>, d: u32, p: nat, c: u32)
    requires Geometry(g) && Geometry(gO) && gO == g.(open := gO.open) && d in kinds && c in kinds
    requires forall m :: m in kinds ==> m < MAX_FILES_PER_PART && Untouched(g, gO, m)
    requires Gone(gO, g2, kinds, d, p, c)
    ensures Gone(g, g2, kinds, d, p, c)
  {
    hide Untouched, FlatI, I, Blk, Dropped, Extends, Geometry;
    UntouchedParts(g, gO, d);
    UntouchedBlocks(g, gO, d);
    UntouchedBlocks(g, gO, c);
    forall m | m in kinds && m != d && m != c
      ensures m < MAX_FILES_PER_PART && Untouched(g, g2, m)
    {
      UntouchedTwice(g, gO, g2, m);
    }
  }

  /** An inode that is open without being allocated fits no volume. */
  lemma StaleInode(g: Image, c: u32, kinds: map<u32, Kind>)
    requires c in g.open && c < |g.ibits| && !g.ibits[c]
    ensures !Consistent(g, kinds)
  {
    hide StoreOK, NamesOK, RootOK, I;
  }

  /** `dir_open`. */
  method DirOpen(part: Partition, c: u32, ghost kinds: map<u32, Kind>) returns (dir: Inode)
    requires part.Valid() && c in kinds && kinds[c].DirKind?
    requires c in part.open ==> part.open[c].openCnts < 0xffff_fffe
    requires Consistent(Snap(part), kinds)
    modifies part`open
    ensures part.Valid() && part.open == old(part.open)[c := dir] && Consistent(Snap(part), kinds)
    ensures dir.openCnts == if c in old(part.open) then old(part.open)[c].openCnts + 1 else 1
    ensures c in old(part.open) ==> dir == old(part.open)[c].(openCnts := dir.openCnts) && dir.openCnts >= 2
    ensures DirIsEmpty(dir) <==> Childless(Snap(part), kinds, c)
    ensures DirIsEmpty(dir) ==> |dir.sectors| == 13 && forall k :: 1 <= k < 13 ==> dir.sectors[k] == 0
    ensures Geometry(old(Snap(part))) && forall m :: m in kinds ==>
              m < MAX_FILES_PER_PART && Untouched(old(Snap(part)), Snap(part), m)
  {
    hide StoreOK, NamesOK, CacheOK, RootOK, Untouched, FlatI, I, ChildOf, Consistent, Loaded;
    ghost var g := Snap(part);
    MayOpen(g, kinds, c);
    dir := InodeOpen(part, c);
    OpenedVolume(g, Snap(part), kinds, c, dir);
    EmptyIffNoChild(Snap(part), kinds, c);
  }

  /** `dir_close` after `dir_open`: the other open inodes are in `base`. */
  method DirClose(part: Partition, c: u32, ghost base: map<u32, Inode>)
    requires part.Valid() && c in part.open && part.open == base[c := part.open[c]]
    requires part.open[c].openCnts == if c in base then base[c].openCnts + 1 else 1
    requires c in base ==> part.open[c] == base[c].(openCnts := part.open[c].openCnts) && base[c].openCnts >= 1
    modifies part`open
    ensures part.Valid() && part.open == base
  {
    InodeClose(part, c);
  }

  lemma UpdatesCommute(m: map<u32, Inode>, c: u32, x: Inode, d: u32, y: Inode)
    requires c != d
    ensures m[c := x][d := y] == m[d := y][c := x]
  {
  }

  /** `sys_rmdir` of the child `c` of the open directory `d`, a directory. It refuses a directory with
      children. Otherwise the directory disappears, and the volume is consistent iff nobody had it
      open. */
  method RmDir(part: Partition, d: u32, c: u32, ghost kinds: map<u32, Kind>, ghost p: nat) returns (r: int)
    requires part.Valid() && d in part.open && Geometry(Snap(part)) && ChildOf(Snap(part), kinds, d, p, c)
    requires c in kinds && kinds[c].DirKind?
    requires c in part.open ==> part.open[c].openCnts < 0xffff_fffe
    requires Consistent(Snap(part), kinds)
    modifies part`disk, part`open, part.blockBitmap, part.blockBitmap.bits, part.inodeBitmap, part.inodeBitmap.bits
    ensures part.Valid()
    ensures r == 0 || r == -1
    ensures r == 0 <==> Childless(old(Snap(part)), kinds, c)
    ensures r == -1 ==> Snap(part) == old(Snap(part))
    ensures r == 0 ==> Gone(old(Snap(part)), Snap(part), kinds, d, p, c)
                       && FilesKept(old(Snap(part)), Snap(part), kinds, {d, c})
    ensures r == 0 ==> d in part.open && part.open == old(part.open)[d := part.open[d]]
    ensures r == 0 && c !in old(part.open) ==> Consistent(Snap(part), kinds - {c})
    ensures r == 0 && c in old(part.open) ==> forall k :: !Consistent(Snap(part), k)
    ensures Recorded(old(Snap(part)), Snap(part), {})
  {
    hide StoreOK, NamesOK, CacheOK, RootOK, Untouched, FlatI, I, ChildOf, Gone, Consistent, HasLeft, Erased, Loaded,
         Childless, FilesKept, Recorded;
    ghost var g := Snap(part);
    SameRecorded(part, g);
    r := -1;
    EntryIsThere(g, kinds, d, p, c);
    var dir := DirOpen(part, c, kinds);
    ghost var gO := Snap(part);
    SameChildren(g, gO, kinds);
    OutsideSame(part, g);
    ghost var g1 := gO;
    if DirIsEmpty(dir) {
      CheckSectors(dir.sectors);
      g1 := RemoveInode(part, d, c, kinds, p);
      RecordedTwice(g, gO, Snap(part), {});
      UpdatesCommute(g.open, c, dir, d, part.open[d]);
      r := 0;
    }
    ghost var g2 := Snap(part);
    DirClose(part, c, if r == 0 then g.open[d := part.open[d]] else g.open);
    OutsideRecorded(part, g, g2, {});
    if r == 0 {
      DirVanished(g, gO, g1, g2, Snap(part), kinds, d, p, c);
      GoneFiles(g, Snap(part), kinds, d, p, c);
    }
  }

  lemma ErasedAnyway(g1: Image, g2: Image, g3: Image, c: u32)
    requires Erased(g1, g2, c) && g3 == g2.(open := g3.open)
    ensures Erased(g1, g3, c) && c < |g3.ibits| && !g3.ibits[c]
  {
    hide Blk, Dropped, DataKept, TableStored;
  }

  lemma DirVanished(g: Image, gO: Image, g1: Image, g2: Image, g3: Image, kinds: map<u32, Kind>, d: u32, p: nat, c: u32)
    requires HasLeft(gO, g1, kinds, d, p, c) && Erased(g1, g2, c) && g3 == g2.(open := g3.open)
    requires c in kinds && d in kinds && c != d && c != 0 && gO == g.(open := gO.open)
    requires Geometry(g) && forall m :: m in kinds ==> m < MAX_FILES_PER_PART && Untouched(g, gO, m)
    requires d in g1.open && c in gO.open && gO.open == g.open[c := gO.open[c]] && g3.open == g.open[d := g1.open[d]]
    requires Childless(gO, kinds, c)
    requires ChildOf(gO, kinds, d, p, c)
    requires Consistent(gO, kinds)
    ensures Gone(g, g3, kinds, d, p, c)
    ensures c !in g.open ==> Consistent(g3, kinds - {c})
    ensures c in g.open ==> forall k :: !Consistent(g3, k)
  {
    hide Untouched, ChildOf, Gone, Consistent, HasLeft, Erased, Childless, I, FlatI;
    LeftParts(gO, g1, kinds, d, p, c);
    ErasedAnyway(g1, g2, g3, c);
    Vanishes(gO, g1, g3, kinds, d, p, c);
    GoneFrom(g, gO, g3, kinds, d, p, c);
    if c !in g.open {
      assert g3.open == g1.open - {c};
      VanishedVolume(gO, g1, g3, kinds, d, p, c);
    } else {
      forall k
        ensures !Consistent(g3, k)
      {
        StaleInode(g3, c, k);
      }
    }
  }

  lemma MayOpen(g: Image, kinds: map<u32, Kind>, c: u32)
    requires Consistent(g, kinds) && c in kinds
    ensures Geometry(g) && c < MAX_FILES_PER_PART && Loaded(g.disk, g.lba, c).no == c
            && Loaded(g.disk, g.lba, c) == I(g, c)
    ensures Pure(I(g, c)) == I(g, c)
    ensures c in g.open ==> Pure(g.open[c]) == I(g, c) && 1 <= g.open[c].openCnts
  {
    hide StoreOK, NamesOK, RootOK, Loaded;
  }

  lemma SameChildren(g: Image, gO: Image, kinds: map<u32, Kind>)
    requires Geometry(g) && Geometry(gO) && forall m :: m in kinds ==> m < MAX_FILES_PER_PART && Untouched(g, gO, m)
    ensures forall d, p: nat, c :: ChildOf(gO, kinds, d, p, c) == ChildOf(g, kinds, d, p, c)
    ensures forall c :: Childless(gO, kinds, c) == Childless(g, kinds, c)
  {
    hide FlatI, I, Geometry;
  }
}
