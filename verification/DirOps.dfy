/** `src/fs/dir.c`: insertion, removal, search and enumeration of directory entries. */
module DirOps {
  import opened Bytes
  import opened Bitmaps
  import opened Partitions
  import opened Images
  import opened BlockMap
  import opened InodeTable
  import opened Allocation
  import opened Release
  import opened DirMap

  /** The inode of a directory that keeps to its direct blocks, each of which is its own. */
  ghost predicate DirBlocks(sec: seq<u32>, disk: seq<Sector>, bits: seq<bool>, ds: nat) {
    && |sec| == 13 && sec[TABLE] == 0
    && Owns(Slots(sec, disk), bits, ds, |disk|)
  }

  /** Direct blocks of one inode differ, and lie in the data area. */
  lemma DirBlock(sec: seq<u32>, disk: seq<Sector>, bits: seq<bool>, ds: nat, b: nat)
    requires DirBlocks(sec, disk, bits, ds) && b < DIRECT && sec[b] != 0
    ensures ds <= sec[b] < |disk| && sec[b] - ds < |bits| && bits[sec[b] - ds]
    ensures forall c :: 0 <= c < 13 && c != b ==> sec[c] != sec[b]
    ensures sec[b] in BlocksOf(Slots(sec, disk))
  {
    var slots := Slots(sec, disk);
    assert slots[b] == sec[b];
    forall c | 0 <= c < 13 && c != b
      ensures sec[c] != sec[b]
    {
      if c < DIRECT {
        assert slots[c] == sec[c];
      }
    }
  }

  /** Insertion of `e` at slot `p`: what happened to the slots, the blocks and the rest of the disk. */
  ghost predicate Inserted(sec: seq<u32>, disk: seq<Sector>, bits: seq<bool>, sec': seq<u32>, disk': seq<Sector>,
                           bits': seq<bool>,
                           ds: nat, b: nat, p: nat, e: DirEntry)
  {
    && |sec| == |sec'| == 13 && |disk'| == |disk| && b < DIRECT && 21 * b <= p < 21 * b + 21
    && FirstFree(Flat(sec, disk), p)
    && Flat(sec', disk') == Flat(sec, disk)[p := e]
    && sec'[b] != 0 && (forall c :: 0 <= c < 13 && c != b ==> sec'[c] == sec[c]) && (sec[b] != 0 ==> sec'[b] == sec[b])
    && Grew(Slots(sec, disk), bits, Slots(sec', disk'), bits', ds, |disk|)
    && DataKept(disk, disk', ds, {sec'[b]})
  }

  lemma DirectSlots(sec: seq<u32>, disk: seq<Sector>, sec': seq<u32>, disk': seq<Sector>)
    requires |sec| == |sec'| == 13 && sec[TABLE] == sec'[TABLE] == 0
    ensures forall k :: 0 <= k < DIRECT ==> Slots(sec, disk)[k] == sec[k] && Slots(sec', disk')[k] == sec'[k]
    ensures forall k :: DIRECT <= k < SLOTS ==> Slots(sec, disk)[k] == 0 && Slots(sec', disk')[k] == 0
  {
  }

  lemma OneBlockGrew(sec: seq<u32>, disk: seq<Sector>, bits: seq<bool>, b: nat, lba: u32, disk': seq<Sector>,
                     bits': seq<bool>, ds: nat)
    requires DirBlocks(sec, disk, bits, ds) && b < DIRECT && sec[b] == 0 && 0 < ds
    requires Taken(bits, bits', ds, |disk|, {lba})
    ensures Grew(Slots(sec, disk), bits, Slots(sec[b := lba], disk'), bits', ds, |disk|)
  {
    DirectSlots(sec, disk, sec[b := lba], disk');
    var slots, slots' := Slots(sec, disk), Slots(sec[b := lba], disk');
    assert lba in {lba};
    assert slots'[b] == lba;
    assert Gained(slots, slots') == {lba};
  }

  lemma OtherBlocksKept(sec: seq<u32>, disk: seq<Sector>, bits: seq<bool>, ds: nat, b: nat, disk': seq<Sector>,
                        lba: u32)
    requires DirBlocks(sec, disk, bits, ds) && b < DIRECT && DataKept(disk, disk', ds, {lba})
    requires forall c :: 0 <= c < DIRECT && c != b && sec[c] != 0 ==> sec[c] != lba
    ensures forall c :: 0 <= c < DIRECT && c != b && 0 < sec[c] < |disk| ==> disk'[sec[c]] == disk[sec[c]]
  {
    forall c | 0 <= c < DIRECT && c != b && 0 < sec[c] < |disk|
      ensures disk'[sec[c]] == disk[sec[c]]
    {
      DirBlock(sec, disk, bits, ds, c);
    }
  }

  lemma InsertedInHole(sec: seq<u32>, disk: seq<Sector>, bits: seq<bool>, ds: nat, b: nat, e: DirEntry, lba: u32,
                       disk': seq<Sector>, bits': seq<bool>)
    requires DirBlocks(sec, disk, bits, ds) && b < DIRECT && sec[b] == 0 && |e.filename| == 16 && 0 < ds
    requires FirstFree(Flat(sec, disk), 21 * b)
    requires Taken(bits, bits', ds, |disk|, {lba}) && DataKept(disk, disk', ds, {lba}) && lba < |disk|
    requires disk'[lba] == Splice(ZERO_SECTOR, 0, EncodeEntry(e))
    ensures Inserted(sec, disk, bits, sec[b := lba], disk', bits', ds, b, 21 * b, e)
  {
    assert lba in {lba};
    OneBlockGrew(sec, disk, bits, b, lba, disk', bits', ds);
    forall c | 0 <= c < DIRECT && c != b && sec[c] != 0
      ensures sec[c] != lba
    {
      DirBlock(sec, disk, bits, ds, c);
    }
    OtherBlocksKept(sec, disk, bits, ds, b, disk', lba);
    NewSlotWritten(sec, disk, sec[b := lba], disk', b, e);
  }

  lemma InsertedInBlock(sec: seq<u32>, disk: seq<Sector>, bits: seq<bool>, ds: nat, b: nat, j: nat, e: DirEntry,
                        disk': seq<Sector>)
    requires DirBlocks(sec, disk, bits, ds) && b < DIRECT && sec[b] != 0 && j < ENTRIES_PER_SEC && |e.filename| == 16
    requires FirstFree(Flat(sec, disk), 21 * b + j)
    requires DataKept(disk, disk', ds, {sec[b]}) && sec[b] < |disk|
    requires disk'[sec[b]] == Splice(disk[sec[b]], 24 * j, EncodeEntry(e))
    ensures Inserted(sec, disk, bits, sec, disk', bits, ds, b, 21 * b + j, e)
  {
    DirBlock(sec, disk, bits, ds, b);
    OtherBlocksKept(sec, disk, bits, ds, b, disk', sec[b]);
    SlotWritten(sec, disk, disk', b, j, e);
    DirectSlots(sec, disk, sec, disk');
    assert Slots(sec, disk') == Slots(sec, disk);
    assert Gained(Slots(sec, disk), Slots(sec, disk')) == {};
  }

  /** A new block with this content: lines 118-172 of `sync_dir_entry`, and lines 569-593 of `sys_mkdir`. */
  method StoreInNewBlock(part: Partition, content: Sector) returns (lba: int)
    requires part.Valid()
    modifies part`disk, part.blockBitmap, part.blockBitmap.bits
    ensures part.Valid() && TableKept(old(part.disk), part.disk, part.inodeTableLba)
    ensures lba == -1 <==> FreeCount(old(part.Bits())) == 0
    ensures lba == -1 ==> part.disk == old(part.disk) && part.Bits() == old(part.Bits())
    ensures lba != -1 ==> part.dataStartLba <= lba < |part.disk|
    ensures lba != -1 ==> Taken(old(part.Bits()), part.Bits(), part.dataStartLba, |part.disk|, {lba})
    ensures lba != -1 ==> DataKept(old(part.disk), part.disk, part.dataStartLba, {lba})
    ensures lba != -1 ==> part.disk[lba] == content && FreeCount(part.Bits()) == FreeCount(old(part.Bits())) - 1
    ensures Recorded(old(Snap(part)), Snap(part), {})
    ensures part.disk[part.inodeBitmapLba] == old(part.disk)[part.inodeBitmapLba]
  {
    hide Recorded, NextFree, Allocated, FreeCount, OnlySet;
    lba := TakeBlock(part, true);
    AllocatedIsRecorded(old(Snap(part)), Snap(part));
    if lba != -1 {
      TakenOneMore(old(part.Bits()), old(part.Bits()), part.dataStartLba, |part.disk|, {}, lba);
      assert {} + {lba} == {lba};
      ghost var disk1 := part.disk;
      part.IdeWrite(lba, content);
      DataRecorded(part, old(Snap(part)), disk1, {});
    }
  }

  /** The inner loop of `sync_dir_entry` (lines 176-184): the first free slot of a block, or 21. */
  method FindFree(block: Sector) returns (j: nat)
    ensures j <= ENTRIES_PER_SEC
    ensures forall k :: 0 <= k < j ==> Live(EntryAt(block, k))
    ensures j < ENTRIES_PER_SEC ==> !Live(EntryAt(block, j))
  {
    j := 0;
    while j < ENTRIES_PER_SEC
      invariant j <= ENTRIES_PER_SEC
      invariant forall k :: 0 <= k < j ==> Live(EntryAt(block, k))
    {
      if EntryAt(block, j).ftype == FT_UNKNOWN {
        return;
      }
      j := j + 1;
    }
  }

  /** The scan of `sync_dir_entry` (lines 115-178): the block and the slot that take the entry. */
  method LocateFree(part: Partition, sec: seq<u32>) returns (b: nat, j: nat)
    requires part.Valid() && DirBlocks(sec, part.disk, part.Bits(), part.dataStartLba)
    requires exists q :: 0 <= q < FLAT && !Live(Flat(sec, part.disk)[q])
    ensures b < DIRECT && j < ENTRIES_PER_SEC && (sec[b] == 0 ==> j == 0)
    ensures FirstFree(Flat(sec, part.disk), 21 * b + j)
  {
    ghost var flat := Flat(sec, part.disk);
    b, j := 0, 0;
    while b < DIRECT
      invariant b <= DIRECT
      invariant forall q :: 0 <= q < 21 * b ==> Live(flat[q])
    {
      if sec[b] == 0 {
        SlotIndex(b, 0);
        assert flat[21 * b] == NO_ENTRY;
        j := 0;
        return;
      }
      DirBlock(sec, part.disk, part.Bits(), part.dataStartLba, b);
      var block := part.disk[sec[b]];
      j := FindFree(block);
      forall q | 21 * b <= q < 21 * b + j
        ensures Live(flat[q])
      {
        SlotIndex(b, q - 21 * b);
      }
      if j < ENTRIES_PER_SEC {
        SlotIndex(b, j);
        assert flat[21 * b + j] == EntryAt(block, j);
        return;
      }
      b := b + 1;
    }
    assert false;
  }

  /** The lowest free slot lies in a hole. */
  ghost predicate NeedsBlock(sec: seq<u32>, disk: seq<Sector>)
    requires |sec| == 13
  {
    exists p: nat :: p < FLAT && FirstFree(Flat(sec, disk), p) && sec[p / 21] == 0
  }

  lemma NeedsBlockAt(sec: seq<u32>, disk: seq<Sector>, b: nat, j: nat)
    requires |sec| == 13 && b < DIRECT && j < ENTRIES_PER_SEC && FirstFree(Flat(sec, disk), 21 * b + j)
    ensures NeedsBlock(sec, disk) <==> sec[b] == 0
  {
    SlotIndex(b, j);
    if NeedsBlock(sec, disk) {
      var p: nat :| p < FLAT && FirstFree(Flat(sec, disk), p) && sec[p / 21] == 0;
      assert p == 21 * b + j;
    }
  }

  /** `sync_dir_entry`, for a directory with a free slot in its direct blocks. The entry goes to the
      lowest free slot, where a hole counts as 21 free slots. */
  method SyncDirEntry(part: Partition, inode: Inode, e: DirEntry)
    returns (ok: bool, inode': Inode, ghost b: nat, ghost p: nat)
    requires part.Valid() && DirBlocks(inode.sectors, part.disk, part.Bits(), part.dataStartLba)
    requires exists q :: 0 <= q < FLAT && !Live(Flat(inode.sectors, part.disk)[q])
    requires |e.filename| == 16 && inode.size as nat + ENTRY_SIZE < 0x1_0000_0000
    modifies part`disk, part.blockBitmap, part.blockBitmap.bits
    ensures part.Valid() && |inode'.sectors| == 13 && TableKept(old(part.disk), part.disk, part.inodeTableLba)
    ensures ok <==> !(NeedsBlock(inode.sectors, old(part.disk)) && FreeCount(old(part.Bits())) == 0)
    ensures !ok ==> inode' == inode
                    && part.disk == old(part.disk) && part.Bits() == old(part.Bits())
    ensures ok ==> inode' == inode.(size := inode.size + ENTRY_SIZE, sectors := inode'.sectors)
    ensures ok ==> FreeCount(part.Bits()) == FreeCount(old(part.Bits()))
                                             - if NeedsBlock(inode.sectors, old(part.disk)) then 1 else 0
    ensures ok ==> Inserted(inode.sectors, old(part.disk), old(part.Bits()), inode'.sectors, part.disk, part.Bits(),
                            part.dataStartLba, b, p, e)
    ensures Recorded(old(Snap(part)), Snap(part), {})
  {
    hide NeedsBlock, FirstFree, Flat, Slots, Owns, Inserted, FreeCount, Recorded;
    var blockIdx, j := LocateFree(part, inode.sectors);
    b, p := blockIdx, 21 * blockIdx + j;
    NeedsBlockAt(inode.sectors, part.disk, blockIdx, j);
    var sec';
    ok, sec' := PutEntry(part, inode.sectors, blockIdx, j, e);
    inode' := if ok then inode.(size := inode.size + ENTRY_SIZE, sectors := sec') else inode;
  }

  /** Lines 118-188: the entry is written to slot `j` of block `b`, which is a new one if there is a hole. */
  method PutEntry(part: Partition, sec: seq<u32>, b: nat, j: nat, e: DirEntry) returns (ok: bool, sec': seq<u32>)
    requires part.Valid() && DirBlocks(sec, part.disk, part.Bits(), part.dataStartLba) && |e.filename| == 16
    requires b < DIRECT && j < ENTRIES_PER_SEC && (sec[b] == 0 ==> j == 0)
    requires FirstFree(Flat(sec, part.disk), 21 * b + j)
    modifies part`disk, part.blockBitmap, part.blockBitmap.bits
    ensures part.Valid() && TableKept(old(part.disk), part.disk, part.inodeTableLba)
    ensures ok <==> !(sec[b] == 0 && FreeCount(old(part.Bits())) == 0)
    ensures !ok ==> part.disk == old(part.disk) && part.Bits() == old(part.Bits())
    ensures ok ==> |sec'| == 13
                   && FreeCount(part.Bits()) == FreeCount(old(part.Bits())) - if sec[b] == 0 then 1 else 0
    ensures ok ==> Inserted(sec, old(part.disk), old(part.Bits()), sec', part.disk, part.Bits(),
                            part.dataStartLba, b, 21 * b + j, e)
    ensures Recorded(old(Snap(part)), Snap(part), {})
  {
    hide Grew, FirstFree, Flat, Slots, Owns, Inserted, Taken, DataKept, FreeCount, Recorded;
    ok, sec' := true, sec;
    if sec[b] == 0 {
      var lba := StoreInNewBlock(part, Splice(ZERO_SECTOR, 0, EncodeEntry(e)));
      if lba == -1 {
        ok := false;
      } else {
        InsertedInHole(sec, old(part.disk), old(part.Bits()), part.dataStartLba, b, e, lba, part.disk, part.Bits());
        sec' := sec[b := lba];
      }
    } else {
      DirBlock(sec, part.disk, part.Bits(), part.dataStartLba, b);
      SameRecorded(part, Snap(part));
      part.IdeWrite(sec[b], Splice(part.disk[sec[b]], ENTRY_SIZE * j, EncodeEntry(e)));
      DataRecorded(part, old(Snap(part)), old(part.disk), {});
      OneBlockWritten(old(part.disk), part.disk, part.dataStartLba, sec[b]);
      InsertedInBlock(sec, old(part.disk), part.Bits(), part.dataStartLba, b, j, e, part.disk);
    }
  }

  lemma OneBlockWritten(disk: seq<Sector>, disk': seq<Sector>, ds: nat, lba: u32)
    requires lba < |disk| == |disk'| && disk' == disk[lba := disk'[lba]]
    ensures DataKept(disk, disk', ds, {lba})
  {
  }

  // ---- Removal ----

  function BlockEntries(block: Sector): (es: seq<DirEntry>)
    ensures |es| == ENTRIES_PER_SEC
    ensures forall k {:trigger es[k]} :: 0 <= k < ENTRIES_PER_SEC ==> es[k] == EntryAt(block, k)
  {
    seq<DirEntry>(ENTRIES_PER_SEC, k requires 0 <= k < ENTRIES_PER_SEC => EntryAt(block, k))
  }

  function ChildFlags(es: seq<DirEntry>): (fs: seq<bool>)
    ensures |fs| == |es| && forall k :: 0 <= k < |es| ==> fs[k] == Child(es[k])
  {
    seq(|es|, k requires 0 <= k < |es| => Child(es[k]))
  }

  /** The entry that `delete_dir_entry` looks for. */
  predicate IsTarget(e: DirEntry, ino: u32) {
    Child(e) && e.ino == ino
  }

  lemma CountPrefix(fs: seq<bool>, k: nat)
    requires k < |fs|
    ensures Count(fs[..k + 1]) == Count(fs[..k]) + if fs[k] then 1 else 0
  {
    assert fs[..k + 1] == fs[..k] + [fs[k]];
  }

  /** The inner loop of `delete_dir_entry` (lines 225-243), with its assertion that nothing was found
      before. */
  method ScanBlock(es: seq<DirEntry>, ino: u32) returns (entryCnt: nat, isFirst: bool, found: int)
    requires forall j, k :: 0 <= j < k < |es| && IsTarget(es[j], ino) ==> !IsTarget(es[k], ino)
    ensures entryCnt == Count(ChildFlags(es))
    ensures isFirst <==> exists e :: e in es && Live(e) && IsDot(e)
    ensures found == -1 || (0 <= found < |es| && IsTarget(es[found], ino))
    ensures found == -1 ==> forall k :: 0 <= k < |es| ==> !IsTarget(es[k], ino)
  {
    ghost var fs := ChildFlags(es);
    entryCnt, isFirst, found := 0, false, -1;
    var k := 0;
    while k < |es|
      invariant k <= |es|
      invariant entryCnt == Count(fs[..k])
      invariant isFirst <==> exists e :: e in es[..k] && Live(e) && IsDot(e)
      invariant found == -1 || (0 <= found < k && IsTarget(es[found], ino))
      invariant found == -1 ==> forall q :: 0 <= q < k ==> !IsTarget(es[q], ino)
    {
      CountPrefix(fs, k);
      assert es[..k + 1] == es[..k] + [es[k]];
      var e := es[k];
      if e.ftype != FT_UNKNOWN {
        if IsDot(e) {
          isFirst := true;
        } else if !IsDotDot(e) {
          entryCnt := entryCnt + 1;
          if e.ino == ino {
            assert IsTarget(es[k], ino);
            assert found == -1;
            found := k;
          }
        }
      }
      k := k + 1;
    }
    assert fs[..k] == fs && es[..k] == es;
  }

  /** Removal of the child at slot `p` of block `b`: the block is given up iff it is not the first one
      and held no other entry. */
  ghost predicate Removed(sec: seq<u32>, disk: seq<Sector>, bits: seq<bool>, sec': seq<u32>, disk': seq<Sector>,
                          bits': seq<bool>,
                          ds: nat, b: nat, p: nat)
  {
    && |sec| == |sec'| == 13 && |disk'| == |disk| && b < DIRECT && 21 * b <= p < 21 * b + 21 && 2 <= p
    && sec[b] != 0 && Live(Flat(sec, disk)[p])
    && Flat(sec', disk') == Flat(sec, disk)[p := NO_ENTRY]
    && (forall c :: 0 <= c < 13 && c != b ==> sec'[c] == sec[c])
    && (sec'[b] == 0 || sec'[b] == sec[b])
    && (sec'[b] == 0 <==> b >= 1 && forall q :: 21 * b <= q < 21 * b + 21 && q != p ==> !Live(Flat(sec, disk)[q]))
    && Dropped(bits, bits', ds, if sec'[b] == 0 then {sec[b]} else {})
    && DataKept(disk, disk', ds, if sec'[b] == 0 then {} else {sec[b]})
  }

  lemma RemovedWithBlock(sec: seq<u32>, disk: seq<Sector>, bits: seq<bool>, ds: nat, b: nat, p: nat,
                         disk': seq<Sector>, bits': seq<bool>)
    requires DirBlocks(sec, disk, bits, ds) && GoodSlots(Flat(sec, disk))
    requires 1 <= b < DIRECT && sec[b] != 0 && 21 * b <= p < 21 * b + 21 && Live(Flat(sec, disk)[p])
    requires forall q :: 21 * b <= q < 21 * b + 21 && q != p ==> !Live(Flat(sec, disk)[q])
    requires Dropped(bits, bits', ds, {sec[b]}) && DataKept(disk, disk', ds, {})
    ensures Removed(sec, disk, bits, sec[b := 0], disk', bits', ds, b, p)
  {
    forall c | 0 <= c < DIRECT && c != b && 0 < sec[c] < |disk|
      ensures disk'[sec[c]] == disk[sec[c]]
    {
      DirBlock(sec, disk, bits, ds, c);
    }
    BlockDropped(sec, disk, disk', b, p);
  }

  lemma RemovedInBlock(sec: seq<u32>, disk: seq<Sector>, bits: seq<bool>, ds: nat, b: nat, j: nat, disk': seq<Sector>)
    requires DirBlocks(sec, disk, bits, ds) && GoodSlots(Flat(sec, disk))
    requires b < DIRECT && sec[b] != 0 && j < ENTRIES_PER_SEC && 2 <= 21 * b + j && Live(Flat(sec, disk)[21 * b + j])
    requires b >= 1 ==> exists q :: 21 * b <= q < 21 * b + 21 && q != 21 * b + j && Live(Flat(sec, disk)[q])
    requires DataKept(disk, disk', ds, {sec[b]}) && sec[b] < |disk|
    requires disk'[sec[b]] == Splice(disk[sec[b]], 24 * j, EncodeEntry(NO_ENTRY))
    ensures Removed(sec, disk, bits, sec, disk', bits, ds, b, 21 * b + j)
  {
    DirBlock(sec, disk, bits, ds, b);
    OtherBlocksKept(sec, disk, bits, ds, b, disk', sec[b]);
    SlotWritten(sec, disk, disk', b, j, NO_ENTRY);
  }

  /** The count of a block tells whether the child at slot `j` is alone in it. */
  lemma AloneByCount(sec: seq<u32>, disk: seq<Sector>, b: nat, j: nat)
    requires |sec| == 13 && b < DIRECT && 0 < sec[b] < |disk| && j < ENTRIES_PER_SEC
    requires GoodSlots(Flat(sec, disk)) && Child(EntryAt(disk[sec[b]], j))
    ensures Count(ChildFlags(BlockEntries(disk[sec[b]]))) >= 1
    ensures b >= 1 ==> (Count(ChildFlags(BlockEntries(disk[sec[b]]))) == 1 <==>
              forall q :: 21 * b <= q < 21 * b + 21 && q != 21 * b + j ==> !Live(Flat(sec, disk)[q]))
  {
    var fs, flat := ChildFlags(BlockEntries(disk[sec[b]])), Flat(sec, disk);
    CountOne(fs, j);
    forall k | 0 <= k < ENTRIES_PER_SEC && b >= 1
      ensures fs[k] == Live(flat[21 * b + k])
    {
      SlotIndex(b, k);
      assert flat[21 * b + k] == EntryAt(disk[sec[b]], k);
    }
    if b >= 1 && Count(fs) == 1 {
      forall q | 21 * b <= q < 21 * b + 21 && q != 21 * b + j
        ensures !Live(flat[q])
      {
        assert !fs[q - 21 * b];
      }
    }
  }

  /** The slot of the child with inode number `ino`. */
  ghost predicate ChildAt(flat: seq<DirEntry>, p: nat, ino: u32) {
    2 <= p < |flat| && IsTarget(flat[p], ino)
  }

  lemma BlockOfFlat(sec: seq<u32>, disk: seq<Sector>, b: nat)
    requires |sec| == 13 && b < DIRECT && 0 < sec[b] < |disk|
    ensures forall k :: 0 <= k < ENTRIES_PER_SEC ==> BlockEntries(disk[sec[b]])[k] == Flat(sec, disk)[21 * b + k]
  {
    forall k | 0 <= k < ENTRIES_PER_SEC
      ensures BlockEntries(disk[sec[b]])[k] == Flat(sec, disk)[21 * b + k]
    {
      SlotIndex(b, k);
    }
  }

  /** In a good directory a block holds a child once at most, and `.` only if it is the first block. */
  lemma BlockFacts(sec: seq<u32>, disk: seq<Sector>, b: nat, ino: u32)
    requires |sec| == 13 && b < DIRECT && 0 < sec[b] < |disk| && GoodSlots(Flat(sec, disk))
    ensures var es := BlockEntries(disk[sec[b]]);
      && (forall j, k :: 0 <= j < k < |es| && IsTarget(es[j], ino) ==> !IsTarget(es[k], ino))
      && ((exists e :: e in es && Live(e) && IsDot(e)) <==> b == 0)
      && (forall k :: 0 <= k < |es| && IsTarget(es[k], ino) ==> ChildAt(Flat(sec, disk), 21 * b + k, ino))
  {
    hide Flat;
    var es, flat := BlockEntries(disk[sec[b]]), Flat(sec, disk);
    BlockOfFlat(sec, disk, b);
    hide EntryAt, BlockEntries;
    forall k | 0 <= k < |es| && IsTarget(es[k], ino)
      ensures ChildAt(flat, 21 * b + k, ino)
    {
      assert es[k] == flat[21 * b + k];
    }
    if b == 0 {
      assert es[0] == flat[0];
    } else {
      forall k | 0 <= k < |es|
        ensures !(Live(es[k]) && IsDot(es[k]))
      {
        assert es[k] == flat[21 * b + k];
      }
    }
  }

  /** The outer loop of `delete_dir_entry` (lines 215-246): the first block that holds the child. */
  method LocateChild(part: Partition, sec: seq<u32>, ino: u32) returns (b: nat, j: int, entryCnt: nat, isFirst: bool)
    requires part.Valid() && DirBlocks(sec, part.disk, part.Bits(), part.dataStartLba)
    requires GoodSlots(Flat(sec, part.disk))
    ensures j == -1 ==> forall p: nat :: !ChildAt(Flat(sec, part.disk), p, ino)
    ensures j != -1 ==>
      && b < DIRECT && 0 < sec[b] < |part.disk| && 0 <= j < ENTRIES_PER_SEC
      && Child(EntryAt(part.disk[sec[b]], j))
      && ChildAt(Flat(sec, part.disk), 21 * b + j, ino)
      && entryCnt == Count(ChildFlags(BlockEntries(part.disk[sec[b]])))
      && (isFirst <==> b == 0)
  {
    hide Flat, GoodSlots, BlockEntries;
    ghost var flat := Flat(sec, part.disk);
    var allBlocks := sec[..DIRECT] + Zeros(128);
    b := 0;
    while b < 140
      invariant b <= 140
      invariant forall p: nat :: p < 21 * b ==> !ChildAt(flat, p, ino)
    {
      if allBlocks[b] == 0 {
        forall p | 21 * b <= p < 21 * b + 21
          ensures !ChildAt(flat, p, ino)
        {
          if p < FLAT {
            SlotIndex(b, p - 21 * b);
          }
        }
      } else {
        DirBlock(sec, part.disk, part.Bits(), part.dataStartLba, b);
        BlockFacts(sec, part.disk, b, ino);
        entryCnt, isFirst, j := ScanBlock(BlockEntries(part.disk[sec[b]]), ino);
        if j != -1 {
          return;
        }
        forall p | 21 * b <= p < 21 * b + 21
          ensures !ChildAt(flat, p, ino)
        {
          BlockOfFlat(sec, part.disk, b);
          assert BlockEntries(part.disk[sec[b]])[p - 21 * b] == flat[p];
        }
      }
      b := b + 1;
    }
    j, entryCnt, isFirst := -1, 0, false;
  }

  /** Lines 248-282 of `delete_dir_entry`, with the assertion on the number of entries: give the block
      up or blank the slot. */
  method RemoveAt(part: Partition, sec: seq<u32>, b: nat, j: nat, entryCnt: nat, isFirst: bool) returns (sec': seq<u32>)
    requires part.Valid() && DirBlocks(sec, part.disk, part.Bits(), part.dataStartLba)
    requires GoodSlots(Flat(sec, part.disk))
    requires b < DIRECT && j < ENTRIES_PER_SEC && 0 < sec[b] < |part.disk|
    requires Child(EntryAt(part.disk[sec[b]], j)) && 2 <= 21 * b + j
    requires entryCnt == Count(ChildFlags(BlockEntries(part.disk[sec[b]]))) && (isFirst <==> b == 0)
    modifies part`disk, part.blockBitmap, part.blockBitmap.bits
    ensures part.Valid() && TableKept(old(part.disk), part.disk, part.inodeTableLba)
    ensures Removed(sec, old(part.disk), old(part.Bits()), sec', part.disk, part.Bits(), part.dataStartLba, b,
                    21 * b + j)
    ensures Recorded(old(Snap(part)), Snap(part), {})
  {
    hide GoodSlots, Owns, Removed, Count, Recorded;
    ghost var disk0, bits0 := part.disk, part.Bits();
    ReleasingFromHere(part);
    SlotIndex(b, j);
    assert Flat(sec, part.disk)[21 * b + j] == EntryAt(part.disk[sec[b]], j);
    AloneByCount(sec, part.disk, b, j);
    assert entryCnt >= 1;
    DirBlock(sec, part.disk, bits0, part.dataStartLba, b);
    if entryCnt == 1 && !isFirst {
      FreeBlock(part, sec[b], Snap(part), {});
      assert {} + {sec[b]} == {sec[b]};
      sec' := sec[b := 0];
      RemovedWithBlock(sec, disk0, bits0, part.dataStartLba, b, 21 * b + j, part.disk, part.Bits());
    } else {
      part.IdeWrite(sec[b], Splice(part.disk[sec[b]], ENTRY_SIZE * j, EncodeEntry(NO_ENTRY)));
      DataRecorded(part, old(Snap(part)), disk0, {});
      sec' := sec;
      RemovedInBlock(sec, disk0, bits0, part.dataStartLba, b, j, part.disk);
    }
  }

  lemma TableStays(disk: seq<Sector>, lba: nat)
    requires HasTable(disk, lba)
    ensures TableKept(disk, disk, lba)
  {
  }

  /** A successful `delete_dir_entry` up to the sync of the inode. */
  ghost predicate Deleted(i: Inode, disk: seq<Sector>, bits: seq<bool>, i': Inode, disk': seq<Sector>, bits': seq<bool>,
                          ds: nat, b: nat, p: nat, ino: u32)
    requires |i.sectors| == 13
  {
    && i.size >= ENTRY_SIZE && i' == i.(size := i.size - ENTRY_SIZE, sectors := i'.sectors)
    && ChildAt(Flat(i.sectors, disk), p, ino)
    && Removed(i.sectors, disk, bits, i'.sectors, disk', bits', ds, b, p)
  }

  /** `delete_dir_entry` without its last step. */
  method UnlinkEntry(part: Partition, inode: Inode, ino: u32)
    returns (found: bool, inode': Inode, ghost b: nat, ghost p: nat)
    requires part.Valid() && GoodDir(inode, part.disk, part.Bits(), part.dataStartLba)
    modifies part`disk, part.blockBitmap, part.blockBitmap.bits
    ensures part.Valid() && TableKept(old(part.disk), part.disk, part.inodeTableLba)
    ensures !found ==> forall q: nat :: !ChildAt(Flat(inode.sectors, old(part.disk)), q, ino)
    ensures !found ==> inode' == inode && part.disk == old(part.disk) && part.Bits() == old(part.Bits())
    ensures found ==> Deleted(inode, old(part.disk), old(part.Bits()), inode', part.disk, part.Bits(),
                              part.dataStartLba, b, p, ino)
    ensures Recorded(old(Snap(part)), Snap(part), {})
  {
    hide GoodSlots, Owns, Removed, Count, Flat, Slots, IsTarget, Live, Child, EntryAt, ChildFlags, BlockEntries,
         Recorded, TableKept;
    TableStays(part.disk, part.inodeTableLba);
    SameRecorded(part, Snap(part));
    inode', b, p := inode, 0, 0;
    var blockIdx, j, entryCnt, isFirst := LocateChild(part, inode.sectors, ino);
    found := j != -1;
    if found {
      b, p := blockIdx, 21 * blockIdx + j;
      LiveDir(inode, part.disk);
      SlotIndex(blockIdx, j);
      assert inode.size >= ENTRY_SIZE;
      var sec' := RemoveAt(part, inode.sectors, blockIdx, j, entryCnt, isFirst);
      inode' := inode.(size := inode.size - ENTRY_SIZE, sectors := sec');
    }
  }

  /** `delete_dir_entry`. It finds the child iff there is one, and its assertions on the number of
      entries and on the size hold. */
  method DeleteDirEntry(part: Partition, inode: Inode, ino: u32)
    returns (found: bool, inode': Inode, ghost b: nat, ghost p: nat, ghost disk1: seq<Sector>)
    requires part.Valid() && GoodDir(inode, part.disk, part.Bits(), part.dataStartLba)
    modifies part`disk, part.blockBitmap, part.blockBitmap.bits
    ensures part.Valid()
    ensures !found ==> forall q: nat :: !ChildAt(Flat(inode.sectors, old(part.disk)), q, ino)
    ensures !found ==> inode' == inode && part.disk == old(part.disk) && part.Bits() == old(part.Bits())
    ensures found ==> Deleted(inode, old(part.disk), old(part.Bits()), inode', disk1, part.Bits(),
                              part.dataStartLba, b, p, ino)
    ensures found ==> TableKept(old(part.disk), disk1, part.inodeTableLba) && |disk1| == |part.disk|
    ensures found ==> Stored(disk1, part.disk, part.inodeTableLba, inode'.no % 256, Encode(Pure(inode')))
    ensures Recorded(old(Snap(part)), Snap(part), {})
  {
    hide Recorded;
    found, inode', b, p := UnlinkEntry(part, inode, ino);
    disk1 := part.disk;
    if found {
      ghost var g1 := Snap(part);
      InodeSync(part, inode');
      OutsideRecorded(part, old(Snap(part)), g1, {});
    }
  }

  lemma LiveDir(inode: Inode, disk: seq<Sector>)
    requires |inode.sectors| == 13 && DirShape(inode.sectors, inode.size, disk)
    ensures inode.size >= 2 * ENTRY_SIZE
  {
    CountTwo(Flags(Flat(inode.sectors, disk)));
  }
}
