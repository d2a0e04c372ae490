/** `file_write` and `file_read` of `src/fs/file.c`. */
module FileOps {
  import opened Bytes
  import opened Bitmaps
  import opened Partitions
  import opened Images
  import opened BlockMap
  import opened InodeTable
  import opened Allocation

  const BLOCK_SIZE: nat := 512

  /** The allocation loop of `file_write`. In its three situations the loop stores a new block in the
      inode, in the inode or the table, or in the table only; the index decides which. */
  method AllocRange(part: Partition, sec0: seq<u32>, all0: seq<u32>, has: nat, will: nat,
                    ghost bits0: seq<bool>, ghost disk0: seq<Sector>, ghost got0: set<u32>)
    returns (ok: bool, sec: seq<u32>, all: seq<u32>, ghost got: set<u32>, ghost hi: nat)
    requires |sec0| == 13 && |all0| == MAX_BLOCKS && has <= will <= MAX_BLOCKS
    requires Allocating(part, bits0, disk0, got0)
    requires forall k :: has <= k < will && k < DIRECT ==> sec0[k] == 0
    modifies part`disk, part.blockBitmap, part.blockBitmap.bits
    ensures Allocating(part, bits0, disk0, got)
    ensures Filled(sec0, all0, got0, has, hi, sec, all, got) && hi <= will
    ensures ok <==> hi == will
    ensures !ok ==> |got| == FreeCount(bits0)
    ensures !ok && has < hi && has < DIRECT ==> sec[has] in got
    ensures Allocated(old(Snap(part)), Snap(part))
    ensures has < will && NextFree(old(part.Bits()), 0) < |old(part.Bits())| ==> part.Bits() != old(part.Bits())
  {
    hide FreeCount, Taken, Allocated, OnlySet;
    ghost var g := Snap(part);
    SameAllocated(part, g);
    sec, all, got, hi := sec0, all0, got0, has;
    var blockIdx := has;
    while blockIdx < will
      invariant has <= blockIdx <= will && hi == blockIdx
      invariant Allocating(part, bits0, disk0, got)
      invariant Filled(sec0, all0, got0, has, blockIdx, sec, all, got)
      invariant Allocated(g, Snap(part)) && (has < blockIdx ==> part.Bits() != g.bits)
    {
      var lba;
      ghost var g1 := Snap(part);
      ghost var sec', all', got' := sec, all, got;
      lba, got := AllocAndSync(part, bits0, disk0, got, true);
      AllocatedTwice(g, g1, Snap(part));
      if lba == -1 {
        ok := false;
        return;
      }
      if blockIdx < DIRECT {
        assert sec[blockIdx] == 0;
        sec := sec[blockIdx := lba];
      }
      all := all[blockIdx := lba];
      FilledOneMore(sec0, all0, got0, has, blockIdx, sec', all', got', lba, sec, all);
      blockIdx := blockIdx + 1;
      hi := blockIdx;
    }
    ok := true;
  }

  /** Outside the sectors of the block bit map the disk has changed in sector `lba` at most. */
  ghost predicate OnlyBitmapAnd(part: Partition, disk: seq<Sector>, disk': seq<Sector>, lba: nat) {
    && |disk'| == |disk|
    && forall k :: 0 <= k < |disk| && !(part.blockBitmapLba <= k < part.inodeBitmapLba) && k != lba ==>
       disk'[k] == disk[k]
  }

  /** Situation 1 (lines 283-305): the file stays within its direct blocks. */
  method GrowDirect(part: Partition, sec0: seq<u32>, has: nat, will: nat)
    returns (ok: bool, sec: seq<u32>, all: seq<u32>)
    requires part.Valid() && |sec0| == 13 && 1 <= has < will <= DIRECT
    requires Mapped(Slots(sec0, part.disk), has)
    modifies part`disk, part.blockBitmap, part.blockBitmap.bits
    ensures part.Valid()
    ensures |sec| == 13 && |all| == MAX_BLOCKS
    ensures ok <==> will - has <= FreeCount(old(part.Bits()))
    ensures OnlyBitmap(part, old(part.disk), part.disk)
    ensures ok ==> Grew(Slots(sec0, old(part.disk)), old(part.Bits()), Slots(sec, part.disk), part.Bits(),
                        part.dataStartLba, |part.disk|)
    ensures ok ==> Mapped(Slots(sec, part.disk), will)
    ensures ok ==> forall k :: has - 1 <= k < will ==> all[k] == Slots(sec, part.disk)[k]
    ensures ok ==> FreeCount(part.Bits()) + (will - has) == FreeCount(old(part.Bits()))
    ensures !ok ==> FreeCount(part.Bits()) == 0 && BitsGrow(old(part.Bits()), part.Bits())
    ensures !ok && FreeCount(old(part.Bits())) > 0 ==> sec[has] != 0
    ensures !ok && FreeCount(old(part.Bits())) == 0 ==>
              sec == sec0 && part.Bits() == old(part.Bits()) && part.disk == old(part.disk)
    ensures forall k :: 0 <= k < 13 && sec0[k] != 0 ==> sec[k] == sec0[k]
    ensures Recorded(old(Snap(part)), Snap(part), {})
  {
    hide Recorded, NextFree, Allocated;
    var all0 := Zeros(MAX_BLOCKS)[has - 1 := sec0[has - 1]];
    AllocatingFromHere(part);
    MappedSectors(sec0, part.disk, has);
    ghost var got, hi;
    ok, sec, all, got, hi := AllocRange(part, sec0, all0, has, will, part.Bits(), part.disk, {});
    AllocatedIsRecorded(old(Snap(part)), Snap(part));
    if ok {
      DirectGrown(sec0, old(part.disk), old(part.Bits()), sec, part.disk, part.Bits(), part.dataStartLba, |part.disk|,
                  has, will, all0, all, got);
    } else {
      TakenGrows(old(part.Bits()), part.Bits(), part.dataStartLba, |part.disk|, got);
    }
  }

  /** The allocations of situation 2: the table, whose bit is set but not written to the disk here,
      then the data blocks. */
  method AllocNewTable(part: Partition, sec0: seq<u32>, all0: seq<u32>, has: nat, will: nat,
                       ghost bits0: seq<bool>, ghost disk0: seq<Sector>)
    returns (ok: bool, sec: seq<u32>, all: seq<u32>, table: u32, ghost got: set<u32>)
    requires |sec0| == 13 && |all0| == MAX_BLOCKS && has <= will <= MAX_BLOCKS
    requires Allocating(part, bits0, disk0, {})
    requires forall k :: has <= k < will && k < DIRECT ==> sec0[k] == 0
    requires sec0[TABLE] == 0
    modifies part`disk, part.blockBitmap, part.blockBitmap.bits
    ensures Allocating(part, bits0, disk0, got)
    ensures ok <==> will - has + 1 <= FreeCount(bits0)
    ensures ok ==> Filled(sec0[TABLE := table], all0, {table}, has, will, sec, all, got)
    ensures ok ==> part.dataStartLba <= table < |part.disk|
    ensures |sec| == 13 && |all| == MAX_BLOCKS
    ensures ok ==> |got| == will - has + 1
    ensures !ok ==> |got| == FreeCount(bits0)
    ensures !ok ==> if FreeCount(bits0) > 0 then sec[TABLE] != 0 else sec == sec0
    ensures forall k :: 0 <= k < 13 && sec0[k] != 0 ==> sec[k] == sec0[k]
    ensures has < will ==> Recorded(old(Snap(part)), Snap(part), LateTable(old(part.Bits()), 0, part.dataStartLba))
  {
    hide Recorded, NextFree, Allocated, OnlySet, Taken;
    ghost var g := Snap(part);
    sec, all, table := sec0, all0, 0;
    ghost var hi;
    var lba;
    lba, got := AllocAndSync(part, bits0, disk0, {}, false);
    ok := lba != -1;
    if !ok {
      SameRecorded(part, g);
    } else {
      assert sec[TABLE] == 0;
      table := lba;
      sec := sec[TABLE := table];
      ghost var g1 := Snap(part);
      ok, sec, all, got, hi := AllocRange(part, sec, all, has, will, bits0, disk0, got);
      if has < will {
        TableRecorded(g, g1, Snap(part), table - part.dataStartLba);
      }
      TakenInRange(bits0, part.Bits(), part.dataStartLba, |part.disk|, got, table);
    }
  }

  lemma NextAfterSet(g: Image, g1: Image, t: nat)
    requires OnlySet(g, g1, t)
    ensures t < |g.bits| == |g1.bits| && t == NextFree(g.bits, 0) && NextFree(g1.bits, 0) == NextFree(g.bits, t + 1)
  {
    NextFreeIs(g1.bits, 0, NextFree(g.bits, t + 1));
  }

  lemma TableRecorded(g: Image, g1: Image, g2: Image, t: nat)
    requires OnlySet(g, g1, t) && Allocated(g1, g2)
    requires NextFree(g1.bits, 0) < |g1.bits| ==> g2.bits != g1.bits
    ensures Recorded(g, g2, LateTable(g.bits, 0, g.ds))
  {
    hide Allocated, Recorded, OnlySet;
    NextAfterSet(g, g1, t);
    WrittenWithNext(g, g1, g2, t);
  }

  /** Situation 2 (lines 307-347): the file passes its twelfth block and gets an indirect table. */
  method GrowNewTable(part: Partition, sec0: seq<u32>, has: nat, will: nat)
    returns (ok: bool, sec: seq<u32>, all: seq<u32>)
    requires part.Valid() && |sec0| == 13 && 1 <= has <= DIRECT < will <= MAX_BLOCKS
    requires Mapped(Slots(sec0, part.disk), has)
    modifies part`disk, part.blockBitmap, part.blockBitmap.bits
    ensures part.Valid()
    ensures |sec| == 13 && |all| == MAX_BLOCKS
    ensures ok <==> will - has + 1 <= FreeCount(old(part.Bits()))
    ensures ok ==> OnlyBitmapAnd(part, old(part.disk), part.disk, sec[TABLE])
    ensures ok ==> Grew(Slots(sec0, old(part.disk)), old(part.Bits()), Slots(sec, part.disk), part.Bits(),
                        part.dataStartLba, |part.disk|)
    ensures ok ==> Mapped(Slots(sec, part.disk), will)
    ensures ok ==> forall k :: has - 1 <= k < will ==> all[k] == Slots(sec, part.disk)[k]
    ensures ok ==> FreeCount(part.Bits()) + (will - has + 1) == FreeCount(old(part.Bits()))
    ensures !ok ==> OnlyBitmap(part, old(part.disk), part.disk)
    ensures !ok ==> FreeCount(part.Bits()) == 0 && BitsGrow(old(part.Bits()), part.Bits())
    ensures !ok && FreeCount(old(part.Bits())) > 0 ==> sec[TABLE] != 0
    ensures !ok && FreeCount(old(part.Bits())) == 0 ==>
              sec == sec0 && part.Bits() == old(part.Bits()) && part.disk == old(part.disk)
    ensures forall k :: 0 <= k < 13 && sec0[k] != 0 ==> sec[k] == sec0[k]
    ensures Recorded(old(Snap(part)), Snap(part), LateTable(old(part.Bits()), 0, part.dataStartLba))
  {
    hide Grew, Slots, Mapped, Taken, BytesOf, Recorded, LateTable;
    var all0 := Zeros(MAX_BLOCKS)[has - 1 := sec0[has - 1]];
    ghost var bits0, disk0 := part.Bits(), part.disk;
    AllocatingFromHere(part);
    MappedSectors(sec0, part.disk, has);
    ghost var got;
    var table;
    ok, sec, all, table, got := AllocNewTable(part, sec0, all0, has, will, bits0, disk0);
    if ok {
      ghost var disk1 := part.disk;
      part.IdeWrite(table, BytesOf(all[DIRECT..]));
      DataRecorded(part, old(Snap(part)), disk1, LateTable(bits0, 0, part.dataStartLba));
      NewTableGrown(sec0, disk0, bits0, sec, part.disk, part.Bits(), part.dataStartLba, |part.disk|,
                    has, will, all0, all, table, got);
    } else {
      TakenGrows(bits0, part.Bits(), part.dataStartLba, |part.disk|, got);
    }
  }

  /** Situation 3 (lines 349-371): the indirect table is read, extended and written back. */
  method GrowOldTable(part: Partition, sec: seq<u32>, has: nat, will: nat) returns (ok: bool, all: seq<u32>)
    requires part.Valid() && |sec| == 13 && DIRECT < has < will <= MAX_BLOCKS
    requires Mapped(Slots(sec, part.disk), has)
    requires part.dataStartLba <= sec[TABLE] < |part.disk|
    modifies part`disk, part.blockBitmap, part.blockBitmap.bits
    ensures part.Valid()
    ensures |all| == MAX_BLOCKS
    ensures ok <==> will - has <= FreeCount(old(part.Bits()))
    ensures ok ==> OnlyBitmapAnd(part, old(part.disk), part.disk, sec[TABLE])
    ensures ok ==> Grew(Slots(sec, old(part.disk)), old(part.Bits()), Slots(sec, part.disk), part.Bits(),
                        part.dataStartLba, |part.disk|)
    ensures ok ==> Mapped(Slots(sec, part.disk), will)
    ensures ok ==> forall k :: has - 1 <= k < will ==> all[k] == Slots(sec, part.disk)[k]
    ensures ok ==> FreeCount(part.Bits()) + (will - has) == FreeCount(old(part.Bits()))
    ensures !ok ==> OnlyBitmap(part, old(part.disk), part.disk)
    ensures !ok ==> FreeCount(part.Bits()) == 0 && BitsGrow(old(part.Bits()), part.Bits())
    ensures !ok && FreeCount(old(part.Bits())) == 0 ==> part.Bits() == old(part.Bits()) && part.disk == old(part.disk)
    ensures Recorded(old(Snap(part)), Snap(part), {})
  {
    hide Recorded, NextFree, Allocated, Grew, BytesOf, Mapped, Taken;
    MappedSectors(sec, part.disk, has);
    ghost var bits0, disk0 := part.Bits(), part.disk;
    AllocatingFromHere(part);
    assert sec[TABLE] != 0;
    var table := sec[TABLE];
    var all0 := Zeros(DIRECT) + Words(part.disk[table]);
    var sec';
    ghost var got, hi;
    ok, sec', all, got, hi := AllocRange(part, sec, all0, has, will, bits0, disk0, {});
    AllocatedIsRecorded(old(Snap(part)), Snap(part));
    if ok {
      assert sec' == sec;
      ghost var disk1 := part.disk;
      part.IdeWrite(table, BytesOf(all[DIRECT..]));
      DataRecorded(part, old(Snap(part)), disk1, {});
      OldTableGrown(sec, disk0, bits0, part.disk, part.Bits(), part.dataStartLba, |part.disk|, has, will, all0, all,
                    got);
    } else {
      TakenGrows(bits0, part.Bits(), part.dataStartLba, |part.disk|, got);
    }
  }

  /** The first block of an empty file (lines 247-257). */
  method MapFirst(part: Partition, sec0: seq<u32>) returns (ok: bool, sec: seq<u32>)
    requires part.Valid() && |sec0| == 13
    requires Mapped(Slots(sec0, part.disk), 0)
    modifies part`disk, part.blockBitmap, part.blockBitmap.bits
    ensures part.Valid() && |sec| == 13
    ensures ok <==> 1 <= FreeCount(old(part.Bits()))
    ensures OnlyBitmap(part, old(part.disk), part.disk)
    ensures ok ==> Grew(Slots(sec0, old(part.disk)), old(part.Bits()), Slots(sec, part.disk), part.Bits(),
                        part.dataStartLba, |part.disk|)
    ensures ok ==> Mapped(Slots(sec, part.disk), 1)
    ensures ok ==> FreeCount(part.Bits()) == FreeCount(old(part.Bits())) - 1 && BitsGrow(old(part.Bits()), part.Bits())
    ensures !ok ==> part.Bits() == old(part.Bits()) && part.disk == old(part.disk)
    ensures sec0[0] == 0 && sec[1..] == sec0[1..] && (if ok then sec[0] != 0 else sec == sec0)
    ensures Recorded(old(Snap(part)), Snap(part), {})
    ensures ok ==> NextFree(old(part.Bits()), 0) < |part.Bits()|
                   && part.Bits() == old(part.Bits())[NextFree(old(part.Bits()), 0) := true]
  {
    hide Recorded, NextFree, Allocated;
    sec := sec0;
    AllocatingFromHere(part);
    MappedSectors(sec0, part.disk, 0);
    ghost var got;
    var lba;
    lba, got := AllocAndSync(part, part.Bits(), part.disk, {}, true);
    AllocatedIsRecorded(old(Snap(part)), Snap(part));
    ok := lba != -1;
    TakenGrows(old(part.Bits()), part.Bits(), part.dataStartLba, |part.disk|, got);
    if ok {
      sec := sec[0 := lba];
      ghost var all := Zeros(MAX_BLOCKS)[0 := lba];
      assert Entries(all, 0, 1) == {lba} by {
        assert all[0] == lba;
      }
      assert Table(sec, part.disk) == Zeros(128);
      MappedAfter(Slots(sec0, old(part.disk)), old(part.Bits()), Slots(sec, part.disk), part.Bits(),
                  part.dataStartLba, |part.disk|, 0, 1, all, {});
    }
  }

  /** A write of `count` bytes is refused at line 263. */
  predicate TooLong(size: nat, count: nat) {
    (size + count) / 512 + 1 > MAX_BLOCKS
  }

  /** What a write that fails, when `free` blocks are free, does to the block list: the list names a
      block that the size does not cover. */
  predicate Sticks(sec: seq<u32>, size: nat, count: nat, free: nat)
    requires |sec| == 13
  {
    !TooLong(size, count) && size / 512 + 1 <= DIRECT && free > if sec[0] == 0 then 1 else 0
  }

  /** The free blocks that are left after such a write. */
  function FreeLeft(sec: seq<u32>, size: nat, count: nat, free: nat): nat
    requires |sec| == 13
  {
    if !TooLong(size, count) then 0
    else if size + count == 512 * MAX_BLOCKS && sec[0] == 0 && free > 0 then free - 1 else free
  }

  lemma StaleIsBad(sec: seq<u32>, size: nat, count: nat, disk: seq<Sector>)
    requires |sec| == 13 && StaleEntry(sec, size, count)
    ensures !FileShape(sec, size, disk)
  {
    var has := size / 512 + 1;
    assert Slots(sec, disk)[TABLE_SLOT] == sec[TABLE];
    if has < DIRECT {
      assert Slots(sec, disk)[has] == sec[has];
    }
  }

  /** A failure that leaves the block list as it was, or with its first block, leaves a good file. */
  lemma StillGood(part: Partition, sec: seq<u32>, size: nat, used: nat, disk: seq<Sector>, bits: seq<bool>)
    requires part.Geometry() && |sec| == 13 && size < 512 * MAX_BLOCKS && |disk| <= |part.disk|
    requires Mapped(Slots(sec, disk), used) && used == UsedBlocks(sec, size) && (sec[0] == 0 ==> size == 0)
    requires Owns(Slots(sec, disk), bits, part.dataStartLba, |disk|)
    requires OnlyBitmap(part, disk, part.disk) && BitsGrow(bits, part.Bits())
    ensures FileShape(sec, size, part.disk) && Owns(Slots(sec, part.disk), part.Bits(), part.dataStartLba, |part.disk|)
  {
    assert Slots(sec, disk)[TABLE_SLOT] == sec[TABLE];
    SlotsKept(sec, disk, part.disk);
    OwnsGrows(Slots(sec, disk), bits, part.Bits(), part.dataStartLba, |disk|);
  }

  /** A write of `count` bytes gets a file of `size` bytes its indirect table. */
  predicate GetsTable(size: nat, count: nat) {
    size / 512 + 1 <= DIRECT < (size + count) / 512 + 1 <= MAX_BLOCKS
  }

  /** The blocks that a write takes without writing their bits to the disk: the new table, unless the block
      taken after it has its bit in the same sector of the bit map. */
  ghost function LateBlocks(bits: seq<bool>, ds: nat, sec: seq<u32>, size: nat, count: nat): set<nat>
    requires |sec| == 13
  {
    var first := NextFree(bits, 0);
    if !GetsTable(size, count) then {}
    else LateTable(bits, if sec[0] != 0 || first == |bits| then 0 else first + 1, ds)
  }

  /** Lines 259-372: bring a file of `size` bytes, which has its last block, to `size + count`
      bytes, and load the entries of `all_blocks` from its last block on. */
  method MapMore(part: Partition, sec0: seq<u32>, size: nat, count: nat)
    returns (ok: bool, sec: seq<u32>, all: seq<u32>)
    requires part.Valid() && |sec0| == 13 && size < 512 * MAX_BLOCKS
    requires Mapped(Slots(sec0, part.disk), size / 512 + 1)
    requires sec0[TABLE] != 0 ==> part.dataStartLba <= sec0[TABLE] < |part.disk|
    modifies part`disk, part.blockBitmap, part.blockBitmap.bits
    ensures part.Valid()
    ensures |sec| == 13 && |all| == MAX_BLOCKS
    ensures ok <==> size + count < 512 * MAX_BLOCKS && BlocksNeeded(sec0, size, count) <= FreeCount(old(part.Bits()))
    ensures ok ==> OnlyBitmapAnd(part, old(part.disk), part.disk, sec[TABLE])
    ensures ok ==> Grew(Slots(sec0, old(part.disk)), old(part.Bits()), Slots(sec, part.disk), part.Bits(),
                        part.dataStartLba, |part.disk|)
    ensures ok ==> Mapped(Slots(sec, part.disk), (size + count) / 512 + 1)
    ensures ok ==> forall k :: size / 512 <= k <= (size + count) / 512 ==> all[k] == Slots(sec, part.disk)[k]
    ensures ok ==> FreeCount(part.Bits()) + BlocksNeeded(sec0, size, count) == FreeCount(old(part.Bits()))
    ensures !ok ==> OnlyBitmap(part, old(part.disk), part.disk) && BitsGrow(old(part.Bits()), part.Bits())
    ensures !ok ==> FreeCount(part.Bits()) == FreeLeft(sec0, size, count, FreeCount(old(part.Bits())))
    ensures !ok ==> if Sticks(sec0, size, count, FreeCount(old(part.Bits()))) then StaleEntry(sec, size, count)
                    else sec == sec0
    ensures !ok && FreeCount(part.Bits()) == FreeCount(old(part.Bits())) ==>
              part.Bits() == old(part.Bits()) && part.disk == old(part.disk)
    ensures forall k :: 0 <= k < 13 && sec0[k] != 0 ==> sec[k] == sec0[k]
    ensures Recorded(old(Snap(part)), Snap(part),
                     if GetsTable(size, count) then LateTable(old(part.Bits()), 0, part.dataStartLba) else {})
  {
    hide Owns, Recorded, LateTable;
    SameRecorded(part, Snap(part));
    MappedSectors(sec0, part.disk, size / 512 + 1);
    sec, all := sec0, Zeros(MAX_BLOCKS);
    var has := size / 512 + 1;
    var will := (size + count) / 512 + 1;
    if will > 140 {
      ok := false;
    } else if will == has {
      if has <= DIRECT {
        all := all[has - 1 := sec[has - 1]];
      } else {
        all := all[..DIRECT] + Words(part.disk[sec[TABLE]]);
      }
      ok := true;
    } else if will <= DIRECT {
      ok, sec, all := GrowDirect(part, sec, has, will);
    } else if has <= DIRECT {
      ok, sec, all := GrowNewTable(part, sec, has, will);
    } else {
      ok, all := GrowOldTable(part, sec, has, will);
    }
  }

  /** What the first half of a write of `count` bytes does to a file of `size` bytes. If it succeeds, the block
      list covers the new size and `all` holds the entries from the old last block on; if it fails, all free
      blocks are lost, or nothing has changed. */
  ghost predicate BlocksMapped(part: Partition, g: Image, sec0: seq<u32>, size: nat, count: nat,
                               ok: bool, sec: seq<u32>, all: seq<u32>, g': Image)
    requires |sec0| == 13
  {
    && |sec| == 13 && |all| == MAX_BLOCKS
    && (ok <==> size + count < 512 * MAX_BLOCKS && BlocksNeeded(sec0, size, count) <= FreeCount(g.bits))
    && (forall k :: 0 <= k < 13 && sec0[k] != 0 ==> sec[k] == sec0[k])
    && (ok ==>
          && OnlyBitmapAnd(part, g.disk, g'.disk, sec[TABLE])
          && Grew(Slots(sec0, g.disk), g.bits, Slots(sec, g'.disk), g'.bits, g.ds, |g.disk|)
          && Mapped(Slots(sec, g'.disk), (size + count) / 512 + 1)
          && (forall k :: size / 512 <= k <= (size + count) / 512 ==> all[k] == Slots(sec, g'.disk)[k])
          && FreeCount(g'.bits) + BlocksNeeded(sec0, size, count) == FreeCount(g.bits))
    && (!ok ==>
          && OnlyBitmap(part, g.disk, g'.disk) && BitsGrow(g.bits, g'.bits)
          && FreeCount(g'.bits) == FreeLeft(sec0, size, count, FreeCount(g.bits))
          && (if Sticks(sec0, size, count, FreeCount(g.bits)) then StaleEntry(sec, size, count)
              else FileShape(sec, size, g'.disk) && Owns(Slots(sec, g'.disk), g'.bits, g.ds, |g'.disk|))
          && (FreeCount(g'.bits) == FreeCount(g.bits) ==> sec == sec0 && g' == g))
    && Recorded(g, g', LateBlocks(g.bits, g.ds, sec0, size, count))
  }

  /** An empty file gets its first block, and then the others. */
  method MapEmpty(part: Partition, sec0: seq<u32>, size: nat, count: nat)
    returns (ok: bool, sec: seq<u32>, all: seq<u32>)
    requires part.Valid() && |sec0| == 13 && sec0[0] == 0
    requires FileShape(sec0, size, part.disk) && size + count <= 512 * MAX_BLOCKS
    requires Owns(Slots(sec0, part.disk), part.Bits(), part.dataStartLba, |part.disk|)
    modifies part`disk, part.blockBitmap, part.blockBitmap.bits
    ensures part.Valid()
    ensures BlocksMapped(part, old(Snap(part)), sec0, size, count, ok, sec, all, Snap(part))
  {
    hide Grew, Owns, Slots, Mapped, Recorded, LateTable, NextFree, GetsTable, LateBlocks, StaleEntry;
    ghost var g := Snap(part);
    MappedSectors(sec0, part.disk, 0);
    var sec1;
    ok, sec1 := MapFirst(part, sec0);
    if !ok {
      sec, all := sec1, Zeros(MAX_BLOCKS);
      NothingLate(g.bits, g.ds, sec0, size, count);
      return;
    }
    assert sec1[TABLE] == sec0[TABLE] by {
      assert sec1[1..][TABLE - 1] == sec0[1..][TABLE - 1];
    }
    ghost var g1 := Snap(part);
    GrewKeepsOwns(Slots(sec0, g.disk), g.bits, Slots(sec1, g1.disk), g1.bits, g.ds, |g.disk|);
    ok, sec, all := MapMore(part, sec1, size, count);
    FirstRecorded(g, g1, Snap(part), sec0, size, count);
    if ok {
      GrewTrans(Slots(sec0, g.disk), g.bits, Slots(sec1, g1.disk), g1.bits, Slots(sec, part.disk), part.Bits(), g.ds,
                |part.disk|);
    } else if sec == sec1 {
      StillGood(part, sec1, size, 1, g1.disk, g1.bits);
    }
  }

  /** The first half of `file_write` (lines 247-372): map the blocks that a write of `count` bytes
      needs. */
  method MapBlocks(part: Partition, sec0: seq<u32>, size: nat, count: nat)
    returns (ok: bool, sec: seq<u32>, all: seq<u32>)
    requires part.Valid() && |sec0| == 13
    requires FileShape(sec0, size, part.disk) && size + count <= 512 * MAX_BLOCKS
    requires Owns(Slots(sec0, part.disk), part.Bits(), part.dataStartLba, |part.disk|)
    modifies part`disk, part.blockBitmap, part.blockBitmap.bits
    ensures part.Valid()
    ensures BlocksMapped(part, old(Snap(part)), sec0, size, count, ok, sec, all, Snap(part))
  {
    hide Grew, Slots, Mapped, Recorded, LateTable, NextFree, GetsTable, LateBlocks, StaleEntry;
    assert sec0[TABLE] != 0 ==> part.dataStartLba <= sec0[TABLE] < |part.disk| by {
      assert Slots(sec0, part.disk)[TABLE_SLOT] == sec0[TABLE];
    }
    if sec0[0] == 0 {
      ok, sec, all := MapEmpty(part, sec0, size, count);
    } else {
      ghost var g := Snap(part);
      ok, sec, all := MapMore(part, sec0, size, count);
      LateFromStart(g.bits, g.ds, sec0, size, count);
      if !ok && sec == sec0 {
        StillGood(part, sec0, size, size / 512 + 1, g.disk, g.bits);
      }
    }
  }

  lemma NothingLate(bits: seq<bool>, ds: nat, sec: seq<u32>, size: nat, count: nat)
    requires |sec| == 13 && FreeCount(bits) == 0
    ensures LateBlocks(bits, ds, sec, size, count) == {}
  {
    NoneFree(bits);
  }

  lemma TooLongIsNotLate(bits: seq<bool>, ds: nat, sec: seq<u32>, size: nat, count: nat)
    requires |sec| == 13 && size + count > 512 * MAX_BLOCKS
    ensures LateBlocks(bits, ds, sec, size, count) == {}
  {
    hide LateTable;
  }

  lemma LateFromStart(bits: seq<bool>, ds: nat, sec: seq<u32>, size: nat, count: nat)
    requires |sec| == 13 && sec[0] != 0
    ensures LateBlocks(bits, ds, sec, size, count) == if GetsTable(size, count) then LateTable(bits, 0, ds) else {}
  {
  }

  /** A file of twelve blocks gets a thirteenth one. If the two lowest free bits are the last of one sector of the
      bit map and the first of the next, the bit of the table stays behind; if they are in one sector, it does
      not. */
  lemma TableBitStaysBehind(ds: nat, sec: seq<u32>)
    requires |sec| == 13 && sec[0] != 0
    ensures LateBlocks(seq(8192, i => i != 4095 && i != 4096), ds, sec, 6143, 1) == {ds + 4095}
    ensures LateBlocks(seq(8192, i => i != 4094 && i != 4095), ds, sec, 6143, 1) == {}
  {
    var apart, near := seq(8192, i => i != 4095 && i != 4096), seq(8192, i => i != 4094 && i != 4095);
    NextFreeIs(apart, 0, 4095);
    NextFreeIs(apart, 4096, 4096);
    NextFreeIs(near, 0, 4094);
    NextFreeIs(near, 4095, 4095);
  }

  /** The first block of the file was taken, and then the others. */
  lemma FirstRecorded(g: Image, g1: Image, g2: Image, sec: seq<u32>, size: nat, count: nat)
    requires |sec| == 13 && sec[0] == 0 && NextFree(g.bits, 0) < |g.bits| && g1.ds == g.ds
    requires g1.bits == g.bits[NextFree(g.bits, 0) := true] && Recorded(g, g1, {})
    requires Recorded(g1, g2, if GetsTable(size, count) then LateTable(g1.bits, 0, g1.ds) else {})
    ensures Recorded(g, g2, LateBlocks(g.bits, g.ds, sec, size, count))
  {
    hide Recorded, LateTable, GetsTable, NextFree;
    LateAfterFirst(g.bits, NextFree(g.bits, 0), g.ds);
    RecordedTwice(g, g1, g2, LateBlocks(g.bits, g.ds, sec, size, count));
  }

  /** `struct file`: the position and the inode of an open file. */
  class File {
    var fdPos: u32
    const fdInode: u32

    constructor (no: u32)
      ensures fdInode == no && fdPos == 0
    {
      fdInode, fdPos := no, 0;
    }
  }

  /** No user buffer reaches into the kernel half of the address space, no kernel buffer is longer. */
  const MAX_BUF: nat := 0xc000_0000

  /** Addition and subtraction of unsigned 32-bit integers, which wrap around. */
  function Add32(a: u32, b: u32): u32 {
    if a as nat + b as nat < 0x1_0000_0000 then a as nat + b as nat else a as nat + b as nat - 0x1_0000_0000
  }

  function Sub32(a: u32, b: u32): u32 {
    if a >= b then a - b else a as nat + 0x1_0000_0000 - b as nat
  }

  /** Store `chunk` at offset `off` of a block, over what the block holds if this is the first block of
      the write and over zeroes otherwise. */
  method StoreChunk(part: Partition, lba: nat, off: nat, chunk: seq<byte>, firstWriteBlock: bool, ghost base: Sector)
    requires part.Valid() && lba < |part.disk| && off + |chunk| <= 512
    requires base == if firstWriteBlock then part.disk[lba] else ZERO_SECTOR
    modifies part`disk
    ensures part.Valid() && part.disk == old(part.disk)[lba := Splice(base, off, chunk)]
  {
    var ioBuf: seq<byte> := ZERO_SECTOR;
    if firstWriteBlock {
      ioBuf := part.IdeRead(lba, 1);
    }
    ioBuf := Splice(ioBuf, off, chunk);
    part.IdeWrite(lba, ioBuf);
  }

  /** One turn of the data loop of `file_write` (lines 379-391): the part of a block that the write
      reaches is stored. `w` bytes of `buf` have been written before. */
  method WriteChunk(part: Partition, size: u32, all: seq<u32>, buf: seq<byte>, w: nat,
                    ghost disk0: seq<Sector>, ghost slots: seq<u32>, ghost size0: u32)
    returns (chunkSize: nat)
    requires part.Valid() && |all| == MAX_BLOCKS && |slots| == SLOTS
    requires w < |buf| && size == size0 + w && size0 + |buf| < 512 * MAX_BLOCKS
    requires w > 0 ==> Aligned(size)
    requires Owns(slots, part.Bits(), part.dataStartLba, |part.disk|)
    requires all[size / 512] == slots[size / 512] != 0
    requires Written(disk0, part.disk, slots, size0, buf, w)
    modifies part`disk
    ensures part.Valid()
    ensures chunkSize == ChunkAt(size, |buf| - w)
    ensures Written(disk0, part.disk, slots, size0, buf, w + chunkSize)
  {
    hide Aligned, BlocksOf, Written;
    var secIdx := size / BLOCK_SIZE;
    var secLba := all[secIdx];
    var secOffBytes := size % BLOCK_SIZE;
    chunkSize := ChunkAt(size, |buf| - w);
    ghost var base := if w == 0 then part.disk[secLba] else ZERO_SECTOR;
    StoreChunk(part, secLba, secOffBytes, buf[w..w + chunkSize], w == 0, base);
    ChunkWritten(disk0, old(part.disk), part.disk, slots, size0, buf, w, base, chunkSize);
  }

  /** The data loop of `file_write` (lines 374-404). */
  method WriteChunks(part: Partition, file: File, sec: seq<u32>, size0: u32, all: seq<u32>, buf: seq<byte>)
    returns (size: u32)
    requires part.Valid() && |sec| == 13 && |all| == MAX_BLOCKS
    requires size0 + |buf| < 512 * MAX_BLOCKS
    requires Owns(Slots(sec, part.disk), part.Bits(), part.dataStartLba, |part.disk|)
    requires Mapped(Slots(sec, part.disk), (size0 + |buf|) / 512 + 1)
    requires forall k :: size0 / 512 <= k <= (size0 + |buf|) / 512 ==> all[k] == Slots(sec, part.disk)[k]
    modifies part`disk, file`fdPos
    ensures part.Valid()
    ensures size == size0 + |buf|
    ensures file.fdPos == Add32(Sub32(size0, 1), |buf|)
    ensures Written(old(part.disk), part.disk, Slots(sec, old(part.disk)), size0, buf, |buf|)
  {
    ghost var slots, disk0 := Slots(sec, part.disk), part.disk;
    var bytesWritten := 0;
    size := size0;
    ghost var pos0 := Sub32(size, 1);
    file.fdPos := Sub32(size, 1);
    while bytesWritten < |buf|
      invariant 0 <= bytesWritten <= |buf| && size == size0 + bytesWritten
      invariant 0 < bytesWritten < |buf| ==> Aligned(size)
      invariant part.Valid()
      invariant file.fdPos == Add32(pos0, bytesWritten)
      invariant Written(disk0, part.disk, slots, size0, buf, bytesWritten)
    {
      var chunkSize := WriteChunk(part, size, all, buf, bytesWritten, disk0, slots, size0);
      size := size + chunkSize;
      file.fdPos := Add32(file.fdPos, chunkSize);
      bytesWritten := bytesWritten + chunkSize;
    }
  }

  /** What a failed write of `count` bytes leaves behind. All free blocks are lost, unless it failed for the
      size. The file is still good unless one of the new blocks got into its block list; if one did, the same
      write will fail an assertion. */
  ghost predicate WriteFailed(i0: Inode, disk0: seq<Sector>, bits0: seq<bool>,
                              i: Inode, disk: seq<Sector>, bits: seq<bool>, ds: nat, count: nat)
  {
    && |i0.sectors| == |i.sectors| == 13 && i == i0.(sectors := i.sectors)
    && (forall k :: 0 <= k < 13 && i0.sectors[k] != 0 ==> i.sectors[k] == i0.sectors[k])
    && |disk| == |disk0| && BitsGrow(bits0, bits)
    && FreeCount(bits) == FreeLeft(i0.sectors, i0.size, count, FreeCount(bits0))
    && (FreeCount(bits) == FreeCount(bits0) ==> i == i0 && disk == disk0 && bits == bits0)
    && (GoodInode(i, disk, bits, ds) <==> !Sticks(i0.sectors, i0.size, count, FreeCount(bits0)))
    && (Sticks(i0.sectors, i0.size, count, FreeCount(bits0)) ==> StaleEntry(i.sectors, i.size, count))
  }

  lemma NothingDone(i: Inode, disk: seq<Sector>, bits: seq<bool>, ds: nat, count: nat)
    requires GoodInode(i, disk, bits, ds) && i.size + count > 512 * MAX_BLOCKS
    ensures WriteFailed(i, disk, bits, i, disk, bits, ds, count)
  {
  }

  /** Lines 247-404: map the blocks, then store the data. */
  method WriteData(part: Partition, file: File, inode0: Inode, buf: seq<byte>)
    returns (ok: bool, inode: Inode, ghost disk1: seq<Sector>)
    requires part.Valid() && GoodInode(inode0, part.disk, part.Bits(), part.dataStartLba)
    requires inode0.size + |buf| <= 512 * MAX_BLOCKS
    modifies part`disk, part.blockBitmap, part.blockBitmap.bits, file`fdPos
    ensures part.Valid()
    ensures ok <==> inode0.size + |buf| < 512 * MAX_BLOCKS
                    && BlocksNeeded(inode0.sectors, inode0.size, |buf|) <= FreeCount(old(part.Bits()))
    ensures |inode.sectors| == 13
    ensures ok ==>
      && inode == inode0.(size := inode0.size + |buf|, sectors := inode.sectors)
      && DataKept(old(part.disk), disk1, part.dataStartLba, {inode.sectors[TABLE]})
      && Grew(Slots(inode0.sectors, old(part.disk)), old(part.Bits()), Slots(inode.sectors, disk1), part.Bits(),
              part.dataStartLba, |part.disk|)
      && Mapped(Slots(inode.sectors, disk1), inode.size / 512 + 1)
      && Written(disk1, part.disk, Slots(inode.sectors, disk1), inode0.size, buf, |buf|)
    ensures ok ==> file.fdPos == Add32(Sub32(inode0.size, 1), |buf|)
    ensures ok ==> TableKept(old(part.disk), part.disk, part.inodeTableLba)
    ensures ok ==> FreeCount(part.Bits())
                   == FreeCount(old(part.Bits())) - BlocksNeeded(inode0.sectors, inode0.size, |buf|)
    ensures !ok ==> OnlyBitmap(part, old(part.disk), part.disk) && file.fdPos == old(file.fdPos)
    ensures !ok ==> WriteFailed(inode0, old(part.disk), old(part.Bits()), inode, part.disk, part.Bits(),
                                part.dataStartLba, |buf|)
    ensures Recorded(old(Snap(part)), Snap(part),
                     LateBlocks(old(part.Bits()), part.dataStartLba, inode0.sectors, inode0.size, |buf|))
  {
    hide Owns, Mapped, FreeCount, BlocksNeeded, Recorded, LateBlocks;
    var sec, all;
    ok, sec, all := MapBlocks(part, inode0.sectors, inode0.size, |buf|);
    inode, disk1 := inode0.(sectors := sec), part.disk;
    if !ok {
      if Sticks(inode0.sectors, inode0.size, |buf|, FreeCount(old(part.Bits()))) {
        StaleIsBad(sec, inode0.size, |buf|, part.disk);
      }
    } else {
      GrewKeepsOwns(Slots(inode0.sectors, old(part.disk)), old(part.Bits()), Slots(sec, disk1), part.Bits(),
                    part.dataStartLba, |part.disk|);
      var size := WriteChunks(part, file, sec, inode0.size, all, buf);
      inode := inode.(size := size);
      BlocksAreData(Slots(sec, disk1), part.Bits(), part.dataStartLba, |part.disk|);
      DataRecorded(part, old(Snap(part)), disk1,
                   LateBlocks(old(part.Bits()), part.dataStartLba, inode0.sectors, inode0.size, |buf|));
    }
  }

  /** Lines 247-406: the blocks, the data and the record of the inode. */
  method WriteAndSync(part: Partition, file: File, inode0: Inode, buf: seq<byte>) returns (ok: bool, inode: Inode)
    requires part.Valid() && GoodInode(inode0, part.disk, part.Bits(), part.dataStartLba)
    requires inode0.size + |buf| <= 512 * MAX_BLOCKS
    modifies part`disk, part.blockBitmap, part.blockBitmap.bits, file`fdPos
    ensures part.Valid() && |inode.sectors| == 13 && inode.no == inode0.no
    ensures ok <==> inode0.size + |buf| < 512 * MAX_BLOCKS
                    && BlocksNeeded(inode0.sectors, inode0.size, |buf|) <= FreeCount(old(part.Bits()))
    ensures ok ==> Appended(inode0, old(part.disk), old(part.Bits()), inode, part.disk, part.Bits(), buf,
                            part.dataStartLba)
    ensures ok ==> file.fdPos == Add32(Sub32(inode0.size, 1), |buf|)
    ensures ok ==> TableStored(old(part.disk), part.disk, part.inodeTableLba, inode.no % 256, Encode(Pure(inode)))
    ensures ok ==> FreeCount(part.Bits()) + BlocksNeeded(inode0.sectors, inode0.size, |buf|)
                   == FreeCount(old(part.Bits()))
    ensures !ok ==> OnlyBitmap(part, old(part.disk), part.disk) && file.fdPos == old(file.fdPos)
    ensures !ok ==> WriteFailed(inode0, old(part.disk), old(part.Bits()), inode, part.disk, part.Bits(),
                                part.dataStartLba, |buf|)
    ensures Recorded(old(Snap(part)), Snap(part),
                     LateBlocks(old(part.Bits()), part.dataStartLba, inode0.sectors, inode0.size, |buf|))
  {
    hide FreeCount, BlocksNeeded, Written, Mapped, Grew, DataKept, Appended, Record, Recorded, LateBlocks, Owns,
         FileShape;
    ghost var bits0 := part.Bits();
    ghost var disk1;
    ok, inode, disk1 := WriteData(part, file, inode0, buf);
    if ok {
      ghost var g1 := Snap(part);
      InodeSync(part, inode);
      OutsideRecorded(part, old(Snap(part)), g1,
                      LateBlocks(bits0, part.dataStartLba, inode0.sectors, inode0.size, |buf|));
      StoredAfterKept(old(part.disk), g1.disk, part.disk, part.inodeTableLba, inode.no % 256, Encode(Pure(inode)));
      ContentAppended(inode0, old(part.disk), bits0, inode, disk1, part.Bits(), g1.disk, part.disk, part.dataStartLba,
                      buf);
    }
  }

  /** `file_write`. Whether it succeeds depends on the file size limit, which is one byte short of the
      71680 bytes that its message names, and on the number of free blocks. When it succeeds the file
      is what it was followed by `buf`, and its record on the disk is up to date. */
  method FileWrite(part: Partition, file: File, buf: seq<byte>) returns (r: int)
    requires part.Valid() && |buf| <= MAX_BUF
    requires file.fdInode in part.open && file.fdInode < MAX_FILES_PER_PART
    requires GoodInode(part.open[file.fdInode], part.disk, part.Bits(), part.dataStartLba)
    modifies part`disk, part`open, part.blockBitmap, part.blockBitmap.bits, file`fdPos
    ensures part.Valid() && file.fdInode in part.open
    ensures part.open == old(part.open)[file.fdInode := part.open[file.fdInode]]
    ensures r == -1 || r == |buf|
    ensures r != -1 <==> old(part.open)[file.fdInode].size + |buf| < 512 * MAX_BLOCKS
                         && BlocksNeeded(old(part.open)[file.fdInode].sectors, old(part.open)[file.fdInode].size, |buf|)
                            <= FreeCount(old(part.Bits()))
    ensures r != -1 ==> Appended(old(part.open)[file.fdInode], old(part.disk), old(part.Bits()),
                                 part.open[file.fdInode], part.disk, part.Bits(), buf, part.dataStartLba)
    ensures r != -1 ==> file.fdPos == Add32(Sub32(old(part.open)[file.fdInode].size, 1), |buf|)
    ensures r != -1 ==> TableStored(old(part.disk), part.disk, part.inodeTableLba, file.fdInode % 256,
                                    Encode(Pure(part.open[file.fdInode])))
    ensures r == -1 ==> OnlyBitmap(part, old(part.disk), part.disk) && file.fdPos == old(file.fdPos)
    ensures r != -1 ==> FreeCount(part.Bits()) + BlocksNeeded(old(part.open)[file.fdInode].sectors,
                                                              old(part.open)[file.fdInode].size, |buf|)
                        == FreeCount(old(part.Bits()))
    ensures r == -1 ==> WriteFailed(old(part.open)[file.fdInode], old(part.disk), old(part.Bits()),
                                    part.open[file.fdInode], part.disk, part.Bits(), part.dataStartLba, |buf|)
    ensures Recorded(old(Snap(part)), Snap(part),
                     LateBlocks(old(part.Bits()), part.dataStartLba, old(part.open)[file.fdInode].sectors,
                                old(part.open)[file.fdInode].size, |buf|))
  {
    hide Recorded, LateBlocks, TableStored, WriteFailed, Appended, GoodInode, FreeCount, BlocksNeeded, Encode,
         Represents;
    var no := file.fdInode;
    var inode0 := part.open[no];
    if inode0.size + |buf| > BLOCK_SIZE * 140 {
      NothingDone(inode0, part.disk, part.Bits(), part.dataStartLba, |buf|);
      SameRecorded(part, Snap(part));
      TooLongIsNotLate(part.Bits(), part.dataStartLba, inode0.sectors, inode0.size, |buf|);
      return -1;
    }
    var ok, inode := WriteAndSync(part, file, inode0, buf);
    ghost var g1 := Snap(part);
    part.open := part.open[no := inode];
    OutsideRecorded(part, old(Snap(part)), g1,
                    LateBlocks(old(part.Bits()), part.dataStartLba, inode0.sectors, inode0.size, |buf|));
    r := if ok then |buf| else -1;
  }

  /** How far a write of `count` bytes comes before it fills the first new entry. */
  datatype MapStart = Refused | NoBlock | Panics | GoesOn

  /** Lines 259-350 for a file that has its first block, up to the first assertion on an entry that is to
      be filled. A file that `Sticks` made bad fails it as soon as a block is free. */
  method StartMapping(part: Partition, sec: seq<u32>, size: nat, count: nat) returns (r: MapStart)
    requires part.Valid() && |sec| == 13
    modifies part.blockBitmap, part.blockBitmap.bits
    ensures part.Valid()
    ensures StaleEntry(sec, size, count) ==> r == if FreeCount(old(part.Bits())) > 0 then Panics else NoBlock
    ensures size / 512 + 1 <= DIRECT && r == Panics ==> StaleEntry(sec, size, count) && FreeCount(old(part.Bits())) > 0
  {
    var has := size / 512 + 1;
    var will := (size + count) / 512 + 1;
    if will > 140 {
      return Refused;
    }
    if will == has {
      return GoesOn;
    }
    if has > DIRECT {
      return if sec[TABLE] == 0 then Panics else GoesOn;
    }
    var lba := BlockBitmapAlloc(part);
    if lba == -1 {
      return NoBlock;
    }
    r := if (if will <= DIRECT then sec[has] != 0 else sec[TABLE] != 0) then Panics else GoesOn;
  }

  /** How `file_read` ends: in its assertion on the block numbers, with -1, with data, or with a length that
      has wrapped around and that carries the loop beyond `all_blocks`. */
  datatype ReadOutcome = AssertFailed | NoData | Data(bytes: seq<byte>) | Runaway

  /** What a read of `count` bytes from position `pos` of a file with this content must give. */
  function ReadSpec(content: seq<byte>, pos: nat, count: nat): ReadOutcome {
    var end := if pos + count > |content| then |content| else pos + count;
    if pos > |content| then if pos >= 139 * BLOCK_SIZE then AssertFailed else Runaway
    else if pos == |content| && count > 0 then NoData
    else if end >= 139 * BLOCK_SIZE then AssertFailed
    else Data(content[pos..end])
  }

  /** Lines 444-489: the entries of `all_blocks` that a read needs. The kernel assertions that the
      indirect table exists are the `assert` statements. */
  method LoadBlocks(part: Partition, inode: Inode, start: nat, end: nat) returns (all: seq<u32>)
    requires part.Valid() && GoodInode(inode, part.disk, part.Bits(), part.dataStartLba)
    requires start <= end <= inode.size / 512
    ensures |all| == MAX_BLOCKS
    ensures forall k :: start <= k <= end ==> all[k] == Slots(inode.sectors, part.disk)[k]
  {
    var sec := inode.sectors;
    assert Slots(sec, part.disk)[TABLE_SLOT] == sec[TABLE];
    all := Zeros(MAX_BLOCKS);
    if end == start {
      if end < DIRECT {
        all := all[end := sec[end]];
      } else {
        all := all[..DIRECT] + Words(part.disk[sec[TABLE]]);
      }
    } else if end < DIRECT {
      var blockIdx := start;
      while blockIdx <= end
        invariant start <= blockIdx <= end + 1 && |all| == MAX_BLOCKS
        invariant forall k :: start <= k < blockIdx ==> all[k] == sec[k]
      {
        all := all[blockIdx := sec[blockIdx]];
        blockIdx := blockIdx + 1;
      }
    } else if start < DIRECT {
      var blockIdx := start;
      while blockIdx < DIRECT
        invariant start <= blockIdx <= DIRECT && |all| == MAX_BLOCKS
        invariant forall k :: start <= k < blockIdx ==> all[k] == sec[k]
      {
        all := all[blockIdx := sec[blockIdx]];
        blockIdx := blockIdx + 1;
      }
      assert sec[TABLE] != 0;
      all := all[..DIRECT] + Words(part.disk[sec[TABLE]]);
    } else {
      assert sec[TABLE] != 0;
      all := all[..DIRECT] + Words(part.disk[sec[TABLE]]);
    }
  }

  /** One turn of the loop of `file_read` (lines 495-509). */
  method ReadChunk(part: Partition, inode: Inode, pos: nat, all: seq<u32>, left: nat, ghost content: seq<byte>)
    returns (chunk: seq<byte>)
    requires part.Valid() && GoodInode(inode, part.disk, part.Bits(), part.dataStartLba)
    requires content == Content(inode.sectors, inode.size, part.disk)
    requires |all| == MAX_BLOCKS && 0 < left && pos + left <= inode.size
    requires all[pos / 512] == Slots(inode.sectors, part.disk)[pos / 512]
    ensures |chunk| == ChunkAt(pos, left)
    ensures PieceOf(chunk, content, pos)
  {
    var secIdx := pos / BLOCK_SIZE;
    var secLba := all[secIdx];
    var off := pos % BLOCK_SIZE;
    var size := ChunkAt(pos, left);
    SlotInUse(Slots(inode.sectors, part.disk), part.Bits(), part.dataStartLba, |part.disk|, inode.size / 512 + 1,
              secIdx);
    ChunkOfContent(inode.sectors, inode.size, part.disk, secIdx, off, size, pos);
    var ioBuf := part.IdeRead(secLba, 1);
    chunk := ioBuf[off..off + size];
  }

  /** The entries of `all` that cover `count` bytes from `pos` on are loaded. */
  ghost predicate EntriesLoaded(all: seq<u32>, slots: seq<u32>, pos: nat, count: nat) {
    && |all| == MAX_BLOCKS && |slots| == SLOTS
    && forall k :: pos / 512 <= k <= (pos + count) / 512 && k < MAX_BLOCKS ==> all[k] == slots[k]
  }

  lemma LoadedAt(all: seq<u32>, slots: seq<u32>, pos: nat, count: nat, n: nat)
    requires EntriesLoaded(all, slots, pos, count) && n < count && pos + count <= 512 * MAX_BLOCKS
    ensures all[(pos + n) / 512] == slots[(pos + n) / 512]
  {
    assert pos / 512 <= (pos + n) / 512 <= (pos + count) / 512;
  }

  /** The loop of `file_read` (lines 491-510). */
  method ReadChunks(part: Partition, inode: Inode, pos: nat, all: seq<u32>, size: nat) returns (bufDst: seq<byte>)
    requires part.Valid() && GoodInode(inode, part.disk, part.Bits(), part.dataStartLba)
    requires pos + size <= inode.size && EntriesLoaded(all, Slots(inode.sectors, part.disk), pos, size)
    ensures |bufDst| == size && PieceOf(bufDst, Content(inode.sectors, inode.size, part.disk), pos)
  {
    ghost var content := Content(inode.sectors, inode.size, part.disk);
    var fdPos, end := pos, pos + size;
    bufDst := [];
    while fdPos < end
      invariant pos <= fdPos <= end
      invariant fdPos == pos + |bufDst| && PieceOf(bufDst, content, pos)
    {
      LoadedAt(all, Slots(inode.sectors, part.disk), pos, size, fdPos - pos);
      var chunk := ReadChunk(part, inode, fdPos, all, end - fdPos, content);
      JoinPieces(bufDst, chunk, content, pos, fdPos);
      bufDst := bufDst + chunk;
      fdPos := fdPos + |chunk|;
    }
  }

  lemma SizeBounded(i: Inode, disk: seq<Sector>, bits: seq<bool>, ds: nat)
    requires GoodInode(i, disk, bits, ds)
    ensures |i.sectors| == 13 && i.size < 512 * MAX_BLOCKS
  {
  }

  /** Lines 415-442 of `file_read`, in its unsigned 32-bit arithmetic: how it ends without data, or the length
      to read. */
  method PlanRead(fileSize: u32, pos: u32, count: u32, ghost content: seq<byte>) returns (early: ReadOutcome, size: u32)
    requires fileSize == |content| < 512 * MAX_BLOCKS && count <= MAX_BUF
    ensures !early.Data? ==> early == ReadSpec(content, pos, count)
    ensures early.Data? ==> pos + size <= fileSize && (pos + size) / 512 < 139
                            && ReadSpec(content, pos, count) == Data(content[pos..pos + size])
  {
    early, size := Data([]), count;
    if Add32(pos, count) > fileSize {
      size := Sub32(fileSize, pos);
      if size == 0 {
        return NoData, 0;
      }
    }
    if !(pos / BLOCK_SIZE < 139 && Add32(pos, size) / BLOCK_SIZE < 139) {
      return AssertFailed, size;
    }
    if pos > fileSize {
      early := Runaway;
    }
  }

  /** `file_read`. */
  method FileRead(part: Partition, file: File, count: nat) returns (r: ReadOutcome)
    requires part.Valid() && count <= MAX_BUF && file.fdInode in part.open
    requires GoodInode(part.open[file.fdInode], part.disk, part.Bits(), part.dataStartLba)
    modifies file`fdPos
    ensures r == ReadSpec(Content(part.open[file.fdInode].sectors, part.open[file.fdInode].size, part.disk),
                          old(file.fdPos), count)
    ensures file.fdPos == old(file.fdPos) + if r.Data? then |r.bytes| else 0
  {
    var inode := part.open[file.fdInode];
    SizeBounded(inode, part.disk, part.Bits(), part.dataStartLba);
    hide GoodInode, Slots, Content, ReadSpec;
    var early, size := PlanRead(inode.size, file.fdPos, count, Content(inode.sectors, inode.size, part.disk));
    if !early.Data? {
      return early;
    }
    var all := LoadBlocks(part, inode, file.fdPos / BLOCK_SIZE, (file.fdPos + size) / BLOCK_SIZE);
    var bufDst := ReadChunks(part, inode, file.fdPos, all, size);
    file.fdPos := file.fdPos + |bufDst|;
    r := Data(bufDst);
  }

  /** Reading in two steps gives the same bytes as reading at once. */
  lemma ReadsJoin(content: seq<byte>, pos: nat, a: nat, b: nat)
    requires ReadSpec(content, pos, a).Data? && |ReadSpec(content, pos, a).bytes| == a
    requires ReadSpec(content, pos + a, b).Data?
    ensures ReadSpec(content, pos, a + b) == Data(ReadSpec(content, pos, a).bytes + ReadSpec(content, pos + a, b).bytes)
  {
    var end := if pos + a + b > |content| then |content| else pos + a + b;
    assert content[pos..pos + a] + content[pos + a..end] == content[pos..end];
  }

  /** Two calls of `file_read`, the first of which is not cut short by the end of the file. */
  method ReadInTwo(part: Partition, file: File, a: nat, b: nat) returns (first: ReadOutcome, second: ReadOutcome)
    requires part.Valid() && a <= MAX_BUF && b <= MAX_BUF && file.fdInode in part.open
    requires GoodInode(part.open[file.fdInode], part.disk, part.Bits(), part.dataStartLba)
    modifies file`fdPos
    ensures first.Data? && |first.bytes| == a && second.Data? ==>
              ReadSpec(Content(part.open[file.fdInode].sectors, part.open[file.fdInode].size, part.disk),
                       old(file.fdPos), a + b) == Data(first.bytes + second.bytes)
  {
    SizeBounded(part.open[file.fdInode], part.disk, part.Bits(), part.dataStartLba);
    hide GoodInode, Content, ReadSpec;
    ghost var content := Content(part.open[file.fdInode].sectors, part.open[file.fdInode].size, part.disk);
    ghost var pos := file.fdPos;
    first := FileRead(part, file, a);
    second := FileRead(part, file, b);
    if first.Data? && |first.bytes| == a && second.Data? {
      ReadsJoin(content, pos, a, b);
    }
  }
}
