/** `inode_release` of `src/fs/inode.c`: all blocks of an inode, its table and its number are given back. */
module Release {
  import opened Bytes
  import opened Partitions
  import opened Images
  import opened BlockMap
  import opened InodeTable
  import opened Allocation

  /** Exactly the bits of the blocks in `gone` have been cleared. */
  ghost predicate Dropped(bits: seq<bool>, bits': seq<bool>, ds: nat, gone: set<u32>) {
    && |bits'| == |bits|
    && forall i :: 0 <= i < |bits| ==> (bits'[i] <==> bits[i] && ds + i !in gone)
  }

  lemma DroppedOneMore(bits: seq<bool>, bits': seq<bool>, ds: nat, gone: set<u32>, b: u32)
    requires Dropped(bits, bits', ds, gone) && ds <= b && b - ds < |bits|
    ensures Dropped(bits, bits'[b - ds := false], ds, gone + {b})
  {
    assert ds + (b - ds) == b;
  }

  /** The blocks in the first `n` entries of a block list. */
  ghost function Named(all: seq<u32>, n: nat): set<u32>
    requires n <= |all|
  {
    set k | 0 <= k < n && all[k] != 0 :: all[k]
  }

  lemma NamedOneMore(all: seq<u32>, n: nat)
    requires n < |all|
    ensures Named(all, n + 1) == Named(all, n) + if all[n] != 0 then {all[n]} else {}
  {
  }

  /** What the releases have done so far to the partition that was `g0`. */
  ghost predicate Releasing(part: Partition, g0: Image, gone: set<u32>)
    reads part, part.blockBitmap, part.blockBitmap.bits, part.inodeBitmap, part.inodeBitmap.bits
  {
    && part.Valid()
    && OnlyBitmap(part, g0.disk, part.disk)
    && Dropped(g0.bits, part.Bits(), part.dataStartLba, gone)
    && Recorded(g0, Snap(part), {})
  }

  lemma ReleasingFromHere(part: Partition)
    requires part.Valid()
    ensures Releasing(part, Snap(part), {})
  {
    SameRecorded(part, Snap(part));
  }

  /** Clear the bit of block `b` and write it to the disk. */
  method FreeBlock(part: Partition, b: u32, ghost g0: Image, ghost gone: set<u32>)
    requires Releasing(part, g0, gone)
    requires part.dataStartLba <= b < |part.disk| && b - part.dataStartLba < |part.Bits()|
    modifies part`disk, part.blockBitmap, part.blockBitmap.bits
    ensures Releasing(part, g0, gone + {b})
  {
    hide Recorded, Allocated;
    ghost var g := Snap(part);
    var blockBitmapIdx := b - part.dataStartLba;
    DroppedOneMore(g0.bits, part.Bits(), part.dataStartLba, gone, b);
    part.blockBitmap.Set(blockBitmapIdx, false);
    BlockBitmapSync(part, blockBitmapIdx);
    BlockWritten(part, g, blockBitmapIdx);
    RecordedTwice(g0, g, Snap(part), {});
  }

  /** Lines 188-215: all blocks of the inode, table first. */
  method FreeBlocks(part: Partition, sec: seq<u32>)
    requires part.Valid() && |sec| == 13
    requires Owns(Slots(sec, part.disk), part.Bits(), part.dataStartLba, |part.disk|)
    modifies part`disk, part.blockBitmap, part.blockBitmap.bits
    ensures Releasing(part, old(Snap(part)), BlocksOf(Slots(sec, old(part.disk))))
  {
    hide Recorded, Dropped, OnlyBitmap, BlocksOf;
    ghost var g0, slots := Snap(part), Slots(sec, part.disk);
    ReleasingFromHere(part);
    var allBlocks := sec[..DIRECT] + Zeros(128);
    var blockCnt := 12;
    ghost var gone: set<u32> := {};
    assert slots[TABLE_SLOT] == sec[TABLE];
    if sec[TABLE] != 0 {
      allBlocks := sec[..DIRECT] + Words(part.disk[sec[TABLE]]);
      blockCnt := 140;
      FreeBlock(part, sec[TABLE], g0, {});
      gone := {} + {sec[TABLE]};
    }
    assert allBlocks == slots[..MAX_BLOCKS];
    var blockIdx := 0;
    assert gone + Named(allBlocks, 0) == gone;
    while blockIdx < blockCnt
      invariant 0 <= blockIdx <= blockCnt
      invariant Releasing(part, g0, gone + Named(allBlocks, blockIdx))
    {
      NamedOneMore(allBlocks, blockIdx);
      if allBlocks[blockIdx] != 0 {
        assert slots[blockIdx] == allBlocks[blockIdx];
        FreeBlock(part, allBlocks[blockIdx], g0, gone + Named(allBlocks, blockIdx));
        assert gone + Named(allBlocks, blockIdx + 1) == gone + Named(allBlocks, blockIdx) + {allBlocks[blockIdx]};
      } else {
        assert gone + Named(allBlocks, blockIdx + 1) == gone + Named(allBlocks, blockIdx);
      }
      blockIdx := blockIdx + 1;
    }
    AllNamed(slots, allBlocks, blockCnt);
    assert gone + Named(allBlocks, blockCnt) == BlocksOf(slots);
  }

  lemma AllNamed(slots: seq<u32>, all: seq<u32>, n: nat)
    requires |slots| == SLOTS && all == slots[..MAX_BLOCKS]
    requires n == if slots[TABLE_SLOT] != 0 then MAX_BLOCKS else DIRECT
    requires slots[TABLE_SLOT] == 0 ==> forall k :: DIRECT <= k < MAX_BLOCKS ==> slots[k] == 0
    ensures BlocksOf(slots) == Named(all, n) + if slots[TABLE_SLOT] != 0 then {slots[TABLE_SLOT]} else {}
  {
    forall b | b in BlocksOf(slots)
      ensures b in Named(all, n) || b == slots[TABLE_SLOT]
    {
      var k :| 0 <= k < SLOTS && slots[k] != 0 && slots[k] == b;
      assert k < MAX_BLOCKS ==> all[k] == b;
    }
    forall b | b in Named(all, n)
      ensures b in BlocksOf(slots)
    {
      var k :| 0 <= k < n && all[k] != 0 && all[k] == b;
      assert slots[k] == b;
    }
  }

  /** The inode `no` as the kernel sees it: the open one, or what its record on the disk says. */
  function Cur(disk: seq<Sector>, open: map<u32, Inode>, lba: nat, no: u32): Inode
    requires no < MAX_FILES_PER_PART && HasTable(disk, lba)
  {
    if no in open then open[no] else Loaded(disk, lba, no)
  }

  /** Lines 188-222: the blocks, the bit of the inode and its record. */
  method EraseInode(part: Partition, no: u32, sec: seq<u32>)
    requires part.Valid() && no < MAX_FILES_PER_PART && |sec| == 13
    requires Owns(Slots(sec, part.disk), part.Bits(), part.dataStartLba, |part.disk|)
    modifies part`disk, part.blockBitmap, part.blockBitmap.bits, part.inodeBitmap, part.inodeBitmap.bits
    ensures part.Valid()
    ensures Dropped(old(part.Bits()), part.Bits(), part.dataStartLba, BlocksOf(Slots(sec, old(part.disk))))
    ensures part.InodeBits() == old(part.InodeBits())[no := false]
    ensures DataKept(old(part.disk), part.disk, part.dataStartLba, {})
    ensures TableStored(old(part.disk), part.disk, part.inodeTableLba, no, BLANK_RECORD)
    ensures Recorded(old(Snap(part)), Snap(part), {})
  {
    hide Recorded;
    ghost var g := Snap(part);
    FreeBlocks(part, sec);
    ghost var g1 := Snap(part);
    part.inodeBitmap.Set(no, false);
    InodeBitmapSync(part, no);
    NumberWritten(part, g1, no);
    ghost var disk1 := part.disk;
    ghost var g2 := Snap(part);
    RecordedTwice(g, g1, g2, {});
    InodeDelete(part, no);
    OutsideRecorded(part, g, g2, {});
    StoredAfterKept(old(part.disk), disk1, part.disk, part.inodeTableLba, no, BLANK_RECORD);
  }

  /** `inode_release` of the inode `no`, which the kernel sees as `i`. */
  method InodeRelease(part: Partition, no: u32, ghost i: Inode)
    requires part.Valid() && no < MAX_FILES_PER_PART
    requires i == Cur(part.disk, part.open, part.inodeTableLba, no) && |i.sectors| == 13 && i.no == no
    requires no in part.open ==> 1 <= part.open[no].openCnts < 0xffff_ffff
    requires Owns(Slots(i.sectors, part.disk), part.Bits(), part.dataStartLba, |part.disk|)
    modifies part`disk, part`open, part.blockBitmap, part.blockBitmap.bits, part.inodeBitmap, part.inodeBitmap.bits
    ensures part.Valid()
    ensures part.open == old(part.open)
    ensures Dropped(old(part.Bits()), part.Bits(), part.dataStartLba, BlocksOf(Slots(i.sectors, old(part.disk))))
    ensures part.InodeBits() == old(part.InodeBits())[no := false]
    ensures DataKept(old(part.disk), part.disk, part.dataStartLba, {})
    ensures TableStored(old(part.disk), part.disk, part.inodeTableLba, no, BLANK_RECORD)
    ensures Loaded(part.disk, part.inodeTableLba, no) == NO_INODE
    ensures Recorded(old(Snap(part)), Snap(part), {})
  {
    hide Recorded, Dropped, DataKept, Owns, BlocksOf, Slots, Decode;
    ghost var g := Snap(part);
    var inode := InodeOpen(part, no);
    ghost var g1 := Snap(part);
    OutsideSame(part, g);
    EraseInode(part, no, inode.sectors);
    ghost var g2 := Snap(part);
    RecordedTwice(g, g1, g2, {});
    InodeClose(part, no);
    OutsideRecorded(part, g, g2, {});
    DeletedIsBlank(part.disk, part.inodeTableLba, no);
  }
}
