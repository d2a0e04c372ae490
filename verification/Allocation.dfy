/** Allocation from the bit maps of a partition and their copies on the disk: `inode_bitmap_alloc`,
    `block_bitmap_alloc` and `bitmap_sync` of `src/fs/file.c`. */
module Allocation {
  import opened Bytes
  import opened Bitmaps
  import opened Partitions
  import opened Images
  import opened BlockMap

  /** `block_bitmap_alloc`: the lowest free block, or -1. */
  method BlockBitmapAlloc(part: Partition) returns (lba: int)
    requires part.Valid()
    modifies part.blockBitmap, part.blockBitmap.bits
    ensures part.Valid()
    ensures lba == -1 || part.dataStartLba <= lba < |part.disk|
    ensures lba == -1 <==> FreeCount(old(part.Bits())) == 0
    ensures lba == -1 ==> part.Bits() == old(part.Bits())
    ensures lba != -1 ==>
              var i := lba - part.dataStartLba;
              && i < |part.Bits()| && !old(part.Bits())[i]
              && (forall j :: 0 <= j < i ==> old(part.Bits())[j])
              && part.Bits() == old(part.Bits())[i := true]
  {
    var bitIdx := part.blockBitmap.AllocOne();
    if bitIdx == -1 {
      return -1;
    }
    lba := part.dataStartLba + bitIdx;
  }

  /** `inode_bitmap_alloc`. */
  method InodeBitmapAlloc(part: Partition) returns (no: int)
    requires part.Valid()
    modifies part.inodeBitmap, part.inodeBitmap.bits
    ensures part.Valid()
    ensures no == -1 <==> FreeCount(old(part.InodeBits())) == 0
    ensures no == -1 ==> part.InodeBits() == old(part.InodeBits())
    ensures no != -1 ==>
              && 0 <= no < MAX_FILES_PER_PART && !old(part.InodeBits())[no]
              && (forall j :: 0 <= j < no ==> old(part.InodeBits())[j])
              && part.InodeBits() == old(part.InodeBits())[no := true]
  {
    no := part.inodeBitmap.AllocOne();
  }

  /** `bitmap_sync` of the block bit map: the sector that holds the bit is written to the disk. */
  method BlockBitmapSync(part: Partition, bitIdx: nat)
    requires part.Valid() && bitIdx < |part.Bits()|
    modifies part`disk
    ensures part.Valid()
    ensures part.disk == old(part.disk)[part.blockBitmapLba + bitIdx / 4096 :=
                           BitSector(part.blockBitmap.bits[..], bitIdx / 4096)]
    ensures part.blockBitmapLba + bitIdx / 4096 < part.inodeBitmapLba
  {
    var offSec := bitIdx / 4096;
    part.IdeWrite(part.blockBitmapLba + offSec, BitSector(part.blockBitmap.bits[..], offSec));
  }

  method InodeBitmapSync(part: Partition, no: nat)
    requires part.Valid() && no < MAX_FILES_PER_PART
    modifies part`disk
    ensures part.Valid()
    ensures part.disk == old(part.disk)[part.inodeBitmapLba := BitSector(part.inodeBitmap.bits[..], 0)]
  {
    var offSec := no / 4096;
    part.IdeWrite(part.inodeBitmapLba + offSec, BitSector(part.inodeBitmap.bits[..], offSec));
  }

  /** The disk has changed in the sectors of the block bit map only. */
  ghost predicate OnlyBitmap(part: Partition, disk: seq<Sector>, disk': seq<Sector>) {
    && |disk'| == |disk|
    && forall k :: 0 <= k < |disk| && !(part.blockBitmapLba <= k < part.inodeBitmapLba) ==> disk'[k] == disk[k]
  }

  /** What a run of allocations has done so far, starting from the bits `bits0` and the disk `disk0`;
      `got` are the blocks it took. */
  ghost predicate Allocating(part: Partition, bits0: seq<bool>, disk0: seq<Sector>, got: set<u32>)
    reads part, part.blockBitmap, part.blockBitmap.bits, part.inodeBitmap, part.inodeBitmap.bits
  {
    && part.Valid()
    && OnlyBitmap(part, disk0, part.disk)
    && Taken(bits0, part.Bits(), part.dataStartLba, |part.disk|, got)
    && |got| + FreeCount(part.Bits()) == FreeCount(bits0)
    && (got == {} ==> part.disk == disk0)
  }

  lemma BytesOfValid(part: Partition)
    requires part.Valid()
    ensures var bytes := part.blockBitmap.bits[..];
            |bytes| == part.blockBitmap.bytesLen + 1 && |part.Bits()| == 8 * part.blockBitmap.bytesLen
            && forall i :: 0 <= i < |part.Bits()| ==> part.Bits()[i] == BitAt(bytes, i)
    ensures var bytes := part.inodeBitmap.bits[..];
            |bytes| == 513 && |part.InodeBits()| == MAX_FILES_PER_PART
            && forall i :: 0 <= i < |part.InodeBits()| ==> part.InodeBits()[i] == BitAt(bytes, i)
  {
    hide BitOf;
    forall i | 0 <= i < |part.Bits()|
      ensures part.Bits()[i] == BitAt(part.blockBitmap.bits[..], i)
    {
      assert BitAt(part.blockBitmap.bits[..part.blockBitmap.bytesLen], i) == part.Bits()[i];
    }
    forall i | 0 <= i < |part.InodeBits()|
      ensures part.InodeBits()[i] == BitAt(part.inodeBitmap.bits[..], i)
    {
      assert BitAt(part.inodeBitmap.bits[..part.inodeBitmap.bytesLen], i) == part.InodeBits()[i];
    }
  }

  /** Allocate a block and write its bit to the disk, or leave it. */
  method TakeBlock(part: Partition, sync: bool) returns (lba: int)
    requires part.Valid()
    modifies part`disk, part.blockBitmap, part.blockBitmap.bits
    ensures part.Valid() && OnlyBitmap(part, old(part.disk), part.disk)
    ensures lba == -1 <==> FreeCount(old(part.Bits())) == 0
    ensures lba == -1 ==> part.Bits() == old(part.Bits()) && part.disk == old(part.disk)
    ensures lba == -1 ==> NextFree(old(part.Bits()), 0) == |old(part.Bits())|
    ensures lba != -1 ==>
              && part.dataStartLba <= lba < |part.disk| && lba - part.dataStartLba < |part.Bits()|
              && !old(part.Bits())[lba - part.dataStartLba]
              && part.Bits() == old(part.Bits())[lba - part.dataStartLba := true] != old(part.Bits())
              && NextFree(old(part.Bits()), 0) == lba - part.dataStartLba
    ensures sync ==> Allocated(old(Snap(part)), Snap(part))
    ensures lba != -1 && !sync ==> OnlySet(old(Snap(part)), Snap(part), lba - part.dataStartLba)
  {
    hide Allocated, BitWritten, OnlySet, Represents, Recorded, FreeCount, NextFree;
    ghost var g := Snap(part);
    lba := BlockBitmapAlloc(part);
    if lba == -1 {
      NoneFree(g.bits);
      SameAllocated(part, g);
    } else {
      TakenLowest(part, g, lba - part.dataStartLba);
      if sync {
        BlockBitmapSync(part, lba - part.dataStartLba);
        BlockWritten(part, g, lba - part.dataStartLba);
      }
    }
  }

  /** The same, as every loop of `file_write` does it. */
  method AllocAndSync(part: Partition, ghost bits0: seq<bool>, ghost disk0: seq<Sector>,
                      ghost got: set<u32>, sync: bool) returns (lba: int, ghost got': set<u32>)
    requires Allocating(part, bits0, disk0, got)
    modifies part`disk, part.blockBitmap, part.blockBitmap.bits
    ensures Allocating(part, bits0, disk0, got')
    ensures lba == -1 ==> got' == got && |got| == FreeCount(bits0)
    ensures lba != -1 ==> 0 < lba < 0x1_0000_0000 && lba !in got && got' == got + {lba}
    ensures lba == -1 ==> NextFree(old(part.Bits()), 0) == |old(part.Bits())| && part.Bits() == old(part.Bits())
    ensures lba != -1 ==> NextFree(old(part.Bits()), 0) == lba - part.dataStartLba < |part.Bits()|
                          && part.Bits() == old(part.Bits())[lba - part.dataStartLba := true] != old(part.Bits())
    ensures sync ==> Allocated(old(Snap(part)), Snap(part))
    ensures lba != -1 && !sync ==> OnlySet(old(Snap(part)), Snap(part), lba - part.dataStartLba)
  {
    hide Allocated, OnlySet, NextFree, Taken;
    lba := TakeBlock(part, sync);
    got' := got;
    if lba != -1 {
      TakenOneMore(bits0, old(part.Bits()), part.dataStartLba, |part.disk|, got, lba);
      got' := got + {lba};
    }
  }

  lemma NoneFree(bits: seq<bool>)
    requires FreeCount(bits) == 0
    ensures NextFree(bits, 0) == |bits|
  {
    forall j | 0 <= j < |bits|
      ensures bits[j]
    {
      assert multiset(bits)[bits[j]] > 0;
    }
  }

  lemma SameAllocated(part: Partition, g: Image)
    requires part.Valid() && g == Snap(part)
    ensures Allocated(g, g)
  {
    MapsOfValid(part);
    RecordedElsewhere(g, g);
  }

  lemma TakenLowest(part: Partition, g: Image, i: nat)
    requires part.Valid() && i < |g.bits| && !g.bits[i] && Snap(part) == g.(bits := g.bits[i := true])
    requires forall j :: 0 <= j < i ==> g.bits[j]
    ensures OnlySet(g, Snap(part), i) && part.Bits() != g.bits && i == NextFree(g.bits, 0)
  {
    MapsOfValid(part);
    NextFreeIs(g.bits, 0, i);
    StillPlaced(Snap(part), g);
    assert part.Bits()[i] != g.bits[i];
  }

  lemma SameRecorded(part: Partition, g: Image)
    requires part.Valid() && g == Snap(part)
    ensures Recorded(g, g, {})
  {
    MapsOfValid(part);
    RecordedElsewhere(g, g);
  }

  /** A block of the data area was written. */
  lemma DataRecorded(part: Partition, g: Image, disk1: seq<Sector>, late: set<nat>)
    requires part.Valid() && |disk1| == |part.disk|
    requires forall k :: 0 <= k < part.dataStartLba ==> part.disk[k] == disk1[k]
    requires Recorded(g, Snap(part).(disk := disk1), late)
    ensures Recorded(g, Snap(part), late)
  {
    MapsOfValid(part);
    StillPlaced(Snap(part), Snap(part).(disk := disk1));
    RecordedThen(g, Snap(part).(disk := disk1), Snap(part), late);
  }

  /** Sectors behind the bit maps were written, and the open inodes may have changed. */
  lemma OutsideRecorded(part: Partition, g: Image, g1: Image, late: set<nat>)
    requires part.Valid() && g1 == Snap(part).(open := g1.open, disk := g1.disk) && |g1.disk| == |part.disk|
    requires forall k :: 0 <= k < part.inodeTableLba ==> part.disk[k] == g1.disk[k]
    requires Recorded(g, g1, late)
    ensures Recorded(g, Snap(part), late)
  {
    MapsOfValid(part);
    StillPlaced(Snap(part), g1);
    RecordedThen(g, g1, Snap(part), late);
  }

  /** Only the open inodes have changed. */
  lemma OutsideSame(part: Partition, g: Image)
    requires part.Valid() && Snap(part) == g.(open := part.open)
    ensures Recorded(g, Snap(part), {})
  {
    MapsOfValid(part);
    StillPlaced(Snap(part), g);
    RecordedElsewhere(g, Snap(part));
  }

  /** The bit of an inode was changed, and the sector of the inode bit map was written. */
  lemma NumberWritten(part: Partition, g: Image, no: nat)
    requires part.Valid() && no < |g.ibits| && Snap(part) == g.(ibits := part.InodeBits(), disk := part.disk)
    requires part.inodeBitmapLba < |g.disk| && |g.ibits| == MAX_FILES_PER_PART && part.inodeBitmap.bits.Length >= 512
    requires part.disk == g.disk[part.inodeBitmapLba := BitSector(part.inodeBitmap.bits[..], 0)]
    ensures Recorded(g, Snap(part), {})
  {
    MapsOfValid(part);
    BytesOfValid(part);
    StillPlaced(Snap(part), g);
    NumbersSynced(g, Snap(part), part.inodeBitmap.bits[..]);
  }

  /** A changed bit was written with its sector. */
  lemma BlockWritten(part: Partition, g: Image, i: nat)
    requires part.Valid() && i < |g.bits| == |part.Bits()| && part.Bits() == g.bits[i := part.Bits()[i]]
    requires 512 * (i / 4096) + 512 <= part.blockBitmap.bits.Length
    requires Snap(part) == g.(bits := part.Bits(), disk := part.disk) && part.blockBitmapLba + i / 4096 < |g.disk|
    requires part.disk == g.disk[part.blockBitmapLba + i / 4096 := BitSector(part.blockBitmap.bits[..], i / 4096)]
    ensures Recorded(g, Snap(part), {})
    ensures !g.bits[i] && part.Bits()[i] && i == NextFree(g.bits, 0) ==> Allocated(g, Snap(part))
  {
    MapsOfValid(part);
    BytesOfValid(part);
    StillPlaced(Snap(part), g);
    BitSynced(g, Snap(part), i, part.blockBitmap.bits[..]);
  }

  lemma AllocatingFromHere(part: Partition)
    requires part.Valid()
    ensures Allocating(part, part.Bits(), part.disk, {})
  {
  }
}
