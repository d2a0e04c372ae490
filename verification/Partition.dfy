/** A mounted partition: `struct partition` with its super block (`lib/device/ide.h`,
    `lib/fs/super_block.h`), the disk below it, and the inodes that are open. */
module Partitions {
  import opened Bytes
  import opened Bitmaps

  /** The persistent and volatile fields of `struct inode`. `sectors` has 12 direct entries and
      the block number of the indirect table. */
  datatype Inode = Inode(
    no: u32, size: u32, userId: u32, ctime: u64, mtime: u64, atime: u64, privilege: u32,
    openCnts: u32, writeDeny: bool, sectors: seq<u32>)

  const DIRECT: nat := 12
  const TABLE: nat := 12
  const INODE_SIZE: nat := 108
  const MAX_FILES_PER_PART: nat := 4096
  const TABLE_SECTS: nat := 864

  class Partition {
    const startLba: nat
    const secCnt: nat
    const diskSects: nat
    const blockBitmapLba: nat
    const inodeBitmapLba: nat
    const inodeTableLba: nat
    const dataStartLba: nat
    const blockBitmap: Bitmap
    const inodeBitmap: Bitmap
    var disk: seq<Sector>
    /** `open_inodes`, keyed by the inode number that `inode_open` searches for. */
    var open: map<u32, Inode>

    /** A partition with the layout that its super block tells. */
    constructor (startLba: nat, secCnt: nat, blockBitmapLba: nat, inodeBitmapLba: nat, inodeTableLba: nat,
                 dataStartLba: nat,
                 blockBitmap: Bitmap, inodeBitmap: Bitmap, disk: seq<Sector>)
      ensures this.startLba == startLba && this.secCnt == secCnt && this.disk == disk && open == map[]
      ensures diskSects == |disk|
      ensures this.blockBitmap == blockBitmap && this.inodeBitmap == inodeBitmap
      ensures this.blockBitmapLba == blockBitmapLba && this.inodeBitmapLba == inodeBitmapLba
      ensures this.inodeTableLba == inodeTableLba && this.dataStartLba == dataStartLba
    {
      this.startLba, this.secCnt, this.blockBitmap, this.inodeBitmap := startLba, secCnt, blockBitmap, inodeBitmap;
      this.blockBitmapLba, this.inodeBitmapLba := blockBitmapLba, inodeBitmapLba;
      this.inodeTableLba, this.dataStartLba := inodeTableLba, dataStartLba;
      this.disk, this.open, this.diskSects := disk, map[], |disk|;
    }

    /** The geometry that `partition_format` lays out and `mount_partition` reads back. */
    ghost predicate Geometry() {
      && blockBitmap != inodeBitmap && blockBitmap.bits != inodeBitmap.bits
      && blockBitmap.bytesLen % 512 == 0 && 0 < blockBitmap.bytesLen
      && inodeBitmap.bytesLen == 512
      && blockBitmapLba == startLba + 2
      && inodeBitmapLba == blockBitmapLba + blockBitmap.bytesLen / 512
      && inodeTableLba == inodeBitmapLba + 1
      && dataStartLba == inodeTableLba + TABLE_SECTS
      && dataStartLba < startLba + secCnt < 0x1000_0000
    }

    /** A bit of the block bit map that is clear stands for a sector that the disk has. `disk` ends with the
        partition or with the sector behind it, for which `partition_format` may clear a bit, too. */
    ghost predicate Valid()
      reads this, blockBitmap, blockBitmap.bits, inodeBitmap, inodeBitmap.bits
    {
      && Geometry()
      && blockBitmap.Valid() && inodeBitmap.Valid()
      && |disk| == diskSects && startLba + secCnt <= diskSects <= startLba + secCnt + 1
      && (forall i :: 0 <= i < |blockBitmap.contents| && !blockBitmap.contents[i] ==> dataStartLba + i < |disk|)
      && (forall no :: no in open ==> |open[no].sectors| == 13 && open[no].no == no)
    }

    ghost function Bits(): seq<bool>
      reads blockBitmap
    {
      blockBitmap.contents
    }

    ghost function InodeBits(): seq<bool>
      reads inodeBitmap
    {
      inodeBitmap.contents
    }

    /** `ide_read` of one or two sectors. */
    method IdeRead(lba: nat, cnt: nat) returns (buf: seq<byte>)
      requires 1 <= cnt <= 2 && lba + cnt <= |disk|
      ensures buf == if cnt == 1 then disk[lba] else Join(disk[lba], disk[lba + 1])
    {
      buf := if cnt == 1 then disk[lba] else Join(disk[lba], disk[lba + 1]);
    }

    /** `ide_write` of one sector. */
    method IdeWrite(lba: nat, buf: seq<byte>)
      requires Valid() && lba < |disk| && |buf| == 512
      modifies this`disk
      ensures Valid() && disk == old(disk)[lba := buf]
    {
      disk := disk[lba := buf];
    }

    /** `ide_write` of two sectors. */
    method IdeWrite2(lba: nat, buf: seq<byte>)
      requires Valid() && lba + 2 <= |disk| && |buf| == 1024
      modifies this`disk
      ensures Valid() && |disk| == |old(disk)| && Join(disk[lba], disk[lba + 1]) == buf
      ensures forall k :: 0 <= k < |disk| && k != lba && k != lba + 1 ==> disk[k] == old(disk)[k]
    {
      disk := disk[lba := buf[..512]][lba + 1 := buf[512..]];
    }
  }
}
