/** `src/fs/inode.c`: where the record of an inode lies on the disk, and the reads and writes of
    that record. A record is 108 bytes, so records straddle sectors. */
module InodeTable {
  import opened Bytes
  import opened Partitions

  // ---- The record format ----

  function InodeWords(i: Inode): (ws: seq<u32>)
    requires |i.sectors| == 13
    ensures |ws| == 27
  {
    [i.no, i.size, i.userId,
     i.ctime % 0x1_0000_0000, i.ctime / 0x1_0000_0000,
     i.mtime % 0x1_0000_0000, i.mtime / 0x1_0000_0000,
     i.atime % 0x1_0000_0000, i.atime / 0x1_0000_0000,
     i.privilege, i.openCnts, if i.writeDeny then 1 else 0]
    + i.sectors + [0, 0]
  }

  function InodeOfWords(w: seq<u32>): (i: Inode)
    requires |w| == 27
    ensures |i.sectors| == 13
  {
    Inode(w[0], w[1], w[2], Wide(w[3], w[4]), Wide(w[5], w[6]), Wide(w[7], w[8]),
          w[9], w[10], w[11] != 0, w[12..25])
  }

  function Encode(i: Inode): (s: seq<byte>)
    requires |i.sectors| == 13
    ensures |s| == INODE_SIZE
  {
    BytesOf(InodeWords(i))
  }

  function Decode(s: seq<byte>): (i: Inode)
    requires |s| == INODE_SIZE
    ensures |i.sectors| == 13
  {
    InodeOfWords(Words(s))
  }

  lemma WideHalves(x: u64)
    ensures x / 0x1_0000_0000 < 0x1_0000_0000 && Wide(x % 0x1_0000_0000, x / 0x1_0000_0000) == x
  {
  }

  lemma InodeOfItsWords(i: Inode)
    requires |i.sectors| == 13
    ensures InodeOfWords(InodeWords(i)) == i
  {
    WideHalves(i.ctime);
    WideHalves(i.mtime);
    WideHalves(i.atime);
    var w := InodeWords(i);
    assert w[12..25] == i.sectors;
    assert w[11] == (if i.writeDeny then 1 else 0);
  }

  lemma DecodeEncode(i: Inode)
    requires |i.sectors| == 13
    ensures Decode(Encode(i)) == i
  {
    WordsOfBytes(InodeWords(i));
    InodeOfItsWords(i);
  }

  /** Where the fields of `struct inode` lie in a record: little-endian, in the order of their declaration. */
  lemma RecordLayout(i: Inode, k: nat)
    requires |i.sectors| == 13 && k < 13
    ensures var s := Encode(i);
            && WordAt(s, 0) == i.no && WordAt(s, 4) == i.size && WordAt(s, 8) == i.userId
            && Wide(WordAt(s, 12), WordAt(s, 16)) == i.ctime && Wide(WordAt(s, 20), WordAt(s, 24)) == i.mtime
            && Wide(WordAt(s, 28), WordAt(s, 32)) == i.atime && WordAt(s, 36) == i.privilege
            && WordAt(s, 40) == i.openCnts && (WordAt(s, 44) != 0 <==> i.writeDeny)
            && WordAt(s, 48 + 4 * k) == i.sectors[k]
  {
    hide WordAt, Words, BytesOf;
    var ws := InodeWords(i);
    WordsOfBytes(ws);
    forall j: nat | j < 27
      ensures WordAt(Encode(i), 4 * j) == ws[j]
    {
      WordsAt(BytesOf(ws), j);
    }
    assert WordAt(Encode(i), 4 * (12 + k)) == ws[12 + k];
    WideHalves(i.ctime);
    WideHalves(i.mtime);
    WideHalves(i.atime);
    assert WordAt(Encode(i), 4 * 0) == ws[0] && WordAt(Encode(i), 4 * 1) == ws[1] && WordAt(Encode(i), 4 * 2) == ws[2];
    assert WordAt(Encode(i), 4 * 3) == ws[3] && WordAt(Encode(i), 4 * 4) == ws[4] && WordAt(Encode(i), 4 * 5) == ws[5];
    assert WordAt(Encode(i), 4 * 6) == ws[6] && WordAt(Encode(i), 4 * 7) == ws[7] && WordAt(Encode(i), 4 * 8) == ws[8];
    assert WordAt(Encode(i), 4 * 9) == ws[9] && WordAt(Encode(i), 4 * 10) == ws[10];
    assert WordAt(Encode(i), 4 * 11) == ws[11];
  }

  /** The inode without its volatile fields, as `inode_sync` stores it. */
  function Pure(i: Inode): Inode {
    i.(openCnts := 0, writeDeny := false)
  }

  const BLANK_RECORD: seq<byte> := ZeroBytes(INODE_SIZE)

  const NO_INODE: Inode := Inode(0, 0, 0, 0, 0, 0, 0, 0, false, Zeros(13))

  // ---- The inode table as a byte sequence over the sectors ----

  ghost predicate HasTable(disk: seq<Sector>, lba: nat) {
    lba + TABLE_SECTS <= |disk|
  }

  function TableByte(disk: seq<Sector>, lba: nat, p: nat): byte
    requires HasTable(disk, lba) && p < TABLE_SECTS * 512
  {
    disk[lba + p / 512][p % 512]
  }

  function Record(disk: seq<Sector>, lba: nat, no: nat): (s: seq<byte>)
    requires HasTable(disk, lba) && no < MAX_FILES_PER_PART
    ensures |s| == INODE_SIZE
  {
    seq<byte>(INODE_SIZE, j requires 0 <= j < INODE_SIZE => TableByte(disk, lba, INODE_SIZE * no + j))
  }

  /** `disk'` is `disk` with the record of inode `no` replaced, and no other byte changed. */
  ghost predicate Stored(disk: seq<Sector>, disk': seq<Sector>, lba: nat, no: nat, bytes: seq<byte>)
    requires HasTable(disk, lba) && no < MAX_FILES_PER_PART && |bytes| == INODE_SIZE
  {
    && |disk'| == |disk|
    && (forall k :: 0 <= k < |disk| && !(lba <= k < lba + TABLE_SECTS) ==> disk'[k] == disk[k])
    && Record(disk', lba, no) == bytes
    && (forall m: nat :: m < MAX_FILES_PER_PART && m != no ==> Record(disk', lba, m) == Record(disk, lba, m))
  }

  /** In the inode table only the record of inode `no` has changed, to `bytes`. */
  ghost predicate TableStored(disk: seq<Sector>, disk': seq<Sector>, lba: nat, no: nat, bytes: seq<byte>) {
    && HasTable(disk, lba) && HasTable(disk', lba) && no < MAX_FILES_PER_PART
    && Record(disk', lba, no) == bytes
    && forall m: nat :: m < MAX_FILES_PER_PART && m != no ==> Record(disk', lba, m) == Record(disk, lba, m)
  }

  ghost predicate TableKept(disk: seq<Sector>, disk': seq<Sector>, lba: nat) {
    HasTable(disk, lba) && |disk'| == |disk| && forall k :: lba <= k < lba + TABLE_SECTS ==> disk'[k] == disk[k]
  }

  lemma RecordKept(disk: seq<Sector>, disk': seq<Sector>, lba: nat, m: nat)
    requires TableKept(disk, disk', lba) && m < MAX_FILES_PER_PART
    ensures Record(disk', lba, m) == Record(disk, lba, m)
  {
    forall j | 0 <= j < INODE_SIZE
      ensures Record(disk', lba, m)[j] == Record(disk, lba, m)[j]
    {
      var p := INODE_SIZE * m + j;
      assert Record(disk', lba, m)[j] == TableByte(disk', lba, p);
      assert Record(disk, lba, m)[j] == TableByte(disk, lba, p);
      assert lba <= lba + p / 512 < lba + TABLE_SECTS;
    }
  }

  lemma StoredAfterKept(disk: seq<Sector>, disk1: seq<Sector>, disk2: seq<Sector>, lba: nat, no: nat, bytes: seq<byte>)
    requires TableKept(disk, disk1, lba)
    requires no < MAX_FILES_PER_PART && |bytes| == INODE_SIZE && Stored(disk1, disk2, lba, no, bytes)
    ensures TableStored(disk, disk2, lba, no, bytes)
  {
    forall m: nat | m < MAX_FILES_PER_PART && m != no
      ensures Record(disk2, lba, m) == Record(disk, lba, m)
    {
      RecordKept(disk, disk1, lba, m);
    }
  }

  /** `inode_locate`. Its guard lets number 4096 through, whose record would lie behind the table. */
  method InodeLocate(part: Partition, no: nat) returns (twoSec: bool, secLba: nat, offSize: nat)
    requires no <= MAX_FILES_PER_PART && part.Geometry()
    ensures offSize < 512
    ensures 512 * (secLba - part.inodeTableLba) + offSize == INODE_SIZE * no
    ensures twoSec <==> offSize + INODE_SIZE > 512
    ensures secLba + (if twoSec then 2 else 1) <= part.inodeTableLba + TABLE_SECTS <==> no < MAX_FILES_PER_PART
    ensures no == MAX_FILES_PER_PART ==> secLba == part.dataStartLba && offSize == 0
  {
    var off := no * INODE_SIZE;
    var offSec := off / 512;
    offSize := off % 512;
    var leftInSec := 512 - offSize;
    twoSec := leftInSec < INODE_SIZE;
    secLba := part.inodeTableLba + offSec;
  }

  /** What one or two sectors hold after `bytes` was copied over offset `off` of their
      concatenation. */
  lemma WriteRecord(disk: seq<Sector>, disk': seq<Sector>, lba: nat, no: nat, bytes: seq<byte>,
                    secLba: nat, off: nat)
    requires HasTable(disk, lba) && no < MAX_FILES_PER_PART && |bytes| == INODE_SIZE
    requires lba <= secLba && off < 512 && 512 * (secLba - lba) + off == INODE_SIZE * no
    requires |disk'| == |disk|
    requires if off + INODE_SIZE > 512 then
               && secLba + 2 <= lba + TABLE_SECTS
               && Join(disk'[secLba], disk'[secLba + 1]) == Splice(Join(disk[secLba], disk[secLba + 1]), off, bytes)
             else
               secLba + 1 <= lba + TABLE_SECTS && disk'[secLba] == Splice(disk[secLba], off, bytes)
    requires forall k :: 0 <= k < |disk| && k != secLba && (k != secLba + 1 || off + INODE_SIZE <= 512) ==>
               disk'[k] == disk[k]
    ensures Stored(disk, disk', lba, no, bytes)
  {
    var base := 512 * (secLba - lba);
    forall p | 0 <= p < TABLE_SECTS * 512
      ensures TableByte(disk', lba, p) ==
              if INODE_SIZE * no <= p < INODE_SIZE * no + INODE_SIZE then bytes[p - INODE_SIZE * no]
              else TableByte(disk, lba, p)
    {
      if off + INODE_SIZE > 512 && base <= p < base + 1024 {
        assert Join(disk'[secLba], disk'[secLba + 1])[p - base] == TableByte(disk', lba, p);
        assert Join(disk[secLba], disk[secLba + 1])[p - base] == TableByte(disk, lba, p);
      }
    }
    assert Record(disk', lba, no) == bytes;
    forall m: nat | m < MAX_FILES_PER_PART && m != no
      ensures Record(disk', lba, m) == Record(disk, lba, m)
    {
      assert m < no || m > no;
    }
  }

  /** The two branches that `inode_sync` and `inode_delete` share: read the sectors of the record,
      copy `bytes` over it, write them back. */
  method StoreRecord(part: Partition, twoSec: bool, secLba: nat, off: nat, bytes: seq<byte>, ghost no: nat)
    requires part.Valid() && no < MAX_FILES_PER_PART && |bytes| == INODE_SIZE
    requires off < 512 && part.inodeTableLba <= secLba
    requires 512 * (secLba - part.inodeTableLba) + off == INODE_SIZE * no
    requires twoSec <==> off + INODE_SIZE > 512
    requires secLba + (if twoSec then 2 else 1) <= part.inodeTableLba + TABLE_SECTS
    modifies part`disk
    ensures part.Valid()
    ensures Stored(old(part.disk), part.disk, part.inodeTableLba, no, bytes)
  {
    ghost var was := part.disk;
    if twoSec {
      var buf := part.IdeRead(secLba, 2);
      buf := Splice(buf, off, bytes);
      part.IdeWrite2(secLba, buf);
    } else {
      var buf := part.IdeRead(secLba, 1);
      buf := Splice(buf, off, bytes);
      part.IdeWrite(secLba, buf);
    }
    WriteRecord(was, part.disk, part.inodeTableLba, no, bytes, secLba, off);
  }

  /** `inode_sync`: the inode number is cut to eight bits, so the record that is written is that of
      `inode.no % 256`. The kernel assertion on the sector number is the `assert`. */
  method InodeSync(part: Partition, inode: Inode)
    requires part.Valid() && |inode.sectors| == 13
    modifies part`disk
    ensures part.Valid()
    ensures Stored(old(part.disk), part.disk, part.inodeTableLba, inode.no % 256, Encode(Pure(inode)))
  {
    var no := inode.no % 256;
    var twoSec, secLba, off := InodeLocate(part, no);
    assert secLba <= part.startLba + part.secCnt;
    var pureInode := inode.(openCnts := 0, writeDeny := false);
    StoreRecord(part, twoSec, secLba, off, Encode(pureInode), no);
  }

  /** What `inode_open` loads for an inode that is not open yet, before it counts the opening. */
  function Loaded(disk: seq<Sector>, lba: nat, no: nat): (i: Inode)
    requires HasTable(disk, lba) && no < MAX_FILES_PER_PART
    ensures |i.sectors| == 13
  {
    Decode(Record(disk, lba, no))
  }

  lemma RecordInSectors(disk: seq<Sector>, lba: nat, no: nat, secLba: nat, off: nat, buf: seq<byte>)
    requires HasTable(disk, lba) && no < MAX_FILES_PER_PART
    requires lba <= secLba && off < 512 && 512 * (secLba - lba) + off == INODE_SIZE * no
    requires if off + INODE_SIZE > 512 then
               secLba + 2 <= lba + TABLE_SECTS && buf == Join(disk[secLba], disk[secLba + 1])
             else
               secLba + 1 <= lba + TABLE_SECTS && buf == disk[secLba]
    ensures buf[off..off + INODE_SIZE] == Record(disk, lba, no)
  {
    forall j | 0 <= j < INODE_SIZE
      ensures buf[off..off + INODE_SIZE][j] == Record(disk, lba, no)[j]
    {
      var p := INODE_SIZE * no + j;
      assert Record(disk, lba, no)[j] == TableByte(disk, lba, p);
      if off + j < 512 {
        assert p / 512 == secLba - lba && p % 512 == off + j;
      } else {
        assert p / 512 == secLba - lba + 1 && p % 512 == off + j - 512;
      }
    }
  }

  method ReadRecord(part: Partition, no: nat) returns (bytes: seq<byte>)
    requires part.Valid() && no < MAX_FILES_PER_PART
    ensures bytes == Record(part.disk, part.inodeTableLba, no)
  {
    var twoSec, secLba, off := InodeLocate(part, no);
    var buf := part.IdeRead(secLba, if twoSec then 2 else 1);
    RecordInSectors(part.disk, part.inodeTableLba, no, secLba, off, buf);
    bytes := buf[off..off + INODE_SIZE];
  }

  /** `inode_open`. */
  method InodeOpen(part: Partition, no: u32) returns (inode: Inode)
    requires part.Valid() && no < MAX_FILES_PER_PART
    requires no in part.open ==> part.open[no].openCnts < 0xffff_ffff
    requires no !in part.open ==> Loaded(part.disk, part.inodeTableLba, no).no == no
    modifies part`open
    ensures part.Valid()
    ensures inode == if no in old(part.open) then old(part.open)[no].(openCnts := old(part.open)[no].openCnts + 1)
                     else Loaded(part.disk, part.inodeTableLba, no).(openCnts := 1)
    ensures part.open == old(part.open)[no := inode]
  {
    if no in part.open {
      inode := part.open[no].(openCnts := part.open[no].openCnts + 1);
    } else {
      var bytes := ReadRecord(part, no);
      inode := Decode(bytes).(openCnts := 1);
    }
    part.open := part.open[no := inode];
  }

  /** `inode_close`. */
  method InodeClose(part: Partition, no: u32)
    requires part.Valid() && no in part.open && part.open[no].openCnts >= 1
    modifies part`open
    ensures part.Valid()
    ensures part.open == if old(part.open)[no].openCnts == 1 then old(part.open) - {no}
                         else old(part.open)[no := old(part.open)[no].(openCnts := old(part.open)[no].openCnts - 1)]
  {
    var i := part.open[no].(openCnts := part.open[no].openCnts - 1);
    if i.openCnts == 0 {
      part.open := part.open - {no};
    } else {
      part.open := part.open[no := i];
    }
  }

  /** `inode_delete`. */
  method InodeDelete(part: Partition, no: nat)
    requires part.Valid()
    modifies part`disk
    ensures part.Valid()
    ensures no >= MAX_FILES_PER_PART ==> part.disk == old(part.disk)
    ensures no < MAX_FILES_PER_PART ==>
              Stored(old(part.disk), part.disk, part.inodeTableLba, no, BLANK_RECORD)
  {
    if no >= 4096 {
      return;
    }
    var twoSec, secLba, off := InodeLocate(part, no);
    if secLba > part.startLba + part.secCnt {
      return;
    }
    StoreRecord(part, twoSec, secLba, off, BLANK_RECORD, no);
  }

  // ---- What syncing an inode means ----

  /** A record that was deleted loads as an inode without size and without blocks. */
  lemma DeletedIsBlank(disk: seq<Sector>, lba: nat, no: nat)
    requires HasTable(disk, lba) && no < MAX_FILES_PER_PART && Record(disk, lba, no) == BLANK_RECORD
    ensures Loaded(disk, lba, no) == NO_INODE
  {
    var w := Words(Record(disk, lba, no));
    forall i | 0 <= i < 27
      ensures w[i] == 0
    {
      WordsAt(Record(disk, lba, no), i);
    }
    assert w[12..25] == Zeros(13);
  }

  /** A sync followed by a fresh open gives the inode back, and leaves all other inodes alone. */
  ghost predicate SyncWorks(disk: seq<Sector>, disk': seq<Sector>, lba: nat, inode: Inode)
    requires HasTable(disk, lba) && HasTable(disk', lba) && inode.no < MAX_FILES_PER_PART
  {
    && Loaded(disk', lba, inode.no) == Pure(inode)
    && forall m: nat :: m < MAX_FILES_PER_PART && m != inode.no ==> Loaded(disk', lba, m) == Loaded(disk, lba, m)
  }

  ghost predicate Synced(disk: seq<Sector>, disk': seq<Sector>, lba: nat, inode: Inode) {
    HasTable(disk, lba) && |inode.sectors| == 13 && Stored(disk, disk', lba, inode.no % 256, Encode(Pure(inode)))
  }

  ghost predicate SyncIsFaithful(no: u32)
    requires no < MAX_FILES_PER_PART
  {
    forall disk: seq<Sector>, disk': seq<Sector>, lba: nat, inode: Inode ::
      inode.no == no && Synced(disk, disk', lba, inode) ==> SyncWorks(disk, disk', lba, inode)
  }

  lemma LoadedAfter(disk: seq<Sector>, lba: nat, inode: Inode)
    requires HasTable(disk, lba) && inode.no < MAX_FILES_PER_PART && |inode.sectors| == 13
    requires Record(disk, lba, inode.no) == Encode(inode)
    ensures Loaded(disk, lba, inode.no) == inode
  {
    DecodeEncode(inode);
  }

  lemma LoadedSame(disk: seq<Sector>, disk': seq<Sector>, lba: nat, m: nat)
    requires HasTable(disk, lba) && HasTable(disk', lba) && m < MAX_FILES_PER_PART
    requires Record(disk, lba, m) == Record(disk', lba, m)
    ensures Loaded(disk, lba, m) == Loaded(disk', lba, m)
  {
  }

  lemma SyncThenOpen(disk: seq<Sector>, disk': seq<Sector>, lba: nat, inode: Inode)
    requires inode.no < 256 && Synced(disk, disk', lba, inode)
    ensures SyncWorks(disk, disk', lba, inode)
  {
    assert Record(disk', lba, inode.no) == Encode(Pure(inode));
    LoadedAfter(disk', lba, Pure(inode));
    forall m: nat | m < MAX_FILES_PER_PART && m != inode.no
      ensures Loaded(disk', lba, m) == Loaded(disk, lba, m)
    {
      LoadedSame(disk, disk', lba, m);
    }
  }

  /** Exactly the inode numbers that fit the eight bits `inode_sync` keeps are synced well. */
  lemma SyncIsFaithfulIff(no: u32)
    requires no < MAX_FILES_PER_PART
    ensures SyncIsFaithful(no) <==> no < 256
  {
    if no < 256 {
      forall disk: seq<Sector>, disk': seq<Sector>, lba: nat, inode: Inode |
        inode.no == no && Synced(disk, disk', lba, inode)
        ensures SyncWorks(disk, disk', lba, inode)
      {
        SyncThenOpen(disk, disk', lba, inode);
      }
    } else {
      SyncHitsAnotherInode(no);
    }
  }

  /** The failing family: the sync of inode `no >= 256` overwrites the record of `no - 256 * k`. */
  lemma SyncHitsAnotherInode(no: u32)
    requires 256 <= no < MAX_FILES_PER_PART
    ensures !SyncIsFaithful(no)
  {
    var disk: seq<Sector> := seq(TABLE_SECTS, _ => ZERO_SECTOR);
    var inode := NO_INODE.(no := no);
    assert Pure(inode) == inode;
    var disk' := BlankTableWith(no % 256, Encode(inode));
    assert Synced(disk, disk', 0, inode);
    if SyncWorks(disk, disk', 0, inode) {
      assert Loaded(disk', 0, no % 256) == Loaded(disk, 0, no % 256);
      DecodeEncode(inode);
      assert Loaded(disk', 0, no % 256).no == no;
      BlankRecord(disk, no % 256);
      assert false;
    }
  }

  lemma BlankRecord(disk: seq<Sector>, no: nat)
    requires disk == seq<Sector>(TABLE_SECTS, _ => ZERO_SECTOR) && no < MAX_FILES_PER_PART
    ensures Loaded(disk, 0, no).no == 0
  {
    forall j | 0 <= j < INODE_SIZE
      ensures Record(disk, 0, no)[j] == 0
    {
      assert TableByte(disk, 0, INODE_SIZE * no + j) == 0;
    }
    WordsAt(Record(disk, 0, no), 0);
  }

  /** A table of zeroes with one record stored in it. */
  lemma BlankTableWith(no: nat, bytes: seq<byte>) returns (disk': seq<Sector>)
    requires no < MAX_FILES_PER_PART && |bytes| == INODE_SIZE
    ensures Stored(seq(TABLE_SECTS, _ => ZERO_SECTOR), disk', 0, no, bytes)
  {
    var disk: seq<Sector> := seq(TABLE_SECTS, _ => ZERO_SECTOR);
    var off := INODE_SIZE * no;
    disk' := seq<Sector>(TABLE_SECTS, k requires 0 <= k < TABLE_SECTS =>
      seq<byte>(512, j requires 0 <= j < 512 =>
        if off <= 512 * k + j < off + INODE_SIZE then bytes[512 * k + j - off] else 0));
    forall p | 0 <= p < TABLE_SECTS * 512
      ensures TableByte(disk', 0, p) == if off <= p < off + INODE_SIZE then bytes[p - off] else 0
    {
      assert 512 * (p / 512) + p % 512 == p;
    }
    assert Record(disk', 0, no) == bytes;
    forall m: nat | m < MAX_FILES_PER_PART && m != no
      ensures Record(disk', 0, m) == Record(disk, 0, m)
    {
      forall j | 0 <= j < INODE_SIZE
        ensures Record(disk', 0, m)[j] == Record(disk, 0, m)[j]
      {
        assert TableByte(disk, 0, INODE_SIZE * m + j) == 0;
        assert m < no || m > no;
        assert TableByte(disk', 0, INODE_SIZE * m + j) == 0;
      }
    }
  }
}
