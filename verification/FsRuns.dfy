/** Runs of file system operations (`src/fs/`), from a new volume on: which of them lose blocks or inodes,
    and that the volume is consistent until one does. */
module FsRuns {
  import opened Bytes
  import opened Bitmaps
  import opened Partitions
  import opened Images
  import opened BlockMap
  import opened InodeTable
  import opened Allocation
  import opened FileOps
  import opened DirMap
  import opened DirOps
  import opened FsState
  import opened FsWrite
  import opened FsCreate
  import opened FsMkDir
  import opened FsRemove
  import opened FsRoundTrip
  import opened FsFormat

  /** What a process may ask for. `Remove` is `sys_unlink` or `sys_rmdir`, as the child is. */
  datatype Op =
    | OpenInode(no: u32)
    | CloseInode(no: u32)
    | CreateFile(d: u32, name: seq<byte>)
    | WriteFile(no: u32, buf: seq<byte>)
    | MakeDir(d: u32, name: seq<byte>)
    | Remove(d: u32, c: u32)

  /** A volume and what its inodes are. */
  datatype Volume = Volume(g: Image, kinds: map<u32, Kind>)

  /** The operation can be carried out. One that cannot is refused before it changes anything. */
  ghost predicate Admitted(v: Volume, op: Op) {
    match op
    case OpenInode(no) => no in v.kinds && (no in v.g.open ==> v.g.open[no].openCnts < 0xffff_fffe)
    case CloseInode(no) => no in v.g.open
    case CreateFile(d, name) => GoodName(name) && RoomFor(v.g, v.kinds, d)
    case WriteFile(no, buf) => |buf| <= MAX_BUF && no in v.g.open && no in v.kinds && v.kinds[no] == FileKind
    case MakeDir(d, name) => GoodName(name) && RoomFor(v.g, v.kinds, d)
    case Remove(d, c) =>
      && d in v.g.open && Geometry(v.g) && HasChild(v, d, c) && c in v.kinds
      && (v.kinds[c].DirKind? && c in v.g.open ==> v.g.open[c].openCnts < 0xffff_fffe)
  }

  predicate GoodName(name: seq<byte>) {
    |name| == 16 && Child(DirEntry(name, 0, FT_REGULAR))
  }

  ghost predicate HasChild(v: Volume, d: u32, c: u32)
    requires Geometry(v.g)
  {
    exists p: nat :: ChildOf(v.g, v.kinds, d, p, c)
  }

  /** The operation loses something: a write that runs out of blocks, or that fails for the size after it took
      a first block; a directory whose entry finds no block; a directory that is removed while it is open. */
  ghost predicate Loses(v: Volume, op: Op) {
    && Admitted(v, op) && Geometry(v.g)
    && match op
       case WriteFile(no, buf) =>
         && no < MAX_FILES_PER_PART && !CanWrite(v.g, no, |buf|)
         && FreeLeft(I(v.g, no).sectors, I(v.g, no).size, |buf|, FreeCount(v.g.bits)) != FreeCount(v.g.bits)
       case MakeDir(d, name) => d < MAX_FILES_PER_PART && FreeCount(v.g.bits) == 1 && EntryBlocks(v.g, d) == 1
       case Remove(d, c) => c in v.kinds && v.kinds[c].DirKind? && c in v.g.open && Childless(v.g, v.kinds, c)
       case _ => false
  }

  // ---- The tests before an operation ----

  /** Whether a directory has a free slot. */
  method HasFreeSlot(part: Partition, sec: seq<u32>) returns (r: bool)
    requires part.Valid() && DirBlocks(sec, part.disk, part.Bits(), part.dataStartLba)
    ensures r <==> exists q :: 0 <= q < FLAT && !Live(Flat(sec, part.disk)[q])
  {
    ghost var flat := Flat(sec, part.disk);
    var b := 0;
    while b < DIRECT
      invariant b <= DIRECT
      invariant forall q :: 0 <= q < 21 * b ==> Live(flat[q])
    {
      SlotIndex(b, 0);
      if sec[b] == 0 {
        assert flat[21 * b] == NO_ENTRY;
        return true;
      }
      DirBlock(sec, part.disk, part.Bits(), part.dataStartLba, b);
      var j := FindFree(part.disk[sec[b]]);
      forall q | 21 * b <= q < 21 * b + j
        ensures Live(flat[q])
      {
        SlotIndex(b, q - 21 * b);
      }
      if j < ENTRIES_PER_SEC {
        SlotIndex(b, j);
        assert !Live(flat[21 * b + j]);
        return true;
      }
      b := b + 1;
    }
    r := false;
  }

  method HasRoom(part: Partition, d: u32, kinds: map<u32, Kind>) returns (r: bool)
    requires part.Valid() && Consistent(Snap(part), kinds)
    ensures r <==> RoomFor(Snap(part), kinds, d)
  {
    hide Consistent, GoodDir, DirBlocks, Flat, FlatI, Geometry, RoomFor, FreeRun;
    if !(d in part.open && d in kinds && kinds[d].DirKind?) {
      NoRoom(Snap(part), kinds, d);
      return false;
    }
    StoreOf(Snap(part), kinds);
    OpenDirIsGood(Snap(part), kinds, d);
    RoomIff(Snap(part), kinds, d);
    r := HasFreeSlot(part, part.open[d].sectors);
    var no := part.inodeBitmap.Scan(1);
    FirstClear(part.InodeBits(), no);
    r := r && no != -1 && no < 256;
  }

  lemma NoRoom(g: Image, kinds: map<u32, Kind>, d: u32)
    requires !(d in g.open && d in kinds && kinds[d].DirKind?)
    ensures !RoomFor(g, kinds, d)
  {
    hide FlatI, Geometry;
  }

  lemma RoomIff(g: Image, kinds: map<u32, Kind>, d: u32)
    requires Geometry(g) && d in g.open && d in kinds && kinds[d].DirKind? && d < MAX_FILES_PER_PART
    ensures RoomFor(g, kinds, d) <==> (exists x :: 0 <= x < FLAT && !Live(FlatI(g, d)[x]))
                                      && exists n: nat :: n < 256 && n < |g.ibits| && !g.ibits[n]
  {
    hide FlatI, Geometry, Live;
    if n: nat :| n < 256 && n < |g.ibits| && !g.ibits[n] {
      assert 0 <= n < 256 && n < |g.ibits| && !g.ibits[n];
    }
  }

  lemma FirstClear(bits: seq<bool>, r: int)
    requires r == -1 ==> forall s: nat :: !FreeRun(bits, s, 1)
    requires r != -1 ==> r >= 0 && FreeRun(bits, r, 1) && forall s: nat :: s < r ==> !FreeRun(bits, s, 1)
    ensures (r != -1 && r < 256) <==> exists n: nat :: n < 256 && n < |bits| && !bits[n]
  {
    if r != -1 {
      assert !bits[r];
    }
    if n: nat :| n < 256 && n < |bits| && !bits[n] {
      assert FreeRun(bits, n, 1);
    }
  }

  method SlotOfChild(part: Partition, sec: seq<u32>, c: u32) returns (r: bool, ghost p: nat)
    requires part.Valid() && DirBlocks(sec, part.disk, part.Bits(), part.dataStartLba)
             && GoodSlots(Flat(sec, part.disk))
    ensures r ==> ChildAt(Flat(sec, part.disk), p, c)
    ensures !r ==> forall q: nat :: !ChildAt(Flat(sec, part.disk), q, c)
  {
    hide Flat, ChildAt, GoodSlots, DirBlocks, Child;
    var b, j, cnt, first := LocateChild(part, sec, c);
    r := j != -1;
    p := if r then 21 * b + j else 0;
  }

  /** Whether `c` is a child of directory `d`, and where. */
  method FindChild(part: Partition, d: u32, c: u32, kinds: map<u32, Kind>) returns (r: bool, ghost p: nat)
    requires part.Valid() && Consistent(Snap(part), kinds)
    ensures Geometry(Snap(part))
    ensures r ==> d in part.open && ChildOf(Snap(part), kinds, d, p, c) && c in kinds
    ensures !r ==> d !in part.open || !HasChild(Volume(Snap(part), kinds), d, c)
  {
    hide Consistent, GoodDir, DirBlocks, Flat, FlatI, Live, ChildAt, ChildOf, GoodSlots, Geometry, HasChild, Child;
    ghost var v := Volume(Snap(part), kinds);
    StoreOf(v.g, kinds);
    p := 0;
    if d !in part.open {
      return false, 0;
    }
    if d !in kinds || !kinds[d].DirKind? {
      OnlyDirsHaveChildren(v, d, c);
      return false, 0;
    }
    OpenDirIsGood(v.g, kinds, d);
    SlotsAreGood(part.open[d], part.disk, part.Bits(), part.dataStartLba);
    r, p := SlotOfChild(part, part.open[d].sectors, c);
    if r {
      ChildFound(v, d, p, c);
    } else {
      NoChildFound(v, d, c);
    }
  }

  lemma OnlyDirsHaveChildren(v: Volume, d: u32, c: u32)
    requires Geometry(v.g) && !(d in v.kinds && v.kinds[d].DirKind?)
    ensures !HasChild(v, d, c)
  {
    hide Geometry, FlatI;
  }

  lemma ChildFound(v: Volume, d: u32, p: nat, c: u32)
    requires Geometry(v.g) && d in v.kinds && d < MAX_FILES_PER_PART && v.kinds[d].DirKind? && d in v.g.open
    requires ChildAt(FlatI(v.g, d), p, c)
    requires Consistent(v.g, v.kinds)
    ensures ChildOf(v.g, v.kinds, d, p, c) && c in v.kinds
  {
    hide Geometry, FlatI, Consistent;
    EntryIsThere(v.g, v.kinds, d, p, c);
  }

  lemma NoChildFound(v: Volume, d: u32, c: u32)
    requires Geometry(v.g) && d in v.kinds && d < MAX_FILES_PER_PART && v.kinds[d].DirKind?
    requires GoodSlots(FlatI(v.g, d)) && forall p: nat :: !ChildAt(FlatI(v.g, d), p, c)
    ensures !HasChild(v, d, c)
  {
    hide Geometry, FlatI;
    forall p: nat
      ensures !ChildOf(v.g, v.kinds, d, p, c)
    {
      assert !ChildAt(FlatI(v.g, d), p, c);
    }
  }

  lemma SlotsAreGood(i: Inode, disk: seq<Sector>, bits: seq<bool>, ds: nat)
    requires GoodDir(i, disk, bits, ds)
    ensures |i.sectors| == 13 && GoodSlots(Flat(i.sectors, disk))
  {
    hide Flat, LiveCount;
  }

  // ---- One operation ----

  /** What an operation that loses nothing has done: its effect, or nothing. */
  ghost predicate Did(v: Volume, op: Op, v': Volume) {
    v' == v || match op
               case OpenInode(_) => v'.kinds == v.kinds && v'.g == v.g.(open := v'.g.open)
               case CloseInode(_) => v'.kinds == v.kinds && v'.g == v.g.(open := v'.g.open)
               case CreateFile(d, name) => exists no ::
                   Created(v.g, v'.g, v.kinds, v'.kinds, d, DirEntry(name, no, FT_REGULAR), FileKind)
               case WriteFile(no, buf) => v'.kinds == v.kinds && Wrote(v.g, v'.g, v.kinds, no, buf)
               case MakeDir(d, name) =>
                 d in v.kinds && v.kinds[d].DirKind?
                 && exists no :: Created(v.g, v'.g, v.kinds, v'.kinds, d, DirEntry(name, no, FT_DIRECTORY),
                                         DirKind(d, v.kinds[d].depth + 1))
               case Remove(d, c) => v'.kinds == v.kinds - {c} && exists p: nat :: Gone(v.g, v'.g, v.kinds, d, p, c)
  }

  /** The blocks that an operation takes without writing their bits to the disk: the indirect table that a write
      gives a file, if the next free bit after that of the table lies in another sector of the bit map. */
  ghost function LateOf(v: Volume, op: Op): set<nat> {
    match op
    case WriteFile(no, buf) =>
      if Admitted(v, op) && Geometry(v.g) && no < MAX_FILES_PER_PART then LateWrite(v.g, no, |buf|) else {}
    case _ => {}
  }

  /** How an operation ends. If it loses something, no volume fits what is left. In any case the bit maps on the
      disk follow those in memory, but for the bits of `LateOf`. */
  ghost predicate Ended(v: Volume, op: Op, lost: bool, v': Volume) {
    && (lost <==> Loses(v, op))
    && (!Admitted(v, op) ==> v' == v)
    && (if lost then forall k :: !Consistent(v'.g, k) else Consistent(v'.g, v'.kinds) && Did(v, op, v'))
    && Recorded(v.g, v'.g, LateOf(v, op))
  }

  lemma Refused(v: Volume, op: Op)
    requires !Admitted(v, op)
    requires Consistent(v.g, v.kinds)
    requires Recorded(v.g, v.g, {})
    ensures Ended(v, op, false, v)
  {
    hide Consistent, Admitted, Recorded;
  }

  method DoOpen(part: Partition, no: u32, kinds: map<u32, Kind>)
    requires part.Valid() && Consistent(Snap(part), kinds)
    modifies part`open
    ensures part.Valid()
    ensures Ended(Volume(old(Snap(part)), kinds), OpenInode(no), false, Volume(Snap(part), kinds))
  {
    hide Consistent, Loaded, Recorded;
    ghost var g := Snap(part);
    SameRecorded(part, g);
    if no !in kinds || (no in part.open && part.open[no].openCnts >= 0xffff_fffe) {
      Refused(Volume(g, kinds), OpenInode(no));
      return;
    }
    MayOpen(g, kinds, no);
    var inode := InodeOpen(part, no);
    OutsideSame(part, g);
    OpenedVolume(g, Snap(part), kinds, no, inode);
  }

  method DoClose(part: Partition, no: u32, kinds: map<u32, Kind>)
    requires part.Valid() && Consistent(Snap(part), kinds)
    modifies part`open
    ensures part.Valid()
    ensures Ended(Volume(old(Snap(part)), kinds), CloseInode(no), false, Volume(Snap(part), kinds))
  {
    hide Consistent, Loaded, Recorded;
    ghost var g := Snap(part);
    SameRecorded(part, g);
    if no !in part.open {
      Refused(Volume(g, kinds), CloseInode(no));
      return;
    }
    OpenIsKnown(g, kinds, no);
    InodeClose(part, no);
    OutsideSame(part, g);
    if no in part.open {
      OpenedVolume(g, Snap(part), kinds, no, part.open[no]);
    } else {
      ClosedVolume(g, Snap(part), kinds, no);
    }
  }

  lemma OpenIsKnown(g: Image, kinds: map<u32, Kind>, no: u32)
    requires no in g.open && Consistent(g, kinds)
    ensures Geometry(g) && no in kinds && no < MAX_FILES_PER_PART && 1 <= g.open[no].openCnts < 0xffff_ffff
    ensures I(g, no) == Pure(g.open[no])
  {
    hide StoreOK, NamesOK, RootOK, NumbersOK, I;
  }

  method DoCreate(part: Partition, d: u32, name: seq<byte>, kinds: map<u32, Kind>) returns (kinds': map<u32, Kind>)
    requires part.Valid() && Consistent(Snap(part), kinds)
    modifies part`disk, part`open, part.blockBitmap, part.blockBitmap.bits, part.inodeBitmap, part.inodeBitmap.bits
    ensures part.Valid()
    ensures Ended(Volume(old(Snap(part)), kinds), CreateFile(d, name), false, Volume(Snap(part), kinds'))
  {
    hide Consistent, RoomFor, Created, NeedsBlock, FilesKept, EntryBlocks, FreeCount, Recorded;
    ghost var g := Snap(part);
    SameRecorded(part, g);
    kinds' := kinds;
    var room := HasRoom(part, d, kinds);
    if !GoodName(name) || !room {
      Refused(Volume(g, kinds), CreateFile(d, name));
      return;
    }
    RoomIsDir(g, kinds, d);
    var r;
    ghost var after;
    r, after := FileCreate(part, d, name, kinds);
    if r != -1 {
      kinds' := kinds[r as u32 := FileKind];
      CreatedKinds(g, Snap(part), kinds, after, d, DirEntry(name, r, FT_REGULAR), FileKind);
    }
  }

  lemma RoomIsDir(g: Image, kinds: map<u32, Kind>, d: u32)
    requires RoomFor(g, kinds, d)
    ensures Geometry(g) && d in g.open && d in kinds && kinds[d].DirKind? && d < MAX_FILES_PER_PART
  {
    hide FlatI, Geometry;
  }

  lemma CreatedKinds(g: Image, g': Image, kinds: map<u32, Kind>, kinds': map<u32, Kind>, d: u32, e: DirEntry,
                     kind: Kind)
    requires Created(g, g', kinds, kinds', d, e, kind)
    ensures kinds' == kinds[e.ino := kind]
  {
    hide FlatI, I, Untouched, Entered, Extends;
  }

  method DoWrite(part: Partition, no: u32, buf: seq<byte>, kinds: map<u32, Kind>) returns (lost: bool)
    requires part.Valid() && Consistent(Snap(part), kinds)
    modifies part`disk, part`open, part.blockBitmap, part.blockBitmap.bits
    ensures part.Valid()
    ensures Ended(Volume(old(Snap(part)), kinds), WriteFile(no, buf), lost, Volume(Snap(part), kinds))
  {
    hide Consistent, Wrote, CanWrite, NotWritten, FilesKept, FreeCount, WriteBlocks, I, Recorded, LateWrite;
    ghost var g := Snap(part);
    SameRecorded(part, g);
    if !(|buf| <= MAX_BUF && no in part.open && no in kinds && kinds[no] == FileKind) {
      Refused(Volume(g, kinds), WriteFile(no, buf));
      return false;
    }
    OpenIsKnown(g, kinds, no);
    var file := new File(no);
    var i := part.open[no];
    var first := part.blockBitmap.Scan(1);
    NoneFree(part.Bits(), first);
    var r := SysWrite(part, file, buf, kinds);
    lost := r == -1 && first != -1
        && (!TooLong(i.size, |buf|) || (i.size + |buf| == 512 * MAX_BLOCKS && i.sectors[0] == 0));
    if r == -1 {
      LeftAfter(g, Snap(part), kinds, no, |buf|);
    }
  }

  lemma NoneFree(bits: seq<bool>, r: int)
    requires r == -1 ==> forall s: nat :: !FreeRun(bits, s, 1)
    requires r != -1 ==> r >= 0 && FreeRun(bits, r, 1)
    ensures r == -1 <==> FreeCount(bits) == 0
  {
    if r == -1 {
      if false in bits {
        var n: nat :| n < |bits| && !bits[n];
        assert FreeRun(bits, n, 1);
      }
    } else {
      assert bits[r] in multiset(bits);
    }
  }

  lemma LeftAfter(g: Image, g': Image, kinds: map<u32, Kind>, no: u32, count: nat)
    requires NotWritten(g, g', kinds, no, count) && no < MAX_FILES_PER_PART && I(g, no) == Pure(g.open[no])
    ensures Geometry(g) && FreeCount(g'.bits) == FreeLeft(I(g, no).sectors, I(g, no).size, count, FreeCount(g.bits))
  {
    hide I, OnlyTaken, Untouched, FreeCount, GoodInode;
    OnlyTakenGeometry(g, g');
  }

  lemma OnlyTakenGeometry(g: Image, g': Image)
    requires OnlyTaken(g, g')
    ensures Geometry(g)
  {
  }

  method DoMakeDir(part: Partition, d: u32, name: seq<byte>, kinds: map<u32, Kind>)
    returns (lost: bool, kinds': map<u32, Kind>)
    requires part.Valid() && Consistent(Snap(part), kinds)
    modifies part`disk, part`open, part.blockBitmap, part.blockBitmap.bits, part.inodeBitmap, part.inodeBitmap.bits
    ensures part.Valid()
    ensures Ended(Volume(old(Snap(part)), kinds), MakeDir(d, name), lost, Volume(Snap(part), kinds'))
  {
    hide Consistent, RoomFor, Created, NeedsBlock, FilesKept, FreeCount, Leaks, Recorded;
    ghost var g := Snap(part);
    SameRecorded(part, g);
    lost, kinds' := false, kinds;
    var room := HasRoom(part, d, kinds);
    if !GoodName(name) || !room {
      Refused(Volume(g, kinds), MakeDir(d, name));
      return;
    }
    RoomIsDir(g, kinds, d);
    var r, no;
    ghost var after, blk;
    r, no, after, blk := MkDir(part, d, name, kinds);
    lost := r == Leaked;
    if lost {
      LeakedIsLost(Snap(part), kinds, blk);
    }
    if r == Made {
      kinds' := kinds[no := DirKind(d, kinds[d].depth + 1)];
      CreatedKinds(g, Snap(part), kinds, after, d, DirEntry(name, no, FT_DIRECTORY), DirKind(d, kinds[d].depth + 1));
    }
  }

  /** No volume fits a bit map with a block that nobody owns. */
  lemma LeakedIsLost(g: Image, kinds: map<u32, Kind>, b: u32)
    requires Leaks(g, kinds, b)
    ensures forall k :: !Consistent(g, k)
  {
    hide Leaks, Consistent, NumbersOK, Geometry, Owned;
    LeaksParts(g, kinds, b);
    var i: nat := b - g.ds;
    assert g.ds + i == b;
    forall k
      ensures !Consistent(g, k)
    {
      SameOwners(g, kinds, k, b);
      NeedsOwner(g, k, i);
    }
  }

  lemma LeaksParts(g: Image, kinds: map<u32, Kind>, b: u32)
    requires Leaks(g, kinds, b)
    ensures Geometry(g) && NumbersOK(g, kinds) && !Owned(g, kinds, b)
    ensures g.ds <= b < |g.disk| && b - g.ds < |g.bits| && g.bits[b - g.ds]
  {
    hide NamesOK, CacheOK, Owned, InodeOK, Blk, NoSharing, BitsOwned, RootOK;
    assert b in {b};
  }

  lemma SameOwners(g: Image, kinds: map<u32, Kind>, k: map<u32, Kind>, b: nat)
    requires Geometry(g) && NumbersOK(g, kinds) && !Owned(g, kinds, b)
    ensures NumbersOK(g, k) ==> !Owned(g, k, b)
  {
    hide Blk;
  }

  method DoRemove(part: Partition, d: u32, c: u32, kinds: map<u32, Kind>) returns (lost: bool, kinds': map<u32, Kind>)
    requires part.Valid() && Consistent(Snap(part), kinds)
    modifies part`disk, part`open, part.blockBitmap, part.blockBitmap.bits, part.inodeBitmap, part.inodeBitmap.bits
    ensures part.Valid()
    ensures Ended(Volume(old(Snap(part)), kinds), Remove(d, c), lost, Volume(Snap(part), kinds'))
  {
    hide Consistent, ChildOf, Gone, Childless, FilesKept, Recorded;
    ghost var g := Snap(part);
    SameRecorded(part, g);
    lost, kinds' := false, kinds;
    var there;
    ghost var p;
    there, p := FindChild(part, d, c, kinds);
    if !there || (kinds[c].DirKind? && c in part.open && part.open[c].openCnts >= 0xffff_fffe) {
      Refused(Volume(g, kinds), Remove(d, c));
      return;
    }
    assert HasChild(Volume(g, kinds), d, c);
    var r;
    if kinds[c].DirKind? {
      var wasOpen := c in part.open;
      r := RmDir(part, d, c, kinds, p);
      lost := r == 0 && wasOpen;
    } else {
      r := Unlink(part, d, c, kinds, p);
    }
    if r == 0 {
      kinds' := kinds - {c};
    }
  }

  // ---- Runs ----

  method DoOp(part: Partition, op: Op, kinds: map<u32, Kind>) returns (lost: bool, kinds': map<u32, Kind>)
    requires part.Valid() && Consistent(Snap(part), kinds)
    modifies part`disk, part`open, part.blockBitmap, part.blockBitmap.bits, part.inodeBitmap, part.inodeBitmap.bits
    ensures part.Valid()
    ensures Ended(Volume(old(Snap(part)), kinds), op, lost, Volume(Snap(part), kinds'))
  {
    hide Consistent, Ended;
    lost, kinds' := false, kinds;
    match op
    case OpenInode(no) =>
      DoOpen(part, no, kinds);
    case CloseInode(no) =>
      DoClose(part, no, kinds);
    case CreateFile(d, name) =>
      kinds' := DoCreate(part, d, name, kinds);
    case WriteFile(no, buf) =>
      lost := DoWrite(part, no, buf, kinds);
    case MakeDir(d, name) =>
      lost, kinds' := DoMakeDir(part, d, name, kinds);
    case Remove(d, c) =>
      lost, kinds' := DoRemove(part, d, c, kinds);
  }

  /** The volumes of a run that has carried out the first `n` operations and lost nothing. */
  ghost predicate SafeRun(vs: seq<Volume>, ops: seq<Op>, n: nat) {
    && |vs| == n + 1 && n <= |ops|
    && (forall i :: 0 <= i <= n ==> Consistent(vs[i].g, vs[i].kinds))
    && (forall i :: 0 <= i < n ==> !Loses(vs[i], ops[i]) && Did(vs[i], ops[i], vs[i + 1]))
    && (forall i :: 0 <= i < n ==> Recorded(vs[i].g, vs[i + 1].g, LateOf(vs[i], ops[i])))
  }

  /** The blocks whose bits a run has left to later writes. */
  ghost function LateIn(vs: seq<Volume>, ops: seq<Op>, n: nat): set<nat>
    requires n <= |vs| && n <= |ops|
  {
    if n == 0 then {} else LateIn(vs, ops, n - 1) + LateOf(vs[n - 1], ops[n - 1])
  }

  /** If the bit maps were on the disk before a run, they are after it, but for those bits. */
  lemma {:induction false} RunIsOnDisk(vs: seq<Volume>, ops: seq<Op>, n: nat, m: nat)
    requires SafeRun(vs, ops, n) && m <= n && OnDiskBut(vs[0].g, {})
    ensures OnDiskBut(vs[m].g, LateIn(vs, ops, m))
    ensures SamePlace(vs[0].g, vs[m].g) && forall k :: 0 <= k < MapLba(vs[0].g) ==> vs[m].g.disk[k] == vs[0].g.disk[k]
  {
    hide Consistent, Loses, Did, OnDiskBut, Recorded, LateOf;
    if m > 0 {
      RunIsOnDisk(vs, ops, n, m - 1);
      LateAddsUp(vs[m - 1].g, vs[m].g, LateIn(vs, ops, m - 1), LateOf(vs[m - 1], ops[m - 1]));
      HeadKept(vs[m - 1].g, vs[m].g, LateOf(vs[m - 1], ops[m - 1]));
    } else {
      OnDiskPlaced(vs[0].g);
    }
  }

  lemma OnDiskPlaced(g: Image)
    requires OnDiskBut(g, {})
    ensures SamePlace(g, g)
  {
  }

  lemma HeadKept(g: Image, g': Image, late: set<nat>)
    requires Recorded(g, g', late)
    ensures SamePlace(g, g') && forall k :: 0 <= k < MapLba(g) ==> g'.disk[k] == g.disk[k]
  {
    hide Saved, InodeSaved;
  }

  lemma SafeLonger(vs: seq<Volume>, ops: seq<Op>, n: nat, v: Volume)
    requires SafeRun(vs, ops, n) && n < |ops| && Ended(vs[n], ops[n], false, v)
    ensures SafeRun(vs + [v], ops, n + 1)
  {
    hide Consistent, Loses, Did, Recorded, LateOf;
  }

  /** Any operations, one after the other: the volume is consistent after each of them, until the first one
      that loses something. */
  method RunAll(part: Partition, ops: seq<Op>, kinds: map<u32, Kind>)
    returns (n: nat, kinds': map<u32, Kind>, ghost vs: seq<Volume>)
    requires part.Valid() && Consistent(Snap(part), kinds)
    modifies part`disk, part`open, part.blockBitmap, part.blockBitmap.bits, part.inodeBitmap, part.inodeBitmap.bits
    ensures part.Valid()
    ensures SafeRun(vs, ops, n) && vs[0] == Volume(old(Snap(part)), kinds)
    ensures n < |ops| ==> Loses(vs[n], ops[n]) && Recorded(vs[n].g, Snap(part), LateOf(vs[n], ops[n]))
    ensures n == |ops| ==> vs[n] == Volume(Snap(part), kinds') && Consistent(Snap(part), kinds')
  {
    hide Consistent, Loses, Did, Admitted, Recorded, LateOf;
    n, kinds', vs := 0, kinds, [Volume(Snap(part), kinds)];
    while n < |ops|
      invariant n <= |ops| && part.Valid()
      invariant SafeRun(vs, ops, n) && vs[0] == Volume(old(Snap(part)), kinds)
      invariant vs[n] == Volume(Snap(part), kinds')
    {
      var lost, next := DoOp(part, ops[n], kinds');
      if lost {
        return;
      }
      SafeLonger(vs, ops, n, Volume(Snap(part), next));
      vs := vs + [Volume(Snap(part), next)];
      n, kinds' := n + 1, next;
    }
  }

  /** The same from a partition that is formatted and mounted, if its size admits a consistent volume. */
  method RunFromFormat(disk: seq<Sector>, startLba: nat, secCnt: nat, pad: seq<byte>, behind: bv8, time: u64,
                       ops: seq<Op>)
    returns (part: Partition, n: nat, kinds: map<u32, Kind>, ghost vs: seq<Volume>)
    requires secCnt > META_SECTS && startLba + secCnt <= |disk| <= startLba + secCnt + 1
             && startLba + secCnt < 0x1000_0000
    requires DataLba(startLba, secCnt) < startLba + secCnt && |pad| == 460 && FitsFormatBuffer(secCnt)
    requires BitLen(secCnt) >= 8 && !TailReaches(startLba, secCnt, |disk|)
    requires BitmapSects(secCnt) < GuessSects(secCnt) || |disk| == startLba + secCnt + 1
    ensures fresh(part) && part.Valid()
    ensures SafeRun(vs, ops, n) && vs[0].kinds == ONLY_ROOT && vs[0].g.open == map[] && NewRoot(vs[0].g)
    ensures n < |ops| ==> Loses(vs[n], ops[n])
    ensures n == |ops| ==> vs[n] == Volume(Snap(part), kinds) && Consistent(Snap(part), kinds)
    ensures OnDiskBut(vs[0].g, {}) && HasSuperBlock(vs[0].g.disk, startLba, secCnt)
    ensures MapLba(vs[0].g) == startLba + 2 && vs[0].g.lba == TableLba(startLba, secCnt)
            && |vs[0].g.bits| == 4096 * BitmapSects(secCnt) && vs[0].g.ds == DataLba(startLba, secCnt)
            && |vs[0].g.disk| == |disk|
  {
    hide Consistent, Loses, SafeRun, TailReaches, GuessSects, BitLen, BitmapSects, FitsFormatBuffer, NewBits, NewRoot,
         OnDiskBut, HasSuperBlock;
    part := FormatAndMount(disk, startLba, secCnt, pad, behind, time, time, time);
    ghost var g := Snap(part);
    n, kinds, vs := RunAll(part, ops, ONLY_ROOT);
    RunLength(vs, ops, n);
  }

  /** A run from a new volume, after which the partition is mounted again from its disk. If no write has left the
      bit of a new table behind, the volume is the one that the run had, without open inodes, and consistent;
      otherwise it differs in such bits at most. */
  method RunAndMountAgain(disk: seq<Sector>, startLba: nat, secCnt: nat, pad: seq<byte>, behind: bv8, time: u64,
                          ops: seq<Op>)
    returns (part: Partition, again: Partition, n: nat, kinds: map<u32, Kind>, ghost vs: seq<Volume>)
    requires secCnt > META_SECTS && startLba + secCnt <= |disk| <= startLba + secCnt + 1
             && startLba + secCnt < 0x1000_0000
    requires DataLba(startLba, secCnt) < startLba + secCnt && |pad| == 460 && FitsFormatBuffer(secCnt)
    requires BitLen(secCnt) >= 8 && !TailReaches(startLba, secCnt, |disk|)
    requires BitmapSects(secCnt) < GuessSects(secCnt) || |disk| == startLba + secCnt + 1
    ensures fresh(part) && part.Valid() && fresh(again)
    ensures SafeRun(vs, ops, n) && vs[0].kinds == ONLY_ROOT && vs[0].g.open == map[] && NewRoot(vs[0].g)
    ensures n < |ops| ==> Loses(vs[n], ops[n])
    ensures n == |ops| ==> vs[n] == Volume(Snap(part), kinds)
    ensures n == |ops| ==>
              Snap(again) == Snap(part).(open := map[], bits := again.Bits()) && |again.Bits()| == |part.Bits()|
    ensures n == |ops| ==>
              forall i :: 0 <= i < |part.Bits()| && part.dataStartLba + i !in LateIn(vs, ops, n) ==>
                again.Bits()[i] == part.Bits()[i]
    ensures n == |ops| && LateIn(vs, ops, n) == {} ==>
              Snap(again) == Snap(part).(open := map[]) && Consistent(Snap(again), kinds)
  {
    hide Consistent, Loses, SafeRun, TailReaches, GuessSects, BitLen, BitmapSects, FitsFormatBuffer, NewBits, NewRoot,
         OnDiskBut, HasSuperBlock, LateIn;
    part, n, kinds, vs := RunFromFormat(disk, startLba, secCnt, pad, behind, time, ops);
    again := part;
    RunLength(vs, ops, n);
    if n == |ops| {
      RunIsOnDisk(vs, ops, n, n);
      SuperBlockKept(vs[0].g, vs[n].g, startLba, secCnt);
      again := MountPartition(part.disk, startLba, secCnt, behind);
      SameOnDisk(Snap(part), Snap(again), LateIn(vs, ops, n));
      AllClosed(Snap(part), kinds);
    }
  }

  lemma SuperBlockKept(g: Image, g': Image, startLba: nat, secCnt: nat)
    requires secCnt > META_SECTS && startLba + secCnt < 0x1000_0000 && HasSuperBlock(g.disk, startLba, secCnt)
    requires SamePlace(g, g') && MapLba(g) == startLba + 2
             && forall k :: 0 <= k < MapLba(g) ==> g'.disk[k] == g.disk[k]
    ensures HasSuperBlock(g'.disk, startLba, secCnt)
    ensures |g'.bits| == |g.bits| && |g'.disk| == |g.disk| && g'.ds == g.ds && g'.lba == g.lba
  {
    hide Words, SuperWords;
  }

  /** A volume of which no inode is open. */
  lemma AllClosed(g: Image, kinds: map<u32, Kind>)
    requires Consistent(g, kinds)
    ensures Consistent(g.(open := map[]), kinds)
  {
    hide StoreOK, NamesOK, Untouched, FlatI, I;
    var g' := g.(open := map[]);
    NumbersInRange(kinds, g);
    StoreSame(g, g', kinds, {});
    SameUntouched(g, g', kinds);
    forall m | m in kinds
      ensures I(g', m) == I(g, m) && FlatI(g', m) == FlatI(g, m)
    {
      UntouchedParts(g, g', m);
    }
    NamesKept(g, g', kinds);
  }

  lemma RunLength(vs: seq<Volume>, ops: seq<Op>, n: nat)
    requires SafeRun(vs, ops, n)
    ensures |vs| == n + 1 && n <= |ops|
  {
    hide Consistent, Loses, Did;
  }
}
