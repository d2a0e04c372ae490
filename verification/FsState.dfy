/** A whole volume at rest: which inodes exist, who owns each block, and how the directories refer to
    each other. `Consistent` is what every successful file system operation keeps. */
module FsState {
  import opened Bytes
  import opened Partitions
  import opened Images
  import opened BlockMap
  import opened InodeTable
  import opened DirMap

  /** What an inode is, and where a directory hangs in the tree. */
  datatype Kind = FileKind | DirKind(parent: u32, depth: nat)

  ghost predicate Geometry(g: Image) {
    HasTable(g.disk, g.lba) && g.lba + TABLE_SECTS <= g.ds && 0 < g.ds
  }

  /** The inode `no` as its record on the disk has it. */
  ghost function I(g: Image, no: u32): (i: Inode)
    requires Geometry(g) && no < MAX_FILES_PER_PART
    ensures |i.sectors| == 13
  {
    Loaded(g.disk, g.lba, no)
  }

  ghost function SlotsI(g: Image, no: u32): (s: seq<u32>)
    requires Geometry(g) && no < MAX_FILES_PER_PART
    ensures |s| == SLOTS
  {
    Slots(I(g, no).sectors, g.disk)
  }

  ghost function Blk(g: Image, no: u32): set<u32>
    requires Geometry(g) && no < MAX_FILES_PER_PART
  {
    BlocksOf(SlotsI(g, no))
  }

  ghost function FlatI(g: Image, no: u32): (f: seq<DirEntry>)
    requires Geometry(g) && no < MAX_FILES_PER_PART
    ensures |f| == FLAT
  {
    Flat(I(g, no).sectors, g.disk)
  }

  ghost function ContentI(g: Image, no: u32): seq<byte>
    requires Geometry(g) && no < MAX_FILES_PER_PART && I(g, no).size <= 512 * MAX_BLOCKS
  {
    Content(I(g, no).sectors, I(g, no).size, g.disk)
  }

  // ---- The invariant ----

  /** Exactly the inodes of `kinds` are allocated, their numbers survive `inode_sync`, and number 0 is
      the root directory. */
  ghost predicate NumbersOK(g: Image, kinds: map<u32, Kind>) {
    && |g.ibits| == MAX_FILES_PER_PART
    && (forall no :: no in kinds ==> no < 256)
    && (forall no: u32 :: no < MAX_FILES_PER_PART ==> (g.ibits[no] <==> no in kinds))
    && 0 in kinds && kinds[0] == DirKind(0, 0)
  }

  /** A record of inode `no` as `inode_sync` writes it. */
  predicate Clean(i: Inode, no: u32) {
    i.no == no && i.openCnts == 0 && !i.writeDeny
  }

  /** Every open inode is allocated and agrees with its record. */
  ghost predicate CacheOK(g: Image, kinds: map<u32, Kind>)
    requires Geometry(g)
  {
    && (forall no :: no in kinds && no < MAX_FILES_PER_PART ==> Clean(I(g, no), no))
    && (forall no :: no in g.open ==>
          && no in kinds && no < MAX_FILES_PER_PART
          && 1 <= g.open[no].openCnts < 0xffff_ffff
          && I(g, no) == Pure(g.open[no]))
  }

  ghost predicate ShapeOK(g: Image, no: u32, kind: Kind)
    requires Geometry(g) && no < MAX_FILES_PER_PART
  {
    if kind.FileKind? then FileShape(I(g, no).sectors, I(g, no).size, g.disk)
    else DirShape(I(g, no).sectors, I(g, no).size, g.disk)
  }

  /** Each inode has the shape of its kind, each of its slots names a block of its own, no block has
      two owners, and every set bit of the block bit map has one. `pending` are blocks that are set
      aside for an inode that does not have them yet. */
  ghost predicate StoreOK(g: Image, kinds: map<u32, Kind>, pending: set<u32>)
    requires Geometry(g)
  {
    && (forall no :: no in kinds ==> no < MAX_FILES_PER_PART)
    && PendingOK(g, pending)
    && (forall no :: no in kinds && no < MAX_FILES_PER_PART ==> InodeOK(g, no, kinds[no]) && Blk(g, no) !! pending)
    && NoSharing(g, kinds)
    && BitsOwned(g, kinds, pending)
  }

  /** Pending blocks are data blocks whose bits are set. */
  ghost predicate PendingOK(g: Image, pending: set<u32>) {
    forall b :: b in pending ==> g.ds <= b < |g.disk| && b - g.ds < |g.bits| && g.bits[b - g.ds]
  }

  /** A set bit stands for a pending block or for a block of some inode. */
  ghost predicate BitsOwned(g: Image, kinds: map<u32, Kind>, pending: set<u32>)
    requires Geometry(g)
  {
    forall i :: 0 <= i < |g.bits| && g.bits[i] && g.ds + i < |g.disk| ==>
      g.ds + i in pending || Owned(g, kinds, g.ds + i)
  }

  /** No block belongs to two inodes. */
  ghost predicate NoSharing(g: Image, kinds: map<u32, Kind>)
    requires Geometry(g)
  {
    forall m, n :: m in kinds && n in kinds && m < MAX_FILES_PER_PART && n < MAX_FILES_PER_PART && m != n ==>
      Blk(g, m) !! Blk(g, n)
  }

  ghost predicate InodeOK(g: Image, no: u32, kind: Kind)
    requires Geometry(g) && no < MAX_FILES_PER_PART
  {
    && ShapeOK(g, no, kind)
    && Owns(SlotsI(g, no), g.bits, g.ds, |g.disk|)
  }

  ghost predicate Owned(g: Image, kinds: map<u32, Kind>, b: nat)
    requires Geometry(g)
  {
    exists no :: no in kinds && no < MAX_FILES_PER_PART && b in Blk(g, no)
  }

  /** The first data block belongs to the root directory. */
  ghost predicate RootOK(g: Image)
    requires Geometry(g)
  {
    I(g, 0).sectors[0] == g.ds
  }

  /** Slot `p` of directory `d` refers to inode `c`. */
  ghost predicate ChildOf(g: Image, kinds: map<u32, Kind>, d: u32, p: nat, c: u32)
    requires Geometry(g)
  {
    && d in kinds && d < MAX_FILES_PER_PART && kinds[d].DirKind? && 2 <= p < FLAT
    && Live(FlatI(g, d)[p]) && FlatI(g, d)[p].ino == c
  }

  /** The directories form a tree: an entry refers to an existing inode of its type, every inode but
      the root is referred to once, and `.` and `..` name the directory and its parent. */
  ghost predicate NamesOK(g: Image, kinds: map<u32, Kind>)
    requires Geometry(g)
  {
    EntriesOK(g, kinds) && EntriesUnique(g, kinds) && AllEntered(g, kinds) && DotsOK(g, kinds)
  }

  ghost predicate EntriesOK(g: Image, kinds: map<u32, Kind>)
    requires Geometry(g)
  {
    forall d, p: nat, c :: ChildOf(g, kinds, d, p, c) ==> EntryOK(g, kinds, d, p, c)
  }

  ghost predicate EntriesUnique(g: Image, kinds: map<u32, Kind>)
    requires Geometry(g)
  {
    forall d, p: nat, d', p': nat, c :: ChildOf(g, kinds, d, p, c) && ChildOf(g, kinds, d', p', c) ==>
        d == d' && p == p'
  }

  ghost predicate AllEntered(g: Image, kinds: map<u32, Kind>)
    requires Geometry(g)
  {
    forall c :: c in kinds && c != 0 ==> HasEntry(g, kinds, c)
  }

  ghost predicate DotsOK(g: Image, kinds: map<u32, Kind>)
    requires Geometry(g)
  {
    forall d :: d in kinds && d < MAX_FILES_PER_PART && kinds[d].DirKind? ==>
      && FlatI(g, d)[0].ino == d && FlatI(g, d)[0].ftype == FT_DIRECTORY
      && FlatI(g, d)[1].ino == kinds[d].parent && FlatI(g, d)[1].ftype == FT_DIRECTORY
  }

  ghost predicate EntryOK(g: Image, kinds: map<u32, Kind>, d: u32, p: nat, c: u32)
    requires Geometry(g) && ChildOf(g, kinds, d, p, c)
  {
    && c in kinds && c != 0
    && FlatI(g, d)[p].ftype == (if kinds[c].DirKind? then FT_DIRECTORY else FT_REGULAR)
    && (kinds[c].DirKind? ==> kinds[c].parent == d && kinds[c].depth == kinds[d].depth + 1)
  }

  ghost predicate HasEntry(g: Image, kinds: map<u32, Kind>, c: u32)
    requires Geometry(g)
  {
    exists d, p: nat :: ChildOf(g, kinds, d, p, c)
  }

  ghost predicate Consistent(g: Image, kinds: map<u32, Kind>) {
    && Geometry(g) && NumbersOK(g, kinds) && CacheOK(g, kinds) && StoreOK(g, kinds, {})
    && RootOK(g) && NamesOK(g, kinds)
  }

  // ---- Inodes that an operation does not touch ----

  /** The inode, its map and the content of all its blocks are the same in both images. */
  ghost predicate Untouched(g: Image, g': Image, m: u32)
    requires Geometry(g) && Geometry(g') && m < MAX_FILES_PER_PART
  {
    && I(g', m) == I(g, m)
    && SlotsI(g', m) == SlotsI(g, m)
    && FlatI(g', m) == FlatI(g, m)
    && forall b :: b in Blk(g, m) && b < |g.disk| ==> b < |g'.disk| && g'.disk[b] == g.disk[b]
  }

  lemma UntouchedBy(g: Image, g': Image, m: u32, touched: set<u32>)
    requires Geometry(g) && Geometry(g') && m < MAX_FILES_PER_PART && g'.lba == g.lba && g'.ds == g.ds
    requires Record(g'.disk, g.lba, m) == Record(g.disk, g.lba, m)
    requires DataKept(g.disk, g'.disk, g.ds, touched)
    requires Blk(g, m) !! touched && forall b :: b in Blk(g, m) ==> g.ds <= b < |g.disk|
    ensures Untouched(g, g', m)
  {
    LoadedSame(g.disk, g'.disk, g.lba, m);
    var sec := I(g, m).sectors;
    assert Slots(sec, g.disk)[TABLE_SLOT] == sec[TABLE];
    assert sec[TABLE] != 0 ==> sec[TABLE] in Blk(g, m);
    SlotsKept(sec, g.disk, g'.disk);
    forall p | 0 <= p < FLAT
      ensures SlotAt(sec, g'.disk, p) == SlotAt(sec, g.disk, p)
    {
      assert Slots(sec, g.disk)[p / 21] == sec[p / 21];
      assert sec[p / 21] != 0 ==> sec[p / 21] in Blk(g, m);
    }
    assert Flat(sec, g'.disk) == Flat(sec, g.disk);
  }

  /** So its shape and its content are the same, too. */
  lemma UntouchedShape(g: Image, g': Image, m: u32, kind: Kind)
    requires Geometry(g) && Geometry(g') && m < MAX_FILES_PER_PART && Untouched(g, g', m)
    ensures ShapeOK(g', m, kind) == ShapeOK(g, m, kind)
  {
  }

  lemma UntouchedContent(g: Image, g': Image, m: u32)
    requires Geometry(g) && Geometry(g') && m < MAX_FILES_PER_PART && Untouched(g, g', m) && |g'.disk| == |g.disk|
    requires ShapeOK(g, m, FileKind)
    ensures ContentI(g', m) == ContentI(g, m)
  {
    ContentKept(I(g, m).sectors, I(g, m).size, g.disk, g'.disk);
  }

  /** The files outside `x` have the same content. */
  ghost predicate FilesKept(g: Image, g': Image, kinds: map<u32, Kind>, x: set<u32>) {
    Geometry(g) && Geometry(g') && forall m :: m in kinds && m !in x && kinds[m] == FileKind ==> SameContent(g, g', m)
  }

  ghost predicate SameContent(g: Image, g': Image, m: u32)
    requires Geometry(g) && Geometry(g')
  {
    && m < MAX_FILES_PER_PART && I(g, m).size <= 512 * MAX_BLOCKS && I(g', m).size <= 512 * MAX_BLOCKS
    && ContentI(g', m) == ContentI(g, m)
  }

  lemma UntouchedFiles(g: Image, g': Image, kinds: map<u32, Kind>, x: set<u32>)
    requires Geometry(g) && Geometry(g') && |g'.disk| == |g.disk|
    requires forall m :: m in kinds && m !in x ==> m < MAX_FILES_PER_PART && Untouched(g, g', m)
    requires StoreOK(g, kinds, {})
    ensures FilesKept(g, g', kinds, x)
  {
    hide Untouched, ShapeOK, StoreOK, ContentI;
    forall m | m in kinds && m !in x && kinds[m] == FileKind
      ensures SameContent(g, g', m)
    {
      ShapeOf(g, kinds, m);
      UntouchedContent(g, g', m);
      FileSizes(g, g', m);
    }
  }

  lemma ShapeOf(g: Image, kinds: map<u32, Kind>, m: u32)
    requires Geometry(g) && m in kinds && StoreOK(g, kinds, {})
    ensures m < MAX_FILES_PER_PART && ShapeOK(g, m, kinds[m])
  {
    assert m < MAX_FILES_PER_PART;
    assert InodeOK(g, m, kinds[m]);
  }

  lemma FileSizes(g: Image, g': Image, m: u32)
    requires Geometry(g) && Geometry(g') && m < MAX_FILES_PER_PART && ShapeOK(g, m, FileKind) && Untouched(g, g', m)
    ensures I(g, m).size <= 512 * MAX_BLOCKS && I(g', m).size <= 512 * MAX_BLOCKS
  {
  }

  // ---- Steps that change one inode ----

  /** The blocks of `x` in `g`, none if it does not exist. */
  ghost function BlkOr(g: Image, kinds: map<u32, Kind>, x: u32): set<u32>
    requires Geometry(g) && x < MAX_FILES_PER_PART
  {
    if x in kinds then Blk(g, x) else {}
  }

  /** From `g` to `g'` only inode `x` and the sectors in `touched` have changed. */
  ghost predicate ChangesOnly(g: Image, g': Image, kinds: map<u32, Kind>, kinds': map<u32, Kind>, x: u32,
                              touched: set<u32>)
    requires Geometry(g) && Geometry(g')
  {
    && x < MAX_FILES_PER_PART
    && g'.lba == g.lba && g'.ds == g.ds && |g'.disk| == |g.disk| && |g'.bits| == |g.bits|
    && (forall m :: m in kinds && m != x ==> m in kinds' && kinds'[m] == kinds[m])
    && (forall m :: m in kinds' && m != x ==> m in kinds)
    && (forall m :: m in kinds && m != x && m < MAX_FILES_PER_PART ==>
          Record(g'.disk, g.lba, m) == Record(g.disk, g.lba, m) && Blk(g, m) !! touched)
    && DataKept(g.disk, g'.disk, g.ds, touched)
  }

  /** How the bits follow the blocks of `x` and the pending blocks, when the others keep theirs. */
  ghost predicate BitsFollow(g: Image, g': Image, b0: set<u32>, b1: set<u32>, q: set<u32>, q': set<u32>)
    requires |g'.bits| == |g.bits|
  {
    forall i :: 0 <= i < |g.bits| ==>
      && (g.bits[i] && g.ds + i !in b0 && g.ds + i !in q ==> g'.bits[i])
      && (g'.bits[i] && g.ds + i !in b1 && g.ds + i !in q' ==> g.bits[i] && g.ds + i !in b0 && g.ds + i !in q)
  }

  lemma OthersUntouched(g: Image, g': Image, kinds: map<u32, Kind>, kinds': map<u32, Kind>, x: u32, q: set<u32>,
                        touched: set<u32>, m: u32)
    requires Geometry(g) && Geometry(g') && StoreOK(g, kinds, q) && ChangesOnly(g, g', kinds, kinds', x, touched)
    requires m in kinds && m != x
    ensures m < MAX_FILES_PER_PART && Untouched(g, g', m) && Blk(g', m) == Blk(g, m)
  {
    BlocksAreData(SlotsI(g, m), g.bits, g.ds, |g.disk|);
    UntouchedBy(g, g', m, touched);
  }

  lemma OwnsFollows(slots: seq<u32>, bits: seq<bool>, bits': seq<bool>, ds: nat, limit: nat)
    requires Owns(slots, bits, ds, limit) && |bits'| == |bits|
    requires forall b :: b in BlocksOf(slots) && ds <= b && b - ds < |bits| && bits[b - ds] ==> bits'[b - ds]
    ensures Owns(slots, bits', ds, limit)
  {
    forall k | 0 <= k < |slots| && slots[k] != 0
      ensures bits'[slots[k] - ds]
    {
      assert slots[k] in BlocksOf(slots);
    }
  }

  lemma StoreStep(g: Image, g': Image, kinds: map<u32, Kind>, kinds': map<u32, Kind>, x: u32,
                  q: set<u32>, q': set<u32>, touched: set<u32>)
    requires Geometry(g) && Geometry(g') && StoreOK(g, kinds, q) && ChangesOnly(g, g', kinds, kinds', x, touched)
    requires BitsFollow(g, g', BlkOr(g, kinds, x), BlkOr(g', kinds', x), q, q')
    requires x in kinds' ==> InodeOK(g', x, kinds'[x])
    requires BlkOr(g', kinds', x) !! q'
    requires forall m :: m in kinds && m != x && m < MAX_FILES_PER_PART ==>
               Blk(g, m) !! BlkOr(g', kinds', x) && Blk(g, m) !! q'
    requires PendingOK(g', q')
    ensures StoreOK(g', kinds', q')
  {
    assert NoSharing(g, kinds);
    hide Geometry, InodeOK, Blk, BitsFollow, Owned, StoreOK, ChangesOnly, BlkOr, NoSharing, PendingOK, BitsOwned;
    ChangedKinds(g, g', kinds, kinds', x, touched);
    forall m | m in kinds && m != x
      ensures m < MAX_FILES_PER_PART && Blk(g', m) == Blk(g, m) && InodeOK(g', m, kinds[m])
      ensures m in kinds' && kinds'[m] == kinds[m]
    {
      OtherInodeOK(g, g', kinds, kinds', x, q, q', touched, m);
    }
    BitsOwnedAfter(g, g', kinds, kinds', x, q, q');
    NoSharingAfter(g, g', kinds, kinds', x);
    StoreIntro(g', kinds', x, q');
  }

  lemma ChangedKinds(g: Image, g': Image, kinds: map<u32, Kind>, kinds': map<u32, Kind>, x: u32, touched: set<u32>)
    requires Geometry(g) && Geometry(g') && ChangesOnly(g, g', kinds, kinds', x, touched)
    ensures x < MAX_FILES_PER_PART && forall m :: m in kinds' && m != x ==> m in kinds
    ensures g'.ds == g.ds && |g'.disk| == |g.disk| && |g'.bits| == |g.bits|
    ensures forall m :: m in kinds && m != x ==> m in kinds' && kinds'[m] == kinds[m]
  {
    hide Geometry, Blk, Record, DataKept;
  }

  /** The others keep their blocks, and those of `x` are its own. */
  lemma NoSharingAfter(g: Image, g': Image, kinds: map<u32, Kind>, kinds': map<u32, Kind>, x: u32)
    requires Geometry(g) && Geometry(g') && x < MAX_FILES_PER_PART && NoSharing(g, kinds)
    requires forall m :: m in kinds' && m != x && m < MAX_FILES_PER_PART ==>
               m in kinds && Blk(g', m) == Blk(g, m) && Blk(g, m) !! BlkOr(g', kinds', x)
    ensures NoSharing(g', kinds')
  {
    hide Geometry, Blk;
  }

  /** The parts of `StoreOK` after a change of inode `x`. */
  lemma StoreIntro(g: Image, kinds: map<u32, Kind>, x: u32, q: set<u32>)
    requires Geometry(g) && x < MAX_FILES_PER_PART && NoSharing(g, kinds)
    requires forall m :: m in kinds && m != x ==> m < MAX_FILES_PER_PART && InodeOK(g, m, kinds[m]) && Blk(g, m) !! q
    requires x in kinds ==> InodeOK(g, x, kinds[x])
    requires BlkOr(g, kinds, x) !! q
    requires PendingOK(g, q) && BitsOwned(g, kinds, q)
    ensures StoreOK(g, kinds, q)
  {
    hide Geometry, InodeOK, Blk, Owned, NoSharing, PendingOK, BitsOwned;
  }

  lemma BitsOwnedAfter(g: Image, g': Image, kinds: map<u32, Kind>, kinds': map<u32, Kind>, x: u32, q: set<u32>,
                       q': set<u32>)
    requires Geometry(g) && Geometry(g') && StoreOK(g, kinds, q) && x < MAX_FILES_PER_PART
    requires g'.ds == g.ds && |g'.bits| == |g.bits| && |g'.disk| == |g.disk|
    requires BitsFollow(g, g', BlkOr(g, kinds, x), BlkOr(g', kinds', x), q, q')
    requires forall m :: m in kinds && m != x && m < MAX_FILES_PER_PART ==> m in kinds' && Blk(g', m) == Blk(g, m)
    ensures BitsOwned(g', kinds', q')
  {
    hide Geometry, InodeOK, Blk, StoreOK, Owned, BitsFollow;
    forall i | 0 <= i < |g'.bits| && g'.bits[i] && g'.ds + i < |g'.disk|
      ensures g'.ds + i in q' || Owned(g', kinds', g'.ds + i)
    {
      OwnedAfter(g, g', kinds, kinds', x, q, q', i);
    }
  }

  lemma OwnedAfter(g: Image, g': Image, kinds: map<u32, Kind>, kinds': map<u32, Kind>, x: u32, q: set<u32>,
                   q': set<u32>, i: nat)
    requires Geometry(g) && Geometry(g') && StoreOK(g, kinds, q) && x < MAX_FILES_PER_PART && |g'.bits| == |g.bits|
    requires BitsFollow(g, g', BlkOr(g, kinds, x), BlkOr(g', kinds', x), q, q')
    requires forall m :: m in kinds && m != x && m < MAX_FILES_PER_PART ==> m in kinds' && Blk(g', m) == Blk(g, m)
    requires i < |g.bits| && g'.bits[i] && g.ds + i < |g.disk|
    ensures g.ds + i in q' || Owned(g', kinds', g.ds + i)
  {
    hide Geometry, InodeOK, Blk;
    var b := g.ds + i;
    if b !in q' {
      if b in BlkOr(g', kinds', x) {
        assert x in kinds' && b in Blk(g', x);
      } else {
        assert Owned(g, kinds, b);
        var m :| m in kinds && m < MAX_FILES_PER_PART && b in Blk(g, m);
        assert m != x;
        assert b in Blk(g', m);
      }
    }
  }

  lemma OtherInodeOK(g: Image, g': Image, kinds: map<u32, Kind>, kinds': map<u32, Kind>, x: u32,
                     q: set<u32>, q': set<u32>, touched: set<u32>, m: u32)
    requires Geometry(g) && Geometry(g') && StoreOK(g, kinds, q) && ChangesOnly(g, g', kinds, kinds', x, touched)
    requires BitsFollow(g, g', BlkOr(g, kinds, x), BlkOr(g', kinds', x), q, q')
    requires m in kinds && m != x
    ensures m < MAX_FILES_PER_PART && Blk(g', m) == Blk(g, m) && InodeOK(g', m, kinds[m])
    ensures m in kinds' && kinds'[m] == kinds[m]
  {
    hide Owns, BlocksOf, DataKept, ShapeOK;
    OthersUntouched(g, g', kinds, kinds', x, q, touched, m);
    UntouchedShape(g, g', m, kinds[m]);
    OtherOwns(g, g', kinds, kinds', x, q, q', m);
  }

  lemma OtherOwns(g: Image, g': Image, kinds: map<u32, Kind>, kinds': map<u32, Kind>, x: u32, q: set<u32>,
                  q': set<u32>, m: u32)
    requires Geometry(g) && Geometry(g') && StoreOK(g, kinds, q) && x < MAX_FILES_PER_PART
    requires |g'.bits| == |g.bits| && |g'.disk| == |g.disk| && g'.ds == g.ds
    requires BitsFollow(g, g', BlkOr(g, kinds, x), BlkOr(g', kinds', x), q, q')
    requires m in kinds && m != x && m < MAX_FILES_PER_PART && SlotsI(g', m) == SlotsI(g, m)
    ensures Owns(SlotsI(g', m), g'.bits, g'.ds, |g'.disk|)
  {
    hide Geometry, Owns, BlocksOf, ShapeOK, SlotsI;
    var slots := SlotsI(g, m);
    forall b | b in BlocksOf(slots) && g.ds <= b && b - g.ds < |g.bits| && g.bits[b - g.ds]
      ensures g'.bits[b - g.ds]
    {
      assert b in Blk(g, m);
      assert g.ds + (b - g.ds) == b;
    }
    OwnsFollows(slots, g.bits, g'.bits, g.ds, |g.disk|);
  }

  // ---- The tree ----

  /** The child relation of `g'` is that of `g` with `(d, p, c)` added. */
  ghost predicate ChildAdded(g: Image, g': Image, kinds: map<u32, Kind>, kinds': map<u32, Kind>, d: u32, p: nat, c: u32)
    requires Geometry(g) && Geometry(g')
  {
    forall d', p': nat, c' :: ChildOf(g', kinds', d', p', c') <==>
      (d' == d && p' == p && c' == c) || ChildOf(g, kinds, d', p', c')
  }

  /** The child relation of `g'` is that of `g` without the child `c`. */
  ghost predicate ChildRemoved(g: Image, g': Image, kinds: map<u32, Kind>, kinds': map<u32, Kind>, c: u32)
    requires Geometry(g) && Geometry(g')
  {
    forall d', p': nat, c' :: ChildOf(g', kinds', d', p', c') <==> ChildOf(g, kinds, d', p', c') && c' != c
  }

  lemma NewInodeHasNoEntry(g: Image, kinds: map<u32, Kind>, c: u32)
    requires Geometry(g) && EntriesOK(g, kinds) && c !in kinds
    ensures forall d, p: nat :: !ChildOf(g, kinds, d, p, c)
  {
    forall d, p: nat
      ensures !ChildOf(g, kinds, d, p, c)
    {
      assert ChildOf(g, kinds, d, p, c) ==> EntryOK(g, kinds, d, p, c);
    }
  }

  lemma UniqueAfterAdd(g: Image, g': Image, kinds: map<u32, Kind>, kinds': map<u32, Kind>, d: u32, p: nat, c: u32)
    requires Geometry(g) && Geometry(g') && EntriesUnique(g, kinds) && ChildAdded(g, g', kinds, kinds', d, p, c)
    requires forall d', p': nat :: !ChildOf(g, kinds, d', p', c)
    ensures EntriesUnique(g', kinds')
  {
    hide Geometry, ChildOf;
  }

  lemma EnteredAfterAdd(g: Image, g': Image, kinds: map<u32, Kind>, kinds': map<u32, Kind>, d: u32, p: nat, c: u32)
    requires Geometry(g) && Geometry(g') && AllEntered(g, kinds) && ChildAdded(g, g', kinds, kinds', d, p, c)
    requires forall m :: m in kinds' ==> m == c || m in kinds
    ensures AllEntered(g', kinds')
  {
    hide Geometry, ChildOf;
    forall c' | c' in kinds' && c' != 0
      ensures HasEntry(g', kinds', c')
    {
      if c' == c {
        assert ChildOf(g', kinds', d, p, c);
      } else {
        assert HasEntry(g, kinds, c');
        var d', p': nat :| ChildOf(g, kinds, d', p', c');
        assert ChildOf(g', kinds', d', p', c');
      }
    }
  }

  lemma EnteredAfterRemove(g: Image, g': Image, kinds: map<u32, Kind>, kinds': map<u32, Kind>, c: u32)
    requires Geometry(g) && Geometry(g') && AllEntered(g, kinds) && ChildRemoved(g, g', kinds, kinds', c)
    requires forall m :: m in kinds' ==> m != c && m in kinds
    ensures AllEntered(g', kinds')
  {
    hide Geometry, ChildOf;
    forall c' | c' in kinds' && c' != 0
      ensures HasEntry(g', kinds', c')
    {
      assert HasEntry(g, kinds, c');
      var d', p': nat :| ChildOf(g, kinds, d', p', c');
      assert ChildOf(g', kinds', d', p', c');
    }
  }

  /** A new inode `c` of this kind was entered at the free slot `p` of directory `d`. */
  lemma NamesAfterInsert(g: Image, g': Image, kinds: map<u32, Kind>, c: u32, kind: Kind, d: u32, p: nat, e: DirEntry)
    requires Geometry(g) && Geometry(g') && NamesOK(g, kinds)
    requires c !in kinds && c != 0 && c < MAX_FILES_PER_PART
    requires d in kinds && d < MAX_FILES_PER_PART && kinds[d].DirKind? && 2 <= p < FLAT && !Live(FlatI(g, d)[p])
    requires Live(e) && e.ino == c && e.ftype == if kind.DirKind? then FT_DIRECTORY else FT_REGULAR
    requires kind.DirKind? ==> kind.parent == d && kind.depth == kinds[d].depth + 1
    requires FlatI(g', d) == FlatI(g, d)[p := e]
    requires forall m :: m in kinds && m < MAX_FILES_PER_PART && m != d && kinds[m].DirKind? ==>
               FlatI(g', m) == FlatI(g, m)
    requires kind.DirKind? ==> FlatI(g', c)[0].ino == c && FlatI(g', c)[1].ino == d
                               && FlatI(g', c)[0].ftype == FT_DIRECTORY && FlatI(g', c)[1].ftype == FT_DIRECTORY
                               && forall q :: 2 <= q < FLAT ==> !Live(FlatI(g', c)[q])
    ensures NamesOK(g', kinds[c := kind])
  {
    hide Geometry, FlatI, I, EntriesOK, EntriesUnique, AllEntered, ChildAdded, ChildOf, DotsOK;
    var kinds' := kinds[c := kind];
    DotsAfterAdd(g, g', kinds, c, kind, d, p, e);
    InsertedChildren(g, g', kinds, c, kind, d, p, e);
    NewInodeHasNoEntry(g, kinds, c);
    UniqueAfterAdd(g, g', kinds, kinds', d, p, c);
    EnteredAfterAdd(g, g', kinds, kinds', d, p, c);
    EntriesAfterAdd(g, g', kinds, c, kind, d, p, e);
  }

  lemma DotsAfterAdd(g: Image, g': Image, kinds: map<u32, Kind>, c: u32, kind: Kind, d: u32, p: nat, e: DirEntry)
    requires Geometry(g) && Geometry(g') && DotsOK(g, kinds) && c !in kinds && 2 <= p < FLAT
    requires d in kinds && d < MAX_FILES_PER_PART && FlatI(g', d) == FlatI(g, d)[p := e]
    requires forall m :: m in kinds && m < MAX_FILES_PER_PART && m != d && kinds[m].DirKind? ==>
               FlatI(g', m) == FlatI(g, m)
    requires c < MAX_FILES_PER_PART
             && (kind.DirKind? ==> FlatI(g', c)[0].ino == c && FlatI(g', c)[1].ino == kind.parent)
    requires kind.DirKind? ==> FlatI(g', c)[0].ftype == FT_DIRECTORY && FlatI(g', c)[1].ftype == FT_DIRECTORY
    ensures DotsOK(g', kinds[c := kind])
  {
    hide Geometry, FlatI, I;
  }

  lemma EntriesAfterAdd(g: Image, g': Image, kinds: map<u32, Kind>, c: u32, kind: Kind, d: u32, p: nat, e: DirEntry)
    requires Geometry(g) && Geometry(g') && EntriesOK(g, kinds) && ChildAdded(g, g', kinds, kinds[c := kind], d, p, c)
    requires c !in kinds && c != 0 && d in kinds && d < MAX_FILES_PER_PART && kinds[d].DirKind? && p < FLAT
    requires !Live(FlatI(g, d)[p])
    requires e.ftype == if kind.DirKind? then FT_DIRECTORY else FT_REGULAR
    requires kind.DirKind? ==> kind.parent == d && kind.depth == kinds[d].depth + 1
    requires FlatI(g', d) == FlatI(g, d)[p := e]
    requires forall m :: m in kinds && m < MAX_FILES_PER_PART && m != d && kinds[m].DirKind? ==>
               FlatI(g', m) == FlatI(g, m)
    ensures EntriesOK(g', kinds[c := kind])
  {
    hide Geometry, FlatI, I;
    var kinds' := kinds[c := kind];
    forall d', p': nat, c' | ChildOf(g', kinds', d', p', c')
      ensures EntryOK(g', kinds', d', p', c')
    {
      if ChildOf(g, kinds, d', p', c') {
        assert EntryOK(g, kinds, d', p', c');
      }
    }
  }

  lemma InsertedChildren(g: Image, g': Image, kinds: map<u32, Kind>, c: u32, kind: Kind, d: u32, p: nat, e: DirEntry)
    requires Geometry(g) && Geometry(g')
    requires c !in kinds && c < MAX_FILES_PER_PART
    requires d in kinds && d < MAX_FILES_PER_PART && kinds[d].DirKind? && 2 <= p < FLAT && !Live(FlatI(g, d)[p])
    requires Live(e) && e.ino == c
    requires FlatI(g', d) == FlatI(g, d)[p := e]
    requires forall m :: m in kinds && m < MAX_FILES_PER_PART && m != d && kinds[m].DirKind? ==>
               FlatI(g', m) == FlatI(g, m)
    requires kind.DirKind? ==> forall q :: 2 <= q < FLAT ==> !Live(FlatI(g', c)[q])
    ensures ChildAdded(g, g', kinds, kinds[c := kind], d, p, c)
  {
    hide Geometry, FlatI, I;
    forall d', p': nat, c'
      ensures ChildOf(g', kinds[c := kind], d', p', c') <==>
              (d' == d && p' == p && c' == c) || ChildOf(g, kinds, d', p', c')
    {
      if d' == c {
        assert !ChildOf(g, kinds, d', p', c');
      } else if d' == d && p' < FLAT {
        assert FlatI(g', d)[p'] == if p' == p then e else FlatI(g, d)[p'];
      }
    }
  }

  /** The inode `c`, which is no directory with children, was removed from slot `p` of directory `d`. */
  lemma NamesAfterRemove(g: Image, g': Image, kinds: map<u32, Kind>, c: u32, d: u32, p: nat)
    requires Geometry(g) && Geometry(g') && NamesOK(g, kinds)
    requires ChildOf(g, kinds, d, p, c) && c != d
    requires forall q: nat, c' :: !ChildOf(g, kinds, c, q, c')
    requires FlatI(g', d) == FlatI(g, d)[p := NO_ENTRY]
    requires forall m :: m in kinds && m < MAX_FILES_PER_PART && m != d && m != c && kinds[m].DirKind? ==>
               FlatI(g', m) == FlatI(g, m)
    ensures NamesOK(g', kinds - {c})
  {
    hide Geometry, FlatI, I, EntriesOK, EntriesUnique, AllEntered, ChildRemoved, DotsOK;
    var kinds' := kinds - {c};
    RemovedChildren(g, g', kinds, c, d, p);
    EnteredAfterRemove(g, g', kinds, kinds', c);
    UniqueAfterRemove(g, g', kinds, kinds', c);
    EntriesAfterRemove(g, g', kinds, c, d, p);
    DotsAfterRemove(g, g', kinds, c, d, p);
  }

  lemma UniqueAfterRemove(g: Image, g': Image, kinds: map<u32, Kind>, kinds': map<u32, Kind>, c: u32)
    requires Geometry(g) && Geometry(g') && EntriesUnique(g, kinds) && ChildRemoved(g, g', kinds, kinds', c)
    ensures EntriesUnique(g', kinds')
  {
    hide Geometry, ChildOf;
  }

  lemma EntriesAfterRemove(g: Image, g': Image, kinds: map<u32, Kind>, c: u32, d: u32, p: nat)
    requires Geometry(g) && Geometry(g') && EntriesOK(g, kinds) && ChildRemoved(g, g', kinds, kinds - {c}, c)
    requires 2 <= p < FLAT && d < MAX_FILES_PER_PART && FlatI(g', d) == FlatI(g, d)[p := NO_ENTRY]
    requires forall m :: m in kinds && m < MAX_FILES_PER_PART && m != d && m != c && kinds[m].DirKind? ==>
               FlatI(g', m) == FlatI(g, m)
    ensures EntriesOK(g', kinds - {c})
  {
    hide Geometry, FlatI, I;
    forall d', p': nat, c' | ChildOf(g', kinds - {c}, d', p', c')
      ensures EntryOK(g', kinds - {c}, d', p', c')
    {
      assert ChildOf(g, kinds, d', p', c') && c' != c;
      assert EntryOK(g, kinds, d', p', c');
    }
  }

  lemma DotsAfterRemove(g: Image, g': Image, kinds: map<u32, Kind>, c: u32, d: u32, p: nat)
    requires Geometry(g) && Geometry(g') && DotsOK(g, kinds) && 2 <= p < FLAT && d < MAX_FILES_PER_PART
    requires FlatI(g', d) == FlatI(g, d)[p := NO_ENTRY]
    requires forall m :: m in kinds && m < MAX_FILES_PER_PART && m != d && m != c && kinds[m].DirKind? ==>
               FlatI(g', m) == FlatI(g, m)
    ensures DotsOK(g', kinds - {c})
  {
    hide Geometry, FlatI, I;
  }

  lemma RemovedChildren(g: Image, g': Image, kinds: map<u32, Kind>, c: u32, d: u32, p: nat)
    requires Geometry(g) && Geometry(g')
    requires ChildOf(g, kinds, d, p, c) && c != d && EntriesUnique(g, kinds)
    requires forall q: nat, c' :: !ChildOf(g, kinds, c, q, c')
    requires FlatI(g', d) == FlatI(g, d)[p := NO_ENTRY]
    requires forall m :: m in kinds && m < MAX_FILES_PER_PART && m != d && m != c && kinds[m].DirKind? ==>
               FlatI(g', m) == FlatI(g, m)
    ensures ChildRemoved(g, g', kinds, kinds - {c}, c)
  {
    hide Geometry, FlatI, I;
    forall d', p': nat, c'
      ensures ChildOf(g', kinds - {c}, d', p', c') <==> ChildOf(g, kinds, d', p', c') && c' != c
    {
      if d' == d && p' < FLAT {
        assert FlatI(g', d)[p'] == if p' == p then NO_ENTRY else FlatI(g, d)[p'];
      }
    }
  }

  lemma NamesKept(g: Image, g': Image, kinds: map<u32, Kind>)
    requires Geometry(g) && Geometry(g') && NamesOK(g, kinds)
    requires forall m :: m in kinds && m < MAX_FILES_PER_PART && kinds[m].DirKind? ==> FlatI(g', m) == FlatI(g, m)
    ensures NamesOK(g', kinds)
  {
    forall d, p: nat, c
      ensures ChildOf(g', kinds, d, p, c) == ChildOf(g, kinds, d, p, c)
      ensures ChildOf(g', kinds, d, p, c) ==> EntryOK(g', kinds, d, p, c)
    {
      assert ChildOf(g, kinds, d, p, c) ==> EntryOK(g, kinds, d, p, c);
    }
    forall c | c in kinds && c != 0
      ensures HasEntry(g', kinds, c)
    {
      assert HasEntry(g, kinds, c);
      var d, p: nat :| ChildOf(g, kinds, d, p, c);
      assert ChildOf(g', kinds, d, p, c);
    }
  }
}
