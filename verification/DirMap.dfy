/** What the sectors of a directory mean: 12 direct blocks of 21 slots each, 24 bytes a slot. */
module DirMap {
  import opened Bytes
  import opened Partitions
  import opened BlockMap

  const ENTRY_SIZE: nat := 24
  const ENTRIES_PER_SEC: nat := 21
  const FLAT: nat := 252

  /** `struct dir_entry`. */
  datatype DirEntry = DirEntry(filename: seq<byte>, ino: u32, ftype: u32)

  const FT_UNKNOWN: u32 := 0
  const FT_REGULAR: u32 := 1
  const FT_DIRECTORY: u32 := 2

  const NO_NAME: seq<byte> := [0, 0, 0, 0, 0, 0, 0, 0, 0, 0, 0, 0, 0, 0, 0, 0]
  const NO_ENTRY: DirEntry := DirEntry(NO_NAME, 0, FT_UNKNOWN)

  predicate Live(e: DirEntry) {
    e.ftype != FT_UNKNOWN
  }

  /** `strcmp(filename, ".") == 0`, and the same for `".."`. */
  predicate IsDot(e: DirEntry) {
    |e.filename| == 16 && e.filename[0] == 46 && e.filename[1] == 0
  }

  predicate IsDotDot(e: DirEntry) {
    |e.filename| == 16 && e.filename[0] == 46 && e.filename[1] == 46 && e.filename[2] == 0
  }

  /** A live entry that is neither `.` nor `..`. */
  predicate Child(e: DirEntry) {
    Live(e) && !IsDot(e) && !IsDotDot(e)
  }

  function EncodeEntry(e: DirEntry): (s: seq<byte>)
    requires |e.filename| == 16
    ensures |s| == ENTRY_SIZE
  {
    e.filename + WordBytes(e.ino) + WordBytes(e.ftype)
  }

  /** Slot `j` of a directory block. */
  function EntryAt(s: Sector, j: nat): (e: DirEntry)
    requires j < ENTRIES_PER_SEC
    ensures |e.filename| == 16
  {
    DirEntry(s[24 * j..24 * j + 16], WordAt(s, 24 * j + 16), WordAt(s, 24 * j + 20))
  }

  lemma WordMoved(s: seq<byte>, t: seq<byte>, i: nat, j: nat)
    requires i + 4 <= |s| && j + 4 <= |t|
    requires forall k {:trigger s[k]} :: i <= k < i + 4 ==> s[k] == t[k - i + j]
    ensures WordAt(s, i) == WordAt(t, j)
  {
    assert s[i] == t[j] && s[i + 1] == t[j + 1] && s[i + 2] == t[j + 2] && s[i + 3] == t[j + 3];
  }

  /** Where the fields of `struct dir_entry` lie. */
  lemma EntryLayout(e: DirEntry)
    requires |e.filename| == 16
    ensures var s := EncodeEntry(e);
            s[..16] == e.filename && WordAt(s, 16) == e.ino && WordAt(s, 20) == e.ftype
  {
    var s := EncodeEntry(e);
    WordMoved(s, WordBytes(e.ino), 16, 0);
    WordMoved(s, WordBytes(e.ftype), 20, 0);
    WordOfBytes(e.ino);
    WordOfBytes(e.ftype);
  }

  lemma EntryWritten(s: Sector, j: nat, e: DirEntry)
    requires j < ENTRIES_PER_SEC && |e.filename| == 16
    ensures EntryAt(Splice(s, 24 * j, EncodeEntry(e)), j) == e
  {
    var t := Splice(s, 24 * j, EncodeEntry(e));
    assert t[24 * j..24 * j + 16] == e.filename;
    WordMoved(t, WordBytes(e.ino), 24 * j + 16, 0);
    WordMoved(t, WordBytes(e.ftype), 24 * j + 20, 0);
    WordOfBytes(e.ino);
    WordOfBytes(e.ftype);
  }

  lemma SameEntry(s: Sector, t: Sector, k: nat)
    requires k < ENTRIES_PER_SEC
    requires forall i :: 24 * k <= i < 24 * k + 24 ==> t[i] == s[i]
    ensures EntryAt(t, k) == EntryAt(s, k)
  {
    var o := 24 * k;
    assert t[o..o + 16] == s[o..o + 16];
    assert WordAt(t, o + 16) == WordAt(s, o + 16);
    assert WordAt(t, o + 20) == WordAt(s, o + 20);
  }

  lemma EntryUntouched(s: Sector, j: nat, c: seq<byte>, k: nat)
    requires j < ENTRIES_PER_SEC && k < ENTRIES_PER_SEC && j != k && |c| == ENTRY_SIZE
    ensures EntryAt(Splice(s, 24 * j, c), k) == EntryAt(s, k)
  {
    SameEntry(s, Splice(s, 24 * j, c), k);
  }

  /** Writing a slot changes that slot and no other. */
  lemma EntrySpliced(s: Sector, j: nat, e: DirEntry, k: nat)
    requires j < ENTRIES_PER_SEC && k < ENTRIES_PER_SEC && |e.filename| == 16
    ensures EntryAt(Splice(s, 24 * j, EncodeEntry(e)), k) == if j == k then e else EntryAt(s, k)
  {
    if j == k {
      EntryWritten(s, j, e);
    } else {
      EntryUntouched(s, j, EncodeEntry(e), k);
    }
  }

  lemma EntryOfZeros(j: nat)
    requires j < ENTRIES_PER_SEC
    ensures EntryAt(ZERO_SECTOR, j) == NO_ENTRY
  {
    assert ZERO_SECTOR[24 * j..24 * j + 16] == NO_NAME;
  }

  /** Slot `p` of a directory: slot `p % 21` of block `p / 21`; a hole reads as free slots. */
  function SlotAt(sec: seq<u32>, disk: seq<Sector>, p: nat): (e: DirEntry)
    requires |sec| == 13 && p < FLAT
    ensures |e.filename| == 16
  {
    if 0 < sec[p / 21] < |disk| then EntryAt(disk[sec[p / 21]], p % 21) else NO_ENTRY
  }

  /** All 252 slots of the direct blocks. */
  function Flat(sec: seq<u32>, disk: seq<Sector>): (f: seq<DirEntry>)
    requires |sec| == 13
    ensures |f| == FLAT
    ensures forall p {:trigger f[p]} :: 0 <= p < FLAT ==> f[p] == SlotAt(sec, disk, p)
  {
    seq<DirEntry>(FLAT, p requires 0 <= p < FLAT => SlotAt(sec, disk, p))
  }

  // ---- Counting ----

  function Flags(es: seq<DirEntry>): (fs: seq<bool>)
    ensures |fs| == |es| && forall p :: 0 <= p < |es| ==> fs[p] == Live(es[p])
  {
    seq(|es|, p requires 0 <= p < |es| => Live(es[p]))
  }

  ghost function Count(fs: seq<bool>): nat {
    multiset(fs)[true]
  }

  ghost function LiveCount(es: seq<DirEntry>): nat {
    Count(Flags(es))
  }

  lemma CountUpdate(fs: seq<bool>, p: nat, b: bool)
    requires p < |fs|
    ensures Count(fs[p := b]) + (if fs[p] then 1 else 0) == Count(fs) + (if b then 1 else 0)
  {
  }

  lemma LiveCountUpdate(es: seq<DirEntry>, p: nat, e: DirEntry)
    requires p < |es|
    ensures LiveCount(es[p := e]) + (if Live(es[p]) then 1 else 0) == LiveCount(es) + (if Live(e) then 1 else 0)
  {
    assert Flags(es[p := e]) == Flags(es)[p := Live(e)];
    CountUpdate(Flags(es), p, Live(e));
  }

  lemma CountZero(fs: seq<bool>)
    ensures Count(fs) == 0 <==> forall p :: 0 <= p < |fs| ==> !fs[p]
  {
    assert Count(fs) == 0 <==> true !in fs;
  }

  /** A flag that is set alone, or not alone. */
  lemma CountOne(fs: seq<bool>, p: nat)
    requires p < |fs| && fs[p]
    ensures Count(fs) >= 1
    ensures Count(fs) == 1 <==> forall q :: 0 <= q < |fs| && q != p ==> !fs[q]
  {
    var rest := fs[p := false];
    CountUpdate(fs, p, false);
    CountZero(rest);
    if forall q :: 0 <= q < |fs| && q != p ==> !fs[q] {
      assert forall q :: 0 <= q < |rest| ==> !rest[q];
    } else {
      var q :| 0 <= q < |fs| && q != p && fs[q];
      assert rest[q];
    }
  }

  // ---- The directory invariant ----

  /** No live slot of block `b`. */
  predicate BlockDead(flat: seq<DirEntry>, b: nat)
    requires |flat| == FLAT && b < DIRECT
  {
    forall j :: 21 * b <= j < 21 * b + 21 ==> !Live(flat[j])
  }

  /** `.` and `..` are the first two slots and no others, free slots are blank, and no two children share an
      inode number. */
  ghost predicate GoodSlots(flat: seq<DirEntry>)
    requires |flat| == FLAT
  {
    && Live(flat[0]) && IsDot(flat[0])
    && Live(flat[1]) && IsDotDot(flat[1])
    && (forall p :: 2 <= p < FLAT && Live(flat[p]) ==> Child(flat[p]))
    && (forall p :: 0 <= p < FLAT && !Live(flat[p]) ==> flat[p] == NO_ENTRY)
    && (forall p, q :: 2 <= p < q < FLAT && Live(flat[p]) && Live(flat[q]) ==> flat[p].ino != flat[q].ino)
  }

  /** The size counts the live slots, and only the first block may be without a child. */
  ghost predicate DirShape(sec: seq<u32>, size: nat, disk: seq<Sector>)
    requires |sec| == 13
  {
    && sec[0] != 0 && sec[TABLE] == 0
    && GoodSlots(Flat(sec, disk))
    && size == ENTRY_SIZE * LiveCount(Flat(sec, disk))
    && forall b :: 1 <= b < DIRECT && sec[b] != 0 ==> !BlockDead(Flat(sec, disk), b)
  }

  ghost predicate GoodDir(i: Inode, disk: seq<Sector>, bits: seq<bool>, ds: nat) {
    && |i.sectors| == 13
    && DirShape(i.sectors, i.size, disk)
    && Owns(Slots(i.sectors, disk), bits, ds, |disk|)
  }

  /** `dir_is_empty`. */
  predicate DirIsEmpty(i: Inode) {
    i.size == ENTRY_SIZE * 2
  }

  lemma CountTwo(fs: seq<bool>)
    requires |fs| >= 2 && fs[0] && fs[1]
    ensures Count(fs) >= 2
    ensures Count(fs) == 2 <==> forall p :: 2 <= p < |fs| ==> !fs[p]
  {
    var rest := fs[0 := false];
    CountUpdate(fs, 0, false);
    CountOne(rest, 1);
    if forall p :: 2 <= p < |fs| ==> !fs[p] {
      assert forall q :: 0 <= q < |rest| && q != 1 ==> !rest[q];
    } else {
      var p :| 2 <= p < |fs| && fs[p];
      assert rest[p] && p != 1;
    }
  }

  /** The test of `sys_rmdir` says what it should, and for an empty directory the assertions of
      `dir_remove` on sectors 1 to 12 hold. */
  lemma EmptyDirHasOneBlock(i: Inode, disk: seq<Sector>, bits: seq<bool>, ds: nat)
    requires GoodDir(i, disk, bits, ds)
    ensures DirIsEmpty(i) <==> forall p :: 0 <= p < FLAT ==> !Child(Flat(i.sectors, disk)[p])
    ensures DirIsEmpty(i) ==> forall k :: 1 <= k < 13 ==> i.sectors[k] == 0
  {
    var flat := Flat(i.sectors, disk);
    var fs := Flags(flat);
    CountTwo(fs);
    if DirIsEmpty(i) {
      forall p | 0 <= p < FLAT
        ensures !Child(flat[p])
        ensures p >= 2 ==> !Live(flat[p])
      {
        assert fs[p] == Live(flat[p]);
      }
      forall k | 1 <= k < 13
        ensures i.sectors[k] == 0
      {
        if k < DIRECT && i.sectors[k] != 0 {
          assert BlockDead(flat, k);
        }
      }
    } else {
      var p :| 2 <= p < |fs| && fs[p];
      assert Child(flat[p]);
    }
  }

  // ---- Changing one slot ----

  /** The lowest free slot. */
  ghost predicate FirstFree(flat: seq<DirEntry>, p: nat) {
    p < |flat| && !Live(flat[p]) && forall q :: 0 <= q < p ==> Live(flat[q])
  }

  lemma SlotIndex(b: nat, j: nat)
    requires j < 21
    ensures (21 * b + j) / 21 == b && (21 * b + j) % 21 == j
  {
  }

  /** A slot of an allocated block was written. */
  lemma SlotWritten(sec: seq<u32>, disk: seq<Sector>, disk': seq<Sector>, b: nat, j: nat, e: DirEntry)
    requires |sec| == 13 && b < DIRECT && j < ENTRIES_PER_SEC && |e.filename| == 16
    requires 0 < sec[b] < |disk|
    requires forall c :: 0 <= c < 13 && c != b ==> sec[c] != sec[b]
    requires |disk'| == |disk| && disk'[sec[b]] == Splice(disk[sec[b]], 24 * j, EncodeEntry(e))
    requires forall c :: 0 <= c < DIRECT && c != b && 0 < sec[c] < |disk| ==> disk'[sec[c]] == disk[sec[c]]
    ensures Flat(sec, disk') == Flat(sec, disk)[21 * b + j := e]
  {
    forall p | 0 <= p < FLAT
      ensures SlotAt(sec, disk', p) == if p == 21 * b + j then e else SlotAt(sec, disk, p)
    {
      SlotIndex(b, j);
      EntrySpliced(disk[sec[b]], j, e, p % 21);
    }
  }

  /** A slot of a block that is new, in a hole, was written. */
  lemma NewSlotWritten(sec: seq<u32>, disk: seq<Sector>, sec': seq<u32>, disk': seq<Sector>, b: nat, e: DirEntry)
    requires |sec| == |sec'| == 13 && b < DIRECT && |e.filename| == 16
    requires sec[b] == 0 && 0 < sec'[b] < |disk| && |disk'| == |disk|
    requires disk'[sec'[b]] == Splice(ZERO_SECTOR, 0, EncodeEntry(e))
    requires forall c :: 0 <= c < DIRECT && c != b ==>
               sec'[c] == sec[c] && (0 < sec[c] < |disk| ==> disk'[sec[c]] == disk[sec[c]])
    ensures Flat(sec', disk') == Flat(sec, disk)[21 * b := e]
  {
    forall p | 0 <= p < FLAT
      ensures SlotAt(sec', disk', p) == if p == 21 * b then e else SlotAt(sec, disk, p)
    {
      SlotIndex(b, 0);
      EntrySpliced(ZERO_SECTOR, 0, e, p % 21);
      EntryOfZeros(p % 21);
    }
  }

  /** A block whose only live slot was `p` was given up. */
  lemma BlockDropped(sec: seq<u32>, disk: seq<Sector>, disk': seq<Sector>, b: nat, p: nat)
    requires |sec| == 13 && b < DIRECT && 21 * b <= p < 21 * b + 21 && |disk'| == |disk|
    requires forall q :: 21 * b <= q < 21 * b + 21 && q != p ==> Flat(sec, disk)[q] == NO_ENTRY
    requires forall c :: 0 <= c < DIRECT && c != b && 0 < sec[c] < |disk| ==> disk'[sec[c]] == disk[sec[c]]
    ensures Flat(sec[b := 0], disk') == Flat(sec, disk)[p := NO_ENTRY]
  {
    forall q | 0 <= q < FLAT
      ensures SlotAt(sec[b := 0], disk', q) == if q == p then NO_ENTRY else SlotAt(sec, disk, q)
    {
      if q / 21 == b && q != p {
        assert Flat(sec, disk)[q] == NO_ENTRY;
      }
    }
  }

  /** The invariant after an insertion into a free slot `p` of block `b`. */
  lemma InsertKeepsShape(sec: seq<u32>, size: nat, disk: seq<Sector>, sec': seq<u32>, disk': seq<Sector>, b: nat,
                         p: nat, e: DirEntry)
    requires |sec| == |sec'| == 13 && DirShape(sec, size, disk)
    requires b < DIRECT && 21 * b <= p < 21 * b + 21
    requires !Live(Flat(sec, disk)[p]) && Child(e)
    requires Flat(sec', disk') == Flat(sec, disk)[p := e]
    requires sec'[b] != 0 && forall c :: 0 <= c < 13 && c != b ==> sec'[c] == sec[c]
    requires forall q :: 2 <= q < FLAT && Live(Flat(sec, disk)[q]) ==> Flat(sec, disk)[q].ino != e.ino
    ensures DirShape(sec', size + ENTRY_SIZE, disk')
  {
    var flat, flat' := Flat(sec, disk), Flat(sec', disk');
    LiveCountUpdate(flat, p, e);
    forall c | 1 <= c < DIRECT && sec'[c] != 0
      ensures !BlockDead(flat', c)
    {
      if c == b {
        assert Live(flat'[p]);
      } else {
        var q :| 21 * c <= q < 21 * c + 21 && Live(flat[q]);
        assert Live(flat'[q]);
      }
    }
  }

  /** The invariant after a removal from slot `p` of block `b`. */
  lemma RemoveKeepsShape(sec: seq<u32>, size: nat, disk: seq<Sector>, sec': seq<u32>, disk': seq<Sector>, b: nat,
                         p: nat)
    requires |sec| == |sec'| == 13 && DirShape(sec, size, disk)
    requires b < DIRECT && 21 * b <= p < 21 * b + 21 && 2 <= p && Live(Flat(sec, disk)[p])
    requires Flat(sec', disk') == Flat(sec, disk)[p := NO_ENTRY]
    requires forall c :: 0 <= c < 13 && c != b ==> sec'[c] == sec[c]
    requires sec'[b] == 0 || sec'[b] == sec[b]
    requires b == 0 ==> sec'[0] == sec[0]
    requires b >= 1 && sec'[b] != 0 ==> exists q :: 21 * b <= q < 21 * b + 21 && q != p && Live(Flat(sec, disk)[q])
    ensures size >= ENTRY_SIZE && DirShape(sec', size - ENTRY_SIZE, disk')
  {
    var flat, flat' := Flat(sec, disk), Flat(sec', disk');
    LiveCountUpdate(flat, p, NO_ENTRY);
    forall c | 1 <= c < DIRECT && sec'[c] != 0
      ensures !BlockDead(flat', c)
    {
      var q :| 21 * c <= q < 21 * c + 21 && q != p && Live(flat[q]);
      assert Live(flat'[q]);
    }
  }
}
