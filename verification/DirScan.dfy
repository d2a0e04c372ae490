/** `src/fs/dir.c`: `search_dir_entry` and `dir_read`. */
module DirScan {
  import opened Options
  import opened Bytes
  import opened Partitions
  import opened BlockMap
  import opened DirMap
  import opened DirOps

  // ---- dir_read ----

  /** The live entries in slot order. */
  function LiveSeq(es: seq<DirEntry>): (r: seq<DirEntry>)
    ensures |r| <= |es|
  {
    if es == [] then [] else
      LiveSeq(es[..|es| - 1]) + if Live(es[|es| - 1]) then [es[|es| - 1]] else []
  }

  lemma LiveSeqNext(es: seq<DirEntry>, p: nat)
    requires p < |es|
    ensures LiveSeq(es[..p + 1]) == LiveSeq(es[..p]) + if Live(es[p]) then [es[p]] else []
  {
    assert es[..p + 1][..p] == es[..p];
  }

  lemma {:induction false} LiveSeqPrefix(es: seq<DirEntry>, p: nat)
    requires p <= |es|
    ensures LiveSeq(es[..p]) <= LiveSeq(es)
    decreases |es| - p
  {
    if p == |es| {
      assert es[..p] == es;
    } else {
      LiveSeqNext(es, p);
      LiveSeqPrefix(es, p + 1);
    }
  }

  lemma {:induction false} LiveSeqCount(es: seq<DirEntry>)
    ensures |LiveSeq(es)| == LiveCount(es)
  {
    if es != [] {
      var n := |es| - 1;
      LiveSeqCount(es[..n]);
      assert Flags(es) == Flags(es[..n]) + [Live(es[n])];
    }
  }

  /** `struct dir`: the inode of an open directory and the position of its enumeration. */
  class Dir {
    const inodeNo: u32
    var dirPos: u32

    constructor (no: u32)
      ensures inodeNo == no && dirPos == 0
    {
      inodeNo, dirPos := no, 0;
    }
  }

  /** The live entry number `k`, if there are so many. */
  function NthLive(live: seq<DirEntry>, k: nat): Option<DirEntry> {
    if k < |live| then Some(live[k]) else None
  }

  /** The inner loop of `dir_read` (lines 326-338), over a block that follows the slots `before`. The
      kernel assertion on the position is the `assert`. */
  method SeekInBlock(es: seq<DirEntry>, ghost before: seq<DirEntry>, curPos0: nat, dirPos: nat, ghost k: nat)
    returns (curPos: nat, r: Option<DirEntry>)
    requires curPos0 == ENTRY_SIZE * |LiveSeq(before)| && |LiveSeq(before)| <= k && dirPos == ENTRY_SIZE * k
    ensures r.None? ==> curPos == ENTRY_SIZE * |LiveSeq(before + es)| && |LiveSeq(before + es)| <= k
    ensures r.Some? ==> r == NthLive(LiveSeq(before + es), k)
  {
    hide LiveSeq;
    ghost var all := before + es;
    curPos, r := curPos0, None;
    var j := 0;
    assert all[..|before|] == before;
    ghost var seen := LiveSeq(before);
    while j < |es|
      invariant j <= |es|
      invariant seen == LiveSeq(all[..|before| + j])
      invariant curPos == ENTRY_SIZE * |seen| && |seen| <= k
    {
      LiveSeqNext(all, |before| + j);
      assert all[|before| + j] == es[j];
      if es[j].ftype != FT_UNKNOWN {
        if curPos < dirPos {
          curPos := curPos + ENTRY_SIZE;
        } else {
          assert curPos == dirPos;
          LiveSeqPrefix(all, |before| + j + 1);
          r := Some(es[j]);
          return;
        }
      }
      j := j + 1;
      seen := LiveSeq(all[..|before| + j]);
    }
    assert all[..|before| + j] == all;
  }

  /** The outer loop of `dir_read` (lines 315-340). */
  method SeekEntry(part: Partition, inode: Inode, dirPos: nat, ghost k: nat) returns (r: Option<DirEntry>)
    requires part.Valid() && GoodDir(inode, part.disk, part.Bits(), part.dataStartLba) && dirPos == ENTRY_SIZE * k
    ensures r == NthLive(LiveSeq(Flat(inode.sectors, part.disk)), k)
  {
    hide GoodSlots, Owns, LiveSeq, Flat, Count;
    ghost var flat := Flat(inode.sectors, part.disk);
    LiveSeqCount(flat);
    var curPos: nat, b := 0, 0;
    LiveSeqEmpty(flat);
    while b < DIRECT
      invariant 0 <= b <= DIRECT
      invariant curPos == ENTRY_SIZE * |LiveSeq(flat[..21 * b])| && |LiveSeq(flat[..21 * b])| <= k
    {
      if dirPos >= inode.size {
        return None;
      }
      if inode.sectors[b] != 0 {
        DirBlock(inode.sectors, part.disk, part.Bits(), part.dataStartLba, b);
        BlockOfFlat(inode.sectors, part.disk, b);
        var es := BlockEntries(part.disk[inode.sectors[b]]);
        assert flat[..21 * b] + es == flat[..21 * (b + 1)];
        curPos, r := SeekInBlock(es, flat[..21 * b], curPos, dirPos, k);
        if r.Some? {
          LiveSeqPrefix(flat, 21 * (b + 1));
          return;
        }
      } else {
        DeadBlock(inode.sectors, part.disk, b);
      }
      b := b + 1;
    }
    assert flat[..21 * b] == flat;
    r := None;
  }

  lemma LiveSeqEmpty(es: seq<DirEntry>)
    ensures LiveSeq(es[..0]) == []
  {
  }

  lemma DeadBlock(sec: seq<u32>, disk: seq<Sector>, b: nat)
    requires |sec| == 13 && b < DIRECT && sec[b] == 0
    ensures LiveSeq(Flat(sec, disk)[..21 * (b + 1)]) == LiveSeq(Flat(sec, disk)[..21 * b])
  {
    var flat := Flat(sec, disk);
    var j := 0;
    while j < ENTRIES_PER_SEC
      invariant j <= ENTRIES_PER_SEC
      invariant LiveSeq(flat[..21 * b + j]) == LiveSeq(flat[..21 * b])
    {
      LiveSeqNext(flat, 21 * b + j);
      SlotIndex(b, j);
      j := j + 1;
    }
  }

  /** `dir_read`: the next live entry in slot order, or nothing behind the last one. */
  method DirRead(part: Partition, dir: Dir) returns (r: Option<DirEntry>)
    requires part.Valid() && dir.inodeNo in part.open
    requires GoodDir(part.open[dir.inodeNo], part.disk, part.Bits(), part.dataStartLba)
    requires dir.dirPos % ENTRY_SIZE == 0
    modifies dir`dirPos
    ensures r == NthLive(LiveSeq(Flat(part.open[dir.inodeNo].sectors, part.disk)), old(dir.dirPos) / ENTRY_SIZE)
    ensures dir.dirPos == old(dir.dirPos) + if r.Some? then ENTRY_SIZE else 0
  {
    r := SeekEntry(part, part.open[dir.inodeNo], dir.dirPos, dir.dirPos / ENTRY_SIZE);
    if r.Some? {
      dir.dirPos := dir.dirPos + ENTRY_SIZE;
    }
  }

  /** The loop of `ls` over an opened directory: every live entry once, in slot order. */
  method ReadAll(part: Partition, dir: Dir) returns (entries: seq<DirEntry>)
    requires part.Valid() && dir.inodeNo in part.open
    requires GoodDir(part.open[dir.inodeNo], part.disk, part.Bits(), part.dataStartLba)
    modifies dir`dirPos
    ensures entries == LiveSeq(Flat(part.open[dir.inodeNo].sectors, part.disk))
  {
    hide GoodSlots, Owns, LiveSeq, Flat, Slots, DirShape, GoodDir;
    ghost var live := LiveSeq(Flat(part.open[dir.inodeNo].sectors, part.disk));
    dir.dirPos := 0;
    entries := [];
    var e := DirRead(part, dir);
    while e.Some?
      invariant |entries| <= |live| && entries == live[..|entries|]
      invariant e == if |entries| < |live| then Some(live[|entries|]) else None
      invariant dir.dirPos == ENTRY_SIZE * (|entries| + if e.Some? then 1 else 0)
      decreases |live| - |entries|
    {
      assert live[..|entries| + 1] == live[..|entries|] + [live[|entries|]];
      entries := entries + [e.value];
      e := DirRead(part, dir);
    }
    assert live[..|live|] == live;
  }

  // ---- search_dir_entry ----

  /** The C string in a byte buffer. */
  function CStr(f: seq<byte>): (s: seq<byte>)
    ensures |s| <= |f|
  {
    if f == [] || f[0] == 0 then [] else [f[0]] + CStr(f[1..])
  }

  /** The blocks that the loop of `search_dir_entry` looks at: after a hole it skips the next block. */
  function Reached(all: seq<u32>, k: nat): bool
    requires k <= |all|
  {
    k == 0
    || (Reached(all, k - 1) && all[k - 1] != 0)
    || (k >= 2 && Reached(all, k - 2) && all[k - 2] == 0)
  }

  /** The number of holes directly before block `k`. */
  function HoleRun(all: seq<u32>, k: nat): nat
    requires k <= |all|
  {
    if k == 0 || all[k - 1] != 0 then 0 else 1 + HoleRun(all, k - 1)
  }

  /** A block is looked at exactly when an even number of holes precedes it. */
  lemma {:induction false} ReachedIff(all: seq<u32>, k: nat)
    requires k <= |all|
    ensures Reached(all, k) <==> HoleRun(all, k) % 2 == 0
  {
    if k >= 1 {
      ReachedIff(all, k - 1);
    }
    if k >= 2 {
      ReachedIff(all, k - 2);
    }
  }

  /** The live slot `p` carries the name, in a block that the search looks at. */
  ghost predicate Hit(sec: seq<u32>, disk: seq<Sector>, p: nat, name: seq<byte>) {
    && |sec| == 13 && p < FLAT && sec[p / 21] != 0
    && Reached(sec, p / 21) && CStr(Flat(sec, disk)[p].filename) == name
  }

  /** The inner loop of `search_dir_entry` (lines 60-69). */
  method FindName(es: seq<DirEntry>, name: seq<byte>) returns (j: nat)
    ensures j <= |es|
    ensures forall k :: 0 <= k < j ==> CStr(es[k].filename) != name
    ensures j < |es| ==> CStr(es[j].filename) == name
  {
    j := 0;
    while j < |es|
      invariant j <= |es|
      invariant forall k :: 0 <= k < j ==> CStr(es[k].filename) != name
    {
      if CStr(es[j].filename) == name {
        return;
      }
      j := j + 1;
    }
  }

  /** `search_dir_entry` on a directory of direct blocks: the first hit in slot order. */
  method SearchDirEntry(part: Partition, sec: seq<u32>, name: seq<byte>) returns (r: Option<DirEntry>, ghost at: nat)
    requires part.Valid() && DirBlocks(sec, part.disk, part.Bits(), part.dataStartLba)
    ensures r.None? ==> forall p: nat :: !Hit(sec, part.disk, p, name)
    ensures r.Some? ==> Hit(sec, part.disk, at, name) && r.value == Flat(sec, part.disk)[at]
    ensures r.Some? ==> forall p: nat :: p < at ==> !Hit(sec, part.disk, p, name)
  {
    hide Owns, CStr;
    var allBlocks := sec[..DIRECT] + Zeros(128);
    ghost var flat := Flat(sec, part.disk);
    at := 0;
    var b: nat := 0;
    while b < 140
      invariant b <= DIRECT ==> Reached(sec, b)
      invariant forall p: nat :: p < 21 * b ==> !Hit(sec, part.disk, p, name)
    {
      if allBlocks[b] == 0 {
        NoHitInHole(sec, part.disk, b, name);
        b := b + 1;
      } else {
        DirBlock(sec, part.disk, part.Bits(), part.dataStartLba, b);
        BlockOfFlat(sec, part.disk, b);
        var es := BlockEntries(part.disk[sec[b]]);
        var j := FindName(es, name);
        HitsOfBlock(sec, part.disk, b, es, j, name);
        if j < |es| {
          at := 21 * b + j;
          return Some(es[j]), at;
        }
      }
      b := b + 1;
    }
    r := None;
  }

  lemma NoHitInHole(sec: seq<u32>, disk: seq<Sector>, b: nat, name: seq<byte>)
    requires |sec| == 13 && (b < DIRECT ==> sec[b] == 0 && Reached(sec, b))
    ensures forall p: nat :: 21 * b <= p < 21 * b + 42 ==> !Hit(sec, disk, p, name)
    ensures b + 2 <= DIRECT ==> Reached(sec, b + 2)
  {
    if b + 1 <= DIRECT {
      ReachedIff(sec, b);
      ReachedIff(sec, b + 1);
    }
  }

  lemma HitsOfBlock(sec: seq<u32>, disk: seq<Sector>, b: nat, es: seq<DirEntry>, j: nat, name: seq<byte>)
    requires |sec| == 13 && b < DIRECT && sec[b] != 0 && Reached(sec, b) && |es| == ENTRIES_PER_SEC
    requires forall k :: 0 <= k < ENTRIES_PER_SEC ==> es[k] == Flat(sec, disk)[21 * b + k]
    requires j <= |es| && forall k :: 0 <= k < j ==> CStr(es[k].filename) != name
    requires j < |es| ==> CStr(es[j].filename) == name
    ensures forall p: nat :: 21 * b <= p < 21 * b + j ==> !Hit(sec, disk, p, name)
    ensures j < |es| ==> Hit(sec, disk, 21 * b + j, name)
    ensures b + 1 <= DIRECT ==> Reached(sec, b + 1)
  {
    hide CStr;
    forall p: nat | 21 * b <= p < 21 * b + j
      ensures !Hit(sec, disk, p, name)
    {
      assert es[p - 21 * b] == Flat(sec, disk)[p];
    }
    if j < |es| {
      SlotIndex(b, j);
    }
  }

  /** In a directory whose live names differ, the search by the name of a live entry finds that entry
      exactly when the number of holes directly before its block is even, and nothing otherwise. */
  lemma SearchFindsIff(i: Inode, disk: seq<Sector>, p: nat)
    requires |i.sectors| == 13 && DirShape(i.sectors, i.size, disk)
    requires p < FLAT && Live(Flat(i.sectors, disk)[p])
    requires forall q, r :: 0 <= q < r < FLAT && Live(Flat(i.sectors, disk)[q]) && Live(Flat(i.sectors, disk)[r]) ==>
               CStr(Flat(i.sectors, disk)[q].filename) != CStr(Flat(i.sectors, disk)[r].filename)
    requires CStr(Flat(i.sectors, disk)[p].filename) != []
    ensures var name := CStr(Flat(i.sectors, disk)[p].filename);
      && (HoleRun(i.sectors, p / 21) % 2 == 0 <==> Hit(i.sectors, disk, p, name))
      && forall q: nat :: Hit(i.sectors, disk, q, name) ==> q == p
  {
    var flat, name := Flat(i.sectors, disk), CStr(Flat(i.sectors, disk)[p].filename);
    ReachedIff(i.sectors, p / 21);
    forall q: nat | Hit(i.sectors, disk, q, name)
      ensures q == p
    {
      assert !Live(flat[q]) ==> CStr(NO_ENTRY.filename) == [];
      assert q < p || q == p || p < q;
    }
  }

  /** When the removal of an entry gives its block up, the entries of the block behind it, which the
      search found before, are not found any more. */
  lemma RemovalHidesNextBlock(sec: seq<u32>, disk: seq<Sector>, bits: seq<bool>, sec': seq<u32>, disk': seq<Sector>,
                              bits': seq<bool>,
                              ds: nat, b: nat, p: nat, q: nat, name: seq<byte>)
    requires Removed(sec, disk, bits, sec', disk', bits', ds, b, p) && sec'[b] == 0
    requires b + 1 < DIRECT && HoleRun(sec, b) % 2 == 0
    requires q / 21 == b + 1 && Hit(sec, disk, q, name)
    ensures Flat(sec', disk')[q] == Flat(sec, disk)[q]
    ensures !Hit(sec', disk', q, name)
  {
    SameHoleRun(sec, sec', b);
    ReachedIff(sec', b + 1);
  }

  lemma {:induction false} SameHoleRun(sec: seq<u32>, sec': seq<u32>, k: nat)
    requires |sec| == |sec'| && k <= |sec| && forall c :: 0 <= c < k ==> sec'[c] == sec[c]
    ensures HoleRun(sec', k) == HoleRun(sec, k)
  {
    if k > 0 {
      SameHoleRun(sec, sec', k - 1);
    }
  }
}
