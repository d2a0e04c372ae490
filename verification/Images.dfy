/** The values that make up a partition, and how its disk follows the two bit maps in memory. */
module Images {
  import opened Bytes
  import opened Bitmaps
  import opened Partitions

  /** The values that make up a partition. */
  datatype Image = Image(disk: seq<Sector>, open: map<u32, Inode>, bits: seq<bool>, ibits: seq<bool>, lba: nat, ds: nat)

  ghost function Snap(part: Partition): Image
    reads part, part.blockBitmap, part.inodeBitmap
  {
    Image(part.disk, part.open, part.Bits(), part.InodeBits(), part.inodeTableLba, part.dataStartLba)
  }

  // ---- The bit maps on the disk ----

  /** The bytes of a bit map that fill its sector number `k`. */
  function BitSector(bits: seq<bv8>, k: nat): Sector
    requires 512 * k + 512 <= |bits|
  {
    seq<byte>(512, j requires 0 <= j < 512 => bits[512 * k + j] as byte)
  }

  /** Bit number `i` of the bit map that begins at sector `lba`. */
  predicate DiskBit(disk: seq<Sector>, lba: nat, i: nat) {
    lba + i / 4096 < |disk| && BitOf(disk[lba + i / 4096][i / 8 % 512] as bv8, i % 8)
  }

  /** The block bit map, the one sector of the inode bit map and the inode table follow each other. */
  ghost predicate HasMaps(g: Image) {
    && |g.bits| % 4096 == 0 && |g.ibits| == MAX_FILES_PER_PART
    && |g.bits| / 4096 + 1 <= g.lba <= g.ds && g.lba <= |g.disk|
  }

  ghost function MapLba(g: Image): nat
    requires HasMaps(g)
  {
    g.lba - 1 - |g.bits| / 4096
  }

  /** Bit `i` of the block bit map is on the disk as it is in memory. */
  ghost predicate Saved(g: Image, i: nat)
    requires HasMaps(g) && i < |g.bits|
  {
    DiskBit(g.disk, MapLba(g), i) == g.bits[i]
  }

  /** So is bit `no` of the inode bit map. */
  ghost predicate InodeSaved(g: Image, no: nat)
    requires HasMaps(g) && no < MAX_FILES_PER_PART
  {
    DiskBit(g.disk, g.lba - 1, no) == g.ibits[no]
  }

  /** Both bit maps are on the disk, but for the bits of the blocks in `late`. */
  ghost predicate OnDiskBut(g: Image, late: set<nat>) {
    && HasMaps(g)
    && (forall i :: 0 <= i < |g.bits| && g.ds + i !in late ==> Saved(g, i))
    && (forall no :: 0 <= no < MAX_FILES_PER_PART ==> InodeSaved(g, no))
  }

  ghost predicate SamePlace(g: Image, g': Image) {
    && HasMaps(g) && HasMaps(g')
    && g'.lba == g.lba && g'.ds == g.ds && |g'.disk| == |g.disk| && |g'.bits| == |g.bits|
  }

  /** From `g` to `g'` the disk follows the bit maps: every bit that has changed is on the disk, but for those of
      `late`, every bit that was there still is, and the sectors before the bit maps are the same. */
  ghost predicate Follows(g: Image, g': Image, late: set<nat>) {
    && SamePlace(g, g')
    && (forall k :: 0 <= k < MapLba(g) ==> g'.disk[k] == g.disk[k])
    && (forall i :: 0 <= i < |g.bits| && g.ds + i !in late && (g'.bits[i] != g.bits[i] || Saved(g, i)) ==> Saved(g', i))
    && (forall no :: 0 <= no < MAX_FILES_PER_PART && (g'.ibits[no] != g.ibits[no] || InodeSaved(g, no)) ==>
          InodeSaved(g', no))
  }

  /** The bits of `late` have changed, and the disk has not followed. */
  ghost predicate Lags(g: Image, g': Image, late: set<nat>)
    requires SamePlace(g, g')
  {
    forall b :: b in late ==> g.ds <= b && b - g.ds < |g.bits| && (Saved(g, b - g.ds) ==> !Saved(g', b - g.ds))
  }

  /** Exactly the bits of `late` have not reached the disk. */
  ghost predicate Recorded(g: Image, g': Image, late: set<nat>) {
    Follows(g, g', late) && Lags(g, g', late)
  }

  /** If all bits were on the disk, they are now iff none of them is late. */
  lemma OnDiskIff(g: Image, g': Image, late: set<nat>)
    requires OnDiskBut(g, {}) && Recorded(g, g', late)
    ensures OnDiskBut(g', late) && (OnDiskBut(g', {}) <==> late == {})
  {
    hide DiskBit, MapLba, HasMaps;
    assert HasMaps(g');
    if late != {} {
      var b :| b in late;
      assert Saved(g, b - g.ds);
      assert !Saved(g', b - g.ds);
      var i: nat := b - g.ds;
      assert g'.ds + i !in {};
    }
  }

  lemma LateAddsUp(g: Image, g': Image, late0: set<nat>, late: set<nat>)
    requires OnDiskBut(g, late0) && Recorded(g, g', late)
    ensures OnDiskBut(g', late0 + late)
  {
    hide DiskBit, MapLba, HasMaps, Saved, InodeSaved;
  }

  /** Nothing changes above the disk sector of the inode bit map but what lies behind it. */
  ghost predicate Elsewhere(g: Image, g': Image) {
    && SamePlace(g, g') && g'.bits == g.bits && g'.ibits == g.ibits
    && forall k :: 0 <= k < g.lba ==> g'.disk[k] == g.disk[k]
  }

  lemma ElsewhereSaved(g: Image, g': Image)
    requires Elsewhere(g, g')
    ensures forall i :: 0 <= i < |g.bits| ==> Saved(g', i) == Saved(g, i)
    ensures forall no :: 0 <= no < MAX_FILES_PER_PART ==> InodeSaved(g', no) == InodeSaved(g, no)
  {
    forall i | 0 <= i < |g.bits|
      ensures Saved(g', i) == Saved(g, i)
    {
      assert i / 4096 < |g.bits| / 4096;
    }
  }

  lemma RecordedElsewhere(g: Image, g': Image)
    requires Elsewhere(g, g')
    ensures Recorded(g, g', {})
  {
    ElsewhereSaved(g, g');
    hide Saved, InodeSaved;
  }

  /** Later changes that leave nothing late come behind or before. */
  lemma RecordedTwice(g: Image, g1: Image, g2: Image, late: set<nat>)
    requires Recorded(g, g1, {}) && Recorded(g1, g2, late)
    ensures Recorded(g, g2, late)
  {
    hide Saved, InodeSaved, HasMaps;
    assert MapLba(g1) == MapLba(g);
  }

  lemma RecordedThen(g: Image, g1: Image, g2: Image, late: set<nat>)
    requires Recorded(g, g1, late) && Elsewhere(g1, g2)
    ensures Recorded(g, g2, late)
  {
    ElsewhereSaved(g1, g2);
    hide Saved, InodeSaved, HasMaps;
    assert MapLba(g1) == MapLba(g);
  }

  // ---- One bit at a time ----

  /** The lowest clear bit from bit `from` on. */
  function NextFree(bits: seq<bool>, from: nat): (i: nat)
    requires from <= |bits|
    ensures from <= i <= |bits| && (i < |bits| ==> !bits[i]) && forall j :: from <= j < i ==> bits[j]
    decreases |bits| - from
  {
    if from == |bits| || !bits[from] then from else NextFree(bits, from + 1)
  }

  /** There is one such bit, or none. */
  lemma NextFreeIs(bits: seq<bool>, from: nat, i: nat)
    requires from <= i <= |bits| && (i < |bits| ==> !bits[i]) && forall j :: from <= j < i ==> bits[j]
    ensures NextFree(bits, from) == i
  {
  }

  lemma BitInSector(bytes: seq<bv8>, disk: seq<Sector>, lba: nat, i: nat)
    requires 512 * (i / 4096) + 512 <= |bytes| && lba + i / 4096 < |disk|
    requires disk[lba + i / 4096] == BitSector(bytes, i / 4096)
    ensures DiskBit(disk, lba, i) == BitAt(bytes, i)
  {
    assert i / 8 == 512 * (i / 4096) + i / 8 % 512;
    assert disk[lba + i / 4096][i / 8 % 512] == bytes[i / 8] as byte;
  }

  /** All bits of sector `k` of the block bit map are on the disk. */
  ghost predicate SectorSaved(g: Image, k: nat)
    requires HasMaps(g)
  {
    forall i :: 0 <= i < |g.bits| && i / 4096 == k ==> Saved(g, i)
  }

  ghost predicate FullSector(bits: seq<bool>, k: nat) {
    forall j :: 4096 * k <= j < 4096 * k + 4096 && j < |bits| ==> bits[j]
  }

  /** Bits were only set, and sectors of the bit map that were full are as they were. */
  ghost predicate FullStay(g: Image, g': Image)
    requires SamePlace(g, g')
  {
    && (forall i :: 0 <= i < |g.bits| && g.bits[i] ==> g'.bits[i])
    && forall k {:trigger FullSector(g.bits, k)} :: 0 <= k < |g.bits| / 4096 && FullSector(g.bits, k) ==>
         g'.disk[MapLba(g) + k] == g.disk[MapLba(g) + k]
  }

  /** Blocks were taken and their bits written; the first sector written is that of the lowest free bit. */
  ghost predicate Allocated(g: Image, g': Image) {
    && Recorded(g, g', {}) && FullStay(g, g')
    && (g'.bits != g.bits ==> NextFree(g.bits, 0) < |g.bits| && SectorSaved(g', NextFree(g.bits, 0) / 4096))
  }

  lemma AllocatedIsRecorded(g: Image, g': Image)
    requires Allocated(g, g')
    ensures Recorded(g, g', {})
  {
    hide Recorded, FullStay, SectorSaved, NextFree;
  }

  lemma SectorStaysSaved(g: Image, g': Image, k: nat)
    requires Recorded(g, g', {}) && SectorSaved(g, k)
    ensures SectorSaved(g', k)
  {
    hide Saved, InodeSaved, HasMaps;
  }

  lemma FullStayTwice(g: Image, g1: Image, g2: Image)
    requires SamePlace(g, g1) && SamePlace(g1, g2) && SamePlace(g, g2) && FullStay(g, g1) && FullStay(g1, g2)
    ensures FullStay(g, g2)
  {
    assert MapLba(g1) == MapLba(g);
    forall k | 0 <= k < |g.bits| / 4096 && FullSector(g.bits, k)
      ensures g2.disk[MapLba(g) + k] == g.disk[MapLba(g) + k]
    {
      assert FullSector(g1.bits, k);
    }
  }

  lemma AllocatedTwice(g: Image, g1: Image, g2: Image)
    requires Allocated(g, g1) && Allocated(g1, g2)
    ensures Allocated(g, g2)
  {
    RecordedTwice(g, g1, g2, {});
    if g1.bits != g.bits {
      SectorStaysSaved(g1, g2, NextFree(g.bits, 0) / 4096);
    }
    hide Saved, InodeSaved, SectorSaved, FullStay;
    assert SamePlace(g, g1) && SamePlace(g1, g2) && SamePlace(g, g2);
    FullStayTwice(g, g1, g2);
  }

  /** Bit `b` was set or cleared, and the sector that holds it was written from the bytes in memory. */
  ghost predicate BitWritten(g: Image, g': Image, b: nat, bytes: seq<bv8>) {
    && SamePlace(g, g') && b < |g.bits| && g'.bits == g.bits[b := g'.bits[b]] && g'.ibits == g.ibits
    && |g.bits| <= 8 * |bytes| && (forall i :: 0 <= i < |g'.bits| ==> g'.bits[i] == BitAt(bytes, i))
    && g'.disk == g.disk[MapLba(g) + b / 4096 := BitSector(bytes, b / 4096)]
  }

  lemma SyncedSector(g: Image, g': Image, b: nat, bytes: seq<bv8>)
    requires BitWritten(g, g', b, bytes)
    ensures SectorSaved(g', b / 4096)
    ensures forall i :: 0 <= i < |g.bits| && i / 4096 != b / 4096 ==> Saved(g', i) == Saved(g, i)
    ensures forall no :: 0 <= no < MAX_FILES_PER_PART ==> InodeSaved(g', no) == InodeSaved(g, no)
  {
    assert b / 4096 < |g.bits| / 4096;
    forall i | 0 <= i < |g.bits| && i / 4096 == b / 4096
      ensures Saved(g', i)
    {
      BitInSector(bytes, g'.disk, MapLba(g), i);
    }
  }

  lemma BitSynced(g: Image, g': Image, b: nat, bytes: seq<bv8>)
    requires BitWritten(g, g', b, bytes)
    ensures Recorded(g, g', {})
    ensures !g.bits[b] && g'.bits[b] && b == NextFree(g.bits, 0) ==> Allocated(g, g')
  {
    SyncedSector(g, g', b, bytes);
    hide Saved, InodeSaved, SectorSaved;
    forall i | 0 <= i < |g.bits| && i / 4096 == b / 4096
      ensures Saved(g', i)
    {
      SavedInSector(g', i);
    }
    if !g.bits[b] {
      forall k | 0 <= k < |g.bits| / 4096 && FullSector(g.bits, k)
        ensures g'.disk[MapLba(g) + k] == g.disk[MapLba(g) + k]
      {
        assert k != b / 4096;
      }
    }
  }

  /** The sector of the inode bit map was written. */
  lemma NumbersSynced(g: Image, g': Image, bytes: seq<bv8>)
    requires SamePlace(g, g') && g'.bits == g.bits && |bytes| >= 512
    requires forall no :: 0 <= no < MAX_FILES_PER_PART ==> g'.ibits[no] == BitAt(bytes, no)
    requires g'.disk == g.disk[g.lba - 1 := BitSector(bytes, 0)]
    ensures Recorded(g, g', {})
  {
    forall no | 0 <= no < MAX_FILES_PER_PART
      ensures InodeSaved(g', no)
    {
      BitInSector(bytes, g'.disk, g.lba - 1, no);
    }
    forall i | 0 <= i < |g.bits|
      ensures Saved(g', i) == Saved(g, i)
    {
      assert i / 4096 < |g.bits| / 4096;
    }
    hide Saved, InodeSaved;
  }

  lemma SavedInSector(g: Image, i: nat)
    requires HasMaps(g) && i < |g.bits| && SectorSaved(g, i / 4096)
    ensures Saved(g, i)
  {
  }

  /** The lowest free bit `t` was set, but not written. */
  ghost predicate OnlySet(g: Image, g1: Image, t: nat) {
    HasMaps(g) && t < |g.bits| && t == NextFree(g.bits, 0) && g1 == g.(bits := g.bits[t := true])
  }

  lemma SetUnwritten(g: Image, g1: Image, t: nat)
    requires OnlySet(g, g1, t)
    ensures SamePlace(g, g1) && !g.bits[t] && g1.bits[t]
    ensures forall i :: 0 <= i < |g.bits| && i != t ==> Saved(g1, i) == Saved(g, i) && g1.bits[i] == g.bits[i]
    ensures forall no :: 0 <= no < MAX_FILES_PER_PART ==> InodeSaved(g1, no) == InodeSaved(g, no)
    ensures Saved(g, t) != Saved(g1, t)
  {
  }

  /** If no bit behind `t` is free in its sector, that sector is not written when more blocks are taken. */
  lemma FullNotWritten(g: Image, g1: Image, g2: Image, t: nat)
    requires OnlySet(g, g1, t) && Allocated(g1, g2) && NextFree(g.bits, t + 1) / 4096 != t / 4096
    ensures Saved(g2, t) == Saved(g1, t)
  {
    hide InodeSaved, Lags;
    assert t / 4096 < |g.bits| / 4096;
    assert FullSector(g1.bits, t / 4096);
    assert g2.disk[MapLba(g1) + t / 4096] == g1.disk[MapLba(g1) + t / 4096];
    assert MapLba(g2) == MapLba(g1);
  }

  lemma WrittenBehind(g: Image, g1: Image, g2: Image, t: nat)
    requires OnlySet(g, g1, t) && Allocated(g1, g2) && NextFree(g.bits, t + 1) / 4096 == t / 4096
    requires NextFree(g.bits, t + 1) < |g.bits| ==> g2.bits != g1.bits
    ensures Saved(g2, t)
  {
    hide InodeSaved, Lags, FullStay, Saved;
    NextFreeIs(g1.bits, 0, NextFree(g.bits, t + 1));
    SavedInSector(g2, t);
  }

  /** The lowest free bit `t` was set without being written, then blocks were taken: its bit reaches the disk
      iff the next free bit lies in the same sector. */
  lemma WrittenWithNext(g: Image, g1: Image, g2: Image, t: nat)
    requires OnlySet(g, g1, t) && Allocated(g1, g2)
    requires NextFree(g.bits, t + 1) < |g.bits| ==> g2.bits != g1.bits
    ensures Recorded(g, g2, if NextFree(g.bits, t + 1) / 4096 == t / 4096 then {} else {g.ds + t})
  {
    hide Saved, InodeSaved, FullStay, SectorSaved, HasMaps, NextFree;
    SetUnwritten(g, g1, t);
    assert MapLba(g1) == MapLba(g);
    if NextFree(g.bits, t + 1) / 4096 == t / 4096 {
      WrittenBehind(g, g1, g2, t);
    } else {
      FullNotWritten(g, g1, g2, t);
    }
  }

  /** The block of the lowest free bit from bit `from` on, if no free bit follows in its sector of the bit map. */
  ghost function LateTable(bits: seq<bool>, from: nat, ds: nat): set<nat>
    requires from <= |bits|
  {
    var t := NextFree(bits, from);
    if t == |bits| || NextFree(bits, t + 1) / 4096 == t / 4096 then {} else {ds + t}
  }

  /** When the lowest free bit has been set, the search goes on behind it. */
  lemma LateAfterFirst(bits: seq<bool>, f: nat, ds: nat)
    requires f == NextFree(bits, 0) < |bits|
    ensures LateTable(bits[f := true], 0, ds) == LateTable(bits, f + 1, ds)
  {
    var t := NextFree(bits, f + 1);
    NextFreeIs(bits[f := true], 0, t);
    if t < |bits| {
      NextFreeIs(bits[f := true], t + 1, NextFree(bits, t + 1));
    }
  }

  lemma MapsOfValid(part: Partition)
    requires part.Valid()
    ensures HasMaps(Snap(part)) && MapLba(Snap(part)) == part.blockBitmapLba
    ensures part.inodeBitmapLba == part.inodeTableLba - 1
  {
  }

  /** A partition whose disk, bits or open inodes are another's. */
  lemma StillPlaced(g: Image, g': Image)
    requires HasMaps(g) && g'.lba == g.lba && g'.ds == g.ds && |g'.disk| == |g.disk| && |g'.bits| == |g.bits|
    requires |g'.ibits| == |g.ibits|
    ensures SamePlace(g, g')
  {
  }
}
