/** The kinds of change that the operations of the file system are made of: an inode grows, gives
    blocks back, disappears or appears, and a block is set aside. Each keeps `StoreOK`. */
module FsSteps {
  import opened Bytes
  import opened Partitions
  import opened Images
  import opened BlockMap
  import opened InodeTable
  import opened Release
  import opened FsState

  lemma GrewBlocks(slots: seq<u32>, bits: seq<bool>, slots': seq<u32>, bits': seq<bool>, ds: nat, limit: nat)
    requires |slots| == |slots'| && Grew(slots, bits, slots', bits', ds, limit)
    ensures BlocksOf(slots') == BlocksOf(slots) + Gained(slots, slots')
  {
    forall b | b in BlocksOf(slots)
      ensures b in BlocksOf(slots')
    {
      var k :| 0 <= k < |slots| && slots[k] != 0 && slots[k] == b;
      assert slots'[k] == b;
    }
    forall b | b in BlocksOf(slots')
      ensures b in BlocksOf(slots) + Gained(slots, slots')
    {
      var k :| 0 <= k < |slots'| && slots'[k] != 0 && slots'[k] == b;
      if slots[k] == 0 {
        assert b in Gained(slots, slots');
      } else {
        assert slots[k] in BlocksOf(slots);
      }
    }
  }

  /** The blocks of an existing inode have their bits set. */
  lemma BitsOfOwned(g: Image, kinds: map<u32, Kind>, q: set<u32>, m: u32)
    requires Geometry(g) && StoreOK(g, kinds, q) && m in kinds
    ensures m < MAX_FILES_PER_PART
    ensures forall b :: b in Blk(g, m) ==> g.ds <= b < |g.disk| && b - g.ds < |g.bits| && g.bits[b - g.ds]
  {
    hide StoreOK, Geometry, ShapeOK, SlotsI, Owns, BlocksOf;
    OneOwns(g, kinds, q, m);
    BlocksAreData(SlotsI(g, m), g.bits, g.ds, |g.disk|);
  }

  lemma OneOwns(g: Image, kinds: map<u32, Kind>, q: set<u32>, m: u32)
    requires Geometry(g) && StoreOK(g, kinds, q) && m in kinds
    ensures m < MAX_FILES_PER_PART && Owns(SlotsI(g, m), g.bits, g.ds, |g.disk|)
  {
    hide ShapeOK, Owns, Blk, Owned, SlotsI, Geometry;
    assert InodeOK(g, m, kinds[m]);
  }

  /** The inode records other than that of `x` are the same, and so is the disk outside `touched`. */
  ghost predicate RestKept(g: Image, g': Image, x: u32, touched: set<u32>)
    requires Geometry(g) && Geometry(g')
  {
    && x < MAX_FILES_PER_PART
    && g'.lba == g.lba && g'.ds == g.ds && |g'.disk| == |g.disk| && |g'.bits| == |g.bits|
    && (forall m: nat :: m < MAX_FILES_PER_PART && m != x ==> Record(g'.disk, g.lba, m) == Record(g.disk, g.lba, m))
    && DataKept(g.disk, g'.disk, g.ds, touched)
  }

  /** `StoreStep` for changes of the disk in blocks of `x` only. */
  lemma Conclude(g: Image, g': Image, kinds: map<u32, Kind>, kinds': map<u32, Kind>, x: u32,
                 q: set<u32>, q': set<u32>, touched: set<u32>)
    requires Geometry(g) && Geometry(g') && StoreOK(g, kinds, q) && RestKept(g, g', x, touched)
    requires forall m :: m in kinds && m != x ==> m in kinds' && kinds'[m] == kinds[m]
    requires forall m :: m in kinds' && m != x ==> m in kinds
    requires BitsFollow(g, g', BlkOr(g, kinds, x), BlkOr(g', kinds', x), q, q')
    requires x in kinds' ==> InodeOK(g', x, kinds'[x])
    requires BlkOr(g', kinds', x) !! q'
    requires PendingOK(g', q')
    requires forall m :: m in kinds && m != x && m < MAX_FILES_PER_PART ==>
               Blk(g, m) !! BlkOr(g', kinds', x) && Blk(g, m) !! q' && Blk(g, m) !! touched
    ensures StoreOK(g', kinds', q')
    ensures forall m :: m in kinds && m != x ==> m < MAX_FILES_PER_PART && Untouched(g, g', m)
  {
    hide InodeOK, Blk, Untouched, BitsFollow, Geometry, DataKept, Record, StoreOK, BlkOr, PendingOK;
    assert ChangesOnly(g, g', kinds, kinds', x, touched);
    StoreStep(g, g', kinds, kinds', x, q, q', touched);
    forall m | m in kinds && m != x
      ensures m < MAX_FILES_PER_PART && Untouched(g, g', m)
    {
      OthersUntouched(g, g', kinds, kinds', x, q, touched, m);
    }
  }

  /** The blocks of two inodes are different. */
  lemma BlocksApart(g: Image, kinds: map<u32, Kind>, q: set<u32>, x: u32)
    requires Geometry(g) && StoreOK(g, kinds, q) && x in kinds
    ensures x < MAX_FILES_PER_PART
    ensures forall m :: m in kinds && m != x && m < MAX_FILES_PER_PART ==> Blk(g, m) !! Blk(g, x)
  {
    hide Blk, InodeOK, Owned, Geometry, BitsOwned, PendingOK;
  }

  /** Inode `x` grew by blocks that were free; the disk changed in its blocks only. */
  lemma GrowStep(g: Image, g': Image, kinds: map<u32, Kind>, x: u32, q: set<u32>, touched: set<u32>)
    requires Geometry(g) && Geometry(g') && StoreOK(g, kinds, q) && x in kinds && RestKept(g, g', x, touched)
    requires Grew(SlotsI(g, x), g.bits, SlotsI(g', x), g'.bits, g.ds, |g.disk|)
    requires touched <= Blk(g', x)
    requires ShapeOK(g', x, kinds[x])
    ensures StoreOK(g', kinds, q)
    ensures forall m :: m in kinds && m != x ==> m < MAX_FILES_PER_PART && Untouched(g, g', m)
  {
    assert InodeOK(g, x, kinds[x]) && Blk(g, x) !! q;
    hide ShapeOK, StoreOK, PendingOK, BitsFollow, Geometry, DataKept, Record;
    var gained := Gained(SlotsI(g, x), SlotsI(g', x));
    GrewBlocks(SlotsI(g, x), g.bits, SlotsI(g', x), g'.bits, g.ds, |g.disk|);
    GrewKeepsOwns(SlotsI(g, x), g.bits, SlotsI(g', x), g'.bits, g.ds, |g.disk|);
    GainedWasFree(g, g', kinds, x, q, gained);
    BlocksApart(g, kinds, q, x);
    PendingKept(g, g', kinds, q);
    assert Blk(g', x) == Blk(g, x) + gained;
    Conclude(g, g', kinds, kinds, x, q, q, touched);
  }

  lemma PendingKept(g: Image, g': Image, kinds: map<u32, Kind>, q: set<u32>)
    requires Geometry(g) && StoreOK(g, kinds, q)
    ensures forall m :: m in kinds && m < MAX_FILES_PER_PART ==> Blk(g, m) !! q
  {
    hide Geometry, Blk, InodeOK, Owned, NoSharing, PendingOK, BitsOwned;
  }

  lemma GainedWasFree(g: Image, g': Image, kinds: map<u32, Kind>, x: u32, q: set<u32>, gained: set<u32>)
    requires Geometry(g) && StoreOK(g, kinds, q) && x in kinds && x < MAX_FILES_PER_PART
    requires Taken(g.bits, g'.bits, g.ds, |g.disk|, gained) && g'.ds == g.ds && |g'.disk| == |g.disk|
    ensures q !! gained && PendingOK(g', q)
    ensures forall m :: m in kinds && m < MAX_FILES_PER_PART ==> Blk(g, m) !! gained
    ensures BitsFollow(g, g', Blk(g, x), Blk(g, x) + gained, q, q)
  {
    hide Geometry, InodeOK, Blk;
    forall m | m in kinds
      ensures m < MAX_FILES_PER_PART && Blk(g, m) !! gained
    {
      BitsOfOwned(g, kinds, q, m);
    }
    forall b | b in q
      ensures b !in gained && g.ds <= b < |g.disk| && b - g.ds < |g.bits| && g'.bits[b - g.ds]
    {
      assert g.ds + (b - g.ds) == b;
    }
  }

  /** Inode `x` gave the blocks `gone` back, or disappeared with all its blocks. */
  lemma DropStep(g: Image, g': Image, kinds: map<u32, Kind>, kinds': map<u32, Kind>, x: u32, touched: set<u32>)
    requires Geometry(g) && Geometry(g') && StoreOK(g, kinds, {}) && x in kinds && RestKept(g, g', x, touched)
    requires kinds' == kinds || kinds' == kinds - {x}
    requires BlkOr(g', kinds', x) <= Blk(g, x) && touched <= Blk(g, x)
    requires Dropped(g.bits, g'.bits, g.ds, Blk(g, x) - BlkOr(g', kinds', x))
    requires x in kinds' ==> InodeOK(g', x, kinds[x])
    ensures StoreOK(g', kinds', {})
    ensures forall m :: m in kinds && m != x ==> m < MAX_FILES_PER_PART && Untouched(g, g', m)
  {
    hide InodeOK, Blk, Untouched, Dropped, BitsFollow, StoreOK, RestKept;
    BlocksApart(g, kinds, {}, x);
    DropFollows(g, g', kinds, x, BlkOr(g', kinds', x));
    Conclude(g, g', kinds, kinds', x, {}, {}, touched);
  }

  lemma DropFollows(g: Image, g': Image, kinds: map<u32, Kind>, x: u32, b1: set<u32>)
    requires Geometry(g) && StoreOK(g, kinds, {}) && x in kinds && x < MAX_FILES_PER_PART && b1 <= Blk(g, x)
    requires Dropped(g.bits, g'.bits, g.ds, Blk(g, x) - b1)
    ensures |g'.bits| == |g.bits| && BitsFollow(g, g', Blk(g, x), b1, {}, {})
  {
    hide Geometry, Blk, InodeOK;
  }

  /** A new inode `c` appears, whose blocks were set aside. */
  lemma AppearStep(g: Image, g': Image, kinds: map<u32, Kind>, c: u32, kind: Kind, q: set<u32>)
    requires Geometry(g) && Geometry(g') && StoreOK(g, kinds, q) && c !in kinds && RestKept(g, g', c, {})
    requires |g'.bits| == |g.bits| && g'.bits == g.bits && Blk(g', c) == q && InodeOK(g', c, kind)
    ensures StoreOK(g', kinds[c := kind], {})
    ensures forall m :: m in kinds ==> m < MAX_FILES_PER_PART && Untouched(g, g', m)
  {
    hide InodeOK, Blk, Untouched, StoreOK, Geometry, DataKept, Record;
    PendingKept(g, g', kinds, q);
    AppearFollows(g, g', q);
    Conclude(g, g', kinds, kinds[c := kind], c, q, {}, {});
  }

  lemma AppearFollows(g: Image, g': Image, q: set<u32>)
    requires |g'.bits| == |g.bits| && g'.bits == g.bits
    ensures BitsFollow(g, g', {}, q, q, {})
  {
  }

  /** A free block `b` was set aside; nothing else changed but its content. */
  lemma PendStep(g: Image, g': Image, kinds: map<u32, Kind>, b: u32)
    requires Geometry(g) && Geometry(g') && StoreOK(g, kinds, {}) && 0 in kinds && RestKept(g, g', 0, {b})
    requires Record(g'.disk, g.lba, 0) == Record(g.disk, g.lba, 0)
    requires Taken(g.bits, g'.bits, g.ds, |g.disk|, {b})
    ensures StoreOK(g', kinds, {b})
    ensures forall m :: m in kinds ==> m < MAX_FILES_PER_PART && Untouched(g, g', m)
  {
    hide InodeOK, Blk, Untouched, StoreOK, Geometry, Record, BitsFollow, DataKept, RestKept, Taken;
    forall m | m in kinds
      ensures m < MAX_FILES_PER_PART && b !in Blk(g, m) && Untouched(g, g', m) && Blk(g', m) == Blk(g, m)
    {
      PendUntouched(g, g', kinds, b, m);
    }
    PendFacts(g, g', b);
    PendFollows(g, g', kinds, b);
    PendInode(g, g', kinds, 0);
    BlocksApart(g, kinds, {}, 0);
    Conclude(g, g', kinds, kinds, 0, {}, {b}, {b});
  }

  lemma PendFacts(g: Image, g': Image, b: u32)
    requires Geometry(g) && Geometry(g') && RestKept(g, g', 0, {b}) && Taken(g.bits, g'.bits, g.ds, |g.disk|, {b})
    ensures |g'.bits| == |g.bits| && |g'.disk| == |g.disk| && g'.ds == g.ds
    ensures g.ds <= b < |g.disk| && b - g.ds < |g.bits| && g'.bits[b - g.ds]
    ensures forall i :: 0 <= i < |g.bits| && g.bits[i] ==> g'.bits[i]
  {
    assert b in {b};
    assert g.ds + (b - g.ds) == b;
  }

  lemma PendUntouched(g: Image, g': Image, kinds: map<u32, Kind>, b: u32, m: u32)
    requires Geometry(g) && Geometry(g') && StoreOK(g, kinds, {}) && m in kinds && RestKept(g, g', 0, {b})
    requires Record(g'.disk, g.lba, 0) == Record(g.disk, g.lba, 0)
    requires Taken(g.bits, g'.bits, g.ds, |g.disk|, {b})
    ensures m < MAX_FILES_PER_PART && b !in Blk(g, m) && Untouched(g, g', m) && Blk(g', m) == Blk(g, m)
  {
    hide StoreOK, Geometry, Record, DataKept, Untouched, SlotsI;
    BitsOfOwned(g, kinds, {}, m);
    FreeNotOwned(g, g', b, m);
    UntouchedBy(g, g', m, {b});
    UntouchedBlocks(g, g', m);
  }

  lemma FreeNotOwned(g: Image, g': Image, b: u32, m: u32)
    requires Geometry(g) && m < MAX_FILES_PER_PART && Taken(g.bits, g'.bits, g.ds, |g.disk|, {b})
    requires forall x :: x in Blk(g, m) ==> g.ds <= x < |g.disk| && x - g.ds < |g.bits| && g.bits[x - g.ds]
    ensures b !in Blk(g, m)
  {
    hide Blk, Geometry;
    assert b in {b};
  }

  lemma UntouchedBlocks(g: Image, g': Image, m: u32)
    requires Geometry(g) && Geometry(g') && m < MAX_FILES_PER_PART && Untouched(g, g', m)
    ensures Blk(g', m) == Blk(g, m)
  {
  }

  lemma PendFollows(g: Image, g': Image, kinds: map<u32, Kind>, b: u32)
    requires Geometry(g) && Geometry(g') && StoreOK(g, kinds, {}) && 0 in kinds
             && Taken(g.bits, g'.bits, g.ds, |g.disk|, {b})
    requires Blk(g', 0) == Blk(g, 0)
    ensures BitsFollow(g, g', Blk(g, 0), Blk(g', 0), {}, {b})
  {
    hide Blk, InodeOK;
    BitsOfOwned(g, kinds, {}, 0);
  }

  lemma PendInode(g: Image, g': Image, kinds: map<u32, Kind>, m: u32)
    requires Geometry(g) && Geometry(g') && StoreOK(g, kinds, {}) && m in kinds && m < MAX_FILES_PER_PART
    requires Untouched(g, g', m) && |g'.bits| == |g.bits| && |g'.disk| == |g.disk| && g'.ds == g.ds
    requires forall i :: 0 <= i < |g.bits| && g.bits[i] ==> g'.bits[i]
    ensures InodeOK(g', m, kinds[m])
  {
    assert InodeOK(g, m, kinds[m]);
    hide StoreOK;
    UntouchedShape(g, g', m, kinds[m]);
  }
}
