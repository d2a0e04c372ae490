/** What the sectors of an inode mean: its block map, its owned blocks and its content. These are
    the specification functions that the methods of the file system are proved against. */
module BlockMap {
  import opened Bytes
  import opened Bitmaps
  import opened Partitions

  const MAX_BLOCKS: nat := 140
  /** The slot that holds the block number of the indirect table itself. */
  const TABLE_SLOT: nat := 140
  const SLOTS: nat := 141

  /** The 128 entries of the indirect table; all zero when there is none. */
  function Table(sec: seq<u32>, disk: seq<Sector>): (t: seq<u32>)
    requires |sec| == 13
    ensures |t| == 128
  {
    if 0 < sec[TABLE] < |disk| then Words(disk[sec[TABLE]]) else Zeros(128)
  }

  /** Place number `k` of an inode that can name a block: 140 data blocks, then the indirect table. */
  function Slot(sec: seq<u32>, disk: seq<Sector>, k: nat): u32
    requires |sec| == 13 && k < SLOTS
  {
    if k < DIRECT then sec[k] else if k < MAX_BLOCKS then Table(sec, disk)[k - DIRECT] else sec[TABLE]
  }

  function Slots(sec: seq<u32>, disk: seq<Sector>): (s: seq<u32>)
    requires |sec| == 13
    ensures |s| == SLOTS
    ensures forall k {:trigger s[k]} :: 0 <= k < SLOTS ==> s[k] == Slot(sec, disk, k)
  {
    seq<u32>(SLOTS, k requires 0 <= k < SLOTS => Slot(sec, disk, k))
  }

  function DiskByte(disk: seq<Sector>, lba: nat, off: nat): byte
    requires off < 512
  {
    if lba < |disk| then disk[lba][off] else 0
  }

  /** The blocks of a file in order, cut at its size: its first `size` bytes. */
  function Content(sec: seq<u32>, size: nat, disk: seq<Sector>): (c: seq<byte>)
    requires |sec| == 13 && size <= 512 * MAX_BLOCKS
    ensures |c| == size
  {
    if size == 0 then [] else
      Content(sec, size - 1, disk) + [DiskByte(disk, Slots(sec, disk)[(size - 1) / 512], (size - 1) % 512)]
  }

  lemma {:induction false} ContentAt(sec: seq<u32>, size: nat, disk: seq<Sector>, p: nat)
    requires |sec| == 13 && p < size <= 512 * MAX_BLOCKS
    ensures Content(sec, size, disk)[p] == DiskByte(disk, Slots(sec, disk)[p / 512], p % 512)
  {
    if p < size - 1 {
      ContentAt(sec, size - 1, disk, p);
    }
  }

  /** The number of data blocks that a regular file keeps: always one more than full blocks. */
  function UsedBlocks(sec: seq<u32>, size: nat): nat
    requires |sec| == 13
  {
    if sec[0] == 0 then 0 else size / 512 + 1
  }

  /** `used` data blocks are mapped, without holes, and the indirect table exists iff it is needed. */
  ghost predicate Mapped(slots: seq<u32>, used: nat)
    requires |slots| == SLOTS
  {
    && (forall k :: 0 <= k < MAX_BLOCKS ==> (slots[k] != 0 <==> k < used))
    && (slots[TABLE_SLOT] != 0 <==> used > DIRECT)
  }

  /** The shape that `file_write` keeps for a regular file. */
  ghost predicate FileShape(sec: seq<u32>, size: nat, disk: seq<Sector>)
    requires |sec| == 13
  {
    && size < 512 * MAX_BLOCKS
    && (sec[0] == 0 ==> size == 0)
    && Mapped(Slots(sec, disk), UsedBlocks(sec, size))
  }

  /** Each used slot names a data block of the disk whose bit is set, and no block is named twice. */
  ghost predicate Owns(slots: seq<u32>, bits: seq<bool>, ds: nat, limit: nat) {
    && (forall k :: 0 <= k < |slots| && slots[k] != 0 ==>
          ds <= slots[k] < limit && slots[k] - ds < |bits| && bits[slots[k] - ds])
    && (forall j, k :: 0 <= j < k < |slots| && slots[j] != 0 ==> slots[j] != slots[k])
  }

  /** The blocks that the slots have gained. */
  ghost function Gained(slots: seq<u32>, slots': seq<u32>): set<u32>
    requires |slots| == |slots'|
  {
    set k | 0 <= k < |slots| && slots[k] == 0 && slots'[k] != 0 :: slots'[k]
  }

  /** `got` is a set of blocks whose bits were clear; exactly those bits have been set. */
  ghost predicate Taken(bits: seq<bool>, bits': seq<bool>, ds: nat, limit: nat, got: set<u32>) {
    && |bits'| == |bits|
    && (forall b :: b in got ==> ds <= b < limit && b - ds < |bits| && !bits[b - ds])
    && (forall i :: 0 <= i < |bits| ==> (bits'[i] <==> bits[i] || ds + i in got))
  }

  /** An inode grew from `slots` to `slots'`: nothing it had was changed, what it gained are blocks
      that were free, each in one slot, and the bit map has changed by exactly those. */
  ghost predicate Grew(slots: seq<u32>, bits: seq<bool>, slots': seq<u32>, bits': seq<bool>, ds: nat, limit: nat) {
    && |slots'| == |slots|
    && (forall k :: 0 <= k < |slots| && slots[k] != 0 ==> slots'[k] == slots[k])
    && Taken(bits, bits', ds, limit, Gained(slots, slots'))
    && (forall j, k :: 0 <= j < k < |slots| && slots[j] == 0 && slots[k] == 0 && slots'[j] != 0 ==>
          slots'[j] != slots'[k])
  }

  /** No bit was cleared. */
  ghost predicate BitsGrow(bits: seq<bool>, bits': seq<bool>) {
    |bits'| == |bits| && forall i :: 0 <= i < |bits| && bits[i] ==> bits'[i]
  }

  lemma TakenGrows(bits: seq<bool>, bits': seq<bool>, ds: nat, limit: nat, got: set<u32>)
    requires Taken(bits, bits', ds, limit, got)
    ensures BitsGrow(bits, bits')
    ensures got == {} ==> bits' == bits
    ensures 0 < ds ==> 0 !in got
  {
  }

  lemma OwnsGrows(slots: seq<u32>, bits: seq<bool>, bits': seq<bool>, ds: nat, limit: nat)
    requires Owns(slots, bits, ds, limit) && BitsGrow(bits, bits')
    ensures Owns(slots, bits', ds, limit)
  {
  }

  lemma TakenOneMore(bits: seq<bool>, bits': seq<bool>, ds: nat, limit: nat, got: set<u32>, lba: u32)
    requires Taken(bits, bits', ds, limit, got)
    requires ds <= lba < limit && lba - ds < |bits'| && !bits'[lba - ds]
    ensures lba !in got && |got + {lba}| == |got| + 1
    ensures Taken(bits, bits'[lba - ds := true], ds, limit, got + {lba})
    ensures FreeCount(bits'[lba - ds := true]) == FreeCount(bits') - 1
  {
    assert ds + (lba - ds) == lba;
  }

  lemma TakenInRange(bits: seq<bool>, bits': seq<bool>, ds: nat, limit: nat, got: set<u32>, b: u32)
    requires Taken(bits, bits', ds, limit, got) && b in got
    ensures ds <= b < limit
  {
  }

  lemma GrewKeepsOwns(slots: seq<u32>, bits: seq<bool>, slots': seq<u32>, bits': seq<bool>, ds: nat, limit: nat)
    requires Owns(slots, bits, ds, limit) && Grew(slots, bits, slots', bits', ds, limit)
    ensures Owns(slots', bits', ds, limit)
  {
    forall k | 0 <= k < |slots'| && slots'[k] != 0
      ensures ds <= slots'[k] < limit && slots'[k] - ds < |bits'| && bits'[slots'[k] - ds]
      ensures slots[k] != 0 || slots'[k] in Gained(slots, slots')
    {
      if slots[k] == 0 {
        assert slots'[k] in Gained(slots, slots');
        assert ds + (slots'[k] - ds) == slots'[k];
      }
    }
  }

  /** The entries `lo..hi` of a block list. */
  ghost function Entries(all: seq<u32>, lo: nat, hi: nat): set<u32>
    requires lo <= hi <= |all|
  {
    set k | lo <= k < hi :: all[k]
  }

  /** New blocks fill the entries `lo..hi` of `all`, and of the inode where they are direct; the set
      of blocks taken went from `got0` to `got`. */
  ghost predicate Filled(sec0: seq<u32>, all0: seq<u32>, got0: set<u32>, lo: nat, hi: nat,
                         sec: seq<u32>, all: seq<u32>, got: set<u32>)
  {
    && |sec0| == |sec| == 13 && |all0| == |all| == MAX_BLOCKS && lo <= hi <= MAX_BLOCKS
    && (forall k :: lo <= k < hi && k < DIRECT ==> sec[k] == all[k])
    && (forall k :: 0 <= k < 13 && !(lo <= k < hi && k < DIRECT) ==> sec[k] == sec0[k])
    && (forall k :: 0 <= k < MAX_BLOCKS && !(lo <= k < hi) ==> all[k] == all0[k])
    && got == got0 + Entries(all, lo, hi)
    && got0 !! Entries(all, lo, hi)
    && |got| == |got0| + (hi - lo)
    && (forall j, k :: lo <= j < k < hi ==> all[j] != all[k])
  }

  lemma EntriesOneMore(all: seq<u32>, lo: nat, hi: nat, lba: u32)
    requires lo <= hi < |all|
    ensures Entries(all[hi := lba], lo, hi + 1) == Entries(all, lo, hi) + {lba}
  {
    var all' := all[hi := lba];
    forall b | b in Entries(all, lo, hi)
      ensures b in Entries(all', lo, hi + 1)
    {
      var k :| lo <= k < hi && all[k] == b;
      assert all'[k] == b;
    }
    assert all'[hi] == lba;
  }

  lemma FilledOneMore(sec0: seq<u32>, all0: seq<u32>, got0: set<u32>, lo: nat, hi: nat,
                      sec: seq<u32>, all: seq<u32>, got: set<u32>, lba: u32, sec': seq<u32>, all': seq<u32>)
    requires Filled(sec0, all0, got0, lo, hi, sec, all, got) && hi < MAX_BLOCKS && lba !in got
    requires all' == all[hi := lba] && sec' == if hi < DIRECT then sec[hi := lba] else sec
    ensures Filled(sec0, all0, got0, lo, hi + 1, sec', all', got + {lba})
  {
    EntriesOneMore(all, lo, hi, lba);
    forall k | lo <= k < hi
      ensures all[k] != lba
    {
      assert all[k] in Entries(all, lo, hi);
    }
    forall j, k | lo <= j < k < hi + 1
      ensures all'[j] != all'[k]
    {
      if k < hi {
        assert all[j] != all[k];
      }
    }
    forall k | lo <= k < hi + 1 && k < DIRECT
      ensures sec'[k] == all'[k]
    {
      if k < hi {
        assert sec[k] == all[k];
      }
    }
  }

  /** The slots after an allocation: data blocks `used..will` are the entries of `all`, and a table
      block `t` is added when the twelfth data block is passed. */
  lemma MappedAfter(slots: seq<u32>, bits: seq<bool>, slots': seq<u32>, bits': seq<bool>, ds: nat, limit: nat,
                    used: nat, will: nat, all: seq<u32>, t: set<u32>)
    requires |slots| == |slots'| == SLOTS && |all| == MAX_BLOCKS && 0 < ds
    requires Mapped(slots, used) && used <= will <= MAX_BLOCKS
    requires forall k :: 0 <= k < used ==> slots'[k] == slots[k]
    requires forall k :: used <= k < will ==> slots'[k] == all[k]
    requires forall k :: will <= k < MAX_BLOCKS ==> slots'[k] == 0
    requires t == if used <= DIRECT < will then {slots'[TABLE_SLOT]} else {}
    requires t == {} ==> slots'[TABLE_SLOT] == slots[TABLE_SLOT]
    requires forall j, k :: used <= j < k < will ==> all[j] != all[k]
    requires forall k :: used <= k < will ==> all[k] !in t
    requires Taken(bits, bits', ds, limit, Entries(all, used, will) + t)
    ensures Mapped(slots', will)
    ensures Grew(slots, bits, slots', bits', ds, limit)
  {
    var news := Entries(all, used, will);
    forall k | used <= k < will
      ensures slots'[k] != 0
    {
      assert all[k] in news;
    }
    assert t != {} ==> slots'[TABLE_SLOT] in t;
    assert Gained(slots, slots') == news + t by {
      forall b | b in news + t
        ensures b in Gained(slots, slots')
      {
        if b in news {
          var k :| used <= k < will && all[k] == b;
          assert slots[k] == 0 && slots'[k] == b;
        } else {
          assert slots[TABLE_SLOT] == 0 && slots'[TABLE_SLOT] == b;
        }
      }
      forall b | b in Gained(slots, slots')
        ensures b in news + t
      {
        var k :| 0 <= k < SLOTS && slots[k] == 0 && slots'[k] != 0 && slots'[k] == b;
        if k < MAX_BLOCKS {
          assert used <= k < will;
        }
      }
    }
    forall j, k | 0 <= j < k < SLOTS && slots[j] == 0 && slots[k] == 0 && slots'[j] != 0
      ensures slots'[j] != slots'[k]
    {
      assert used <= j < will;
      if k == TABLE_SLOT && slots'[k] != 0 {
        assert slots'[k] in t;
      }
    }
  }

  /** The number of blocks that a write needs: one if the file has none yet, those between the last
      block it has and the last block it will have, and one for the table. */
  function BlocksNeeded(sec: seq<u32>, size: nat, count: nat): nat
    requires |sec| == 13
  {
    var has := size / 512 + 1;
    var will := (size + count) / 512 + 1;
    (if sec[0] == 0 then 1 else 0) + (will - has) + (if has <= DIRECT < will then 1 else 0)
  }

  /** The block list of an inode that a write of `count` bytes brings into the assertions of
      `file_write` at lines 296 and 317: an entry that it is about to fill names a block already. */
  predicate StaleEntry(sec: seq<u32>, size: nat, count: nat)
    requires |sec| == 13
  {
    var has, will := size / 512 + 1, (size + count) / 512 + 1;
    has < will <= MAX_BLOCKS && has <= DIRECT && if will <= DIRECT then sec[has] != 0 else sec[TABLE] != 0
  }

  lemma SameTable(sec: seq<u32>, sec': seq<u32>, disk: seq<Sector>, disk': seq<Sector>)
    requires |sec| == |sec'| == 13 && |disk| == |disk'| && sec[TABLE] == sec'[TABLE]
    requires 0 < sec[TABLE] < |disk| ==> disk'[sec[TABLE]] == disk[sec[TABLE]]
    ensures Table(sec', disk') == Table(sec, disk)
  {
  }

  lemma MappedSectors(sec: seq<u32>, disk: seq<Sector>, used: nat)
    requires |sec| == 13 && Mapped(Slots(sec, disk), used)
    ensures forall k :: 0 <= k < DIRECT ==> (sec[k] != 0 <==> k < used)
    ensures sec[TABLE] != 0 <==> used > DIRECT
  {
    assert sec[TABLE] == Slots(sec, disk)[TABLE_SLOT];
    forall k | 0 <= k < DIRECT
      ensures sec[k] != 0 <==> k < used
    {
      assert sec[k] == Slots(sec, disk)[k];
    }
  }

  /** Situation 1 of `file_write`: only direct blocks were added. */
  lemma DirectGrown(sec0: seq<u32>, disk0: seq<Sector>, bits0: seq<bool>, sec: seq<u32>, disk: seq<Sector>,
                    bits: seq<bool>,
                    ds: nat, limit: nat, has: nat, will: nat, all0: seq<u32>, all: seq<u32>, got: set<u32>)
    requires 0 < ds && |sec0| == 13 && |all0| == MAX_BLOCKS && |disk| == |disk0| && 1 <= has <= will <= DIRECT
    requires all0[has - 1] == sec0[has - 1]
    requires Mapped(Slots(sec0, disk0), has)
    requires Filled(sec0, all0, {}, has, will, sec, all, got)
    requires Taken(bits0, bits, ds, limit, got)
    ensures Grew(Slots(sec0, disk0), bits0, Slots(sec, disk), bits, ds, limit)
    ensures Mapped(Slots(sec, disk), will)
    ensures forall k :: has - 1 <= k < will ==> all[k] == Slots(sec, disk)[k]
  {
    assert sec[TABLE] == Slots(sec0, disk0)[TABLE_SLOT] == 0;
    assert Table(sec, disk) == Zeros(128);
    MappedSectors(sec0, disk0, has);
    forall k | will <= k < MAX_BLOCKS
      ensures Slots(sec, disk)[k] == 0
    {
      assert k < DIRECT ==> sec[k] == sec0[k];
    }
    assert got == Entries(all, has, will) + {};
    MappedAfter(Slots(sec0, disk0), bits0, Slots(sec, disk), bits, ds, limit, has, will, all, {});
  }

  lemma TableWritten(sec: seq<u32>, disk: seq<Sector>, all: seq<u32>)
    requires |sec| == 13 && |all| == MAX_BLOCKS
    requires 0 < sec[TABLE] < |disk| && disk[sec[TABLE]] == BytesOf(all[DIRECT..])
    ensures forall k :: DIRECT <= k < MAX_BLOCKS ==> all[k] == Slots(sec, disk)[k]
  {
    WordsOfBytes(all[DIRECT..]);
    assert Table(sec, disk) == all[DIRECT..];
    forall k | DIRECT <= k < MAX_BLOCKS
      ensures all[k] == Slots(sec, disk)[k]
    {
      assert all[DIRECT..][k - DIRECT] == all[k];
    }
  }

  /** Situation 2: a new indirect table was written from `all`. */
  lemma NewTableGrown(sec0: seq<u32>, disk0: seq<Sector>, bits0: seq<bool>, sec: seq<u32>, disk: seq<Sector>,
                      bits: seq<bool>,
                      ds: nat, limit: nat, has: nat, will: nat, all0: seq<u32>, all: seq<u32>, table: u32,
                          got: set<u32>)
    requires 0 < ds && |sec0| == 13 && |sec| == 13 && |all0| == |all| == MAX_BLOCKS
             && 1 <= has <= DIRECT < will <= MAX_BLOCKS
    requires all0[has - 1] == sec0[has - 1]
    requires Mapped(Slots(sec0, disk0), has)
    requires Filled(sec0[TABLE := table], all0, {table}, has, will, sec, all, got)
    requires forall k :: DIRECT <= k < MAX_BLOCKS ==> all0[k] == 0
    requires 0 < table < |disk| && disk[table] == BytesOf(all[DIRECT..])
    requires Taken(bits0, bits, ds, limit, got)
    ensures Grew(Slots(sec0, disk0), bits0, Slots(sec, disk), bits, ds, limit)
    ensures Mapped(Slots(sec, disk), will)
    ensures sec[TABLE] == table
    ensures forall k :: has - 1 <= k < will ==> all[k] == Slots(sec, disk)[k]
  {
    hide Grew, Mapped, Taken, BytesOf;
    var slots0, slots := Slots(sec0, disk0), Slots(sec, disk);
    TableWritten(sec, disk, all);
    NewTableEntries(sec0, all0, has, will, sec, all, table, got);
    assert slots[TABLE_SLOT] == table;
    NewTableSlots(sec0, disk0, sec, disk, has, will, all0, all, table);
    NewTableFirst(sec0, disk0, sec, disk, has, will, all);
    hide Slots, Filled;
    MappedAfter(slots0, bits0, slots, bits, ds, limit, has, will, all, {table});
  }

  lemma NewTableEntries(sec0: seq<u32>, all0: seq<u32>, has: nat, will: nat, sec: seq<u32>, all: seq<u32>, table: u32,
                        got: set<u32>)
    requires |sec0| == 13 && Filled(sec0[TABLE := table], all0, {table}, has, will, sec, all, got)
    ensures got == Entries(all, has, will) + {table} && sec[TABLE] == table
    ensures forall k :: has <= k < will ==> all[k] !in {table}
    ensures forall j, k :: has <= j < k < will ==> all[j] != all[k]
    ensures forall k :: has <= k < DIRECT && k < will ==> sec[k] == all[k]
    ensures forall k :: 0 <= k < has && k < DIRECT ==> sec[k] == sec0[k]
    ensures forall k :: 0 <= k < MAX_BLOCKS && !(has <= k < will) ==> all[k] == all0[k]
  {
    forall k | has <= k < will
      ensures all[k] !in {table}
    {
      assert all[k] in Entries(all, has, will);
    }
  }

  lemma NewTableFirst(sec0: seq<u32>, disk0: seq<Sector>, sec: seq<u32>, disk: seq<Sector>, has: nat, will: nat,
                      all: seq<u32>)
    requires |sec0| == 13 && |sec| == 13 && |all| == MAX_BLOCKS && 1 <= has <= DIRECT < will <= MAX_BLOCKS
    requires forall k :: has <= k < DIRECT ==> sec[k] == all[k]
    requires forall k :: DIRECT <= k < MAX_BLOCKS ==> all[k] == Slots(sec, disk)[k]
    requires all[has - 1] == sec0[has - 1] == sec[has - 1]
    ensures forall k :: has - 1 <= k < will ==> all[k] == Slots(sec, disk)[k]
  {
  }

  lemma NewTableSlots(sec0: seq<u32>, disk0: seq<Sector>, sec: seq<u32>, disk: seq<Sector>,
                      has: nat, will: nat, all0: seq<u32>, all: seq<u32>, table: u32)
    requires |sec0| == 13 && |sec| == 13 && |all0| == |all| == MAX_BLOCKS && 1 <= has <= DIRECT < will <= MAX_BLOCKS
    requires sec[TABLE] == table
    requires forall k :: has <= k < DIRECT ==> sec[k] == all[k]
    requires forall k :: 0 <= k < has ==> sec[k] == sec0[k]
    requires forall k :: DIRECT <= k < MAX_BLOCKS && !(has <= k < will) ==> all[k] == all0[k]
    requires forall k :: DIRECT <= k < MAX_BLOCKS ==> all0[k] == 0
    requires forall k :: DIRECT <= k < MAX_BLOCKS ==> all[k] == Slots(sec, disk)[k]
    ensures forall k :: 0 <= k < has ==> Slots(sec, disk)[k] == Slots(sec0, disk0)[k]
    ensures forall k :: will <= k < MAX_BLOCKS ==> Slots(sec, disk)[k] == 0
  {
  }

  /** Situation 3: the indirect table that the file had was read into `all`, extended and written. */
  lemma OldTableGrown(sec: seq<u32>, disk0: seq<Sector>, bits0: seq<bool>, disk: seq<Sector>, bits: seq<bool>,
                      ds: nat, limit: nat, has: nat, will: nat, all0: seq<u32>, all: seq<u32>, got: set<u32>)
    requires 0 < ds && |sec| == 13 && |all| == MAX_BLOCKS && DIRECT < has <= will <= MAX_BLOCKS
    requires Mapped(Slots(sec, disk0), has)
    requires Filled(sec, all0, {}, has, will, sec, all, got)
    requires forall k :: DIRECT <= k < MAX_BLOCKS ==> all0[k] == Slots(sec, disk0)[k]
    requires 0 < sec[TABLE] < |disk| && disk[sec[TABLE]] == BytesOf(all[DIRECT..])
    requires Taken(bits0, bits, ds, limit, got)
    ensures Grew(Slots(sec, disk0), bits0, Slots(sec, disk), bits, ds, limit)
    ensures Mapped(Slots(sec, disk), will)
    ensures forall k :: DIRECT <= k < will ==> all[k] == Slots(sec, disk)[k]
  {
    TableWritten(sec, disk, all);
    assert got == Entries(all, has, will) + {};
    var slots0, slots := Slots(sec, disk0), Slots(sec, disk);
    MappedAfter(slots0, bits0, slots, bits, ds, limit, has, will, all, {});
  }

  lemma GrewTrans(s0: seq<u32>, b0: seq<bool>, s1: seq<u32>, b1: seq<bool>, s2: seq<u32>, b2: seq<bool>, ds: nat,
                  limit: nat)
    requires |s0| == |s1| && 0 < ds
    requires Grew(s0, b0, s1, b1, ds, limit) && Grew(s1, b1, s2, b2, ds, limit)
    ensures Grew(s0, b0, s2, b2, ds, limit)
  {
    var g01, g12, g02 := Gained(s0, s1), Gained(s1, s2), Gained(s0, s2);
    forall k | 0 <= k < |s0| && s0[k] == 0 && s2[k] != 0
      ensures s2[k] in g01 || s2[k] in g12
      ensures s1[k] != 0 ==> s1[k] == s2[k] && s2[k] in g01
      ensures s1[k] == 0 ==> s2[k] in g12
    {
      if s1[k] != 0 {
        assert s1[k] in g01;
      } else {
        assert s2[k] in g12;
      }
    }
    assert g02 == g01 + g12 by {
      forall b | b in g01 + g12
        ensures b in g02
      {
        if b in g01 {
          var k :| 0 <= k < |s0| && s0[k] == 0 && s1[k] != 0 && s1[k] == b;
          assert s2[k] == b;
        } else {
          var k :| 0 <= k < |s0| && s1[k] == 0 && s2[k] != 0 && s2[k] == b;
          assert s0[k] == 0;
        }
      }
    }
    forall b | b in g12
      ensures b !in g01 && !b0[b - ds]
    {
      assert ds + (b - ds) == b;
    }
  }

  /** The blocks that the slots name. */
  ghost function BlocksOf(slots: seq<u32>): set<u32> {
    set k | 0 <= k < |slots| && slots[k] != 0 :: slots[k]
  }

  lemma BlocksAreData(slots: seq<u32>, bits: seq<bool>, ds: nat, limit: nat)
    requires Owns(slots, bits, ds, limit)
    ensures forall b :: b in BlocksOf(slots) ==> ds <= b < limit && b - ds < |bits| && bits[b - ds]
  {
  }

  lemma SlotInUse(slots: seq<u32>, bits: seq<bool>, ds: nat, limit: nat, used: nat, k: nat)
    requires |slots| == SLOTS && Owns(slots, bits, ds, limit) && Mapped(slots, used) && k < used <= MAX_BLOCKS
    ensures ds <= slots[k] < limit && slots[k] != 0
  {
  }

  /** The byte at position `p` of the file whose blocks are `slots`. */
  function FileByte(disk: seq<Sector>, slots: seq<u32>, p: nat): byte
    requires |slots| == SLOTS && p / 512 < MAX_BLOCKS
  {
    DiskByte(disk, slots[p / 512], p % 512)
  }

  /** The first `w` bytes of `buf` have been written behind the `size` bytes of a file, and nothing
      outside the file's data blocks has changed. */
  ghost predicate Written(disk0: seq<Sector>, disk: seq<Sector>, slots: seq<u32>, size: nat, buf: seq<byte>, w: nat)
    requires |slots| == SLOTS && w <= |buf| && size + |buf| < 512 * MAX_BLOCKS
  {
    && |disk| == |disk0|
    && (forall p :: 0 <= p < size ==> FileByte(disk, slots, p) == FileByte(disk0, slots, p))
    && (forall p :: size <= p < size + w ==> FileByte(disk, slots, p) == buf[p - size])
    && (forall lba :: 0 <= lba < |disk| && lba !in BlocksOf(slots) ==> disk[lba] == disk0[lba])
    && (0 < slots[TABLE_SLOT] < |disk| ==> disk[slots[TABLE_SLOT]] == disk0[slots[TABLE_SLOT]])
  }

  predicate Aligned(p: nat) {
    p % 512 == 0
  }

  /** The chunk that is written or read at position `p` when `left` bytes are to go. */
  function ChunkAt(p: nat, left: nat): (chunk: nat)
    requires left > 0
    ensures 0 < chunk <= left && p % 512 + chunk <= 512
    ensures chunk < left ==> Aligned(p + chunk)
  {
    if left < 512 - p % 512 then left else 512 - p % 512
  }

  /** One turn of the loop at lines 378-404 of `file_write`. */
  lemma ChunkWritten(disk0: seq<Sector>, disk: seq<Sector>, disk': seq<Sector>, slots: seq<u32>, size: nat,
                     buf: seq<byte>, w: nat, base: Sector, chunk: nat)
    requires |slots| == SLOTS && w < |buf| && size + |buf| < 512 * MAX_BLOCKS
    requires Written(disk0, disk, slots, size, buf, w)
    requires forall j, k :: 0 <= j < k < SLOTS && slots[j] != 0 ==> slots[j] != slots[k]
    requires 0 < slots[(size + w) / 512] < |disk|
    requires w == 0 ==> base == disk[slots[(size + w) / 512]]
    requires w > 0 ==> Aligned(size + w)
    requires chunk == ChunkAt(size + w, |buf| - w)
    requires disk' == disk[slots[(size + w) / 512] := Splice(base, (size + w) % 512, buf[w..w + chunk])]
    ensures Written(disk0, disk', slots, size, buf, w + chunk)
  {
    var i := (size + w) / 512;
    assert slots[i] in BlocksOf(slots);
    forall p | 0 <= p < size + w + chunk
      ensures FileByte(disk', slots, p) == if p < size + w then FileByte(disk, slots, p) else buf[p - size]
    {
      if p / 512 != i {
        assert p < size + w;
        assert slots[p / 512] != slots[i];
      } else if p >= size + w {
        assert p % 512 == (size + w) % 512 + (p - size - w);
      } else {
        assert p % 512 < (size + w) % 512;
      }
    }
    assert slots[TABLE_SLOT] != slots[i];
  }

  /** Above sector `ds` the two disks agree outside `blocks`. */
  ghost predicate DataKept(disk: seq<Sector>, disk': seq<Sector>, ds: nat, blocks: set<u32>) {
    && |disk'| == |disk|
    && forall lba :: ds <= lba < |disk| && lba !in blocks ==> disk'[lba] == disk[lba]
  }

  /** The map of an inode depends on its table block only. */
  lemma SlotsKept(sec: seq<u32>, disk: seq<Sector>, disk': seq<Sector>)
    requires |sec| == 13 && |disk'| == |disk|
    requires 0 < sec[TABLE] < |disk| ==> disk'[sec[TABLE]] == disk[sec[TABLE]]
    ensures Slots(sec, disk') == Slots(sec, disk)
  {
    SameTable(sec, sec, disk, disk');
  }

  /** The content of a file depends on the blocks it uses only. */
  lemma ContentKept(sec: seq<u32>, size: nat, disk: seq<Sector>, disk': seq<Sector>)
    requires |sec| == 13 && size <= 512 * MAX_BLOCKS && |disk'| == |disk|
    requires forall b :: b in BlocksOf(Slots(sec, disk)) && b < |disk| ==> disk'[b] == disk[b]
    requires forall k :: 0 <= k < MAX_BLOCKS && 512 * k < size ==> Slots(sec, disk)[k] != 0
    ensures Slots(sec, disk') == Slots(sec, disk)
    ensures Content(sec, size, disk') == Content(sec, size, disk)
  {
    var slots := Slots(sec, disk);
    assert slots[TABLE_SLOT] == sec[TABLE];
    SlotsKept(sec, disk, disk');
    forall p | 0 <= p < size
      ensures FileByte(disk', slots, p) == FileByte(disk, slots, p)
    {
      assert slots[p / 512] in BlocksOf(slots);
    }
    forall p | 0 <= p < size
      ensures Content(sec, size, disk')[p] == Content(sec, size, disk)[p]
    {
      ContentAt(sec, size, disk', p);
      ContentAt(sec, size, disk, p);
    }
  }

  /** The inode `i0` names a well-shaped regular file, all of whose blocks are its own. */
  ghost predicate GoodInode(i: Inode, disk: seq<Sector>, bits: seq<bool>, ds: nat) {
    && |i.sectors| == 13
    && FileShape(i.sectors, i.size, disk)
    && Owns(Slots(i.sectors, disk), bits, ds, |disk|)
  }

  /** `buf` was appended to a file: its content, its blocks, the bit map, and nothing else. */
  ghost predicate Appended(i0: Inode, disk0: seq<Sector>, bits0: seq<bool>,
                           i: Inode, disk: seq<Sector>, bits: seq<bool>, buf: seq<byte>, ds: nat)
    requires |i0.sectors| == 13 && i0.size + |buf| < 512 * MAX_BLOCKS
  {
    && GoodInode(i, disk, bits, ds)
    && i == i0.(size := i0.size + |buf|, sectors := i.sectors)
    && Content(i.sectors, i.size, disk) == Content(i0.sectors, i0.size, disk0) + buf
    && Grew(Slots(i0.sectors, disk0), bits0, Slots(i.sectors, disk), bits, ds, |disk|)
    && DataKept(disk0, disk, ds, BlocksOf(Slots(i.sectors, disk)))
  }

  lemma ContentIsSum(i0: Inode, disk0: seq<Sector>, slots0: seq<u32>, i: Inode, disk: seq<Sector>, slots: seq<u32>,
                     buf: seq<byte>)
    requires |i0.sectors| == |i.sectors| == 13 && i.size == i0.size + |buf| <= 512 * MAX_BLOCKS
    requires slots0 == Slots(i0.sectors, disk0) && slots == Slots(i.sectors, disk)
    requires forall p :: 0 <= p < i.size ==>
      FileByte(disk, slots, p) == if p < i0.size then FileByte(disk0, slots0, p) else buf[p - i0.size]
    ensures Content(i.sectors, i.size, disk) == Content(i0.sectors, i0.size, disk0) + buf
  {
    var c, c0 := Content(i.sectors, i.size, disk), Content(i0.sectors, i0.size, disk0);
    forall p | 0 <= p < i.size
      ensures c[p] == (c0 + buf)[p]
    {
      ContentAt(i.sectors, i.size, disk, p);
      assert c[p] == FileByte(disk, slots, p);
      if p < i0.size {
        ContentAt(i0.sectors, i0.size, disk0, p);
      }
    }
  }

  lemma WriteKeepsData(disk0: seq<Sector>, disk1: seq<Sector>, disk2: seq<Sector>, disk3: seq<Sector>, ds: nat,
                       slots: seq<u32>, size: nat, buf: seq<byte>)
    requires |slots| == SLOTS && 0 < ds && size + |buf| < 512 * MAX_BLOCKS
    requires DataKept(disk0, disk1, ds, {slots[TABLE_SLOT]})
    requires Written(disk1, disk2, slots, size, buf, |buf|)
    requires DataKept(disk2, disk3, ds, {})
    ensures DataKept(disk0, disk3, ds, BlocksOf(slots))
  {
    assert slots[TABLE_SLOT] == 0 || slots[TABLE_SLOT] in BlocksOf(slots);
  }

  /** One byte of the file after a write. */
  lemma ByteAppended(i0: Inode, disk0: seq<Sector>, bits0: seq<bool>, slots: seq<u32>, disk1: seq<Sector>,
                     bits: seq<bool>,
                     disk2: seq<Sector>, disk3: seq<Sector>, ds: nat, buf: seq<byte>, p: nat)
    requires GoodInode(i0, disk0, bits0, ds) && 0 < ds && p < i0.size + |buf| < 512 * MAX_BLOCKS && |slots| == SLOTS
    requires DataKept(disk0, disk1, ds, {slots[TABLE_SLOT]})
    requires Grew(Slots(i0.sectors, disk0), bits0, slots, bits, ds, |disk0|) && Owns(slots, bits, ds, |disk0|)
    requires Mapped(slots, (i0.size + |buf|) / 512 + 1)
    requires Written(disk1, disk2, slots, i0.size, buf, |buf|)
    requires DataKept(disk2, disk3, ds, {})
    ensures FileByte(disk3, slots, p) ==
            if p < i0.size then FileByte(disk0, Slots(i0.sectors, disk0), p) else buf[p - i0.size]
  {
    var slots0 := Slots(i0.sectors, disk0);
    SlotInUse(slots, bits, ds, |disk0|, (i0.size + |buf|) / 512 + 1, p / 512);
    hide Slots;
    assert FileByte(disk3, slots, p) == FileByte(disk2, slots, p);
    if p < i0.size {
      assert slots0[p / 512] != 0 && slots[p / 512] == slots0[p / 512];
      assert slots[p / 512] != slots[TABLE_SLOT];
      assert disk1[slots[p / 512]] == disk0[slots[p / 512]];
    }
  }

  /** The three phases of a successful `file_write`, seen together: `disk1` after the blocks were
      mapped, `disk2` after the data were stored, `disk3` after the inode was synced. */
  lemma ContentAppended(i0: Inode, disk0: seq<Sector>, bits0: seq<bool>, i: Inode, disk1: seq<Sector>, bits: seq<bool>,
                        disk2: seq<Sector>, disk3: seq<Sector>, ds: nat, buf: seq<byte>)
    requires GoodInode(i0, disk0, bits0, ds) && 0 < ds && i0.size + |buf| < 512 * MAX_BLOCKS
    requires |i.sectors| == 13 && i == i0.(size := i0.size + |buf|, sectors := i.sectors)
    requires DataKept(disk0, disk1, ds, {i.sectors[TABLE]})
    requires Grew(Slots(i0.sectors, disk0), bits0, Slots(i.sectors, disk1), bits, ds, |disk0|)
    requires Mapped(Slots(i.sectors, disk1), i.size / 512 + 1)
    requires Written(disk1, disk2, Slots(i.sectors, disk1), i0.size, buf, |buf|)
    requires DataKept(disk2, disk3, ds, {})
    ensures Appended(i0, disk0, bits0, i, disk3, bits, buf, ds)
  {
    var sec0, sec, size := i0.sectors, i.sectors, i0.size;
    var slots0, slots := Slots(sec0, disk0), Slots(sec, disk1);
    GrewKeepsOwns(slots0, bits0, slots, bits, ds, |disk0|);
    assert slots[TABLE_SLOT] == sec[TABLE] && slots[0] == sec[0];
    SlotsKept(sec, disk1, disk2);
    SlotsKept(sec, disk2, disk3);
    forall p | 0 <= p < size + |buf|
      ensures FileByte(disk3, slots, p) == if p < size then FileByte(disk0, slots0, p) else buf[p - size]
    {
      ByteAppended(i0, disk0, bits0, slots, disk1, bits, disk2, disk3, ds, buf, p);
    }
    ContentIsSum(i0, disk0, slots0, i, disk3, slots, buf);
    WriteKeepsData(disk0, disk1, disk2, disk3, ds, slots, size, buf);
  }

  /** `x` is what `c` holds from position `a` on. */
  ghost predicate PieceOf(x: seq<byte>, c: seq<byte>, a: nat) {
    a + |x| <= |c| && x == c[a..a + |x|]
  }

  lemma PieceFromBytes(x: seq<byte>, c: seq<byte>, a: nat)
    requires a + |x| <= |c| && forall q :: 0 <= q < |x| ==> x[q] == c[q + a]
    ensures PieceOf(x, c, a)
  {
  }

  lemma JoinPieces(x: seq<byte>, y: seq<byte>, c: seq<byte>, a: nat, b: nat)
    requires PieceOf(x, c, a) && b == a + |x| && PieceOf(y, c, b)
    ensures PieceOf(x + y, c, a)
  {
  }

  /** A piece of block number `k` is a piece of the content. */
  lemma ChunkOfContent(sec: seq<u32>, size: nat, disk: seq<Sector>, k: nat, off: nat, n: nat, pos: nat)
    requires |sec| == 13 && pos + n <= size <= 512 * MAX_BLOCKS && off + n <= 512 && pos == 512 * k + off
             && k < MAX_BLOCKS
    requires Slots(sec, disk)[k] < |disk|
    ensures PieceOf(disk[Slots(sec, disk)[k]][off..off + n], Content(sec, size, disk), pos)
  {
    var c, x := Content(sec, size, disk), disk[Slots(sec, disk)[k]][off..off + n];
    forall q | 0 <= q < |x|
      ensures x[q] == c[q + pos]
    {
      ByteInBlock(sec, size, disk, k, off + q, q + pos);
    }
    PieceFromBytes(x, c, pos);
  }

  lemma ByteInBlock(sec: seq<u32>, size: nat, disk: seq<Sector>, k: nat, o: nat, p: nat)
    requires |sec| == 13 && p < size <= 512 * MAX_BLOCKS && o < 512 && p == 512 * k + o
    ensures Content(sec, size, disk)[p] == DiskByte(disk, Slots(sec, disk)[k], o)
  {
    SameBlock(k, o);
    ContentAt(sec, size, disk, p);
  }

  lemma SameBlock(k: nat, off: nat)
    requires off < 512
    ensures (512 * k + off) / 512 == k && (512 * k + off) % 512 == off
  {
  }
}
