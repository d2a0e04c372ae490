/** The blocks of `sys_malloc` (`src/kernel/memory.c`): arenas of equal blocks with a free list for each
    of the seven block sizes, and page runs for larger requests. */
module HeapState {
  import opened Sequences

  const DESC_CNT: nat := 7
  const PAGE: nat := 4096
  const ARENA_SIZE: nat := 12

  /** The block size of descriptor `d`. */
  function BlockSize(d: nat): nat
    requires d < DESC_CNT
  {
    if d == 0 then 16 else if d == 1 then 32 else if d == 2 then 64 else if d == 3 then 128
    else if d == 4 then 256 else if d == 5 then 512 else 1024
  }

  function BlocksPerArena(d: nat): nat
    requires d < DESC_CNT
  {
    if d == 0 then 255 else if d == 1 then 127 else if d == 2 then 63 else if d == 3 then 31
    else if d == 4 then 15 else if d == 5 then 7 else 3
  }

  /** `block_desc_init`: the sizes double, an arena has as many blocks as fit behind its header, and the free
      lists are empty. */
  method BlockDescInit() returns (blockSizes: seq<nat>, blocksPerArena: seq<nat>, freeLists: seq<seq<nat>>)
    ensures |blockSizes| == |blocksPerArena| == |freeLists| == DESC_CNT
    ensures forall d :: 0 <= d < DESC_CNT ==>
              blockSizes[d] == BlockSize(d) && blocksPerArena[d] == BlocksPerArena(d) && freeLists[d] == []
  {
    blockSizes, blocksPerArena, freeLists := [], [], [];
    var blockSize := 16;
    var d := 0;
    while d < DESC_CNT
      invariant d <= DESC_CNT && |blockSizes| == |blocksPerArena| == |freeLists| == d
      invariant d < DESC_CNT ==> blockSize == BlockSize(d)
      invariant forall e :: 0 <= e < d ==>
                  blockSizes[e] == BlockSize(e) && blocksPerArena[e] == BlocksPerArena(e) && freeLists[e] == []
    {
      blockSizes := blockSizes + [blockSize];
      blocksPerArena := blocksPerArena + [(PAGE - ARENA_SIZE) / blockSize];
      freeLists := freeLists + [[]];
      blockSize := blockSize * 2;
      d := d + 1;
    }
  }

  /** `struct arena`: of small blocks with `cnt` free ones, or one large block of `cnt` pages. */
  datatype Arena = Small(d: nat, cnt: nat) | Large(cnt: nat)

  /** The heap: arenas by page number, the free list of each size, and, for each block handed out and not
      given back, the size that was asked for. */
  datatype Heap = Heap(arenas: map<nat, Arena>, free: seq<seq<nat>>, live: map<nat, nat>)

  /** `arena2block`. */
  function Slot(p: nat, d: nat, i: nat): nat
    requires d < DESC_CNT
  {
    PAGE * p + ARENA_SIZE + i * BlockSize(d)
  }

  /** `block2arena`. */
  function PageOf(x: nat): nat {
    x / PAGE
  }

  lemma SlotInPage(p: nat, d: nat, i: nat)
    requires d < DESC_CNT && i < BlocksPerArena(d)
    ensures PAGE * p + ARENA_SIZE <= Slot(p, d, i) && Slot(p, d, i) + BlockSize(d) <= PAGE * p + PAGE
    ensures PageOf(Slot(p, d, i)) == p
  {
    var s := Slot(p, d, i);
    assert i * BlockSize(d) <= (BlocksPerArena(d) - 1) * BlockSize(d) by {
      assert i <= BlocksPerArena(d) - 1;
    }
    assert s / PAGE == p;
  }

  /** Blocks of one arena do not overlap. */
  lemma SlotsApart(p: nat, d: nat, i: nat, j: nat)
    requires d < DESC_CNT && i < j
    ensures Slot(p, d, i) + BlockSize(d) <= Slot(p, d, j)
  {
    assert (i + 1) * BlockSize(d) <= j * BlockSize(d);
  }

  /** `x` is a block of the arena at its page, which has blocks of size number `d`. */
  ghost predicate IsBlock(arenas: map<nat, Arena>, x: nat, d: nat) {
    && d < DESC_CNT && PageOf(x) in arenas && arenas[PageOf(x)].Small? && arenas[PageOf(x)].d == d
    && exists i: nat :: i < BlocksPerArena(d) && x == Slot(PageOf(x), d, i)
  }

  /** The numbers of the blocks of arena `p` on the free list `q`. */
  ghost function FreeIdx(q: seq<nat>, p: nat, d: nat): set<nat>
    requires d < DESC_CNT
  {
    set i: nat | i < BlocksPerArena(d) && Slot(p, d, i) in q
  }

  function PageCnt(a: Arena): nat {
    if a.Small? then 1 else a.cnt
  }

  // ---- The invariant ----

  ghost predicate ListsOK(h: Heap) {
    && |h.free| == DESC_CNT
    && forall d :: 0 <= d < DESC_CNT ==> NoDup(h.free[d]) && forall x :: x in h.free[d] ==> IsBlock(h.arenas, x, d)
  }

  /** The counter of an arena is the number of its blocks on the free list, and each block is either on
      it or handed out. */
  ghost predicate ArenaOK(free: seq<seq<nat>>, live: map<nat, nat>, p: nat, a: Arena) {
    match a
    case Small(d, cnt) =>
      && d < DESC_CNT && d < |free| && cnt == |FreeIdx(free[d], p, d)|
      && forall i: nat :: i < BlocksPerArena(d) ==> (Slot(p, d, i) in free[d] <==> Slot(p, d, i) !in live)
    case Large(cnt) =>
      cnt >= 1 && PAGE * p + ARENA_SIZE in live
  }

  ghost predicate ArenasOK(h: Heap) {
    forall p :: p in h.arenas ==> ArenaOK(h.free, h.live, p, h.arenas[p])
  }

  /** What was handed out is a block that is large enough. */
  ghost predicate LiveOK(arenas: map<nat, Arena>, x: nat, size: nat) {
    && PageOf(x) in arenas
    && match arenas[PageOf(x)]
       case Small(d, _) => IsBlock(arenas, x, d) && 0 < size <= BlockSize(d)
       case Large(cnt) => x == PAGE * PageOf(x) + ARENA_SIZE && 0 < size && ARENA_SIZE + size <= PAGE * cnt
  }

  ghost predicate LivesOK(h: Heap) {
    forall x :: x in h.live ==> LiveOK(h.arenas, x, h.live[x])
  }

  /** Arenas do not share pages. */
  ghost predicate Apart(arenas: map<nat, Arena>) {
    forall p, q :: p in arenas && q in arenas && p < q ==> p + PageCnt(arenas[p]) <= q
  }

  ghost predicate HeapBase(h: Heap) {
    ListsOK(h) && ArenasOK(h) && LivesOK(h) && Apart(h.arenas)
  }

  /** At least one block of each arena, but for those in `except`, is handed out. */
  ghost predicate InUse(arenas: map<nat, Arena>, except: set<nat>) {
    forall p :: p in arenas && p !in except && arenas[p].Small? && arenas[p].d < DESC_CNT ==>
      arenas[p].cnt < BlocksPerArena(arenas[p].d)
  }

  ghost predicate HeapOK(h: Heap) {
    HeapBase(h) && InUse(h.arenas, {})
  }

  lemma BlocksApart(arenas: map<nat, Arena>, x: nat, y: nat, d: nat)
    requires IsBlock(arenas, x, d) && IsBlock(arenas, y, d) && PageOf(x) == PageOf(y) && x < y
    ensures x + BlockSize(d) <= y
  {
    var p: nat := PageOf(x);
    var i: nat :| i < BlocksPerArena(d) && x == Slot(p, d, i);
    var j: nat :| j < BlocksPerArena(d) && y == Slot(p, d, j);
    if j < i {
      SlotsApart(p, d, j, i);
    } else if i < j {
      SlotsApart(p, d, i, j);
    }
  }

  /** A block ends within the pages of its arena, and begins after the arena header. */
  lemma EndsInArena(arenas: map<nat, Arena>, x: nat, size: nat)
    requires LiveOK(arenas, x, size)
    ensures PageOf(x) in arenas && PAGE * PageOf(x) + ARENA_SIZE <= x
    ensures x + size <= PAGE * (PageOf(x) + PageCnt(arenas[PageOf(x)]))
  {
    if arenas[PageOf(x)].Small? {
      var d := arenas[PageOf(x)].d;
      var i: nat :| i < BlocksPerArena(d) && x == Slot(PageOf(x), d, i);
      SlotInPage(PageOf(x), d, i);
    }
  }

  /** No two blocks that are handed out overlap. */
  lemma NoOverlap(h: Heap, x: nat, y: nat)
    requires HeapOK(h) && x in h.live && y in h.live && x < y
    ensures x + h.live[x] <= y
  {
    hide ListsOK, ArenasOK, InUse, IsBlock;
    var p: nat, q: nat := PageOf(x), PageOf(y);
    assert LiveOK(h.arenas, x, h.live[x]) && LiveOK(h.arenas, y, h.live[y]);
    if p == q {
      if h.arenas[p].Small? {
        BlocksApart(h.arenas, x, y, h.arenas[p].d);
      }
    } else {
      EndsInArena(h.arenas, x, h.live[x]);
      PagesApart(h.arenas, x, y);
    }
  }

  lemma PagesApart(arenas: map<nat, Arena>, x: nat, y: nat)
    requires Apart(arenas) && x < y && PageOf(x) in arenas && PageOf(y) in arenas && PageOf(x) != PageOf(y)
    ensures PAGE * (PageOf(x) + PageCnt(arenas[PageOf(x)])) <= y
  {
    var p: nat, q: nat := PageOf(x), PageOf(y);
    assert p < q;
    assert p + PageCnt(arenas[p]) <= q;
  }

  // ---- Small blocks ----

  function SlotsUpTo(p: nat, d: nat, n: nat): (q: seq<nat>)
    requires d < DESC_CNT
    ensures |q| == n && forall i {:trigger q[i]} :: 0 <= i < n ==> q[i] == Slot(p, d, i)
  {
    if n == 0 then [] else SlotsUpTo(p, d, n - 1) + [Slot(p, d, n - 1)]
  }

  lemma SlotsDistinct(p: nat, d: nat, i: nat, j: nat)
    requires d < DESC_CNT && Slot(p, d, i) == Slot(p, d, j)
    ensures i == j
  {
    if i < j {
      SlotsApart(p, d, i, j);
    } else if j < i {
      SlotsApart(p, d, j, i);
    }
  }

  lemma SlotsDiffer(p: nat, d: nat, i: nat, j: nat)
    requires d < DESC_CNT && i != j
    ensures Slot(p, d, i) != Slot(p, d, j)
  {
    if Slot(p, d, i) == Slot(p, d, j) {
      SlotsDistinct(p, d, i, j);
    }
  }

  /** The numbers below `n`. */
  function Upto(n: nat): (s: set<nat>)
    ensures |s| == n && forall i: nat :: i in s <==> i < n
  {
    if n == 0 then {} else Upto(n - 1) + {n - 1}
  }

  lemma {:induction false} SubsetSize(s: set<nat>, t: set<nat>)
    requires s <= t
    ensures |s| <= |t| && (|s| == |t| ==> s == t)
    decreases |s|
  {
    if s != {} {
      var x :| x in s;
      SubsetSize(s - {x}, t - {x});
      assert s == (s - {x}) + {x} && t == (t - {x}) + {x};
    }
  }

  /** If the counter of an arena reaches the number of its blocks, all are on the free list: the
      assertion of `sys_free` on each block it takes off the list. */
  lemma AllFree(q: seq<nat>, p: nat, d: nat)
    requires d < DESC_CNT
    ensures |FreeIdx(q, p, d)| <= BlocksPerArena(d)
    ensures |FreeIdx(q, p, d)| == BlocksPerArena(d) <==> forall i: nat :: i < BlocksPerArena(d) ==> Slot(p, d, i) in q
  {
    var all := Upto(BlocksPerArena(d));
    SubsetSize(FreeIdx(q, p, d), all);
    if forall i: nat :: i < BlocksPerArena(d) ==> Slot(p, d, i) in q {
      assert FreeIdx(q, p, d) == all;
    }
    if |FreeIdx(q, p, d)| == BlocksPerArena(d) {
      forall i: nat | i < BlocksPerArena(d)
        ensures Slot(p, d, i) in q
      {
        assert i in all;
      }
    }
  }

  /** A new arena of small blocks at page `p`, all of them free. */
  function Refilled(h: Heap, p: nat, d: nat): Heap
    requires d < DESC_CNT && d < |h.free|
  {
    h.(arenas := h.arenas[p := Small(d, BlocksPerArena(d))],
       free := h.free[d := h.free[d] + SlotsUpTo(p, d, BlocksPerArena(d))])
  }

  /** Pages `p..p + n` belong to no arena. */
  ghost predicate Unused(arenas: map<nat, Arena>, p: nat, n: nat) {
    forall q :: q in arenas ==> q + PageCnt(arenas[q]) <= p || p + n <= q
  }

  lemma IsBlockSame(arenas: map<nat, Arena>, arenas': map<nat, Arena>, x: nat, d: nat)
    requires IsBlock(arenas, x, d) && PageOf(x) in arenas' && arenas'[PageOf(x)].Small? && arenas'[PageOf(x)].d == d
    ensures IsBlock(arenas', x, d)
  {
  }

  lemma FreeIdxSame(q: seq<nat>, q': seq<nat>, p: nat, d: nat)
    requires d < DESC_CNT
    requires forall i: nat :: i < BlocksPerArena(d) ==> (Slot(p, d, i) in q' <==> Slot(p, d, i) in q)
    ensures FreeIdx(q', p, d) == FreeIdx(q, p, d)
  {
  }

  /** Page numbers of arenas without pages are out of the way. */
  lemma UnusedIsNew(arenas: map<nat, Arena>, p: nat, n: nat)
    requires Unused(arenas, p, n) && n > 0 && forall q :: q in arenas ==> PageCnt(arenas[q]) >= 1
    ensures p !in arenas
  {
  }

  lemma PagesPositive(h: Heap)
    requires ArenasOK(h)
    ensures forall q :: q in h.arenas ==> PageCnt(h.arenas[q]) >= 1
  {
    forall q | q in h.arenas
      ensures PageCnt(h.arenas[q]) >= 1
    {
      assert ArenaOK(h.free, h.live, q, h.arenas[q]);
    }
  }

  lemma RefillKeeps(h: Heap, p: nat, d: nat)
    requires HeapBase(h) && d < DESC_CNT && h.free[d] == [] && Unused(h.arenas, p, 1)
    ensures p !in h.arenas && HeapBase(Refilled(h, p, d))
  {
    PagesPositive(h);
    UnusedIsNew(h.arenas, p, 1);
    var h' := Refilled(h, p, d);
    RefillLists(h, p, d);
    forall q | q in h'.arenas
      ensures ArenaOK(h'.free, h'.live, q, h'.arenas[q])
    {
      RefillArena(h, p, d, q);
    }
    forall x | x in h'.live
      ensures LiveOK(h'.arenas, x, h'.live[x])
    {
      assert LiveOK(h.arenas, x, h.live[x]);
    }
  }

  lemma NewSlots(arenas: map<nat, Arena>, p: nat, d: nat)
    requires d < DESC_CNT && p in arenas && arenas[p].Small? && arenas[p].d == d
    ensures NoDup(SlotsUpTo(p, d, BlocksPerArena(d)))
    ensures forall x :: x in SlotsUpTo(p, d, BlocksPerArena(d)) ==> IsBlock(arenas, x, d)
  {
    hide Slot;
    var q := SlotsUpTo(p, d, BlocksPerArena(d));
    forall i, j | 0 <= i < j < |q|
      ensures q[i] != q[j]
    {
      SlotsDiffer(p, d, i, j);
    }
    forall x | x in q
      ensures IsBlock(arenas, x, d)
    {
      var i :| 0 <= i < |q| && q[i] == x;
      SlotInPage(p, d, i);
    }
  }

  lemma RefillLists(h: Heap, p: nat, d: nat)
    requires ListsOK(h) && d < DESC_CNT && h.free[d] == [] && p !in h.arenas
    ensures ListsOK(Refilled(h, p, d))
  {
    hide Slot, NoDup, SlotsUpTo;
    var h' := Refilled(h, p, d);
    NewSlots(h'.arenas, p, d);
    assert h'.free[d] == SlotsUpTo(p, d, BlocksPerArena(d));
    forall e | 0 <= e < DESC_CNT && e != d
      ensures NoDup(h'.free[e]) && forall x :: x in h'.free[e] ==> IsBlock(h'.arenas, x, e)
    {
      forall x | x in h'.free[e]
        ensures IsBlock(h'.arenas, x, e)
      {
        IsBlockSame(h.arenas, h'.arenas, x, e);
      }
    }
  }

  lemma RefillArena(h: Heap, p: nat, d: nat, q: nat)
    requires HeapBase(h) && d < DESC_CNT && h.free[d] == [] && p !in h.arenas && q in Refilled(h, p, d).arenas
    ensures ArenaOK(Refilled(h, p, d).free, h.live, q, Refilled(h, p, d).arenas[q])
  {
    var h', slots := Refilled(h, p, d), SlotsUpTo(p, d, BlocksPerArena(d));
    if q == p {
      forall i: nat | i < BlocksPerArena(d)
        ensures Slot(p, d, i) in slots && Slot(p, d, i) !in h.live
      {
        assert slots[i] == Slot(p, d, i);
        SlotInPage(p, d, i);
        assert Slot(p, d, i) in h.live ==> LiveOK(h.arenas, Slot(p, d, i), h.live[Slot(p, d, i)]);
      }
      AllFree(h'.free[d], p, d);
    } else {
      assert ArenaOK(h.free, h.live, q, h.arenas[q]);
      if h.arenas[q].Small? && h.arenas[q].d == d {
        forall i: nat | i < BlocksPerArena(d)
          ensures Slot(q, d, i) !in slots
        {
          OtherPage(p, q, d, i, slots, BlocksPerArena(d));
        }
        FreeIdxSame(h.free[d], h'.free[d], q, d);
      }
    }
  }

  lemma OtherPage(p: nat, q: nat, d: nat, i: nat, slots: seq<nat>, n: nat)
    requires p != q && d < DESC_CNT && i < BlocksPerArena(d) && n <= BlocksPerArena(d) && slots == SlotsUpTo(p, d, n)
    ensures Slot(q, d, i) !in slots
  {
    SlotInPage(q, d, i);
    if Slot(q, d, i) in slots {
      var j :| 0 <= j < n && slots[j] == Slot(q, d, i);
      SlotInPage(p, d, j);
    }
  }

  /** The first free block of size number `d` is handed out for a request of `size` bytes. */
  function Taken(h: Heap, d: nat, size: nat): Heap
    requires d < DESC_CNT && d < |h.free| && h.free[d] != [] && PageOf(h.free[d][0]) in h.arenas
    requires h.arenas[PageOf(h.free[d][0])].Small? && h.arenas[PageOf(h.free[d][0])].cnt > 0
  {
    var x := h.free[d][0];
    var a := h.arenas[PageOf(x)];
    Heap(h.arenas[PageOf(x) := Small(a.d, a.cnt - 1)], h.free[d := h.free[d][1..]], h.live[x := size])
  }

  /** The small block `x` comes back. */
  function Returned(h: Heap, x: nat): Heap
    requires PageOf(x) in h.arenas && h.arenas[PageOf(x)].Small? && h.arenas[PageOf(x)].d < |h.free|
  {
    var a := h.arenas[PageOf(x)];
    Heap(h.arenas[PageOf(x) := Small(a.d, a.cnt + 1)], h.free[a.d := h.free[a.d] + [x]], h.live - {x})
  }

  /** What a list with a block more or less means for the arenas. */
  lemma OneBlockMoved(q: seq<nat>, q': seq<nat>, x: nat, p: nat, d: nat)
    requires d < DESC_CNT && x !in q && forall y :: y in q' <==> y == x || y in q
    ensures p != PageOf(x) ==> FreeIdx(q', p, d) == FreeIdx(q, p, d)
    ensures forall i: nat :: i < BlocksPerArena(d) && x == Slot(p, d, i) ==>
              FreeIdx(q', p, d) == FreeIdx(q, p, d) + {i} && i !in FreeIdx(q, p, d)
                  && |FreeIdx(q', p, d)| == |FreeIdx(q, p, d)| + 1
  {
    if p != PageOf(x) {
      forall i: nat | i < BlocksPerArena(d)
        ensures Slot(p, d, i) != x
      {
        SlotInPage(p, d, i);
      }
    }
    forall i: nat | i < BlocksPerArena(d) && x == Slot(p, d, i)
      ensures FreeIdx(q', p, d) == FreeIdx(q, p, d) + {i} && i !in FreeIdx(q, p, d)
    {
      forall j: nat | j < BlocksPerArena(d) && j != i
        ensures Slot(p, d, j) != x
      {
        if Slot(p, d, j) == x {
          SlotsDistinct(p, d, i, j);
        }
      }
    }
  }

  lemma ListedIsBlock(h: Heap, x: nat, e: nat)
    requires ListsOK(h) && e < DESC_CNT && x in h.free[e]
    ensures IsBlock(h.arenas, x, e)
  {
  }

  /** The block after the header of an arena is in the first page of the arena. */
  lemma HeaderPage(p: nat)
    ensures PageOf(PAGE * p + ARENA_SIZE) == p
  {
  }

  /** A block more on a free list is one more in its arena, and none in the others. */
  lemma MovedInArena(arenas: map<nat, Arena>, q: seq<nat>, q': seq<nat>, x: nat, p: nat, d: nat)
    requires IsBlock(arenas, x, d) && x !in q && forall y :: y in q' <==> y == x || y in q
    ensures |FreeIdx(q', p, d)| == |FreeIdx(q, p, d)| + if p == PageOf(x) then 1 else 0
  {
    OneBlockMoved(q, q', x, p, d);
    var i: nat :| i < BlocksPerArena(d) && x == Slot(PageOf(x), d, i);
  }

  // ---- Handing out ----

  /** The first free block and its arena. */
  lemma FirstFree(h: Heap, d: nat)
    requires HeapBase(h) && d < DESC_CNT && h.free[d] != []
    ensures var x := h.free[d][0];
            && IsBlock(h.arenas, x, d) && h.arenas[PageOf(x)].cnt > 0 && x !in h.live
            && x !in h.free[d][1..] && (forall y :: y in h.free[d] <==> y == x || y in h.free[d][1..])
            && forall e :: 0 <= e < DESC_CNT && e != d ==> x !in h.free[e]
  {
    var x := h.free[d][0];
    assert h.free[d] == [x] + h.free[d][1..];
    assert IsBlock(h.arenas, x, d);
    var p: nat := PageOf(x);
    var i: nat :| i < BlocksPerArena(d) && x == Slot(p, d, i);
    assert ArenaOK(h.free, h.live, p, h.arenas[p]);
    assert i in FreeIdx(h.free[d], p, d);
    forall e | 0 <= e < DESC_CNT && e != d
      ensures x !in h.free[e]
    {
      if x in h.free[e] {
        ListedIsBlock(h, x, e);
      }
    }
  }

  lemma TakeLists(h: Heap, d: nat, size: nat)
    requires HeapBase(h) && d < DESC_CNT && h.free[d] != []
    requires var x := h.free[d][0]; IsBlock(h.arenas, x, d) && h.arenas[PageOf(x)].cnt > 0
    ensures ListsOK(Taken(h, d, size))
  {
    var h' := Taken(h, d, size);
    forall e | 0 <= e < DESC_CNT
      ensures NoDup(h'.free[e]) && forall x :: x in h'.free[e] ==> IsBlock(h'.arenas, x, e)
    {
      forall x | x in h'.free[e]
        ensures IsBlock(h'.arenas, x, e)
      {
        assert x in h.free[e];
        IsBlockSame(h.arenas, h'.arenas, x, e);
      }
    }
  }

  /** The first free block can be handed out for any request it is large enough for. */
  lemma TakeKeeps(h: Heap, d: nat, size: nat)
    requires HeapBase(h) && d < DESC_CNT && h.free[d] != [] && 0 < size <= BlockSize(d)
    ensures var x := h.free[d][0]; IsBlock(h.arenas, x, d) && h.arenas[PageOf(x)].cnt > 0 && x !in h.live
    ensures HeapBase(Taken(h, d, size))
  {
    FirstFree(h, d);
    TakeLists(h, d, size);
    var x, h' := h.free[d][0], Taken(h, d, size);
    forall q | q in h'.arenas
      ensures ArenaOK(h'.free, h'.live, q, h'.arenas[q])
    {
      TakeArena(h, d, size, q);
    }
    forall y | y in h'.live
      ensures LiveOK(h'.arenas, y, h'.live[y])
    {
      TakeLive(h, d, size, y);
    }
  }

  lemma TakeLive(h: Heap, d: nat, size: nat, y: nat)
    requires LivesOK(h) && d < |h.free| && d < DESC_CNT && h.free[d] != [] && 0 < size <= BlockSize(d)
    requires var x := h.free[d][0]; IsBlock(h.arenas, x, d) && h.arenas[PageOf(x)].cnt > 0
    requires y in Taken(h, d, size).live
    ensures LiveOK(Taken(h, d, size).arenas, y, Taken(h, d, size).live[y])
  {
    if y != h.free[d][0] {
      assert LiveOK(h.arenas, y, h.live[y]);
    }
  }

  lemma TakeArena(h: Heap, d: nat, size: nat, q: nat)
    requires HeapBase(h) && d < DESC_CNT && h.free[d] != []
    requires var x := h.free[d][0];
             && IsBlock(h.arenas, x, d) && h.arenas[PageOf(x)].cnt > 0 && x !in h.live
             && x !in h.free[d][1..] && (forall y :: y in h.free[d] <==> y == x || y in h.free[d][1..])
             && forall e :: 0 <= e < DESC_CNT && e != d ==> x !in h.free[e]
    requires q in Taken(h, d, size).arenas
    ensures ArenaOK(Taken(h, d, size).free, Taken(h, d, size).live, q, Taken(h, d, size).arenas[q])
  {
    if h.arenas[q].Small? && h.arenas[q].d == d {
      TakeSameSize(h, d, size, q);
    } else {
      TakeOtherSize(h, d, size, q);
    }
  }

  lemma TakeSameSize(h: Heap, d: nat, size: nat, q: nat)
    requires ArenasOK(h) && |h.free| == DESC_CNT && d < DESC_CNT && h.free[d] != []
    requires var x := h.free[d][0];
             && IsBlock(h.arenas, x, d) && h.arenas[PageOf(x)].cnt > 0 && x !in h.live
             && x !in h.free[d][1..] && (forall y :: y in h.free[d] <==> y == x || y in h.free[d][1..])
    requires q in h.arenas && h.arenas[q].Small? && h.arenas[q].d == d
    ensures ArenaOK(Taken(h, d, size).free, Taken(h, d, size).live, q, Taken(h, d, size).arenas[q])
  {
    hide Slot, IsBlock, FreeIdx;
    var x := h.free[d][0];
    BlockIsSmall(h.arenas, x, d);
    var h' := Taken(h, d, size);
    assert ArenaOK(h.free, h.live, q, h.arenas[q]);
    MovedInArena(h.arenas, h'.free[d], h.free[d], x, q, d);
  }

  lemma TakeOtherSize(h: Heap, d: nat, size: nat, q: nat)
    requires ArenasOK(h) && |h.free| == DESC_CNT && d < DESC_CNT && h.free[d] != []
    requires var x := h.free[d][0]; IsBlock(h.arenas, x, d) && h.arenas[PageOf(x)].cnt > 0
    requires q in h.arenas && !(h.arenas[q].Small? && h.arenas[q].d == d)
    ensures ArenaOK(Taken(h, d, size).free, Taken(h, d, size).live, q, Taken(h, d, size).arenas[q])
  {
    hide Slot, IsBlock;
    var x := h.free[d][0];
    BlockIsSmall(h.arenas, x, d);
    assert ArenaOK(h.free, h.live, q, h.arenas[q]);
    if h.arenas[q].Small? {
      var e := h.arenas[q].d;
      assert Taken(h, d, size).free[e] == h.free[e];
      NotInArena(h.arenas, x, d, q, e);
    }
  }

  lemma BlockIsSmall(arenas: map<nat, Arena>, x: nat, d: nat)
    requires IsBlock(arenas, x, d)
    ensures PageOf(x) in arenas && arenas[PageOf(x)].Small? && arenas[PageOf(x)].d == d
  {
  }

  /** A block is in the arena at its page only. */
  lemma NotInArena(arenas: map<nat, Arena>, x: nat, d: nat, q: nat, e: nat)
    requires IsBlock(arenas, x, d) && e < DESC_CNT && q in arenas && arenas[q].Small? && arenas[q].d == e && e != d
    ensures forall i: nat :: i < BlocksPerArena(e) ==> Slot(q, e, i) != x
  {
    forall i: nat | i < BlocksPerArena(e)
      ensures Slot(q, e, i) != x
    {
      SlotInPage(q, e, i);
    }
  }

  // ---- Taking back ----

  lemma ReturnLists(h: Heap, x: nat)
    requires HeapBase(h) && x in h.live && PageOf(x) in h.arenas && h.arenas[PageOf(x)].Small?
             && h.arenas[PageOf(x)].d < DESC_CNT
    requires IsBlock(h.arenas, x, h.arenas[PageOf(x)].d) && x !in h.free[h.arenas[PageOf(x)].d]
    ensures ListsOK(Returned(h, x))
  {
    var h' := Returned(h, x);
    forall e | 0 <= e < DESC_CNT
      ensures NoDup(h'.free[e]) && forall y :: y in h'.free[e] ==> IsBlock(h'.arenas, y, e)
    {
      forall y | y in h'.free[e]
        ensures IsBlock(h'.arenas, y, e)
      {
        assert y == x || y in h.free[e];
        assert y in h.free[e] ==> IsBlock(h.arenas, y, e);
      }
    }
  }

  /** A small block that is handed out is on no free list, and can be taken back. */
  lemma ReturnKeeps(h: Heap, x: nat)
    requires HeapBase(h) && x in h.live && PageOf(x) in h.arenas && h.arenas[PageOf(x)].Small?
    ensures var d := h.arenas[PageOf(x)].d; d < DESC_CNT && IsBlock(h.arenas, x, d) && forall e ::
              0 <= e < DESC_CNT ==> x !in h.free[e]
    ensures HeapBase(Returned(h, x))
  {
    var h', d := Returned(h, x), h.arenas[PageOf(x)].d;
    LiveIsNotFree(h, x);
    ReturnLists(h, x);
    hide ListsOK, IsBlock, LiveOK, ArenaOK;
    forall q | q in h'.arenas
      ensures ArenaOK(h'.free, h'.live, q, h'.arenas[q])
    {
      ReturnArena(h, x, q);
    }
    forall y | y in h'.live
      ensures LiveOK(h'.arenas, y, h'.live[y])
    {
      ReturnLive(h, x, y);
    }
  }

  lemma ReturnLive(h: Heap, x: nat, y: nat)
    requires LivesOK(h) && PageOf(x) in h.arenas && h.arenas[PageOf(x)].Small? && h.arenas[PageOf(x)].d < |h.free|
    requires y in Returned(h, x).live
    ensures LiveOK(Returned(h, x).arenas, y, Returned(h, x).live[y])
  {
    assert LiveOK(h.arenas, y, h.live[y]);
  }

  lemma LiveIsNotFree(h: Heap, x: nat)
    requires HeapBase(h) && x in h.live && PageOf(x) in h.arenas && h.arenas[PageOf(x)].Small?
    ensures var d := h.arenas[PageOf(x)].d; d < DESC_CNT && IsBlock(h.arenas, x, d) && forall e ::
              0 <= e < DESC_CNT ==> x !in h.free[e]
  {
    assert LiveOK(h.arenas, x, h.live[x]);
    var p: nat, d := PageOf(x), h.arenas[PageOf(x)].d;
    var i: nat :| i < BlocksPerArena(d) && x == Slot(p, d, i);
    assert ArenaOK(h.free, h.live, p, h.arenas[p]);
    forall e | 0 <= e < DESC_CNT
      ensures x !in h.free[e]
    {
      if x in h.free[e] {
        ListedIsBlock(h, x, e);
      }
    }
  }

  lemma ReturnArena(h: Heap, x: nat, q: nat)
    requires HeapBase(h) && x in h.live && PageOf(x) in h.arenas && h.arenas[PageOf(x)].Small?
             && h.arenas[PageOf(x)].d < DESC_CNT
    requires IsBlock(h.arenas, x, h.arenas[PageOf(x)].d) && forall e :: 0 <= e < DESC_CNT ==> x !in h.free[e]
    requires q in Returned(h, x).arenas
    ensures ArenaOK(Returned(h, x).free, Returned(h, x).live, q, Returned(h, x).arenas[q])
  {
    var d := h.arenas[PageOf(x)].d;
    if h.arenas[q].Small? {
      if h.arenas[q].d == d {
        ReturnSameSize(h, x, q);
      } else {
        ReturnOtherSize(h, x, q);
      }
    } else {
      assert ArenaOK(h.free, h.live, q, h.arenas[q]);
      HeaderPage(q);
    }
  }

  lemma ReturnSameSize(h: Heap, x: nat, q: nat)
    requires ArenasOK(h) && |h.free| == DESC_CNT && x in h.live && PageOf(x) in h.arenas && h.arenas[PageOf(x)].Small?
    requires q in h.arenas && h.arenas[q].Small? && h.arenas[q].d == h.arenas[PageOf(x)].d < DESC_CNT
    requires IsBlock(h.arenas, x, h.arenas[q].d) && x !in h.free[h.arenas[q].d]
    ensures ArenaOK(Returned(h, x).free, Returned(h, x).live, q, Returned(h, x).arenas[q])
  {
    hide Slot, IsBlock, FreeIdx;
    var h', d := Returned(h, x), h.arenas[q].d;
    assert ArenaOK(h.free, h.live, q, h.arenas[q]);
    MovedInArena(h.arenas, h.free[d], h'.free[d], x, q, d);
  }

  lemma ReturnOtherSize(h: Heap, x: nat, q: nat)
    requires ArenasOK(h) && |h.free| == DESC_CNT && x in h.live && PageOf(x) in h.arenas && h.arenas[PageOf(x)].Small?
    requires q in h.arenas && h.arenas[q].Small? && h.arenas[q].d != h.arenas[PageOf(x)].d < DESC_CNT
    requires IsBlock(h.arenas, x, h.arenas[PageOf(x)].d)
    ensures ArenaOK(Returned(h, x).free, Returned(h, x).live, q, Returned(h, x).arenas[q])
  {
    hide Slot, IsBlock;
    var e := h.arenas[q].d;
    assert ArenaOK(h.free, h.live, q, h.arenas[q]);
    assert Returned(h, x).free[e] == h.free[e];
    NotInArena(h.arenas, x, h.arenas[PageOf(x)].d, q, e);
  }

  /** `list_remove` of an element of a list. */
  function RemoveElem(q: seq<nat>, x: nat): (r: seq<nat>)
    requires x in q
    ensures |r| == |q| - 1
  {
    if q[0] == x then q[1..] else [q[0]] + RemoveElem(q[1..], x)
  }

  /** On a list without duplicates exactly that element goes. */
  lemma {:induction false} RemoveElemGone(q: seq<nat>, x: nat)
    requires x in q && NoDup(q)
    ensures NoDup(RemoveElem(q, x)) && forall y :: y in RemoveElem(q, x) <==> y in q && y != x
  {
    assert q == [q[0]] + q[1..];
    if q[0] != x {
      RemoveElemGone(q[1..], x);
      var t := RemoveElem(q[1..], x);
      assert q[0] !in q[1..];
      forall i, j | 0 <= i < j < |t| + 1
        ensures ([q[0]] + t)[i] != ([q[0]] + t)[j]
      {
        assert t[j - 1] in t;
      }
    }
  }

  /** The arena at page `p`, whose blocks are all free, disappears; `q` is what is left of its free list. */
  function Dropped(h: Heap, p: nat, d: nat, q: seq<nat>): Heap
    requires d < |h.free|
  {
    Heap(h.arenas - {p}, h.free[d := q], h.live)
  }

  lemma DropKeeps(h: Heap, p: nat, d: nat, q: seq<nat>)
    requires HeapBase(h) && d < DESC_CNT && p in h.arenas && h.arenas[p] == Small(d, BlocksPerArena(d))
    requires NoDup(q) && forall y :: y in q <==> y in h.free[d] && PageOf(y) != p
    ensures HeapBase(Dropped(h, p, d, q))
  {
    var h' := Dropped(h, p, d, q);
    DropLists(h, p, d, q);
    forall r | r in h'.arenas
      ensures ArenaOK(h'.free, h'.live, r, h'.arenas[r])
    {
      DropArena(h, p, d, q, r);
    }
    forall x | x in h'.live
      ensures LiveOK(h'.arenas, x, h'.live[x])
    {
      DropLive(h, p, d, x);
    }
  }

  lemma DropLists(h: Heap, p: nat, d: nat, q: seq<nat>)
    requires ListsOK(h) && d < DESC_CNT && p in h.arenas && h.arenas[p] == Small(d, BlocksPerArena(d))
    requires NoDup(q) && forall y :: y in q <==> y in h.free[d] && PageOf(y) != p
    ensures ListsOK(Dropped(h, p, d, q))
  {
    var h' := Dropped(h, p, d, q);
    forall e | 0 <= e < DESC_CNT
      ensures NoDup(h'.free[e]) && forall x :: x in h'.free[e] ==> IsBlock(h'.arenas, x, e)
    {
      forall x | x in h'.free[e]
        ensures IsBlock(h'.arenas, x, e)
      {
        ListedIsBlock(h, x, e);
        assert PageOf(x) != p;
        IsBlockSame(h.arenas, h'.arenas, x, e);
      }
    }
  }

  lemma DropArena(h: Heap, p: nat, d: nat, q: seq<nat>, r: nat)
    requires ArenasOK(h) && ListsOK(h) && d < DESC_CNT && p in h.arenas && r in h.arenas && r != p
    requires forall y :: y in q <==> y in h.free[d] && PageOf(y) != p
    ensures ArenaOK(Dropped(h, p, d, q).free, h.live, r, h.arenas[r])
  {
    assert ArenaOK(h.free, h.live, r, h.arenas[r]);
    if h.arenas[r].Small? && h.arenas[r].d == d {
      forall i: nat | i < BlocksPerArena(d)
        ensures Slot(r, d, i) in q <==> Slot(r, d, i) in h.free[d]
      {
        SlotInPage(r, d, i);
      }
      FreeIdxSame(h.free[d], q, r, d);
    }
  }

  lemma DropLive(h: Heap, p: nat, d: nat, x: nat)
    requires HeapBase(h) && d < DESC_CNT && p in h.arenas && h.arenas[p] == Small(d, BlocksPerArena(d)) && x in h.live
    ensures LiveOK(h.arenas - {p}, x, h.live[x])
  {
    assert LiveOK(h.arenas, x, h.live[x]);
    if PageOf(x) == p {
      var i: nat :| i < BlocksPerArena(d) && x == Slot(p, d, i);
      assert ArenaOK(h.free, h.live, p, h.arenas[p]);
      AllFree(h.free[d], p, d);
    } else if h.arenas[PageOf(x)].Small? {
      IsBlockSame(h.arenas, h.arenas - {p}, x, h.arenas[PageOf(x)].d);
    }
  }

  // ---- Large blocks ----

  /** `n` pages from `p` on become a large block for a request of `size` bytes. */
  function LargeTaken(h: Heap, p: nat, n: nat, size: nat): Heap {
    h.(arenas := h.arenas[p := Large(n)], live := h.live[PAGE * p + ARENA_SIZE := size])
  }

  lemma LargeKeeps(h: Heap, p: nat, n: nat, size: nat)
    requires HeapBase(h) && Unused(h.arenas, p, n) && n >= 1 && 0 < size && ARENA_SIZE + size <= PAGE * n
    ensures p !in h.arenas && PAGE * p + ARENA_SIZE !in h.live && HeapBase(LargeTaken(h, p, n, size))
  {
    hide ListsOK, ArenaOK, LiveOK, IsBlock, Slot;
    PagesPositive(h);
    UnusedIsNew(h.arenas, p, n);
    HeaderPage(p);
    var x, h' := PAGE * p + ARENA_SIZE, LargeTaken(h, p, n, size);
    if x in h.live {
      LiveHasArena(h, x);
    }
    LargeLists(h, p, n, size);
    forall q | q in h'.arenas
      ensures ArenaOK(h'.free, h'.live, q, h'.arenas[q])
    {
      LargeArena(h, p, n, size, q);
    }
    forall y | y in h'.live
      ensures LiveOK(h'.arenas, y, h'.live[y])
    {
      LargeLive(h, p, n, size, y);
    }
  }

  lemma LargeLists(h: Heap, p: nat, n: nat, size: nat)
    requires ListsOK(h) && p !in h.arenas
    ensures ListsOK(LargeTaken(h, p, n, size))
  {
    var h' := LargeTaken(h, p, n, size);
    forall e, y | 0 <= e < DESC_CNT && y in h'.free[e]
      ensures IsBlock(h'.arenas, y, e)
    {
      ListedIsBlock(h, y, e);
      IsBlockSame(h.arenas, h'.arenas, y, e);
    }
  }

  lemma LargeLive(h: Heap, p: nat, n: nat, size: nat, y: nat)
    requires LivesOK(h) && p !in h.arenas && 0 < size && ARENA_SIZE + size <= PAGE * n
             && y in LargeTaken(h, p, n, size).live
    ensures LiveOK(LargeTaken(h, p, n, size).arenas, y, LargeTaken(h, p, n, size).live[y])
  {
    HeaderPage(p);
    if y != PAGE * p + ARENA_SIZE {
      assert LiveOK(h.arenas, y, h.live[y]);
      LiveHasArena(h, y);
      if h.arenas[PageOf(y)].Small? {
        IsBlockSame(h.arenas, LargeTaken(h, p, n, size).arenas, y, h.arenas[PageOf(y)].d);
      }
    }
  }

  lemma LiveHasArena(h: Heap, x: nat)
    requires LivesOK(h) && x in h.live
    ensures PageOf(x) in h.arenas
  {
    assert LiveOK(h.arenas, x, h.live[x]);
  }

  lemma LargeArena(h: Heap, p: nat, n: nat, size: nat, q: nat)
    requires ArenasOK(h) && p !in h.arenas && n >= 1 && q in LargeTaken(h, p, n, size).arenas
    ensures ArenaOK(h.free, LargeTaken(h, p, n, size).live, q, LargeTaken(h, p, n, size).arenas[q])
  {
    if q != p {
      assert ArenaOK(h.free, h.live, q, h.arenas[q]);
      OtherHeader(h.arenas[q], p, q);
    }
  }

  lemma OtherHeader(a: Arena, p: nat, q: nat)
    requires p != q
    ensures a.Small? && a.d < DESC_CNT ==>
              forall i: nat :: i < BlocksPerArena(a.d) ==> Slot(q, a.d, i) != PAGE * p + ARENA_SIZE
  {
    if a.Small? && a.d < DESC_CNT {
      forall i: nat | i < BlocksPerArena(a.d)
        ensures Slot(q, a.d, i) != PAGE * p + ARENA_SIZE
      {
        SlotInPage(q, a.d, i);
        HeaderPage(p);
      }
    }
  }

  /** The large block at page `p` comes back. */
  function LargeReturned(h: Heap, p: nat): Heap {
    h.(arenas := h.arenas - {p}, live := h.live - {PAGE * p + ARENA_SIZE})
  }

  lemma LargeReturnKeeps(h: Heap, p: nat)
    requires HeapBase(h) && p in h.arenas && h.arenas[p].Large?
    ensures HeapBase(LargeReturned(h, p))
  {
    hide ListsOK, ArenaOK, LiveOK, IsBlock, Slot;
    var h' := LargeReturned(h, p);
    LargeReturnLists(h, p);
    forall q | q in h'.arenas
      ensures ArenaOK(h'.free, h'.live, q, h'.arenas[q])
    {
      LargeReturnArena(h, p, q);
    }
    forall y | y in h'.live
      ensures LiveOK(h'.arenas, y, h'.live[y])
    {
      LargeReturnLive(h, p, y);
    }
  }

  lemma LargeReturnLists(h: Heap, p: nat)
    requires ListsOK(h) && p in h.arenas && h.arenas[p].Large?
    ensures ListsOK(LargeReturned(h, p))
  {
    var h' := LargeReturned(h, p);
    forall e, y | 0 <= e < DESC_CNT && y in h'.free[e]
      ensures IsBlock(h'.arenas, y, e)
    {
      ListedIsBlock(h, y, e);
      IsBlockSame(h.arenas, h'.arenas, y, e);
    }
  }

  lemma LargeReturnArena(h: Heap, p: nat, q: nat)
    requires ArenasOK(h) && p in h.arenas && q in h.arenas && q != p
    ensures ArenaOK(h.free, LargeReturned(h, p).live, q, h.arenas[q])
  {
    assert ArenaOK(h.free, h.live, q, h.arenas[q]);
    OtherHeader(h.arenas[q], p, q);
    HeaderPage(q);
    HeaderPage(p);
  }

  lemma LargeReturnLive(h: Heap, p: nat, y: nat)
    requires LivesOK(h) && p in h.arenas && h.arenas[p].Large? && y in h.live && y != PAGE * p + ARENA_SIZE
    ensures LiveOK(h.arenas - {p}, y, h.live[y])
  {
    assert LiveOK(h.arenas, y, h.live[y]);
    if h.arenas[PageOf(y)].Small? {
      IsBlockSame(h.arenas, h.arenas - {p}, y, h.arenas[PageOf(y)].d);
    }
  }
}
