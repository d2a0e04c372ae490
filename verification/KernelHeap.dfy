/** `sys_malloc` and `sys_free` of `src/kernel/memory.c` for kernel threads. */
module KernelHeap {
  import opened Bitmaps
  import opened Sequences
  import opened PagingState
  import opened Paging
  import opened HeapState

  datatype MallocOutcome = Null | Block(x: nat) | AssertFailed

  /** The pages of all arenas are mapped pages of the kernel heap. */
  ghost predicate Held(arenas: map<nat, Arena>, m: Mem) {
    forall p :: p in arenas ==> PagesHeld(m, p, PageCnt(arenas[p]))
  }

  ghost predicate PagesHeld(m: Mem, p: nat, n: nat) {
    forall q: nat :: p <= q < p + n ==> InSpace(m, KernelPages, q) && Present(m, q)
  }

  /** Pages that have just been allocated belong to no arena. */
  lemma NewPagesUnused(arenas: map<nat, Arena>, m: Mem, m': Mem, page: nat, n: nat)
    requires Held(arenas, m) && Given(m, m', KernelPages, page, n) && n > 0 && Agree(m)
    requires forall q :: q in arenas ==> PageCnt(arenas[q]) >= 1
    ensures Unused(arenas, page, n) && Held(arenas, m') && PagesHeld(m', page, n)
  {
    hide Given, Agree, Gave, FreeRun, Present, InSpace, Absent, PagesHeld, Vaddr, WithVaddr, Fill;
    GivenParts(m, m', KernelPages, page, n);
    GivenPresent(m, m', page, n);
    NewHeld(m', page, n);
    forall q | q in arenas
      ensures q + PageCnt(arenas[q]) <= page || page + n <= q
      ensures PagesHeld(m', q, PageCnt(arenas[q]))
    {
      HeldApart(m, m', q, PageCnt(arenas[q]), page, n);
    }
  }

  lemma NewHeld(m: Mem, page: nat, n: nat)
    requires forall q: nat :: page <= q < page + n ==> InSpace(m, KernelPages, q) && Present(m, q)
    ensures PagesHeld(m, page, n)
  {
  }

  /** Pages that are mapped are none of the new ones, and stay mapped. */
  lemma HeldApart(m: Mem, m': Mem, q: nat, k: nat, page: nat, n: nat)
    requires PagesHeld(m, q, k) && k >= 1 && n > 0 && KERNEL_HEAP <= page
             && Absent(m, KernelPages, page - KERNEL_HEAP, n)
    requires forall r: nat :: Present(m', r) == (Present(m, r) || page <= r < page + n)
    requires forall r: nat :: InSpace(m', KernelPages, r) == InSpace(m, KernelPages, r)
    ensures q + k <= page || page + n <= q
    ensures PagesHeld(m', q, k)
  {
    hide Present, InSpace;
    var r: nat := if q < page then page else q;
    assert q <= r < q + k ==> Present(m, r);
    assert page <= r < page + n ==> !Present(m, r);
  }

  /** After `malloc_page` a page is mapped iff it was or is one of the new ones. */
  lemma GivenPresent(m: Mem, m': Mem, page: nat, n: nat)
    requires Given(m, m', KernelPages, page, n)
    ensures forall q: nat :: Present(m', q) == (Present(m, q) || page <= q < page + n)
    ensures forall q: nat :: InSpace(m', KernelPages, q) == InSpace(m, KernelPages, q)
    ensures forall q: nat :: page <= q < page + n ==> InSpace(m', KernelPages, q)
    ensures m'.uv == m.uv
  {
    VaddrFacts(m, KernelPages, page - KERNEL_HEAP, n, true);
  }

  /** The other arenas keep their pages when those of one are released. */
  lemma OthersHeld(arenas: map<nat, Arena>, p: nat, m: Mem, m': Mem)
    requires Held(arenas, m) && Apart(arenas) && p in arenas
    requires TakenBack(m, m', KernelPages, p, PageCnt(arenas[p]))
    ensures Held(arenas - {p}, m') && m'.uv == m.uv
  {
    TakenPresent(m, m', p, PageCnt(arenas[p]));
    hide TakenBack, Took;
    forall q | q in arenas && q != p
      ensures PagesHeld(m', q, PageCnt(arenas[q]))
    {
      assert PagesHeld(m, q, PageCnt(arenas[q]));
      assert if q < p then q + PageCnt(arenas[q]) <= p else p + PageCnt(arenas[p]) <= q;
    }
  }

  lemma TakenPresent(m: Mem, m': Mem, page: nat, n: nat)
    requires TakenBack(m, m', KernelPages, page, n)
    ensures forall q: nat :: Present(m', q) == (Present(m, q) && !(page <= q < page + n))
    ensures forall q: nat :: InSpace(m', KernelPages, q) == InSpace(m, KernelPages, q)
    ensures m'.uv == m.uv
  {
    PresentAnyway(m'.(kv := m.kv, uv := m.uv), m');
  }

  /** A failed `malloc_page` takes nothing away. */
  lemma FailedKeeps(m: Mem, m': Mem, arenas: map<nat, Arena>, n: nat)
    requires Held(arenas, m) && (m' == m || exists s: nat, i: nat :: Lost(m, m', KernelPages, n, s, i))
    ensures Held(arenas, m') && m'.uv == m.uv
  {
    if m' != m {
      var s: nat, i: nat :| Lost(m, m', KernelPages, n, s, i);
      var m0 := WithVaddr(m, KernelPages, Fill(m.kv, s, n, true));
      VaddrFacts(m, KernelPages, s, n, true);
      ShapeFacts(m, m0);
      ShapeFacts(m0, m');
      forall q | q in arenas
        ensures PagesHeld(m', q, PageCnt(arenas[q]))
      {
        assert PagesHeld(m, q, PageCnt(arenas[q]));
      }
    }
  }

  /** Page `q` belongs to an arena. */
  ghost predicate Covered(arenas: map<nat, Arena>, q: nat) {
    exists p :: p in arenas && p <= q < p + PageCnt(arenas[p])
  }

  /** The mapped pages that belong to no arena are the same as before: what was mapped since then went to
      arenas, and the pages of the arenas that disappeared are not mapped any more. */
  ghost predicate NoStray(m: Mem, arenas: map<nat, Arena>, m': Mem, arenas': map<nat, Arena>) {
    forall q: nat :: (Present(m', q) && !Covered(arenas', q)) == (Present(m, q) && !Covered(arenas, q))
  }

  lemma NewArenaCovers(m: Mem, m': Mem, arenas: map<nat, Arena>, p: nat, a: Arena)
    requires p !in arenas
    requires forall q: nat :: Present(m', q) == (Present(m, q) || p <= q < p + PageCnt(a))
    requires p >= KERNEL_HEAP && Absent(m, KernelPages, p - KERNEL_HEAP, PageCnt(a))
    ensures NoStray(m, arenas, m', arenas[p := a])
  {
    hide Present;
    var arenas' := arenas[p := a];
    forall q: nat
      ensures Covered(arenas', q) == (Covered(arenas, q) || p <= q < p + PageCnt(a))
    {
      assert p in arenas' && arenas'[p] == a;
      if Covered(arenas, q) {
        var x :| x in arenas && x <= q < x + PageCnt(arenas[x]);
        assert x in arenas' && arenas'[x] == arenas[x];
      }
    }
    assert forall q: nat :: p <= q < p + PageCnt(a) ==> !Present(m, q);
  }

  lemma CoversGiven(m: Mem, m': Mem, arenas: map<nat, Arena>, p: nat, a: Arena)
    requires Given(m, m', KernelPages, p, PageCnt(a)) && p !in arenas && Agree(m)
    ensures NoStray(m, arenas, m', arenas[p := a])
  {
    hide Given, Agree, Gave, Absent, NoStray, Covered;
    GivenParts(m, m', KernelPages, p, PageCnt(a));
    GivenPresent(m, m', p, PageCnt(a));
    NewArenaCovers(m, m', arenas, p, a);
  }

  lemma GoneArenaUncovers(m: Mem, m': Mem, arenas: map<nat, Arena>, p: nat)
    requires p in arenas
    requires forall q: nat :: Present(m', q) == (Present(m, q) && !(p <= q < p + PageCnt(arenas[p])))
    ensures NoStray(m, arenas, m', arenas - {p})
  {
    hide Present;
    var arenas' := arenas - {p};
    forall q: nat | !(p <= q < p + PageCnt(arenas[p]))
      ensures Covered(arenas', q) == Covered(arenas, q)
    {
      if Covered(arenas, q) {
        var x :| x in arenas && x <= q < x + PageCnt(arenas[x]);
        assert x in arenas' && arenas'[x] == arenas[x];
      }
    }
    assert forall q: nat :: p <= q < p + PageCnt(arenas[p]) ==> Covered(arenas, q);
  }

  /** The counter of an arena of small blocks does not matter. */
  lemma CountCovers(m: Mem, arenas: map<nat, Arena>, p: nat, a: Arena)
    requires p in arenas && arenas[p].Small? && a.Small?
    ensures NoStray(m, arenas, m, arenas[p := a])
  {
    hide Present;
    var arenas' := arenas[p := a];
    assert forall x :: x in arenas' <==> x in arenas;
    forall q: nat
      ensures Covered(arenas', q) == Covered(arenas, q)
    {
      if Covered(arenas, q) {
        var x :| x in arenas && x <= q < x + PageCnt(arenas[x]);
        assert x in arenas' && x <= q < x + PageCnt(arenas'[x]);
      }
      if Covered(arenas', q) {
        var x :| x in arenas' && x <= q < x + PageCnt(arenas'[x]);
        assert x in arenas && x <= q < x + PageCnt(arenas[x]);
      }
    }
  }

  /** There are `n` consecutive addresses and `n` frames. */
  ghost predicate PagesFree(m: Mem, n: nat) {
    (exists s: nat :: FreeRun(m.kv, s, n)) && FreeCount(m.kbits) >= n
  }

  lemma Served(m: Mem, m': Mem, page: nat, n: nat)
    requires Given(m, m', KernelPages, page, n) && FreeCount(Pool(m, KernelPages)) >= n
    ensures PagesFree(m, n)
  {
    assert FreeRun(m.kv, page - KERNEL_HEAP, n);
  }

  lemma NotServed(m: Mem, r: MallocResult, n: nat)
    requires r == NoAddress ==> forall s: nat :: !FreeRun(Vaddr(m, KernelPages), s, n)
    requires r == NoFrame ==> FreeCount(Pool(m, KernelPages)) < n
    requires r == NoAddress || r == NoFrame
    ensures !PagesFree(m, n)
  {
    assert Vaddr(m, KernelPages) == m.kv;
  }

  /** Size number `d` is the smallest that fits. */
  predicate IsClass(size: nat, d: nat) {
    d < DESC_CNT && size <= BlockSize(d) && forall e: nat :: e < d ==> BlockSize(e) < size
  }

  function PagesFor(size: nat): nat {
    (size + ARENA_SIZE + PAGE - 1) / PAGE
  }

  /** A request can be served: from a free list or with fresh pages. */
  ghost predicate CanServe(m: Mem, free: seq<seq<nat>>, size: nat) {
    if size > 1024 then PagesFree(m, PagesFor(size))
    else (exists d: nat :: IsClass(size, d) && d < |free| && free[d] != []) || PagesFree(m, 1)
  }

  class KHeap {
    const mem: Memory
    const poolSize: nat
    var arenas: map<nat, Arena>
    var freeLists: seq<seq<nat>>
    /** What has been handed out: specification only. */
    ghost var live: map<nat, nat>

    constructor (mem: Memory, poolSize: nat)
      ensures this.mem == mem && this.poolSize == poolSize && HeapOK(H()) && live == map[]
      ensures Held(arenas, mem.Snap())
      ensures mem.Valid() && Agree(mem.Snap()) && StackHeld(mem.Snap()) && poolSize < 0x8000_0000 ==> Valid()
    {
      this.mem, this.poolSize := mem, poolSize;
      arenas, freeLists, live := map[], [[], [], [], [], [], [], []], map[];
    }

    ghost function H(): Heap
      reads this
    {
      Heap(arenas, freeLists, live)
    }

    ghost function Footprint(): set<object>
      reads this, mem
    {
      {this, mem} + mem.Objects()
    }

    /** The heap is in order, bit maps and page tables agree, and the arenas have their pages. The pool is
        smaller than the address space. */
    ghost predicate Valid()
      reads this, mem, Footprint()
    {
      && mem.Valid() && Agree(mem.Snap()) && StackHeld(mem.Snap())
      && HeapOK(H()) && Held(arenas, mem.Snap()) && poolSize < 0x8000_0000
    }

    /** Lines 303-307: the smallest block size that fits. */
    method FindDesc(size: nat) returns (d: nat)
      requires 0 < size <= 1024
      ensures IsClass(size, d)
    {
      d := 0;
      while d < DESC_CNT && size > BlockSize(d)
        invariant d < DESC_CNT && forall e: nat :: e < d ==> BlockSize(e) < size
      {
        d := d + 1;
      }
    }

    /** Lines 285-299: a request of more than 1024 bytes. */
    method MallocLarge(size: nat) returns (r: MallocOutcome)
      requires Valid() && 1024 < size < poolSize
      modifies this`arenas, this`live, mem`ptes, mem`pdes, mem.Objects()
      ensures Valid()
      ensures r == AssertFailed <==> size + ARENA_SIZE > 3839 * PAGE
      ensures r.Block? <==> size + ARENA_SIZE <= 3839 * PAGE && PagesFree(old(mem.Snap()), PagesFor(size))
      ensures !r.Block? ==> live == old(live)
      ensures r.Block? ==> r.x !in old(live) && live == old(live)[r.x := size]
      ensures r.Block? ==> NoStray(old(mem.Snap()), old(arenas), mem.Snap(), arenas)
    {
      hide HeapBase, Agree, InUse, Given, Unused, Held, PagesHeld, Lost, NoStray, PagesFree;
      var pageCnt := PagesFor(size);
      if pageCnt >= 3840 {
        return AssertFailed;
      }
      ghost var h, m := H(), mem.Snap();
      var a := mem.MallocPage(KernelPages, pageCnt);
      if !a.Pages? {
        FailedKeeps(m, mem.Snap(), arenas, pageCnt);
        NotServed(m, a, pageCnt);
        return Null;
      }
      Served(m, mem.Snap(), a.page, pageCnt);
      ArenasPositive(h);
      NewPagesUnused(arenas, m, mem.Snap(), a.page, pageCnt);
      GivenPresent(m, mem.Snap(), a.page, pageCnt);
      LargeKeeps(h, a.page, pageCnt, size);
      LargeInUse(h.arenas, a.page, pageCnt);
      HeldOneMore(arenas, mem.Snap(), a.page, Large(pageCnt));
      CoversGiven(m, mem.Snap(), arenas, a.page, Large(pageCnt));
      arenas := arenas[a.page := Large(pageCnt)];
      live := live[PAGE * a.page + ARENA_SIZE := size];
      r := Block(PAGE * a.page + ARENA_SIZE);
    }

    /** Lines 309-331: a fresh arena for the empty free list `d`. */
    method Refill(d: nat) returns (ok: bool, ghost p: nat)
      requires Valid() && d < DESC_CNT && freeLists[d] == []
      modifies this`arenas, this`freeLists, mem`ptes, mem`pdes, mem.Objects()
      ensures mem.Valid() && Agree(mem.Snap()) && StackHeld(mem.Snap())
      ensures live == old(live) && Held(arenas, mem.Snap())
      ensures !ok ==> H() == old(H())
      ensures ok <==> PagesFree(old(mem.Snap()), 1)
      ensures ok ==> p !in old(arenas) && H() == Refilled(old(H()), p, d) && HeapBase(H())
      ensures ok ==> NoStray(old(mem.Snap()), old(arenas), mem.Snap(), arenas)
    {
      hide HeapBase, Agree, InUse, Given, Unused, Held, PagesHeld, Lost, NoStray, PagesFree;
      ghost var h, m := H(), mem.Snap();
      p := 0;
      var a := mem.MallocPage(KernelPages, 1);
      ok := a.Pages?;
      if !ok {
        FailedKeeps(m, mem.Snap(), arenas, 1);
        NotServed(m, a, 1);
        return;
      }
      p := a.page;
      Served(m, mem.Snap(), p, 1);
      ListCount(h);
      ArenasPositive(h);
      NewPagesUnused(arenas, m, mem.Snap(), p, 1);
      GivenPresent(m, mem.Snap(), p, 1);
      RefillKeeps(h, p, d);
      HeldOneMore(arenas, mem.Snap(), p, Small(d, BlocksPerArena(d)));
      CoversGiven(m, mem.Snap(), arenas, p, Small(d, BlocksPerArena(d)));
      arenas := arenas[a.page := Small(d, BlocksPerArena(d))];
      AppendBlocks(a.page, d);
      assert h.free[d] + SlotsUpTo(p, d, BlocksPerArena(d)) == SlotsUpTo(p, d, BlocksPerArena(d));
    }

    /** The loop of lines 324-329; its assertion holds because the blocks are new to the list. */
    method AppendBlocks(page: nat, d: nat)
      requires d < DESC_CNT && |freeLists| == DESC_CNT && freeLists[d] == []
      modifies this`freeLists
      ensures freeLists == old(freeLists)[d := SlotsUpTo(page, d, BlocksPerArena(d))]
    {
      var blockIdx := 0;
      while blockIdx < BlocksPerArena(d)
        invariant blockIdx <= BlocksPerArena(d)
        invariant freeLists == old(freeLists)[d := SlotsUpTo(page, d, blockIdx)]
      {
        var b := Slot(page, d, blockIdx);
        assert b !in freeLists[d] by {
          if b in freeLists[d] {
            var i :| 0 <= i < blockIdx && freeLists[d][i] == b;
            SlotsApart(page, d, i, blockIdx);
          }
        }
        freeLists := freeLists[d := freeLists[d] + [b]];
        blockIdx := blockIdx + 1;
      }
    }

    /** `sys_malloc`. A block that is handed out is new, belongs to the caller alone until it is given
        back, and is large enough; a request that needs 3840 pages or more fails an assertion. */
    method SysMalloc(size: nat) returns (r: MallocOutcome)
      requires Valid()
      modifies this, mem`ptes, mem`pdes, mem.Objects()
      ensures Valid()
      ensures r == AssertFailed <==> 0 < size < poolSize && size + ARENA_SIZE > 3839 * PAGE
      ensures r.Block? <==> 0 < size < poolSize && size + ARENA_SIZE <= 3839 * PAGE
                            && CanServe(old(mem.Snap()), old(freeLists), size)
      ensures !r.Block? ==> live == old(live)
      ensures r.Block? ==> r.x !in old(live) && live == old(live)[r.x := size]
      ensures r.Block? ==> NoStray(old(mem.Snap()), old(arenas), mem.Snap(), arenas)
    {
      hide PagesFree, NoStray, HeapOK, Agree, Held;
      if !(size > 0 && size < poolSize) {
        return Null;
      }
      if size > 1024 {
        r := MallocLarge(size);
      } else {
        r := MallocSmall(size);
      }
    }

    /** Lines 301-340: a request of at most 1024 bytes. */
    method MallocSmall(size: nat) returns (r: MallocOutcome)
      requires Valid() && 0 < size <= 1024
      modifies this`arenas, this`freeLists, this`live, mem`ptes, mem`pdes, mem.Objects()
      ensures Valid() && r != AssertFailed
      ensures r.Block? <==> CanServe(old(mem.Snap()), old(freeLists), size)
      ensures r == Null ==> live == old(live)
      ensures r.Block? ==> r.x !in old(live) && live == old(live)[r.x := size]
      ensures r.Block? ==> NoStray(old(mem.Snap()), old(arenas), mem.Snap(), arenas)
    {
      hide HeapBase, Agree, InUse, Held, Refilled, Taken, PagesFree, Covered;
      var d := FindDesc(size);
      ghost var except: set<nat> := {};
      ListCount(H());
      if freeLists[d] == [] {
        var ok;
        ghost var h, p := H(), 0;
        ok, p := Refill(d);
        if !ok {
          return Null;
        }
        except := {p};
        RefillInUse(h, p, d);
      }
      ListCount(H());
      r := TakeFirst(d, size, except);
    }

    /** Lines 333-340: the first free block is handed out. */
    method TakeFirst(d: nat, size: nat, ghost except: set<nat>) returns (r: MallocOutcome)
      requires d < |freeLists| && d < DESC_CNT && 0 < size <= BlockSize(d)
      requires freeLists[d] != [] && except <= {PageOf(freeLists[d][0])}
      requires HeapBase(H()) && InUse(arenas, except) && Held(arenas, mem.Snap())
      modifies this`arenas, this`freeLists, this`live
      ensures HeapOK(H()) && Held(arenas, mem.Snap())
      ensures r.Block? && r.x !in old(live) && live == old(live)[r.x := size]
      ensures NoStray(mem.Snap(), old(arenas), mem.Snap(), arenas)
    {
      hide HeapBase, InUse, Held, Taken;
      ghost var h := H();
      ListCount(h);
      TakeKeeps(h, d, size);
      TakeInUse(h, d, size, except);
      TakenFields(h, d, size);
      TakeHeld(h, d, size, mem.Snap());
      var b := freeLists[d][0];
      var a := arenas[PageOf(b)];
      freeLists := freeLists[d := freeLists[d][1..]];
      CountCovers(mem.Snap(), arenas, PageOf(b), Small(a.d, a.cnt - 1));
      arenas := arenas[PageOf(b) := Small(a.d, a.cnt - 1)];
      live := live[b := size];
      r := Block(b);
    }

    /** Lines 451-457: all blocks of a free arena leave the free list. The assertion that each of them is
        there holds. */
    method RemoveBlocks(p: nat, d: nat)
      requires d < DESC_CNT && |freeLists| == DESC_CNT && NoDup(freeLists[d])
      requires forall i: nat :: i < BlocksPerArena(d) ==> Slot(p, d, i) in freeLists[d]
      modifies this`freeLists
      ensures |freeLists| == DESC_CNT && freeLists == old(freeLists)[d := freeLists[d]] && NoDup(freeLists[d])
      ensures forall y :: y in freeLists[d] <==>
                y in old(freeLists)[d] && !(exists i: nat :: i < BlocksPerArena(d) && y == Slot(p, d, i))
    {
      hide Slot, NoDup;
      var blockIdx := 0;
      while blockIdx < BlocksPerArena(d)
        invariant blockIdx <= BlocksPerArena(d) && |freeLists| == DESC_CNT
        invariant freeLists == old(freeLists)[d := freeLists[d]] && NoDup(freeLists[d])
        invariant forall y :: y in freeLists[d] <==>
                    y in old(freeLists)[d] && !(exists i: nat :: i < blockIdx && y == Slot(p, d, i))
      {
        var b := Slot(p, d, blockIdx);
        assert b in freeLists[d] by {
          forall i: nat | i < blockIdx
            ensures Slot(p, d, i) != b
          {
            SlotsDiffer(p, d, i, blockIdx);
          }
        }
        RemoveElemGone(freeLists[d], b);
        freeLists := freeLists[d := RemoveElem(freeLists[d], b)];
        blockIdx := blockIdx + 1;
      }
    }

    /** `sys_free` of a block that was handed out. Its assertions hold, and only that block changes hands;
        an arena whose blocks are all free disappears, and the pages of an arena that disappears are
        released. */
    method SysFree(ptr: nat)
      requires Valid() && ptr in live
      modifies this`arenas, this`freeLists, this`live, mem`ptes, mem.Objects()
      ensures Valid() && live == old(live) - {ptr}
      ensures NoStray(old(mem.Snap()), old(arenas), mem.Snap(), arenas)
    {
      hide HeapBase, Agree, InUse, Held, NoStray;
      ghost var h := H();
      LiveBlock(h, ptr);
      var p := PageOf(ptr);
      AboveStart(h, mem.Snap(), ptr);
      assert ptr >= PAGE * KERNEL_HEAP;
      var a := arenas[p];
      if a.Large? {
        FreeLarge(p, ptr);
      } else {
        FreeSmall(p, ptr);
      }
    }

    method FreeLarge(p: nat, ghost ptr: nat)
      requires Valid() && p in arenas && arenas[p].Large? && arenas[p].cnt >= 1 && ptr == PAGE * p + ARENA_SIZE
      modifies this`arenas, this`live, mem`ptes, mem.Objects()
      ensures Valid() && live == old(live) - {ptr}
      ensures NoStray(old(mem.Snap()), old(arenas), mem.Snap(), arenas)
    {
      hide HeapBase, Agree, InUse, Held, PagesHeld, TakenBack;
      ghost var h, m := H(), mem.Snap();
      ArenaHeld(arenas, m, p);
      LargeReturnKeeps(h, p);
      BaseApart(h);
      mem.MfreePage(KernelPages, p, arenas[p].cnt);
      OthersHeld(arenas, p, m, mem.Snap());
      FewerInUse(arenas, p, {});
      TakenPresent(m, mem.Snap(), p, PageCnt(arenas[p]));
      GoneArenaUncovers(m, mem.Snap(), arenas, p);
      arenas := arenas - {p};
      live := live - {ptr};
    }

    method FreeSmall(p: nat, ptr: nat)
      requires Valid() && ptr in live && p == PageOf(ptr) && p in arenas && arenas[p].Small? && arenas[p].d < DESC_CNT
      modifies this`arenas, this`freeLists, this`live, mem`ptes, mem.Objects()
      ensures Valid() && live == old(live) - {ptr}
      ensures NoStray(old(mem.Snap()), old(arenas), mem.Snap(), arenas)
    {
      hide HeapBase, Agree, InUse, Held, Returned, TakenBack, Covered;
      ghost var h := H();
      var a := arenas[p];
      ListCount(h);
      ReturnKeeps(h, ptr);
      ReturnedFields(h, ptr);
      ReturnHeld(h, ptr, mem.Snap());
      freeLists := freeLists[a.d := freeLists[a.d] + [ptr]];
      CountCovers(mem.Snap(), arenas, p, Small(a.d, a.cnt + 1));
      arenas := arenas[p := Small(a.d, a.cnt + 1)];
      live := live - {ptr};
      if a.cnt + 1 == BlocksPerArena(a.d) {
        DropFullArena(p, a.d);
      }
    }

    /** The arena at page `p` has only free blocks. */
    method DropFullArena(p: nat, d: nat)
      requires mem.Valid() && Agree(mem.Snap()) && StackHeld(mem.Snap()) && Held(arenas, mem.Snap())
      requires HeapBase(H()) && InUse(arenas, {p}) && d < DESC_CNT && p in arenas
               && arenas[p] == Small(d, BlocksPerArena(d))
      modifies this`arenas, this`freeLists, mem`ptes, mem.Objects()
      ensures mem.Valid() && Agree(mem.Snap()) && StackHeld(mem.Snap()) && Held(arenas, mem.Snap()) && HeapOK(H())
      ensures NoStray(old(mem.Snap()), old(arenas), mem.Snap(), arenas)
    {
      ghost var h, m := H(), mem.Snap();
      FullArena(h, p, d);
      hide HeapBase, Agree, InUse, Held, PagesHeld, TakenBack, NoDup, Slot, StackHeld, NoStray;
      ListCount(h);
      RemoveBlocks(p, d);
      ghost var q := freeLists[d];
      assert forall y :: y in q <==> y in h.free[d] && PageOf(y) != p;
      ReleasePage(h, p, d, q);
    }

    /** The page of such an arena is released. */
    method ReleasePage(ghost h: Heap, p: nat, ghost d: nat, ghost q: seq<nat>)
      requires mem.Valid() && Agree(mem.Snap()) && StackHeld(mem.Snap()) && Held(arenas, mem.Snap())
      requires HeapBase(h) && InUse(arenas, {p}) && d < DESC_CNT && p in arenas
               && arenas[p] == Small(d, BlocksPerArena(d))
      requires |h.free| == DESC_CNT && h.arenas == arenas && h.live == live && freeLists == h.free[d := q]
      requires NoDup(q) && forall y :: y in q <==> y in h.free[d] && PageOf(y) != p
      modifies this`arenas, mem`ptes, mem.Objects()
      ensures mem.Valid() && Agree(mem.Snap()) && StackHeld(mem.Snap()) && Held(arenas, mem.Snap()) && HeapOK(H())
      ensures NoStray(old(mem.Snap()), old(arenas), mem.Snap(), arenas)
    {
      hide HeapBase, Agree, InUse, Held, PagesHeld, TakenBack, NoDup;
      ghost var m := mem.Snap();
      ArenaHeld(arenas, m, p);
      DropKeeps(h, p, d, q);
      BaseApart(h);
      mem.MfreePage(KernelPages, p, 1);
      OthersHeld(arenas, p, m, mem.Snap());
      FewerInUse(arenas, p, {p});
      TakenPresent(m, mem.Snap(), p, PageCnt(arenas[p]));
      GoneArenaUncovers(m, mem.Snap(), arenas, p);
      arenas := arenas - {p};
      assert H() == Dropped(h, p, d, q);
    }
  }

  lemma TakenFields(h: Heap, d: nat, size: nat)
    requires d < DESC_CNT && d < |h.free| && h.free[d] != [] && PageOf(h.free[d][0]) in h.arenas
    requires h.arenas[PageOf(h.free[d][0])].Small? && h.arenas[PageOf(h.free[d][0])].cnt > 0
    ensures var x, h' := h.free[d][0], Taken(h, d, size);
            && h'.free == h.free[d := h.free[d][1..]] && h'.live == h.live[x := size]
            && h'.arenas == h.arenas[PageOf(x) := Small(h.arenas[PageOf(x)].d, h.arenas[PageOf(x)].cnt - 1)]
  {
  }

  /** After a refill the first block on the list is one of the new arena, the only one without a block
      that is handed out. */
  lemma RefillInUse(h: Heap, p: nat, d: nat)
    requires d < DESC_CNT && |h.free| == DESC_CNT && h.free[d] == [] && InUse(h.arenas, {})
    ensures Refilled(h, p, d).free[d] != [] && PageOf(Refilled(h, p, d).free[d][0]) == p
    ensures InUse(Refilled(h, p, d).arenas, {p})
  {
    var q := SlotsUpTo(p, d, BlocksPerArena(d));
    assert Refilled(h, p, d).free[d] == q;
    assert q[0] == Slot(p, d, 0);
    SlotInPage(p, d, 0);
  }

  lemma TakeInUse(h: Heap, d: nat, size: nat, except: set<nat>)
    requires HeapBase(h) && d < DESC_CNT && h.free[d] != [] && IsBlock(h.arenas, h.free[d][0], d)
    requires h.arenas[PageOf(h.free[d][0])].cnt > 0
    requires InUse(h.arenas, except) && except <= {PageOf(h.free[d][0])}
    ensures InUse(Taken(h, d, size).arenas, {})
  {
    var p: nat := PageOf(h.free[d][0]);
    assert ArenaOK(h.free, h.live, p, h.arenas[p]);
    AllFree(h.free[d], p, d);
  }

  lemma TakeHeld(h: Heap, d: nat, size: nat, m: Mem)
    requires d < DESC_CNT && d < |h.free| && h.free[d] != [] && PageOf(h.free[d][0]) in h.arenas
    requires h.arenas[PageOf(h.free[d][0])].Small? && h.arenas[PageOf(h.free[d][0])].cnt > 0
    requires Held(h.arenas, m)
    ensures Held(Taken(h, d, size).arenas, m)
  {
  }

  lemma ListCount(h: Heap)
    requires HeapBase(h)
    ensures |h.free| == DESC_CNT
  {
  }

  lemma ArenasPositive(h: Heap)
    requires HeapBase(h)
    ensures forall q :: q in h.arenas ==> PageCnt(h.arenas[q]) >= 1
  {
    PagesPositive(h);
  }

  lemma HeldOneMore(arenas: map<nat, Arena>, m: Mem, p: nat, a: Arena)
    requires Held(arenas, m) && PagesHeld(m, p, PageCnt(a))
    ensures Held(arenas[p := a], m)
  {
  }

  lemma LargeInUse(arenas: map<nat, Arena>, p: nat, n: nat)
    requires InUse(arenas, {})
    ensures InUse(arenas[p := Large(n)], {})
  {
  }

  lemma LiveBlock(h: Heap, x: nat)
    requires HeapBase(h) && x in h.live
    ensures PageOf(x) in h.arenas
    ensures match h.arenas[PageOf(x)]
            case Small(d, _) => d < DESC_CNT
            case Large(cnt) => cnt >= 1 && x == PAGE * PageOf(x) + ARENA_SIZE
  {
    assert LiveOK(h.arenas, x, h.live[x]);
    assert ArenaOK(h.free, h.live, PageOf(x), h.arenas[PageOf(x)]);
  }

  /** Blocks lie in the kernel heap. */
  lemma AboveStart(h: Heap, m: Mem, x: nat)
    requires HeapBase(h) && x in h.live && Held(h.arenas, m)
    ensures x >= PAGE * KERNEL_HEAP
  {
    LiveBlock(h, x);
    assert PagesHeld(m, PageOf(x), PageCnt(h.arenas[PageOf(x)]));
    assert InSpace(m, KernelPages, PageOf(x));
  }

  lemma ArenaHeld(arenas: map<nat, Arena>, m: Mem, p: nat)
    requires Held(arenas, m) && p in arenas && PageCnt(arenas[p]) >= 1
    ensures KERNEL_HEAP <= p && p + PageCnt(arenas[p]) <= KERNEL_HEAP + |m.kv|
    ensures forall q: nat :: p <= q < p + PageCnt(arenas[p]) ==> Present(m, q)
  {
    assert PagesHeld(m, p, PageCnt(arenas[p]));
    assert InSpace(m, KernelPages, p + PageCnt(arenas[p]) - 1);
    assert InSpace(m, KernelPages, p);
  }

  lemma BaseApart(h: Heap)
    requires HeapBase(h)
    ensures Apart(h.arenas)
  {
  }

  lemma FewerInUse(arenas: map<nat, Arena>, p: nat, except: set<nat>)
    requires InUse(arenas, except) && except <= {p}
    ensures InUse(arenas - {p}, {})
  {
  }

  lemma ReturnedFields(h: Heap, x: nat)
    requires PageOf(x) in h.arenas && h.arenas[PageOf(x)].Small? && h.arenas[PageOf(x)].d < |h.free|
    ensures var a, h' := h.arenas[PageOf(x)], Returned(h, x);
            && h'.arenas == h.arenas[PageOf(x) := Small(a.d, a.cnt + 1)]
            && h'.free == h.free[a.d := h.free[a.d] + [x]] && h'.live == h.live - {x}
  {
  }

  lemma ReturnHeld(h: Heap, x: nat, m: Mem)
    requires HeapOK(h) && x in h.live && PageOf(x) in h.arenas && h.arenas[PageOf(x)].Small?
             && h.arenas[PageOf(x)].d < DESC_CNT
    requires Held(h.arenas, m) && HeapBase(Returned(h, x))
    ensures Held(Returned(h, x).arenas, m)
    ensures var a := h.arenas[PageOf(x)];
            InUse(Returned(h, x).arenas, if a.cnt + 1 == BlocksPerArena(a.d) then {PageOf(x)} else {})
  {
    hide HeapBase;
  }

  /** The counter tells that all blocks are on the free list. */
  lemma FullArena(h: Heap, p: nat, d: nat)
    requires HeapBase(h) && d < DESC_CNT && p in h.arenas && h.arenas[p] == Small(d, BlocksPerArena(d))
    ensures forall i: nat :: i < BlocksPerArena(d) ==> Slot(p, d, i) in h.free[d]
    ensures NoDup(h.free[d])
    ensures forall y :: y in h.free[d] ==>
              (PageOf(y) == p <==> exists i: nat :: i < BlocksPerArena(d) && y == Slot(p, d, i))
  {
    assert ArenaOK(h.free, h.live, p, h.arenas[p]);
    AllFree(h.free[d], p, d);
    forall y | y in h.free[d]
      ensures PageOf(y) == p <==> exists i: nat :: i < BlocksPerArena(d) && y == Slot(p, d, i)
    {
      ListedIsBlock(h, y, d);
      if i: nat :| i < BlocksPerArena(d) && y == Slot(p, d, i) {
        SlotInPage(p, d, i);
      }
    }
  }
}
