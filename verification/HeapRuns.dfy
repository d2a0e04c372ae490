/** Runs of `sys_malloc` and `sys_free` by kernel threads, from the memory that `mem_init` sets up. */
module HeapRuns {
  import opened Bitmaps
  import opened Sequences
  import opened PagingState
  import opened Paging
  import opened HeapState
  import opened KernelHeap

  /** A request, or the return of the block number `i` of those that are held. */
  datatype HeapOp = Malloc(size: nat) | Free(i: nat)

  /** The addresses that are held are those that were handed out, each once. */
  ghost predicate Holds(held: seq<nat>, live: map<nat, nat>) {
    NoDup(held) && forall x :: x in held <==> x in live
  }

  lemma HoldsMore(held: seq<nat>, live: map<nat, nat>, x: nat, size: nat)
    requires Holds(held, live) && x !in live
    ensures Holds(held + [x], live[x := size])
  {
  }

  lemma HoldsLess(held: seq<nat>, live: map<nat, nat>, i: nat)
    requires Holds(held, live) && i < |held|
    ensures Holds(held[..i] + held[i + 1..], live - {held[i]})
  {
    var rest := held[..i] + held[i + 1..];
    forall x
      ensures x in rest <==> x in live - {held[i]}
    {
      if x in live - {held[i]} {
        var j :| 0 <= j < |held| && held[j] == x;
        assert if j < i then rest[j] == x else rest[j - 1] == x;
      }
    }
  }

  /** A heap whose blocks have all been given back has no arenas. */
  lemma NothingLeft(h: Heap)
    requires HeapOK(h) && h.live == map[]
    ensures h.arenas == map[]
  {
    forall p | p in h.arenas
      ensures false
    {
      assert ArenaOK(h.free, h.live, p, h.arenas[p]);
      AllFree(h.free[h.arenas[p].d], p, h.arenas[p].d);
    }
  }

  /** Any requests and returns, one after the other. The blocks that are held never overlap. The run stops only at
      a request that fails the assertion of `malloc_page`; `short` tells whether another request was refused
      that asked for a proper size. If none was and everything has been given back, the same pages are mapped as
      before. */
  method RunHeap(heap: KHeap, ops: seq<HeapOp>) returns (n: nat, held: seq<nat>, short: bool)
    requires heap.Valid() && heap.live == map[]
    modifies heap, heap.mem`ptes, heap.mem`pdes, heap.mem.Objects()
    ensures heap.Valid() && Holds(held, heap.live) && n <= |ops|
    ensures forall x, y :: x in held && y in held && x < y ==> x + heap.live[x] <= y
    ensures n < |ops| ==> ops[n].Malloc? && ops[n].size < heap.poolSize && ops[n].size + ARENA_SIZE > 3839 * PAGE
    ensures n == |ops| && !short && held == [] ==>
              forall q: nat :: Present(heap.mem.Snap(), q) == Present(old(heap.mem.Snap()), q)
  {
    hide Agree, HeapOK, Held, NoStray, CanServe, Holds;
    ghost var m0 := heap.mem.Snap();
    NothingLeft(heap.H());
    StrayNone(m0, map[]);
    n, held, short := 0, [], false;
    EmptyHolds();
    while n < |ops|
      invariant n <= |ops| && heap.Valid() && Holds(held, heap.live)
      invariant !short ==> NoStray(m0, map[], heap.mem.Snap(), heap.arenas)
    {
      match ops[n] {
        case Malloc(size) =>
          ghost var m, arenas, live := heap.mem.Snap(), heap.arenas, heap.live;
          var r := heap.SysMalloc(size);
          if r == AssertFailed {
            Apartness(heap.H(), held);
            return;
          }
          if r.Block? {
            HoldsMore(held, live, r.x, size);
            held := held + [r.x];
            StrayTwice(m0, map[], m, arenas, heap.mem.Snap(), heap.arenas);
          } else {
            short := true;
          }
        case Free(i) =>
          if i < |held| {
            ghost var m, arenas, live := heap.mem.Snap(), heap.arenas, heap.live;
            HoldsLess(held, live, i);
            HeldIsLive(held, live, i);
            heap.SysFree(held[i]);
            held := held[..i] + held[i + 1..];
            StrayTwice(m0, map[], m, arenas, heap.mem.Snap(), heap.arenas);
          }
      }
      n := n + 1;
    }
    Apartness(heap.H(), held);
    if held == [] && !short {
      NothingHeld(heap.live);
      NothingLeft(heap.H());
      SamePages(m0, heap.mem.Snap());
    }
  }

  lemma StrayNone(m: Mem, a: map<nat, Arena>)
    ensures NoStray(m, a, m, a)
  {
  }

  lemma EmptyHolds()
    ensures Holds([], map[])
  {
  }

  lemma HeldIsLive(held: seq<nat>, live: map<nat, nat>, i: nat)
    requires Holds(held, live) && i < |held|
    ensures held[i] in live
  {
  }

  lemma NothingHeld(live: map<nat, nat>)
    requires Holds([], live)
    ensures live == map[]
  {
    assert forall x :: x in live ==> x in [];
  }

  lemma StrayTwice(m: Mem, a: map<nat, Arena>, m1: Mem, a1: map<nat, Arena>, m2: Mem, a2: map<nat, Arena>)
    requires NoStray(m1, a1, m2, a2)
    ensures NoStray(m, a, m1, a1) ==> NoStray(m, a, m2, a2)
  {
    hide Present, Covered;
  }

  lemma SamePages(m: Mem, m': Mem)
    requires NoStray(m, map[], m', map[])
    ensures forall q: nat :: Present(m', q) == Present(m, q)
  {
    hide Present;
  }

  lemma Apartness(h: Heap, held: seq<nat>)
    requires HeapOK(h) && Holds(held, h.live)
    ensures forall x :: x in held ==> x in h.live
    ensures forall x, y :: x in held && y in held && x < y ==> x + h.live[x] <= y
  {
    hide HeapOK;
    forall x, y | x in held && y in held && x < y
      ensures x + h.live[x] <= y
    {
      NoOverlap(h, x, y);
    }
  }

  /** The same from the start of memory management on. */
  method RunFromStart(allMem: nat, userVaddr: Bitmap, ptes: map<nat, Pte>, pdes: map<nat, nat>, ops: seq<HeapOp>)
    returns (heap: KHeap, n: nat, held: seq<nat>, short: bool)
    requires 0x20_0000 <= allMem < 0x1_0000_0000
    requires userVaddr.Valid() && |userVaddr.contents| == USER_PAGES && userVaddr.contents[USER_PAGES - 1]
    requires LoaderTables(ptes, pdes)
    modifies userVaddr, userVaddr.bits
    ensures fresh(heap) && heap.Valid() && Holds(held, heap.live) && n <= |ops|
    ensures n < |ops| ==> ops[n].Malloc? && ops[n].size + ARENA_SIZE > 3839 * PAGE
    ensures n == |ops| && !short && held == [] ==>
              forall q: nat :: Present(heap.mem.Snap(), q) <==> q in ptes && ptes[q].present
  {
    hide Agree, HeapOK, Held, LoaderTables, Holds;
    var mem, poolSize := MemPoolInit(allMem, userVaddr, ptes, pdes);
    heap := new KHeap(mem, poolSize);
    n, held, short := RunHeap(heap, ops);
  }

  /** With 32 MB of memory the first request is served. */
  method FirstBlock(userVaddr: Bitmap, ptes: map<nat, Pte>, pdes: map<nat, nat>, size: nat)
    returns (heap: KHeap, r: MallocOutcome)
    requires userVaddr.Valid() && |userVaddr.contents| == USER_PAGES && userVaddr.contents[USER_PAGES - 1]
    requires LoaderTables(ptes, pdes) && 0 < size <= 1024
    modifies userVaddr, userVaddr.bits
    ensures fresh(heap) && heap.Valid() && r.Block? && heap.live == map[r.x := size]
  {
    hide Agree, HeapOK, Held, LoaderTables, PagesFree, NoStray;
    var mem, poolSize := MemPoolInit(0x200_0000, userVaddr, ptes, pdes);
    heap := new KHeap(mem, poolSize);
    AllFreePages(mem.Snap());
    r := heap.SysMalloc(size);
  }

  lemma AllFreePages(m: Mem)
    requires |m.kbits| > 0 && |m.kv| > 0
    requires forall pf, f: nat :: !Used(m, pf, f)
    requires forall p: nat :: !Reserved(m, KernelPages, p)
    ensures PagesFree(m, 1)
  {
    assert !Used(m, KernelPages, m.kf) && !Reserved(m, KernelPages, KERNEL_HEAP);
    assert FreeRun(m.kv, 0, 1);
    assert m.kbits[0] in multiset(m.kbits);
  }
}
