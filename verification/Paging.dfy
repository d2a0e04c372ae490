/** `malloc_page` and `mfree_page` of `src/kernel/memory.c`: address bit maps, frame pools and page
    tables are changed in step. */
module Paging {
  import opened Bitmaps
  import opened PagingState

  /** The frames of `n` pages from `page` on. */
  ghost function FramesOf(m: Mem, page: nat, n: nat): set<nat> {
    set q: nat | page <= q < page + n :: FrameOf(m, q)
  }

  /** Exactly the bits of the frames in `gone` have been cleared. */
  ghost predicate Freed(bits: seq<bool>, bits': seq<bool>, first: nat, gone: set<nat>) {
    && |bits'| == |bits|
    && forall i :: 0 <= i < |bits| ==> (bits'[i] <==> bits[i] && first + i !in gone)
  }

  /** What a mapping of `n` pages from number `s` of a space on does, once their addresses are
      reserved: they are mapped to frames that were free, and no other page is affected. */
  ghost predicate Gave(m: Mem, m': Mem, pf: Pf, s: nat, n: nat) {
    GaveFrames(m, m', pf, FramesOf(m', Base(pf) + s, n), n) && GavePages(m, m', Base(pf) + s, n)
  }

  ghost predicate GaveFrames(m: Mem, m': Mem, pf: Pf, got: set<nat>, n: nat) {
    && SameShape(m, m') && m'.kv == m.kv && m'.uv == m.uv
    && Claimed(Pool(m, pf), Pool(m', pf), First(m, pf), got)
    && |got| == n && n + FreeCount(Pool(m', pf)) == FreeCount(Pool(m, pf))
    && (pf.KernelPages? ==> m'.ubits == m.ubits && m'.pdes == m.pdes)
    && (pf.UserPages? ==> forall i :: 0 <= i < |m.kbits| && m.kbits[i] ==> m'.kbits[i])
  }

  ghost predicate GavePages(m: Mem, m': Mem, page: nat, n: nat) {
    && (forall q: nat :: Present(m', q) == (Present(m, q) || page <= q < page + n))
    && (forall q: nat :: Present(m, q) ==> FrameOf(m', q) == FrameOf(m, q))
  }

  /** What unmapping `n` pages does, before their addresses are given back. */
  ghost predicate Took(m: Mem, m': Mem, pf: Pf, s: nat, n: nat) {
    && SameShape(m, m') && m'.kv == m.kv && m'.uv == m.uv && m'.pdes == m.pdes
    && Freed(Pool(m, pf), Pool(m', pf), First(m, pf), FramesOf(m, Base(pf) + s, n))
    && (if pf.KernelPages? then m'.ubits == m.ubits else m'.kbits == m.kbits)
    && (forall q: nat :: Present(m', q) == (Present(m, q) && !(Base(pf) + s <= q < Base(pf) + s + n)))
    && (forall q: nat :: FrameOf(m', q) == FrameOf(m, q))
  }

  lemma GaveNothing(m: Mem, pf: Pf, s: nat)
    ensures Gave(m, m, pf, s, 0)
  {
    assert FramesOf(m, Base(pf) + s, 0) == {};
  }

  lemma FramesOneMore(m: Mem, m': Mem, page: nat, n: nat, f: nat)
    requires forall q: nat :: page <= q < page + n ==> FrameOf(m', q) == FrameOf(m, q)
    requires FrameOf(m', page + n) == f
    ensures FramesOf(m', page, n + 1) == FramesOf(m, page, n) + {f}
  {
    forall x | x in FramesOf(m, page, n) + {f}
      ensures x in FramesOf(m', page, n + 1)
    {
      if x in FramesOf(m, page, n) {
        var q: nat :| page <= q < page + n && FrameOf(m, q) == x;
        assert FrameOf(m', q) == x;
      } else {
        assert FrameOf(m', page + n) == x;
      }
    }
    forall x | x in FramesOf(m', page, n + 1)
      ensures x in FramesOf(m, page, n) + {f}
    {
      var q: nat :| page <= q < page + n + 1 && FrameOf(m', q) == x;
      if q < page + n {
        assert FrameOf(m, q) == x;
      }
    }
  }

  /** One more page was mapped. */
  lemma GaveOneMore(m: Mem, m1: Mem, pf: Pf, s: nat, n: nat, f: nat)
    requires Gave(m, m1, pf, s, n) && !Present(m1, Base(pf) + s + n)
    requires First(m, pf) <= f < First(m, pf) + |Pool(m, pf)| && !Pool(m1, pf)[f - First(m, pf)]
    ensures Gave(m, Mapped(m1, pf, Base(pf) + s + n, f), pf, s, n + 1)
  {
    hide Used, Reserved, FreeCount, Mapped, FramesOf, FrameOf, Present, Claimed;
    var p := Base(pf) + s + n;
    var m2 := Mapped(m1, pf, p, f);
    MapFacts(m1, pf, p, f);
    FramesOneMore(m1, m2, Base(pf) + s, n, f);
    OneMoreFrame(m, m1, pf, FramesOf(m1, Base(pf) + s, n), n, p, f);
  }

  lemma OneMoreFrame(m: Mem, m1: Mem, pf: Pf, got: set<nat>, n: nat, p: nat, f: nat)
    requires GaveFrames(m, m1, pf, got, n)
    requires First(m, pf) <= f < First(m, pf) + |Pool(m, pf)| && !Pool(m1, pf)[f - First(m, pf)]
    ensures GaveFrames(m, Mapped(m1, pf, p, f), pf, got + {f}, n + 1)
  {
    hide FreeCount, Claimed, Mapped, Pool, Used, Present, FrameOf, Reserved;
    FirstSame(m, m1, pf);
    ClaimOne(Pool(m, pf), Pool(m1, pf), First(m, pf), got, f);
    MapPools(m1, pf, p, f);
    MapFacts(m1, pf, p, f);
  }

  lemma FirstSame(m: Mem, m': Mem, pf: Pf)
    requires SameShape(m, m')
    ensures First(m', pf) == First(m, pf) && |Pool(m', pf)| == |Pool(m, pf)|
  {
  }

  lemma MapPools(m: Mem, pf: Pf, p: nat, f: nat)
    requires First(m, pf) <= f < First(m, pf) + |Pool(m, pf)|
    ensures Pool(Mapped(m, pf, p, f), pf) == Pool(m, pf)[f - First(m, pf) := true]
    ensures pf.KernelPages? ==> Mapped(m, pf, p, f).ubits == m.ubits
    ensures pf.UserPages? ==> Mapped(m, pf, p, f).kbits == m.kbits
  {
  }

  /** A page table for the process was added. */
  lemma GaveTable(m: Mem, m1: Mem, s: nat, n: nat, d: nat, t: nat)
    requires Gave(m, m1, UserPages, s, n) && TablesOK(m1) && d !in m1.pdes
    requires m1.kf <= t < m1.kf + |m1.kbits|
    ensures Gave(m, WithTable(m1, d, t), UserPages, s, n)
  {
    hide Used, Reserved, FreeCount, FrameOf, TablesOK, Present;
    var m2 := WithTable(m1, d, t);
    TableFacts(m1, d, t);
    assert FramesOf(m2, USER_START + s, n) == FramesOf(m1, USER_START + s, n) by {
      SameFrames(m1, m2, USER_START + s, n);
    }
  }

  lemma SameFrames(m: Mem, m': Mem, page: nat, n: nat)
    requires forall q: nat :: page <= q < page + n ==> FrameOf(m', q) == FrameOf(m, q)
    ensures FramesOf(m', page, n) == FramesOf(m, page, n)
  {
  }

  lemma ClaimedFreed(bits: seq<bool>, bits1: seq<bool>, bits2: seq<bool>, first: nat, got: set<nat>)
    requires Claimed(bits, bits1, first, got) && Freed(bits1, bits2, first, got)
    ensures bits2 == bits
  {
    forall i | 0 <= i < |bits|
      ensures bits2[i] == bits[i]
    {
      assert first + i in got ==> !bits[first + i - first];
    }
  }

  /** What allocation and release together do to the bit maps: nothing, but for page tables of the
      process. */
  lemma GiveAndTake(m: Mem, m1: Mem, m2: Mem, pf: Pf, s: nat, n: nat)
    requires s + n <= |Vaddr(m, pf)| && FreeRun(Vaddr(m, pf), s, n) && Absent(m, pf, s, n)
    requires Gave(WithVaddr(m, pf, Fill(Vaddr(m, pf), s, n, true)), m1, pf, s, n)
    requires Took(m1, m2, pf, s, n)
    ensures WithVaddr(m2, pf, Fill(Vaddr(m2, pf), s, n, false)).kv == m.kv
    ensures WithVaddr(m2, pf, Fill(Vaddr(m2, pf), s, n, false)).uv == m.uv
    ensures m2.ubits == m.ubits && (pf.KernelPages? ==> m2.kbits == m.kbits)
    ensures forall q: nat :: Present(m2, q) == Present(m, q)
  {
    hide FreeCount, FramesOf, Freed, Claimed;
    var m0 := WithVaddr(m, pf, Fill(Vaddr(m, pf), s, n, true));
    assert Fill(Vaddr(m2, pf), s, n, false) == Vaddr(m, pf);
    VaddrFacts(m, pf, s, n, true);
    ClaimedFreed(Pool(m, pf), Pool(m1, pf), Pool(m2, pf), First(m, pf), FramesOf(m1, Base(pf) + s, n));
  }

  lemma TookNothing(m: Mem, pf: Pf, s: nat)
    ensures Took(m, m, pf, s, 0)
  {
    assert FramesOf(m, Base(pf) + s, 0) == {};
  }

  /** One more page was unmapped. */
  lemma TookOneMore(m: Mem, m1: Mem, pf: Pf, s: nat, n: nat)
    requires Took(m, m1, pf, s, n)
    requires Present(m1, Base(pf) + s + n) && Used(m1, pf, FrameOf(m1, Base(pf) + s + n))
    ensures Took(m, Unmapped(m1, pf, Base(pf) + s + n), pf, s, n + 1)
  {
    hide Reserved, Unmapped, FramesOf, FrameOf, Present, Freed;
    var p := Base(pf) + s + n;
    var m2 := Unmapped(m1, pf, p);
    UnmapFacts(m1, pf, p);
    FramesOneMore(m, m, Base(pf) + s, n, FrameOf(m, p));
    UnmapPools(m1, pf, p);
    FirstSame(m, m1, pf);
    FreeOne(Pool(m, pf), Pool(m1, pf), First(m, pf), FramesOf(m, Base(pf) + s, n), FrameOf(m1, p));
  }

  lemma UnmapPools(m: Mem, pf: Pf, p: nat)
    requires Present(m, p) && Used(m, pf, FrameOf(m, p))
    ensures Pool(Unmapped(m, pf, p), pf) == Pool(m, pf)[FrameOf(m, p) - First(m, pf) := false]
    ensures if pf.KernelPages? then Unmapped(m, pf, p).ubits == m.ubits else Unmapped(m, pf, p).kbits == m.kbits
    ensures FrameOf(Unmapped(m, pf, p), p) == FrameOf(m, p)
  {
  }

  lemma FreeOne(bits: seq<bool>, bits': seq<bool>, first: nat, gone: set<nat>, f: nat)
    requires Freed(bits, bits', first, gone) && first <= f < first + |bits|
    ensures Freed(bits, bits'[f - first := false], first, gone + {f})
  {
    assert first + (f - first) == f;
  }

  datatype MallocResult = Pages(page: nat) | NoAddress | NoFrame | NoTable

  class Memory {
    const kernelPool: Bitmap
    const userPool: Bitmap
    const kernelVaddr: Bitmap
    const userVaddr: Bitmap
    const kf: nat
    const uf: nat
    var ptes: map<nat, Pte>
    var pdes: map<nat, nat>

    constructor (kernelPool: Bitmap, userPool: Bitmap, kernelVaddr: Bitmap, userVaddr: Bitmap, kf: nat, uf: nat,
                 ptes: map<nat, Pte>, pdes: map<nat, nat>)
      ensures this.kernelPool == kernelPool && this.userPool == userPool
      ensures this.kernelVaddr == kernelVaddr && this.userVaddr == userVaddr
      ensures Snap() == Mem(kernelPool.contents, userPool.contents, kernelVaddr.contents, userVaddr.contents, ptes,
                            pdes, kf, uf)
    {
      this.kernelPool, this.userPool, this.kernelVaddr, this.userVaddr := kernelPool, userPool, kernelVaddr, userVaddr;
      this.kf, this.uf, this.ptes, this.pdes := kf, uf, ptes, pdes;
    }

    ghost function Objects(): set<object>
      reads this
    {
      {kernelPool, kernelPool.bits, userPool, userPool.bits, kernelVaddr, kernelVaddr.bits, userVaddr, userVaddr.bits}
    }

    ghost function Snap(): Mem
      reads this, kernelPool, userPool, kernelVaddr, userVaddr
    {
      Mem(kernelPool.contents, userPool.contents, kernelVaddr.contents, userVaddr.contents, ptes, pdes, kf, uf)
    }

    ghost predicate Valid()
      reads this, Objects()
    {
      && kernelPool.Valid() && userPool.Valid() && kernelVaddr.Valid() && userVaddr.Valid()
      && kernelPool != userPool && kernelPool != kernelVaddr && kernelPool != userVaddr
      && userPool != kernelVaddr && userPool != userVaddr && kernelVaddr != userVaddr
      && kernelPool.bits != userPool.bits && kernelPool.bits != kernelVaddr.bits && kernelPool.bits != userVaddr.bits
      && userPool.bits != kernelVaddr.bits && userPool.bits != userVaddr.bits && kernelVaddr.bits != userVaddr.bits
    }

    /** The loops that call `bitmap_set` on `cnt` bits in a row. */
    method SetBits(b: Bitmap, start: nat, cnt: nat, value: bool)
      requires b.Valid() && start + cnt <= |b.contents|
      modifies b`contents, b.bits
      ensures b.Valid() && b.contents == Fill(old(b.contents), start, cnt, value)
    {
      var i := 0;
      while i < cnt
        invariant i <= cnt && b.Valid() && |b.contents| == |old(b.contents)|
        invariant b.contents == Fill(old(b.contents), start, i, value)
      {
        b.Set(start + i, value);
        i := i + 1;
      }
    }

    /** `vaddr_get`: the lowest run of free addresses. Its assertion on user addresses holds because the
        last page is the stack. */
    method VaddrGet(pf: Pf, n: nat) returns (page: int)
      requires Valid() && n > 0 && StackHeld(Snap())
      modifies Objects()
      ensures Valid()
      ensures page == -1 <==> forall s: nat :: !FreeRun(Vaddr(old(Snap()), pf), s, n)
      ensures page == -1 ==> Snap() == old(Snap())
      ensures page != -1 ==> Base(pf) <= page && FreeRun(Vaddr(old(Snap()), pf), page - Base(pf), n)
      ensures page != -1 ==> forall s: nat :: s < page - Base(pf) ==> !FreeRun(Vaddr(old(Snap()), pf), s, n)
      ensures page != -1 ==>
        Snap() == WithVaddr(old(Snap()), pf, Fill(Vaddr(old(Snap()), pf), page - Base(pf), n, true))
    {
      hide Fill;
      var b := if pf.KernelPages? then kernelVaddr else userVaddr;
      ghost var bits := b.contents;
      var bitIdxStart := b.Scan(n);
      if bitIdxStart == -1 {
        return -1;
      }
      assert FreeRun(Vaddr(Snap(), pf), bitIdxStart, n);
      SetBits(b, bitIdxStart, n, true);
      page := Base(pf) + bitIdxStart;
      if pf.UserPages? {
        assert bitIdxStart + n <= USER_PAGES - 1;
        assert page < 0xc0000 - 1;
      }
    }

    /** `palloc`. */
    method Palloc(pf: Pf) returns (frame: int)
      requires Valid()
      modifies Objects()
      ensures Valid()
      ensures frame == -1 <==> FreeCount(Pool(old(Snap()), pf)) == 0
      ensures frame == -1 ==> Snap() == old(Snap())
      ensures frame != -1 ==>
        var m := old(Snap());
        && First(m, pf) <= frame < First(m, pf) + |Pool(m, pf)| && !Pool(m, pf)[frame - First(m, pf)]
        && (forall j :: 0 <= j < frame - First(m, pf) ==> Pool(m, pf)[j])
        && Snap() == WithPool(m, pf, Pool(m, pf)[frame - First(m, pf) := true])
    {
      hide FreeCount;
      var bitIdx;
      if pf.KernelPages? {
        bitIdx := kernelPool.AllocOne();
      } else {
        bitIdx := userPool.AllocOne();
      }
      if bitIdx == -1 {
        return -1;
      }
      frame := bitIdx + if pf.KernelPages? then kf else uf;
    }

    /** `page_table_add`. If there is no frame for a new page table, the code goes on with a table at
        physical address 0: that is what `false` stands for. */
    method PageTableAdd(p: nat, frame: nat) returns (ok: bool, ghost t: nat)
      requires Valid() && !Present(Snap(), p)
      modifies this`ptes, this`pdes, Objects()
      ensures Valid()
      ensures !ok ==> p / 1024 !in old(pdes) && FreeCount(old(Snap()).kbits) == 0
      ensures ok && p / 1024 in old(pdes) ==> Snap() == old(Snap()).(ptes := old(ptes)[p := Pte(frame, true)])
      ensures ok && p / 1024 !in old(pdes) ==>
        var m := old(Snap());
        && m.kf <= t < m.kf + |m.kbits| && !m.kbits[t - m.kf]
        && Snap() == WithTable(m, p / 1024, t).(ptes := WithTable(m, p / 1024, t).ptes[p := Pte(frame, true)])
    {
      hide FreeCount;
      ok, t := true, 0;
      if p / 1024 in pdes {
        assert !Present(Snap(), p);
        ptes := ptes[p := Pte(frame, true)];
      } else {
        var pde := Palloc(KernelPages);
        ok, t := pde != -1, if pde == -1 then 0 else pde;
        pdes := pdes[p / 1024 := if pde == -1 then 0 else pde];
        ptes := map q | q in ptes && q / 1024 != p / 1024 :: ptes[q];
        assert !Present(Snap(), p);
        ptes := ptes[p := Pte(frame, true)];
      }
    }

    /** One round of the loop of `malloc_page`: a frame, and its entry. */
    method MapNext(pf: Pf, p: nat, ghost m0: Mem, ghost s: nat, ghost i: nat) returns (r: MallocResult)
      requires Valid() && p == Base(pf) + s + i && Gave(m0, Snap(), pf, s, i) && !Present(Snap(), p)
      requires Reserved(Snap(), pf, p)
      requires Agree(Snap())
      modifies this`ptes, this`pdes, Objects()
      ensures Valid()
      ensures r == NoFrame <==> FreeCount(Pool(old(Snap()), pf)) == 0
      ensures r == NoFrame ==> Snap() == old(Snap())
      ensures r == NoTable ==> pf.UserPages? && FreeCount(old(Snap()).kbits) == 0
      ensures r == NoFrame || r == NoTable || r == Pages(p)
      ensures r == Pages(p) ==> Agree(Snap()) && Gave(m0, Snap(), pf, s, i + 1)
    {
      hide FreeCount, PagesOK, FramesDistinct, TablesOK, Layout, Gave, Present, Used, Mapped, WithTable;
      ghost var m := Snap();
      var frame := Palloc(pf);
      if frame == -1 {
        return NoFrame;
      }
      ghost var m1 := Snap();
      SamePresent(m, m1, p);
      var ok;
      ghost var t;
      ok, t := PageTableAdd(p, frame);
      if !ok {
        NoTableForUser(m, pf, p);
        return NoTable;
      }
      MappedNext(m0, m, Snap(), pf, s, i, frame, t);
      r := Pages(p);
    }

    /** `malloc_page`. In every case but `NoTable` the bit maps and tables still agree. A kernel request
        succeeds iff there are enough consecutive addresses and enough frames; if only the frames run
        out, the pages mapped so far and all the addresses are lost. */
    method MallocPage(pf: Pf, n: nat) returns (r: MallocResult)
      requires Valid() && 0 < n < 3840 && StackHeld(Snap())
      requires Agree(Snap())
      modifies this`ptes, this`pdes, Objects()
      ensures Valid()
      ensures r == NoAddress <==> forall s: nat :: !FreeRun(Vaddr(old(Snap()), pf), s, n)
      ensures r == NoAddress ==> Snap() == old(Snap())
      ensures r.Pages? ==> Given(old(Snap()), Snap(), pf, r.page, n) && Agree(Snap())
      ensures r == NoFrame ==> FreeCount(Pool(old(Snap()), pf)) < n && FreeCount(Pool(Snap(), pf)) == 0 && Agree(Snap())
      ensures r == NoFrame ==> exists s: nat, i: nat :: Lost(old(Snap()), Snap(), pf, n, s, i)
      ensures r == NoTable ==> pf.UserPages?
      ensures r.Pages? ==> FreeCount(Pool(old(Snap()), pf)) >= n
    {
      hide FreeCount, Agree, Gave, Present, Reserved, Fill, FreeRun;
      ghost var m := Snap();
      var page := VaddrGet(pf, n);
      if page == -1 {
        return NoAddress;
      }
      ghost var m0, s := Snap(), page - Base(pf);
      AfterVaddrGet(m, m0, pf, s, n);
      var cnt := 0;
      while cnt < n
        invariant cnt <= n && Valid() && Agree(Snap()) && Gave(m0, Snap(), pf, s, cnt)
      {
        FirstOfGave(m0, Snap(), pf, s, cnt);
        assert Base(pf) + s + cnt == page + cnt;
        r := MapNext(pf, page + cnt, m0, s, cnt);
        if !r.Pages? {
          assert r == NoFrame ==> Lost(m, Snap(), pf, n, s, cnt);
          return;
        }
        cnt := cnt + 1;
      }
      FirstOfGave(m0, Snap(), pf, s, n);
      r := Pages(page);
    }

    /** `pfree`: the address tells the pool. */
    method Pfree(f: nat)
      requires Valid() && Layout(Snap()) && InPool(Snap(), f)
      modifies Objects()
      ensures Valid()
      ensures forall pf :: Used(old(Snap()), pf, f) ==>
                Snap() == WithPool(old(Snap()), pf, Pool(old(Snap()), pf)[f - First(old(Snap()), pf) := false])
    {
      if f >= uf {
        userPool.Set(f - uf, false);
      } else {
        kernelPool.Set(f - kf, false);
      }
    }

    /** One round of the loops of `mfree_page`. */
    method UnmapNext(pf: Pf, p: nat, user: bool)
      requires Valid() && InSpace(Snap(), pf, p) && Present(Snap(), p) && user == pf.UserPages?
      requires Agree(Snap())
      modifies this`ptes, Objects()
      ensures Valid() && Agree(Snap())
      ensures Used(old(Snap()), pf, FrameOf(old(Snap()), p)) && Snap() == Unmapped(old(Snap()), pf, p)
    {
      hide FreeCount, FramesDistinct, TablesOK;
      UnmapKeeps(Snap(), pf, p);
      var f := ptes[p].frame;
      assert if user then f >= uf else kf <= f < uf;
      Pfree(f);
      ptes := ptes[p := Pte(f, false)];
    }

    /** The loops of `mfree_page`. */
    method UnmapAll(pf: Pf, page: nat, n: nat, user: bool)
      requires Valid() && Base(pf) <= page && page + n <= Base(pf) + |Vaddr(Snap(), pf)| && user == pf.UserPages?
      requires forall q: nat :: page <= q < page + n ==> Present(Snap(), q)
      requires Agree(Snap())
      modifies this`ptes, Objects()
      ensures Valid() && Agree(Snap()) && Took(old(Snap()), Snap(), pf, page - Base(pf), n)
    {
      hide Agree, Took, Used, FrameOf, Unmapped, Present;
      ghost var m, s := Snap(), page - Base(pf);
      TookNothing(m, pf, s);
      var cnt := 0;
      while cnt < n
        invariant cnt <= n && Valid() && Agree(Snap()) && Took(m, Snap(), pf, s, cnt)
      {
        TookParts(m, Snap(), pf, s, cnt);
        assert page + cnt == Base(pf) + s + cnt;
        ghost var m1 := Snap();
        UnmapNext(pf, page + cnt, user);
        TookOneMore(m, m1, pf, s, cnt);
        cnt := cnt + 1;
      }
    }

    /** `mfree_page`, for pages that are mapped. Its assertions hold. */
    method MfreePage(pf: Pf, page: nat, n: nat)
      requires Valid() && n >= 1 && Base(pf) <= page && page + n <= Base(pf) + |Vaddr(Snap(), pf)|
      requires forall q: nat :: page <= q < page + n ==> Present(Snap(), q)
      requires Agree(Snap())
      modifies this`ptes, Objects()
      ensures Valid() && Agree(Snap()) && TakenBack(old(Snap()), Snap(), pf, page, n)
    {
      hide Agree, Took, Present, Fill, Used;
      FrameOfFirst(Snap(), pf, page);
      var f := ptes[page].frame;
      assert f >= 0x102;
      ghost var m, s := Snap(), page - Base(pf);
      UnmapAll(pf, page, n, f >= uf);
      TookParts(m, Snap(), pf, s, n);
      VaddrKeeps(Snap(), pf, s, n, false);
      SetBits(if pf.KernelPages? then kernelVaddr else userVaddr, page - Base(pf), n, false);
    }

    /** Kernel pages that are allocated and released leave both bit maps as they were. */
    method AllocAndRelease(n: nat) returns (r: MallocResult)
      requires Valid() && 0 < n < 3840 && StackHeld(Snap())
      requires Agree(Snap())
      modifies this`ptes, this`pdes, Objects()
      ensures Valid()
      ensures r.Pages? ==> Agree(Snap()) && Snap().kbits == old(Snap()).kbits && Snap().kv == old(Snap()).kv
      ensures r.Pages? ==> Snap().ubits == old(Snap()).ubits && Snap().uv == old(Snap()).uv
                           && Snap().pdes == old(Snap()).pdes
      ensures r.Pages? ==> forall q: nat :: Present(Snap(), q) == Present(old(Snap()), q)
    {
      hide FreeCount, Agree, Gave, Took, Present, Reserved, Fill, FreeRun;
      ghost var m := Snap();
      r := MallocPage(KernelPages, n);
      if r.Pages? {
        ghost var m1 := Snap();
        GivenParts(m, m1, KernelPages, r.page, n);
        MfreePage(KernelPages, r.page, n);
        GiveAndTake(m, m1, Snap().(kv := m1.kv, uv := m1.uv), KernelPages, r.page - KERNEL_HEAP, n);
        SameTables(m1, Snap(), n, r.page);
        PresentAnyway(Snap().(kv := m1.kv, uv := m1.uv), Snap());
      }
    }
  }

  /** What the loader has mapped before memory management starts: nothing in the heaps, and page tables for
      the kernel only, in frames below the pools. */
  ghost predicate LoaderTables(ptes: map<nat, Pte>, pdes: map<nat, nat>) {
    && (forall p :: p in ptes && ptes[p].present ==>
          && !(KERNEL_HEAP <= p < KERNEL_END) && !(USER_START <= p < USER_START + USER_PAGES)
          && p / 1024 in pdes)
    && (forall d :: 768 <= d < 1023 ==> d in pdes)
    && (forall d :: d in pdes ==> pdes[d] < 0x200)
  }

  /** `mem_pool_init`, with the address bit map of a process. The counts of free pages are 16 bits wide. */
  method MemPoolInit(allMem: nat, userVaddr: Bitmap, ptes: map<nat, Pte>, pdes: map<nat, nat>)
    returns (m: Memory, poolSize: nat)
    requires 0x20_0000 <= allMem < 0x1_0000_0000
    requires userVaddr.Valid() && |userVaddr.contents| == USER_PAGES && userVaddr.contents[USER_PAGES - 1]
    requires LoaderTables(ptes, pdes)
    ensures fresh(m) && fresh(m.Objects() - {userVaddr, userVaddr.bits}) && m.userVaddr == userVaddr && m.Valid()
    ensures poolSize == (allMem - 0x20_0000) / 4096 % 0x1_0000 / 2 * 4096
    ensures |m.Snap().kbits| == |m.Snap().kv| == poolSize / 4096 / 8 * 8 && m.ptes == ptes
    ensures Agree(m.Snap()) && StackHeld(m.Snap()) && poolSize < 0x8000_0000
    ensures m.Snap().kf == 0x200 && m.Snap().uf == 0x200 + poolSize / 4096
    ensures |m.Snap().ubits| == ((allMem - 0x20_0000) / 4096 % 0x1_0000 - poolSize / 4096) / 8 * 8
    ensures forall f: nat :: InPool(m.Snap(), f) ==> 0x200 <= f < allMem / 4096
    ensures forall pf, f: nat :: !Used(m.Snap(), pf, f)
    ensures forall p: nat :: !Reserved(m.Snap(), KernelPages, p)
  {
    hide LoaderTables, Agree, Represents, Used, Reserved, InPool;
    var allPages := (allMem - 0x20_0000) / 4096 % 0x1_0000;
    var kernelPages := allPages / 2;
    var userPages := allPages - kernelPages;
    poolSize := kernelPages * 4096;
    var kernelPool := new Bitmap(kernelPages / 8, 0);
    var userPool := new Bitmap(userPages / 8, 0);
    var kernelVaddr := new Bitmap(kernelPages / 8, 0);
    m := new Memory(kernelPool, userPool, kernelVaddr, userVaddr, 0x200, 0x200 + kernelPages, ptes, pdes);
    NewMemAgrees(m.Snap());
    PoolsFit(m.Snap(), kernelPages, userPages, allMem / 4096);
  }

  /** The frames of both pools lie between the first 2 MB and the end of the memory. */
  lemma PoolsFit(m: Mem, kernelPages: nat, userPages: nat, frames: nat)
    requires m.kf == 0x200 && m.uf == 0x200 + kernelPages && 0x200 + kernelPages + userPages <= frames
    requires |m.kbits| == kernelPages / 8 * 8 && |m.ubits| == userPages / 8 * 8
    ensures forall f: nat :: InPool(m, f) ==> 0x200 <= f < frames
  {
  }

  /** Nothing is in use yet. */
  lemma NewMemAgrees(m: Mem)
    requires LoaderTables(m.ptes, m.pdes) && Layout(m) && m.kf == 0x200
    requires (forall i :: 0 <= i < |m.kbits| ==> !m.kbits[i]) && (forall i :: 0 <= i < |m.ubits| ==> !m.ubits[i])
    requires forall i :: 0 <= i < |m.kv| ==> !m.kv[i]
    ensures Agree(m)
    ensures forall pf, f: nat :: !Used(m, pf, f)
    ensures forall p: nat :: !Reserved(m, KernelPages, p)
  {
  }

  /** `n` pages from `page` on were allocated: at the lowest free run of addresses. */
  ghost predicate Given(m: Mem, m': Mem, pf: Pf, page: nat, n: nat) {
    && Base(pf) <= page && FreeRun(Vaddr(m, pf), page - Base(pf), n)
    && (forall s: nat :: s < page - Base(pf) ==> !FreeRun(Vaddr(m, pf), s, n))
    && Gave(WithVaddr(m, pf, Fill(Vaddr(m, pf), page - Base(pf), n, true)), m', pf, page - Base(pf), n)
  }

  /** The frames ran out after `i` of `n` pages, which stay mapped, like all `n` addresses reserved. */
  ghost predicate Lost(m: Mem, m': Mem, pf: Pf, n: nat, s: nat, i: nat) {
    && FreeRun(Vaddr(m, pf), s, n) && i < n
    && Gave(WithVaddr(m, pf, Fill(Vaddr(m, pf), s, n, true)), m', pf, s, i)
  }

  /** They were released. */
  ghost predicate TakenBack(m: Mem, m': Mem, pf: Pf, page: nat, n: nat) {
    && Base(pf) <= page && page - Base(pf) + n <= |Vaddr(m, pf)|
    && Took(m, m'.(kv := m.kv, uv := m.uv), pf, page - Base(pf), n)
    && m' == WithVaddr(m'.(kv := m.kv, uv := m.uv), pf, Fill(Vaddr(m, pf), page - Base(pf), n, false))
  }

  lemma AfterVaddrGet(m: Mem, m0: Mem, pf: Pf, s: nat, n: nat)
    requires Agree(m) && FreeRun(Vaddr(m, pf), s, n) && m0 == WithVaddr(m, pf, Fill(Vaddr(m, pf), s, n, true))
    ensures Agree(m0) && Gave(m0, m0, pf, s, 0) && Pool(m0, pf) == Pool(m, pf)
    ensures forall p: nat :: Base(pf) + s <= p < Base(pf) + s + n ==> Reserved(m0, pf, p) && !Present(m0, p)
  {
    FreeIsAbsent(m, pf, s, n);
    VaddrKeeps(m, pf, s, n, true);
    VaddrFacts(m, pf, s, n, true);
    GaveNothing(m0, pf, s);
  }

  lemma FrameOfFirst(m: Mem, pf: Pf, page: nat)
    requires Agree(m) && InSpace(m, pf, page) && Present(m, page)
    ensures page in m.ptes && 0x102 <= m.ptes[page].frame && (m.ptes[page].frame >= m.uf <==> pf.UserPages?)
  {
    hide FramesDistinct, TablesOK;
    assert Used(m, pf, FrameOf(m, page));
  }

  lemma TookParts(m: Mem, m1: Mem, pf: Pf, s: nat, n: nat)
    requires Took(m, m1, pf, s, n)
    ensures m1.kv == m.kv && m1.uv == m.uv && Absent(m1, pf, s, n)
    ensures forall p: nat :: Base(pf) + s + n <= p ==> Present(m1, p) == Present(m, p)
    ensures forall p: nat :: InSpace(m1, pf, p) == InSpace(m, pf, p)
  {
  }

  lemma GivenParts(m: Mem, m': Mem, pf: Pf, page: nat, n: nat)
    requires Given(m, m', pf, page, n) && Agree(m)
    ensures Base(pf) <= page && FreeRun(Vaddr(m, pf), page - Base(pf), n) && page - Base(pf) + n <= |Vaddr(m, pf)|
    ensures page + n <= Base(pf) + |Vaddr(m', pf)| && Absent(m, pf, page - Base(pf), n)
    ensures forall q: nat :: page <= q < page + n ==> Present(m', q)
    ensures Gave(WithVaddr(m, pf, Fill(Vaddr(m, pf), page - Base(pf), n, true)), m', pf, page - Base(pf), n)
    ensures pf.KernelPages? ==> m'.pdes == m.pdes
  {
    FreeIsAbsent(m, pf, page - Base(pf), n);
  }

  lemma SameTables(m: Mem, m': Mem, n: nat, page: nat)
    requires TakenBack(m, m', KernelPages, page, n)
    ensures m'.pdes == m.pdes
    ensures m' == WithVaddr(m'.(kv := m.kv, uv := m.uv), KernelPages, Fill(m.kv, page - KERNEL_HEAP, n, false))
  {
  }

  lemma PresentAnyway(m: Mem, m': Mem)
    requires m.ptes == m'.ptes
    ensures forall q: nat :: Present(m', q) == Present(m, q)
  {
  }

  lemma SamePresent(m: Mem, m1: Mem, p: nat)
    requires m1.ptes == m.ptes
    ensures Present(m1, p) == Present(m, p)
  {
  }

  /** The kernel heap needs no new page tables. */
  lemma NoTableForUser(m: Mem, pf: Pf, p: nat)
    requires TablesOK(m) && Reserved(m, pf, p) && p / 1024 !in m.pdes
    ensures pf.UserPages?
  {
  }

  /** A frame was taken and entered, perhaps into a new page table. */
  lemma MappedNext(m0: Mem, m: Mem, m': Mem, pf: Pf, s: nat, i: nat, f: nat, t: nat)
    requires Agree(m) && Gave(m0, m, pf, s, i) && Reserved(m, pf, Base(pf) + s + i) && !Present(m, Base(pf) + s + i)
    requires First(m, pf) <= f < First(m, pf) + |Pool(m, pf)| && !Pool(m, pf)[f - First(m, pf)]
    requires var p, m1 := Base(pf) + s + i, WithPool(m, pf, Pool(m, pf)[f - First(m, pf) := true]);
             if p / 1024 in m.pdes then m' == m1.(ptes := m.ptes[p := Pte(f, true)])
             else m.kf <= t < m.kf + |m1.kbits| && !m1.kbits[t - m.kf] && |m1.kbits| == |m.kbits|
                  && m' == WithTable(m1, p / 1024, t).(ptes := WithTable(m1, p / 1024, t).ptes[p := Pte(f, true)])
    ensures Agree(m') && Gave(m0, m', pf, s, i + 1)
  {
    hide Gave, PagesOK, FramesDistinct, Layout, Mapped, Present, Used, Reserved, FreeCount;
    var p := Base(pf) + s + i;
    if p / 1024 in m.pdes {
      EnteredIsMapped(m, m', pf, p, f);
      MappedHere(m0, m, pf, s, i, f);
    } else {
      NoTableForUser(m, pf, p);
      var m2 := WithTable(m, p / 1024, t);
      TabledIsMapped(m, m', p, f, t);
      TableKeeps(m, p / 1024, t);
      TableFacts(m, p / 1024, t);
      hide WithTable, TablesOK, Agree;
      GaveTable(m0, m, s, i, p / 1024, t);
      NowInTable(m, p / 1024, t);
      MappedHere(m0, m2, pf, s, i, f);
    }
  }

  lemma NowInTable(m: Mem, d: nat, t: nat)
    requires m.kf <= t < m.kf + |m.kbits|
    ensures d in WithTable(m, d, t).pdes && WithTable(m, d, t).ubits == m.ubits && WithTable(m, d, t).uf == m.uf
  {
  }

  lemma EnteredIsMapped(m: Mem, m': Mem, pf: Pf, p: nat, f: nat)
    requires First(m, pf) <= f < First(m, pf) + |Pool(m, pf)|
    requires m' == WithPool(m, pf, Pool(m, pf)[f - First(m, pf) := true]).(ptes := m.ptes[p := Pte(f, true)])
    ensures m' == Mapped(m, pf, p, f)
  {
  }

  lemma TabledIsMapped(m: Mem, m': Mem, p: nat, f: nat, t: nat)
    requires m.uf <= f < m.uf + |m.ubits| && m.kf <= t < m.kf + |m.kbits|
    requires var m1 := m.(ubits := m.ubits[f - m.uf := true]);
             m' == WithTable(m1, p / 1024, t).(ptes := WithTable(m1, p / 1024, t).ptes[p := Pte(f, true)])
    ensures m' == Mapped(WithTable(m, p / 1024, t), UserPages, p, f)
  {
  }

  lemma MappedHere(m0: Mem, m: Mem, pf: Pf, s: nat, i: nat, f: nat)
    requires Agree(m) && Gave(m0, m, pf, s, i) && Reserved(m, pf, Base(pf) + s + i) && !Present(m, Base(pf) + s + i)
    requires First(m, pf) <= f < First(m, pf) + |Pool(m, pf)| && !Pool(m, pf)[f - First(m, pf)]
    requires (Base(pf) + s + i) / 1024 in m.pdes
    ensures Agree(Mapped(m, pf, Base(pf) + s + i, f)) && Gave(m0, Mapped(m, pf, Base(pf) + s + i, f), pf, s, i + 1)
  {
    hide Agree, Gave, Mapped, Present, Used, Reserved, FreeCount;
    MapKeeps(m, pf, Base(pf) + s + i, f);
    FirstOfGave(m0, m, pf, s, i);
    GaveOneMore(m0, m, pf, s, i, f);
  }

  lemma FirstOfGave(m0: Mem, m: Mem, pf: Pf, s: nat, n: nat)
    requires Gave(m0, m, pf, s, n)
    ensures First(m, pf) == First(m0, pf) && |Pool(m, pf)| == |Pool(m0, pf)|
    ensures forall p: nat :: Base(pf) + s + n <= p ==> Present(m, p) == Present(m0, p)
    ensures forall pf', p: nat :: Reserved(m, pf', p) == Reserved(m0, pf', p)
    ensures FreeCount(Pool(m, pf)) + n == FreeCount(Pool(m0, pf))
  {
  }
}
