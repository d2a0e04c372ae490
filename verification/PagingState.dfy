/** Pages, frames and page tables of `src/kernel/memory.c`, by number: a page or frame number is its
    address divided by 4096. */
module PagingState {
  import opened Bitmaps

  const KERNEL_HEAP: nat := 0xc0100
  const USER_START: nat := 0x8048
  const USER_PAGES: nat := 0xb7fb8
  const KERNEL_END: nat := 0xffc00

  datatype Pf = KernelPages | UserPages

  /** A page table entry: the frame, and the present bit. */
  datatype Pte = Pte(frame: nat, present: bool)

  /** Both frame pools (bit maps and first frames), the kernel's and the running process's address bit
      maps, the entries of the page tables that exist, and the frames these tables are in. */
  datatype Mem = Mem(kbits: seq<bool>, ubits: seq<bool>, kv: seq<bool>, uv: seq<bool>,
                     ptes: map<nat, Pte>, pdes: map<nat, nat>, kf: nat, uf: nat)

  // ---- The addresses of page table entries ----

  /** `pde_ptr`. */
  function PdePtr(v: bv32): bv32 {
    0xfffff000 + ((v & 0xffc00000) >> 22) * 4
  }

  /** `pte_ptr`. */
  function PtePtr(v: bv32): bv32 {
    0xffc00000 + ((v & 0xffc00000) >> 10) + ((v & 0x003ff000) >> 12) * 4
  }

  /** Entry `n` of an array of 4-byte entries at the start of the last 4 MB. */
  function Entry(n: bv32): bv32 {
    0xffc00000 + (n << 2)
  }

  function PageNumber(v: bv32): (n: bv32)
    ensures n < 0x100000
  {
    v >> 12
  }

  /** The page tables are mapped as one array, indexed by page number. */
  lemma PtePtrIsArray(v: bv32)
    ensures PtePtr(v) == Entry(PageNumber(v))
  {
  }

  /** The page directory is the page table of the page tables. */
  lemma PdeIsPteOfPte(v: bv32)
    ensures PdePtr(v) == PtePtr(PtePtr(v))
  {
  }

  lemma EntryInjective(x: bv32, y: bv32)
    requires x < 0x100000 && y < 0x100000 && Entry(x) == Entry(y)
    ensures x == y
  {
  }

  /** Two addresses share an entry iff they are in one page. */
  lemma PtePtrByPage(u: bv32, v: bv32)
    ensures PtePtr(u) == PtePtr(v) <==> PageNumber(u) == PageNumber(v)
  {
    hide PtePtr, Entry, PageNumber;
    PtePtrIsArray(u);
    PtePtrIsArray(v);
    if PtePtr(u) == PtePtr(v) {
      EntryInjective(PageNumber(u), PageNumber(v));
    }
  }

  /** The page that holds the entry of an address (what `page_table_add` clears) holds exactly the
      entries of the addresses with the same directory entry. */
  lemma TableOfPde(u: bv32, v: bv32)
    ensures (PtePtr(u) & 0xfffff000) == (PtePtr(v) & 0xfffff000) <==> PdePtr(u) == PdePtr(v)
  {
  }

  // ---- Spaces and pools ----

  function Base(pf: Pf): nat {
    if pf.KernelPages? then KERNEL_HEAP else USER_START
  }

  function Vaddr(m: Mem, pf: Pf): seq<bool> {
    if pf.KernelPages? then m.kv else m.uv
  }

  function Pool(m: Mem, pf: Pf): seq<bool> {
    if pf.KernelPages? then m.kbits else m.ubits
  }

  function First(m: Mem, pf: Pf): nat {
    if pf.KernelPages? then m.kf else m.uf
  }

  predicate Present(m: Mem, p: nat) {
    p in m.ptes && m.ptes[p].present
  }

  /** The frame in the entry of page `p`. */
  function FrameOf(m: Mem, p: nat): nat {
    if p in m.ptes then m.ptes[p].frame else 0
  }

  predicate InSpace(m: Mem, pf: Pf, p: nat) {
    Base(pf) <= p < Base(pf) + |Vaddr(m, pf)|
  }

  /** Page `p` belongs to the space and its address bit is set. */
  predicate Reserved(m: Mem, pf: Pf, p: nat) {
    InSpace(m, pf, p) && Vaddr(m, pf)[p - Base(pf)]
  }

  predicate InHeap(m: Mem, p: nat) {
    InSpace(m, KernelPages, p) || InSpace(m, UserPages, p)
  }

  /** Frame `f` belongs to the pool and its bit is set. */
  predicate Used(m: Mem, pf: Pf, f: nat) {
    First(m, pf) <= f < First(m, pf) + |Pool(m, pf)| && Pool(m, pf)[f - First(m, pf)]
  }

  predicate InPool(m: Mem, f: nat) {
    (m.kf <= f < m.kf + |m.kbits|) || (m.uf <= f < m.uf + |m.ubits|)
  }

  // ---- The agreement ----

  ghost predicate Layout(m: Mem) {
    && 0x102 <= m.kf && m.kf + |m.kbits| <= m.uf
    && KERNEL_HEAP + |m.kv| <= KERNEL_END
    && |m.uv| == USER_PAGES
  }

  /** A mapped page of the heap has its address bit set and a frame of its own pool, whose bit is set. */
  ghost predicate PagesOK(m: Mem) {
    forall pf, p: nat :: InSpace(m, pf, p) && Present(m, p) ==>
      Reserved(m, pf, p) && Used(m, pf, FrameOf(m, p))
  }

  /** No frame is mapped twice. */
  ghost predicate FramesDistinct(m: Mem) {
    forall p: nat, q: nat :: InHeap(m, p) && InHeap(m, q) && Present(m, p) && Present(m, q) && p != q ==>
      FrameOf(m, p) != FrameOf(m, q)
  }

  /** Entries are in page tables that exist, those of the kernel heap always exist, and a table that was
      allocated has a frame of its own. */
  ghost predicate TablesOK(m: Mem) {
    && (forall p: nat :: Present(m, p) ==> p / 1024 in m.pdes)
    && (forall p: nat :: InSpace(m, KernelPages, p) ==> p / 1024 in m.pdes)
    && (forall d :: d in m.pdes && InPool(m, m.pdes[d]) ==> Used(m, KernelPages, m.pdes[d]))
    && (forall d, e :: d in m.pdes && e in m.pdes && d != e && InPool(m, m.pdes[d]) ==> m.pdes[d] != m.pdes[e])
    && (forall d, p: nat :: d in m.pdes && InHeap(m, p) && Present(m, p) ==> m.pdes[d] != FrameOf(m, p))
  }

  ghost predicate Agree(m: Mem) {
    Layout(m) && PagesOK(m) && FramesDistinct(m) && TablesOK(m)
  }

  /** The stack page of the process is the last page of its space, and never free. */
  ghost predicate StackHeld(m: Mem) {
    |m.uv| == USER_PAGES && m.uv[USER_PAGES - 1]
  }

  // ---- Ranges of bits ----

  function Fill(bits: seq<bool>, start: nat, cnt: nat, value: bool): (r: seq<bool>)
    requires start + cnt <= |bits|
    ensures |r| == |bits|
    ensures forall i :: 0 <= i < |bits| ==> r[i] == if start <= i < start + cnt then value else bits[i]
  {
    if cnt == 0 then bits else Fill(bits, start, cnt - 1, value)[start + cnt - 1 := value]
  }

  /** Exactly the bits of the frames in `got`, which were clear, have been set. */
  ghost predicate Claimed(bits: seq<bool>, bits': seq<bool>, first: nat, got: set<nat>) {
    && |bits'| == |bits|
    && (forall f :: f in got ==> first <= f < first + |bits| && !bits[f - first])
    && (forall i :: 0 <= i < |bits| ==> (bits'[i] <==> bits[i] || first + i in got))
  }

  lemma ClaimOne(bits: seq<bool>, bits': seq<bool>, first: nat, got: set<nat>, f: nat)
    requires Claimed(bits, bits', first, got) && first <= f < first + |bits| && !bits'[f - first]
    ensures f !in got && |got + {f}| == |got| + 1
    ensures Claimed(bits, bits'[f - first := true], first, got + {f})
    ensures FreeCount(bits'[f - first := true]) == FreeCount(bits') - 1
  {
    assert first + (f - first) == f;
  }

  // ---- Steps that keep the agreement ----

  function WithPool(m: Mem, pf: Pf, bits: seq<bool>): Mem {
    if pf.KernelPages? then m.(kbits := bits) else m.(ubits := bits)
  }

  function WithVaddr(m: Mem, pf: Pf, bits: seq<bool>): Mem {
    if pf.KernelPages? then m.(kv := bits) else m.(uv := bits)
  }

  /** Page `p` is mapped to the frame `f`, which was free. */
  function Mapped(m: Mem, pf: Pf, p: nat, f: nat): Mem
    requires First(m, pf) <= f < First(m, pf) + |Pool(m, pf)|
  {
    WithPool(m, pf, Pool(m, pf)[f - First(m, pf) := true]).(ptes := m.ptes[p := Pte(f, true)])
  }

  /** The shape of the memory: everything but the contents of the bit maps and tables. */
  ghost predicate SameShape(m: Mem, m': Mem) {
    && m'.kf == m.kf && m'.uf == m.uf && |m'.kbits| == |m.kbits| && |m'.ubits| == |m.ubits|
    && |m'.kv| == |m.kv| && |m'.uv| == |m.uv|
  }

  lemma ShapeFacts(m: Mem, m': Mem)
    requires SameShape(m, m')
    ensures Layout(m') == Layout(m)
    ensures forall pf, p: nat :: InSpace(m', pf, p) == InSpace(m, pf, p)
    ensures forall p: nat :: InHeap(m', p) == InHeap(m, p)
    ensures forall f: nat :: InPool(m', f) == InPool(m, f)
  {
  }

  /** A frame is used in at most one pool. */
  lemma OnePool(m: Mem, pf: Pf, f: nat)
    requires Layout(m) && First(m, pf) <= f < First(m, pf) + |Pool(m, pf)| && !Pool(m, pf)[f - First(m, pf)]
    ensures InPool(m, f) && forall pf' :: !Used(m, pf', f)
  {
  }

  /** Mapped pages use their frames. */
  lemma PageFrame(m: Mem, p: nat)
    requires PagesOK(m) && InHeap(m, p) && Present(m, p)
    ensures exists pf :: Used(m, pf, FrameOf(m, p))
  {
    if InSpace(m, KernelPages, p) {
      assert Used(m, KernelPages, FrameOf(m, p));
    } else {
      assert InSpace(m, UserPages, p);
      assert Used(m, UserPages, FrameOf(m, p));
    }
  }

  lemma ReservedInSpace(m: Mem, pf: Pf, p: nat)
    requires Reserved(m, pf, p)
    ensures InSpace(m, pf, p)
  {
  }

  lemma MapFacts(m: Mem, pf: Pf, p: nat, f: nat)
    requires First(m, pf) <= f < First(m, pf) + |Pool(m, pf)|
    ensures var m' := Mapped(m, pf, p, f);
            && SameShape(m, m') && m'.pdes == m.pdes && m'.kv == m.kv && m'.uv == m.uv
            && (forall pf', q: nat :: Reserved(m', pf', q) == Reserved(m, pf', q))
            && (forall pf', g: nat :: Used(m', pf', g) == (Used(m, pf', g) || (pf' == pf && g == f)))
            && (forall q: nat :: Present(m', q) == (q == p || Present(m, q)))
            && (forall q: nat :: q != p ==> FrameOf(m', q) == FrameOf(m, q))
            && FrameOf(m', p) == f
  {
  }

  lemma MapKeeps(m: Mem, pf: Pf, p: nat, f: nat)
    requires Agree(m) && Reserved(m, pf, p) && !Present(m, p) && p / 1024 in m.pdes
    requires First(m, pf) <= f < First(m, pf) + |Pool(m, pf)| && !Pool(m, pf)[f - First(m, pf)]
    ensures Agree(Mapped(m, pf, p, f))
  {
    hide Used, Present, Mapped, InPool, InHeap, FrameOf, Reserved, InSpace;
    ReservedInSpace(m, pf, p);
    var m' := Mapped(m, pf, p, f);
    MapFacts(m, pf, p, f);
    ShapeFacts(m, m');
    OnePool(m, pf, f);
    OnlySpace(m, pf, p);
    forall q: nat | InHeap(m, q) && Present(m, q)
      ensures FrameOf(m, q) != f
    {
      PageFrame(m, q);
    }
    assert PagesOK(m');
    assert FramesDistinct(m');
    assert TablesOK(m');
  }

  /** The two spaces are apart. */
  lemma OnlySpace(m: Mem, pf: Pf, p: nat)
    requires Layout(m) && InSpace(m, pf, p)
    ensures InHeap(m, p) && forall pf' :: InSpace(m, pf', p) ==> pf' == pf
  {
  }

  /** The page table number `d` appears, in the frame `t` of the kernel pool, and is cleared. */
  function WithTable(m: Mem, d: nat, t: nat): Mem
    requires m.kf <= t < m.kf + |m.kbits|
  {
    m.(kbits := m.kbits[t - m.kf := true], pdes := m.pdes[d := t],
       ptes := map p | p in m.ptes && p / 1024 != d :: m.ptes[p])
  }

  lemma TableFacts(m: Mem, d: nat, t: nat)
    requires TablesOK(m) && d !in m.pdes && m.kf <= t < m.kf + |m.kbits|
    ensures var m' := WithTable(m, d, t);
            && SameShape(m, m') && m'.pdes == m.pdes[d := t] && m'.kv == m.kv && m'.uv == m.uv && m'.ubits == m.ubits
            && (forall pf', q: nat :: Reserved(m', pf', q) == Reserved(m, pf', q))
            && (forall pf', g: nat :: Used(m', pf', g) == (Used(m, pf', g) || (pf' == KernelPages && g == t)))
            && (forall q: nat :: Present(m', q) == Present(m, q))
            && (forall q: nat :: Present(m, q) ==> FrameOf(m', q) == FrameOf(m, q))
  {
    forall p: nat
      ensures Present(m, p) ==> p / 1024 != d
    {
      assert Present(m, p) ==> p / 1024 in m.pdes;
    }
  }

  lemma TableKeeps(m: Mem, d: nat, t: nat)
    requires Agree(m) && d !in m.pdes && m.kf <= t < m.kf + |m.kbits| && !m.kbits[t - m.kf]
    ensures Agree(WithTable(m, d, t))
  {
    hide Used, Present, WithTable, InPool, InHeap, InSpace, FrameOf, Reserved;
    var m' := WithTable(m, d, t);
    TableFacts(m, d, t);
    ShapeFacts(m, m');
    OnePool(m, KernelPages, t);
    forall q: nat | InHeap(m, q) && Present(m, q)
      ensures FrameOf(m, q) != t
    {
      PageFrame(m, q);
    }
    assert PagesOK(m');
    assert FramesDistinct(m');
    assert TablesOK(m');
  }

  /** Page `p` is unmapped and its frame is free; the entry keeps the frame number. */
  function Unmapped(m: Mem, pf: Pf, p: nat): Mem
    requires Present(m, p) && Used(m, pf, FrameOf(m, p))
  {
    var f := FrameOf(m, p);
    WithPool(m, pf, Pool(m, pf)[f - First(m, pf) := false]).(ptes := m.ptes[p := Pte(f, false)])
  }

  lemma UnmapFacts(m: Mem, pf: Pf, p: nat)
    requires Present(m, p) && Used(m, pf, FrameOf(m, p))
    ensures var m' := Unmapped(m, pf, p);
            && SameShape(m, m') && m'.pdes == m.pdes && m'.kv == m.kv && m'.uv == m.uv
            && (forall pf', q: nat :: Reserved(m', pf', q) == Reserved(m, pf', q))
            && (forall pf', g: nat :: Used(m', pf', g) == (Used(m, pf', g) && !(pf' == pf && g == FrameOf(m, p))))
            && (forall q: nat :: Present(m', q) == (q != p && Present(m, q)))
            && (forall q: nat :: q != p ==> FrameOf(m', q) == FrameOf(m, q))
  {
  }

  lemma UnmapKeeps(m: Mem, pf: Pf, p: nat)
    requires Agree(m) && InSpace(m, pf, p) && Present(m, p)
    ensures Used(m, pf, FrameOf(m, p)) && Agree(Unmapped(m, pf, p))
  {
    hide Used, Present, Unmapped, InPool, InHeap, FrameOf, Reserved, InSpace;
    OnlySpace(m, pf, p);
    assert Used(m, pf, FrameOf(m, p));
    var m' := Unmapped(m, pf, p);
    UnmapFacts(m, pf, p);
    ShapeFacts(m, m');
    HeapOfSpace(m);
    assert PagesOK(m');
    assert FramesDistinct(m');
    assert TablesOK(m');
  }

  lemma HeapOfSpace(m: Mem)
    ensures forall pf, p: nat :: InSpace(m, pf, p) ==> InHeap(m, p)
  {
  }

  /** The pages of `n` addresses from number `s` of a space on are not mapped. */
  ghost predicate Absent(m: Mem, pf: Pf, s: nat, n: nat) {
    forall p: nat :: Base(pf) + s <= p < Base(pf) + s + n ==> !Present(m, p)
  }

  /** Reserving addresses keeps the agreement; so does giving back addresses that are not mapped. */
  lemma VaddrKeeps(m: Mem, pf: Pf, s: nat, n: nat, value: bool)
    requires Agree(m) && s + n <= |Vaddr(m, pf)| && (!value ==> Absent(m, pf, s, n))
    ensures Agree(WithVaddr(m, pf, Fill(Vaddr(m, pf), s, n, value)))
  {
    hide Used, Present, InPool, InHeap, FrameOf, Reserved, InSpace;
    var m' := WithVaddr(m, pf, Fill(Vaddr(m, pf), s, n, value));
    VaddrFacts(m, pf, s, n, value);
    ShapeFacts(m, m');
    forall pf', p: nat | InSpace(m', pf', p) && Present(m', p)
      ensures Reserved(m', pf', p) && Used(m', pf', FrameOf(m', p))
    {
      assert Reserved(m, pf', p);
    }
    assert TablesOK(m');
  }

  lemma VaddrFacts(m: Mem, pf: Pf, s: nat, n: nat, value: bool)
    requires s + n <= |Vaddr(m, pf)|
    ensures var m' := WithVaddr(m, pf, Fill(Vaddr(m, pf), s, n, value));
            && SameShape(m, m') && m'.ptes == m.ptes && m'.pdes == m.pdes && m'.kbits == m.kbits && m'.ubits == m.ubits
            && (forall pf', g: nat :: Used(m', pf', g) == Used(m, pf', g))
            && (forall q: nat :: FrameOf(m', q) == FrameOf(m, q))
            && (forall pf', q: nat :: Reserved(m', pf', q) ==
                  if pf' == pf && Base(pf) + s <= q < Base(pf) + s + n then value else Reserved(m, pf', q))
            && (forall q: nat :: Present(m', q) == Present(m, q))
  {
  }

  /** Free addresses are not mapped. */
  lemma FreeIsAbsent(m: Mem, pf: Pf, s: nat, n: nat)
    requires Agree(m) && FreeRun(Vaddr(m, pf), s, n)
    ensures Absent(m, pf, s, n)
  {
    forall p: nat | Base(pf) + s <= p < Base(pf) + s + n
      ensures !Present(m, p)
    {
      assert InSpace(m, pf, p);
    }
  }
}
