/** `search_file` of `src/fs/fs.c` on a consistent volume. */
module FsPaths {
  import opened Options
  import opened Bytes
  import opened Partitions
  import opened Images
  import opened BlockMap
  import opened InodeTable
  import opened DirMap
  import opened DirOps
  import opened DirScan
  import opened FsState
  import opened Paths

  /** The characters of a string as the bytes of a C string, and back. */
  function Raw(s: string): (b: seq<byte>)
    ensures |b| == |s|
  {
    seq<byte>(|s|, i requires 0 <= i < |s| => (s[i] as int) % 256)
  }

  function AsString(b: seq<byte>): (s: string)
    ensures |s| == |b| && forall i :: 0 <= i < |b| ==> s[i] as int == b[i]
  {
    seq<char>(|b|, i requires 0 <= i < |b| => b[i] as char)
  }

  lemma RawOfString(b: seq<byte>)
    ensures Raw(AsString(b)) == b
  {
  }

  // ---- Looking up ----

  /** The entry that `search_dir_entry` finds in directory `d`. */
  ghost function Lookup(g: Image, d: u32, name: string): Option<DirEntry>
    requires Geometry(g) && d < MAX_FILES_PER_PART
  {
    if p: nat :| FirstHit(g, d, name, p) then Some(FlatI(g, d)[p]) else None
  }

  ghost predicate FirstHit(g: Image, d: u32, name: string, p: nat)
    requires Geometry(g) && d < MAX_FILES_PER_PART
  {
    && Hit(I(g, d).sectors, g.disk, p, Raw(name))
    && forall q: nat :: q < p ==> !Hit(I(g, d).sectors, g.disk, q, Raw(name))
  }

  lemma LookupIs(g: Image, d: u32, name: string, p: nat)
    requires Geometry(g) && d < MAX_FILES_PER_PART && FirstHit(g, d, name, p)
    ensures p < FLAT && Lookup(g, d, name) == Some(FlatI(g, d)[p])
  {
    forall q: nat | FirstHit(g, d, name, q)
      ensures q == p
    {
      OneFirst(g, d, name, p, q);
    }
  }

  lemma OneFirst(g: Image, d: u32, name: string, p: nat, q: nat)
    requires Geometry(g) && d < MAX_FILES_PER_PART && FirstHit(g, d, name, p) && FirstHit(g, d, name, q)
    ensures p == q
  {
  }

  /** Where the names lead from directory `d`. A regular file ends the walk, whatever follows it. */
  ghost function Walk(g: Image, d: u32, names: seq<string>): Option<u32>
    requires Geometry(g)
    decreases |names|
  {
    if names == [] then Some(d)
    else if d >= MAX_FILES_PER_PART then None
    else
      match Lookup(g, d, names[0])
      case None => None
      case Some(e) => if e.ftype == FT_DIRECTORY then Walk(g, e.ino, names[1..]) else Some(e.ino)
  }

  /** The block list of directory `d`, from its open inode or its record. */
  method DirSectors(part: Partition, d: u32, ghost kinds: map<u32, Kind>) returns (sec: seq<u32>)
    requires part.Valid() && d in kinds && kinds[d].DirKind?
    requires Consistent(Snap(part), kinds)
    ensures Geometry(Snap(part)) && d < MAX_FILES_PER_PART && sec == I(Snap(part), d).sectors
    ensures DirBlocks(sec, part.disk, part.Bits(), part.dataStartLba) && sec[0] != 0
  {
    hide NamesOK, StoreOK, DirBlocks, Record;
    DirHasBlocks(Snap(part), kinds, d);
    if d in part.open {
      sec := part.open[d].sectors;
    } else {
      var bytes := ReadRecord(part, d);
      sec := Decode(bytes).sectors;
    }
  }

  lemma DirHasBlocks(g: Image, kinds: map<u32, Kind>, d: u32)
    requires d in kinds && kinds[d].DirKind?
    requires Consistent(g, kinds)
    ensures Geometry(g) && d < MAX_FILES_PER_PART && DirBlocks(I(g, d).sectors, g.disk, g.bits, g.ds)
    ensures I(g, d).sectors[0] != 0 && DirShape(I(g, d).sectors, I(g, d).size, g.disk)
  {
    assert InodeOK(g, d, kinds[d]);
    hide NamesOK, StoreOK, CacheOK, Owns, GoodSlots;
  }

  lemma NothingFound(g: Image, d: u32, name: string)
    requires Geometry(g) && d < MAX_FILES_PER_PART
    requires forall p: nat :: !Hit(I(g, d).sectors, g.disk, p, Raw(name))
    ensures Lookup(g, d, name) == None
  {
    hide Hit;
  }

  /** `search_dir_entry` by a name. */
  method Find(part: Partition, d: u32, name: string, ghost kinds: map<u32, Kind>) returns (e: Option<DirEntry>)
    requires part.Valid() && d in kinds && kinds[d].DirKind?
    requires Consistent(Snap(part), kinds)
    ensures Geometry(Snap(part)) && d < MAX_FILES_PER_PART && e == Lookup(Snap(part), d, name)
  {
    hide Consistent, Hit, DirBlocks, I, Raw;
    var sec := DirSectors(part, d, kinds);
    ghost var at;
    e, at := SearchDirEntry(part, sec, Raw(name));
    if e == None {
      NothingFound(Snap(part), d, name);
    } else {
      LookupIs(Snap(part), d, name, at);
    }
  }

  /** What is found is an existing inode of the type that the entry says. */
  lemma FoundExists(g: Image, kinds: map<u32, Kind>, d: u32, name: string)
    requires Geometry(g) && d in kinds && kinds[d].DirKind? && d < MAX_FILES_PER_PART && name != []
    requires Lookup(g, d, name).Some? && IsCString(name)
    requires Consistent(g, kinds)
    ensures var e := Lookup(g, d, name).value;
            && Live(e) && e.ino in kinds
            && (e.ftype == FT_DIRECTORY <==> kinds[e.ino].DirKind?)
  {
    hide Consistent, FlatI, I, FirstHit, Live;
    var p: nat :| FirstHit(g, d, name, p);
    LookupIs(g, d, name, p);
    HitIsLive(g, kinds, d, name, p);
    LiveExists(g, kinds, d, p);
  }

  lemma LiveExists(g: Image, kinds: map<u32, Kind>, d: u32, p: nat)
    requires Geometry(g) && d in kinds && kinds[d].DirKind? && d < MAX_FILES_PER_PART && p < FLAT
             && Live(FlatI(g, d)[p])
    requires Consistent(g, kinds)
    ensures var e := FlatI(g, d)[p]; e.ino in kinds && (e.ftype == FT_DIRECTORY <==> kinds[e.ino].DirKind?)
  {
    hide Consistent, FlatI, I;
    if p >= 2 {
      EntryExists(g, kinds, d, p);
    } else {
      DotsAre(g, kinds, d);
      ParentExists(g, kinds, d);
    }
  }

  lemma EntryExists(g: Image, kinds: map<u32, Kind>, d: u32, p: nat)
    requires Geometry(g) && d in kinds && kinds[d].DirKind? && d < MAX_FILES_PER_PART && 2 <= p < FLAT
             && Live(FlatI(g, d)[p])
    requires Consistent(g, kinds)
    ensures var e := FlatI(g, d)[p]; e.ino in kinds && (e.ftype == FT_DIRECTORY <==> kinds[e.ino].DirKind?)
  {
    hide StoreOK, CacheOK, RootOK, NumbersOK, FlatI, I;
    assert ChildOf(g, kinds, d, p, FlatI(g, d)[p].ino);
    assert EntryOK(g, kinds, d, p, FlatI(g, d)[p].ino);
  }

  /** Characters are bytes, none of them 0. */
  predicate IsCString(s: string) {
    forall ch :: ch in s ==> 0 < ch as int < 0x100
  }

  lemma {:induction false} PathCharacters(p: string)
    requires IsCString(p)
    ensures forall c :: c in Components(p) ==> IsCString(c)
    decreases |p|
  {
    SkipCharacters(p);
    var q := SkipSlashes(p);
    if q != [] {
      var n := FirstName(q);
      PartCharacters(q, 0, |n|);
      PartCharacters(q, |n|, |q|);
      assert q[|n|..|q|] == q[|n|..] && q[0..|n|] == n;
      PathCharacters(q[|n|..]);
    }
  }

  lemma PartCharacters(s: string, lo: nat, hi: nat)
    requires lo <= hi <= |s|
    ensures IsCString(s) ==> IsCString(s[lo..hi])
  {
    assert forall ch :: ch in s[lo..hi] ==> ch in s;
  }

  lemma {:induction false} SkipCharacters(p: string)
    ensures forall ch :: ch in SkipSlashes(p) ==> ch in p
  {
    if p != [] && p[0] == '/' {
      SkipCharacters(p[1..]);
    }
  }

  /** A free slot has no name. */
  lemma HitIsLive(g: Image, kinds: map<u32, Kind>, d: u32, name: string, p: nat)
    requires Geometry(g) && d in kinds && kinds[d].DirKind? && d < MAX_FILES_PER_PART && name != []
    requires FirstHit(g, d, name, p)
    requires Consistent(g, kinds)
    ensures p < FLAT && Live(FlatI(g, d)[p])
  {
    hide Consistent, DirShape, Flat, I, Raw, CStr;
    DirHasBlocks(g, kinds, d);
    assert |Raw(name)| > 0;
    NamedIsLive(I(g, d).sectors, I(g, d).size, g.disk, p);
  }

  lemma NamedIsLive(sec: seq<u32>, size: nat, disk: seq<Sector>, p: nat)
    requires |sec| == 13 && DirShape(sec, size, disk) && p < FLAT && CStr(Flat(sec, disk)[p].filename) != []
    ensures Live(Flat(sec, disk)[p])
  {
    hide LiveCount, Slots;
    assert CStr(NO_ENTRY.filename) == [];
  }

  /** The parent of a directory is a directory. */
  lemma ParentExists(g: Image, kinds: map<u32, Kind>, d: u32)
    requires d in kinds && kinds[d].DirKind?
    requires Consistent(g, kinds)
    ensures kinds[d].parent in kinds && kinds[kinds[d].parent].DirKind? && d < 256
    ensures d != 0 ==> kinds[kinds[d].parent].depth + 1 == kinds[d].depth
    ensures d != 0 ==> exists p: nat :: ChildOf(g, kinds, kinds[d].parent, p, d)
  {
    hide StoreOK, CacheOK, RootOK, FlatI, I;
    if d != 0 {
      assert HasEntry(g, kinds, d);
      var d', p: nat :| ChildOf(g, kinds, d', p, d);
      assert EntryOK(g, kinds, d', p, d);
    }
  }

  /** The path leads from the root to inode `r`, or nowhere if that is -1. */
  ghost predicate Leads(g: Image, pathname: string, r: int) {
    && Geometry(g)
    && match Walk(g, 0, Components(pathname))
       case None => r == -1
       case Some(no) => r == no
  }

  /** `search_file`: the inode that the path leads to, or -1. For a path of two or more slashes and nothing
      else it returns a number that was never set; `unset` is what it holds. */
  method SearchFile(part: Partition, pathname: string, unset: u32, ghost kinds: map<u32, Kind>) returns (r: int)
    requires part.Valid() && pathname != [] && pathname[0] == '/' && |pathname| < 512
    requires IsCString(pathname) && FitsBuffer(pathname)
    requires Consistent(Snap(part), kinds)
    ensures Components(pathname) != [] || pathname == "/" ==> Leads(Snap(part), pathname, r)
    ensures Components(pathname) == [] && pathname != "/" ==> r == unset
  {
    OnlyDots();
    hide Consistent, Components, IsCString, Lookup;
    ghost var g := Snap(part);
    if pathname == "/" || pathname == "/." || pathname == "/.." {
      SpecialPaths(g, kinds, pathname);
      return 0;
    }
    assert |pathname| > 1;
    r := FollowNames(part, pathname, unset, kinds);
  }

  /** The special paths but the root have a name. */
  lemma OnlyDots()
    ensures Components("/.") != [] && Components("/..") != []
  {
    assert "/."[1..] == "." && "/.."[1..] == "..";
    assert SkipSlashes("/.") == "." && SkipSlashes("/..") == "..";
  }

  /** Lines 272-297: one name, the first of those that are left. */
  method Descend(part: Partition, d: u32, name: string, ghost kinds: map<u32, Kind>, ghost left: seq<string>)
    returns (e: Option<DirEntry>)
    requires part.Valid() && d in kinds && kinds[d].DirKind? && left != [] && left[0] == name && IsCString(name)
             && name != []
    requires Consistent(Snap(part), kinds)
    ensures Geometry(Snap(part))
    ensures e.None? ==> Walk(Snap(part), d, left) == None
    ensures e.Some? && e.value.ftype == FT_DIRECTORY ==>
              e.value.ino in kinds && kinds[e.value.ino].DirKind?
                  && Walk(Snap(part), d, left) == Walk(Snap(part), e.value.ino, left[1..])
    ensures e.Some? && e.value.ftype != FT_DIRECTORY ==> Walk(Snap(part), d, left) == Some(e.value.ino)
  {
    hide Consistent, IsCString, Lookup, Walk, Live;
    e := Find(part, d, name, kinds);
    if e.Some? {
      FoundExists(Snap(part), kinds, d, name);
    }
    WalkStep(Snap(part), d, left);
  }

  /** Lines 250-306 of `search_file`. */
  method FollowNames(part: Partition, pathname: string, unset: u32, ghost kinds: map<u32, Kind>) returns (r: int)
    requires part.Valid() && IsCString(pathname) && FitsBuffer(pathname)
    requires Consistent(Snap(part), kinds)
    ensures Components(pathname) != [] ==> Leads(Snap(part), pathname, r)
    ensures Components(pathname) == [] ==> r == unset
  {
    hide Consistent, Components, IsCString, Walk, IsName;
    RootIsDir(Snap(part), kinds);
    NamesOfPath(pathname);
    ghost var g, all := Snap(part), Components(pathname);
    var name, subPath := NextName(Some(pathname));
    var parentDir: u32, ino: u32 := 0, unset;
    ghost var left := all;
    while name != []
      invariant if left == all then ino == unset && parentDir == 0 else ino == parentDir
      invariant |left| <= |all|
      invariant parentDir in kinds && kinds[parentDir].DirKind?
      invariant left == if name == [] then [] else [name] + Components(Remaining(subPath))
      invariant Walk(g, 0, all) == Walk(g, parentDir, left)
      invariant forall c :: c in left ==> IsCString(c)
      decreases |left|
    {
      assert left[0] == name && left[1..] == Components(Remaining(subPath));
      var dirE := Descend(part, parentDir, name, kinds, left);
      if dirE == None {
        return -1;
      }
      name, subPath := NextName(subPath);
      left := left[1..];
      ino := dirE.value.ino;
      if dirE.value.ftype == FT_DIRECTORY {
        parentDir := ino;
      } else {
        return ino;
      }
    }
    WalkEnd(g, parentDir);
    r := ino;
  }

  lemma NamesOfPath(p: string)
    requires IsCString(p)
    ensures forall c :: c in Components(p) ==> IsCString(c)
  {
    PathCharacters(p);
  }

  lemma WalkStep(g: Image, d: u32, names: seq<string>)
    requires Geometry(g) && d < MAX_FILES_PER_PART && names != []
    ensures Walk(g, d, names) ==
            match Lookup(g, d, names[0])
            case None => None
            case Some(e) => if e.ftype == FT_DIRECTORY then Walk(g, e.ino, names[1..]) else Some(e.ino)
  {
  }

  lemma WalkEnd(g: Image, d: u32)
    requires Geometry(g)
    ensures Walk(g, d, []) == Some(d)
  {
  }

  lemma InRange(g: Image, kinds: map<u32, Kind>, d: u32)
    requires d in kinds && Consistent(g, kinds)
    ensures d < MAX_FILES_PER_PART && Geometry(g)
  {
    hide StoreOK, CacheOK, RootOK, NamesOK;
  }

  lemma RootIsDir(g: Image, kinds: map<u32, Kind>)
    requires Consistent(g, kinds)
    ensures Geometry(g) && 0 in kinds && kinds[0] == DirKind(0, 0)
  {
    hide StoreOK, CacheOK, RootOK, NamesOK;
  }

  /** The paths that `search_file` does not walk lead to the root. */
  lemma SpecialPaths(g: Image, kinds: map<u32, Kind>, p: string)
    requires p == "/" || p == "/." || p == "/.."
    requires Consistent(g, kinds)
    ensures Geometry(g) && Walk(g, 0, Components(p)) == Some(0)
  {
    hide Consistent, Lookup, Walk;
    RootIsDir(g, kinds);
    WalkEnd(g, 0);
    if p == "/" {
      assert SkipSlashes("/") == SkipSlashes("");
      assert Components(p) == [];
    } else {
      hide Components, SkipSlashes;
      var n := p[1..];
      assert p == "/" + n;
      NameAlone(n);
      DotsFound(g, kinds, 0, n);
      WalkStep(g, 0, [n]);
      assert [n][1..] == [];
    }
  }

  /** In any directory `.` leads to itself and `..` to its parent. */
  lemma DotsFound(g: Image, kinds: map<u32, Kind>, d: u32, n: string)
    requires n == "." || n == ".."
    requires d in kinds && kinds[d].DirKind?
    requires Consistent(g, kinds)
    ensures Geometry(g) && d < MAX_FILES_PER_PART
    ensures Lookup(g, d, n).Some? && Lookup(g, d, n).value.ino == (if n == "." then d else kinds[d].parent)
    ensures Lookup(g, d, n).value.ftype == FT_DIRECTORY
  {
    DirHasBlocks(g, kinds, d);
    DotsAre(g, kinds, d);
    DotHit(I(g, d).sectors, I(g, d).size, g.disk, n);
    LookupIs(g, d, n, if n == "." then 0 else 1);
  }

  lemma DotsAre(g: Image, kinds: map<u32, Kind>, d: u32)
    requires d in kinds && kinds[d].DirKind?
    requires Consistent(g, kinds)
    ensures Geometry(g) && d < MAX_FILES_PER_PART
    ensures FlatI(g, d)[0].ino == d && FlatI(g, d)[0].ftype == FT_DIRECTORY
    ensures FlatI(g, d)[1].ino == kinds[d].parent && FlatI(g, d)[1].ftype == FT_DIRECTORY
  {
    hide StoreOK, CacheOK, RootOK, FlatI, I;
  }

  lemma DotHit(sec: seq<u32>, size: nat, disk: seq<Sector>, n: string)
    requires n == "." || n == ".."
    requires |sec| == 13 && DirShape(sec, size, disk)
    ensures n == "." ==> Hit(sec, disk, 0, Raw(n))
    ensures n == ".." ==> Hit(sec, disk, 1, Raw(n)) && !Hit(sec, disk, 0, Raw(n))
  {
    hide Flat, LiveCount;
    var f0, f1 := Flat(sec, disk)[0].filename, Flat(sec, disk)[1].filename;
    assert Raw(".") == [46] && Raw("..") == [46, 46];
    DotBytes(f0, f1);
  }

  lemma DotBytes(f0: seq<byte>, f1: seq<byte>)
    requires |f0| == |f1| == 16 && f0[0] == 46 && f0[1] == 0 && f1[0] == 46 && f1[1] == 46 && f1[2] == 0
    ensures CStr(f0) == [46] && CStr(f1) == [46, 46]
  {
    assert CStr(f0[1..]) == [];
    assert CStr(f1[1..][1..]) == [];
    assert CStr(f1[1..]) == [46];
  }
}
