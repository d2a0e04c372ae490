/** `sys_getcwd` of `src/fs/fs.c`, and its agreement with `search_file`. */
module FsCwd {
  import opened Options
  import opened Bytes
  import opened Partitions
  import opened Images
  import opened BlockMap
  import opened DirMap
  import opened DirOps
  import opened DirScan
  import opened FsState
  import opened FsPaths
  import opened Paths

  /** The name in a directory entry. */
  function EntryName(e: DirEntry): string {
    AsString(CStr(e.filename))
  }

  /** Names fit the buffers of the path functions and can be told apart from the path around them. */
  ghost predicate CleanNames(g: Image, kinds: map<u32, Kind>)
    requires Geometry(g)
  {
    forall d, p: nat, c :: ChildOf(g, kinds, d, p, c) ==>
        IsName(EntryName(FlatI(g, d)[p])) && |EntryName(FlatI(g, d)[p])| <= 15
  }

  /** No two entries of a directory have the same name. */
  ghost predicate UniqueNames(g: Image, kinds: map<u32, Kind>)
    requires Geometry(g)
  {
    forall d :: d in kinds && d < MAX_FILES_PER_PART && kinds[d].DirKind? ==> NamesDiffer(FlatI(g, d))
  }

  ghost predicate NamesDiffer(flat: seq<DirEntry>) {
    forall q, r :: 0 <= q < r < |flat| && Live(flat[q]) && Live(flat[r]) ==>
        CStr(flat[q].filename) != CStr(flat[r].filename)
  }

  /** A volume whose names are in order. */
  ghost predicate Named(g: Image, kinds: map<u32, Kind>) {
    Consistent(g, kinds) && CleanNames(g, kinds) && UniqueNames(g, kinds)
  }

  /** Where a directory is entered in its parent. */
  ghost function EntrySlot(g: Image, kinds: map<u32, Kind>, c: u32): (p: nat)
    requires c in kinds && kinds[c].DirKind? && c != 0 && Consistent(g, kinds)
    ensures ChildOf(g, kinds, kinds[c].parent, p, c)
  {
    ParentExists(g, kinds, c);
    var p: nat :| ChildOf(g, kinds, kinds[c].parent, p, c);
    p
  }

  ghost function NameOf(g: Image, kinds: map<u32, Kind>, c: u32): string
    requires c in kinds && kinds[c].DirKind? && c != 0 && Consistent(g, kinds)
  {
    var p := EntrySlot(g, kinds, c);
    EntryName(FlatI(g, kinds[c].parent)[p])
  }

  /** The names on the way from the root to directory `c`. */
  ghost function PathTo(g: Image, kinds: map<u32, Kind>, c: u32): (names: seq<string>)
    requires c in kinds && kinds[c].DirKind? && Consistent(g, kinds)
    decreases kinds[c].depth
  {
    if c == 0 then [] else
      ParentExists(g, kinds, c);
      PathTo(g, kinds, kinds[c].parent) + [NameOf(g, kinds, c)]
  }

  /** `search_dir_entry` looks at the block that holds the entry of directory `c`: an even number of holes
      precedes it. */
  ghost predicate Findable(g: Image, kinds: map<u32, Kind>, c: u32)
    requires c in kinds && kinds[c].DirKind? && c != 0 && Consistent(g, kinds)
  {
    ParentExists(g, kinds, c);
    HoleRun(I(g, kinds[c].parent).sectors, EntrySlot(g, kinds, c) / 21) % 2 == 0
  }

  ghost predicate AllFindable(g: Image, kinds: map<u32, Kind>, c: u32)
    requires c in kinds && kinds[c].DirKind? && Consistent(g, kinds)
    decreases kinds[c].depth
  {
    c == 0 || (
      ParentExists(g, kinds, c);
      Findable(g, kinds, c) && AllFindable(g, kinds, kinds[c].parent))
  }

  // ---- Walking to a directory ----

  lemma NamesOfDir(g: Image, kinds: map<u32, Kind>, d: u32)
    requires UniqueNamesOK(g, kinds, d)
    ensures Geometry(g) && d < MAX_FILES_PER_PART && NamesDiffer(FlatI(g, d))
  {
  }

  ghost predicate UniqueNamesOK(g: Image, kinds: map<u32, Kind>, d: u32) {
    Geometry(g) && UniqueNames(g, kinds) && d in kinds && d < MAX_FILES_PER_PART && kinds[d].DirKind?
  }

  /** Looking a directory up by its name finds it iff it is findable. */
  lemma LookupChild(g: Image, kinds: map<u32, Kind>, c: u32)
    requires c in kinds && kinds[c].DirKind? && c != 0
    requires Named(g, kinds)
    ensures Geometry(g) && kinds[c].parent < MAX_FILES_PER_PART
    ensures Lookup(g, kinds[c].parent, NameOf(g, kinds, c)) ==
            if Findable(g, kinds, c) then Some(FlatI(g, kinds[c].parent)[EntrySlot(g, kinds, c)]) else None
  {
    hide Named, Consistent, FlatI, I, Lookup;
    NamedIs(g, kinds);
    ParentExists(g, kinds, c);
    EntryOfDir(g, kinds, c);
    LookupEntry(g, kinds, kinds[c].parent, EntrySlot(g, kinds, c), c);
  }

  /** Looking any entry up by its name finds it iff `search_dir_entry` looks at its block. */
  lemma LookupEntry(g: Image, kinds: map<u32, Kind>, d: u32, p: nat, c: u32)
    requires Named(g, kinds)
    requires Geometry(g) && ChildOf(g, kinds, d, p, c)
    ensures Lookup(g, d, EntryName(FlatI(g, d)[p])) ==
            if HoleRun(I(g, d).sectors, p / 21) % 2 == 0 then Some(FlatI(g, d)[p]) else None
  {
    var e := FlatI(g, d)[p];
    RawOfString(CStr(e.filename));
    assert IsName(EntryName(e));
    assert CStr(e.filename) != [] by { assert |EntryName(e)| == |CStr(e.filename)|; }
    NamesOfDir(g, kinds, d);
    DirHasBlocks(g, kinds, d);
    hide Consistent, CleanNames, UniqueNames;
    SearchFindsIff(I(g, d), g.disk, p);
    if HoleRun(I(g, d).sectors, p / 21) % 2 == 0 {
      LookupIs(g, d, EntryName(e), p);
    } else {
      NothingFound(g, d, EntryName(e));
    }
  }

  /** The entry of a directory says so. */
  lemma EntryOfDir(g: Image, kinds: map<u32, Kind>, c: u32)
    requires c in kinds && kinds[c].DirKind? && c != 0 && Consistent(g, kinds)
    ensures Geometry(g) && kinds[c].parent < MAX_FILES_PER_PART && EntrySlot(g, kinds, c) < FLAT
    ensures var e := FlatI(g, kinds[c].parent)[EntrySlot(g, kinds, c)]; e.ino == c && e.ftype == FT_DIRECTORY && Live(e)
    ensures kinds[c].parent in kinds && kinds[kinds[c].parent].DirKind?
            && kinds[kinds[c].parent].depth + 1 == kinds[c].depth
  {
    ParentExists(g, kinds, c);
    hide StoreOK, CacheOK, RootOK, FlatI, I;
    assert EntryOK(g, kinds, kinds[c].parent, EntrySlot(g, kinds, c), c);
  }

  /** Walking the names of a directory leads to it iff all directories on the way are findable. */
  lemma {:induction false} WalkPath(g: Image, kinds: map<u32, Kind>, c: u32, rest: seq<string>)
    requires c in kinds && kinds[c].DirKind? && Named(g, kinds)
    ensures Geometry(g)
    ensures Walk(g, 0, PathTo(g, kinds, c) + rest) == if AllFindable(g, kinds, c) then Walk(g, c, rest) else None
    decreases kinds[c].depth
  {
    hide Named, Consistent, Findable, NameOf, Lookup, Walk, PathTo, AllFindable, FlatI, EntrySlot;
    NamedIs(g, kinds);
    PathSteps(g, kinds, c);
    if c == 0 {
      assert PathTo(g, kinds, c) + rest == rest;
    } else {
      EntryOfDir(g, kinds, c);
      LookupChild(g, kinds, c);
      var d, n := kinds[c].parent, NameOf(g, kinds, c);
      WalkPath(g, kinds, d, [n] + rest);
      assert PathTo(g, kinds, c) + rest == PathTo(g, kinds, d) + ([n] + rest);
      WalkStep(g, d, [n] + rest);
      assert ([n] + rest)[1..] == rest;
    }
  }

  lemma NamedIs(g: Image, kinds: map<u32, Kind>)
    requires Named(g, kinds)
    ensures Consistent(g, kinds) && Geometry(g)
  {
    hide Consistent, CleanNames, UniqueNames;
    GeometryOf(g, kinds);
  }

  lemma GeometryOf(g: Image, kinds: map<u32, Kind>)
    requires Consistent(g, kinds)
    ensures Geometry(g)
  {
    hide StoreOK, NamesOK, CacheOK, NumbersOK;
  }

  lemma PathSteps(g: Image, kinds: map<u32, Kind>, c: u32)
    requires c in kinds && kinds[c].DirKind? && Consistent(g, kinds)
    ensures c == 0 ==> PathTo(g, kinds, c) == [] && AllFindable(g, kinds, c)
    ensures c != 0 ==> kinds[c].parent in kinds && kinds[kinds[c].parent].DirKind?
    ensures c != 0 ==> PathTo(g, kinds, c) == PathTo(g, kinds, kinds[c].parent) + [NameOf(g, kinds, c)]
    ensures c != 0 ==> AllFindable(g, kinds, c) == (Findable(g, kinds, c) && AllFindable(g, kinds, kinds[c].parent))
  {
    if c != 0 {
      ParentExists(g, kinds, c);
    }
    hide Consistent, NameOf, Findable;
  }

  // ---- Climbing to the root ----

  /** `get_parent_dir_inode_nr`. Its assertions hold. */
  method GetParent(part: Partition, child: u32, ghost kinds: map<u32, Kind>) returns (parent: u32)
    requires part.Valid() && child in kinds && kinds[child].DirKind?
    requires Consistent(Snap(part), kinds)
    ensures parent == kinds[child].parent
  {
    hide Consistent, DirBlocks, I, DirShape;
    ghost var g := Snap(part);
    var sec := DirSectors(part, child, kinds);
    DirBlock(sec, part.disk, part.Bits(), part.dataStartLba, 0);
    assert sec[0] >= part.dataStartLba;
    var block := part.IdeRead(sec[0], 1);
    var e := EntryAt(block, 1);
    DotsAre(g, kinds, child);
    SecondSlot(sec, part.disk);
    ParentExists(g, kinds, child);
    InRange(g, kinds, kinds[child].parent);
    assert e.ino < 4096 && e.ftype == FT_DIRECTORY;
    parent := e.ino;
  }

  lemma SecondSlot(sec: seq<u32>, disk: seq<Sector>)
    requires |sec| == 13 && 0 < sec[0] < |disk|
    ensures Flat(sec, disk)[1] == EntryAt(disk[sec[0]], 1)
  {
    SlotIndex(0, 1);
  }

  /** The loop over one block in `get_child_dir_name`. */
  method FindInode(es: seq<DirEntry>, c: u32) returns (j: nat)
    ensures j <= |es| && (forall k :: 0 <= k < j ==> es[k].ino != c) && (j < |es| ==> es[j].ino == c)
  {
    j := 0;
    while j < |es|
      invariant j <= |es| && forall k :: 0 <= k < j ==> es[k].ino != c
    {
      if es[j].ino == c {
        return;
      }
      j := j + 1;
    }
  }

  /** `get_child_dir_name`: what it adds to the path, or nothing where the code returns -1. The entries are
      compared by inode number only. */
  method GetChildName(part: Partition, sec: seq<u32>, c: u32) returns (r: Option<string>, ghost at: nat)
    requires part.Valid() && DirBlocks(sec, part.disk, part.Bits(), part.dataStartLba) && c != 0
    ensures r == None ==> forall q: nat :: q < FLAT ==> Flat(sec, part.disk)[q].ino != c
    ensures r != None ==> at < FLAT && Flat(sec, part.disk)[at].ino == c
                          && r.value == "/" + EntryName(Flat(sec, part.disk)[at])
  {
    hide Owns, Slots;
    ghost var flat := Flat(sec, part.disk);
    at := 0;
    var b: nat := 0;
    while b < 12
      invariant b <= DIRECT && forall q: nat :: q < 21 * b ==> flat[q].ino != c
    {
      if sec[b] != 0 {
        DirBlock(sec, part.disk, part.Bits(), part.dataStartLba, b);
        BlockOfFlat(sec, part.disk, b);
        var es := BlockEntries(part.disk[sec[b]]);
        var j := FindInode(es, c);
        if j < |es| {
          at := 21 * b + j;
          r := Some("/" + EntryName(es[j]));
          return;
        }
        forall q: nat | 21 * b <= q < 21 * b + 21
          ensures flat[q].ino != c
        {
          assert flat[q] == es[q - 21 * b];
        }
      } else {
        HoleIsBlank(sec, part.disk, b);
      }
      b := b + 1;
    }
    r := None;
  }

  lemma HoleIsBlank(sec: seq<u32>, disk: seq<Sector>, b: nat)
    requires |sec| == 13 && b < DIRECT && sec[b] == 0
    ensures forall q: nat :: 21 * b <= q < 21 * b + 21 ==> Flat(sec, disk)[q] == NO_ENTRY
  {
    forall q: nat | 21 * b <= q < 21 * b + 21
      ensures Flat(sec, disk)[q] == NO_ENTRY
    {
      SlotIndex(b, q - 21 * b);
    }
  }

  /** In the parent only the entry of the child has its inode number. */
  lemma OnlyEntry(g: Image, kinds: map<u32, Kind>, c: u32, q: nat)
    requires c in kinds && kinds[c].DirKind? && c != 0 && Consistent(g, kinds)
    ensures Geometry(g) && kinds[c].parent < MAX_FILES_PER_PART
    ensures q < FLAT && FlatI(g, kinds[c].parent)[q].ino == c ==> q == EntrySlot(g, kinds, c)
  {
    hide Consistent, I, FlatI, EntrySlot, Live;
    EntryOfDir(g, kinds, c);
    var d := kinds[c].parent;
    DotsAre(g, kinds, d);
    ParentExists(g, kinds, d);
    if 2 <= q < FLAT && FlatI(g, d)[q].ino == c {
      SlotIsEntry(g, kinds, d, q, c);
    }
    RootIsDir(g, kinds);
  }

  lemma SlotIsEntry(g: Image, kinds: map<u32, Kind>, d: u32, q: nat, c: u32)
    requires c in kinds && kinds[c].DirKind? && c != 0 && kinds[c].parent == d && d in kinds && kinds[d].DirKind?
    requires Consistent(g, kinds)
    requires d < MAX_FILES_PER_PART && 2 <= q < FLAT && FlatI(g, d)[q].ino == c
    ensures q == EntrySlot(g, kinds, c)
  {
    DirOfVolumeSlots(g, kinds, d, q);
    hide StoreOK, CacheOK, RootOK, NumbersOK, FlatI, I;
    assert ChildOf(g, kinds, d, q, c);
  }

  lemma DirOfVolumeSlots(g: Image, kinds: map<u32, Kind>, d: u32, q: nat)
    requires d in kinds && kinds[d].DirKind? && q < FLAT
    requires Consistent(g, kinds)
    ensures Geometry(g) && d < MAX_FILES_PER_PART && (FlatI(g, d)[q].ino != 0 ==> Live(FlatI(g, d)[q]))
  {
    DirHasBlocks(g, kinds, d);
    hide Consistent, LiveCount;
  }

  /** One round of the first loop of `sys_getcwd`. */
  method ClimbOne(part: Partition, child: u32, ghost kinds: map<u32, Kind>) returns (parent: u32, name: string)
    requires part.Valid() && child in kinds && kinds[child].DirKind? && child != 0
    requires Consistent(Snap(part), kinds)
    ensures parent == kinds[child].parent && name == "/" + NameOf(Snap(part), kinds, child)
    ensures parent in kinds && kinds[parent].DirKind? && kinds[parent].depth < kinds[child].depth
  {
    hide Consistent, DirBlocks, I, EntrySlot, Live;
    ghost var g := Snap(part);
    EntryOfDir(g, kinds, child);
    parent := GetParent(part, child, kinds);
    var sec := DirSectors(part, parent, kinds);
    var r;
    ghost var at;
    r, at := GetChildName(part, sec, child);
    assert r != None;
    OnlyEntry(g, kinds, child, at);
    name := r.value;
  }

  /** The names in the opposite order. */
  function Reverse(names: seq<string>): seq<string> {
    if names == [] then [] else [names[|names| - 1]] + Reverse(names[..|names| - 1])
  }

  lemma ReverseGrows(names: seq<string>, n: string)
    ensures Reverse(names + [n]) == [n] + Reverse(names)
    ensures Joined(names + [n]) == Joined(names) + "/" + n
  {
    assert (names + [n])[..|names|] == names;
  }

  /** The names of directories can stand on a path. */
  lemma NameIsPlain(g: Image, kinds: map<u32, Kind>, c: u32)
    requires c in kinds && kinds[c].DirKind? && c != 0 && Named(g, kinds)
    ensures var n := NameOf(g, kinds, c); IsName(n) && n != "." && n != ".." && |n| <= 15 && IsCString(n)
  {
    hide Named, Consistent, FlatI, EntryName, IsName, IsCString;
    NamedIs(g, kinds);
    EntryOfDir(g, kinds, c);
    EntryIsPlain(g, kinds, kinds[c].parent, EntrySlot(g, kinds, c), c);
  }

  lemma EntryIsPlain(g: Image, kinds: map<u32, Kind>, d: u32, p: nat, c: u32)
    requires Named(g, kinds)
    requires Geometry(g) && ChildOf(g, kinds, d, p, c)
    ensures var n := EntryName(FlatI(g, d)[p]); IsName(n) && n != "." && n != ".." && |n| <= 15 && IsCString(n)
  {
    var e := FlatI(g, d)[p];
    assert IsName(EntryName(e)) && |EntryName(e)| <= 15;
    DirHasBlocks(g, kinds, d);
    ChildEntry(g, kinds, d, p);
    hide Consistent, CleanNames, UniqueNames, FlatI;
    NotDots(e);
  }

  lemma ChildEntry(g: Image, kinds: map<u32, Kind>, d: u32, p: nat)
    requires Geometry(g) && d < MAX_FILES_PER_PART && 2 <= p < FLAT && Live(FlatI(g, d)[p])
    requires DirShape(I(g, d).sectors, I(g, d).size, g.disk)
    ensures Child(FlatI(g, d)[p]) && |FlatI(g, d)[p].filename| == 16
  {
  }

  lemma NotDots(e: DirEntry)
    requires Child(e) && |e.filename| == 16 && |EntryName(e)| <= 15
    ensures EntryName(e) != "." && EntryName(e) != ".." && IsCString(EntryName(e))
  {
    var f, n := e.filename, EntryName(e);
    CStrIs(f);
    DotNames(f);
    forall ch | ch in n
      ensures 0 < ch as int < 0x100
    {
      var i :| 0 <= i < |n| && n[i] == ch;
      assert CStr(f)[i] == f[i];
    }
  }

  /** Which buffers hold the strings `.` and `..`. */
  lemma DotNames(f: seq<byte>)
    requires |f| == 16
    ensures AsString(CStr(f)) == "." ==> f[0] == 46 && f[1] == 0
    ensures AsString(CStr(f)) == ".." ==> f[0] == 46 && f[1] == 46 && f[2] == 0
  {
    CStrIs(f);
    var n := AsString(CStr(f));
    if n == "." {
      assert n[0] as int == 46 && |CStr(f)| == 1;
    }
    if n == ".." {
      assert n[0] as int == 46 && n[1] as int == 46 && |CStr(f)| == 2;
    }
  }

  /** A C string is what stands before the first 0. */
  lemma {:induction false} CStrIs(f: seq<byte>)
    ensures forall i :: 0 <= i < |CStr(f)| ==> CStr(f)[i] == f[i] && f[i] != 0
    ensures |CStr(f)| < |f| ==> f[|CStr(f)|] == 0
  {
    if f != [] && f[0] != 0 {
      CStrIs(f[1..]);
      forall i | 0 <= i < |CStr(f)|
        ensures CStr(f)[i] == f[i] && f[i] != 0
      {
        if i > 0 {
          assert CStr(f)[i] == CStr(f[1..])[i - 1] == f[1..][i - 1];
        }
      }
    }
  }

  /** The first loop of `sys_getcwd`: the names from the directory up, each after a slash. */
  method ClimbAll(part: Partition, cwd: u32, ghost kinds: map<u32, Kind>)
    returns (reversed: string, ghost names: seq<string>)
    requires part.Valid() && cwd in kinds && kinds[cwd].DirKind?
    requires Named(Snap(part), kinds)
    ensures Plain(names) && reversed == Joined(names)
    ensures Consistent(Snap(part), kinds) && PathTo(Snap(part), kinds, cwd) == Reverse(names)
  {
    hide Named, Consistent, PathTo, NameOf, Joined, Reverse, IsName, AllFindable, Findable;
    ghost var g := Snap(part);
    NamedIs(g, kinds);
    NoNames();
    var child := cwd;
    reversed, names := "", [];
    while child != 0
      invariant child in kinds && kinds[child].DirKind?
      invariant Plain(names) && reversed == Joined(names)
      invariant PathTo(g, kinds, cwd) == PathTo(g, kinds, child) + Reverse(names)
      decreases kinds[child].depth
    {
      PathSteps(g, kinds, child);
      NameIsPlain(g, kinds, child);
      ghost var n := NameOf(g, kinds, child);
      var parent, name := ClimbOne(part, child, kinds);
      ReverseGrows(names, n);
      assert PathTo(g, kinds, parent) + [n] + Reverse(names) == PathTo(g, kinds, parent) + ([n] + Reverse(names));
      assert Joined(names) + "/" + n == Joined(names) + ("/" + n);
      reversed := reversed + name;
      names := names + [n];
      child := parent;
    }
    PathSteps(g, kinds, 0);
    assert [] + Reverse(names) == Reverse(names);
  }

  lemma NoNames()
    ensures Joined([]) == "" && Reverse([]) == []
  {
  }

  /** The second loop: the last name is moved, again and again. */
  method MoveNames(reversed: string, ghost names: seq<string>) returns (buf: string)
    requires Plain(names) && reversed == Joined(names)
    ensures buf == Joined(Reverse(names))
  {
    hide Reverse, Joined, IsName;
    NoNames();
    var rest := reversed;
    buf := "";
    ghost var done: seq<string>, todo := [], names;
    assert [] + Reverse(names) == Reverse(names);
    JoinedStart(todo);
    while '/' in rest
      invariant Plain(todo) && rest == Joined(todo) && buf == Joined(done)
      invariant done + Reverse(todo) == Reverse(names)
      decreases |todo|
    {
      var lastSlash := LastSlash(rest);
      assert todo != [];
      SlashBeforeLast(todo, lastSlash);
      PlainFront(todo);
      ghost var front, n := todo[..|todo| - 1], todo[|todo| - 1];
      assert todo == front + [n];
      ReverseGrows(front, n);
      assert rest == Joined(front) + "/" + n && rest[lastSlash..] == "/" + n;
      buf := buf + rest[lastSlash..];
      ghost var d := done;
      JoinedGrows(done, n);
      done := done + [n];
      assert Reverse(todo) == [n] + Reverse(front);
      assert d + ([n] + Reverse(front)) == (d + [n]) + Reverse(front);
      rest := rest[..lastSlash];
      todo := front;
    }
    AllMoved(todo);
    assert done + [] == done;
  }

  lemma PlainFront(names: seq<string>)
    requires Plain(names) && names != []
    ensures Plain(names[..|names| - 1])
  {
    var front := names[..|names| - 1];
    forall c | c in front
      ensures IsName(c) && c != "." && c != ".."
    {
      var i :| 0 <= i < |front| && front[i] == c;
      assert names[i] == c;
      assert c in names;
    }
  }

  lemma JoinedGrows(names: seq<string>, n: string)
    ensures Joined(names + [n]) == Joined(names) + ("/" + n)
  {
    ReverseGrows(names, n);
    assert Joined(names) + "/" + n == Joined(names) + ("/" + n);
  }

  lemma AllMoved(todo: seq<string>)
    requires '/' !in Joined(todo)
    ensures todo == [] && Reverse(todo) == []
  {
    if todo != [] {
      JoinedHasSlash(todo);
    }
  }

  lemma JoinedHasSlash(todo: seq<string>)
    requires todo != []
    ensures '/' in Joined(todo)
  {
    JoinedStart(todo);
    assert Joined(todo)[0] == '/';
  }

  /** `sys_getcwd`: the names of the directories from the root to the working directory, if they fit. */
  method GetCwd(part: Partition, cwd: u32, size: nat, ghost kinds: map<u32, Kind>) returns (buf: string)
    requires part.Valid() && cwd in kinds && kinds[cwd].DirKind?
    requires Named(Snap(part), kinds)
    requires Consistent(Snap(part), kinds) && |Joined(PathTo(Snap(part), kinds, cwd))| < 512
    requires |Joined(PathTo(Snap(part), kinds, cwd))| < size && size >= 2
    ensures buf == Render(PathTo(Snap(part), kinds, cwd))
  {
    hide Named, Consistent, PathTo, Joined, Reverse;
    PathSteps(Snap(part), kinds, cwd);
    if cwd == 0 {
      RenderNothing();
      return "/";
    }
    var fullPathReverse;
    ghost var names;
    fullPathReverse, names := ClimbAll(part, cwd, kinds);
    ReversedLength(names);
    assert |fullPathReverse| <= size;
    buf := MoveNames(fullPathReverse, names);
  }

  lemma {:induction false} ReversedLength(names: seq<string>)
    ensures |Joined(Reverse(names))| == |Joined(names)|
  {
    if names != [] {
      var front, n := names[..|names| - 1], names[|names| - 1];
      ReversedLength(front);
      JoinedPrepend(n, Reverse(front));
    }
  }

  lemma {:induction false} JoinedPrepend(n: string, names: seq<string>)
    ensures Joined([n] + names) == "/" + n + Joined(names)
  {
    if names == [] {
      assert [n] + names == [n];
      assert Joined([n]) == Joined([n][..0]) + "/" + n;
      assert "" + "/" + n == "/" + n + "";
    } else {
      var front, x := names[..|names| - 1], names[|names| - 1];
      JoinedPrepend(n, front);
      assert ([n] + names)[..|names|] == [n] + front;
      assert "/" + n + (Joined(front) + "/" + x) == "/" + n + Joined(front) + "/" + x;
    }
  }

  // ---- The round trip ----

  lemma PathIsPlain(g: Image, kinds: map<u32, Kind>, c: u32)
    requires c in kinds && kinds[c].DirKind? && Named(g, kinds) && Consistent(g, kinds)
    ensures Plain(PathTo(g, kinds, c)) && forall n :: n in PathTo(g, kinds, c) ==> |n| <= 15 && IsCString(n)
    decreases kinds[c].depth
  {
    hide Named, Consistent, PathTo, NameOf, IsName, IsCString, AllFindable, Findable;
    PathSteps(g, kinds, c);
    if c != 0 {
      EntryOfDir(g, kinds, c);
      NameIsPlain(g, kinds, c);
      PathIsPlain(g, kinds, kinds[c].parent);
    }
  }

  lemma {:induction false} JoinedCharacters(names: seq<string>)
    requires forall n :: n in names ==> IsCString(n)
    ensures IsCString(Joined(names))
  {
    if names != [] {
      var front, n := names[..|names| - 1], names[|names| - 1];
      JoinedCharacters(front);
      assert n in names;
    }
  }

  /** The path that `sys_getcwd` returns leads `search_file` back to the working directory iff
      `search_dir_entry` looks at every entry on the way; if not, it leads nowhere. */
  method CwdRoundTrip(part: Partition, cwd: u32, ghost kinds: map<u32, Kind>) returns (path: string, r: int)
    requires part.Valid() && cwd in kinds && kinds[cwd].DirKind?
    requires Named(Snap(part), kinds)
    requires Consistent(Snap(part), kinds) && |Joined(PathTo(Snap(part), kinds, cwd))| < 511
    ensures path == Render(PathTo(Snap(part), kinds, cwd))
    ensures r == if AllFindable(Snap(part), kinds, cwd) then cwd else -1
  {
    hide Named, Consistent, PathTo, Joined, IsName, IsCString, AllFindable, Components, Walk;
    ghost var g := Snap(part);
    path := GetCwd(part, cwd, 512, kinds);
    ghost var names := PathTo(g, kinds, cwd);
    PathIsPlain(g, kinds, cwd);
    ParseRendered(names);
    JoinedCharacters(names);
    RenderStart(names);
    r := SearchFile(part, path, 0, kinds);
    WalkPath(g, kinds, cwd, []);
    assert names + [] == names;
    WalkEnd(g, cwd);
  }

  /** The path of a child of directory `d`, be it a file or a directory. */
  ghost function ChildPath(g: Image, kinds: map<u32, Kind>, d: u32, p: nat): (names: seq<string>)
    requires d in kinds && kinds[d].DirKind? && Consistent(g, kinds) && p < FLAT
  {
    InRange(g, kinds, d);
    PathTo(g, kinds, d) + [EntryName(FlatI(g, d)[p])]
  }

  lemma WalkToChild(g: Image, kinds: map<u32, Kind>, d: u32, p: nat, c: u32)
    requires d in kinds && kinds[d].DirKind? && Named(g, kinds) && Consistent(g, kinds)
    requires Geometry(g) && ChildOf(g, kinds, d, p, c)
    ensures Walk(g, 0, ChildPath(g, kinds, d, p)) ==
            if AllFindable(g, kinds, d) && HoleRun(I(g, d).sectors, p / 21) % 2 == 0 then Some(c) else None
  {
    hide Named, Consistent, AllFindable, FlatI, I, Lookup, PathTo, HoleRun, Live;
    var n := EntryName(FlatI(g, d)[p]);
    WalkPath(g, kinds, d, [n]);
    LookupEntry(g, kinds, d, p, c);
    assert [n][1..] == [];
  }

  lemma ChildPathIsPlain(g: Image, kinds: map<u32, Kind>, d: u32, p: nat, c: u32)
    requires d in kinds && kinds[d].DirKind? && Named(g, kinds) && Consistent(g, kinds)
    requires Geometry(g) && ChildOf(g, kinds, d, p, c)
    ensures var names := ChildPath(g, kinds, d, p);
            names != [] && Plain(names) && forall n :: n in names ==> |n| <= 15 && IsCString(n)
  {
    hide PathTo, Named, Consistent, FlatI, EntryName, IsName, IsCString, Live;
    PathIsPlain(g, kinds, d);
    EntryIsPlain(g, kinds, d, p, c);
  }

  /** `search_file` with the path of any child of a directory finds the inode of that child iff
      `search_dir_entry` looks at every entry on the way; if not, it finds nothing. */
  method SearchChild(part: Partition, path: string, ghost kinds: map<u32, Kind>, ghost d: u32, ghost p: nat,
                     ghost c: u32) returns (r: int)
    requires part.Valid() && d in kinds && kinds[d].DirKind?
    requires Named(Snap(part), kinds)
    requires Consistent(Snap(part), kinds) && Geometry(Snap(part)) && ChildOf(Snap(part), kinds, d, p, c)
    requires path == Render(ChildPath(Snap(part), kinds, d, p)) && |path| < 512
    ensures r == if AllFindable(Snap(part), kinds, d) && HoleRun(I(Snap(part), d).sectors, p / 21) % 2 == 0 then c
                 else -1
  {
    hide Named, Consistent, PathTo, Joined, IsName, IsCString, AllFindable, Components, Walk, I, FlatI, HoleRun, Live,
         ChildPath;
    ghost var g := Snap(part);
    ghost var names := ChildPath(g, kinds, d, p);
    ChildPathIsPlain(g, kinds, d, p, c);
    ParseRendered(names);
    JoinedCharacters(names);
    RenderStart(names);
    WalkToChild(g, kinds, d, p, c);
    r := SearchFile(part, path, 0, kinds);
  }

  lemma RenderStart(names: seq<string>)
    requires IsCString(Joined(names))
    ensures Render(names) != [] && Render(names)[0] == '/' && |Render(names)| <= |Joined(names)| + 1
            && IsCString(Render(names))
  {
    JoinedStart(names);
  }
}
