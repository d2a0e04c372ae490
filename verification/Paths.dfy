/** Path names: `path_parse` and `path_depth_cnt` of `src/fs/fs.c`, `wash_path` of
    `src/shell/builtin_cmd.c`. A string stands for the characters before the terminating zero. */
module Paths {
  import opened Options

  // ---- Parsing ----

  /** Leading slashes are skipped. */
  function SkipSlashes(p: string): (r: string)
    ensures |r| <= |p| && (r == [] || r[0] != '/')
  {
    if p != [] && p[0] == '/' then SkipSlashes(p[1..]) else p
  }

  /** The characters up to the next slash. */
  function FirstName(p: string): (n: string)
    ensures |n| <= |p| && '/' !in n && n == p[..|n|] && (|n| == |p| || p[|n|] == '/')
  {
    if p == [] || p[0] == '/' then [] else [p[0]] + FirstName(p[1..])
  }

  /** The names in a path, in order. */
  function Components(p: string): (cs: seq<string>)
    decreases |p|
  {
    var q := SkipSlashes(p);
    if q == [] then [] else
      var n := FirstName(q);
      [n] + Components(q[|n|..])
  }

  ghost predicate IsName(n: string) {
    n != [] && '/' !in n
  }

  lemma {:induction false} ComponentsAreNames(p: string)
    ensures forall c :: c in Components(p) ==> IsName(c)
    decreases |p|
  {
    var q := SkipSlashes(p);
    if q != [] {
      ComponentsAreNames(q[|FirstName(q)|..]);
    }
  }

  /** The name buffer of all callers has 16 bytes, one of them for the terminating zero. */
  ghost predicate FitsBuffer(p: string) {
    forall c :: c in Components(p) ==> |c| <= 15
  }

  /** Lines 200-203 of `path_parse`. */
  method SkipLoop(pathname: string) returns (i: nat)
    ensures i <= |pathname| && pathname[i..] == SkipSlashes(pathname)
  {
    i := 0;
    if pathname != [] && pathname[0] == '/' {
      i := 1;
      while i < |pathname| && pathname[i] == '/'
        invariant 1 <= i <= |pathname| && SkipSlashes(pathname) == SkipSlashes(pathname[i..])
      {
        assert pathname[i..][1..] == pathname[i + 1..];
        i := i + 1;
      }
    }
  }

  /** Lines 205-207. */
  method NameLoop(pathname: string, start: nat) returns (name: string)
    requires start <= |pathname|
    ensures name == FirstName(pathname[start..])
  {
    hide FirstName;
    var i := start;
    name := [];
    assert [] + FirstName(pathname[start..]) == FirstName(pathname[start..]);
    while i < |pathname| && pathname[i] != '/'
      invariant start <= i <= |pathname|
      invariant FirstName(pathname[start..]) == name + FirstName(pathname[i..])
    {
      NextCharacter(pathname, i);
      assert name + [pathname[i]] + FirstName(pathname[i + 1..])
             == name + ([pathname[i]] + FirstName(pathname[i + 1..]));
      name := name + [pathname[i]];
      i := i + 1;
    }
    NoMoreCharacters(pathname, i);
    assert name + [] == name;
  }

  lemma NextCharacter(p: string, i: nat)
    requires i < |p| && p[i] != '/'
    ensures FirstName(p[i..]) == [p[i]] + FirstName(p[i + 1..])
  {
    assert p[i..][1..] == p[i + 1..];
  }

  lemma NoMoreCharacters(p: string, i: nat)
    requires i == |p| || (i < |p| && p[i] == '/')
    ensures FirstName(p[i..]) == []
  {
  }

  /** `path_parse`: the next name, and what follows it. */
  method PathParse(pathname: string) returns (name: string, rest: Option<string>)
    ensures name == FirstName(SkipSlashes(pathname))
    ensures var q := SkipSlashes(pathname)[|name|..]; rest == if q == [] then None else Some(q)
  {
    var start := SkipLoop(pathname);
    name := NameLoop(pathname, start);
    hide SkipSlashes, FirstName;
    var i := start + |name|;
    assert pathname[start..][|name|..] == pathname[i..];
    rest := if i == |pathname| then None else Some(pathname[i..]);
  }

  /** What is still to be parsed after `path_parse`. */
  function Remaining(rest: Option<string>): string {
    if rest.None? then [] else rest.value
  }

  /** `path_parse` takes the components off one by one. */
  lemma ParseStep(p: string)
    ensures var q := SkipSlashes(p); var n := FirstName(q);
            if n == [] then Components(p) == [] else Components(p) == [n] + Components(q[|n|..])
  {
  }

  /** `path_depth_cnt`. */
  method PathDepthCnt(pathname: string) returns (depth: nat)
    requires FitsBuffer(pathname)
    ensures depth == |Components(pathname)|
  {
    depth := 0;
    ParseStep(pathname);
    var name, p := PathParse(pathname);
    ghost var left := if name == [] then [] else [name] + Components(Remaining(p));
    while name != []
      invariant depth + |left| == |Components(pathname)|
      invariant left == if name == [] then [] else [name] + Components(Remaining(p))
      decreases |left|
    {
      depth := depth + 1;
      left := left[1..];
      name := [];
      if p != None {
        ParseStep(p.value);
        name, p := PathParse(p.value);
      }
    }
  }

  // ---- Washing ----

  /** What a component does to the stack of directories. */
  function Enter(stack: seq<string>, c: string): seq<string> {
    if c == "." then stack
    else if c == ".." then if stack == [] then [] else stack[..|stack| - 1]
    else stack + [c]
  }

  function Fold(stack: seq<string>, cs: seq<string>): seq<string>
    decreases |cs|
  {
    if cs == [] then stack else Fold(Enter(stack, cs[0]), cs[1..])
  }

  /** Each name after a slash. */
  function Joined(stack: seq<string>): string {
    if stack == [] then [] else Joined(stack[..|stack| - 1]) + "/" + stack[|stack| - 1]
  }

  /** The absolute path of a stack. */
  function Render(stack: seq<string>): string {
    if stack == [] then "/" else Joined(stack)
  }

  /** Names that can be on a stack. */
  ghost predicate Plain(stack: seq<string>) {
    forall c :: c in stack ==> IsName(c) && c != "." && c != ".."
  }

  lemma {:induction false} FoldPlain(stack: seq<string>, cs: seq<string>)
    requires Plain(stack) && forall c :: c in cs ==> IsName(c)
    ensures Plain(Fold(stack, cs))
    decreases |cs|
  {
    if cs != [] {
      FoldPlain(Enter(stack, cs[0]), cs[1..]);
    }
  }

  /** `strrchr(s, '/')`, for a string with a slash. */
  method LastSlash(s: string) returns (i: nat)
    requires '/' in s
    ensures i < |s| && s[i] == '/' && '/' !in s[i + 1..]
  {
    var j := 0;
    i := 0;
    ghost var seen := false;
    while j < |s|
      invariant j <= |s| && i <= j
      invariant seen ==> i < j && s[i] == '/' && '/' !in s[i + 1..j]
      invariant !seen ==> '/' !in s[..j]
    {
      if s[j] == '/' {
        i, seen := j, true;
      } else {
        assert !seen ==> s[..j + 1] == s[..j] + [s[j]];
        assert seen ==> s[i + 1..j + 1] == s[i + 1..j] + [s[j]];
      }
      j := j + 1;
    }
    assert s[..j] == s;
    assert s[i + 1..j] == s[i + 1..];
  }

  /** `r` is the path `w` without its last name: what stands before the last slash, or the root. */
  ghost predicate CutsLastName(w: string, r: string) {
    exists i :: 0 <= i < |w| && w[i] == '/' && '/' !in w[i + 1..] && r == if i == 0 then "/" else w[..i]
  }

  /** The last slash of a rendered stack stands before its last name. */
  lemma SlashBeforeLast(stack: seq<string>, i: nat)
    requires Plain(stack) && stack != [] && i < |Joined(stack)| && Joined(stack)[i] == '/'
             && '/' !in Joined(stack)[i + 1..]
    ensures i == |Joined(stack[..|stack| - 1])| && Joined(stack)[..i] == Joined(stack[..|stack| - 1])
  {
    var front, last := Joined(stack[..|stack| - 1]), stack[|stack| - 1];
    assert last in stack;
    assert Joined(stack) == front + "/" + last;
    assert Joined(stack)[|front|] == '/';
    var k: nat := |front|;
    if i < k {
      SlashLater(Joined(stack), i, k);
    } else if i > |front| {
      InLastName(front, last, i);
    }
  }

  lemma SlashLater(s: string, i: nat, j: nat)
    requires i < j < |s| && s[j] == '/'
    ensures '/' in s[i + 1..]
  {
    assert s[i + 1..][j - i - 1] == '/';
  }

  lemma InLastName(front: string, last: string, i: nat)
    requires |front| < i < |front + "/" + last|
    ensures (front + "/" + last)[i] in last
  {
    assert (front + "/" + last)[i] == last[i - |front| - 1];
  }

  lemma JoinedStart(stack: seq<string>)
    ensures stack != [] ==> Joined(stack) != [] && Joined(stack)[0] == '/'
    ensures Plain(stack) && stack != [] ==> Joined(stack) != "/"
  {
    if stack != [] {
      JoinedStart(stack[..|stack| - 1]);
      assert stack[|stack| - 1] in stack;
    }
  }

  /** Lines 27-33 of `wash_path`: the last name is cut off. */
  method GoUp(path: string, ghost stack: seq<string>) returns (r: string)
    requires Plain(stack) && path == Render(stack)
    ensures r == Render(Enter(stack, "..")) && CutsLastName(path, r)
  {
    JoinedStart(stack);
    var slash := LastSlash(path);
    assert slash == 0 ==> path[..1] == "/";
    if stack != [] {
      SlashBeforeLast(stack, slash);
      JoinedStart(stack[..|stack| - 1]);
    }
    r := if slash != 0 then path[..slash] else path[..1];
  }

  /** Lines 35-38: a name is added. */
  method GoDown(path: string, name: string, ghost stack: seq<string>) returns (r: string)
    requires Plain(stack) && path == Render(stack)
    ensures r == Render(stack + [name])
  {
    JoinedStart(stack);
    r := path;
    if r != "/" {
      r := r + "/";
    }
    r := r + name;
    assert (stack + [name])[..|stack|] == stack;
    assert Joined(stack + [name]) == Joined(stack) + "/" + name;
    assert Joined([]) + "/" + name == "/" + name;
  }

  lemma EnterPlain(stack: seq<string>, c: string)
    requires Plain(stack) && IsName(c)
    ensures Plain(Enter(stack, c))
  {
    forall x | x in Enter(stack, c)
      ensures x in stack || (x == c && c != "." && c != "..")
    {
    }
  }

  /** Lines 26-39: what one name does to the path. */
  method Follow(path: string, name: string, ghost stack: seq<string>) returns (r: string)
    requires Plain(stack) && path == Render(stack) && IsName(name)
    ensures r == Render(Enter(stack, name)) && Plain(Enter(stack, name))
  {
    EnterPlain(stack, name);
    if name == ".." {
      r := GoUp(path, stack);
    } else if name != "." {
      r := GoDown(path, name, stack);
    } else {
      r := path;
    }
  }

  /** Lines 41-44: the buffer is cleared, and filled again if there is more to parse. */
  method NextName(subPath: Option<string>) returns (name: string, rest: Option<string>)
    ensures Components(Remaining(subPath)) == if name == [] then [] else [name] + Components(Remaining(rest))
  {
    name, rest := [], subPath;
    if subPath != None {
      ParseStep(subPath.value);
      name, rest := PathParse(subPath.value);
    }
  }

  /** The result of `wash_path`. */
  function Washed(p: string): string {
    Render(Fold([], Components(p)))
  }

  /** `wash_path`: the path without `.` and `..`, as the directories that are entered and left say. */
  method WashPath(oldAbsPath: string) returns (newAbsPath: string)
    requires oldAbsPath != [] && oldAbsPath[0] == '/' && FitsBuffer(oldAbsPath)
    ensures newAbsPath == Washed(oldAbsPath)
  {
    ComponentsAreNames(oldAbsPath);
    RenderNothing();
    hide Components, Render, IsName, Enter;
    var name, subPath := NextName(Some(oldAbsPath));
    if name == [] {
      return "/";
    }
    newAbsPath := "/";
    ghost var stack: seq<string> := [];
    ghost var left := [name] + Components(Remaining(subPath));
    while name != []
      invariant Plain(stack) && newAbsPath == Render(stack)
      invariant left == if name == [] then [] else [name] + Components(Remaining(subPath))
      invariant forall c :: c in left ==> IsName(c)
      invariant Fold(stack, left) == Fold([], Components(oldAbsPath))
      decreases |left|
    {
      assert left[0] == name && left[1..] == Components(Remaining(subPath));
      newAbsPath := Follow(newAbsPath, name, stack);
      stack := Enter(stack, name);
      left := left[1..];
      name, subPath := NextName(subPath);
    }
  }

  lemma RenderNothing()
    ensures Render([]) == "/"
  {
  }

  // ---- What a washed path is ----

  /** Parsing a rendered stack gives the stack back. */
  lemma {:induction false} ParseRendered(stack: seq<string>)
    requires Plain(stack)
    ensures Components(Render(stack)) == stack
  {
    if stack == [] {
      assert SkipSlashes("/") == SkipSlashes("");
    } else {
      ParseJoined(stack);
    }
  }

  lemma {:induction false} ParseJoined(stack: seq<string>)
    requires forall c :: c in stack ==> IsName(c)
    ensures Components(Joined(stack)) == stack
  {
    if stack != [] {
      var front, last := stack[..|stack| - 1], stack[|stack| - 1];
      ParseJoined(front);
      assert last in stack;
      ParseAppended(Joined(front), last);
      assert stack == front + [last];
    }
  }

  /** A name after a slash is one more component. */
  lemma {:induction false} ParseAppended(p: string, n: string)
    requires IsName(n)
    ensures Components(p + "/" + n) == Components(p) + [n]
    decreases |p|
  {
    hide SkipSlashes, FirstName, Components;
    var t, q := "/" + n, SkipSlashes(p);
    assert p + "/" + n == p + t;
    SkipAppended(p, t);
    ParseStep(p);
    ParseStep(p + t);
    if q == [] {
      NameAlone(n);
      ParseStep("/" + n);
    } else {
      var m := FirstName(q);
      NameAppended(q, t);
      FirstNameThere(q);
      Behind(q, t, |m|);
      assert q[|m|..] + t == q[|m|..] + "/" + n;
      ParseAppended(q[|m|..], n);
    }
  }

  lemma Behind(q: string, t: string, k: nat)
    requires k <= |q|
    ensures (q + t)[k..] == q[k..] + t
  {
  }

  lemma FirstNameThere(q: string)
    requires q != [] && q[0] != '/'
    ensures FirstName(q) != []
  {
  }

  lemma {:induction false} SkipAppended(p: string, t: string)
    requires t != [] && t[0] == '/'
    ensures SkipSlashes(p + t) == if SkipSlashes(p) == [] then SkipSlashes(t) else SkipSlashes(p) + t
  {
    if p == [] {
      assert p + t == t;
    } else if p[0] == '/' {
      assert (p + t)[1..] == p[1..] + t;
      SkipAppended(p[1..], t);
    }
  }

  lemma {:induction false} NameAppended(q: string, t: string)
    requires t != [] && t[0] == '/'
    ensures FirstName(q + t) == FirstName(q)
  {
    if q == [] {
      assert q + t == t;
    } else if q[0] != '/' {
      assert (q + t)[1..] == q[1..] + t;
      NameAppended(q[1..], t);
    }
  }

  lemma {:induction false} NameAlone(n: string)
    requires IsName(n)
    ensures FirstName(n) == n && Components("/" + n) == [n] && SkipSlashes("/" + n) == n
  {
    AllName(n);
    assert ("/" + n)[1..] == n;
    assert SkipSlashes("/" + n) == SkipSlashes(n);
    assert n[|n|..] == [];
  }

  lemma {:induction false} AllName(n: string)
    requires '/' !in n
    ensures FirstName(n) == n
  {
    if n != [] {
      AllName(n[1..]);
    }
  }

  lemma {:induction false} FoldOfPlain(stack: seq<string>, cs: seq<string>)
    requires Plain(cs)
    ensures Fold(stack, cs) == stack + cs
    decreases |cs|
  {
    if cs != [] {
      assert cs[0] in cs;
      FoldOfPlain(stack + [cs[0]], cs[1..]);
      assert stack + [cs[0]] + cs[1..] == stack + cs;
    }
  }

  /** A washed path is absolute, has no empty name, no `.` and no `..`, and washing it again changes
      nothing. */
  lemma WashedIsClean(p: string)
    ensures var w := Washed(p);
            && w != [] && w[0] == '/'
            && Components(w) == Fold([], Components(p)) && Plain(Components(w))
            && Washed(w) == w
  {
    var stack := Fold([], Components(p));
    ComponentsAreNames(p);
    FoldPlain([], Components(p));
    JoinedStart(stack);
    ParseRendered(stack);
    FoldOfPlain([], stack);
    assert [] + stack == stack;
  }

  // ---- What the names in a path do ----

  lemma {:induction false} FoldOneMore(stack: seq<string>, cs: seq<string>, c: string)
    ensures Fold(stack, cs + [c]) == Enter(Fold(stack, cs), c)
    decreases |cs|
  {
    if cs == [] {
      assert cs + [c] == [c];
      assert Fold(stack, [c]) == Fold(Enter(stack, c), [c][1..]);
    } else {
      assert (cs + [c])[1..] == cs[1..] + [c];
      FoldOneMore(Enter(stack, cs[0]), cs[1..], c);
    }
  }

  lemma WashedOneMore(p: string, n: string)
    requires IsName(n)
    ensures Components(p + "/" + n) == Components(p) + [n] && Plain(Fold([], Components(p)))
    ensures Washed(p + "/" + n) == Render(Enter(Fold([], Components(p)), n))
  {
    ParseAppended(p, n);
    FoldOneMore([], Components(p), n);
    ComponentsAreNames(p);
    FoldPlain([], Components(p));
  }

  /** A path without names is the root. */
  lemma NoNamesIsRoot(p: string)
    requires forall i :: 0 <= i < |p| ==> p[i] == '/'
    ensures Washed(p) == "/"
  {
    OnlySlashes(p);
    assert Components(p) == [];
    assert Fold([], []) == [];
  }

  lemma {:induction false} OnlySlashes(p: string)
    requires forall i :: 0 <= i < |p| ==> p[i] == '/'
    ensures SkipSlashes(p) == []
  {
    if p != [] {
      OnlySlashes(p[1..]);
    }
  }

  /** Another name is the last component of the result. */
  lemma NameIsAppended(p: string, n: string)
    requires IsName(n) && n != "." && n != ".."
    ensures Washed(p + "/" + n) == if Washed(p) == "/" then "/" + n else Washed(p) + "/" + n
  {
    hide Components, Fold, Render;
    WashedOneMore(p, n);
    RenderOneMore(Fold([], Components(p)), n);
  }

  lemma RenderOneMore(stack: seq<string>, n: string)
    requires Plain(stack)
    ensures Render(stack + [n]) == if Render(stack) == "/" then "/" + n else Render(stack) + "/" + n
  {
    JoinedStart(stack);
    assert (stack + [n])[..|stack|] == stack;
    assert Joined(stack + [n]) == Joined(stack) + "/" + n;
    assert Joined([]) + "/" + n == "/" + n;
  }

  /** A dot changes nothing. */
  lemma DotStays(p: string)
    ensures Washed(p + "/" + ".") == Washed(p)
  {
    WashedOneMore(p, ".");
  }

  /** Two dots cut the result at its last slash; above the root there is only the root. */
  lemma DotDotCuts(p: string)
    ensures CutsLastName(Washed(p), Washed(p + "/" + ".."))
    ensures Washed(p) == "/" ==> Washed(p + "/" + "..") == "/"
  {
    WashedOneMore(p, "..");
    var stack := Fold([], Components(p));
    var w := Render(stack);
    JoinedStart(stack);
    if stack == [] {
      assert w[0] == '/' && w[1..] == [];
    } else {
      var front, last := Joined(stack[..|stack| - 1]), stack[|stack| - 1];
      assert last in stack;
      assert w == front + "/" + last;
      var i: nat := |front|;
      assert w[i] == '/' && w[i + 1..] == last && w[..i] == front;
      JoinedStart(stack[..|stack| - 1]);
      assert Enter(stack, "..") == stack[..|stack| - 1];
    }
  }

  /** So two dots undo a name. */
  lemma DotDotUndoes(p: string, n: string)
    requires IsName(n) && n != "." && n != ".."
    ensures Washed(p + "/" + n + "/" + "..") == Washed(p)
  {
    WashedOneMore(p, n);
    WashedOneMore(p + "/" + n, "..");
    var stack := Fold([], Components(p));
    FoldOneMore([], Components(p), n);
    assert (stack + [n])[..|stack|] == stack;
  }

  /** Another slash changes nothing, at the end or between two names. */
  lemma SlashesDoNotCount(p: string, q: string)
    requires q == [] || q[0] == '/'
    ensures Washed(p + "/" + q) == Washed(p + q)
  {
    MoreSlashes(p, q);
  }

  lemma {:induction false} MoreSlashes(p: string, q: string)
    requires q == [] || q[0] == '/'
    ensures Components(p + "/" + q) == Components(p + q)
    decreases |p|
  {
    hide SkipSlashes, FirstName, Components;
    var t, r := "/" + q, SkipSlashes(p);
    assert p + "/" + q == p + t;
    SkipAppended(p, t);
    SkipAny(p, q);
    OneSlashLess(q);
    ParseStep(p + t);
    ParseStep(p + q);
    if r != [] {
      var m := FirstName(r);
      NameAppended(r, t);
      NameAny(r, q);
      Behind(r, t, |m|);
      Behind(r, q, |m|);
      assert r[|m|..] + t == r[|m|..] + "/" + q;
      FirstNameThere(r);
      MoreSlashes(r[|m|..], q);
    }
  }

  lemma OneSlashLess(q: string)
    ensures SkipSlashes("/" + q) == SkipSlashes(q)
  {
    assert ("/" + q)[1..] == q;
  }

  lemma SkipAny(p: string, t: string)
    requires t == [] || t[0] == '/'
    ensures SkipSlashes(p + t) == if SkipSlashes(p) == [] then SkipSlashes(t) else SkipSlashes(p) + t
  {
    if t == [] {
      assert p + t == p && SkipSlashes(p) + t == SkipSlashes(p);
    } else {
      SkipAppended(p, t);
    }
  }

  lemma NameAny(q: string, t: string)
    requires t == [] || t[0] == '/'
    ensures FirstName(q + t) == FirstName(q)
  {
    if t == [] {
      assert q + t == q;
    } else {
      NameAppended(q, t);
    }
  }
}
