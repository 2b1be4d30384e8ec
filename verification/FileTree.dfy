/** The directory tree of vfs.cpp as a map from paths to file types, and `createFile`
    and `getFile` on it. `Vfs` ties its nodes and parent pointers to this map. */
module FileTree {
  import opened PathScanner
  import opened Optional

  const DIRECTORY := 2
  const FILE := 3

  type Path = seq<string>

  /** The type of the node at each path; the mount root is at `[]`. */
  type Files = map<Path, int>

  /** The parent; the root is its own. */
  function Up(p: Path): Path {
    if p == [] then [] else p[..|p| - 1]
  }

  predicate IsDirectory(files: Files, p: Path) {
    p in files && (p == [] || files[p] == DIRECTORY)
  }

  predicate WellFormed(files: Files) {
    && [] in files
    && forall p :: p in files && p != [] ==>
         IsDirectory(files, Up(p)) && (files[p] == DIRECTORY || files[p] == FILE)
  }

  /** No node is called `.` or `..`, or by something the scanner does not read as a name. */
  predicate PlainName(name: string) {
    IsName(name) && name != "." && name != ".."
  }

  predicate AllPlain(p: Path) {
    forall i :: 0 <= i < |p| ==> PlainName(p[i])
  }

  predicate PlainNames(files: Files) {
    forall p :: p in files ==> AllPlain(p)
  }

  // ---------------------------------------------------------------- createFile

  function Create(files: Files, cwd: Path, kind: int, branches: seq<string>): (Files, bool)
    decreases |branches|
  {
    if branches == [] then (files, true)
    else if branches[0] == ".." then Create(files, Up(cwd), kind, branches[1..])
    else if branches[0] == "." then Create(files, cwd, kind, branches[1..])
    else
      var p := cwd + [branches[0]];
      if p in files then
        if files[p] != DIRECTORY then (files, false) else Create(files, p, kind, branches[1..])
      else if kind != DIRECTORY && kind != FILE then (files, false)
      else if |branches| != 1 then (files, false)
      else (files[p := kind], true)
  }

  /** `Create` in terms of the component at `x`. */
  lemma CreateStep(files: Files, cwd: Path, kind: int, branches: seq<string>, x: nat)
    requires x < |branches|
    ensures var b := branches[x];
            var p := cwd + [b];
            Create(files, cwd, kind, branches[x..]) ==
              if b == ".." then Create(files, Up(cwd), kind, branches[x + 1..])
              else if b == "." then Create(files, cwd, kind, branches[x + 1..])
              else if p in files then
                if files[p] != DIRECTORY then (files, false) else Create(files, p, kind, branches[x + 1..])
              else if kind != DIRECTORY && kind != FILE then (files, false)
              else if x + 1 != |branches| then (files, false)
              else (files[p := kind], true)
  {
    assert branches[x..][1..] == branches[x + 1..];
  }

  lemma CreateNothing(files: Files, cwd: Path, kind: int, branches: seq<string>)
    requires branches == []
    ensures Create(files, cwd, kind, branches) == (files, true)
  {
  }

  /** One component, not `.` or `..`: a directory (2) or plain file (3) is created if the
      name is free; a directory of that name will do whatever the type. */
  lemma CreateOne(files: Files, cwd: Path, kind: int, name: string)
    requires name != "." && name != ".."
    ensures var p := cwd + [name];
            Create(files, cwd, kind, [name]) ==
              if p in files then (files, files[p] == 2)
              else if kind == 2 || kind == 3 then (files[p := kind], true)
              else (files, false)
  {
    assert [name][1..] == [];
  }

  /** Two components: the first must be a directory, `..` goes up and `.` nowhere. */
  lemma CreateTwo(files: Files, cwd: Path, kind: int, first: string, name: string)
    ensures Create(files, cwd, kind, [first, name]) ==
              if first == ".." then Create(files, if cwd == [] then [] else cwd[..|cwd| - 1], kind, [name])
              else if first == "." then Create(files, cwd, kind, [name])
              else if cwd + [first] in files && files[cwd + [first]] == 2
              then Create(files, cwd + [first], kind, [name])
              else (files, false)
  {
    assert [first, name][1..] == [name];
  }

  /** Where a path leads: through directories only, and to a node of any type. */
  function Resolve(files: Files, cwd: Path, branches: seq<string>): Option<Path>
    decreases |branches|
  {
    if branches == [] then Some(cwd)
    else if branches[0] == ".." then Resolve(files, Up(cwd), branches[1..])
    else if branches[0] == "." then Resolve(files, cwd, branches[1..])
    else
      var p := cwd + [branches[0]];
      if p !in files then None
      else if files[p] == DIRECTORY then Resolve(files, p, branches[1..])
      else if |branches| == 1 then Some(p)
      else None
  }

  /** The path `branches` asks to create, when only its last component is missing. */
  function Missing(files: Files, cwd: Path, branches: seq<string>): Option<Path>
    decreases |branches|
  {
    if branches == [] then None
    else if branches[0] == ".." then Missing(files, Up(cwd), branches[1..])
    else if branches[0] == "." then Missing(files, cwd, branches[1..])
    else
      var p := cwd + [branches[0]];
      if p in files then if files[p] == DIRECTORY then Missing(files, p, branches[1..]) else None
      else if |branches| == 1 then Some(p)
      else None
  }

  /** `created` is a success exactly when the path leads to the directory `target`, or when
      only the node `missing` is missing and the type is one that can be created. Then that
      one node is added; otherwise nothing changes. */
  predicate Outcome(files: Files, kind: int, created: (Files, bool), target: Option<Path>, missing: Option<Path>) {
    var (after, ok) := created;
    && (ok <==> (target.Some? && IsDirectory(files, target.value))
                || (missing.Some? && (kind == DIRECTORY || kind == FILE)))
    && (missing.Some? ==>
          target.None? && missing.value !in files && missing.value != [] && IsDirectory(files, Up(missing.value)))
    && after == if ok && missing.Some? then files[missing.value := kind] else files
  }

  /** The outcome of every call, for every tree, path and type. */
  lemma {:induction false} CreateOutcome(files: Files, cwd: Path, kind: int, branches: seq<string>)
    requires WellFormed(files) && IsDirectory(files, cwd)
    ensures Outcome(files, kind, Create(files, cwd, kind, branches), Resolve(files, cwd, branches),
                    Missing(files, cwd, branches))
    decreases |branches|
  {
    if branches != [] {
      var p := cwd + [branches[0]];
      Neighbours(files, cwd, branches[0]);
      hide WellFormed, IsDirectory, Up;
      if branches[0] == ".." {
        hide Outcome;
        CreateOutcome(files, Up(cwd), kind, branches[1..]);
      } else if branches[0] == "." {
        hide Outcome;
        CreateOutcome(files, cwd, kind, branches[1..]);
      } else if p in files && files[p] == DIRECTORY {
        hide Outcome;
        CreateOutcome(files, p, kind, branches[1..]);
      }
    }
  }

  /** The directories one component away. */
  lemma Neighbours(files: Files, cwd: Path, name: string)
    requires WellFormed(files) && IsDirectory(files, cwd)
    ensures IsDirectory(files, Up(cwd))
    ensures var p := cwd + [name];
            p != [] && Up(p) == cwd && (IsDirectory(files, p) <==> p in files && files[p] == DIRECTORY)
  {
  }

  /** A call leaves a well-formed tree well formed and adds at most one node. */
  lemma CreateKeepsWellFormed(files: Files, kind: int, branches: seq<string>)
    requires WellFormed(files)
    ensures var (after, ok) := Create(files, [], kind, branches);
            && WellFormed(after)
            && (!ok ==> after == files)
            && |after| <= |files| + 1
            && (forall p :: p in files ==> p in after && after[p] == files[p])
  {
    CreateOutcome(files, [], kind, branches);
    var after := Create(files, [], kind, branches).0;
    var missing := Missing(files, [], branches);
    forall p | p in after && p != []
      ensures IsDirectory(after, Up(p)) && (after[p] == DIRECTORY || after[p] == FILE)
    {
      if p in files {
        assert IsDirectory(files, Up(p));
      } else {
        assert missing.Some? && p == missing.value && after[p] == kind;
        assert IsDirectory(files, Up(p));
      }
    }
  }

  /** Paths made of plain names keep the tree's names plain. */
  lemma {:induction false} MissingIsPlain(files: Files, cwd: Path, branches: seq<string>)
    requires forall i :: 0 <= i < |branches| ==> IsName(branches[i])
    requires AllPlain(cwd)
    ensures Missing(files, cwd, branches).Some? ==> AllPlain(Missing(files, cwd, branches).value)
    decreases |branches|
  {
    if branches != [] {
      var p := cwd + [branches[0]];
      assert branches[0] != "." && branches[0] != ".." ==> AllPlain(p);
      if branches[0] == ".." {
        MissingIsPlain(files, Up(cwd), branches[1..]);
      } else if branches[0] == "." {
        MissingIsPlain(files, cwd, branches[1..]);
      } else if p in files && files[p] == DIRECTORY {
        MissingIsPlain(files, p, branches[1..]);
      }
    }
  }

  lemma CreateKeepsPlainNames(files: Files, kind: int, branches: seq<string>)
    requires WellFormed(files) && PlainNames(files)
    requires forall i :: 0 <= i < |branches| ==> IsName(branches[i])
    ensures PlainNames(Create(files, [], kind, branches).0)
  {
    CreateOutcome(files, [], kind, branches);
    MissingIsPlain(files, [], branches);
  }

  /** What led somewhere still leads there after any creation. */
  lemma {:induction false} ResolveKept(files: Files, cwd: Path, branches: seq<string>, p: Path, kind: int)
    requires p !in files && Resolve(files, cwd, branches).Some?
    ensures Resolve(files[p := kind], cwd, branches) == Resolve(files, cwd, branches)
    decreases |branches|
  {
    if branches != [] {
      if branches[0] == ".." {
        ResolveKept(files, Up(cwd), branches[1..], p, kind);
      } else if branches[0] == "." {
        ResolveKept(files, cwd, branches[1..], p, kind);
      } else if files[cwd + [branches[0]]] == DIRECTORY {
        ResolveKept(files, cwd + [branches[0]], branches[1..], p, kind);
      }
    }
  }

  /** After creating it, the missing path leads to the new node. */
  lemma {:induction false} CreatedResolves(files: Files, cwd: Path, branches: seq<string>, kind: int)
    requires Missing(files, cwd, branches).Some?
    ensures var p := Missing(files, cwd, branches).value;
            Resolve(files[p := kind], cwd, branches) == Some(p)
    decreases |branches|
  {
    var p := Missing(files, cwd, branches).value;
    var q := cwd + [branches[0]];
    MissingNotThere(files, cwd, branches);
    if branches[0] == ".." {
      CreatedResolves(files, Up(cwd), branches[1..], kind);
    } else if branches[0] == "." {
      CreatedResolves(files, cwd, branches[1..], kind);
    } else if q in files {
      CreatedResolves(files, q, branches[1..], kind);
    } else {
      assert branches[1..] == [];
    }
  }

  lemma {:induction false} MissingNotThere(files: Files, cwd: Path, branches: seq<string>)
    requires Missing(files, cwd, branches).Some?
    ensures Missing(files, cwd, branches).value !in files
    decreases |branches|
  {
    if branches[0] == ".." {
      MissingNotThere(files, Up(cwd), branches[1..]);
    } else if branches[0] == "." {
      MissingNotThere(files, cwd, branches[1..]);
    } else if cwd + [branches[0]] in files {
      MissingNotThere(files, cwd + [branches[0]], branches[1..]);
    }
  }

  /** A successful call makes its path lead somewhere, and leaves every path that led
      somewhere leading there. */
  lemma CreateThenResolve(files: Files, kind: int, branches: seq<string>, other: seq<string>)
    requires WellFormed(files)
    ensures var (after, ok) := Create(files, [], kind, branches);
            && (ok ==> Resolve(after, [], branches).Some?)
            && (Resolve(files, [], other).Some? ==> Resolve(after, [], other) == Resolve(files, [], other))
  {
    CreateOutcome(files, [], kind, branches);
    var missing := Missing(files, [], branches);
    if missing.Some? {
      CreatedResolves(files, [], branches, kind);
      if Resolve(files, [], other).Some? {
        ResolveKept(files, [], other, missing.value, kind);
      }
    }
  }

  // ---------------------------------------------------------------- getFile

  /** The state of the `getFile` loop: the directory `root` points to, and the strings
      `currentPath` and `oldPath`. */
  datatype Walk = Walk(cwd: Path, current: string, older: seq<string>)

  const START := Walk([], "", [])

  function Follow(files: Files, w: Walk, branch: string): Option<Walk> {
    if branch == ".." then
      if w.older != [] then Some(Walk(Up(w.cwd), w.older[|w.older| - 1], w.older[..|w.older| - 1]))
      else Some(Walk(Up(w.cwd), w.current, w.older))
    else if branch == "." then Some(w)
    else
      var p := w.cwd + [branch];
      if p !in files then None
      else if files[p] == DIRECTORY then Some(Walk(p, w.current + branch + "/", w.older + [w.current]))
      else Some(Walk(w.cwd, w.current + branch, w.older + [w.current]))
  }

  function FollowAll(files: Files, w: Walk, branches: seq<string>): Option<Walk>
    decreases |branches|
  {
    if branches == [] then Some(w)
    else
      var next := Follow(files, w, branches[0]);
      if next.None? then None else FollowAll(files, next.value, branches[1..])
  }

  /** The string `getFile` returns. */
  function Get(files: Files, branches: seq<string>): string {
    match FollowAll(files, START, branches)
    case None => ""
    case Some(w) => w.current
  }

  /** `FollowAll` in terms of the component at `x`. */
  lemma FollowAllStep(files: Files, w: Walk, branches: seq<string>, x: nat)
    requires x < |branches|
    ensures var b := branches[x];
            var p := w.cwd + [b];
            FollowAll(files, w, branches[x..]) ==
              if b == ".." then
                if |w.older| != 0
                then FollowAll(files, Walk(Up(w.cwd), w.older[|w.older| - 1], w.older[..|w.older| - 1]),
                               branches[x + 1..])
                else FollowAll(files, Walk(Up(w.cwd), w.current, w.older), branches[x + 1..])
              else if b == "." then FollowAll(files, w, branches[x + 1..])
              else if p !in files then None
              else if files[p] == DIRECTORY
              then FollowAll(files, Walk(p, w.current + b + "/", w.older + [w.current]), branches[x + 1..])
              else FollowAll(files, Walk(w.cwd, w.current + b, w.older + [w.current]), branches[x + 1..])
  {
    assert branches[x..][1..] == branches[x + 1..];
  }

  lemma WalkStarts()
    ensures START == Walk([], "", [])
  {
  }

  lemma GetNone(files: Files, branches: seq<string>)
    requires FollowAll(files, START, branches) == None
    ensures Get(files, branches) == ""
  {
  }

  lemma GetEnd(files: Files, w: Walk, branches: seq<string>, rest: seq<string>)
    requires FollowAll(files, START, branches) == FollowAll(files, w, rest) && rest == []
    ensures Get(files, branches) == w.current
  {
  }

  /** A directory path as `getFile` prints it. */
  function Render(p: Path): string {
    if p == [] then "" else Render(p[..|p| - 1]) + p[|p| - 1] + "/"
  }

  /** The printed paths of the proper ancestors, root first. */
  function Ancestors(p: Path): seq<string> {
    if p == [] then [] else Ancestors(p[..|p| - 1]) + [Render(p[..|p| - 1])]
  }

  /** The strings agree with the directory: `currentPath` is its path from the mount
      root, `oldPath` the paths of its proper ancestors in order. */
  predicate Agrees(w: Walk) {
    w.current == Render(w.cwd) && w.older == Ancestors(w.cwd)
  }

  /** The component names a plain file of the current directory. */
  predicate NamesPlainFile(files: Files, w: Walk, branch: string) {
    branch != "." && branch != ".." && w.cwd + [branch] in files && files[w.cwd + [branch]] != DIRECTORY
  }

  /** The walk agrees before every component and at its end. */
  predicate AgreesThroughout(files: Files, w: Walk, branches: seq<string>)
    decreases |branches|
  {
    && Agrees(w)
    && (branches != [] && Follow(files, w, branches[0]).Some? ==>
          AgreesThroughout(files, Follow(files, w, branches[0]).value, branches[1..]))
  }

  /** No component the walk reaches names a plain file. */
  predicate MeetsNoPlainFile(files: Files, w: Walk, branches: seq<string>)
    decreases |branches|
  {
    branches != [] ==>
      && !NamesPlainFile(files, w, branches[0])
      && (Follow(files, w, branches[0]).Some? ==>
            MeetsNoPlainFile(files, Follow(files, w, branches[0]).value, branches[1..]))
  }

  lemma RenderStep(p: Path, name: string)
    ensures Render(p + [name]) == Render(p) + name + "/"
    ensures Ancestors(p + [name]) == Ancestors(p) + [Render(p)]
    ensures Up(p + [name]) == p
  {
    assert (p + [name])[..|p + [name]| - 1] == p;
  }

  /** One component keeps the agreement exactly when it does not name a plain file. At
      the root `..` changes nothing. */
  lemma FollowAgrees(files: Files, w: Walk, branch: string)
    requires Agrees(w) && branch != "" && Follow(files, w, branch).Some?
    ensures Agrees(Follow(files, w, branch).value) <==> !NamesPlainFile(files, w, branch)
    ensures w.cwd == [] && branch == ".." ==> Follow(files, w, branch) == Some(w)
  {
    if branch == ".." {
    } else if branch != "." {
      RenderStep(w.cwd, branch);
      assert |w.current + branch| != |w.current|;
    }
  }

  /** The string stack and the parent pointers agree all along the walk exactly when no
      component names a plain file. */
  lemma {:induction false} AgreesIffNoPlainFile(files: Files, w: Walk, branches: seq<string>)
    requires Agrees(w) && forall i :: 0 <= i < |branches| ==> branches[i] != ""
    ensures AgreesThroughout(files, w, branches) <==> MeetsNoPlainFile(files, w, branches)
    decreases |branches|
  {
    if branches != [] && Follow(files, w, branches[0]).Some? {
      FollowAgrees(files, w, branches[0]);
      if !NamesPlainFile(files, w, branches[0]) {
        AgreesIffNoPlainFile(files, Follow(files, w, branches[0]).value, branches[1..]);
      }
    }
  }

  /** A directory (2) of the root prints with a slash, a plain file without; `.` and `..`
      at the root print nothing. */
  lemma GetOne(files: Files, name: string)
    ensures Get(files, [name]) ==
              if name == "." || name == ".." || [name] !in files then ""
              else if files[[name]] == 2 then name + "/" else name
  {
    assert [name][1..] == [] && START.cwd + [name] == [name] && Up(START.cwd) == START.cwd;
    assert START.current + name + "/" == name + "/" && START.current + name == name;
    var next := Follow(files, START, name);
    assert FollowAll(files, START, [name]) == if next.None? then None else FollowAll(files, next.value, []);
  }

  /** In the middle of a path a plain file is not refused: a second plain file of the
      same directory is found after it, and the two names run together. */
  lemma PlainFileMidPath(files: Files, f: string, g: string)
    requires NamesPlainFile(files, START, f) && NamesPlainFile(files, START, g)
    ensures Get(files, [f, g]) == f + g
    ensures Resolve(files, [], [f, g]) == None
  {
    assert [f, g][1..] == [g];
    var w := Walk([], START.current + f, START.older + [START.current]);
    assert Follow(files, START, f) == Some(w);
    assert FollowAll(files, w, [g]) == Follow(files, w, g);
    assert START.current + f == f;
  }

  // ---------------------------------------------------------------- plain files in mid-path

  /** On its way the path comes to a plain file that is not its last component. */
  predicate PassesFile(files: Files, cwd: Path, branches: seq<string>)
    decreases |branches|
  {
    branches != [] &&
      if branches[0] == ".." then PassesFile(files, Up(cwd), branches[1..])
      else if branches[0] == "." then PassesFile(files, cwd, branches[1..])
      else
        var p := cwd + [branches[0]];
        && p in files
        && if files[p] == DIRECTORY then PassesFile(files, p, branches[1..]) else |branches| > 1
  }

  /** The directory a path leads to when plain files on it count for nothing, like `.` */
  function Erased(files: Files, cwd: Path, branches: seq<string>): Option<Path>
    decreases |branches|
  {
    if branches == [] then Some(cwd)
    else if branches[0] == ".." then Erased(files, Up(cwd), branches[1..])
    else if branches[0] == "." then Erased(files, cwd, branches[1..])
    else
      var p := cwd + [branches[0]];
      if p !in files then None else Erased(files, if files[p] == DIRECTORY then p else cwd, branches[1..])
  }

  /** Names less the `..` that undo them, from `n` on. */
  function Depth(branches: seq<string>, n: nat): nat
    decreases |branches|
  {
    if branches == [] then n
    else if branches[0] == ".." then Depth(branches[1..], if n == 0 then 0 else n - 1)
    else if branches[0] == "." then Depth(branches[1..], n)
    else Depth(branches[1..], n + 1)
  }

  /** The walk goes on exactly as long as the path leads somewhere with plain files left
      out, and its directory is the one the path then leads to. */
  lemma {:induction false} WalkIsErased(files: Files, w: Walk, branches: seq<string>)
    ensures var end := FollowAll(files, w, branches);
            var target := Erased(files, w.cwd, branches);
            && (end.Some? <==> target.Some?)
            && (end.Some? ==> end.value.cwd == target.value && |end.value.older| == Depth(branches, |w.older|))
    decreases |branches|
  {
    if branches != [] {
      var next := Follow(files, w, branches[0]);
      if next.Some? {
        WalkIsErased(files, next.value, branches[1..]);
      }
    }
  }

  lemma {:induction false} ErasedIsResolve(files: Files, cwd: Path, branches: seq<string>)
    ensures PassesFile(files, cwd, branches) ==> Resolve(files, cwd, branches).None?
    ensures !PassesFile(files, cwd, branches) ==>
              (Erased(files, cwd, branches).Some? <==> Resolve(files, cwd, branches).Some?)
    decreases |branches|
  {
    if branches != [] {
      var p := cwd + [branches[0]];
      if branches[0] == ".." {
        ErasedIsResolve(files, Up(cwd), branches[1..]);
      } else if branches[0] == "." {
        ErasedIsResolve(files, cwd, branches[1..]);
      } else if p in files && files[p] == DIRECTORY {
        ErasedIsResolve(files, p, branches[1..]);
      } else if p in files && |branches| == 1 {
        assert branches[1..] == [];
      }
    }
  }

  /** The walk accepts exactly the paths that lead somewhere, except for those that pass a
      plain file and lead somewhere without it. */
  lemma AcceptIff(files: Files, w: Walk, branches: seq<string>)
    ensures (FollowAll(files, w, branches).Some? <==> Resolve(files, w.cwd, branches).Some?)
            <==> !(PassesFile(files, w.cwd, branches) && Erased(files, w.cwd, branches).Some?)
  {
    WalkIsErased(files, w, branches);
    ErasedIsResolve(files, w.cwd, branches);
  }

  /** The root's string alone is empty. */
  predicate OnlyRootEmpty(w: Walk) {
    && (w.current == "" <==> w.older == [])
    && (forall i :: 0 <= i < |w.older| ==> (w.older[i] == "" <==> i == 0))
  }

  lemma {:induction false} OnlyRootStaysEmpty(files: Files, w: Walk, branches: seq<string>)
    requires OnlyRootEmpty(w) && forall i :: 0 <= i < |branches| ==> branches[i] != ""
    requires FollowAll(files, w, branches).Some?
    ensures OnlyRootEmpty(FollowAll(files, w, branches).value)
    decreases |branches|
  {
    if branches != [] {
      var next := Follow(files, w, branches[0]).value;
      if branches[0] != ".." && branches[0] != "." {
        assert next.current != "" && next.older == w.older + [w.current];
      }
      OnlyRootStaysEmpty(files, next, branches[1..]);
    }
  }

  // ---------------------------------------------------------------- canonical paths

  /** A path as `getFile` prints it: no trailing slash on a plain file. */
  function PathString(p: Path, directory: bool): string {
    if directory || p == [] then Render(p) else Render(Up(p)) + p[|p| - 1]
  }

  /** A node's path as `getFile` prints it. */
  function RenderNode(files: Files, p: Path): string {
    PathString(p, IsDirectory(files, p))
  }

  /** The printed path of the node the query leads to, or nothing. */
  function Canonical(files: Files, branches: seq<string>): string {
    match Resolve(files, [], branches)
    case None => ""
    case Some(p) => RenderNode(files, p)
  }

  /** When no plain file is passed the walk ends where the path leads, and its string is
      that node's canonical path; it fails exactly when the path leads nowhere. */
  lemma {:induction false} WalkIsResolve(files: Files, w: Walk, branches: seq<string>)
    requires WellFormed(files) && IsDirectory(files, w.cwd) && Agrees(w)
    requires !PassesFile(files, w.cwd, branches)
    ensures var target := Resolve(files, w.cwd, branches);
            var end := FollowAll(files, w, branches);
            if target.None? then end.None?
            else target.value in files && end.Some? && end.value.current == RenderNode(files, target.value)
    decreases |branches|
  {
    if branches != [] {
      var p := w.cwd + [branches[0]];
      var next := Follow(files, w, branches[0]);
      RenderStep(w.cwd, branches[0]);
      if NamesPlainFile(files, w, branches[0]) {
        assert branches[1..] == [];
      } else if next.Some? {
        WalkIsResolve(files, next.value, branches[1..]);
      }
    }
  }

  /** The names of plain files on the way stay in the string. */
  predicate RunsTogether(files: Files, branches: seq<string>) {
    PassesFile(files, [], branches) && Erased(files, [], branches).Some? && Depth(branches, 0) > 0
  }

  /** The result is the canonical path of the node the query leads to, or empty if it
      leads nowhere, exactly when no names run together. */
  lemma GetIsCanonicalIff(files: Files, branches: seq<string>)
    requires WellFormed(files) && forall i :: 0 <= i < |branches| ==> branches[i] != ""
    ensures Get(files, branches) == Canonical(files, branches) <==> !RunsTogether(files, branches)
  {
    ErasedIsResolve(files, [], branches);
    WalkIsErased(files, START, branches);
    if !PassesFile(files, [], branches) {
      WalkIsResolve(files, START, branches);
    } else if FollowAll(files, START, branches).Some? {
      OnlyRootStaysEmpty(files, START, branches);
    }
  }

  /** Up to its last component a prefix of `p` is a directory of the tree. */
  lemma {:induction false} PrefixInTree(files: Files, p: Path, k: nat)
    requires WellFormed(files) && p in files && k < |p|
    ensures IsDirectory(files, p[..k])
    decreases |p|
  {
    assert Up(p) == p[..|p| - 1];
    if k < |p| - 1 {
      PrefixInTree(files, Up(p), k);
      assert Up(p)[..k] == p[..k];
    }
  }

  /** One component further along a node's own path. */
  lemma OwnPathStep(files: Files, p: Path, k: nat)
    requires WellFormed(files) && p in files && k < |p| && AllPlain(p)
    ensures p[k..][0] == p[k] && p[k..][1..] == p[k + 1..]
    ensures p[k] != "." && p[k] != ".."
    ensures p[..k] + [p[k]] == p[..k + 1] && p[..k + 1] in files
    ensures k + 1 < |p| ==> files[p[..k + 1]] == DIRECTORY
    ensures k + 1 == |p| ==> p[..k + 1] == p
  {
    hide WellFormed, IsName, IsDirectory;
    assert PlainName(p[k]);
    if k + 1 < |p| {
      PrefixIsDirectory(files, p, k + 1);
    } else {
      assert p[..k + 1] == p;
    }
  }

  lemma PrefixIsDirectory(files: Files, p: Path, k: nat)
    requires WellFormed(files) && p in files && 0 < k < |p|
    ensures p[..k] in files && files[p[..k]] == DIRECTORY
  {
    PrefixInTree(files, p, k);
  }

  /** The components of a node's path lead to that node. */
  lemma {:induction false} OwnPathResolves(files: Files, p: Path, k: nat)
    requires WellFormed(files) && p in files && k <= |p| && AllPlain(p)
    ensures Resolve(files, p[..k], p[k..]) == Some(p)
    decreases |p| - k
  {
    if k < |p| {
      OwnPathStep(files, p, k);
      if k + 1 < |p| || files[p] == DIRECTORY {
        OwnPathResolves(files, p, k + 1);
      }
    } else {
      assert p[..k] == p && p[k..] == [];
    }
  }

  /** One slash after each name, and after the last one only for a directory. */
  function SlashesOf(p: Path, directory: bool): (r: seq<nat>)
    ensures |r| == |p|
  {
    seq(|p|, i requires 0 <= i < |p| => if i < |p| - 1 || directory then 1 else 0)
  }

  lemma {:induction false} PrintEnd(names: seq<string>, slashes: seq<nat>, name: string, n: nat)
    requires |names| == |slashes|
    ensures Print(names + [name], slashes + [n]) == Print(names, slashes) + name + Slashes(n)
    decreases |names|
  {
    if names == [] {
      assert names + [name] == [name] && slashes + [n] == [n];
      assert Print([name], [n]) == name + Slashes(n) + Print([name][1..], [n][1..]);
    } else {
      assert (names + [name])[1..] == names[1..] + [name];
      assert (slashes + [n])[1..] == slashes[1..] + [n];
      PrintEnd(names[1..], slashes[1..], name, n);
    }
  }

  lemma {:induction false} RenderIsPrint(p: Path)
    ensures Render(p) == Print(p, SlashesOf(p, true))
    decreases |p|
  {
    if p != [] {
      var q := p[..|p| - 1];
      RenderIsPrint(q);
      PrintEnd(q, SlashesOf(q, true), p[|p| - 1], 1);
      assert q + [p[|p| - 1]] == p && SlashesOf(q, true) + [1] == SlashesOf(p, true);
      assert Slashes(1) == "/";
    }
  }

  lemma ParseDirectory(p: Path)
    requires p != [] && AllPlain(p)
    ensures Branches(Render(p)) == p
  {
    hide Branches, Print, Render, IsName, Slashes;
    assert forall i :: 0 <= i < |p| ==> PlainName(p[i]);
    RenderIsPrint(p);
    ParsePrint(p, SlashesOf(p, true));
  }

  lemma ParsePlainFile(q: Path, name: string)
    requires AllPlain(q) && PlainName(name)
    ensures Branches(Render(q) + name) == q + [name]
  {
    hide Branches, Print, Render, IsName, Slashes;
    var p, slashes := q + [name], SlashesOf(q, true) + [0];
    assert forall i :: 0 <= i < |p| ==> PlainName(p[i]);
    RenderIsPrint(q);
    PrintEnd(q, SlashesOf(q, true), name, 0);
    assert Slashes(0) == "";
    assert Render(q) + name + "" == Render(q) + name;
    ParsePrint(p, slashes);
  }

  /** Parsing a printed path gives back its components. */
  lemma ParseRendered(p: Path, directory: bool)
    requires AllPlain(p)
    ensures Branches(PathString(p, directory)) == p
  {
    hide Branches, Render, AllPlain, PlainName;
    if p == [] {
      ParseRoot();
    } else if directory {
      ParseDirectory(p);
    } else {
      ComponentsPlain(p);
      ParsePlainFile(Up(p), p[|p| - 1]);
      assert Up(p) + [p[|p| - 1]] == p;
    }
  }

  lemma ComponentsPlain(p: Path)
    requires p != [] && AllPlain(p)
    ensures AllPlain(Up(p)) && PlainName(p[|p| - 1])
  {
  }

  lemma ParseRoot()
    ensures Branches(Render([])) == []
  {
    BranchesOfNothing();
  }

  // ---------------------------------------------------------------- every result is printed

  /** `s` prints a path of plain names. */
  ghost predicate Printed(s: string) {
    exists p, directory :: AllPlain(p) && s == PathString(p, directory)
  }

  /** Two names run together are a name. */
  lemma PlainConcat(f: string, g: string)
    requires PlainName(f) && PlainName(g)
    ensures PlainName(f + g)
  {
    assert (f + g)[0] == f[0] && (f + g)[|f|] == g[0];
    assert f + g == ".." ==> f == ".";
  }

  /** The path that is printed once `name` follows: a component of its own after a slash,
      else the end of the last one. */
  function Extended(p: Path, directory: bool, name: string): Path {
    if directory || p == [] then p + [name] else Up(p) + [p[|p| - 1] + name]
  }

  lemma ExtendedPrints(p: Path, directory: bool, name: string)
    requires AllPlain(p) && PlainName(name)
    ensures var q := Extended(p, directory, name);
            && AllPlain(q)
            && PathString(q, false) == PathString(p, directory) + name
            && PathString(q, true) == PathString(p, directory) + name + "/"
  {
    hide PlainName;
    if directory || p == [] {
      RenderStep(p, name);
    } else {
      var last := p[|p| - 1];
      ComponentsPlain(p);
      PlainConcat(last, name);
      RenderStep(Up(p), last + name);
      assert Render(Up(p)) + (last + name) == Render(Up(p)) + last + name;
    }
  }

  ghost predicate AllPrinted(w: Walk) {
    Printed(w.current) && forall i :: 0 <= i < |w.older| ==> Printed(w.older[i])
  }

  lemma FollowPrints(files: Files, w: Walk, branch: string)
    requires PlainNames(files) && AllPrinted(w) && Follow(files, w, branch).Some?
    ensures AllPrinted(Follow(files, w, branch).value)
  {
    if branch != ".." && branch != "." {
      hide PathString, PlainName;
      var q := w.cwd + [branch];
      assert q in files && q[|q| - 1] == branch && AllPlain(q);
      var p, directory :| AllPlain(p) && w.current == PathString(p, directory);
      ExtendedPrints(p, directory, branch);
    }
  }

  lemma {:induction false} WalkPrints(files: Files, w: Walk, branches: seq<string>)
    requires PlainNames(files) && AllPrinted(w) && FollowAll(files, w, branches).Some?
    ensures AllPrinted(FollowAll(files, w, branches).value)
    decreases |branches|
  {
    hide PlainNames, AllPrinted, Follow;
    if branches != [] {
      FollowPrints(files, w, branches[0]);
      WalkPrints(files, Follow(files, w, branches[0]).value, branches[1..]);
    }
  }

  lemma StartPrinted()
    ensures AllPrinted(START) && Printed("")
  {
    assert AllPlain([]) && PathString([], true) == "";
  }

  /** Whatever the query, no component of the result is `.` or `..` */
  lemma ResultIsPlain(files: Files, branches: seq<string>)
    requires PlainNames(files)
    ensures Printed(Get(files, branches)) && AllPlain(Branches(Get(files, branches)))
  {
    hide PlainNames, FollowAll, Branches, PathString, AllPlain;
    StartPrinted();
    if FollowAll(files, START, branches).Some? {
      WalkPrints(files, START, branches);
    }
    var p, directory :| AllPlain(p) && Get(files, branches) == PathString(p, directory);
    ParseRendered(p, directory);
  }

  // ---------------------------------------------------------------- asking again

  /** A walk along plain names from a printed path prints one component for each, and
      fewer when it passes a plain file. */
  lemma {:induction false} WalkMerges(files: Files, w: Walk, branches: seq<string>, p: Path, directory: bool)
      returns (q: Path, onDirectory: bool)
    requires AllPlain(p) && w.current == PathString(p, directory) && AllPlain(branches)
    requires FollowAll(files, w, branches).Some?
    ensures AllPlain(q) && FollowAll(files, w, branches).value.current == PathString(q, onDirectory)
    ensures |q| <= |p| + |branches|
    ensures PassesFile(files, w.cwd, branches) || (branches != [] && !directory && p != []) ==>
              |q| < |p| + |branches|
    decreases |branches|
  {
    hide PathString, IsName;
    if branches == [] {
      return p, directory;
    }
    assert PlainName(branches[0]);
    var next := Follow(files, w, branches[0]).value;
    var r := w.cwd + [branches[0]];
    ExtendedPrints(p, directory, branches[0]);
    q, onDirectory :=
      WalkMerges(files, next, branches[1..], Extended(p, directory, branches[0]), files[r] == DIRECTORY);
  }

  /** A path of plain names that leads somewhere names the node it leads to. */
  lemma {:induction false} PlainResolves(files: Files, cwd: Path, branches: seq<string>)
    requires AllPlain(branches)
    ensures var target := Resolve(files, cwd, branches); target.Some? ==> target.value == cwd + branches
    decreases |branches|
  {
    if branches != [] {
      hide IsName;
      assert PlainName(branches[0]);
      var p := cwd + [branches[0]];
      PlainResolves(files, p, branches[1..]);
      assert p + branches[1..] == cwd + branches;
      assert |branches| == 1 ==> branches[1..] == [];
    }
  }

  lemma OwnPathCanonical(files: Files, p: Path)
    requires WellFormed(files) && p in files && AllPlain(p)
    ensures Resolve(files, [], p) == Some(p) && Get(files, p) == RenderNode(files, p)
  {
    assert p[..0] == [] && p[0..] == p;
    OwnPathResolves(files, p, 0);
    ErasedIsResolve(files, [], p);
    WalkIsResolve(files, START, p);
  }

  /** Asking for a printed path gives it back exactly when it is the printed path of a
      node. */
  lemma GetAgainIff(files: Files, r: string)
    requires WellFormed(files) && Printed(r)
    ensures Get(files, Branches(r)) == r <==> Branches(r) in files && r == RenderNode(files, Branches(r))
  {
    hide Branches, RenderNode, PathString, AllPlain, WellFormed, FollowAll, PassesFile, Resolve;
    var p, directory :| AllPlain(p) && r == PathString(p, directory);
    ParseRendered(p, directory);
    if p in files {
      OwnPathCanonical(files, p);
    } else {
      NotANode(files, p, directory);
    }
  }

  lemma NotANode(files: Files, p: Path, directory: bool)
    requires WellFormed(files) && AllPlain(p) && p !in files
    ensures Get(files, p) != PathString(p, directory)
  {
    hide Branches, AllPlain, RenderNode, WellFormed, FollowAll, PassesFile, Resolve, PathString;
    assert [] + p == p;
    ParseRendered(p, directory);
    RootInTree(files, p);
    if FollowAll(files, START, p).None? {
      ParseRoot();
      EmptyPrints();
    } else if PassesFile(files, [], p) {
      EmptyPrints();
      var q, onDirectory := WalkMerges(files, START, p, [], true);
      ParseRendered(q, onDirectory);
    } else {
      WalkIsResolve(files, START, p);
      PlainResolves(files, [], p);
    }
  }

  lemma RootInTree(files: Files, p: Path)
    requires WellFormed(files) && p !in files
    ensures p != [] && IsDirectory(files, START.cwd) && Agrees(START)
  {
  }

  lemma EmptyPrints()
    ensures Render([]) == "" == PathString([], true) == START.current && AllPlain([]) && START.cwd == []
  {
  }

  /** `getFile` returns canonical paths. Whatever the query, no component of the result is
      `.` or `..`. The result is the path of the node the query leads to, or empty if it
      leads nowhere, exactly when no names run together; it is then what asking for it
      gives. */
  lemma GetIsCanonical(files: Files, path: string)
    requires WellFormed(files) && PlainNames(files)
    ensures var branches := Branches(path);
            var r := Get(files, branches);
            && AllPlain(Branches(r))
            && (r == Canonical(files, branches) <==> !RunsTogether(files, branches))
            && (r == Canonical(files, branches) ==> Get(files, Branches(r)) == r)
  {
    hide Branches, AllPlain, RenderNode, FollowAll, Resolve, IsName, PathString, PlainNames, RunsTogether;
    var branches := Branches(path);
    BranchesNotEmpty(path);
    ResultIsPlain(files, branches);
    GetIsCanonicalIff(files, branches);
    if Get(files, branches) == Canonical(files, branches) {
      CanonicalAgain(files, branches);
    }
  }

  lemma CanonicalAgain(files: Files, branches: seq<string>)
    requires WellFormed(files) && PlainNames(files)
    ensures var r := Canonical(files, branches); Get(files, Branches(r)) == r
  {
    hide Branches, AllPlain, FollowAll, Resolve, PathString;
    var target := Resolve(files, [], branches);
    if target.None? {
      GetNothing(files);
    } else {
      ResolveInTree(files, [], branches);
      ParseRendered(target.value, IsDirectory(files, target.value));
      OwnPathCanonical(files, target.value);
    }
  }

  lemma {:induction false} ResolveInTree(files: Files, cwd: Path, branches: seq<string>)
    requires WellFormed(files) && IsDirectory(files, cwd)
    ensures Resolve(files, cwd, branches).Some? ==> Resolve(files, cwd, branches).value in files
    decreases |branches|
  {
    if branches != [] {
      var p := cwd + [branches[0]];
      if branches[0] == ".." {
        ResolveInTree(files, Up(cwd), branches[1..]);
      } else if branches[0] == "." {
        ResolveInTree(files, cwd, branches[1..]);
      } else if p in files && files[p] == DIRECTORY {
        ResolveInTree(files, p, branches[1..]);
      }
    }
  }

  // ---------------------------------------------------------------- runs

  datatype CreateCall = CreateCall(kind: int, path: string)

  /** A fresh mount holds its root alone. */
  const MOUNTED: Files := map[[] := 0]

  function CreateAll(files: Files, calls: seq<CreateCall>): Files
    decreases |calls|
  {
    if calls == [] then files else CreateAll(Create(files, [], calls[0].kind, Branches(calls[0].path)).0, calls[1..])
  }

  /** After any calls the tree is well formed, every path that led somewhere still leads
      there, and with relative paths all names stay plain. */
  lemma {:induction false} CreateAllKeeps(files: Files, calls: seq<CreateCall>, other: seq<string>)
    requires WellFormed(files)
    ensures var after := CreateAll(files, calls);
            && WellFormed(after)
            && (PlainNames(files) && (forall i :: 0 <= i < |calls| ==> RelativePath(calls[i].path)) ==>
                  PlainNames(after))
            && (Resolve(files, [], other).Some? ==> Resolve(after, [], other) == Resolve(files, [], other))
    decreases |calls|
  {
    if calls != [] {
      hide Branches, RelativePath, PlainNames, WellFormed, Resolve, Create, IsName;
      var branches := Branches(calls[0].path);
      CreateKeepsWellFormed(files, calls[0].kind, branches);
      CreateThenResolve(files, calls[0].kind, branches, other);
      if PlainNames(files) && RelativePath(calls[0].path) {
        RelativeIff(calls[0].path);
        assert forall i :: 0 <= i < |branches| ==> branches[i] in branches;
        CreateKeepsPlainNames(files, calls[0].kind, branches);
      }
      assert forall i :: 0 <= i < |calls| - 1 ==> calls[1..][i] == calls[i + 1];
      CreateAllKeeps(Create(files, [], calls[0].kind, branches).0, calls[1..], other);
    }
  }

  /** In every state reached from a fresh mount by relative paths, `getFile` is canonical
      exactly when no names run together. */
  lemma ReachableGetIsCanonical(calls: seq<CreateCall>, path: string)
    requires forall i :: 0 <= i < |calls| ==> RelativePath(calls[i].path)
    ensures var files := CreateAll(MOUNTED, calls);
            var branches := Branches(path);
            var r := Get(files, branches);
            && AllPlain(Branches(r))
            && (r == Canonical(files, branches) <==> !RunsTogether(files, branches))
            && (r == Canonical(files, branches) ==> Get(files, Branches(r)) == r)
  {
    hide Branches, Get, Canonical, RunsTogether, CreateAll, IsName, RelativePath;
    MountedIsPlain();
    CreateAllKeeps(MOUNTED, calls, []);
    GetIsCanonical(CreateAll(MOUNTED, calls), path);
  }

  lemma MountedIsPlain()
    ensures WellFormed(MOUNTED) && PlainNames(MOUNTED)
  {
  }

  lemma GetNothing(files: Files)
    ensures Branches("") == [] && Get(files, []) == ""
  {
    BranchesOfNothing();
  }
}
