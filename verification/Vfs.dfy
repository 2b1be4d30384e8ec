/** The directory nodes and parent pointers of vfs.cpp. The ghost field `tree` gives the
    node at each path of the mount `ux0`; `Valid` ties it to the pointers, so that the
    walking methods refine `FileTree`. */
module Vfs {
  import opened PathScanner
  import opened FileTree

  /** An AbstractFile, with the fields of a Directory. Only nodes of type DIRECTORY, and
      mount roots, use `previousDirectory` and `files`. */
  class FileNode {
    var kind: int
    var name: string
    var previousDirectory: FileNode?
    var files: seq<FileNode>

    constructor (kind: int, name: string, previousDirectory: FileNode?)
      ensures this.kind == kind && this.name == name && this.previousDirectory == previousDirectory && files == []
    {
      this.kind, this.name, this.previousDirectory, this.files := kind, name, previousDirectory, [];
    }

    method AddFile(file: FileNode)
      modifies this`files
      ensures files == old(files) + [file]
    {
      files := files + [file];
    }

    /** The first file of that name, or null. */
    method FindFile(wanted: string) returns (file: FileNode?)
      ensures file == null ==> forall i :: 0 <= i < |files| ==> files[i].name != wanted
      ensures file != null ==> file.name == wanted && exists i :: 0 <= i < |files| && files[i] == file
    {
      var i := 0;
      while i < |files|
        invariant 0 <= i <= |files|
        invariant forall j :: 0 <= j < i ==> files[j].name != wanted
      {
        if files[i].name == wanted {
          return files[i];
        }
        i := i + 1;
      }
      file := null;
    }
  }

  class MountPoint {
    const name: string
    const root: FileNode

    constructor (name: string)
      ensures this.name == name && fresh(root)
      ensures root.kind == 0 && root.files == [] && root.previousDirectory == root
    {
      var r := new FileNode(0, "noname", null);
      r.previousDirectory := r;
      this.name, this.root := name, r;
    }
  }

  // ---------------------------------------------------------------- shape

  /** The node at each path of the mount. */
  type Tree = map<Path, FileNode>

  /** The fields of a node. */
  datatype Fields = Fields(kind: int, name: string, previousDirectory: FileNode?, files: seq<FileNode>)

  /** The fields of every node of a tree. */
  type Nodes = map<FileNode, Fields>

  ghost function NodesOf(tree: Tree): Nodes
    reads tree.Values
  {
    map n | n in tree.Values :: Fields(n.kind, n.name, n.previousDirectory, n.files)
  }

  ghost predicate DirectoryAt(nodes: Nodes, tree: Tree, p: Path) {
    p in tree && tree[p] in nodes && (p == [] || nodes[tree[p]].kind == DIRECTORY)
  }

  /** The node at `p` hangs in its parent's list under the last component of `p`, and a
      directory's `previousDirectory` is that parent. */
  ghost predicate Hangs(nodes: Nodes, tree: Tree, p: Path)
    requires p in tree && p != [] && tree[p] in nodes
  {
    var n := nodes[tree[p]];
    && (n.kind == DIRECTORY || n.kind == FILE)
    && DirectoryAt(nodes, tree, Up(p))
    && n.name == p[|p| - 1]
    && tree[p] in nodes[tree[Up(p)]].files
    && (n.kind == DIRECTORY ==> n.previousDirectory == tree[Up(p)])
  }

  /** `f` is the node of the tree at its own name below `p`. */
  ghost predicate Listed(nodes: Nodes, tree: Tree, p: Path, f: FileNode) {
    f in nodes && p + [nodes[f].name] in tree && tree[p + [nodes[f].name]] == f
  }

  /** The directory's list holds each node once, and only nodes of the tree. */
  ghost predicate Lists(nodes: Nodes, tree: Tree, p: Path)
    requires p in tree && tree[p] in nodes
  {
    var files := nodes[tree[p]].files;
    && (forall f :: f in files ==> Listed(nodes, tree, p, f))
    && (forall i, j :: 0 <= i < j < |files| ==> files[i] != files[j])
  }

  /** The nodes form exactly the tree: the mount root is its own parent, distinct paths
      hold distinct nodes, and every node hangs where its path says. */
  ghost predicate Shape(nodes: Nodes, tree: Tree, root: FileNode) {
    && (forall p :: p in tree ==> tree[p] in nodes)
    && [] in tree && tree[[]] == root && nodes[root].previousDirectory == root
    && (forall p, q :: p in tree && q in tree && p != q ==> tree[p] != tree[q])
    && (forall p :: p in tree && p != [] ==> Hangs(nodes, tree, p))
    && (forall p :: DirectoryAt(nodes, tree, p) ==> Lists(nodes, tree, p))
  }

  ghost function KindsOf(nodes: Nodes, tree: Tree): Files
    requires forall p :: p in tree ==> tree[p] in nodes
  {
    map p | p in tree :: nodes[tree[p]].kind
  }

  lemma ShapeIsWellFormed(nodes: Nodes, tree: Tree, root: FileNode)
    requires Shape(nodes, tree, root)
    ensures WellFormed(KindsOf(nodes, tree))
  {
    forall p | p in tree && p != [] ensures IsDirectory(KindsOf(nodes, tree), Up(p)) {
      assert Hangs(nodes, tree, p);
    }
  }

  /** Sibling names are distinct. */
  lemma SiblingNamesDistinct(nodes: Nodes, tree: Tree, root: FileNode, p: Path, i: nat, j: nat)
    requires Shape(nodes, tree, root) && DirectoryAt(nodes, tree, p)
    requires i < j < |nodes[tree[p]].files|
    ensures var files := nodes[tree[p]].files;
            && files[i] in nodes && files[j] in nodes
            && nodes[files[i]].name != nodes[files[j]].name
  {
    var x, y := nodes[tree[p]].files[i], nodes[tree[p]].files[j];
    assert Lists(nodes, tree, p);
    assert Listed(nodes, tree, p, x) && Listed(nodes, tree, p, y);
  }

  /** `n` steps up the parent pointers. */
  ghost function Ascend(nodes: Nodes, node: FileNode, n: nat): FileNode?
    decreases n
  {
    if n == 0 then node
    else if node !in nodes || nodes[node].previousDirectory == null then null
    else Ascend(nodes, nodes[node].previousDirectory, n - 1)
  }

  lemma ParentAt(nodes: Nodes, tree: Tree, root: FileNode, p: Path)
    requires Shape(nodes, tree, root) && DirectoryAt(nodes, tree, p) && p != []
    ensures DirectoryAt(nodes, tree, Up(p)) && |Up(p)| == |p| - 1 && p in tree && Up(p) in tree
    ensures tree[p] in nodes && nodes[tree[p]].previousDirectory == tree[Up(p)]
  {
    assert Hangs(nodes, tree, p);
  }

  lemma RootIsItsParent(nodes: Nodes, tree: Tree, root: FileNode)
    requires Shape(nodes, tree, root)
    ensures [] in tree && tree[[]] == root && root in nodes && nodes[root].previousDirectory == root
    ensures DirectoryAt(nodes, tree, [])
  {
  }

  lemma AscendStep(nodes: Nodes, node: FileNode, parent: FileNode, n: nat)
    requires n > 0 && node in nodes && nodes[node].previousDirectory == parent
    ensures Ascend(nodes, node, n) == Ascend(nodes, parent, n - 1)
  {
  }

  lemma {:induction false} RootAscends(nodes: Nodes, root: FileNode, n: nat)
    requires root in nodes && nodes[root].previousDirectory == root
    ensures Ascend(nodes, root, n) == root
  {
    if n > 0 {
      RootAscends(nodes, root, n - 1);
    }
  }

  /** There are no cycles: from the directory at `p` the parent pointers reach the mount
      root in `|p|` steps, and stay there. */
  lemma {:induction false} ParentsReachRoot(nodes: Nodes, tree: Tree, root: FileNode, p: Path, more: nat)
    requires Shape(nodes, tree, root) && DirectoryAt(nodes, tree, p)
    ensures Ascend(nodes, tree[p], |p| + more) == root
    decreases |p|
  {
    hide *;
    if p != [] {
      ParentAt(nodes, tree, root, p);
      ParentsReachRoot(nodes, tree, root, Up(p), more);
      AscendStep(nodes, tree[p], tree[Up(p)], |p| + more);
    } else {
      RootIsItsParent(nodes, tree, root);
      RootAscends(nodes, root, more);
    }
  }

  /** A directory's list and the tree hold the same children. */
  lemma ChildByName(nodes: Nodes, tree: Tree, root: FileNode, p: Path, name: string)
    requires Shape(nodes, tree, root) && DirectoryAt(nodes, tree, p)
    ensures p + [name] in tree ==>
              tree[p + [name]] in nodes[tree[p]].files && nodes[tree[p + [name]]].name == name
    ensures forall f :: f in nodes[tree[p]].files ==>
              f in nodes && (nodes[f].name == name ==> p + [name] in tree && tree[p + [name]] == f)
  {
    assert Lists(nodes, tree, p);
    if p + [name] in tree {
      assert Hangs(nodes, tree, p + [name]);
      assert Up(p + [name]) == p;
    }
    forall f | f in nodes[tree[p]].files
      ensures f in nodes && (nodes[f].name == name ==> p + [name] in tree && tree[p + [name]] == f)
    {
      assert Listed(nodes, tree, p, f);
    }
  }

  // ---------------------------------------------------------------- one more node

  /** The nodes once `file` is appended to the list of `directory`. */
  ghost function Grown(nodes: Nodes, directory: FileNode, file: FileNode, fields: Fields): Nodes
    requires directory in nodes
  {
    nodes[directory := nodes[directory].(files := nodes[directory].files + [file])][file := fields]
  }

  ghost predicate CanAttach(nodes: Nodes, tree: Tree, cwd: Path, file: FileNode, fields: Fields) {
    && DirectoryAt(nodes, tree, cwd)
    && file !in nodes && cwd + [fields.name] !in tree && fields.files == []
    && (fields.kind == FILE || (fields.kind == DIRECTORY && fields.previousDirectory == tree[cwd]))
  }

  lemma HangsStill(nodes: Nodes, tree: Tree, directory: FileNode, file: FileNode, fields: Fields, q: Path, p: Path)
    requires directory in nodes && file !in nodes && q !in tree
    requires p in tree && p != [] && tree[p] in nodes && Hangs(nodes, tree, p)
    ensures Hangs(Grown(nodes, directory, file, fields), tree[q := file], p)
  {
    hide Up;
    var tree' := tree[q := file];
    assert tree'[p] == tree[p] && tree'[Up(p)] == tree[Up(p)];
  }

  lemma ListedStill(nodes: Nodes, tree: Tree, directory: FileNode, file: FileNode, fields: Fields, q: Path,
                    p: Path, f: FileNode)
    requires directory in nodes && file !in nodes && q !in tree
    requires Listed(nodes, tree, p, f)
    ensures Listed(Grown(nodes, directory, file, fields), tree[q := file], p, f)
  {
    var x := p + [nodes[f].name];
    var tree' := tree[q := file];
    assert x in tree' && tree'[x] == tree[x];
  }

  lemma ListsStill(nodes: Nodes, tree: Tree, directory: FileNode, file: FileNode, fields: Fields, q: Path, p: Path)
    requires directory in nodes && file !in nodes && q !in tree
    requires p in tree && tree[p] in nodes && Lists(nodes, tree, p)
    requires tree[p] == directory ==> q == p + [fields.name]
    ensures Lists(Grown(nodes, directory, file, fields), tree[q := file], p)
  {
    hide Listed;
    var nodes', tree' := Grown(nodes, directory, file, fields), tree[q := file];
    forall f | f in nodes'[tree'[p]].files ensures Listed(nodes', tree', p, f) {
      if f in nodes[tree[p]].files {
        ListedStill(nodes, tree, directory, file, fields, q, p, f);
      } else {
        NewlyListed(nodes, tree, directory, file, fields, q, p);
      }
    }
    FileNotListed(nodes, tree, file, p);
  }

  lemma NewlyListed(nodes: Nodes, tree: Tree, directory: FileNode, file: FileNode, fields: Fields, q: Path, p: Path)
    requires directory in nodes && q == p + [fields.name]
    ensures Listed(Grown(nodes, directory, file, fields), tree[q := file], p, file)
  {
  }

  lemma FileNotListed(nodes: Nodes, tree: Tree, file: FileNode, p: Path)
    requires p in tree && tree[p] in nodes && Lists(nodes, tree, p) && file !in nodes
    ensures file !in nodes[tree[p]].files
  {
    assert forall f :: f in nodes[tree[p]].files ==> Listed(nodes, tree, p, f);
  }

  lemma AttachedHangs(nodes: Nodes, tree: Tree, cwd: Path, file: FileNode, fields: Fields, q: Path)
    requires CanAttach(nodes, tree, cwd, file, fields) && q == cwd + [fields.name]
    ensures Hangs(Grown(nodes, tree[cwd], file, fields), tree[q := file], q)
    ensures Lists(Grown(nodes, tree[cwd], file, fields), tree[q := file], q)
  {
    assert Up(q) == cwd;
    var tree' := tree[q := file];
    assert tree'[q] == file && tree'[cwd] == tree[cwd];
  }

  lemma ValuesWith(tree: Tree, q: Path, file: FileNode)
    requires q !in tree
    ensures tree[q := file].Values == tree.Values + {file}
  {
    var tree' := tree[q := file];
    assert tree'[q] == file;
    forall n | n in tree.Values ensures n in tree'.Values {
      var p :| p in tree && tree[p] == n;
      assert tree'[p] == n;
    }
    forall n | n in tree'.Values ensures n in tree.Values || n == file {
      var p :| p in tree' && tree'[p] == n;
      assert p == q || tree[p] == n;
    }
  }

  /** A mount root with an empty list is a tree by itself. */
  lemma RootAlone(root: FileNode)
    requires root.kind == 0 && root.files == [] && root.previousDirectory == root
    ensures var tree: Tree := map[[] := root];
            Shape(NodesOf(tree), tree, root) && KindsOf(NodesOf(tree), tree) == MOUNTED
  {
    var tree: Tree := map[[] := root];
    assert tree[[]] == root && root in tree.Values;
  }

  lemma NodesAre(tree: Tree, nodes: Nodes)
    requires nodes.Keys == tree.Values
    requires forall n :: n in tree.Values ==> nodes[n] == Fields(n.kind, n.name, n.previousDirectory, n.files)
    ensures NodesOf(tree) == nodes
  {
  }

  lemma StillDirectory(nodes: Nodes, tree: Tree, cwd: Path, file: FileNode, fields: Fields, q: Path)
    requires CanAttach(nodes, tree, cwd, file, fields) && q == cwd + [fields.name]
    ensures DirectoryAt(Grown(nodes, tree[cwd], file, fields), tree[q := file], cwd)
  {
  }

  /** Appending a new node to a directory's list keeps the shape and adds its path. */
  lemma AttachKeepsShape(nodes: Nodes, tree: Tree, root: FileNode, cwd: Path, file: FileNode, fields: Fields, q: Path)
    requires Shape(nodes, tree, root) && CanAttach(nodes, tree, cwd, file, fields) && q == cwd + [fields.name]
    ensures var nodes' := Grown(nodes, tree[cwd], file, fields);
            && Shape(nodes', tree[q := file], root)
            && KindsOf(nodes', tree[q := file]) == KindsOf(nodes, tree)[q := fields.kind]
  {
    hide Hangs, Lists, Up;
    var nodes', tree' := Grown(nodes, tree[cwd], file, fields), tree[q := file];
    AttachedHangs(nodes, tree, cwd, file, fields, q);
    forall p | p in tree' && p != [] ensures Hangs(nodes', tree', p) {
      if p in tree {
        HangsStill(nodes, tree, tree[cwd], file, fields, q, p);
      } else {
        assert p == q;
      }
    }
    forall p | DirectoryAt(nodes', tree', p) ensures Lists(nodes', tree', p) {
      if p in tree {
        assert DirectoryAt(nodes, tree, p);
        assert p != cwd ==> tree[p] != tree[cwd];
        ListsStill(nodes, tree, tree[cwd], file, fields, q, p);
      } else {
        assert p == q;
      }
    }
  }

  // ---------------------------------------------------------------- the code

  class VirtualFilesystem {
    var mountpoints: map<string, MountPoint>
    const scanner: Scanner
    ghost var tree: Tree

    ghost predicate Valid()
      reads this, tree.Values
    {
      "ux0" in mountpoints ==> Shape(NodesOf(tree), tree, mountpoints["ux0"].root)
    }

    ghost function Kinds(): Files
      reads this, tree.Values
    {
      KindsOf(NodesOf(tree), tree)
    }

    constructor ()
      ensures Valid() && mountpoints == map[] && fresh(scanner)
    {
      mountpoints, tree := map[], map[];
      scanner := new Scanner();
    }

    /** False, and no change, if the name is taken. A fresh `ux0` holds its root alone. */
    method Mount(name: string) returns (ok: bool)
      requires Valid()
      modifies this
      ensures Valid() && ok == (name !in old(mountpoints))
      ensures mountpoints.Keys == old(mountpoints.Keys) + {name}
      ensures forall m :: m in old(mountpoints) ==> mountpoints[m] == old(mountpoints[m])
      ensures if ok && name == "ux0" then Kinds() == MOUNTED else tree == old(tree)
    {
      hide Shape, KindsOf;
      if name !in mountpoints {
        var mp := new MountPoint(name);
        mountpoints := mountpoints[name := mp];
        if name == "ux0" {
          tree := map[[] := mp.root];
          RootAlone(mp.root);
        }
        return true;
      }
      return false;
    }

    /** `directory` is the directory at `cwd` of a well-shaped mount. */
    ghost predicate At(directory: FileNode, cwd: Path)
      reads this, tree.Values
    {
      && "ux0" in mountpoints && Shape(NodesOf(tree), tree, mountpoints["ux0"].root)
      && DirectoryAt(NodesOf(tree), tree, cwd) && tree[cwd] == directory
    }

    lemma AtOwns(directory: FileNode, cwd: Path)
      requires At(directory, cwd)
      ensures directory in tree.Values && "ux0" in mountpoints
    {
    }

    lemma CanAttachAt(directory: FileNode, cwd: Path, file: FileNode)
      requires At(directory, cwd) && cwd + [file.name] !in Kinds()
      requires file !in tree.Values && file.files == []
      requires file.kind == FILE || (file.kind == DIRECTORY && file.previousDirectory == directory)
      ensures CanAttach(NodesOf(tree), tree, cwd, file,
                        Fields(file.kind, file.name, file.previousDirectory, file.files))
      ensures cwd + [file.name] !in tree
    {
      hide Shape, DirectoryAt;
    }

    /** The switch of `createFile` on the type of the new node. */
    method NewNode(fileType: int, name: string, directory: FileNode) returns (node: FileNode?)
      ensures node != null <==> fileType == DIRECTORY || fileType == FILE
      ensures node != null ==> fresh(node) && node.kind == fileType && node.name == name && node.files == []
      ensures node != null && fileType == DIRECTORY ==> node.previousDirectory == directory
    {
      if fileType == DIRECTORY {
        node := new FileNode(fileType, name, directory);
      } else if fileType == FILE {
        node := new FileNode(fileType, name, null);
      } else {
        node := null;
      }
    }

    /** `root->addFile(file)` for a new node. */
    method Attach(directory: FileNode, file: FileNode, ghost cwd: Path)
      requires At(directory, cwd) && cwd + [file.name] !in Kinds()
      requires file !in tree.Values && file.files == []
      requires file.kind == FILE || (file.kind == DIRECTORY && file.previousDirectory == directory)
      modifies this`tree, directory`files
      ensures At(directory, cwd)
      ensures Kinds() == old(Kinds())[cwd + [file.name] := file.kind]
    {
      hide Shape, KindsOf, DirectoryAt, CanAttach;
      ghost var nodes, fields := NodesOf(tree), Fields(file.kind, file.name, file.previousDirectory, file.files);
      AtOwns(directory, cwd);
      CanAttachAt(directory, cwd, file);
      AttachKeepsShape(nodes, tree, mountpoints["ux0"].root, cwd, file, fields, cwd + [file.name]);
      ValuesWith(tree, cwd + [file.name], file);
      directory.AddFile(file);
      tree := tree[cwd + [file.name] := file];
      NodesAre(tree, Grown(nodes, directory, file, fields));
      StillDirectory(nodes, old(tree), cwd, file, fields, cwd + [file.name]);
    }

    /** `findFile` in the directory at `cwd`. */
    method Lookup(directory: FileNode, wanted: string, ghost cwd: Path) returns (file: FileNode?)
      requires At(directory, cwd)
      ensures file == null <==> cwd + [wanted] !in Kinds()
      ensures file != null ==>
                && file.name == wanted && file.kind == Kinds()[cwd + [wanted]]
                && cwd + [wanted] in tree && tree[cwd + [wanted]] == file
    {
      hide Shape;
      ChildByName(NodesOf(tree), tree, mountpoints["ux0"].root, cwd, wanted);
      file := directory.FindFile(wanted);
      assert file != null ==> file in directory.files;
      assert cwd + [wanted] in tree ==> tree[cwd + [wanted]] in directory.files;
    }

    /** The parent pointer of the directory at `cwd` leads to the directory at `Up(cwd)`. */
    lemma ParentOf(directory: FileNode, cwd: Path)
      requires At(directory, cwd)
      ensures directory.previousDirectory != null && At(directory.previousDirectory, Up(cwd))
    {
      if cwd != [] {
        assert Hangs(NodesOf(tree), tree, cwd);
      }
    }

    lemma RootDirectory()
      requires Valid() && "ux0" in mountpoints
      ensures At(mountpoints["ux0"].root, [])
    {
    }

    lemma AtIsValid(directory: FileNode, cwd: Path)
      requires At(directory, cwd)
      ensures Valid()
    {
    }

    lemma ChildDirectory(directory: FileNode, cwd: Path, file: FileNode, name: string)
      requires At(directory, cwd) && cwd + [name] in tree && tree[cwd + [name]] == file
      requires file.kind == DIRECTORY
      ensures At(file, cwd + [name])
    {
      hide Shape;
      assert file in tree.Values;
    }

    /** The outcome and the new tree are those of `FileTree.Create`. */
    method CreateFile(fileType: int, path: string) returns (ok: bool)
      requires Valid() && "ux0" in mountpoints
      modifies this`tree, scanner, tree.Values`files
      ensures Valid() && mountpoints == old(mountpoints)
      ensures (Kinds(), ok) == Create(old(Kinds()), [], fileType, Branches(path))
    {
      hide *;
      scanner.SetString(path);
      var branches := scanner.Parse([]);
      var root: FileNode := mountpoints["ux0"].root;
      ghost var cwd: Path := [];
      RootDirectory();
      var x := 0;
      while x < |branches|
        invariant x <= |branches|
        invariant mountpoints == old(mountpoints)
        invariant At(root, cwd) && Valid()
        invariant x < |branches| ==> tree == old(tree)
        invariant Create(old(Kinds()), [], fileType, branches) == Create(Kinds(), cwd, fileType, branches[x..])
      {
        var i := branches[x];
        CreateStep(Kinds(), cwd, fileType, branches, x);
        x := x + 1;
        if i == ".." {
          ParentOf(root, cwd);
          root, cwd := root.previousDirectory, Up(cwd);
          continue;
        }
        if i == "." {
          continue;
        }
        var file := Lookup(root, i, cwd);
        if file != null {
          if file.kind != DIRECTORY {
            return false;
          }
          ChildDirectory(root, cwd, file, i);
          root, cwd := file, cwd + [i];
        } else {
          var created := NewNode(fileType, i, root);
          if created == null {
            return false;
          }
          if x != |branches| {
            return false;
          }
          AtOwns(root, cwd);
          Attach(root, created, cwd);
          AtIsValid(root, cwd);
          CreateNothing(Kinds(), cwd, fileType, branches[x..]);
        }
      }
      CreateNothing(Kinds(), cwd, fileType, branches[x..]);
      return true;
    }

    /** The string is that of `FileTree.Get`; nothing but the scanner changes. */
    method GetFile(path: string) returns (r: string)
      requires Valid() && "ux0" in mountpoints
      modifies scanner
      ensures r == Get(Kinds(), Branches(path))
    {
      hide *;
      scanner.SetString(path);
      var branches := scanner.Parse([]);
      var oldPath: seq<string> := [];
      var root: FileNode := mountpoints["ux0"].root;
      var currentPath := "";
      ghost var cwd: Path := [];
      RootDirectory();
      WalkStarts();
      assert branches[0..] == branches;
      var x := 0;
      while x < |branches|
        invariant x <= |branches|
        invariant At(root, cwd)
        invariant FollowAll(Kinds(), START, branches)
                  == FollowAll(Kinds(), Walk(cwd, currentPath, oldPath), branches[x..])
      {
        var i := branches[x];
        FollowAllStep(Kinds(), Walk(cwd, currentPath, oldPath), branches, x);
        x := x + 1;
        if i == ".." {
          if |oldPath| != 0 {
            currentPath := oldPath[|oldPath| - 1];
            oldPath := oldPath[..|oldPath| - 1];
          }
          ParentOf(root, cwd);
          root, cwd := root.previousDirectory, Up(cwd);
          continue;
        }
        if i == "." {
          continue;
        }
        var file := Lookup(root, i, cwd);
        if file != null {
          oldPath := oldPath + [currentPath];
          currentPath := currentPath + file.name;
          if file.kind == DIRECTORY {
            ChildDirectory(root, cwd, file, i);
            root, cwd := file, cwd + [i];
            currentPath := currentPath + "/";
          }
        } else {
          GetNone(Kinds(), branches);
          return "";
        }
      }
      GetEnd(Kinds(), Walk(cwd, currentPath, oldPath), branches, branches[x..]);
      return currentPath;
    }
  }
}
