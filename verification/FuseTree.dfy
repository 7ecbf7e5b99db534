/**
 The clipboard file tree of libs/clipboard/src/platform/fuse.rs: building it from the list of
 descriptors, its shape, and the order of its depth-first walk.
 */
module FuseTree {
  import opened Basics

  const ROOT := 1

  /** Names are UTF-8 bytes; a path is its list of components, which is how Path compares and hashes. */
  type Name = seq<byte>
  datatype Component = Normal(name: Name) | CurDir | ParentDir
  datatype Path = Path(rooted: bool, comps: seq<Component>)
  {
    /** `Path::parent`, None for "" and "/". */
    function Parent(): Option<Path> {
      if comps == [] then None else Some(Path(rooted, comps[..|comps| - 1]))
    }

    /** `Path::file_name`, None for "", "/" and paths that end in a dot component. */
    function FileName(): Option<Name> {
      if comps == [] || !comps[|comps| - 1].Normal? then None else Some(comps[|comps| - 1].name)
    }
  }

  datatype FileType = File | Directory | Symlink

  datatype Description = Description(name: Path, kind: FileType, size: nat)

  datatype Node = Node(
    inode: nat,
    index: nat,
    name: Name,
    parent: Option<nat>,
    kind: FileType,
    size: nat,
    children: seq<nat>,
    handles: seq<nat>,
    gc: bool)

  function NewRoot(): Node {
    Node(ROOT, 0, [47], None, Directory, 0, [], [], false)
  }

  // ----- specification: parents -----

  /** Inode of the last listed directory with this path; paths that are not listed belong to the root. */
  function DirInode(files: seq<Description>, p: Path): (ino: nat)
    ensures 1 <= ino <= |files| + 1
  {
    if files == [] then ROOT
    else
      var last := files[|files| - 1];
      if last.kind == Directory && last.name == p then |files| + 1
      else DirInode(files[..|files| - 1], p)
  }

  /** Parent inode of the next entry after `before`. */
  function ParentInode(before: seq<Description>, d: Description): (ino: nat)
    ensures 1 <= ino <= |before| + 1
  {
    match d.name.Parent()
    case None => ROOT
    case Some(p) => DirInode(before, p)
  }

  /** The parent of inode i + 2 at position i. */
  function Parents(files: seq<Description>): (par: seq<nat>)
    ensures |par| == |files|
    ensures ValidParents(par)
  {
    if files == [] then []
    else
      var init := files[..|files| - 1];
      Parents(init) + [ParentInode(init, files[|files| - 1])]
  }

  predicate ValidParents(par: seq<nat>) {
    forall i :: 0 <= i < |par| ==> 1 <= par[i] <= i + 1
  }

  /** Ascending inodes whose parent is `ino`. */
  predicate ListChildren(cs: seq<nat>, par: seq<nat>, ino: nat) {
    && (forall k :: 0 <= k < |cs| ==> 2 <= cs[k] <= |par| + 1 && par[cs[k] - 2] == ino)
    && (forall a, b :: 0 <= a < b < |cs| ==> cs[a] < cs[b])
  }

  /** The inodes whose parent is `ino`, in ascending order. */
  function Children(par: seq<nat>, ino: nat): (cs: seq<nat>)
    ensures |cs| <= |par| && ListChildren(cs, par, ino)
    decreases |par|
  {
    if par == [] then []
    else
      var init := par[..|par| - 1];
      Children(init, ino) + (if par[|par| - 1] == ino then [|par| + 1] else [])
  }

  lemma {:induction false} ChildrenComplete(par: seq<nat>, c: nat)
    requires 2 <= c <= |par| + 1
    ensures forall ino :: c in Children(par, ino) <==> par[c - 2] == ino
    decreases |par|
  {
    if c <= |par| {
      ChildrenComplete(par[..|par| - 1], c);
    }
  }

  lemma {:induction false} ChildrenSnoc(par: seq<nat>, p: nat, ino: nat)
    ensures Children(par + [p], ino) == Children(par, ino) + (if p == ino then [|par| + 2] else [])
  {
    assert (par + [p])[..|par|] == par;
  }

  // ----- specification: the tree -----

  ghost predicate Named(files: seq<Description>) {
    forall d <- files :: d.name.FileName().Some?
  }

  /** Node `ino` of the tree over `files`. */
  function NodeAt(files: seq<Description>, ino: nat): Node
    requires 1 <= ino <= |files| + 1
    requires ino > 1 ==> files[ino - 2].name.FileName().Some?
  {
    var cs := Children(Parents(files), ino);
    if ino == ROOT then NewRoot().(children := cs)
    else
      var d := files[ino - 2];
      Node(ino, ino - 2, d.name.FileName().value, Some(Parents(files)[ino - 2]), d.kind, d.size, cs, [], false)
  }

  /** The tree of a list: the root, then one node for each entry, in list order. */
  ghost predicate IsTree(tree: seq<Node>, files: seq<Description>)
    requires Named(files)
  {
    && |tree| == |files| + 1
    && (forall i :: 0 <= i < |tree| ==> tree[i] == NodeAt(files, i + 1))
  }

  // ----- build_tree -----

  datatype TreeError = InvalidFileName(path: Path)

  /** What `sub_root_map` knows after the entries of `files`. */
  ghost predicate MapsDirs(dirs: map<Path, nat>, files: seq<Description>) {
    forall p :: (if p in dirs then dirs[p] else ROOT) == DirInode(files, p)
  }

  method BuildTree(files: seq<Description>) returns (r: Result<seq<Node>, TreeError>)
    ensures r.Ok? <==> Named(files)
    ensures r.Ok? ==> IsTree(r.value, files)
    ensures r.Err? ==> exists i :: 0 <= i < |files| && r.error == InvalidFileName(files[i].name)
                                   && files[i].name.FileName() == None && Named(files[..i])
  {
    hide IsTree, MapsDirs, DirInode, ParentInode, Parents, NodeAt, Named, NewRoot, ValidParents, Path.Parent,
         Path.FileName;
    var tree := [NewRoot()];
    var dirs: map<Path, nat> := map[Path(true, []) := ROOT, Path(false, []) := ROOT];
    NoEntries(dirs);
    assert files[..0] == [];
    var i := 0;
    while i < |files|
      invariant 0 <= i <= |files|
      invariant Named(files[..i])
      invariant |tree| == i + 1 && IsTree(tree, files[..i])
      invariant MapsDirs(dirs, files[..i])
    {
      var file := files[i];
      ghost var before, after := files[..i], files[..i + 1];
      assert after[..i] == before && after[i] == file;
      var inode := |tree| + ROOT;
      var parentInode := ROOT;
      match file.name.Parent() {
        case None =>
        case Some(p) => parentInode := if p in dirs then dirs[p] else ROOT;
      }
      ParentKnown(dirs, before, file);
      ghost var oldTree := tree;
      var parentNode := tree[parentInode - 1];
      tree := tree[parentInode - 1 := parentNode.(children := parentNode.children + [inode])];
      if file.name.FileName() == None {
        Unnamed(files, i);
        return Err(InvalidFileName(file.name));
      }
      DirsSnoc(dirs, before, file);
      NamedSnoc(before, file);
      assert before + [file] == after;
      if file.kind == Directory {
        dirs := dirs[file.name := inode];
      }
      var node := Node(inode, inode - 2, file.name.FileName().value, Some(parentInode), file.kind, file.size, [], [],
                       false);
      tree := tree + [node];
      TreeSnoc(before, file, oldTree, tree);
      i := i + 1;
    }
    assert files[..i] == files;
    return Ok(tree);
  }

  lemma {:induction false} NoEntries(dirs: map<Path, nat>)
    requires dirs == map[Path(true, []) := ROOT, Path(false, []) := ROOT]
    ensures Named([]) && IsTree([NewRoot()], []) && MapsDirs(dirs, [])
  {
  }

  lemma {:induction false} ParentKnown(dirs: map<Path, nat>, before: seq<Description>, d: Description)
    requires MapsDirs(dirs, before)
    ensures ParentInode(before, d)
            == match d.name.Parent()
               case None => ROOT
               case Some(p) => if p in dirs then dirs[p] else ROOT
  {
  }

  lemma {:induction false} NamedSnoc(before: seq<Description>, d: Description)
    requires Named(before) && d.name.FileName().Some?
    ensures Named(before + [d])
  {
  }

  lemma {:induction false} Unnamed(files: seq<Description>, i: nat)
    requires i < |files| && files[i].name.FileName() == None
    ensures !Named(files)
  {
    assert files[i] in files;
  }

  lemma {:induction false} DirsSnoc(dirs: map<Path, nat>, before: seq<Description>, d: Description)
    requires MapsDirs(dirs, before)
    ensures MapsDirs(if d.kind == Directory then dirs[d.name := |before| + 2] else dirs, before + [d])
  {
    assert (before + [d])[..|before|] == before;
  }

  /** An appended entry changes an older node only by becoming its last child. */
  lemma {:induction false} NodeSnoc(before: seq<Description>, d: Description, ino: nat)
    requires Named(before) && d.name.FileName().Some? && 1 <= ino <= |before| + 1
    ensures var node := NodeAt(before, ino);
            var p := ParentInode(before, d);
            NodeAt(before + [d], ino)
            == node.(children := node.children + (if p == ino then [|before| + 2] else []))
  {
    hide Children, ListChildren, ParentInode, ValidParents;
    var after, p := before + [d], ParentInode(before, d);
    assert after[..|before|] == before && Parents(after) == Parents(before) + [p];
    ChildrenSnoc(Parents(before), p, ino);
    if ino > 1 {
      assert after[ino - 2] == before[ino - 2];
    }
  }

  lemma {:induction false} LastNode(before: seq<Description>, d: Description)
    requires Named(before) && d.name.FileName().Some?
    ensures var ino, p := |before| + 2, ParentInode(before, d);
            NodeAt(before + [d], ino)
            == Node(ino, ino - 2, d.name.FileName().value, Some(p), d.kind, d.size, [], [], false)
  {
    var after, p := before + [d], ParentInode(before, d);
    assert after[..|before|] == before && Parents(after) == Parents(before) + [p];
    NoChildrenYet(Parents(after), |before| + 2);
  }

  /** Appending an entry to the list appends a node and extends one list of children. */
  lemma {:induction false} TreeSnoc(before: seq<Description>, d: Description, tree: seq<Node>, tree': seq<Node>)
    requires Named(before) && |tree| == |before| + 1 && IsTree(tree, before) && d.name.FileName().Some?
    requires var p := ParentInode(before, d);
             var ino := |tree| + 1;
             tree' == tree[p - 1 := tree[p - 1].(children := tree[p - 1].children + [ino])]
                      + [Node(ino, ino - 2, d.name.FileName().value, Some(p), d.kind, d.size, [], [], false)]
    ensures IsTree(tree', before + [d])
  {
    hide NodeAt, ParentInode, Parents, ValidParents;
    LastNode(before, d);
    forall i | 0 <= i < |tree|
      ensures tree'[i] == NodeAt(before + [d], i + 1)
    {
      NodeSnoc(before, d, i + 1);
      assert tree[i].children + [] == tree[i].children;
    }
  }

  lemma {:induction false} NoChildrenYet(par: seq<nat>, ino: nat)
    requires ValidParents(par) && ino > |par|
    ensures Children(par, ino) == []
  {
    if par != [] {
      NoChildrenYet(par[..|par| - 1], ino);
    }
  }

  lemma {:induction false} DirInodeIsDirectory(files: seq<Description>, p: Path)
    ensures var ino := DirInode(files, p);
            ino == ROOT || (files[ino - 2].kind == Directory && files[ino - 2].name == p)
  {
    if files != [] {
      DirInodeIsDirectory(files[..|files| - 1], p);
    }
  }

  lemma {:induction false} ParentsAt(files: seq<Description>, i: nat)
    requires i < |files|
    ensures Parents(files)[i] == ParentInode(files[..i], files[i])
    decreases |files|
  {
    var init := files[..|files| - 1];
    if i < |init| {
      ParentsAt(init, i);
      assert init[..i] == files[..i];
    }
  }

  predicate HasChild(tree: seq<Node>, q: nat, ino: nat) {
    1 <= q <= |tree| && ino in tree[q - 1].children
  }

  /**
   The built list is a tree: every node but the root is exactly once a child, of the directory its
   `parent` field names, which has a smaller inode; its index is its position in the peer's list.
   */
  lemma {:induction false} TreeShape(tree: seq<Node>, files: seq<Description>, ino: nat)
    requires Named(files) && IsTree(tree, files) && 2 <= ino <= |tree|
    ensures tree[ino - 1].inode == ino && tree[ino - 1].index == ino - 2
    ensures var p := tree[ino - 1].parent;
            && p.Some? && 1 <= p.value < ino
            && tree[p.value - 1].kind == Directory
            && (forall q: nat :: HasChild(tree, q, ino) <==> q == p.value)
            && multiset(tree[p.value - 1].children)[ino] == 1
  {
    hide IsTree, Parents, NodeAt;
    NodeShape(tree, files, ino);
    var par := Parents(files);
    var p := par[ino - 2];
    NodeShape(tree, files, p);
    ParentIsDirectory(files, ino);
    ChildrenComplete(par, ino);
    forall q: nat
      ensures HasChild(tree, q, ino) <==> q == p
    {
      if 1 <= q <= |tree| {
        NodeShape(tree, files, q);
      }
    }
    AscendingOnce(Children(par, p), ino);
  }

  /** A node carries name, kind and size of its entry, and starts out without handles. */
  lemma {:induction false} NodeCarriesEntry(tree: seq<Node>, files: seq<Description>, ino: nat)
    requires Named(files) && IsTree(tree, files) && 1 <= ino <= |tree|
    ensures var n := tree[ino - 1];
            && |tree| == |files| + 1 && n.handles == [] && !n.gc
            && (ino > 1 ==> n.kind == files[ino - 2].kind && n.size == files[ino - 2].size
                            && Some(n.name) == files[ino - 2].name.FileName())
            && (ino == 1 ==> n.index == 0 && n.kind == Directory && n.size == 0 && n.name == [47] && n.parent == None)
  {
    hide Parents, Children, ListChildren, ValidParents;
    assert tree[ino - 1] == NodeAt(files, ino);
  }

  lemma {:induction false} NodeShape(tree: seq<Node>, files: seq<Description>, ino: nat)
    requires Named(files) && IsTree(tree, files) && 1 <= ino <= |tree|
    ensures |tree| == |files| + 1
    ensures var n := tree[ino - 1];
            && n.inode == ino && n.children == Children(Parents(files), ino)
            && (ino == ROOT ==> n.parent == None && n.kind == Directory)
            && (ino > ROOT ==> n.index == ino - 2 && n.parent == Some(Parents(files)[ino - 2])
                               && n.kind == files[ino - 2].kind)
  {
    hide Parents, Children, ListChildren, ValidParents;
    assert tree[ino - 1] == NodeAt(files, ino);
  }

  lemma {:induction false} ParentIsDirectory(files: seq<Description>, ino: nat)
    requires 2 <= ino <= |files| + 1
    ensures var p := Parents(files)[ino - 2];
            1 <= p < ino && (p > ROOT ==> files[p - 2].kind == Directory)
  {
    ParentsAt(files, ino - 2);
    if files[ino - 2].name.Parent().Some? {
      DirInodeIsDirectory(files[..ino - 2], files[ino - 2].name.Parent().value);
    }
  }

  lemma {:induction false} AscendingOnce(cs: seq<nat>, c: nat)
    requires c in cs && forall a, b :: 0 <= a < b < |cs| ==> cs[a] < cs[b]
    ensures multiset(cs)[c] == 1
  {
    var init, last := cs[..|cs| - 1], cs[|cs| - 1];
    assert cs == init + [last];
    if c in init {
      AscendingOnce(init, c);
    } else {
      assert c !in multiset(init);
    }
  }

  // ----- the depth-first walk -----

  predicate AllUpTo(chain: seq<nat>, ino: nat) {
    forall a <- chain :: 1 <= a <= ino
  }

  /** `ino` and its ancestors up to the root. */
  function Chain(par: seq<nat>, ino: nat): (chain: seq<nat>)
    requires ValidParents(par) && 1 <= ino <= |par| + 1
    ensures AllUpTo(chain, ino)
    decreases ino
  {
    if ino == ROOT then [ino] else [ino] + Chain(par, par[ino - 2])
  }

  /** The inodes below and including `ino`, a node before its children, children in order. */
  function Walk(par: seq<nat>, ino: nat): seq<nat>
    requires ValidParents(par) && 1 <= ino <= |par| + 1
    decreases |par| + 1 - ino, |par| + 1
  {
    [ino] + WalkChildren(par, ino, |Children(par, ino)|)
  }

  /** The walks of the first `n` children. */
  function WalkChildren(par: seq<nat>, ino: nat, n: nat): seq<nat>
    requires ValidParents(par) && 1 <= ino <= |par| + 1 && n <= |Children(par, ino)|
    decreases |par| + 1 - ino, n
  {
    if n == 0 then []
    else
      var c := Children(par, ino)[n - 1];
      assert c in Children(par, ino);
      WalkChildren(par, ino, n - 1) + Walk(par, c)
  }

  lemma {:induction false} ChainUp(par: seq<nat>, ino: nat, a: nat)
    requires ValidParents(par) && 1 <= ino <= |par| + 1 && a in Chain(par, ino) && a != ino
    ensures ino > 1 && a in Chain(par, par[ino - 2])
  {
  }

  /** Two children of one node cannot both be ancestors of a third. */
  lemma {:induction false} OneBranch(par: seq<nat>, ino: nat, a: nat, b: nat)
    requires ValidParents(par) && 1 <= ino <= |par| + 1
    requires a > 1 && b > 1 && a in Chain(par, ino) && b in Chain(par, ino) && par[a - 2] == par[b - 2]
    ensures a == b
    decreases ino
  {
    if a != ino && b != ino {
      OneBranch(par, par[ino - 2], a, b);
    } else if a != b {
      ChainUp(par, ino, if a == ino then b else a);
    }
  }

  lemma {:induction false} WalkUnfold(par: seq<nat>, ino: nat)
    requires ValidParents(par) && 1 <= ino <= |par| + 1
    ensures Walk(par, ino) == [ino] + WalkChildren(par, ino, |Children(par, ino)|)
    ensures ino in Chain(par, ino)
  {
    assert Chain(par, ino)[0] == ino;
  }

  lemma {:induction false} ChildAfter(par: seq<nat>, ino: nat, k: nat)
    requires ValidParents(par) && k < |Children(par, ino)|
    ensures ino < Children(par, ino)[k] <= |par| + 1
  {
  }

  /** The walk below a node visits exactly the nodes whose chain passes it. */
  lemma {:induction false} WalkReaches(par: seq<nat>, ino: nat, x: nat)
    requires ValidParents(par) && 1 <= ino <= |par| + 1 && 1 <= x <= |par| + 1
    ensures x in Walk(par, ino) <==> ino in Chain(par, x)
    decreases |par| + 1 - ino, |par| + 1
  {
    hide *;
    WalkUnfold(par, ino);
    WalkChildrenReach(par, ino, |Children(par, ino)|, x);
    BranchesIff(par, ino, x);
  }

  lemma {:induction false} WalkChildrenReach(par: seq<nat>, ino: nat, n: nat, x: nat)
    requires ValidParents(par) && 1 <= ino <= |par| + 1 && 1 <= x <= |par| + 1 && n <= |Children(par, ino)|
    ensures x in WalkChildren(par, ino, n) <==> Branches(par, ino, n, x)
    decreases |par| + 1 - ino, n
  {
    hide *;
    if n == 0 {
      NoWalks(par, x, ino);
    } else {
      var c := Children(par, ino)[n - 1];
      ChildAfter(par, ino, n - 1);
      WalkReaches(par, c, x);
      WalkChildrenReach(par, ino, n - 1, x);
      WalkChildrenLast(par, ino, n);
      BranchesLast(par, ino, n, x);
    }
  }

  /** The child of `ino` on the chain of `x`. */
  lemma {:induction false} BranchTo(par: seq<nat>, ino: nat, x: nat) returns (c: nat)
    requires ValidParents(par) && 1 <= ino <= |par| + 1 && 1 <= x <= |par| + 1
    requires ino in Chain(par, x) && x != ino
    ensures 1 < c <= |par| + 1 && c in Chain(par, x) && par[c - 2] == ino
    decreases x
  {
    ChainUp(par, x, ino);
    if par[x - 2] == ino {
      c := x;
    } else {
      c := BranchTo(par, ino, par[x - 2]);
    }
  }

  lemma {:induction false} ChainThrough(par: seq<nat>, x: nat, c: nat)
    requires ValidParents(par) && 1 <= x <= |par| + 1 && c > 1 && c in Chain(par, x)
    ensures par[c - 2] in Chain(par, x)
    decreases x
  {
    if c != x {
      ChainThrough(par, par[x - 2], c);
    } else {
      assert Chain(par, par[c - 2])[0] == par[c - 2];
    }
  }

  lemma {:induction false} ChainGrows(par: seq<nat>, p: nat, x: nat)
    requires ValidParents(par) && 1 <= p <= |par| + 1 && 1 <= x <= |par| + 1
    ensures Chain(par + [p], x) == Chain(par, x)
    decreases x
  {
    if x > 1 {
      ChainGrows(par, p, par[x - 2]);
    }
  }

  /** `grown` is `walk` with `x` put right behind the walk of p that it contains. */
  ghost predicate Inserted(walk: seq<nat>, grown: seq<nat>, block: seq<nat>, x: nat, before: seq<nat>,
                           after: seq<nat>) {
    walk == before + block + after && grown == before + block + [x] + after
  }

  lemma {:induction false} InsertedBehind(prefix: seq<nat>, walk: seq<nat>, grown: seq<nat>, block: seq<nat>, x: nat,
                       before: seq<nat>, after: seq<nat>)
    requires Inserted(walk, grown, block, x, before, after)
    ensures Inserted(prefix + walk, prefix + grown, block, x, prefix + before, after)
  {
    assert prefix + (before + block + after) == (prefix + before) + block + after;
    assert prefix + (before + block + [x] + after) == (prefix + before) + block + [x] + after;
  }

  lemma {:induction false} InsertedAhead(walk: seq<nat>, grown: seq<nat>, suffix: seq<nat>, block: seq<nat>, x: nat,
                      before: seq<nat>, after: seq<nat>)
    requires Inserted(walk, grown, block, x, before, after)
    ensures Inserted(walk + suffix, grown + suffix, block, x, before, after + suffix)
  {
    assert (before + block + after) + suffix == before + block + (after + suffix);
    assert (before + block + [x] + after) + suffix == before + block + [x] + (after + suffix);
  }

  /** Some of the first `n` children of `ino` is `p` or an ancestor of it. */
  predicate Branches(par: seq<nat>, ino: nat, n: nat, p: nat)
    requires ValidParents(par) && 1 <= p <= |par| + 1 && n <= |Children(par, ino)|
  {
    exists k :: 0 <= k < n && Children(par, ino)[k] in Chain(par, p)
  }

  lemma {:induction false} BranchesIff(par: seq<nat>, ino: nat, p: nat)
    requires ValidParents(par) && 1 <= p <= |par| + 1 && 1 <= ino <= |par| + 1
    ensures Branches(par, ino, |Children(par, ino)|, p) <==> ino in Chain(par, p) && ino != p
  {
    var cs := Children(par, ino);
    if Branches(par, ino, |cs|, p) {
      var k :| 0 <= k < |cs| && cs[k] in Chain(par, p);
      ChainThrough(par, p, cs[k]);
    }
    if ino in Chain(par, p) && ino != p {
      var c := BranchTo(par, ino, p);
      ChildrenComplete(par, c);
      var k :| 0 <= k < |cs| && cs[k] == c;
    }
  }

  /** The walk of p itself, before and after it gets a last child. */
  lemma {:induction false} WalkGrowsAt(par: seq<nat>, p: nat)
    requires ValidParents(par) && 1 <= p <= |par| + 1
    requires WalkChildren(par + [p], p, |Children(par, p)|) == WalkChildren(par, p, |Children(par, p)|)
    ensures Walk(par + [p], p) == Walk(par, p) + [|par| + 2]
  {
    hide *;
    var par', x, n := par + [p], |par| + 2, |Children(par, p)|;
    GrownParents(par, p);
    ChildrenSnoc(par, p, p);
    NoChildrenYet(par', x);
    NoWalks(par', p, x);
    WalkUnfold(par', x);
    WalkUnfold(par', p);
    WalkUnfold(par, p);
    WalkChildrenLast(par', p, n + 1);
    assert [p] + (WalkChildren(par, p, n) + [x]) == ([p] + WalkChildren(par, p, n)) + [x];
  }

  /** A new last child of p appears in every walk that contains p, right behind the walk of p, and in no other. */
  lemma {:induction false} WalkGrows(par: seq<nat>, p: nat, ino: nat) returns (before: seq<nat>, after: seq<nat>)
    requires ValidParents(par) && 1 <= p <= |par| + 1 && 1 <= ino <= |par| + 1
    ensures ino !in Chain(par, p) ==> Walk(par + [p], ino) == Walk(par, ino)
    ensures ino in Chain(par, p) ==>
              Inserted(Walk(par, ino), Walk(par + [p], ino), Walk(par, p), |par| + 2, before, after)
    decreases |par| + 1 - ino, |par| + 1
  {
    hide Walk, WalkChildren, Children, ListChildren, Chain, AllUpTo, ValidParents, Branches, PreOrdered;
    var n := |Children(par, ino)|;
    GrownParents(par, p);
    ChildrenSnoc(par, p, ino);
    BranchesIff(par, ino, p);
    WalkUnfold(par, ino);
    WalkUnfold(par + [p], ino);
    before, after := WalkChildrenGrow(par, p, ino, n);
    if ino == p {
      WalkGrowsAt(par, p);
      before, after := [], [];
      assert [] + Walk(par, p) + [] == Walk(par, p);
      assert [] + Walk(par, p) + [|par| + 2] + [] == Walk(par, p) + [|par| + 2];
    } else if ino in Chain(par, p) {
      InsertedBehind([ino], WalkChildren(par, ino, n), WalkChildren(par + [p], ino, n), Walk(par, p), |par| + 2,
                     before, after);
      before := [ino] + before;
    }
  }

  lemma {:induction false} WalkChildrenGrow(par: seq<nat>, p: nat, ino: nat, n: nat)
    returns (before: seq<nat>, after: seq<nat>)
    requires ValidParents(par) && 1 <= p <= |par| + 1 && 1 <= ino <= |par| + 1 && n <= |Children(par, ino)|
    ensures n <= |Children(par + [p], ino)|
    ensures !Branches(par, ino, n, p) ==> WalkChildren(par + [p], ino, n) == WalkChildren(par, ino, n)
    ensures Branches(par, ino, n, p) ==>
              Inserted(WalkChildren(par, ino, n), WalkChildren(par + [p], ino, n), Walk(par, p), |par| + 2,
                       before, after)
    decreases |par| + 1 - ino, n
  {
    hide *;
    ChildrenSnoc(par, p, ino);
    GrownParents(par, p);
    before, after := [], [];
    if n == 0 {
      NoWalks(par, p, ino);
    } else {
      var c := Children(par, ino)[n - 1];
      ChildAfter(par, ino, n - 1);
      before, after := WalkChildrenGrow(par, p, ino, n - 1);
      var b, a := WalkGrows(par, p, c);
      before, after := GrowStep(par, p, ino, n, before, after, b, a);
    }
  }

  lemma {:induction false} GrownParents(par: seq<nat>, p: nat)
    requires ValidParents(par) && 1 <= p <= |par| + 1
    ensures ValidParents(par + [p])
  {
  }

  lemma {:induction false} NoWalks(par: seq<nat>, p: nat, ino: nat)
    requires ValidParents(par) && 1 <= p <= |par| + 1 && 1 <= ino <= |par| + 1
    ensures !Branches(par, ino, 0, p)
    ensures WalkChildren(par, ino, 0) == [] && WalkChildren(par + [p], ino, 0) == []
  {
  }

  lemma {:induction false} WalkChildrenLast(par: seq<nat>, ino: nat, n: nat)
    requires ValidParents(par) && 1 <= ino <= |par| + 1 && 0 < n <= |Children(par, ino)|
    ensures WalkChildren(par, ino, n) == WalkChildren(par, ino, n - 1) + Walk(par, Children(par, ino)[n - 1])
  {
  }

  lemma {:induction false} BranchesLast(par: seq<nat>, ino: nat, n: nat, p: nat)
    requires ValidParents(par) && 1 <= p <= |par| + 1 && 0 < n <= |Children(par, ino)|
    ensures Branches(par, ino, n, p) <==> Branches(par, ino, n - 1, p) || Children(par, ino)[n - 1] in Chain(par, p)
  {
  }

  /** One more child: its walk grows, or an earlier one has grown, or none. */
  lemma {:induction false} GrowStep(par: seq<nat>, p: nat, ino: nat, n: nat, b1: seq<nat>, a1: seq<nat>, b2: seq<nat>,
                                    a2: seq<nat>)
    returns (before: seq<nat>, after: seq<nat>)
    requires ValidParents(par) && 1 <= p <= |par| + 1 && 1 <= ino <= |par| + 1 && 0 < n <= |Children(par, ino)|
    requires n <= |Children(par + [p], ino)| && Children(par + [p], ino)[n - 1] == Children(par, ino)[n - 1]
    requires !Branches(par, ino, n - 1, p) ==> WalkChildren(par + [p], ino, n - 1) == WalkChildren(par, ino, n - 1)
    requires Branches(par, ino, n - 1, p) ==>
               Inserted(WalkChildren(par, ino, n - 1), WalkChildren(par + [p], ino, n - 1), Walk(par, p), |par| + 2,
                        b1, a1)
    requires var c := Children(par, ino)[n - 1];
             && (c !in Chain(par, p) ==> Walk(par + [p], c) == Walk(par, c))
             && (c in Chain(par, p) ==> Inserted(Walk(par, c), Walk(par + [p], c), Walk(par, p), |par| + 2, b2, a2))
    ensures !Branches(par, ino, n, p) ==> WalkChildren(par + [p], ino, n) == WalkChildren(par, ino, n)
    ensures Branches(par, ino, n, p) ==>
              Inserted(WalkChildren(par, ino, n), WalkChildren(par + [p], ino, n), Walk(par, p), |par| + 2,
                       before, after)
  {
    hide *;
    GrownParents(par, p);
    ChildAfter(par, ino, n - 1);
    var c := Children(par, ino)[n - 1];
    var w, w' := WalkChildren(par, ino, n - 1), WalkChildren(par + [p], ino, n - 1);
    var v, v' := Walk(par, c), Walk(par + [p], c);
    WalkChildrenLast(par, ino, n);
    WalkChildrenLast(par + [p], ino, n);
    BranchesLast(par, ino, n, p);
    if c in Chain(par, p) {
      NoSecondBranch(par, ino, n, p);
    }
    before, after := [], [];
    if c in Chain(par, p) {
      InsertedBehind(w, v, v', Walk(par, p), |par| + 2, b2, a2);
      before, after := w + b2, a2;
    } else if Branches(par, ino, n - 1, p) {
      InsertedAhead(w, w', v, Walk(par, p), |par| + 2, b1, a1);
      before, after := b1, a1 + v;
    }
  }

  lemma {:induction false} NoSecondBranch(par: seq<nat>, ino: nat, n: nat, p: nat)
    requires ValidParents(par) && 1 <= p <= |par| + 1 && 0 < n <= |Children(par, ino)|
    requires Children(par, ino)[n - 1] in Chain(par, p)
    ensures !Branches(par, ino, n - 1, p)
  {
    var cs := Children(par, ino);
    forall k | 0 <= k < n - 1
      ensures cs[k] !in Chain(par, p)
    {
      if cs[k] in Chain(par, p) {
        OneBranch(par, p, cs[k], cs[n - 1]);
      }
    }
  }

  /** The inodes 1 to n. */
  function UpTo(n: nat): (s: seq<nat>)
    ensures |s| == n && forall i :: 0 <= i < n ==> s[i] == i + 1
  {
    seq(n, i => i + 1)
  }

  /** Each entry hangs below an ancestor of the entry before it, or below that entry itself. */
  ghost predicate PreOrdered(par: seq<nat>)
    requires ValidParents(par)
  {
    forall i :: 0 <= i < |par| ==> par[i] in Chain(par, i + 1)
  }

  /** The depth-first walk is the list order exactly when the list is in pre-order. */
  lemma {:induction false} WalkIsListOrder(par: seq<nat>)
    requires ValidParents(par)
    ensures Walk(par, ROOT) == UpTo(|par| + 1) <==> PreOrdered(par)
    decreases |par|
  {
    hide Walk, WalkChildren, Children, ListChildren, Chain, AllUpTo, ValidParents, Branches, PreOrdered;
    if par == [] {
      EmptyWalk();
    } else {
      var init, p := par[..|par| - 1], par[|par| - 1];
      PrefixParents(par);
      WalkIsListOrder(init);
      PreOrderedSnoc(init, p);
      RootInChain(init, p);
      var before, after := WalkGrows(init, p, ROOT);
      WalkUnfold(init, p);
      WalkReaches(init, p, |par|);
      InsertedAtEnd(Walk(init, ROOT), Walk(par, ROOT), Walk(init, p), before, after, |par|);
    }
  }

  lemma {:induction false} EmptyWalk()
    ensures Walk([], ROOT) == UpTo(1) && PreOrdered([])
  {
    assert Walk([], ROOT) == [ROOT];
  }

  lemma {:induction false} PrefixParents(par: seq<nat>)
    requires ValidParents(par) && par != []
    ensures var init, p := par[..|par| - 1], par[|par| - 1];
            par == init + [p] && ValidParents(init) && 1 <= p <= |init| + 1
  {
  }

  lemma {:induction false} InsertedAtEnd(walk: seq<nat>, grown: seq<nat>, block: seq<nat>, before: seq<nat>,
                                         after: seq<nat>, n: nat)
    requires Inserted(walk, grown, block, n + 1, before, after) && block != []
    ensures grown == UpTo(n + 1) <==> walk == UpTo(n) && n in block
  {
    var head := before + block;
    if grown == UpTo(n + 1) {
      assert grown[|head|] == n + 1;
      assert |head| == n && after == [];
      assert walk == grown[..n] == UpTo(n);
      assert block[|block| - 1] == walk[n - 1] == n;
    }
    if walk == UpTo(n) && n in block {
      var k :| 0 <= k < |block| && block[k] == n;
      assert walk[|before| + k] == n;
      assert after == [];
      assert grown == UpTo(n) + [n + 1];
    }
  }

  lemma {:induction false} PreOrderedSnoc(par: seq<nat>, p: nat)
    requires ValidParents(par) && 1 <= p <= |par| + 1
    ensures PreOrdered(par + [p]) <==> PreOrdered(par) && p in Chain(par, |par| + 1)
  {
    var all := par + [p];
    forall x: nat | 1 <= x <= |par| + 1
      ensures Chain(all, x) == Chain(par, x)
    {
      ChainGrows(par, p, x);
    }
    if PreOrdered(all) {
      assert all[|par|] in Chain(all, |par| + 1);
      forall i | 0 <= i < |par|
        ensures par[i] in Chain(par, i + 1)
      {
        assert all[i] in Chain(all, i + 1);
      }
    }
  }

  lemma {:induction false} RootInChain(par: seq<nat>, x: nat)
    requires ValidParents(par) && 1 <= x <= |par| + 1
    ensures ROOT in Chain(par, x)
    decreases x
  {
    if x > 1 {
      RootInChain(par, par[x - 2]);
    }
  }

  // ----- the walk over the nodes themselves -----

  /** Every child is a later node of the tree. */
  predicate Downward(tree: seq<Node>) {
    forall i, k :: 0 <= i < |tree| && 0 <= k < |tree[i].children| ==> i + 1 < tree[i].children[k] <= |tree|
  }

  /** The depth-first walk that follows the children of the nodes. */
  function NodeWalk(tree: seq<Node>, ino: nat): seq<nat>
    requires Downward(tree) && 1 <= ino <= |tree|
    decreases |tree| - ino, |tree[ino - 1].children| + 1
  {
    [ino] + NodeWalkChildren(tree, ino, |tree[ino - 1].children|)
  }

  function NodeWalkChildren(tree: seq<Node>, ino: nat, n: nat): seq<nat>
    requires Downward(tree) && 1 <= ino <= |tree| && n <= |tree[ino - 1].children|
    decreases |tree| - ino, n
  {
    if n == 0 then []
    else NodeWalkChildren(tree, ino, n - 1) + NodeWalk(tree, tree[ino - 1].children[n - 1])
  }

  lemma {:induction false} TreeDownward(tree: seq<Node>, files: seq<Description>)
    requires Named(files) && IsTree(tree, files)
    ensures Downward(tree)
  {
    hide IsTree, Parents, Children;
    forall i, k | 0 <= i < |tree| && 0 <= k < |tree[i].children|
      ensures i + 1 < tree[i].children[k] <= |tree|
    {
      NodeShape(tree, files, i + 1);
      ChildAfter(Parents(files), i + 1, k);
    }
  }

  lemma {:induction false} SameWalk(tree: seq<Node>, files: seq<Description>, ino: nat)
    requires Named(files) && IsTree(tree, files) && Downward(tree) && 1 <= ino <= |tree|
    requires |tree| == |files| + 1
    ensures NodeWalk(tree, ino) == Walk(Parents(files), ino)
    decreases |tree| - ino, |tree| + 1
  {
    hide IsTree, Parents, Children, ListChildren, ValidParents, WalkChildren, NodeWalkChildren;
    NodeShape(tree, files, ino);
    SameWalkChildren(tree, files, ino, |tree[ino - 1].children|);
  }

  lemma {:induction false} SameWalkChildren(tree: seq<Node>, files: seq<Description>, ino: nat, n: nat)
    requires Named(files) && IsTree(tree, files) && Downward(tree) && 1 <= ino <= |tree|
    requires |tree| == |files| + 1 && n <= |tree[ino - 1].children|
    ensures tree[ino - 1].children == Children(Parents(files), ino)
    ensures NodeWalkChildren(tree, ino, n) == WalkChildren(Parents(files), ino, n)
    decreases |tree| - ino, n
  {
    hide IsTree, Parents, Children, ListChildren, ValidParents, Walk, NodeWalk;
    NodeShape(tree, files, ino);
    if n > 0 {
      SameWalkChildren(tree, files, ino, n - 1);
      SameWalk(tree, files, tree[ino - 1].children[n - 1]);
    }
  }

  /** The walk over a built tree visits the nodes in list order exactly when the list is in pre-order. */
  lemma {:induction false} BuiltWalkIsListOrder(tree: seq<Node>, files: seq<Description>)
    requires Named(files) && IsTree(tree, files)
    ensures Downward(tree) && |tree| == |files| + 1
    ensures NodeWalk(tree, ROOT) == UpTo(|tree|) <==> PreOrdered(Parents(files))
  {
    hide IsTree, Downward, Parents, PreOrdered, NodeWalk, Walk;
    TreeLength(tree, files);
    TreeDownward(tree, files);
    SameWalk(tree, files, ROOT);
    WalkIsListOrder(Parents(files));
  }

  lemma {:induction false} TreeLength(tree: seq<Node>, files: seq<Description>)
    requires Named(files) && IsTree(tree, files)
    ensures |tree| == |files| + 1
  {
  }
}
