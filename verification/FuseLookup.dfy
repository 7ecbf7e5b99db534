/**
 Name lookup and paged directory listing over the clipboard file tree
 (libs/clipboard/src/platform/fuse.rs).
 */
module FuseLookup {
  import opened Basics
  import opened FuseTree

  const MAX_NAME_LEN := 255

  datatype Errno = ENOENT | ENOTDIR | ENAMETOOLONG | EBADF | EBUSY | ENFILE

  /** `files.get(ino as usize - 1)`; the subtraction wraps for zero, which is past every list. */
  function Get(files: seq<Node>, ino: nat): Option<Node> {
    if 1 <= ino <= |files| then Some(files[ino - 1]) else None
  }

  ghost predicate Linked(files: seq<Node>) {
    forall i, k :: 0 <= i < |files| && 0 <= k < |files[i].children| ==> 1 <= files[i].children[k] <= |files|
  }

  /** The first of the listed children with this name. */
  function FirstNamed(files: seq<Node>, children: seq<nat>, name: Name): (r: Option<nat>)
    requires forall k :: 0 <= k < |children| ==> 1 <= children[k] <= |files|
    ensures r.Some? ==> 1 <= r.value <= |files|
  {
    if children == [] then None
    else if files[children[0] - 1].name == name then Some(children[0])
    else FirstNamed(files, children[1..], name)
  }

  function Lookup(files: seq<Node>, parent: nat, name: Name): Result<nat, Errno>
    requires Linked(files)
  {
    if |name| > MAX_NAME_LEN then Err(ENAMETOOLONG)
    else match Get(files, parent)
         case None => Err(ENOENT)
         case Some(node) =>
           if node.kind != Directory then Err(ENOTDIR)
           else match FirstNamed(files, node.children, name)
                case None => Err(ENOENT)
                case Some(c) => Ok(files[c - 1].inode)
  }

  /** Resolving a relative path name by name from the root. */
  function Resolve(files: seq<Node>, names: seq<Name>): Result<nat, Errno>
    requires Linked(files)
  {
    if names == [] then Ok(ROOT)
    else match Resolve(files, names[..|names| - 1])
         case Err(e) => Err(e)
         case Ok(p) => Lookup(files, p, names[|names| - 1])
  }

  // ----- lookup agrees with the list -----

  function Normals(names: seq<Name>): (comps: seq<Component>)
    ensures |comps| == |names|
    ensures forall k :: 0 <= k < |names| ==> comps[k] == Normal(names[k])
  {
    if names == [] then [] else Normals(names[..|names| - 1]) + [Normal(names[|names| - 1])]
  }

  function PathOf(names: seq<Name>): Path {
    Path(false, Normals(names))
  }

  lemma {:induction false} PathOfInjective(a: seq<Name>, b: seq<Name>)
    requires PathOf(a) == PathOf(b)
    ensures a == b
  {
    assert |a| == |PathOf(a).comps| == |b|;
    forall k | 0 <= k < |a|
      ensures a[k] == b[k]
    {
      assert PathOf(a).comps[k] == Normal(a[k]) && PathOf(b).comps[k] == Normal(b[k]);
    }
  }

  /** Relative, non-empty, without dot components, the last one of a length `lookup` accepts. */
  ghost predicate Plain(p: Path) {
    exists names :: names != [] && |names[|names| - 1]| <= MAX_NAME_LEN && p == PathOf(names)
  }

  /** The parent path of entry i is the root or a directory listed before it. */
  ghost predicate BehindParent(files: seq<Description>, i: nat)
    requires i < |files|
  {
    |files[i].name.comps| > 1 ==>
      exists j :: 0 <= j < i && files[j].kind == Directory && files[i].name.Parent() == Some(files[j].name)
  }

  ghost predicate Distinct(files: seq<Description>) {
    forall i, j :: 0 <= i < j < |files| ==> files[i].name != files[j].name
  }

  /** Distinct plain paths, each behind its parent directory. */
  ghost predicate WellListed(files: seq<Description>) {
    && Distinct(files)
    && (forall i: nat {:trigger BehindParent(files, i)} :: i < |files| ==>
          Plain(files[i].name) && BehindParent(files, i))
  }

  /** `names` is the path of inode `ino` in the list; the empty path is the root. */
  predicate Denotes(files: seq<Description>, names: seq<Name>, ino: nat) {
    if names == [] then ino == ROOT
    else 2 <= ino <= |files| + 1 && files[ino - 2].name == PathOf(names)
  }

  lemma {:induction false} DenotesUnique(files: seq<Description>, a: seq<Name>, b: seq<Name>, x: nat, y: nat)
    requires WellListed(files) && Denotes(files, a, x) && Denotes(files, b, y)
    ensures x == y <==> a == b
  {
    if x == y && a != [] && b != [] {
      assert PathOf(a) == PathOf(b);
      PathOfInjective(a, b);
    }
    assert Distinct(files);
    hide WellListed, Normals;
    if a != [] && b != [] {
      assert x < y ==> files[x - 2].name != files[y - 2].name;
      assert y < x ==> files[y - 2].name != files[x - 2].name;
    }
  }

  lemma {:induction false} PlainNames(p: Path) returns (names: seq<Name>)
    requires Plain(p)
    ensures names != [] && p == PathOf(names) && |names[|names| - 1]| <= MAX_NAME_LEN
    ensures p.FileName() == Some(names[|names| - 1])
    ensures p.Parent() == Some(PathOf(names[..|names| - 1]))
  {
    names :| names != [] && |names[|names| - 1]| <= MAX_NAME_LEN && p == PathOf(names);
    assert PathOf(names).comps[..|names| - 1] == PathOf(names[..|names| - 1]).comps;
  }

  lemma {:induction false} NamesOf(files: seq<Description>, i: nat) returns (names: seq<Name>)
    requires WellListed(files) && i < |files|
    ensures names != [] && files[i].name == PathOf(names) && |names[|names| - 1]| <= MAX_NAME_LEN
    ensures files[i].name.FileName() == Some(names[|names| - 1])
    ensures files[i].name.Parent() == Some(PathOf(names[..|names| - 1]))
  {
    hide Plain, PathOf, Distinct;
    assert BehindParent(files, i);
    names := PlainNames(files[i].name);
  }

  lemma {:induction false} WellListedNamed(files: seq<Description>)
    requires WellListed(files)
    ensures Named(files)
  {
    forall d | d in files
      ensures d.name.FileName().Some?
    {
      var i :| 0 <= i < |files| && files[i] == d;
      var _ := NamesOf(files, i);
    }
  }

  lemma {:induction false} DirInodeFinds(files: seq<Description>, p: Path, j: nat)
    requires j < |files| && files[j].kind == Directory && files[j].name == p
    ensures DirInode(files, p) > ROOT
  {
    if j < |files| - 1 {
      DirInodeFinds(files[..|files| - 1], p, j);
    }
  }

  /** The parent of an entry is the directory its path minus the last component denotes. */
  lemma {:induction false} ParentDenotes(files: seq<Description>, i: nat, names: seq<Name>)
    requires WellListed(files) && i < |files| && names != [] && files[i].name == PathOf(names)
    ensures var p := Parents(files)[i];
            && Denotes(files, names[..|names| - 1], p)
            && (p > ROOT ==> files[p - 2].kind == Directory)
  {
    var init := names[..|names| - 1];
    var n2 := NamesOf(files, i);
    PathOfInjective(names, n2);
    ParentsAt(files, i);
    var p := Parents(files)[i];
    var before := files[..i];
    assert p == DirInode(before, PathOf(init));
    DirInodeIsDirectory(before, PathOf(init));
    forall k: nat | k < |files|
      ensures files[k].name.comps != []
    {
      var _ := NamesOf(files, k);
    }
    if init != [] {
      assert BehindParent(files, i) && |files[i].name.comps| > 1;
      var j :| 0 <= j < i && files[j].kind == Directory && files[i].name.Parent() == Some(files[j].name);
      DirInodeFinds(before, PathOf(init), j);
    }
  }

  lemma {:induction false} TreeName(tree: seq<Node>, files: seq<Description>, ino: nat)
    requires Named(files) && IsTree(tree, files) && 2 <= ino <= |tree|
    ensures |tree| == |files| + 1 && files[ino - 2].name.FileName() == Some(tree[ino - 1].name)
  {
    hide Parents, Children, ListChildren, ValidParents;
    assert tree[ino - 1] == NodeAt(files, ino);
  }

  /** A child of `p` carries the name `c` exactly when the path of `p` extended by `c` is its path. */
  lemma {:induction false} ChildDenotes(tree: seq<Node>, files: seq<Description>, p: nat, names: seq<Name>, child: nat)
    requires WellListed(files) && Named(files) && IsTree(tree, files)
    requires names != [] && Denotes(files, names[..|names| - 1], p)
    requires 2 <= child <= |tree| && Parents(files)[child - 2] == p
    ensures tree[child - 1].name == names[|names| - 1] <==> Denotes(files, names, child)
  {
    hide NodeAt, IsTree, Parents, ValidParents, WellListed, Named, ParentInode, PathOf;
    var init, c := names[..|names| - 1], names[|names| - 1];
    TreeName(tree, files, child);
    var own := NamesOf(files, child - 2);
    ParentDenotes(files, child - 2, own);
    DenotesUnique(files, own[..|own| - 1], init, p, p);
    assert own == init + [own[|own| - 1]] && names == init + [c];
    if Denotes(files, names, child) {
      PathOfInjective(own, names);
    }
  }

  lemma {:induction false} TreeLinked(tree: seq<Node>, files: seq<Description>)
    requires Named(files) && IsTree(tree, files)
    ensures Linked(tree)
  {
    forall i, k | 0 <= i < |tree| && 0 <= k < |tree[i].children|
      ensures 1 <= tree[i].children[k] <= |tree|
    {
      assert tree[i] == NodeAt(files, i + 1);
    }
  }

  lemma {:induction false} FirstNamedFinds(files: seq<Node>, children: seq<nat>, name: Name)
    requires forall k :: 0 <= k < |children| ==> 1 <= children[k] <= |files|
    ensures match FirstNamed(files, children, name)
            case Some(c) => c in children && files[c - 1].name == name
            case None => forall k :: 0 <= k < |children| ==> files[children[k] - 1].name != name
  {
    if children != [] && files[children[0] - 1].name != name {
      FirstNamedFinds(files, children[1..], name);
      if FirstNamed(files, children, name) == None {
        forall k | 0 <= k < |children|
          ensures files[children[k] - 1].name != name
        {
          assert k > 0 ==> children[k] == children[1..][k - 1];
        }
      }
    }
  }

  /** Lookup in the tree finds the first child with the name, which is an entry of the list. */
  lemma {:induction false} LookupIs(tree: seq<Node>, files: seq<Description>, p: nat, c: Name)
    returns (first: Option<nat>)
    requires Named(files) && IsTree(tree, files) && Linked(tree) && 1 <= p <= |tree|
    ensures Lookup(tree, p, c)
            == if |c| > MAX_NAME_LEN then Err(ENAMETOOLONG)
               else if tree[p - 1].kind != Directory then Err(ENOTDIR)
               else if first == None then Err(ENOENT)
               else Ok(first.value)
    ensures first.Some? ==> 2 <= first.value <= |tree| && Parents(files)[first.value - 2] == p
                            && tree[first.value - 1].name == c
    ensures first.None? ==>
              var cs := tree[p - 1].children;
              forall k :: 0 <= k < |cs| ==> 1 <= cs[k] <= |tree| && tree[cs[k] - 1].name != c
  {
    hide IsTree, Parents, ValidParents, Children, Named, FirstNamed;
    var node := tree[p - 1];
    NodeShape(tree, files, p);
    var cs := Children(Parents(files), p);
    FirstNamedFinds(tree, cs, c);
    first := FirstNamed(tree, cs, c);
    if first.Some? {
      NodeShape(tree, files, first.value);
    }
  }

  /** One lookup step below a node that is reached by its path. */
  lemma {:induction false} LookupStep(tree: seq<Node>, files: seq<Description>, p: nat, names: seq<Name>, ino: nat)
    requires WellListed(files) && Named(files) && IsTree(tree, files) && Linked(tree)
    requires names != [] && Denotes(files, names[..|names| - 1], p)
    ensures Lookup(tree, p, names[|names| - 1]) == Ok(ino) <==> Denotes(files, names, ino)
  {
    assert |tree| == |files| + 1 && 1 <= p <= |tree|;
    hide *;
    var first := LookupIs(tree, files, p, names[|names| - 1]);
    if first.Some? {
      ChildDenotes(tree, files, p, names, first.value);
    }
    if Denotes(files, names, ino) {
      DenotedIsChild(tree, files, p, names, ino);
      if first.Some? {
        DenotesUnique(files, names, names, ino, first.value);
      }
    }
  }

  /** The descriptor with this path is among the children of the directory before it, under its last name. */
  lemma {:induction false} DenotedIsChild(tree: seq<Node>, files: seq<Description>, p: nat, names: seq<Name>, ino: nat)
    requires WellListed(files) && Named(files) && IsTree(tree, files)
    requires names != [] && Denotes(files, names[..|names| - 1], p) && Denotes(files, names, ino)
    ensures Parents(files)[ino - 2] == p && |names[|names| - 1]| <= MAX_NAME_LEN
    ensures tree[p - 1].kind == Directory && ino in tree[p - 1].children && tree[ino - 1].name == names[|names| - 1]
  {
    hide WellListed, PathOf, Parents, DirInode, IsTree;
    var par := Parents(files);
    var own := NamesOf(files, ino - 2);
    PathOfInjective(own, names);
    ParentDenotes(files, ino - 2, names);
    DenotesUnique(files, names[..|names| - 1], names[..|names| - 1], p, par[ino - 2]);
    ChildrenComplete(par, ino);
    TreeAt(tree, files, p);
    TreeAt(tree, files, ino);
  }

  lemma {:induction false} TreeAt(tree: seq<Node>, files: seq<Description>, ino: nat)
    requires Named(files) && IsTree(tree, files) && 1 <= ino <= |files| + 1
    ensures |tree| == |files| + 1 && tree[ino - 1] == NodeAt(files, ino)
  {
  }

  lemma {:induction false} ResolveDenotes(tree: seq<Node>, files: seq<Description>, names: seq<Name>, ino: nat)
    requires WellListed(files) && Named(files) && IsTree(tree, files) && Linked(tree)
    ensures Resolve(tree, names) == Ok(ino) <==> Denotes(files, names, ino)
    decreases |names|
  {
    if names != [] {
      hide WellListed, PathOf, Parents, IsTree, Linked, Named, Lookup;
      var init := names[..|names| - 1];
      match Resolve(tree, init)
      case Ok(p) =>
        ResolveDenotes(tree, files, init, p);
        LookupStep(tree, files, p, names, ino);
      case Err(_) =>
        if Denotes(files, names, ino) {
          ParentDenotes(files, ino - 2, names);
          ResolveDenotes(tree, files, init, Parents(files)[ino - 2]);
        }
    }
  }

  /** The tree that is built from a well-listed list of descriptors. */
  ghost predicate ListedTree(tree: seq<Node>, files: seq<Description>)
    requires WellListed(files)
  {
    WellListedNamed(files);
    IsTree(tree, files) && Linked(tree)
  }

  /**
   Resolving any sequence of names from the root succeeds exactly with the inode of the descriptor that
   has this path, and fails when no descriptor has it.
   */
  lemma {:induction false} ResolveFindsDescriptor(tree: seq<Node>, files: seq<Description>, names: seq<Name>, ino: nat)
    requires WellListed(files) && ListedTree(tree, files)
    ensures Resolve(tree, names) == Ok(ino) <==> Denotes(files, names, ino)
  {
    hide WellListed, IsTree, Linked, Resolve, Denotes, Named;
    WellListedNamed(files);
    ResolveDenotes(tree, files, names, ino);
  }

  // ----- directory listing -----

  datatype DirEntry = DirEntry(ino: nat, kind: FileType, name: Name)

  const DOT: Name := [46]
  const DOTDOT: Name := [46, 46]

  function ChildEntries(files: seq<Node>, children: seq<nat>): (es: seq<DirEntry>)
    requires forall k :: 0 <= k < |children| ==> 1 <= children[k] <= |files|
    ensures |es| == |children|
    ensures forall k :: 0 <= k < |es| ==>
              es[k] == DirEntry(children[k], files[children[k] - 1].kind, files[children[k] - 1].name)
  {
    seq(|children|, k requires 0 <= k < |children| =>
      DirEntry(children[k], files[children[k] - 1].kind, files[children[k] - 1].name))
  }

  /** Itself, its parent unless it is the root, and its children in order. */
  function Listing(files: seq<Node>, ino: nat): seq<DirEntry>
    requires Linked(files) && 1 <= ino <= |files|
  {
    var node := files[ino - 1];
    [DirEntry(ino, Directory, DOT)]
    + (if node.parent.Some? then [DirEntry(node.parent.value, Directory, DOTDOT)] else [])
    + ChildEntries(files, node.children)
  }

  /** An entry together with the cookie that asks for what follows it. */
  type Reply = (DirEntry, int)

  /** One reply of `readdir`: the entries from `offset` on, as many as the buffer takes. */
  function Page(listing: seq<DirEntry>, offset: int, room: nat): (page: seq<Reply>)
    decreases |listing| - offset, room
  {
    if room == 0 || !(0 <= offset < |listing|) then []
    else [(listing[offset], offset + 1)] + Page(listing, offset + 1, room - 1)
  }

  /** The cookie to ask with next: the last one given, or the same again after an empty reply. */
  function Cookie(page: seq<Reply>, cookie: int): int {
    if page == [] then cookie else page[|page| - 1].1
  }

  /** A reader that asks again with the last cookie it was given; `rooms` are the buffer capacities. */
  function Pages(listing: seq<DirEntry>, cookie: int, rooms: seq<nat>): seq<Reply>
    decreases |rooms|
  {
    if rooms == [] then []
    else
      var page := Page(listing, cookie, rooms[0]);
      page + Pages(listing, Cookie(page, cookie), rooms[1..])
  }

  predicate NumbersFrom(s: seq<Reply>, listing: seq<DirEntry>, a: nat)
    requires a + |s| <= |listing|
  {
    forall k :: 0 <= k < |s| ==> s[k] == (listing[a + k], a + k + 1)
  }

  /** The listing from `a` to `b`, with cookies. */
  function Numbered(listing: seq<DirEntry>, a: nat, b: nat): (s: seq<Reply>)
    requires a <= b <= |listing|
    ensures |s| == b - a && NumbersFrom(s, listing, a)
  {
    seq(b - a, k requires 0 <= k < b - a => (listing[a + k], a + k + 1))
  }

  function Total(rooms: seq<nat>): nat {
    if rooms == [] then 0 else rooms[0] + Total(rooms[1..])
  }

  lemma {:induction false} PageIsSlice(listing: seq<DirEntry>, offset: nat, room: nat)
    requires offset <= |listing|
    ensures Page(listing, offset, room) == Numbered(listing, offset, Min(offset + room, |listing|))
    decreases room
  {
    if room > 0 && offset < |listing| {
      PageIsSlice(listing, offset + 1, room - 1);
    }
  }

  lemma {:induction false} NumberedJoin(listing: seq<DirEntry>, a: nat, b: nat, c: nat)
    requires a <= b <= c <= |listing|
    ensures Numbered(listing, a, b) + Numbered(listing, b, c) == Numbered(listing, a, c)
  {
  }

  lemma {:induction false} PageEnd(listing: seq<DirEntry>, cookie: nat, room: nat)
    requires cookie <= |listing|
    ensures Cookie(Page(listing, cookie, room), cookie) == Min(cookie + room, |listing|)
  {
    hide Page;
    PageIsSlice(listing, cookie, room);
  }

  lemma {:induction false} MinTwice(a: nat, b: nat, c: nat, n: nat)
    requires a <= n
    ensures a <= Min(a + b, n) <= Min(Min(a + b, n) + c, n) == Min(a + (b + c), n) <= n
  {
  }

  /** Whatever the capacities, the pages together are the start of the listing, each entry once and in order. */
  lemma {:induction false} PagesAreListing(listing: seq<DirEntry>, cookie: nat, rooms: seq<nat>)
    requires cookie <= |listing|
    ensures Pages(listing, cookie, rooms) == Numbered(listing, cookie, Min(cookie + Total(rooms), |listing|))
    decreases |rooms|
  {
    hide Page, Numbered, NumbersFrom, Cookie, Min;
    MinTwice(cookie, 0, 0, |listing|);
    if rooms == [] {
      NothingNumbered(listing, cookie);
    } else {
      var mid := Min(cookie + rooms[0], |listing|);
      MinTwice(cookie, rooms[0], Total(rooms[1..]), |listing|);
      PageIsSlice(listing, cookie, rooms[0]);
      PageEnd(listing, cookie, rooms[0]);
      PagesAreListing(listing, mid, rooms[1..]);
      NumberedJoin(listing, cookie, mid, Min(cookie + Total(rooms), |listing|));
    }
  }

  lemma {:induction false} NothingNumbered(listing: seq<DirEntry>, a: nat)
    requires a <= |listing|
    ensures Min(a, |listing|) == a && Numbered(listing, a, a) == []
  {
  }

  lemma {:induction false} TotalAtLeast(rooms: seq<nat>)
    requires forall k :: 0 <= k < |rooms| ==> rooms[k] >= 1
    ensures Total(rooms) >= |rooms|
  {
    if rooms != [] {
      TotalAtLeast(rooms[1..]);
    }
  }

  /** With room for at least one entry per call, as many calls as there are entries list the whole directory. */
  lemma {:induction false} PagingIsComplete(listing: seq<DirEntry>, rooms: seq<nat>)
    requires forall k :: 0 <= k < |rooms| ==> rooms[k] >= 1
    requires |rooms| >= |listing|
    ensures Pages(listing, 0, rooms) == Numbered(listing, 0, |listing|)
  {
    TotalAtLeast(rooms);
    PagesAreListing(listing, 0, rooms);
  }
}
