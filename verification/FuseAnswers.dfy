/**
 What the clipboard file system answers, told from the exchanged messages alone: the last list it accepted and the
 handles it gave out decide every answer (libs/clipboard/src/platform/fuse.rs).
 */
module FuseAnswers {
  import opened Basics
  import opened FuseTree
  import opened FuseLookup
  import opened FuseServer

  // ----- what the messages say about the tree -----

  /** The last list that was accepted. */
  function Current(history: seq<Exchange>): Option<seq<Description>> {
    if history == [] then None
    else match history[|history| - 1]
         case Exchange(Load(list), Done) => Some(list)
         case _ => Current(history[..|history| - 1])
  }

  function Accepted(history: seq<Exchange>): nat {
    if history == [] then 0
    else
      var e := history[|history| - 1];
      Accepted(history[..|history| - 1]) + (if e.request.Load? && e.answer == Done then 1 else 0)
  }

  /** The number of inodes: a root once there was a list or an `init`, and the entries of the current list. */
  function Inodes(history: seq<Exchange>): nat {
    match Current(history)
    case Some(list) => |list| + 1
    case None => if exists e <- history :: e.request == Init then 1 else 0
  }

  /** An inode is the root, a directory, or an entry of the current list. */
  function KindOf(history: seq<Exchange>, ino: nat): Option<FileType> {
    if !(1 <= ino <= Inodes(history)) then None
    else if ino == 1 then Some(Directory)
    else match Current(history)
         case Some(list) => Some(list[ino - 2].kind)
         case None => None
  }

  /** Up to its handles, the tree is that of the current list, or a lone root. */
  ghost predicate Stands(files: seq<Node>, history: seq<Exchange>) {
    match Current(history)
    case Some(list) =>
      && Named(list) && |files| == |list| + 1
      && forall k :: 0 <= k < |files| ==> files[k] == NodeAt(list, k + 1).(handles := files[k].handles)
    case None =>
      && |files| == Inodes(history)
      && forall k :: 0 <= k < |files| ==> files[k] == NewRoot().(handles := files[k].handles)
  }

  lemma {:induction false} MessagesSnoc(history: seq<Exchange>, e: Exchange)
    ensures var loaded := e.request.Load? && e.answer == Done;
            && Current(history + [e]) == (if loaded then Some(e.request.list) else Current(history))
            && Accepted(history + [e]) == Accepted(history) + (if loaded then 1 else 0)
            && Inodes(history + [e]) == if loaded then |e.request.list| + 1
                                        else if e.request == Init && Inodes(history) == 0 then 1
                                        else Inodes(history)
  {
    assert (history + [e])[..|history|] == history;
    assert forall x :: x in history + [e] <==> x in history || x == e;
  }

  lemma {:induction false} StepStands(s: State, history: seq<Exchange>, r: Request)
    requires Linked(s.files) && Stands(s.files, history)
    requires s.generation == Accepted(history) % U64
    ensures var (s', a) := Step(s, r);
            && Stands(s'.files, history + [Exchange(r, a)])
            && s'.generation == Accepted(history + [Exchange(r, a)]) % U64
  {
    hide Current, Accepted, Inodes, NodeAt, Lookup, Listing, Page, Without;
    var (s', a) := Step(s, r);
    MessagesSnoc(history, Exchange(r, a));
  }

  lemma {:induction false} RunStands(requests: seq<Request>)
    ensures var (s, history) := Run(requests);
            Stands(s.files, history) && s.generation == Accepted(history) % U64
    decreases |requests|
  {
    if requests == [] {
      assert Stands(START.files, []);
    } else {
      hide Stands, Step, Accepted, Linked;
      var init, r := requests[..|requests| - 1], requests[|requests| - 1];
      RunStands(init);
      StepKeepsLinked(Run(init).0, r);
      StepStands(Run(init).0, Run(init).1, r);
    }
  }

  /** What stands at an inode, as the messages have it. */
  lemma {:induction false} NodeTold(requests: seq<Request>, ino: nat)
    requires Opens(Run(requests).1) <= U64
    ensures var (s, history) := Run(requests);
            && |s.files| == Inodes(history)
            && (KindOf(history, ino).Some? <==> 1 <= ino <= |s.files|)
            && (1 <= ino <= |s.files| ==>
                  && Some(s.files[ino - 1].kind) == KindOf(history, ino) && !s.files[ino - 1].gc
                  && forall fh :: fh in s.files[ino - 1].handles <==> fh in Live(history, ino))
  {
    hide Run, Current, Opens, Live;
    RunStands(requests);
    HandleSafety(requests);
    var (s, history) := Run(requests);
    if 1 <= ino <= |s.files| {
      assert forall fh :: fh in Handles(s.files, ino) <==> fh in Live(history, ino);
    }
  }

  // ----- the answers -----

  /**
   Reading. In every run within the bound, a read is admitted exactly through a live handle on a file, and a directory
   is listed exactly through a live handle on it; each errno says which condition failed first.
   */
  lemma {:induction false} ReadsOverRuns(requests: seq<Request>, ino: nat, fh: nat, offset: int, room: nat)
    requires Opens(Run(requests).1) <= U64
    ensures var (s, history) := Run(requests);
            var kind, live := KindOf(history, ino), fh in Live(history, ino);
            var read, list := Step(s, Read(ino, fh)).1, Step(s, ReadDir(ino, fh, offset, room)).1;
            && (read == Done <==> live && kind == Some(File))
            && (read == Failed(ENFILE) <==> live && kind != Some(File))
            && (read == Failed(EBADF) <==> kind.Some? && !live)
            && (read == Failed(ENOENT) <==> kind.None?)
            && (list.Listed? <==> live && kind == Some(Directory))
            && (list == Failed(ENOTDIR) <==> live && kind != Some(Directory))
            && (list == Failed(EBADF) <==> kind.Some? && !live)
            && (list == Failed(ENOENT) <==> kind.None?)
  {
    hide Run, KindOf, Listing, Page, Live, Opens;
    NodeTold(requests, ino);
    LiveExists(requests, ino, fh);
  }

  /** A live handle is on an inode. */
  lemma {:induction false} LiveExists(requests: seq<Request>, ino: nat, fh: nat)
    requires Opens(Run(requests).1) <= U64
    ensures var (s, history) := Run(requests);
            fh in Live(history, ino) ==> 1 <= ino <= |s.files|
  {
    hide Run, Live, Opens;
    HandleSafety(requests);
    assert fh in Live(Run(requests).1, ino) ==> fh in Handles(Run(requests).0.files, ino);
  }

  /** Releasing succeeds exactly for a live handle; a directory's release looks at the kind first. */
  lemma {:induction false} ReleasesOverRuns(requests: seq<Request>, ino: nat, fh: nat)
    requires Opens(Run(requests).1) <= U64
    ensures var (s, history) := Run(requests);
            var kind, live := KindOf(history, ino), fh in Live(history, ino);
            var release, dir := Step(s, Release(ino, fh)).1, Step(s, ReleaseDir(ino, fh)).1;
            && (release == Done <==> live)
            && (release == Failed(EBADF) <==> kind.Some? && !live)
            && (release == Failed(ENOENT) <==> kind.None?)
            && (dir == Done <==> live && kind == Some(Directory))
            && (dir == Failed(EBADF) <==> !live && kind == Some(Directory))
            && (dir == Failed(ENOTDIR) <==> kind.Some? && kind != Some(Directory))
            && (dir == Failed(ENOENT) <==> kind.None?)
  {
    hide Run, KindOf, Live, Opens, Without;
    NodeTold(requests, ino);
    LiveExists(requests, ino, fh);
  }

  /** Opening succeeds exactly for the kind it is for, with the number of handles given out so far as the handle. */
  lemma {:induction false} OpensOverRuns(requests: seq<Request>, ino: nat)
    requires Opens(Run(requests).1) <= U64
    ensures var (s, history) := Run(requests);
            var kind, next := KindOf(history, ino), Opened(Opens(history) % U64);
            var open, dir := Step(s, Open(ino)).1, Step(s, OpenDir(ino)).1;
            && (open == next <==> kind == Some(File))
            && (open == Failed(ENFILE) <==> kind.Some? && kind != Some(File))
            && (open == Failed(ENOENT) <==> kind.None?)
            && (dir == next <==> kind == Some(Directory))
            && (dir == Failed(ENOTDIR) <==> kind.Some? && kind != Some(Directory))
            && (dir == Failed(ENOENT) <==> kind.None?)
  {
    hide Run, KindOf, Live, Opens, HandlesSafe;
    NodeTold(requests, ino);
    AgreesAlways(requests);
  }

  /** A node marked for collection, which no run has, is refused to openers and readers, behind every other check. */
  lemma {:induction false} MarkedIsBusy(s: State, ino: nat, fh: nat)
    requires Linked(s.files) && 1 <= ino <= |s.files|
    ensures var n := s.files[ino - 1];
            && (Step(s, Open(ino)).1 == Failed(EBUSY) <==> n.kind == File && n.gc)
            && (Step(s, OpenDir(ino)).1 == Failed(EBUSY) <==> n.kind == Directory && n.gc)
            && (Step(s, Read(ino, fh)).1 == Failed(EBUSY) <==> n.kind == File && n.gc && fh in n.handles)
  {
    hide Listing, Page, Lookup;
  }

  /** A list is accepted exactly if every entry has a file name, and `init` always succeeds. */
  lemma {:induction false} LoadsOverRuns(requests: seq<Request>, list: seq<Description>)
    ensures var s := Run(requests).0;
            var a := Step(s, Load(list)).1;
            && (a == Done <==> forall d <- list :: d.name.FileName().Some?)
            && (a == Rejected <==> exists d <- list :: d.name.FileName().None?)
            && Step(s, Init).1 == Done
  {
    hide Run;
  }

  /**
   Looking up a name finds the first entry of the current list with this parent and name, together with the number
   of lists accepted so far; the errnos come in the order long name, unknown parent, parent that is no directory, no
   such entry.
   */
  lemma {:induction false} LookupsOverRuns(requests: seq<Request>, parent: nat, name: Name)
    requires Opens(Run(requests).1) <= U64
    ensures var (s, history) := Run(requests);
            var kind, a := KindOf(history, parent), Step(s, Find(parent, name)).1;
            && (a == Failed(ENAMETOOLONG) <==> |name| > 255)
            && (a == Failed(ENOTDIR) <==> |name| <= 255 && kind.Some? && kind != Some(Directory))
            && (a == Failed(ENOENT) <==>
                  |name| <= 255 && (kind.None? || (kind == Some(Directory) && NoEntry(history, parent, name))))
            && (a.Entry? <==> |name| <= 255 && kind == Some(Directory) && !NoEntry(history, parent, name))
            && (a.Entry? ==> a.generation == Accepted(history) % U64 && IsEntry(history, parent, name, a.ino)
                             && forall i :: IsEntry(history, parent, name, i) ==> a.ino <= i)
  {
    hide Run, KindOf, Opens, Live, Accepted, FirstNamed, IsEntry, Stands;
    NodeTold(requests, parent);
    RunStands(requests);
    var (s, history) := Run(requests);
    if 1 <= parent <= |s.files| {
      FirstEntry(s.files, history, parent, name);
    }
  }

  /** Inode `i` is the entry of the current list with this parent and this name. */
  ghost predicate IsEntry(history: seq<Exchange>, parent: nat, name: Name, i: nat) {
    match Current(history)
    case None => false
    case Some(list) =>
      2 <= i <= |list| + 1 && Parents(list)[i - 2] == parent && list[i - 2].name.FileName() == Some(name)
  }

  ghost predicate NoEntry(history: seq<Exchange>, parent: nat, name: Name) {
    forall i :: !IsEntry(history, parent, name, i)
  }

  lemma {:induction false} FirstEntry(files: seq<Node>, history: seq<Exchange>, parent: nat, name: Name)
    requires Stands(files, history) && Linked(files) && 1 <= parent <= |files|
    ensures match FirstNamed(files, files[parent - 1].children, name)
            case None => NoEntry(history, parent, name)
            case Some(c) => && 1 <= c <= |files| && files[c - 1].inode == c && IsEntry(history, parent, name, c)
                            && forall i :: IsEntry(history, parent, name, i) ==> c <= i
  {
    hide Inodes, Linked, Children, FirstNamed, IsEntry;
    var cs := files[parent - 1].children;
    assert forall a, b :: 0 <= a < b < |cs| ==> cs[a] < cs[b];
    FirstIsFirst(files, cs, name);
    forall i: nat
      ensures IsEntry(history, parent, name, i) <==> i in cs && files[i - 1].name == name
      ensures i in cs ==> files[i - 1].inode == i
    {
      EntryIsChild(files, history, parent, name, i);
    }
  }

  lemma {:induction false} EntryIsChild(files: seq<Node>, history: seq<Exchange>, parent: nat, name: Name, i: nat)
    requires Stands(files, history) && Linked(files) && 1 <= parent <= |files|
    ensures var cs := files[parent - 1].children;
            && (i in cs ==> 1 <= i <= |files| && files[i - 1].inode == i)
            && (IsEntry(history, parent, name, i) <==> i in cs && files[i - 1].name == name)
  {
    hide Inodes, Parents, Children;
    if Current(history).Some? {
      var list := Current(history).value;
      assert files[parent - 1].children == Children(Parents(list), parent);
      if 2 <= i <= |list| + 1 {
        ChildrenComplete(Parents(list), i);
        assert files[i - 1] == NodeAt(list, i).(handles := files[i - 1].handles);
      }
    }
  }

  /** The first child found has the lowest inode of all children with this name, as they are in ascending order. */
  lemma {:induction false} FirstIsFirst(files: seq<Node>, children: seq<nat>, name: Name)
    requires forall k :: 0 <= k < |children| ==> 1 <= children[k] <= |files|
    requires forall a, b :: 0 <= a < b < |children| ==> children[a] < children[b]
    ensures match FirstNamed(files, children, name)
            case None => forall c <- children :: files[c - 1].name != name
            case Some(c) => && c in children && files[c - 1].name == name
                            && forall x <- children :: files[x - 1].name == name ==> c <= x
  {
    if children != [] && files[children[0] - 1].name != name {
      var rest := children[1..];
      FirstIsFirst(files, rest, name);
      assert forall c :: c in children <==> c == children[0] || c in rest;
    }
  }

  // ----- what a listing holds -----

  /**
   The listing of a directory in the tree of a well-listed list: itself as ".", then, unless it is the root, the
   directory its path lies in as "..", then exactly the entries whose path is its own extended by their name, each with
   its kind and in list order.
   */
  lemma {:induction false} ListingTells(tree: seq<Node>, files: seq<Description>, names: seq<Name>, ino: nat)
    requires WellListed(files) && ListedTree(tree, files) && Denotes(files, names, ino)
    ensures Linked(tree) && 1 <= ino <= |tree| == |files| + 1
    ensures var listing := Listing(tree, ino);
            var head := if names == [] then 1 else 2;
            && |listing| >= head && listing[0] == DirEntry(ino, Directory, [46])
            && (names != [] ==>
                  && listing[1].kind == Directory && listing[1].name == [46, 46]
                  && Denotes(files, names[..|names| - 1], listing[1].ino))
            && (forall k :: head <= k < |listing| ==>
                  && 2 <= listing[k].ino <= |files| + 1 && listing[k].kind == files[listing[k].ino - 2].kind
                  && Denotes(files, names + [listing[k].name], listing[k].ino))
            && (forall k, m :: head <= k < m < |listing| ==> listing[k].ino < listing[m].ino)
            && (forall c: nat, name :: Denotes(files, names + [name], c) ==>
                  exists k :: head <= k < |listing| && listing[k].ino == c)
  {
    hide WellListed, ListedTree, Parents, Children, ListChildren, PathOf, Linked, Denotes, Listing;
    DenotedInode(files, names, ino);
    ListingShape(tree, files, ino);
    if names != [] {
      ListedParent(files, names, ino);
    }
    var listing, head := Listing(tree, ino), if names == [] then 1 else 2;
    var cs := Children(Parents(files), ino);
    forall k | head <= k < |listing|
      ensures listing[k].ino == cs[k - head]
      ensures 2 <= listing[k].ino <= |files| + 1 && listing[k].kind == files[listing[k].ino - 2].kind
      ensures Denotes(files, names + [listing[k].name], listing[k].ino)
    {
      ListedChild(tree, files, names, ino, cs[k - head]);
    }
    forall c: nat, name | Denotes(files, names + [name], c)
      ensures exists k :: head <= k < |listing| && listing[k].ino == c
    {
      var k := ListedAt(tree, files, names, ino, c, name);
      assert listing[head + k].ino == c;
    }
  }

  lemma {:induction false} ListingShape(tree: seq<Node>, files: seq<Description>, ino: nat)
    requires WellListed(files) && ListedTree(tree, files) && 1 <= ino <= |files| + 1
    ensures Linked(tree) && |tree| == |files| + 1
    ensures var listing, cs := Listing(tree, ino), Children(Parents(files), ino);
            var head := if ino == ROOT then 1 else 2;
            && |listing| == head + |cs| && listing[0] == DirEntry(ino, Directory, [46])
            && (ino > ROOT ==> listing[1] == DirEntry(Parents(files)[ino - 2], Directory, [46, 46]))
            && (forall k :: head <= k < |listing| ==>
                  var c := cs[k - head];
                  1 <= c <= |tree| && listing[k] == DirEntry(c, tree[c - 1].kind, tree[c - 1].name))
            && (forall k, m :: 0 <= k < m < |cs| ==> cs[k] < cs[m])
  {
    hide WellListed, IsTree, NodeAt, Parents, Children, ValidParents, Linked, Named;
    WellListedNamed(files);
    TreeAt(tree, files, ROOT);
    NodeShape(tree, files, ino);
    assert ListChildren(tree[ino - 1].children, Parents(files), ino);
  }

  lemma {:induction false} DenotedInode(files: seq<Description>, names: seq<Name>, ino: nat)
    requires Denotes(files, names, ino)
    ensures 1 <= ino <= |files| + 1 && (names == [] <==> ino == ROOT)
  {
  }

  lemma {:induction false} ListedParent(files: seq<Description>, names: seq<Name>, ino: nat)
    requires WellListed(files) && Denotes(files, names, ino) && names != []
    ensures Denotes(files, names[..|names| - 1], Parents(files)[ino - 2])
  {
    hide WellListed, PathOf;
    ParentDenotes(files, ino - 2, names);
  }

  /** A child of a directory is an entry whose path is the directory's extended by the child's name. */
  lemma {:induction false} ListedChild(tree: seq<Node>, files: seq<Description>, names: seq<Name>, ino: nat, c: nat)
    requires WellListed(files) && ListedTree(tree, files) && Denotes(files, names, ino)
    requires c in Children(Parents(files), ino)
    ensures 2 <= c <= |tree| == |files| + 1 && tree[c - 1].kind == files[c - 2].kind
    ensures Denotes(files, names + [tree[c - 1].name], c)
  {
    hide WellListed, IsTree, Parents, ValidParents, PathOf, Linked, Named, NodeAt, Denotes;
    WellListedNamed(files);
    TreeAt(tree, files, ROOT);
    DenotedInode(files, names, ino);
    var path := names + [tree[c - 1].name];
    assert path[..|path| - 1] == names;
    NodeShape(tree, files, c);
    ChildDenotes(tree, files, ino, path, c);
  }

  /** Where an entry with such a path stands among the children. */
  lemma {:induction false} ListedAt(tree: seq<Node>, files: seq<Description>, names: seq<Name>, ino: nat, c: nat,
                                    name: Name) returns (k: nat)
    requires WellListed(files) && ListedTree(tree, files) && Denotes(files, names, ino)
    requires Denotes(files, names + [name], c)
    ensures k < |Children(Parents(files), ino)| && Children(Parents(files), ino)[k] == c
  {
    hide WellListed, IsTree, Parents, Children, ListChildren, ValidParents, PathOf, Linked, Named, NodeAt, Denotes;
    WellListedNamed(files);
    TreeAt(tree, files, ROOT);
    DenotedInode(files, names, ino);
    var path := names + [name];
    assert path[..|path| - 1] == names;
    DenotedIsChild(tree, files, ino, path, c);
    NodeShape(tree, files, ino);
    k :| 0 <= k < |Children(Parents(files), ino)| && Children(Parents(files), ino)[k] == c;
  }
}
