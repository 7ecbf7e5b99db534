/**
 The request handlers of libs/clipboard/src/platform/fuse.rs as one state machine, and the safety of its
 handle table over whole runs. Every request holds the server's mutex, so requests are atomic steps.
 */
module FuseServer {
  import opened Basics
  import opened FuseTree
  import opened FuseLookup

  /** The server: its nodes, the next handle (a wrapping u64) and how many lists it has loaded (another one). */
  datatype State = State(files: seq<Node>, counter: nat, generation: nat)

  datatype Request =
    | Init
    | Load(list: seq<Description>)
    | Find(parent: nat, name: Name)
    | Open(ino: nat)
    | OpenDir(ino: nat)
    | Read(ino: nat, fh: nat)
    | ReadDir(ino: nat, fh: nat, offset: int, room: nat)
    | Release(ino: nat, fh: nat)
    | ReleaseDir(ino: nat, fh: nat)

  datatype Answer =
    | Done
    | Rejected
    | Failed(errno: Errno)
    | Entry(ino: nat, generation: nat)
    | Opened(fh: nat)
    | Listed(page: seq<Reply>)

  // ----- specification of the handlers -----

  /** The nodes of the first `n` inodes of a list's tree. */
  function TreeOf(list: seq<Description>, n: nat): (tree: seq<Node>)
    requires Named(list) && n <= |list| + 1
    ensures |tree| == n && forall i :: 0 <= i < n ==> tree[i] == NodeAt(list, i + 1)
  {
    if n == 0 then [] else TreeOf(list, n - 1) + [NodeAt(list, n)]
  }

  ghost function LoadStep(s: State, list: seq<Description>): (State, Answer) {
    if Named(list)
    then (s.(files := TreeOf(list, |list| + 1), generation := (s.generation + 1) % U64), Done)
    else (s, Rejected)
  }

  function InitStep(s: State): State {
    if s.files == [] then s.(files := [NewRoot()]) else s
  }

  function WithHandles(s: State, ino: nat, handles: seq<nat>): State
    requires 1 <= ino <= |s.files|
  {
    s.(files := s.files[ino - 1 := s.files[ino - 1].(handles := handles)])
  }

  /** `open` and `opendir` differ in the kind they want and the error for another one. */
  function OpenStep(s: State, ino: nat, kind: FileType, wrongKind: Errno): (State, Answer) {
    match Get(s.files, ino)
    case None => (s, Failed(ENOENT))
    case Some(node) =>
      if node.kind != kind then (s, Failed(wrongKind))
      else if node.gc then (s, Failed(EBUSY))
      else (WithHandles(s, ino, node.handles + [s.counter]).(counter := (s.counter + 1) % U64), Opened(s.counter))
  }

  function Without(handles: seq<nat>, fh: nat): seq<nat> {
    if handles == [] then []
    else if handles[0] == fh then handles[1..]
    else [handles[0]] + Without(handles[1..], fh)
  }

  function ReleaseStep(s: State, ino: nat, fh: nat, directory: bool): (State, Answer) {
    match Get(s.files, ino)
    case None => (s, Failed(ENOENT))
    case Some(node) =>
      if directory && node.kind != Directory then (s, Failed(ENOTDIR))
      else if fh !in node.handles then (s, Failed(EBADF))
      else (WithHandles(s, ino, Without(node.handles, fh)), Done)
  }

  function ReadCheck(s: State, ino: nat, fh: nat): Answer {
    match Get(s.files, ino)
    case None => Failed(ENOENT)
    case Some(node) =>
      if fh !in node.handles then Failed(EBADF)
      else if node.kind != File then Failed(ENFILE)
      else if node.gc then Failed(EBUSY)
      else Done
  }

  function ReadDirStep(s: State, ino: nat, fh: nat, offset: int, room: nat): Answer
    requires Linked(s.files)
  {
    match Get(s.files, ino)
    case None => Failed(ENOENT)
    case Some(node) =>
      if fh !in node.handles then Failed(EBADF)
      else if node.kind != Directory then Failed(ENOTDIR)
      else Listed(Page(Listing(s.files, ino), offset, room))
  }

  function FindStep(s: State, parent: nat, name: Name): Answer
    requires Linked(s.files)
  {
    match Lookup(s.files, parent, name)
    case Ok(ino) => Entry(ino, s.generation)
    case Err(e) => Failed(e)
  }

  ghost function Step(s: State, r: Request): (State, Answer)
    requires Linked(s.files)
  {
    match r
    case Init => (InitStep(s), Done)
    case Load(list) => LoadStep(s, list)
    case Find(parent, name) => (s, FindStep(s, parent, name))
    case Open(ino) => OpenStep(s, ino, File, ENFILE)
    case OpenDir(ino) => OpenStep(s, ino, Directory, ENOTDIR)
    case Read(ino, fh) => (s, ReadCheck(s, ino, fh))
    case ReadDir(ino, fh, offset, room) => (s, ReadDirStep(s, ino, fh, offset, room))
    case Release(ino, fh) => ReleaseStep(s, ino, fh, false)
    case ReleaseDir(ino, fh) => ReleaseStep(s, ino, fh, true)
  }

  // ----- runs -----

  datatype Exchange = Exchange(request: Request, answer: Answer)

  const START := State([], 0, 0)

  lemma {:induction false} StepKeepsLinked(s: State, r: Request)
    requires Linked(s.files)
    ensures Linked(Step(s, r).0.files)
  {
    if r.Load? && Named(r.list) {
      TreeLinked(TreeOf(r.list, |r.list| + 1), r.list);
    }
  }

  ghost function Run(requests: seq<Request>): (r: (State, seq<Exchange>))
    ensures Linked(r.0.files)
  {
    if requests == [] then (START, [])
    else
      var (s, history) := Run(requests[..|requests| - 1]);
      var request := requests[|requests| - 1];
      StepKeepsLinked(s, request);
      var (s', answer) := Step(s, request);
      (s', history + [Exchange(request, answer)])
  }

  // ----- what a client holds, from the exchanged messages alone -----

  /** How one exchange changes the set of handles held on `ino`. */
  function LiveStep(before: set<nat>, e: Exchange, ino: nat): set<nat> {
    match e
    case Exchange(Load(_), Done) => {}
    case Exchange(Open(i), Opened(fh)) => if i == ino then before + {fh} else before
    case Exchange(OpenDir(i), Opened(fh)) => if i == ino then before + {fh} else before
    case Exchange(Release(i, fh), Done) => if i == ino then before - {fh} else before
    case Exchange(ReleaseDir(i, fh), Done) => if i == ino then before - {fh} else before
    case _ => before
  }

  /** The handles opened on `ino` since the last accepted list and not released since. */
  function Live(history: seq<Exchange>, ino: nat): set<nat> {
    if history == [] then {}
    else LiveStep(Live(history[..|history| - 1], ino), history[|history| - 1], ino)
  }

  /** How many opens were answered with a handle. */
  function Opens(history: seq<Exchange>): nat {
    if history == [] then 0
    else Opens(history[..|history| - 1]) + (if history[|history| - 1].answer.Opened? then 1 else 0)
  }

  function Handles(files: seq<Node>, ino: nat): seq<nat> {
    if 1 <= ino <= |files| then files[ino - 1].handles else []
  }

  ghost predicate Ascending(handles: seq<nat>) {
    forall a, b :: 0 <= a < b < |handles| ==> handles[a] < handles[b]
  }

  /** Every vector is sorted and below `bound`, no handle is on two nodes, no node is marked. */
  ghost predicate HandlesSafe(files: seq<Node>, bound: nat) {
    && (forall ino: nat {:trigger Handles(files, ino)} :: Ascending(Handles(files, ino)))
    && (forall ino: nat, fh :: fh in Handles(files, ino) ==> fh < bound)
    && (forall i: nat, j: nat, fh :: i != j ==> !(fh in Handles(files, i) && fh in Handles(files, j)))
    && (forall k :: 0 <= k < |files| ==> !files[k].gc)
  }

  lemma {:induction false} AscendingCons(first: nat, rest: seq<nat>)
    ensures Ascending([first] + rest) <==> Ascending(rest) && forall x :: x in rest ==> first < x
  {
    var all := [first] + rest;
    if Ascending(rest) && forall x :: x in rest ==> first < x {
      forall a, b | 0 <= a < b < |all|
        ensures all[a] < all[b]
      {
        assert all[b] == rest[b - 1] && rest[b - 1] in rest;
        assert a > 0 ==> rest[a - 1] < rest[b - 1];
      }
    }
    if Ascending(all) {
      forall a, b | 0 <= a < b < |rest|
        ensures rest[a] < rest[b]
      {
        assert all[a + 1] < all[b + 1];
      }
      forall x | x in rest
        ensures first < x
      {
        var k :| 0 <= k < |rest| && rest[k] == x;
        assert all[0] < all[k + 1];
      }
    }
  }

  lemma {:induction false} WithoutIsRemoval(handles: seq<nat>, fh: nat)
    requires Ascending(handles) && fh in handles
    ensures Ascending(Without(handles, fh))
    ensures forall x :: x in Without(handles, fh) <==> x in handles && x != fh
  {
    var first, rest := handles[0], handles[1..];
    AscendingCons(first, rest);
    assert handles == [first] + rest;
    if first != fh {
      WithoutIsRemoval(rest, fh);
      var kept := Without(rest, fh);
      AscendingCons(first, kept);
      assert Without(handles, fh) == [first] + kept;
      hide Without, Ascending;
    }
  }

  /** `files'` differs from `files` only in the handles of `ino`. */
  ghost predicate OnlyHandlesOf(files: seq<Node>, files': seq<Node>, ino: nat, handles: seq<nat>) {
    && |files'| == |files|
    && (forall k :: 0 <= k < |files| ==> files'[k].gc == files[k].gc)
    && (forall i: nat :: Handles(files', i) == if i == ino then handles else Handles(files, i))
  }

  lemma {:induction false} AppendKeepsSafe(files: seq<Node>, files': seq<Node>, ino: nat, fh: nat)
    requires HandlesSafe(files, fh) && OnlyHandlesOf(files, files', ino, Handles(files, ino) + [fh])
    ensures HandlesSafe(files', fh + 1)
  {
    AscendingSnoc(Handles(files, ino), fh);
    hide Handles, Ascending;
    assert forall i: nat, x :: x in Handles(files', i) <==> x in Handles(files, i) || (i == ino && x == fh);
    forall i: nat, j: nat, x | i != j
      ensures !(x in Handles(files', i) && x in Handles(files', j))
    {
      assert !(x in Handles(files, i) && x in Handles(files, j));
    }
  }

  lemma {:induction false} AscendingSnoc(handles: seq<nat>, fh: nat)
    requires Ascending(handles) && forall x :: x in handles ==> x < fh
    ensures Ascending(handles + [fh])
  {
    assert forall k :: 0 <= k < |handles| ==> handles[k] in handles;
  }

  lemma {:induction false} WithHandlesOnly(s: State, ino: nat, handles: seq<nat>)
    requires 1 <= ino <= |s.files|
    ensures OnlyHandlesOf(s.files, WithHandles(s, ino, handles).files, ino, handles)
  {
  }

  lemma {:induction false} OpenKeepsSafe(s: State, ino: nat, kind: FileType, wrongKind: Errno, issued: nat)
    requires HandlesSafe(s.files, issued) && s.counter == issued
    requires OpenStep(s, ino, kind, wrongKind).1.Opened?
    ensures var (s', a) := OpenStep(s, ino, kind, wrongKind);
            && a.fh == issued && HandlesSafe(s'.files, issued + 1)
            && OnlyHandlesOf(s.files, s'.files, ino, Handles(s.files, ino) + [issued])
  {
    var s' := OpenStep(s, ino, kind, wrongKind).0;
    WithHandlesOnly(s, ino, Handles(s.files, ino) + [issued]);
    AppendKeepsSafe(s.files, s'.files, ino, issued);
  }

  lemma {:induction false} RemoveKeepsSafe(files: seq<Node>, files': seq<Node>, ino: nat, fh: nat, bound: nat)
    requires HandlesSafe(files, bound) && fh in Handles(files, ino)
    requires OnlyHandlesOf(files, files', ino, Without(Handles(files, ino), fh))
    ensures HandlesSafe(files', bound)
    ensures forall x :: x in Handles(files', ino) <==> x in Handles(files, ino) && x != fh
  {
    WithoutIsRemoval(Handles(files, ino), fh);
    hide Handles, Ascending, Without;
  }

  lemma {:induction false} ReleaseKeepsSafe(s: State, ino: nat, fh: nat, directory: bool, issued: nat)
    requires HandlesSafe(s.files, issued)
    requires ReleaseStep(s, ino, fh, directory).1 == Done
    ensures var s' := ReleaseStep(s, ino, fh, directory).0;
            && HandlesSafe(s'.files, issued)
            && OnlyHandlesOf(s.files, s'.files, ino, Handles(s'.files, ino))
            && (forall x :: x in Handles(s'.files, ino) <==> x in Handles(s.files, ino) && x != fh)
  {
    var s' := ReleaseStep(s, ino, fh, directory).0;
    WithHandlesOnly(s, ino, Without(Handles(s.files, ino), fh));
    RemoveKeepsSafe(s.files, s'.files, ino, fh, issued);
  }

  lemma {:induction false} FreshFilesSafe(files: seq<Node>, issued: nat)
    requires forall k :: 0 <= k < |files| ==> files[k].handles == [] && !files[k].gc
    ensures HandlesSafe(files, issued)
    ensures forall ino: nat :: Handles(files, ino) == []
  {
  }

  /** The state agrees with the exchanged messages. */
  ghost predicate Agrees(s: State, history: seq<Exchange>) {
    && HandlesSafe(s.files, Opens(history))
    && s.counter == Opens(history) % U64
    && (forall ino: nat, fh :: fh in Handles(s.files, ino) <==> fh in Live(history, ino))
  }

  lemma {:induction false} LiveSnoc(history: seq<Exchange>, e: Exchange)
    ensures forall ino :: Live(history + [e], ino) == LiveStep(Live(history, ino), e, ino)
    ensures Opens(history + [e]) == Opens(history) + (if e.answer.Opened? then 1 else 0)
  {
    assert (history + [e])[..|history|] == history;
  }

  lemma {:induction false} OpenAgrees(s: State, history: seq<Exchange>, r: Request, ino: nat, kind: FileType,
                                      wrong: Errno)
    requires Agrees(s, history) && Opens(history) < U64
    requires || (r == Open(ino) && kind == File && wrong == ENFILE)
             || (r == OpenDir(ino) && kind == Directory && wrong == ENOTDIR)
    requires OpenStep(s, ino, kind, wrong).1.Opened?
    ensures var (s', a) := OpenStep(s, ino, kind, wrong);
            Agrees(s', history + [Exchange(r, a)])
  {
    hide Live, Opens, HandlesSafe, Handles;
    var (s', a) := OpenStep(s, ino, kind, wrong);
    LiveSnoc(history, Exchange(r, a));
    assert s.counter == Opens(history) && s'.counter == (s.counter + 1) % U64;
    OpenKeepsSafe(s, ino, kind, wrong, Opens(history));
    hide OpenStep;
  }

  lemma {:induction false} ReleaseAgrees(s: State, history: seq<Exchange>, r: Request, ino: nat, fh: nat,
                                         directory: bool)
    requires Agrees(s, history)
    requires r == if directory then ReleaseDir(ino, fh) else Release(ino, fh)
    requires ReleaseStep(s, ino, fh, directory).1 == Done
    ensures var (s', a) := ReleaseStep(s, ino, fh, directory);
            Agrees(s', history + [Exchange(r, a)])
  {
    hide Live, Opens, HandlesSafe, Handles;
    var (s', a) := ReleaseStep(s, ino, fh, directory);
    LiveSnoc(history, Exchange(r, a));
    assert s'.counter == s.counter;
    ReleaseKeepsSafe(s, ino, fh, directory, Opens(history));
    hide ReleaseStep;
  }

  /** An exchange that neither moves handles nor is a successful load keeps the agreement. */
  lemma {:induction false} QuietAgrees(s: State, s': State, history: seq<Exchange>, e: Exchange)
    requires Agrees(s, history) && s'.counter == s.counter && !e.answer.Opened?
    requires forall ino :: LiveStep(Live(history, ino), e, ino) == Live(history, ino)
    requires HandlesSafe(s'.files, Opens(history)) && forall ino: nat :: Handles(s'.files, ino) == Handles(s.files, ino)
    ensures Agrees(s', history + [e])
  {
    LiveSnoc(history, e);
    hide Live, Opens, HandlesSafe, Handles, LiveStep;
  }

  lemma {:induction false} FreshAgrees(s: State, history: seq<Exchange>, list: seq<Description>)
    requires Agrees(s, history) && Named(list)
    ensures var (s', a) := LoadStep(s, list);
            Agrees(s', history + [Exchange(Load(list), a)])
  {
    var (s', a) := LoadStep(s, list);
    LiveSnoc(history, Exchange(Load(list), a));
    FreshFilesSafe(s'.files, Opens(history));
    hide Live, Opens, HandlesSafe, Handles;
  }

  lemma {:induction false} AgreedIsSafe(s: State, history: seq<Exchange>)
    requires Agrees(s, history)
    ensures HandlesSafe(s.files, Opens(history))
  {
  }

  lemma {:induction false} StepAgrees(s: State, history: seq<Exchange>, r: Request)
    requires Linked(s.files) && Agrees(s, history)
    requires Opens(history) < U64 || !Step(s, r).1.Opened?
    ensures Agrees(Step(s, r).0, history + [Exchange(r, Step(s, r).1)])
  {
    hide Agrees, HandlesSafe, Live, Opens, TreeOf, Lookup, Listing, Page;
    var (s', a) := Step(s, r);
    AgreedIsSafe(s, history);
    match r {
      case Open(ino) =>
        if a.Opened? {
          OpenAgrees(s, history, r, ino, File, ENFILE);
        } else {
          QuietAgrees(s, s', history, Exchange(r, a));
        }
      case OpenDir(ino) =>
        if a.Opened? {
          OpenAgrees(s, history, r, ino, Directory, ENOTDIR);
        } else {
          QuietAgrees(s, s', history, Exchange(r, a));
        }
      case Release(ino, fh) =>
        if a == Done {
          ReleaseAgrees(s, history, r, ino, fh, false);
        } else {
          QuietAgrees(s, s', history, Exchange(r, a));
        }
      case ReleaseDir(ino, fh) =>
        if a == Done {
          ReleaseAgrees(s, history, r, ino, fh, true);
        } else {
          QuietAgrees(s, s', history, Exchange(r, a));
        }
      case Load(list) =>
        if a == Done {
          FreshAgrees(s, history, list);
        } else {
          QuietAgrees(s, s', history, Exchange(r, a));
        }
      case Init =>
        if s.files == [] {
          FreshFilesSafe(s'.files, Opens(history));
        }
        QuietAgrees(s, s', history, Exchange(r, a));
      case _ => QuietAgrees(s, s', history, Exchange(r, a));
    }
  }

  lemma {:induction false} OpensMonotone(requests: seq<Request>)
    requires requests != []
    ensures Opens(Run(requests[..|requests| - 1]).1) <= Opens(Run(requests).1)
  {
    var (s, history) := Run(requests[..|requests| - 1]);
    StepKeepsLinked(s, requests[|requests| - 1]);
    LiveSnoc(history, Exchange(requests[|requests| - 1], Step(s, requests[|requests| - 1]).1));
  }

  /**
   Handle safety. In every run that has not issued more handles than a u64 can count, every node's vector
   is strictly ascending, no handle is on two nodes, and a handle is found on an inode exactly when it was
   opened there since the last list was loaded and has not been released.
   */
  lemma {:induction false} HandleSafety(requests: seq<Request>)
    requires Opens(Run(requests).1) <= U64
    ensures var (s, history) := Run(requests);
            && HandlesSafe(s.files, Opens(history))
            && (forall ino: nat, fh :: fh in Handles(s.files, ino) <==> fh in Live(history, ino))
            && (Opens(history) < U64 ==> s.counter == Opens(history))
    decreases |requests|
  {
    AgreesAlways(requests);
  }

  lemma {:induction false} AgreesAlways(requests: seq<Request>)
    requires Opens(Run(requests).1) <= U64
    ensures Agrees(Run(requests).0, Run(requests).1)
    decreases |requests|
  {
    if requests == [] {
      assert Agrees(START, []);
    } else {
      var init, r := requests[..|requests| - 1], requests[|requests| - 1];
      OpensMonotone(requests);
      AgreesAlways(init);
      var (s, history) := Run(init);
      StepKeepsLinked(s, r);
      LiveSnoc(history, Exchange(r, Step(s, r).1));
      StepAgrees(s, history, r);
    }
  }

  // ----- the bound is exact -----

  /** A list with one file, opened n times. */
  function OpenedTimes(d: Description, n: nat): (requests: seq<Request>)
    ensures |requests| == n + 1
  {
    [Load([d])] + seq(n, _ => Open(2))
  }

  function Issued(n: nat): (handles: seq<nat>)
    ensures |handles| == n && forall i :: 0 <= i < n ==> handles[i] == i % U64
  {
    seq(n, i => i % U64)
  }

  /** The run hands out 0, 1, 2, ... and starts over after 2^64; the node keeps them all. */
  lemma {:induction false} OpenedTimesRun(d: Description, n: nat)
    requires d.kind == File && d.name.FileName().Some?
    ensures var (s, history) := Run(OpenedTimes(d, n));
            && |s.files| == 2 && s.files[1].kind == File && !s.files[1].gc
            && s.files[1].handles == Issued(n) && s.counter == n % U64 && Opens(history) == n
    decreases n
  {
    var requests := OpenedTimes(d, n);
    if n == 0 {
      LoadedOnce(d);
    } else {
      assert requests[..n] == OpenedTimes(d, n - 1) && requests[n] == Open(2);
      OpenedTimesRun(d, n - 1);
      var (s, history) := Run(requests[..n]);
      NextIssued(n - 1);
      LiveSnoc(history, Exchange(Open(2), Step(s, Open(2)).1));
      hide Live, LiveStep, Opens, NodeAt, Linked, Issued;
      assert Step(s, Open(2)) == OpenStep(s, 2, File, ENFILE);
    }
  }

  lemma {:induction false} NextIssued(n: nat)
    ensures Issued(n + 1) == Issued(n) + [n % U64] && (n % U64 + 1) % U64 == (n + 1) % U64
  {
  }

  lemma {:induction false} LoadedOnce(d: Description)
    requires d.kind == File && d.name.FileName().Some?
    ensures var (s, history) := Run(OpenedTimes(d, 0));
            && |s.files| == 2 && s.files[1].kind == File && !s.files[1].gc
            && s.files[1].handles == [] && s.counter == 0 && Opens(history) == 0
  {
    var requests := OpenedTimes(d, 0);
    assert requests == [Load([d])] && requests[..0] == [];
    assert Run([]) == (START, []);
    var r := Load([d]);
    assert Named([d]);
    var (s, a) := Step(START, r);
    LiveSnoc([], Exchange(r, a));
    assert [] + [Exchange(r, a)] == [Exchange(r, a)];
    assert s.files[1] == NodeAt([d], 2);
    assert Run(requests) == (s, [] + [Exchange(r, a)]);
  }

  /** Past the wrap the order is lost: handle 0 lands behind all the others. */
  lemma {:induction false} WrapBreaksOrder(d: Description, n: nat)
    requires d.kind == File && d.name.FileName().Some? && n > U64
    ensures !Ascending(Handles(Run(OpenedTimes(d, n)).0.files, 2))
    ensures Opens(Run(OpenedTimes(d, n)).1) == n
  {
    OpenedTimesRun(d, n);
    hide Run, OpenedTimes, Opens;
    var handles := Handles(Run(OpenedTimes(d, n)).0.files, 2);
    assert handles == Issued(n);
    assert handles[U64 - 1] == (U64 - 1) % U64 && handles[U64] == U64 % U64;
    assert handles[U64 - 1] >= handles[U64];
  }

  /** Every run with n opens keeps the handle vectors in order if and only if n is at most 2^64. */
  lemma {:induction false} HandleBoundIsExact(n: nat)
    ensures (forall requests :: Opens(Run(requests).1) == n ==> HandlesSafe(Run(requests).0.files, n)) <==> n <= U64
  {
    hide HandlesSafe, Ascending, Run, Opens, OpenedTimes;
    if n <= U64 {
      forall requests | Opens(Run(requests).1) == n
        ensures HandlesSafe(Run(requests).0.files, n)
      {
        HandleSafety(requests);
      }
    } else {
      var d := Description(Path(false, [Normal([65])]), File, 0);
      WrapBreaksOrder(d, n);
      SafeAscends(Run(OpenedTimes(d, n)).0.files, n, 2);
    }
  }

  lemma {:induction false} SafeAscends(files: seq<Node>, bound: nat, ino: nat)
    ensures HandlesSafe(files, bound) ==> Ascending(Handles(files, ino))
  {
  }

  // ----- what a loaded list answers -----

  /** A well-listed list is accepted, and resolving a path in it then finds exactly the entry with that path. */
  lemma {:induction false} LoadedListResolves(s: State, list: seq<Description>, names: seq<Name>, ino: nat)
    requires WellListed(list)
    ensures var (s', a) := LoadStep(s, list);
            a == Done && Linked(s'.files) && (Resolve(s'.files, names) == Ok(ino) <==> Denotes(list, names, ino))
  {
    hide WellListed, Resolve, Denotes, NodeAt, Linked, Named;
    WellListedNamed(list);
    var tree := TreeOf(list, |list| + 1);
    assert IsTree(tree, list);
    TreeLinked(tree, list);
    ResolveFindsDescriptor(tree, list, names, ino);
  }

  // ----- reading a directory while others use the server -----

  /** The reader asks for a page with this room, or somebody else makes a request. */
  datatype Move = Ask(room: nat) | Other(request: Request)

  /** A request that neither replaces the list nor closes the reader's handle. */
  predicate Leaves(r: Request, ino: nat, fh: nat) {
    !r.Load? && r != Release(ino, fh) && r != ReleaseDir(ino, fh)
  }

  /** What a reader of `ino` through `fh` is given, asking each time with the last cookie it got. */
  ghost function Reading(s: State, ino: nat, fh: nat, cookie: int, moves: seq<Move>): seq<Reply>
    requires Linked(s.files)
    decreases |moves|
  {
    if moves == [] then []
    else
      match moves[0]
      case Other(r) =>
        StepKeepsLinked(s, r);
        Reading(Step(s, r).0, ino, fh, cookie, moves[1..])
      case Ask(room) =>
        var a := Step(s, ReadDir(ino, fh, cookie, room)).1;
        var page := if a.Listed? then a.page else [];
        page + Reading(s, ino, fh, Cookie(page, cookie), moves[1..])
  }

  function Rooms(moves: seq<Move>): seq<nat>
    decreases |moves|
  {
    if moves == [] then []
    else (match moves[0] case Ask(room) => [room] case Other(_) => []) + Rooms(moves[1..])
  }

  /** The reader's directory with its handle open. */
  ghost predicate OpenDirectoryAt(s: State, ino: nat, fh: nat) {
    Linked(s.files) && 1 <= ino <= |s.files| && s.files[ino - 1].kind == Directory && fh in s.files[ino - 1].handles
  }

  /** Two trees that differ in open handles only. */
  ghost predicate SameTree(files: seq<Node>, files': seq<Node>) {
    |files'| == |files| && forall k :: 0 <= k < |files| ==> files'[k] == files[k].(handles := files'[k].handles)
  }

  lemma {:induction false} WithoutKeeps(handles: seq<nat>, fh: nat, x: nat)
    requires x in handles && x != fh
    ensures x in Without(handles, fh)
  {
    if handles[0] != x && handles[0] != fh {
      WithoutKeeps(handles[1..], fh, x);
    }
  }

  lemma {:induction false} StepLeavesDirectory(s: State, r: Request, ino: nat, fh: nat)
    requires OpenDirectoryAt(s, ino, fh) && Leaves(r, ino, fh)
    ensures OpenDirectoryAt(Step(s, r).0, ino, fh) && SameTree(s.files, Step(s, r).0.files)
  {
    hide Lookup, Listing, Page, Linked, Without;
    StepKeepsLinked(s, r);
    if r.Release? || r.ReleaseDir? {
      if r.ino == ino {
        WithoutKeeps(s.files[ino - 1].handles, r.fh, fh);
      }
    }
  }

  lemma {:induction false} SameListing(files: seq<Node>, files': seq<Node>, ino: nat)
    requires SameTree(files, files') && Linked(files) && Linked(files') && 1 <= ino <= |files|
    ensures Listing(files', ino) == Listing(files, ino)
  {
    var cs := files[ino - 1].children;
    assert files'[ino - 1].children == cs;
    assert ChildEntries(files', cs) == ChildEntries(files, cs);
  }

  /**
   Whatever others do meanwhile, short of loading a list or closing the handle, a reader gets the listing from its
   cookie on, each entry once and in order, as far as the room it asked for goes.
   */
  lemma {:induction false} ReadingIsListing(s: State, ino: nat, fh: nat, cookie: nat, moves: seq<Move>)
    requires OpenDirectoryAt(s, ino, fh) && cookie <= |Listing(s.files, ino)|
    requires forall m <- moves :: m.Other? ==> Leaves(m.request, ino, fh)
    ensures var listing := Listing(s.files, ino);
            Reading(s, ino, fh, cookie, moves) ==
            Numbered(listing, cookie, Min(cookie + Total(Rooms(moves)), |listing|))
    decreases |moves|
  {
    hide Step, Listing, Page, Numbered, NumbersFrom, Cookie, Min, Linked, Leaves;
    var listing := Listing(s.files, ino);
    MinTwice(cookie, 0, 0, |listing|);
    if moves == [] {
      NothingNumbered(listing, cookie);
    } else {
      assert moves[0] in moves && forall m <- moves[1..] :: m in moves;
      match moves[0] {
        case Other(r) =>
          OtherMove(s, r, ino, fh);
          assert Rooms(moves) == Rooms(moves[1..]);
          ReadingIsListing(Step(s, r).0, ino, fh, cookie, moves[1..]);
        case Ask(room) =>
          AskedPage(s, ino, fh, cookie, room);
          MinTwice(cookie, room, Total(Rooms(moves[1..])), |listing|);
          PageIsSlice(listing, cookie, room);
          PageEnd(listing, cookie, room);
          var mid := Min(cookie + room, |listing|);
          ReadingIsListing(s, ino, fh, mid, moves[1..]);
          NumberedJoin(listing, cookie, mid, Min(cookie + Total(Rooms(moves)), |listing|));
      }
    }
  }

  lemma {:induction false} OtherMove(s: State, r: Request, ino: nat, fh: nat)
    requires OpenDirectoryAt(s, ino, fh) && Leaves(r, ino, fh)
    ensures OpenDirectoryAt(Step(s, r).0, ino, fh) && Linked(Step(s, r).0.files)
    ensures 1 <= ino <= |s.files| && 1 <= ino <= |Step(s, r).0.files|
    ensures Listing(Step(s, r).0.files, ino) == Listing(s.files, ino)
  {
    hide Step, Leaves, Linked, Listing, SameTree;
    StepLeavesDirectory(s, r, ino, fh);
    SameListing(s.files, Step(s, r).0.files, ino);
  }

  lemma {:induction false} AskedPage(s: State, ino: nat, fh: nat, cookie: nat, room: nat)
    requires OpenDirectoryAt(s, ino, fh)
    ensures Step(s, ReadDir(ino, fh, cookie, room)) == (s, Listed(Page(Listing(s.files, ino), cookie, room)))
  {
    hide Listing, Page, Linked;
  }

  /**
   In every run within the bound, a reader that holds an open directory and asks as often as there are entries, each
   time with room for one, is given the whole listing.
   */
  lemma {:induction false} OpenDirectoryIsListed(requests: seq<Request>, ino: nat, fh: nat, moves: seq<Move>)
    requires Opens(Run(requests).1) <= U64 && fh in Live(Run(requests).1, ino)
    requires var files := Run(requests).0.files; 1 <= ino <= |files| ==> files[ino - 1].kind == Directory
    requires forall m <- moves :: m.Other? ==> Leaves(m.request, ino, fh)
    requires forall m <- moves :: m.Ask? ==> m.room >= 1
    requires var files := Run(requests).0.files; 1 <= ino <= |files| ==> |Rooms(moves)| >= |Listing(files, ino)|
    ensures var s := Run(requests).0;
            && 1 <= ino <= |s.files|
            && Reading(s, ino, fh, 0, moves) == Numbered(Listing(s.files, ino), 0, |Listing(s.files, ino)|)
  {
    hide Run, Live, Opens, HandlesSafe, Listing, Numbered, NumbersFrom, Reading, Leaves, Linked;
    HandleSafety(requests);
    var s := Run(requests).0;
    assert fh in Handles(s.files, ino);
    ReadingIsListing(s, ino, fh, 0, moves);
    RoomsAtLeastOne(moves);
    TotalAtLeast(Rooms(moves));
  }

  lemma {:induction false} RoomsAtLeastOne(moves: seq<Move>)
    requires forall m <- moves :: m.Ask? ==> m.room >= 1
    ensures forall k :: 0 <= k < |Rooms(moves)| ==> Rooms(moves)[k] >= 1
    decreases |moves|
  {
    if moves != [] {
      assert moves[0] in moves && forall m <- moves[1..] :: m in moves;
      RoomsAtLeastOne(moves[1..]);
    }
  }

  // ----- the object -----

  /** Binary search over the sorted handle vector. */
  method BinarySearch(handles: seq<nat>, fh: nat) returns (r: Option<nat>)
    requires Ascending(handles)
    ensures r.Some? ==> r.value < |handles| && handles[r.value] == fh
    ensures r.None? ==> fh !in handles
  {
    var low, high := 0, |handles|;
    while low < high
      invariant 0 <= low <= high <= |handles|
      invariant forall k :: 0 <= k < |handles| && !(low <= k < high) ==> handles[k] != fh
    {
      var mid := low + (high - low) / 2;
      if handles[mid] == fh {
        return Some(mid);
      } else if handles[mid] < fh {
        low := mid + 1;
      } else {
        high := mid;
      }
    }
    return None;
  }

  lemma {:induction false} RemoveAt(handles: seq<nat>, fh: nat, idx: nat)
    requires Ascending(handles) && idx < |handles| && handles[idx] == fh
    ensures handles[..idx] + handles[idx + 1..] == Without(handles, fh)
  {
    if idx == 0 {
      assert handles[..0] + handles[1..] == handles[1..];
    } else {
      var rest := handles[1..];
      RemoveAt(rest, fh, idx - 1);
      assert handles[..idx] + handles[idx + 1..] == [handles[0]] + (rest[..idx - 1] + rest[idx..]);
    }
  }

  class Server {
    var files: seq<Node>
    var counter: nat
    var generation: nat

    ghost function Now(): State
      reads this
    {
      State(files, counter, generation)
    }

    /** What every handler relies on; `Agrees` gives it in every run short of the wrap. */
    ghost predicate Valid()
      reads this
    {
      Linked(files) && forall ino: nat {:trigger Handles(files, ino)} :: Ascending(Handles(files, ino))
    }

    constructor ()
      ensures Now() == START && Valid()
    {
      files, counter, generation := [], 0, 0;
    }

    method InitRoot()
      modifies this`files
      ensures Now() == InitStep(old(Now()))
    {
      if files == [] {
        files := [NewRoot()];
      }
    }

    method LoadFileList(list: seq<Description>) returns (r: Result<(), TreeError>)
      modifies this`files, this`generation
      ensures (Now(), if r.Ok? then Done else Rejected) == LoadStep(old(Now()), list)
    {
      var tree := BuildTree(list);
      if tree.Err? {
        return Err(tree.error);
      }
      assert tree.value == TreeOf(list, |list| + 1);
      files := tree.value;
      generation := (generation + 1) % U64;
      return Ok(());
    }

    method AllocFd() returns (fh: nat)
      modifies this`counter
      ensures fh == old(counter) && counter == (old(counter) + 1) % U64
    {
      fh := counter;
      counter := (counter + 1) % U64;
    }

    method LookupName(parent: nat, name: Name) returns (a: Answer)
      requires Linked(files)
      ensures a == FindStep(Now(), parent, name)
    {
      if |name| > MAX_NAME_LEN {
        return Failed(ENAMETOOLONG);
      }
      if !(1 <= parent <= |files|) {
        return Failed(ENOENT);
      }
      var node := files[parent - 1];
      if node.kind != Directory {
        return Failed(ENOTDIR);
      }
      var children := node.children;
      for i := 0 to |children|
        invariant FirstNamed(files, children, name) == FirstNamed(files, children[i..], name)
      {
        var child := files[children[i] - 1];
        if child.name == name {
          return Entry(child.inode, generation);
        }
        assert children[i..][1..] == children[i + 1..];
      }
      return Failed(ENOENT);
    }

    method OpenFile(ino: nat) returns (a: Answer)
      modifies this`files, this`counter
      ensures (Now(), a) == OpenStep(old(Now()), ino, File, ENFILE)
    {
      if !(1 <= ino <= |files|) {
        return Failed(ENOENT);
      }
      var node := files[ino - 1];
      if node.kind != File {
        return Failed(ENFILE);
      }
      if node.gc {
        return Failed(EBUSY);
      }
      var fh := AllocFd();
      files := files[ino - 1 := node.(handles := node.handles + [fh])];
      return Opened(fh);
    }

    method OpenDirectory(ino: nat) returns (a: Answer)
      modifies this`files, this`counter
      ensures (Now(), a) == OpenStep(old(Now()), ino, Directory, ENOTDIR)
    {
      if !(1 <= ino <= |files|) {
        return Failed(ENOENT);
      }
      var node := files[ino - 1];
      if node.kind != Directory {
        return Failed(ENOTDIR);
      }
      if node.gc {
        return Failed(EBUSY);
      }
      var fh := AllocFd();
      files := files[ino - 1 := node.(handles := node.handles + [fh])];
      return Opened(fh);
    }

    method HaveHandler(ino: nat, fh: nat) returns (found: bool)
      requires Valid() && 1 <= ino <= |files|
      ensures found <==> fh in files[ino - 1].handles
    {
      assert Ascending(Handles(files, ino));
      var r := BinarySearch(files[ino - 1].handles, fh);
      return r.Some?;
    }

    method ReadCheckFirst(ino: nat, fh: nat) returns (a: Answer)
      requires Valid()
      ensures a == ReadCheck(Now(), ino, fh)
    {
      if !(1 <= ino <= |files|) {
        return Failed(ENOENT);
      }
      var found := HaveHandler(ino, fh);
      if !found {
        return Failed(EBADF);
      }
      if files[ino - 1].kind != File {
        return Failed(ENFILE);
      }
      if files[ino - 1].gc {
        return Failed(EBUSY);
      }
      return Done;
    }

    method ReadDirectory(ino: nat, fh: nat, offset: int, room: nat) returns (a: Answer)
      requires Valid()
      ensures a == ReadDirStep(Now(), ino, fh, offset, room)
    {
      if !(1 <= ino <= |files|) {
        return Failed(ENOENT);
      }
      var found := HaveHandler(ino, fh);
      if !found {
        return Failed(EBADF);
      }
      var node := files[ino - 1];
      if node.kind != Directory {
        return Failed(ENOTDIR);
      }
      var entries := [DirEntry(ino, Directory, DOT)];
      if node.parent.Some? {
        entries := entries + [DirEntry(node.parent.value, Directory, DOTDOT)];
      }
      ghost var head := entries;
      for i := 0 to |node.children|
        invariant |entries| == |head| + i && entries[..|head|] == head
        invariant forall k :: 0 <= k < i ==>
                    entries[|head| + k] == ChildEntries(files, node.children)[k]
      {
        var child := files[node.children[i] - 1];
        entries := entries + [DirEntry(node.children[i], child.kind, child.name)];
      }
      assert entries == head + ChildEntries(files, node.children);
      assert head == [DirEntry(ino, Directory, DOT)]
                     + (if node.parent.Some? then [DirEntry(node.parent.value, Directory, DOTDOT)] else []);
      assert entries == Listing(files, ino);
      // A negative offset, cast to usize, skips everything.
      var page: seq<Reply> := [];
      if offset >= 0 {
        page := AddEntries(entries, offset, room);
      }
      return Listed(page);
    }

    /** Adds entries until the reply buffer is full. */
    static method AddEntries(entries: seq<DirEntry>, offset: nat, room: nat) returns (page: seq<Reply>)
      ensures page == Page(entries, offset, room)
    {
      page := [];
      var i := offset;
      while i < |entries| && |page| < room
        invariant |page| == i - offset <= room
        invariant Page(entries, offset, room) == page + Page(entries, i, room - |page|)
      {
        page := page + [(entries[i], i + 1)];
        i := i + 1;
      }
    }

    method Unregister(ino: nat, fh: nat) returns (ok: bool)
      requires Valid() && 1 <= ino <= |files|
      modifies this`files
      ensures ok <==> fh in old(files)[ino - 1].handles
      ensures Now() == if ok then WithHandles(old(Now()), ino, Without(old(files)[ino - 1].handles, fh)) else old(Now())
    {
      var node := files[ino - 1];
      assert Ascending(Handles(files, ino));
      var r := BinarySearch(node.handles, fh);
      if r == None {
        return false;
      }
      RemoveAt(node.handles, fh, r.value);
      files := files[ino - 1 := node.(handles := node.handles[..r.value] + node.handles[r.value + 1..])];
      return true;
    }

    method ReleaseFile(ino: nat, fh: nat) returns (a: Answer)
      requires Valid()
      modifies this`files
      ensures (Now(), a) == ReleaseStep(old(Now()), ino, fh, false)
    {
      if !(1 <= ino <= |files|) {
        return Failed(ENOENT);
      }
      var ok := Unregister(ino, fh);
      return if ok then Done else Failed(EBADF);
    }

    method ReleaseDirectory(ino: nat, fh: nat) returns (a: Answer)
      requires Valid()
      modifies this`files
      ensures (Now(), a) == ReleaseStep(old(Now()), ino, fh, true)
    {
      if !(1 <= ino <= |files|) {
        return Failed(ENOENT);
      }
      if files[ino - 1].kind != Directory {
        return Failed(ENOTDIR);
      }
      var found := HaveHandler(ino, fh);
      if !found {
        return Failed(EBADF);
      }
      var _ := Unregister(ino, fh);
      return Done;
    }

    /** One request, handled by the handler it is for. */
    method Handle(r: Request) returns (a: Answer)
      requires Valid()
      modifies this
      ensures (Now(), a) == Step(old(Now()), r)
    {
      hide LoadStep, OpenStep, ReleaseStep, ReadDirStep, ReadCheck, FindStep, InitStep;
      match r {
        case Init =>
          InitRoot();
          a := Done;
        case Load(list) =>
          var loaded := LoadFileList(list);
          a := if loaded.Ok? then Done else Rejected;
        case Find(parent, name) => a := LookupName(parent, name);
        case Open(ino) => a := OpenFile(ino);
        case OpenDir(ino) => a := OpenDirectory(ino);
        case Read(ino, fh) => a := ReadCheckFirst(ino, fh);
        case ReadDir(ino, fh, offset, room) => a := ReadDirectory(ino, fh, offset, room);
        case Release(ino, fh) => a := ReleaseFile(ino, fh);
        case ReleaseDir(ino, fh) => a := ReleaseDirectory(ino, fh);
      }
    }

    /**
     A whole run from the start: it goes exactly as `Run` says, and short of the wrap every handler may rely on `Valid`.
     */
    method Serve(requests: seq<Request>) returns (answers: seq<Answer>, ghost history: seq<Exchange>)
      requires Now() == START && Opens(Run(requests).1) <= U64
      modifies this
      ensures (Now(), history) == Run(requests) && Valid()
      ensures |answers| == |requests| == |history|
      ensures forall i :: 0 <= i < |requests| ==> history[i] == Exchange(requests[i], answers[i])
    {
      hide Run, Step, Opens, Linked, Live;
      answers, history := [], [];
      NothingServed();
      assert requests[..0] == [];
      for n := 0 to |requests|
        invariant (Now(), history) == Run(requests[..n])
        invariant |answers| == n == |history|
        invariant forall i :: 0 <= i < n ==> history[i] == Exchange(requests[i], answers[i])
      {
        PrefixOpens(requests, n);
        RunValid(requests[..n]);
        var a := Handle(requests[n]);
        RunStep(requests, n);
        answers := answers + [a];
        history := history + [Exchange(requests[n], a)];
      }
      assert requests[..|requests|] == requests;
      RunValid(requests);
    }
  }

  lemma {:induction false} NothingServed()
    ensures Run([]) == (START, [])
  {
  }

  lemma {:induction false} RunStep(requests: seq<Request>, n: nat)
    requires n < |requests|
    ensures var (s, history) := Run(requests[..n]);
            Run(requests[..n + 1])
              == (Step(s, requests[n]).0, history + [Exchange(requests[n], Step(s, requests[n]).1)])
  {
    hide Step;
    assert requests[..n + 1][..n] == requests[..n];
  }

  lemma {:induction false} PrefixOpens(requests: seq<Request>, n: nat)
    requires n <= |requests|
    ensures Opens(Run(requests[..n]).1) <= Opens(Run(requests).1)
    decreases |requests| - n
  {
    hide Run, Opens;
    if n == |requests| {
      assert requests[..n] == requests;
    } else {
      PrefixOpens(requests, n + 1);
      OpensMonotone(requests[..n + 1]);
      assert requests[..n + 1][..n] == requests[..n];
    }
  }

  lemma {:induction false} RunValid(requests: seq<Request>)
    requires Opens(Run(requests).1) <= U64
    ensures var files := Run(requests).0.files;
            Linked(files) && forall ino: nat {:trigger Handles(files, ino)} :: Ascending(Handles(files, ino))
  {
    hide Run, Opens, Live, Linked;
    HandleSafety(requests);
  }
}
