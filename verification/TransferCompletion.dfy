/**
 How long an undisturbed transfer takes, and what disturbs one (libs/hbb_common/src/fs.rs).
 */
module TransferCompletion {
  import opened Basics
  import opened Transfer
  import opened TransferHandshake
  import opened TransferDelivery

  // ----- reads and prompt confirmations -----

  const GOOD_READ := DoRead(ReadEnv(true, true, true))

  /** The two answers of a peer that wants the file; the offset in the second one is ignored. */
  predicate Wants(answer: Answer) {
    answer == Skip(false) || answer.OffsetBlk?
  }

  /**
   What releases an open file. In every run with detection on, the next good read after an answer lets a block out if
   and only if the answer is for the open file and wants it; that block is then the file's own.
   */
  lemma {:induction false} WantedFileIsReleased(s: Job, acts: seq<Action>, request: ConfirmRequest, src: Disk, zip: Zip)
    requires Fresh(s) && s.detect
    requires var j := Run(s, acts, src, zip).0; j.file.Some? && !j.confirmed
    ensures var (j, log) := Run(s, acts, src, zip);
            var all := Run(s, acts + [DoConfirm(request)] + [GOOD_READ], src, zip).1;
            && log <= all
            && ((exists e <- all[|log|..] :: e.BlockOut?) <==>
                  request.fileNum == j.fileNum && Wants(request.answer))
            && (forall e <- all[|log|..] :: e.BlockOut? ==> e.block.id == s.id && e.block.fileNum == j.fileNum)
  {
    hide Run, ReadStep, ConfirmStep, Fresh;
    RunFollows(s, acts, src, zip);
    var (j, log) := Run(s, acts, src, zip);
    RunSnoc(s, acts, DoConfirm(request), src, zip);
    RunSnoc(s, acts + [DoConfirm(request)], GOOD_READ, src, zip);
    var (j1, said) := ConfirmStep(j, request);
    var read := ReadStep(j1, GOOD_READ.env, src, zip).log;
    assert log + said + read == log + (said + read);
    AnswerReleases(j, request, src, zip);
  }

  lemma {:induction false} AnswerReleases(j: Job, request: ConfirmRequest, src: Disk, zip: Zip)
    requires j.detect && j.InRange() && j.file.Some? && j.file.value.Reader? && !j.confirmed
    ensures var (j1, said) := ConfirmStep(j, request);
            var read := ReadStep(j1, GOOD_READ.env, src, zip).log;
            && (forall e <- said :: !e.BlockOut?)
            && (forall e <- read :: e.BlockOut? ==> e.block.id == j.id && e.block.fileNum == j.fileNum)
            && ((exists e <- read :: e.BlockOut?) <==> request.fileNum == j.fileNum && Wants(request.answer))
  {
    hide Ext;
    var read := ReadStep(ConfirmStep(j, request).0, GOOD_READ.env, src, zip).log;
    if request.fileNum == j.fileNum && Wants(request.answer) {
      assert read[0] in read;
    }
  }

  /** What a peer that wants every file answers: `reply` to each digest that was sent. */
  function Answers(log: seq<Event>, reply: int -> Answer): seq<Action> {
    if log == [] then []
    else
      var e := log[|log| - 1];
      Answers(log[..|log| - 1], reply)
      + (if e.Digest? && e.sent then [DoConfirm(ConfirmRequest(e.k, reply(e.k)))] else [])
  }

  ghost predicate AlwaysWants(reply: int -> Answer) {
    forall k :: Wants(reply(k))
  }

  /** A read in which nothing fails, and the answers it calls for. */
  function Round(j: Job, src: Disk, zip: Zip, reply: int -> Answer): seq<Action> {
    [GOOD_READ] + Answers(Act(j, GOOD_READ, src, zip).1, reply)
  }

  /** `n` reads in which nothing fails, each digest answered as soon as it is out. */
  function Prompt(j: Job, n: nat, src: Disk, zip: Zip, reply: int -> Answer): seq<Action> {
    if n == 0 then []
    else
      var acts := Prompt(j, n - 1, src, zip, reply);
      acts + Round(Run(j, acts, src, zip).0, src, zip, reply)
  }

  /** Number of non-empty blocks of a file: its size in buffers, rounded up. */
  function Chunks(size: nat): nat {
    (size + 131_071) / 131_072
  }

  /** Reads it takes to announce a file. */
  function Announcing(j: Job): nat {
    if j.detect then 1 else 0
  }

  /** Every file from number `a` on exists at the sender. */
  ghost predicate AllSources(j: Job, src: Disk, a: int) {
    forall k :: 0 <= k < |j.files| && a <= k ==> HasSource(j, src, k)
  }

  /** Reads spent on the files from a up to the k-th: for the announcement, for each chunk and for the end of file. */
  function ReadsFrom(j: Job, src: Disk, a: nat, k: nat): nat
    requires AllSources(j, src, a) && a <= k <= |j.files|
    decreases k
  {
    if k == a then 0
    else
      assert HasSource(j, src, k - 1);
      ReadsFrom(j, src, a, k - 1) + Announcing(j) + Chunks(|Source(j, src, k - 1)|) + 1
  }

  /** Reads a job takes from where it starts; none if it starts outside its list. */
  function TotalReads(j: Job, src: Disk): nat
    requires AllSources(j, src, j.fileNum)
  {
    if j.InRange() then ReadsFrom(j, src, j.fileNum, |j.files|) else 0
  }

  /** Confirmations a job takes: one for each file it announces. */
  function TotalConfirms(j: Job): nat {
    if j.detect && j.InRange() then |j.files| - j.fileNum else 0
  }

  /** `m` reads have been spent on file k. */
  ghost predicate At(j0: Job, j: Job, src: Disk, k: nat, m: nat) {
    && SameJob(j0, j) && j.fileNum == k
    && if m == 0 then j.file == None && !j.confirmed && !j.waiting
       else && k < |j0.files| && HasSource(j0, src, k) && (j0.detect ==> j.confirmed)
            && j.file == Some(Reader(Source(j0, src, k),
                                     Min((m - Announcing(j0)) * BUF_SIZE, |Source(j0, src, k)|)))
  }

  ghost predicate AllClosed(log: seq<Event>, a: int, k: int) {
    forall i :: a <= i < k ==> Closed(i) in log
  }

  lemma {:induction false} PromptRuns(j: Job, n: nat, src: Disk, zip: Zip, reply: int -> Answer)
    ensures var (j1, log) := Run(j, Prompt(j, n, src, zip, reply), src, zip);
            var (j2, more) := Run(j1, Round(j1, src, zip, reply), src, zip);
            Run(j, Prompt(j, n + 1, src, zip, reply), src, zip) == (j2, log + more)
  {
    hide Run, Round;
    var acts := Prompt(j, n, src, zip, reply);
    RunAppend(j, acts, Round(Run(j, acts, src, zip).0, src, zip, reply), src, zip);
  }

  lemma {:induction false} NothingToAnswer(log: seq<Event>, reply: int -> Answer)
    requires forall e <- log :: !(e.Digest? && e.sent)
    ensures Answers(log, reply) == []
  {
    if log != [] {
      var init := log[..|log| - 1];
      assert forall e <- init :: e in log;
      NothingToAnswer(init, reply);
      assert log[|log| - 1] in log;
    }
  }

  lemma {:induction false} QuietRound(j: Job, src: Disk, zip: Zip, reply: int -> Answer)
    requires forall e <- Act(j, GOOD_READ, src, zip).1 :: !(e.Digest? && e.sent)
    ensures Round(j, src, zip, reply) == [GOOD_READ]
    ensures Run(j, Round(j, src, zip, reply), src, zip) == Act(j, GOOD_READ, src, zip)
  {
    hide Act;
    var (j1, log) := Act(j, GOOD_READ, src, zip);
    NothingToAnswer(log, reply);
    RunSnoc(j, [], GOOD_READ, src, zip);
    assert [] + [GOOD_READ] == [GOOD_READ] && [] + log == log;
  }

  lemma {:induction false} AnnouncingRead(j: Job, src: Disk, zip: Zip)
    requires j.detect && j.file == None && HasSource(j, src, j.fileNum)
    ensures Act(j, GOOD_READ, src, zip)
         == (j.(file := Some(Reader(Source(j, src, j.fileNum), 0)), confirmed := false, waiting := true),
             [Opened(j.fileNum)] + [Digest(j.fileNum, true)])
  {
  }

  lemma {:induction false} AnnouncementAnswered(k: int, reply: int -> Answer)
    ensures Answers([Opened(k)] + [Digest(k, true)], reply) == [DoConfirm(ConfirmRequest(k, reply(k)))]
  {
    var log := [Opened(k)] + [Digest(k, true)];
    assert log[..1] == [Opened(k)];
    NothingToAnswer([Opened(k)], reply);
  }

  lemma {:induction false} AnnouncingRound(j0: Job, j: Job, src: Disk, zip: Zip, reply: int -> Answer, k: nat)
    requires j0.detect && k < |j0.files| && At(j0, j, src, k, 0) && HasSource(j0, src, k) && AlwaysWants(reply)
    ensures At(j0, Run(j, Round(j, src, zip, reply), src, zip).0, src, k, 1) && |Round(j, src, zip, reply)| == 2
  {
    hide Run, Answers, ReadStep;
    var yes := DoConfirm(ConfirmRequest(k, reply(k)));
    AnnouncingRead(j, src, zip);
    AnnouncementAnswered(k, reply);
    NoActions(j, src, zip);
    RunSnoc(j, [], GOOD_READ, src, zip);
    RunSnoc(j, [GOOD_READ], yes, src, zip);
    assert [] + [GOOD_READ] == [GOOD_READ];
  }

  lemma {:induction false} NoActions(j: Job, src: Disk, zip: Zip)
    ensures Run(j, [], src, zip) == (j, [])
  {
  }

  lemma {:induction false} ChunkRound(j0: Job, j: Job, src: Disk, zip: Zip, reply: int -> Answer, k: nat, m: nat)
    requires k < |j0.files| && At(j0, j, src, k, m) && HasSource(j0, src, k)
    requires Announcing(j0) <= m < Announcing(j0) + Chunks(|Source(j0, src, k)|)
    ensures At(j0, Run(j, Round(j, src, zip, reply), src, zip).0, src, k, m + 1) && |Round(j, src, zip, reply)| == 1
  {
    hide Pack, Run, Round;
    var content, i := Source(j0, src, k), m - Announcing(j0);
    assert i * BUF_SIZE < |content|;
    assert Min(Min(i * BUF_SIZE, |content|) + BUF_SIZE, |content|) == Min((i + 1) * BUF_SIZE, |content|);
    var open := if m == 0 then j.(file := Some(Reader(content, 0)), confirmed := false, waiting := false) else j;
    assert ReadOpen(open, GOOD_READ.env, zip) == ReadChunk(open, GOOD_READ.env, zip);
    QuietRound(j, src, zip, reply);
  }

  lemma {:induction false} LastRound(j0: Job, j: Job, src: Disk, zip: Zip, reply: int -> Answer, k: nat)
    requires k < |j0.files| && HasSource(j0, src, k)
    requires At(j0, j, src, k, Announcing(j0) + Chunks(|Source(j0, src, k)|))
    ensures var (j1, log) := Run(j, Round(j, src, zip, reply), src, zip);
            At(j0, j1, src, k + 1, 0) && Closed(k) in log && |Round(j, src, zip, reply)| == 1
  {
    hide Run, Round;
    var content, env := Source(j0, src, k), GOOD_READ.env;
    assert Chunks(|content|) * BUF_SIZE >= |content|;
    if j.file == None {
      var open := j.(file := Some(Reader(content, 0)), confirmed := false, waiting := false);
      assert ReadOpen(open, env, zip) == ReadChunk(open, env, zip);
      assert ReadStep(j, env, src, zip).log[2] == Closed(k);
    } else {
      assert ReadStep(j, env, src, zip) == ReadChunk(j, env, zip);
      assert ReadStep(j, env, src, zip).log[1] == Closed(k);
    }
    QuietRound(j, src, zip, reply);
  }

  lemma {:induction false} NextRound(j0: Job, j: Job, src: Disk, zip: Zip, reply: int -> Answer, k: nat, m: nat)
    requires k < |j0.files| && At(j0, j, src, k, m) && HasSource(j0, src, k) && AlwaysWants(reply)
    requires m < Announcing(j0) + Chunks(|Source(j0, src, k)|)
    ensures At(j0, Run(j, Round(j, src, zip, reply), src, zip).0, src, k, m + 1)
    ensures |Round(j, src, zip, reply)| == if m == 0 then 1 + Announcing(j0) else 1
  {
    hide Run, Round, At, Chunks;
    if j0.detect && m == 0 {
      AnnouncingRound(j0, j, src, zip, reply, k);
    } else {
      ChunkRound(j0, j, src, zip, reply, k, m);
    }
  }

  /** The state after `n` reads, m of them spent on file k: what is closed, and how many confirmations it took. */
  ghost predicate Reached(j: Job, src: Disk, zip: Zip, reply: int -> Answer, n: nat, k: nat, m: nat) {
    var acts := Prompt(j, n, src, zip, reply);
    var (j1, log) := Run(j, acts, src, zip);
    && At(j, j1, src, k, m) && AllClosed(log, j.fileNum, k)
    && |acts| == n + if j.detect then k - j.fileNum + (if m == 0 then 0 else 1) else 0
  }

  lemma {:induction false} ReachStart(j: Job, src: Disk, zip: Zip, reply: int -> Answer)
    requires Fresh(j) && j.fileNum >= 0
    ensures Reached(j, src, zip, reply, 0, j.fileNum, 0)
  {
  }

  lemma {:induction false} ReachNext(j: Job, src: Disk, zip: Zip, reply: int -> Answer, n: nat, k: nat, m: nat)
    requires Reached(j, src, zip, reply, n, k, m) && HasSource(j, src, k) && AlwaysWants(reply)
    requires m < Announcing(j) + Chunks(|Source(j, src, k)|)
    ensures Reached(j, src, zip, reply, n + 1, k, m + 1)
  {
    hide Run, Round, At, Chunks;
    PromptRuns(j, n, src, zip, reply);
    NextRound(j, Run(j, Prompt(j, n, src, zip, reply), src, zip).0, src, zip, reply, k, m);
  }

  lemma {:induction false} ReachEnd(j: Job, src: Disk, zip: Zip, reply: int -> Answer, n: nat, k: nat)
    requires HasSource(j, src, k) && Reached(j, src, zip, reply, n, k, Announcing(j) + Chunks(|Source(j, src, k)|))
    ensures Reached(j, src, zip, reply, n + 1, k + 1, 0)
  {
    hide Run, Round, At, Chunks;
    PromptRuns(j, n, src, zip, reply);
    LastRound(j, Run(j, Prompt(j, n, src, zip, reply), src, zip).0, src, zip, reply, k);
  }

  /** After exactly the reads of the files from the first up to k and m more, m reads have been spent on file k. */
  lemma {:induction false} PromptReaches(j: Job, src: Disk, zip: Zip, reply: int -> Answer, k: nat, m: nat)
    requires AllSources(j, src, j.fileNum) && Fresh(j) && AlwaysWants(reply) && 0 <= j.fileNum <= k <= |j.files|
    requires m == 0 || (k < |j.files| && HasSource(j, src, k) && m <= Announcing(j) + Chunks(|Source(j, src, k)|))
    ensures Reached(j, src, zip, reply, ReadsFrom(j, src, j.fileNum, k) + m, k, m)
    decreases k, m
  {
    hide Reached, Chunks, Source;
    if m > 0 {
      PromptReaches(j, src, zip, reply, k, m - 1);
      ReachNext(j, src, zip, reply, ReadsFrom(j, src, j.fileNum, k) + m - 1, k, m - 1);
    } else if k > j.fileNum {
      assert HasSource(j, src, k - 1);
      var last := Announcing(j) + Chunks(|Source(j, src, k - 1)|);
      PromptReaches(j, src, zip, reply, k - 1, last);
      ReachEnd(j, src, zip, reply, ReadsFrom(j, src, j.fileNum, k - 1) + last, k - 1);
    } else {
      ReachStart(j, src, zip, reply);
    }
  }

  /**
   Termination. When nothing fails and each digest is confirmed at once, by either answer, a job over existing files
   passes its last file after exactly one read for each started buffer of each file from its first on, one more for
   each end of file and, with overwrite detection, one more for each announcement, which takes one confirmation; not
   sooner. The next round finishes the job.
   */
  lemma {:induction false} PromptTransferEnds(s: Job, src: Disk, zip: Zip, reply: int -> Answer)
    requires Fresh(s) && !s.isLastJob && AllSources(s, src, s.fileNum) && AlwaysWants(reply)
    ensures var acts := Prompt(s, TotalReads(s, src), src, zip, reply);
            var (s1, log) := Run(s, acts, src, zip);
            && !s1.InRange() && (s.InRange() ==> AllClosed(log, s.fileNum, |s.files|))
            && (forall env :: VisitJob(s1, env, src, zip).finished)
            && |acts| == TotalReads(s, src) + TotalConfirms(s)
            && (forall n :: 0 <= n < TotalReads(s, src) ==> Run(s, Prompt(s, n, src, zip, reply), src, zip).0.InRange())
  {
    hide Run, VisitJob;
    var total := TotalReads(s, src);
    if s.InRange() {
      PromptReaches(s, src, zip, reply, |s.files|, 0);
    } else {
      NoActions(s, src, zip);
    }
    var acts := Prompt(s, total, src, zip, reply);
    var s1 := Run(s, acts, src, zip).0;
    forall n | 0 <= n < total
      ensures Run(s, Prompt(s, n, src, zip, reply), src, zip).0.InRange()
    {
      NotSooner(s, src, zip, reply, n);
    }
    forall env
      ensures VisitJob(s1, env, src, zip).finished
    {
      FinishedOnlyAtEnd(s1, env, src, zip);
    }
  }

  lemma {:induction false} PromptExtends(j: Job, src: Disk, zip: Zip, reply: int -> Answer, n: nat, m: nat)
    requires n <= m
    ensures Prompt(j, n, src, zip, reply) <= Prompt(j, m, src, zip, reply)
    decreases m
  {
    hide Round;
    if n < m {
      PromptExtends(j, src, zip, reply, n, m - 1);
    }
  }

  lemma {:induction false} NotSooner(s: Job, src: Disk, zip: Zip, reply: int -> Answer, n: nat)
    requires Fresh(s) && AllSources(s, src, s.fileNum) && AlwaysWants(reply) && n < TotalReads(s, src)
    ensures Run(s, Prompt(s, n, src, zip, reply), src, zip).0.InRange()
  {
    hide Run, Prompt;
    var len, total := |s.files|, TotalReads(s, src);
    assert HasSource(s, src, len - 1);
    PromptReaches(s, src, zip, reply, len - 1, Announcing(s) + Chunks(|Source(s, src, len - 1)|));
    PromptReaches(s, src, zip, reply, s.fileNum, 0);
    PromptExtends(s, src, zip, reply, 0, n);
    PromptExtends(s, src, zip, reply, n, total - 1);
    var none, acts := Prompt(s, 0, src, zip, reply), Prompt(s, n, src, zip, reply);
    var all := Prompt(s, total - 1, src, zip, reply);
    assert acts[..|none|] == none && all[..|acts|] == acts;
    FileNumMonotone(s, all, src, zip, |acts|);
    FileNumMonotone(s, acts, src, zip, |none|);
    RunSameJob(s, acts, src, zip);
  }

  lemma {:induction false} RunSameJob(j: Job, acts: seq<Action>, disk: Disk, zip: Zip)
    ensures SameJob(j, Run(j, acts, disk, zip).0)
    decreases |acts|
  {
    hide Act;
    if acts != [] {
      RunSameJob(j, acts[..|acts| - 1], disk, zip);
      ActMonotone(Run(j, acts[..|acts| - 1], disk, zip).0, acts[|acts| - 1], disk, zip);
    }
  }

  /** Without overwrite detection there is nothing to confirm: such a run is its reads alone. */
  lemma {:induction false} UndetectedOnlyReads(s: Job, src: Disk, zip: Zip, reply: int -> Answer, n: nat)
    requires !s.detect
    ensures Prompt(s, n, src, zip, reply) == seq(n, _ => GOOD_READ)
  {
    hide Run, Round;
    if n > 0 {
      UndetectedOnlyReads(s, src, zip, reply, n - 1);
      var acts := Prompt(s, n - 1, src, zip, reply);
      RunSameJob(s, acts, src, zip);
      UndetectedRound(Run(s, acts, src, zip).0, src, zip, reply);
    }
  }

  lemma {:induction false} UndetectedRound(j: Job, src: Disk, zip: Zip, reply: int -> Answer)
    requires !j.detect
    ensures Round(j, src, zip, reply) == [GOOD_READ]
  {
    hide Pack;
    QuietRound(j, src, zip, reply);
  }

  /** Fidelity of such a transfer: the receiver ends up with every file from the first on, byte for byte. */
  lemma {:induction false} PromptTransferDelivers(s: Job, src: Disk, r: Job, dst: Disk, zip: Zip,
                                                  reply: int -> Answer)
    requires Lossless(zip) && Fresh(s) && Fresh(r) && r.id == s.id && r.files == s.files && r.fileNum == s.fileNum
    requires !s.isLastJob && AllSources(s, src, s.fileNum) && PathsApart(r) && AlwaysWants(reply)
    ensures var (s1, log) := Run(s, Prompt(s, TotalReads(s, src), src, zip, reply), src, zip);
            var (r1, dst1) := Deliver(r, dst, Blocks(log), zip);
            var final := ModifyTimeStep(r1, dst1).1;
            && (s.InRange() ==> forall k :: s.fileNum <= k < |s.files| ==>
                  HasSource(s, src, k) && r.PathOf(k) in final && final[r.PathOf(k)] == Source(s, src, k))
            && s1.finishedSize == r1.finishedSize && s1.transferred == r1.transferred
  {
    hide Run, Prompt, Deliver, ModifyTimeStep, Blocks;
    PromptTransferEnds(s, src, zip, reply);
    var acts := Prompt(s, TotalReads(s, src), src, zip, reply);
    var (s1, log) := Run(s, acts, src, zip);
    RunKeepsSending(s, acts, src, zip);
    if s.InRange() {
      assert Closed(s.fileNum) in log;
      assert Touched(s.fileNum, Blocks(log));
    }
    TransferFidelity(s, acts, src, r, dst, zip);
    assert s.InRange() ==> forall k :: s.fileNum <= k < |s.files| ==> Closed(k) in log;
  }

  // ----- what goes wrong outside these conditions -----

  /**
   A file skipped after its confirmation is installed cut short: with a file longer than the buffer, the
   run digest, confirm, one block, skip leaves the first buffer under the final name.
   */
  lemma {:induction false} SkipAfterBlockTruncates(s: Job, src: Disk, r: Job, dst: Disk, zip: Zip)
    requires Lossless(zip) && Fresh(s) && Fresh(r) && r.id == s.id && r.files == s.files && PathsApart(r)
    requires s.detect && s.InRange() && r.fileNum == s.fileNum && HasSource(s, src, s.fileNum)
    requires |Source(s, src, s.fileNum)| > BUF_SIZE
    ensures var k := s.fileNum;
            var acts := [GOOD_READ, DoConfirm(ConfirmRequest(k, Skip(false))),
                         GOOD_READ, DoConfirm(ConfirmRequest(k, Skip(true)))];
            var log := Run(s, acts, src, zip).1;
            var (r1, dst1) := Deliver(r, dst, Blocks(log), zip);
            var final := ModifyTimeStep(r1, dst1).1;
            Skipped(k) in log && r.PathOf(k) in final && final[r.PathOf(k)] == Source(s, src, k)[..BUF_SIZE]
  {
    var k := s.fileNum;
    var content := Source(s, src, k);
    var yes, no := DoConfirm(ConfirmRequest(k, Skip(false))), DoConfirm(ConfirmRequest(k, Skip(true)));
    var acts := [GOOD_READ, yes, GOOD_READ, no];
    assert acts == [GOOD_READ, yes, GOOD_READ] + [no] && [GOOD_READ, yes, GOOD_READ] == [GOOD_READ, yes] + [GOOD_READ]
        && [GOOD_READ, yes] == [GOOD_READ] + [yes] && [GOOD_READ] == [] + [GOOD_READ];
    var j1 := s.(file := Some(Reader(content, 0)), waiting := true);
    var j2 := j1.(confirmed := true);
    var chunk := content[0..BUF_SIZE];
    var b := Pack(j2, chunk, zip);
    PackedChunk(j2, chunk, zip);
    hide Pack, AfterBlock;
    var j3 := AfterBlock(j2, BUF_SIZE, b);
    assert j3.fileNum == k by { BlockKeepsNumber(j2, BUF_SIZE, b); }
    assert [Opened(k)] + [Digest(k, true)] == [Opened(k), Digest(k, true)];
    assert ReadStep(s, GOOD_READ.env, src, zip).log == [Opened(k)] + [Digest(k, true)];
    assert Act(s, GOOD_READ, src, zip) == (j1, [Opened(k), Digest(k, true)]);
    assert Act(j1, yes, src, zip) == (j2, [Confirmed(k, true)]);
    assert Act(j2, GOOD_READ, src, zip) == (j3, [BlockOut(b)]);
    assert Act(j3, no, src, zip).1 == [Skipped(k)];
    RunSnoc(s, [], GOOD_READ, src, zip);
    RunSnoc(s, [GOOD_READ], yes, src, zip);
    RunSnoc(s, [GOOD_READ, yes], GOOD_READ, src, zip);
    RunSnoc(s, [GOOD_READ, yes, GOOD_READ], no, src, zip);
    assert [] + [Opened(k), Digest(k, true)] == [Opened(k), Digest(k, true)];
    var log := Run(s, acts, src, zip).1;
    assert log == [Opened(k), Digest(k, true), Confirmed(k, true), BlockOut(b), Skipped(k)];
    assert log[4] == Skipped(k);
    OneBlockLog(log, b);
    OneBlockInstalled(r, dst, b, zip);
  }

  lemma {:induction false} BlockKeepsNumber(j: Job, end: nat, b: Block)
    requires j.file.Some? && j.file.value.Reader? && j.file.value.pos <= end
    ensures AfterBlock(j, end, b).fileNum == j.fileNum
  {
  }

  lemma {:induction false} OneBlockLog(log: seq<Event>, b: Block)
    requires |log| == 5 && log[3] == BlockOut(b)
    requires forall i :: 0 <= i < 5 && i != 3 ==> !log[i].BlockOut?
    ensures Blocks(log) == [b]
  {
    NoBlocks([], log[..3]);
    assert [] + log[..3] == log[..3];
    BlocksSnoc(log[..3], log[3]);
    BlocksSnoc(log[..4], log[4]);
    assert log[..3] + [log[3]] == log[..4] && log[..4] + [log[4]] == log;
  }

  lemma {:induction false} OneBlockInstalled(r: Job, dst: Disk, b: Block, zip: Zip)
    requires Fresh(r) && PathsApart(r) && b.id == r.id && b.fileNum == r.fileNum && r.InRange()
    ensures var (r1, dst1) := Deliver(r, dst, [b], zip);
            var final := ModifyTimeStep(r1, dst1).1;
            r.PathOf(b.fileNum) in final && final[r.PathOf(b.fileNum)] == Plain(b, zip)
  {
    hide PathsApart, Deliver, ModifyTimeStep, Delivered, Touched, Data, ForJob, Ordered, Stale, Plain;
    OneBlock(r, dst, b, zip);
    ReceiverInstalls(r, dst, [b], zip);
    var (r1, dst1) := Deliver(r, dst, [b], zip);
    InstalledIfTouched(r, dst, ModifyTimeStep(r1, dst1).1, [b], b.fileNum, zip);
  }

  lemma {:induction false} OneBlock(r: Job, dst: Disk, b: Block, zip: Zip)
    requires Fresh(r) && b.id == r.id && b.fileNum == r.fileNum && r.InRange()
    ensures r.file == None && ForJob(r, [b]) && Ordered([b]) && !Stale(r, dst, [b])
    ensures Touched(b.fileNum, [b]) && Data(b.fileNum, [b], zip) == Plain(b, zip)
  {
    hide Touched, Data, Plain;
    TouchedSnoc(b.fileNum, [], b);
    OneBlockData(b, zip);
    assert [] + [b] == [b];
  }

  lemma {:induction false} OneBlockData(b: Block, zip: Zip)
    ensures Data(b.fileNum, [b], zip) == Plain(b, zip)
  {
    hide Plain;
    DataSnoc(b.fileNum, [], b, zip);
    assert [] + [b] == [b] && [] + Plain(b, zip) == Plain(b, zip);
  }

  lemma {:induction false} InstalledIfTouched(j: Job, before: Disk, after: Disk, blocks: seq<Block>, k: int, zip: Zip)
    requires Delivered(j, before, after, blocks, zip) && 0 <= k < |j.files| && Touched(k, blocks)
    ensures Installed(j, after, blocks, k, zip)
  {
  }

  /**
   A failed creation keeps the previous handle open. The next block of the new file is then appended to the
   previous file, which by now has its final name.
   */
  lemma {:induction false} FailedCreateCorrupts(j0: Job, before: Disk, j: Job, disk: Disk, blocks: seq<Block>, k: int,
                             b1: Block, b2: Block, zip: Zip)
    requires PathsApart(j0) && Receiving(j0, before, j, disk, blocks, k, zip)
    requires b1.id == b2.id == j0.id && b1.fileNum == b2.fileNum != k && 0 <= b1.fileNum < |j0.files|
    ensures var (j1, disk1, r1) := WriteStep(j, disk, b1, CreateFails, zip);
            var (j2, disk2, r2) := WriteStep(j1, disk1, b2, Fine, zip);
            && r1 == Err(CreateError) && r2 == Ok(())
            && j0.PathOf(k) in disk2 && disk2[j0.PathOf(k)] == Data(k, blocks, zip) + Plain(b2, zip)
            && SameAt(disk1, disk2, j0.DownloadOf(b2.fileNum))
  {
    var (j1, disk1, r1) := WriteStep(j, disk, b1, CreateFails, zip);
    assert j1.file == Some(Writer(j0.PathOf(k)));
    assert disk1[j0.PathOf(k)] == Data(k, blocks, zip);
    var (j2, disk2, r2) := WriteStep(j1, disk1, b2, Fine, zip);
    assert disk2 == disk1[j0.PathOf(k) := disk1[j0.PathOf(k)] + Plain(b2, zip)];
  }
}
