/**
 The overwrite handshake of the sender and the loop that drives all sending jobs
 (libs/hbb_common/src/fs.rs).
 */
module TransferHandshake {
  import opened Basics
  import opened Transfer

  // ----- no block without a confirmation -----

  /** `o` is an opening of file k followed at once by its digest, with no later opening before `end`. */
  ghost predicate OpeningAt(log: seq<Event>, o: int, end: int, k: int) {
    && 0 <= o && o + 1 < end <= |log|
    && log[o] == Opened(k) && log[o + 1].Digest? && log[o + 1].k == k
    && (forall m :: o < m < end ==> !log[m].Opened?)
  }

  /** A digest of file k was sent between `o` and `end`. */
  ghost predicate SentSince(log: seq<Event>, o: int, end: int, k: int)
    requires 0 <= o && end <= |log|
  {
    exists d :: o < d < end && log[d] == Digest(k, true)
  }

  ghost predicate ConfirmedBetween(log: seq<Event>, o: int, end: int, k: int)
    requires end <= |log|
  {
    exists c :: 0 <= o + 1 < c < end && log[c].Confirmed? && log[c].k == k
  }

  /** Each confirmation since `o` is for file k, and found the job waiting exactly if a digest had been sent. */
  ghost predicate ConfirmsHonest(log: seq<Event>, o: int, end: int, k: int)
    requires 0 <= o && end <= |log|
  {
    forall c :: o < c < end && log[c].Confirmed? ==> log[c].k == k && (log[c].waiting <==> SentSince(log, o, c, k))
  }

  /** The story of the open file since its opening at `o`. */
  ghost predicate OpenSince(j: Job, log: seq<Event>, o: int) {
    && OpeningAt(log, o, |log|, j.fileNum)
    && ConfirmsHonest(log, o, |log|, j.fileNum)
    && (j.waiting <==> SentSince(log, o, |log|, j.fileNum))
    && (j.confirmed ==> ConfirmedBetween(log, o, |log|, j.fileNum))
  }

  /** The open file was announced, waits exactly if a digest was sent, and was confirmed if it is marked so. */
  ghost predicate OpenInv(j: Job, log: seq<Event>) {
    j.file.Some? ==> exists o :: OpenSince(j, log, o)
  }

  /** The block at `i` belongs to an opening whose digest came first and was then confirmed. */
  ghost predicate BlockAnnounced(log: seq<Event>, i: int)
    requires 0 <= i < |log| && log[i].BlockOut?
  {
    exists o :: && OpeningAt(log, o, i, log[i].block.fileNum)
                && ConfirmedBetween(log, o, i, log[i].block.fileNum)
                && ConfirmsHonest(log, o, i, log[i].block.fileNum)
  }

  lemma {:induction false} SentExtends(log: seq<Event>, e: Event, o: int, k: int)
    requires 0 <= o < |log|
    ensures forall end :: end <= |log| ==> (SentSince(log + [e], o, end, k) <==> SentSince(log, o, end, k))
    ensures SentSince(log + [e], o, |log| + 1, k) <==> SentSince(log, o, |log|, k) || e == Digest(k, true)
  {
    var all := log + [e];
    assert forall d :: 0 <= d < |log| ==> all[d] == log[d];
    if e == Digest(k, true) {
      assert all[|log|] == Digest(k, true);
    }
    if SentSince(log, o, |log|, k) {
      var d :| o < d < |log| && log[d] == Digest(k, true);
      assert all[d] == Digest(k, true);
    }
  }

  lemma {:induction false} ConfirmedExtends(log: seq<Event>, e: Event, o: int, k: int)
    ensures forall end :: end <= |log| ==>
              (ConfirmedBetween(log, o, end, k) <==> ConfirmedBetween(log + [e], o, end, k))
    ensures ConfirmedBetween(log, o, |log|, k) ==> ConfirmedBetween(log + [e], o, |log| + 1, k)
  {
    assert forall d :: 0 <= d < |log| ==> (log + [e])[d] == log[d];
    if ConfirmedBetween(log, o, |log|, k) {
      var c :| 0 <= o + 1 < c < |log| && log[c].Confirmed? && log[c].k == k;
      assert (log + [e])[c] == log[c];
    }
  }

  lemma {:induction false} HonestExtends(log: seq<Event>, e: Event, o: int, k: int, waiting: bool)
    requires 0 <= o < |log| && ConfirmsHonest(log, o, |log|, k)
    requires waiting <==> SentSince(log, o, |log|, k)
    requires e.Confirmed? ==> e == Confirmed(k, waiting)
    ensures ConfirmsHonest(log + [e], o, |log|, k) && ConfirmsHonest(log + [e], o, |log| + 1, k)
  {
    hide SentSince;
    SentExtends(log, e, o, k);
    assert forall d :: 0 <= d < |log| ==> (log + [e])[d] == log[d];
  }

  /** What one event other than an opening makes of the story; the job's flags follow it. */
  lemma {:induction false} SinceExtends(j: Job, log: seq<Event>, o: int, e: Event, j': Job)
    requires OpenSince(j, log, o) && j'.fileNum == j.fileNum && !e.Opened?
    requires e.Confirmed? ==> e == Confirmed(j.fileNum, j.waiting)
    requires j'.waiting == (j.waiting || e == Digest(j.fileNum, true))
    requires j'.confirmed ==> j.confirmed || e.Confirmed?
    ensures OpenSince(j', log + [e], o)
    ensures var all, k := log + [e], j.fileNum;
            && OpeningAt(all, o, |log|, k) && ConfirmsHonest(all, o, |log|, k)
            && (j.confirmed ==> ConfirmedBetween(all, o, |log|, k))
  {
    hide SentSince, ConfirmedBetween, ConfirmsHonest;
    var k := j.fileNum;
    SentExtends(log, e, o, k);
    ConfirmedExtends(log, e, o, k);
    HonestExtends(log, e, o, k, j.waiting);
    if e.Confirmed? {
      NewConfirm(log, e, o, k);
    }
  }

  lemma {:induction false} NewConfirm(log: seq<Event>, e: Event, o: int, k: int)
    requires e.Confirmed? && e.k == k && 0 <= o && o + 1 < |log|
    ensures ConfirmedBetween(log + [e], o, |log| + 1, k)
  {
    assert (log + [e])[|log|] == e;
  }

  lemma {:induction false} SinceOpening(j: Job, log: seq<Event>, k: int, sent: bool)
    requires j.fileNum == k && !j.confirmed && j.waiting == sent
    ensures OpenSince(j, log + [Opened(k), Digest(k, sent)], |log|)
  {
    var all := log + [Opened(k), Digest(k, sent)];
    assert all[|log|] == Opened(k) && all[|log| + 1] == Digest(k, sent);
  }

  /** What a read of an open file does to the flags and the log. */
  lemma {:induction false} OpenReadNews(j: Job, env: ReadEnv, zip: Zip)
    requires j.detect && j.InRange() && j.file.Some?
    ensures var r := ReadOpen(j, env, zip);
            && (r.log == [] ==> r.job == j)
            && (r.job.file.Some? ==>
                  && r.job.fileNum == j.fileNum && r.job.confirmed == j.confirmed
                  && |r.log| <= 1
                  && (r.log != [] ==>
                        && !r.log[0].Opened? && !r.log[0].Confirmed?
                        && r.job.waiting == (j.waiting || r.log[0] == Digest(j.fileNum, true))))
            && (forall n :: 0 <= n < |r.log| && r.log[n].BlockOut? ==>
                  n == 0 && j.confirmed && r.log[0].block.fileNum == j.fileNum)
  {
    hide Ext;
  }

  lemma {:induction false} OpenReadKeepsInv(j: Job, log: seq<Event>, env: ReadEnv, zip: Zip)
    requires j.detect && j.InRange() && j.file.Some? && OpenInv(j, log)
    ensures var r := ReadOpen(j, env, zip);
            && OpenInv(r.job, log + r.log)
            && (forall i :: |log| <= i < |log + r.log| && (log + r.log)[i].BlockOut? ==> BlockAnnounced(log + r.log, i))
  {
    hide ReadOpen, OpenSince;
    OpenReadNews(j, env, zip);
    var r := ReadOpen(j, env, zip);
    var o :| OpenSince(j, log, o);
    if r.log == [] {
      assert log + r.log == log;
      SameSince(j, r.job, log, o);
    } else {
      var e := r.log[0];
      if r.job.file.Some? {
        assert log + r.log == log + [e];
        SinceExtends(j, log, o, e, r.job);
      }
      if e.BlockOut? {
        OneBlockAnnounced(j, log, o, r.log);
      }
    }
  }

  lemma {:induction false} SameSince(j: Job, j': Job, log: seq<Event>, o: int)
    requires OpenSince(j, log, o)
    requires j'.fileNum == j.fileNum && j'.waiting == j.waiting && (j'.confirmed ==> j.confirmed)
    ensures OpenSince(j', log, o)
  {
  }

  lemma {:induction false} OneBlockAnnounced(j: Job, log: seq<Event>, o: int, more: seq<Event>)
    requires OpenSince(j, log, o) && j.confirmed
    requires more != [] && more[0].BlockOut? && more[0].block.fileNum == j.fileNum
    ensures (log + more)[|log|].BlockOut? && BlockAnnounced(log + more, |log|)
  {
    hide OpenSince;
    SinceExtends(j, log, o, more[0], j);
    BlockOfOpening(log + [more[0]], o);
    AnnouncedExtends(log + [more[0]], more[1..], |log|);
    assert log + more == log + [more[0]] + more[1..];
  }

  lemma {:induction false} BlockOfOpening(all: seq<Event>, o: int)
    requires all != [] && all[|all| - 1].BlockOut?
    requires var k := all[|all| - 1].block.fileNum;
             && OpeningAt(all, o, |all| - 1, k) && ConfirmsHonest(all, o, |all| - 1, k)
             && ConfirmedBetween(all, o, |all| - 1, k)
    ensures BlockAnnounced(all, |all| - 1)
  {
  }

  lemma {:induction false} ActKeepsInv(j: Job, log: seq<Event>, a: Action, disk: Disk, zip: Zip)
    requires j.detect && OpenInv(j, log)
    ensures var (j', more) := Act(j, a, disk, zip);
            && OpenInv(j', log + more)
            && (forall i :: |log| <= i < |log + more| && (log + more)[i].BlockOut? ==> BlockAnnounced(log + more, i))
  {
    match a {
      case DoRead(env) =>
        if j.InRange() && j.file.Some? {
          OpenReadKeepsInv(j, log, env, zip);
        } else if j.InRange() && env.openOk && j.PathOf(j.fileNum) in disk {
          OpeningKeepsInv(j, log, env, disk, zip);
        }
      case DoConfirm(r) => ConfirmKeepsInv(j, log, r);
    }
  }

  lemma {:induction false} OpeningKeepsInv(j: Job, log: seq<Event>, env: ReadEnv, disk: Disk, zip: Zip)
    requires j.detect && j.InRange() && j.file == None && env.openOk && j.PathOf(j.fileNum) in disk
    ensures var r := ReadStep(j, env, disk, zip);
            && OpenInv(r.job, log + r.log)
            && (forall i :: |log| <= i < |log + r.log| ==> !(log + r.log)[i].BlockOut?)
  {
    hide OpenSince, BlockAnnounced;
    var r := ReadStep(j, env, disk, zip);
    assert r.log == [Opened(j.fileNum), Digest(j.fileNum, env.digestOk)];
    SinceOpening(r.job, log, j.fileNum, env.digestOk);
  }

  lemma {:induction false} ConfirmKeepsInv(j: Job, log: seq<Event>, r: ConfirmRequest)
    requires OpenInv(j, log)
    ensures var (j', more) := ConfirmStep(j, r);
            OpenInv(j', log + more) && (forall e <- more :: !e.BlockOut?)
  {
    hide OpenSince, BlockAnnounced;
    var (j', more) := ConfirmStep(j, r);
    if j'.file.Some? {
      var o :| OpenSince(j, log, o);
      if more == [] {
        assert log + more == log;
      } else {
        SinceExtends(j, log, o, Confirmed(j.fileNum, j.waiting), j');
      }
    }
  }

  lemma {:induction false} RunKeepsInv(j: Job, acts: seq<Action>, disk: Disk, zip: Zip)
    requires j.detect && j.file == None
    ensures var (j', log) := Run(j, acts, disk, zip);
            && j'.detect && OpenInv(j', log)
            && (forall i :: 0 <= i < |log| && log[i].BlockOut? ==> BlockAnnounced(log, i))
    decreases |acts|
  {
    hide Act, OpenInv, BlockAnnounced;
    if acts == [] {
      NothingOpen(j);
    } else {
      var init := acts[..|acts| - 1];
      ActMonotone(Run(j, init, disk, zip).0, acts[|acts| - 1], disk, zip);
      RunKeepsInv(j, init, disk, zip);
      var (j1, log) := Run(j, init, disk, zip);
      var (_, more) := Act(j1, acts[|acts| - 1], disk, zip);
      ActKeepsInv(j1, log, acts[|acts| - 1], disk, zip);
      forall i | 0 <= i < |log| && log[i].BlockOut?
        ensures BlockAnnounced(log + more, i)
      {
        AnnouncedExtends(log, more, i);
      }
    }
  }

  lemma {:induction false} NothingOpen(j: Job)
    requires j.file == None
    ensures OpenInv(j, [])
  {
  }

  lemma {:induction false} AnnouncedExtends(log: seq<Event>, more: seq<Event>, i: int)
    requires 0 <= i < |log| && log[i].BlockOut? && BlockAnnounced(log, i)
    ensures (log + more)[i].BlockOut? && BlockAnnounced(log + more, i)
  {
    var all := log + more;
    assert all[..|log|] == log;
    assert forall d :: 0 <= d < |log| ==> all[d] == log[d];
    var k := log[i].block.fileNum;
    var o :| OpeningAt(log, o, i, k) && ConfirmedBetween(log, o, i, k) && ConfirmsHonest(log, o, i, k);
    SamePrefix(log, all, o, i, k);
  }

  lemma {:induction false} SamePrefix(log: seq<Event>, all: seq<Event>, o: int, i: int, k: int)
    requires 0 <= o && i <= |log| <= |all| && forall d :: 0 <= d < |log| ==> all[d] == log[d]
    requires OpeningAt(log, o, i, k) && ConfirmedBetween(log, o, i, k) && ConfirmsHonest(log, o, i, k)
    ensures OpeningAt(all, o, i, k) && ConfirmedBetween(all, o, i, k) && ConfirmsHonest(all, o, i, k)
  {
    var c :| 0 <= o + 1 < c < i && log[c].Confirmed? && log[c].k == k;
    assert all[c] == log[c];
    forall c | o < c < i && all[c].Confirmed?
      ensures all[c].k == k && (all[c].waiting <==> SentSince(all, o, c, k))
    {
      assert log[c].Confirmed?;
      assert SentSince(all, o, c, k) <==> SentSince(log, o, c, k) by {
        if d :| o < d < c && log[d] == Digest(k, true) {
          assert all[d] == Digest(k, true);
        }
        if d :| o < d < c && all[d] == Digest(k, true) {
          assert log[d] == Digest(k, true);
        }
      }
    }
  }

  /**
   The story before a block of file k at `i`: an opening of k at `o` with its digest attempted right behind it,
   an accepted non-skip confirmation for k at `c`, and no other opening in between. A digest had been sent by
   the time of a confirmation exactly if that confirmation found the job waiting.
   */
  ghost predicate Announced(log: seq<Event>, o: int, c: int, i: int, k: int) {
    && 0 <= o && o + 1 < c < i <= |log|
    && log[o] == Opened(k) && log[o + 1].Digest? && log[o + 1].k == k && log[c].Confirmed? && log[c].k == k
    && (forall m :: o < m < i ==> !log[m].Opened?)
    && (forall m :: o < m < i && log[m].Confirmed? ==> (log[m].waiting <==> SentSince(log, o, m, k)))
  }

  /**
   In every run with detection on, every block of file k is announced and confirmed before it goes out, and its
   announcement was sent before a confirmation if and only if that confirmation was accepted while
   `file_is_waiting`.
   */
  lemma {:induction false} HandshakeSafety(j: Job, acts: seq<Action>, disk: Disk, zip: Zip, i: nat)
    requires j.detect && j.file == None
    requires i < |Run(j, acts, disk, zip).1| && Run(j, acts, disk, zip).1[i].BlockOut?
    ensures var log := Run(j, acts, disk, zip).1;
            var k := log[i].block.fileNum;
            exists o, c :: Announced(log, o, c, i, k) && (SentSince(log, o, c, k) <==> log[c].waiting)
  {
    RunKeepsInv(j, acts, disk, zip);
    hide Run, OpenInv, SentSince;
    var log := Run(j, acts, disk, zip).1;
    var k := log[i].block.fileNum;
    assert BlockAnnounced(log, i);
    var o :| OpeningAt(log, o, i, k) && ConfirmedBetween(log, o, i, k) && ConfirmsHonest(log, o, i, k);
    var c :| 0 <= o + 1 < c < i && log[c].Confirmed? && log[c].k == k;
    assert Announced(log, o, c, i, k);
  }

  /** When no digest fails to be sent, every block is preceded by a sent digest and then a confirmation. */
  lemma {:induction false} SentDigestsPrecedeBlocks(j: Job, acts: seq<Action>, disk: Disk, zip: Zip, i: nat)
    requires j.detect && j.file == None
    requires i < |Run(j, acts, disk, zip).1| && Run(j, acts, disk, zip).1[i].BlockOut?
    requires forall d :: 0 <= d < i && Run(j, acts, disk, zip).1[d].Digest? ==> Run(j, acts, disk, zip).1[d].sent
    ensures var log := Run(j, acts, disk, zip).1;
            var k := log[i].block.fileNum;
            exists o, c :: Announced(log, o, c, i, k) && SentSince(log, o, c, k) && log[c].waiting
  {
    HandshakeSafety(j, acts, disk, zip, i);
    hide Run;
    var log := Run(j, acts, disk, zip).1;
    var k := log[i].block.fileNum;
    var o, c :| Announced(log, o, c, i, k);
    assert log[o + 1] == Digest(k, true);
  }

  // ----- one digest for each opening -----

  predicate IsOpening(log: seq<Event>, o: int) {
    0 <= o < |log| && log[o].Opened?
  }

  predicate Reopened(log: seq<Event>, o: int, m: int) {
    exists n :: o < n < m && IsOpening(log, n)
  }

  /** The opening at `o` is followed at once by its digest; once that is sent, the next digest needs another opening. */
  predicate OneDigest(log: seq<Event>, o: int)
    requires IsOpening(log, o)
  {
    && o + 1 < |log| && log[o + 1].Digest? && log[o + 1].k == log[o].k
    && (log[o + 1].sent ==> forall m :: o + 1 < m < |log| && log[m].Digest? ==> Reopened(log, o, m))
  }

  ghost predicate AllOneDigest(log: seq<Event>) {
    forall o :: IsOpening(log, o) ==> OneDigest(log, o)
  }

  /** A step emits no digest, one more after a failed one, or one right behind an opening. */
  lemma {:induction false} ActDigests(j: Job, a: Action, disk: Disk, zip: Zip)
    requires j.detect
    ensures var more := Act(j, a, disk, zip).1;
            || (forall e <- more :: !e.Opened? && !e.Digest?)
            || (|more| == 1 && more[0].Digest? && j.file.Some? && !j.waiting)
            || (|more| == 2 && more[0].Opened? && more[1].Digest? && more[1].k == more[0].k)
  {
  }

  lemma {:induction false} DigestsExtend(log: seq<Event>, more: seq<Event>, o: int)
    requires IsOpening(log, o) && OneDigest(log, o)
    requires forall m :: |log| <= m < |log + more| && (log + more)[m].Digest? && (log + more)[o + 1].sent ==>
               Reopened(log + more, o, m)
    ensures OneDigest(log + more, o)
  {
    var all := log + more;
    assert all[o] == log[o] && all[o + 1] == log[o + 1];
    if log[o + 1].sent {
      forall m | o + 1 < m < |log| && all[m].Digest?
        ensures Reopened(all, o, m)
      {
        assert log[m].Digest? && Reopened(log, o, m);
        var n :| o < n < m && IsOpening(log, n);
        assert IsOpening(all, n);
      }
    }
  }

  lemma {:induction false} ActOneDigest(j: Job, log: seq<Event>, a: Action, disk: Disk, zip: Zip)
    requires j.detect && OpenInv(j, log) && AllOneDigest(log)
    ensures AllOneDigest(log + Act(j, a, disk, zip).1)
  {
    hide Act, OneDigest;
    ActDigests(j, a, disk, zip);
    var more := Act(j, a, disk, zip).1;
    var all := log + more;
    forall o | IsOpening(all, o)
      ensures OneDigest(all, o)
    {
      if o < |log| {
        assert IsOpening(log, o) && OneDigest(log, o);
        OldOpening(j, log, more, o);
      } else {
        assert more[o - |log|].Opened? && more[o - |log|] in more;
        NewOpening(log, more);
      }
    }
  }

  lemma {:induction false} NewOpening(log: seq<Event>, more: seq<Event>)
    requires |more| == 2 && more[0].Opened? && more[1].Digest? && more[1].k == more[0].k
    ensures IsOpening(log + more, |log|) && OneDigest(log + more, |log|)
  {
  }

  lemma {:induction false} SentAtOnce(log: seq<Event>, o: int, k: int)
    requires OpeningAt(log, o, |log|, k) && log[o + 1].sent
    ensures SentSince(log, o, |log|, k)
  {
    assert log[o + 1] == Digest(k, true);
  }

  lemma {:induction false} OldOpening(j: Job, log: seq<Event>, more: seq<Event>, o: int)
    requires OpenInv(j, log) && IsOpening(log, o) && OneDigest(log, o)
    requires || (forall e <- more :: !e.Opened? && !e.Digest?)
             || (|more| == 1 && more[0].Digest? && j.file.Some? && !j.waiting)
             || (|more| == 2 && more[0].Opened? && more[1].Digest? && more[1].k == more[0].k)
    ensures OneDigest(log + more, o)
  {
    var all := log + more;
    assert all[o + 1] == log[o + 1];
    forall m | |log| <= m < |all| && all[m].Digest? && log[o + 1].sent
      ensures Reopened(all, o, m)
    {
      assert all[m] == more[m - |log|] && all[m] in more;
      if |more| == 2 && more[0].Opened? {
        assert IsOpening(all, |log|);
      } else if j.file.Some? && !j.waiting {
        var p :| OpenSince(j, log, p);
        assert o <= p;
        if o == p {
          SentAtOnce(log, p, j.fileNum);
        }
        assert IsOpening(all, p);
      }
    }
    DigestsExtend(log, more, o);
  }

  /** In every run with detection on, each opening sends its digest once: a second one is sent only after a failure. */
  lemma {:induction false} EachOpeningSendsOneDigest(j: Job, acts: seq<Action>, disk: Disk, zip: Zip)
    requires j.detect && j.file == None
    ensures var log := Run(j, acts, disk, zip).1;
            forall o :: IsOpening(log, o) ==> OneDigest(log, o)
    decreases |acts|
  {
    hide Act, OneDigest, OpenInv;
    if acts != [] {
      var init := acts[..|acts| - 1];
      RunKeepsInv(j, init, disk, zip);
      EachOpeningSendsOneDigest(j, init, disk, zip);
      var (j1, log) := Run(j, init, disk, zip);
      ActOneDigest(j1, log, acts[|acts| - 1], disk, zip);
    }
  }

  /** The digest itself may be missing: after a failed digest send a confirmation still lets the block out. */
  lemma {:induction false} BlockWithoutDigest(j: Job, disk: Disk, zip: Zip)
    requires Fresh(j) && j.detect && j.InRange() && j.PathOf(j.fileNum) in disk
    ensures var acts := [DoRead(ReadEnv(true, false, true)),
                         DoConfirm(ConfirmRequest(j.fileNum, Skip(false))),
                         DoRead(ReadEnv(true, true, true))];
            var log := Run(j, acts, disk, zip).1;
            && |log| >= 4 && log[3].BlockOut?
            && (forall m :: 0 <= m < |log| && log[m].Digest? ==> !log[m].sent)
  {
    var a0, a1, a2 := DoRead(ReadEnv(true, false, true)),
                      DoConfirm(ConfirmRequest(j.fileNum, Skip(false))),
                      DoRead(ReadEnv(true, true, true));
    var acts := [a0, a1, a2];
    RunSnoc(j, [a0, a1], a2, disk, zip);
    RunSnoc(j, [a0], a1, disk, zip);
    RunSnoc(j, [], a0, disk, zip);
    assert [a0, a1] + [a2] == acts && [a0] + [a1] == [a0, a1] && [] + [a0] == [a0];
    var j1 := Run(j, [a0], disk, zip).0;
    var k := j.fileNum;
    assert Run(j, [a0], disk, zip).1 == [Opened(k), Digest(k, false)];
    assert Run(j, [a0, a1], disk, zip).1 == [Opened(k), Digest(k, false), Confirmed(k, false)];
  }

  lemma {:induction false} RunSnoc(j: Job, acts: seq<Action>, a: Action, disk: Disk, zip: Zip)
    ensures var (j1, log) := Run(j, acts, disk, zip);
            var (j2, more) := Act(j1, a, disk, zip);
            Run(j, acts + [a], disk, zip) == (j2, log + more)
  {
    assert (acts + [a])[..|acts + [a]| - 1] == acts;
  }

  // ----- progress is never undone -----

  /** No step changes what identifies a job. */
  predicate SameJob(j: Job, j': Job) {
    && j'.id == j.id && j'.path == j.path && j'.files == j.files
    && j'.isLastJob == j.isLastJob && j'.detect == j.detect
  }

  lemma {:induction false} ReadMonotone(j: Job, env: ReadEnv, disk: Disk, zip: Zip)
    ensures var j' := ReadStep(j, env, disk, zip).job;
            j.fileNum <= j'.fileNum <= j.fileNum + 1 && SameJob(j, j')
  {
    hide Pack, ReadOpen;
    if j.InRange() {
      if j.file.Some? {
        OpenReadMonotone(j, env, zip);
      } else if env.openOk && j.PathOf(j.fileNum) in disk {
        var reader := Reader(disk[j.PathOf(j.fileNum)], 0);
        OpenReadMonotone(j.(file := Some(reader), confirmed := false, waiting := false), env, zip);
      }
    }
  }

  lemma {:induction false} OpenReadMonotone(j: Job, env: ReadEnv, zip: Zip)
    requires j.InRange() && j.file.Some?
    ensures var j' := ReadOpen(j, env, zip).job;
            j.fileNum <= j'.fileNum <= j.fileNum + 1 && SameJob(j, j')
  {
    hide Pack;
  }

  lemma {:induction false} ActMonotone(j: Job, a: Action, disk: Disk, zip: Zip)
    ensures var j' := Act(j, a, disk, zip).0;
            j.fileNum <= j'.fileNum <= j.fileNum + 1 && SameJob(j, j')
  {
    hide ReadStep;
    match a
    case DoConfirm(_) =>
    case DoRead(env) => ReadMonotone(j, env, disk, zip);
  }

  /** The file number never decreases over a run. */
  lemma {:induction false} FileNumMonotone(j: Job, acts: seq<Action>, disk: Disk, zip: Zip, n: nat)
    requires n <= |acts|
    ensures Run(j, acts[..n], disk, zip).0.fileNum <= Run(j, acts, disk, zip).0.fileNum
    decreases |acts|
  {
    if n == |acts| {
      assert acts[..n] == acts;
    } else {
      var init := acts[..|acts| - 1];
      assert init[..n] == acts[..n];
      FileNumMonotone(j, init, disk, zip, n);
      ActMonotone(Run(j, init, disk, zip).0, acts[|acts| - 1], disk, zip);
    }
  }

  /** The event passes the current file: it was sent whole, failed, or was skipped. */
  predicate Passes(e: Event) {
    e.Closed? || e.OpenFailed? || e.ReadFailed? || e.Skipped?
  }

  function Passings(log: seq<Event>): seq<int> {
    if log == [] then []
    else
      var e := log[|log| - 1];
      Passings(log[..|log| - 1]) + (if Passes(e) then [e.k] else [])
  }

  lemma {:induction false} PassingsAppend(log: seq<Event>, more: seq<Event>)
    ensures Passings(log + more) == Passings(log) + Passings(more)
    decreases |more|
  {
    if more == [] {
      assert log + more == log;
    } else {
      var init := more[..|more| - 1];
      PassingsAppend(log, init);
      assert (log + more)[..|log + more| - 1] == log + init && (log + more)[|log + more| - 1] == more[|more| - 1];
    }
  }

  /** A step passes at most the current file, and then nothing is open; the number moves exactly then. */
  ghost predicate PassesOne(j: Job, j': Job, log: seq<Event>) {
    || (Passings(log) == [] && j'.fileNum == j.fileNum)
    || (Passings(log) == [j.fileNum] && j'.fileNum == j.fileNum + 1 && j'.file == None)
  }

  lemma {:induction false} OpenReadPasses(j: Job, env: ReadEnv, zip: Zip)
    requires j.InRange() && j.file.Some?
    ensures var r := ReadOpen(j, env, zip); PassesOne(j, r.job, r.log)
  {
    hide Pack, Passings;
    var r := ReadOpen(j, env, zip);
    if |r.log| == 2 {
      OneEvent([r.log[0]]);
      OneEvent([r.log[1]]);
      PassingsAppend([r.log[0]], [r.log[1]]);
      assert r.log == [r.log[0]] + [r.log[1]];
    } else {
      OneEvent(r.log);
    }
  }

  lemma {:induction false} ActPasses(j: Job, a: Action, disk: Disk, zip: Zip)
    ensures var (j', log) := Act(j, a, disk, zip); PassesOne(j, j', log)
  {
    hide ReadOpen, Passings;
    match a
    case DoConfirm(request) => OneEvent(ConfirmStep(j, request).1);
    case DoRead(env) =>
      if j.InRange() {
        if j.file.Some? {
          OpenReadPasses(j, env, zip);
        } else if env.openOk && j.PathOf(j.fileNum) in disk {
          var j1 := j.(file := Some(Reader(disk[j.PathOf(j.fileNum)], 0)), confirmed := false, waiting := false);
          OpenReadPasses(j1, env, zip);
          OneEvent([Opened(j.fileNum)]);
          PassingsAppend([Opened(j.fileNum)], ReadOpen(j1, env, zip).log);
          assert [] + Passings(ReadOpen(j1, env, zip).log) == Passings(ReadOpen(j1, env, zip).log);
        } else {
          OneEvent([OpenFailed(j.fileNum)]);
        }
      } else {
        OneEvent([]);
      }
  }

  lemma {:induction false} OneEvent(log: seq<Event>)
    requires |log| <= 1
    ensures Passings(log) == if log != [] && Passes(log[0]) then [log[0].k] else []
  {
    assert log != [] ==> log[..0] == [];
  }

  /**
   The file number counts: in every run it is the first number plus the files that were sent whole, failed or were
   skipped, and these are passed one by one and in order.
   */
  lemma {:induction false} FileNumCounts(s: Job, acts: seq<Action>, disk: Disk, zip: Zip)
    ensures var (j, log) := Run(s, acts, disk, zip);
            && j.fileNum == s.fileNum + |Passings(log)|
            && forall i :: 0 <= i < |Passings(log)| ==> Passings(log)[i] == s.fileNum + i
    decreases |acts|
  {
    hide Act;
    if acts != [] {
      var init, a := acts[..|acts| - 1], acts[|acts| - 1];
      FileNumCounts(s, init, disk, zip);
      var (j, log) := Run(s, init, disk, zip);
      var more := Act(j, a, disk, zip).1;
      ActPasses(j, a, disk, zip);
      PassingsAppend(log, more);
    }
  }

  // ----- dropping finished jobs -----

  /** What `handle_read_jobs` sends for one job. */
  datatype Message = ErrorMsg(id: int, fileNum: int) | BlockMsg(block: Block) | DoneMsg(id: int, fileNum: int)

  datatype Visit = Visit(job: Job, message: Option<Message>, finished: bool)

  function VisitJob(j: Job, env: ReadEnv, disk: Disk, zip: Zip): Visit {
    if j.isLastJob then Visit(j, None, false)
    else
      var r := ReadStep(j, env, disk, zip);
      match r.result
      case Err(_) => Visit(r.job, Some(ErrorMsg(r.job.id, r.job.fileNum)), false)
      case Ok(Some(b)) => Visit(r.job, Some(BlockMsg(b)), false)
      case Ok(None) =>
        if !r.job.Completed() then Visit(r.job, None, false)
        else if r.job.skipped && |r.job.files| == 1
        then Visit(r.job, Some(ErrorMsg(r.job.id, r.job.fileNum)), true)
        else Visit(r.job, Some(DoneMsg(r.job.id, r.job.fileNum)), true)
  }

  /** A visit finishes a job exactly when the job is past its list and waits for nobody. */
  lemma {:induction false} FinishedOnlyAtEnd(j: Job, env: ReadEnv, disk: Disk, zip: Zip)
    ensures VisitJob(j, env, disk, zip).finished <==> !j.isLastJob && !j.InRange() && j.Completed()
  {
  }

  /** Only an open file waits, nothing is open past the list, and there the last event tells the confirmation. */
  ghost predicate FlagsFollow(j: Job, log: seq<Event>) {
    && (j.file == None ==> !j.waiting)
    && (j.file.Some? ==> j.file.value.Reader?)
    && (!j.InRange() ==> j.file == None && (j.confirmed <==> log != [] && log[|log| - 1].Confirmed?))
  }

  lemma {:induction false} ActFollows(j: Job, log: seq<Event>, a: Action, disk: Disk, zip: Zip)
    requires FlagsFollow(j, log)
    ensures var (j', more) := Act(j, a, disk, zip); FlagsFollow(j', log + more)
  {
    hide ReadStep;
    match a
    case DoRead(env) => ReadFollows(j, log, env, disk, zip);
    case DoConfirm(_) => assert log + [] == log;
  }

  lemma {:induction false} ReadFollows(j: Job, log: seq<Event>, env: ReadEnv, disk: Disk, zip: Zip)
    requires FlagsFollow(j, log)
    ensures var r := ReadStep(j, env, disk, zip); FlagsFollow(r.job, log + r.log)
  {
    hide Pack, Ext;
    assert log + [] == log;
  }

  lemma {:induction false} RunFollows(s: Job, acts: seq<Action>, disk: Disk, zip: Zip)
    requires Fresh(s)
    ensures var (j, log) := Run(s, acts, disk, zip); FlagsFollow(j, log) && SameJob(s, j)
    decreases |acts|
  {
    if acts != [] {
      hide Act, FlagsFollow;
      var init, a := acts[..|acts| - 1], acts[|acts| - 1];
      RunFollows(s, init, disk, zip);
      var (j1, log) := Run(s, init, disk, zip);
      ActFollows(j1, log, a, disk, zip);
      ActMonotone(j1, a, disk, zip);
    }
  }

  /**
   After any run of a fresh job, the next visit finishes it if and only if it is past its list and, with detection
   on, the last thing that happened to it was not a confirmation.
   */
  lemma {:induction false} FinishedUnlessConfirmed(s: Job, acts: seq<Action>, env: ReadEnv, disk: Disk, zip: Zip)
    requires Fresh(s)
    ensures var (j, log) := Run(s, acts, disk, zip);
            VisitJob(j, env, disk, zip).finished <==>
            !s.isLastJob && !j.InRange() && (!s.detect || log == [] || !log[|log| - 1].Confirmed?)
  {
    RunFollows(s, acts, disk, zip);
    FinishedOnlyAtEnd(Run(s, acts, disk, zip).0, env, disk, zip);
  }

  /** The last answer that was accepted is a skip. */
  predicate SkippedLast(log: seq<Event>) {
    log != [] && (log[|log| - 1].Skipped? || (!log[|log| - 1].Confirmed? && SkippedLast(log[..|log| - 1])))
  }

  /** The event is a failure, which the job reports. */
  predicate Fails(e: Event) {
    e.OpenFailed? || e.ReadFailed? || (e.Digest? && !e.sent)
  }

  lemma {:induction false} QuietSkips(log: seq<Event>, more: seq<Event>)
    requires forall e <- more :: !e.Skipped? && !e.Confirmed?
    ensures SkippedLast(log + more) == SkippedLast(log)
  {
    if more == [] {
      assert log + more == log;
    } else {
      var init := more[..|more| - 1];
      QuietSkips(log, init);
      assert (log + more)[..|log + more| - 1] == log + init && more[|more| - 1] in more;
    }
  }

  lemma {:induction false} OpenReadTells(j: Job, env: ReadEnv, zip: Zip)
    requires j.InRange() && j.file.Some?
    ensures var r := ReadOpen(j, env, zip);
            && r.job.skipped == j.skipped && (forall e <- r.log :: !e.Skipped? && !e.Confirmed?)
            && (r.result.Err? <==> exists e <- r.log :: Fails(e))
            && (forall b :: r.result == Ok(Some(b)) <==> BlockOut(b) in r.log)
  {
    hide Pack;
    var r := ReadOpen(j, env, zip);
    if r.result.Err? {
      assert Fails(r.log[0]);
    } else if r.result.value.Some? {
      assert r.log[0] in r.log && (|r.log| > 1 ==> r.log[1] in r.log);
    }
  }

  lemma {:induction false} MoreTells(first: Event, log: seq<Event>)
    requires !Fails(first)
    ensures (exists e <- [first] + log :: Fails(e)) <==> exists e <- log :: Fails(e)
  {
    if e :| e in log && Fails(e) {
      assert e in [first] + log;
    }
  }

  lemma {:induction false} ReadTells(j: Job, env: ReadEnv, disk: Disk, zip: Zip)
    ensures var r := ReadStep(j, env, disk, zip);
            && r.job.skipped == j.skipped && (forall e <- r.log :: !e.Skipped? && !e.Confirmed?)
            && (r.result.Err? <==> exists e <- r.log :: Fails(e))
            && (forall b :: r.result == Ok(Some(b)) <==> BlockOut(b) in r.log)
  {
    hide ReadOpen;
    if j.InRange() {
      if j.file.Some? {
        OpenReadTells(j, env, zip);
      } else if env.openOk && j.PathOf(j.fileNum) in disk {
        var j1 := j.(file := Some(Reader(disk[j.PathOf(j.fileNum)], 0)), confirmed := false, waiting := false);
        OpenReadTells(j1, env, zip);
        MoreTells(Opened(j.fileNum), ReadOpen(j1, env, zip).log);
      } else {
        assert Fails([OpenFailed(j.fileNum)][0]);
      }
    }
  }

  lemma {:induction false} OpenReadFails(j: Job, env: ReadEnv, zip: Zip)
    requires j.InRange() && j.file.Some?
    ensures var r := ReadOpen(j, env, zip);
            && (r.result == Err(DigestError) <==> Digest(j.fileNum, false) in r.log)
            && (r.result == Err(IoError) <==> ReadFailed(j.fileNum) in r.log)
            && r.result != Err(OpenError) && OpenFailed(j.fileNum) !in r.log
  {
    hide Pack;
    var r := ReadOpen(j, env, zip);
    assert r.result.Err? ==> r.log[0] in r.log;
  }

  /** A failing read names its failure: the file did not open, its digest did not get out, or it could not be read. */
  lemma {:induction false} ErrorsTell(j: Job, env: ReadEnv, disk: Disk, zip: Zip)
    ensures var r := ReadStep(j, env, disk, zip);
            && (r.result == Err(OpenError) <==> OpenFailed(j.fileNum) in r.log)
            && (r.result == Err(DigestError) <==> Digest(j.fileNum, false) in r.log)
            && (r.result == Err(IoError) <==> ReadFailed(j.fileNum) in r.log)
            && (r.result == Err(OpenError) <==>
                  j.InRange() && j.file == None && !(env.openOk && j.PathOf(j.fileNum) in disk))
  {
    hide ReadOpen;
    if j.InRange() && j.file.Some? {
      OpenReadFails(j, env, zip);
    } else if j.InRange() && env.openOk && j.PathOf(j.fileNum) in disk {
      var reader := Reader(disk[j.PathOf(j.fileNum)], 0);
      OpenReadFails(j.(file := Some(reader), confirmed := false, waiting := false), env, zip);
    }
  }

  lemma {:induction false} SkipsFollow(s: Job, acts: seq<Action>, disk: Disk, zip: Zip)
    requires Fresh(s)
    ensures var (j, log) := Run(s, acts, disk, zip); j.skipped == SkippedLast(log)
    decreases |acts|
  {
    hide ReadStep;
    if acts != [] {
      var init, a := acts[..|acts| - 1], acts[|acts| - 1];
      SkipsFollow(s, init, disk, zip);
      var (j, log) := Run(s, init, disk, zip);
      match a
      case DoRead(env) =>
        ReadTells(j, env, disk, zip);
        QuietSkips(log, ReadStep(j, env, disk, zip).log);
      case DoConfirm(request) =>
        var more := ConfirmStep(j, request).1;
        assert log + [] == log;
        assert more != [] ==> (log + more)[..|log|] == log;
    }
  }

  /**
   What a visit of a job tells its peer, after any run of a fresh job. A block goes out exactly if the read emitted it,
   and an error is reported exactly if something failed or the job is finished as a skipped one: its list has a single
   file and the last accepted answer was a skip. Any other finished job is reported as done.
   */
  lemma {:induction false} VisitTells(s: Job, acts: seq<Action>, env: ReadEnv, disk: Disk, zip: Zip)
    requires Fresh(s) && !s.isLastJob
    ensures var (j, log) := Run(s, acts, disk, zip);
            var (j', news) := Act(j, DoRead(env), disk, zip);
            var v := VisitJob(j, env, disk, zip);
            var skipped := |s.files| == 1 && SkippedLast(log);
            && v.job == j'
            && (forall b :: v.message == Some(BlockMsg(b)) <==> BlockOut(b) in news)
            && (v.message == Some(ErrorMsg(s.id, j'.fileNum)) <==>
                  (exists e <- news :: Fails(e)) || (v.finished && skipped))
            && (v.message == Some(DoneMsg(s.id, j'.fileNum)) <==> v.finished && !skipped)
            && (v.message == None <==>
                  !v.finished && forall e <- news :: !Fails(e) && !e.BlockOut?)
  {
    RunFollows(s, acts, disk, zip);
    SkipsFollow(s, acts, disk, zip);
    var (j, log) := Run(s, acts, disk, zip);
    hide Run, ReadStep, SkippedLast;
    ReadTells(j, env, disk, zip);
    ReadMonotone(j, env, disk, zip);
  }

  lemma {:induction false} PastListStep(j: Job, a: Action, disk: Disk, zip: Zip)
    requires !j.InRange() && j.confirmed && a != DoConfirm(ConfirmRequest(j.fileNum, Skip(true)))
    ensures var j' := Act(j, a, disk, zip).0;
            !j'.InRange() && j'.confirmed && j'.fileNum == j.fileNum && SameJob(j, j')
  {
    hide ReadOpen;
  }

  lemma {:induction false} PastListStays(j: Job, later: seq<Action>, disk: Disk, zip: Zip)
    requires !j.InRange() && j.confirmed
    requires forall a <- later :: a != DoConfirm(ConfirmRequest(j.fileNum, Skip(true)))
    ensures var j' := Run(j, later, disk, zip).0;
            !j'.InRange() && j'.confirmed && j'.fileNum == j.fileNum && SameJob(j, j')
    decreases |later|
  {
    hide Act;
    if later != [] {
      var init, a := later[..|later| - 1], later[|later| - 1];
      assert a in later && forall x <- init :: x in later;
      PastListStays(j, init, disk, zip);
      PastListStep(Run(j, init, disk, zip).0, a, disk, zip);
    }
  }

  lemma {:induction false} RunAppend(j: Job, acts: seq<Action>, later: seq<Action>, disk: Disk, zip: Zip)
    ensures var (j1, log) := Run(j, acts, disk, zip);
            var (j2, more) := Run(j1, later, disk, zip);
            Run(j, acts + later, disk, zip) == (j2, log + more)
    decreases |later|
  {
    hide Act;
    if later == [] {
      assert acts + later == acts && Run(j, acts, disk, zip).1 + [] == Run(j, acts, disk, zip).1;
    } else {
      var init, a := later[..|later| - 1], later[|later| - 1];
      RunAppend(j, acts, init, disk, zip);
      assert acts + later == (acts + init) + [a];
      RunSnoc(j, acts + init, a, disk, zip);
      var (j1, log) := Run(j, acts, disk, zip);
      var (j2, more) := Run(j1, init, disk, zip);
      var news := Act(j2, a, disk, zip).1;
      assert (log + more) + news == log + (more + news);
    }
  }

  /**
   A confirmation that a job accepts past its list keeps it in the queue through everything that follows, except a
   skip for that same number, which lets the next visit finish it.
   */
  lemma {:induction false} LateConfirmKeepsJob(s: Job, acts: seq<Action>, later: seq<Action>, env: ReadEnv, disk: Disk,
                                               zip: Zip)
    requires Fresh(s) && s.detect && !Run(s, acts, disk, zip).0.InRange()
    requires forall a <- later :: a != DoConfirm(ConfirmRequest(Run(s, acts, disk, zip).0.fileNum, Skip(true)))
    ensures var n := Run(s, acts, disk, zip).0.fileNum;
            var all := acts + [DoConfirm(ConfirmRequest(n, Skip(false)))] + later;
            var skip := DoConfirm(ConfirmRequest(n, Skip(true)));
            && !VisitJob(Run(s, all, disk, zip).0, env, disk, zip).finished
            && (n >= |s.files| && !s.isLastJob ==>
                  VisitJob(Run(s, all + [skip], disk, zip).0, env, disk, zip).finished)
  {
    RunFollows(s, acts, disk, zip);
    var j := Run(s, acts, disk, zip).0;
    var yes := DoConfirm(ConfirmRequest(j.fileNum, Skip(false)));
    var skip := DoConfirm(ConfirmRequest(j.fileNum, Skip(true)));
    hide Run;
    RunSnoc(s, acts, yes, disk, zip);
    var j1 := Run(s, acts + [yes], disk, zip).0;
    assert j1 == j.(confirmed := true, skipped := false);
    PastListStays(j1, later, disk, zip);
    RunAppend(s, acts + [yes], later, disk, zip);
    var all := acts + [yes] + later;
    var j2 := Run(s, all, disk, zip).0;
    RunSnoc(s, all, skip, disk, zip);
    FinishedOnlyAtEnd(j2, env, disk, zip);
    FinishedOnlyAtEnd(Run(s, all + [skip], disk, zip).0, env, disk, zip);
  }

  function WithoutIds(jobs: seq<TransferJob>, ids: set<int>): seq<TransferJob> {
    if jobs == [] then []
    else
      var last := jobs[|jobs| - 1];
      WithoutIds(jobs[..|jobs| - 1], ids) + (if last.id in ids then [] else [last])
  }

  lemma {:induction false} WithoutIdsTwice(jobs: seq<TransferJob>, ids: set<int>, id: int)
    ensures WithoutIds(WithoutIds(jobs, ids), {id}) == WithoutIds(jobs, ids + {id})
  {
    if jobs != [] {
      var init, last := jobs[..|jobs| - 1], jobs[|jobs| - 1];
      WithoutIdsTwice(init, ids, id);
      if last.id !in ids {
        assert (WithoutIds(init, ids) + [last])[..|WithoutIds(init, ids)|] == WithoutIds(init, ids);
      } else {
        assert WithoutIds(jobs, ids) == WithoutIds(init, ids);
      }
    }
  }

  lemma {:induction false} WithoutIdsKeeps(jobs: seq<TransferJob>, ids: set<int>)
    ensures forall j :: j in WithoutIds(jobs, ids) <==> j in jobs && j.id !in ids
    ensures ids == {} ==> WithoutIds(jobs, ids) == jobs
  {
    if jobs != [] {
      WithoutIdsKeeps(jobs[..|jobs| - 1], ids);
      assert jobs == jobs[..|jobs| - 1] + [jobs[|jobs| - 1]];
    }
  }

  /** The messages for the jobs visited in these states. */
  function Messages(before: seq<Job>, faced: seq<ReadEnv>, disk: Disk, zip: Zip): seq<Message>
    requires |faced| <= |before|
  {
    if faced == [] then []
    else
      var n := |faced| - 1;
      Messages(before, faced[..n], disk, zip) +
      match VisitJob(before[n], faced[n], disk, zip).message
      case None => []
      case Some(m) => [m]
  }

  lemma {:induction false} NoMessages(before: seq<Job>, disk: Disk, zip: Zip)
    ensures Messages(before, [], disk, zip) == [] && LastLog(before, [], disk, zip) == None
  {
  }

  lemma {:induction false} MessagesSnoc(before: seq<Job>, faced: seq<ReadEnv>, env: ReadEnv, disk: Disk, zip: Zip)
    requires |faced| < |before|
    ensures var last := VisitJob(before[|faced|], env, disk, zip).message;
            && Messages(before, faced + [env], disk, zip) ==
               Messages(before, faced, disk, zip) + (match last case None => [] case Some(m) => [m])
            && Messages(before[|faced|..], (faced + [env])[|faced|..], disk, zip) ==
               (match last case None => [] case Some(m) => [m])
  {
    hide VisitJob;
    assert (faced + [env])[..|faced|] == faced;
    assert (faced + [env])[|faced|..] == [env] && [env][..0] == [];
    assert before[|faced|..][0] == before[|faced|];
  }

  /** What `serialize_transfer_job` is given for a finished job: its state, and whether it is done or in error. */
  datatype JobLog = JobLog(job: Job, done: bool)

  function LogOf(v: Visit): Option<JobLog> {
    if v.finished then Some(JobLog(v.job, v.message.Some? && v.message.value.DoneMsg?)) else None
  }

  /** The log of a round tells of the last job it finished. */
  function LastLog(before: seq<Job>, faced: seq<ReadEnv>, disk: Disk, zip: Zip): Option<JobLog>
    requires |faced| <= |before|
  {
    if faced == [] then None
    else
      var n := |faced| - 1;
      var entry := LogOf(VisitJob(before[n], faced[n], disk, zip));
      if entry.Some? then entry else LastLog(before, faced[..n], disk, zip)
  }

  lemma {:induction false} LogSnoc(before: seq<Job>, faced: seq<ReadEnv>, env: ReadEnv, disk: Disk, zip: Zip)
    requires |faced| < |before|
    ensures var entry := LogOf(VisitJob(before[|faced|], env, disk, zip));
            LastLog(before, faced + [env], disk, zip)
            == if entry.Some? then entry else LastLog(before, faced, disk, zip)
  {
    hide VisitJob, LogOf;
    assert (faced + [env])[..|faced|] == faced;
  }

  /** `ids` are the ids of the jobs whose visits finished them. */
  ghost predicate FinishedIds(jobs: seq<TransferJob>, before: seq<Job>, faced: seq<ReadEnv>, ids: set<int>, disk: Disk,
                              zip: Zip)
    requires |faced| <= |before| == |jobs|
  {
    forall id :: id in ids <==>
                 exists k :: 0 <= k < |faced| && jobs[k].id == id && VisitJob(before[k], faced[k], disk, zip).finished
  }

  lemma {:induction false} NoneFinished(jobs: seq<TransferJob>, before: seq<Job>, disk: Disk, zip: Zip)
    requires |before| == |jobs|
    ensures FinishedIds(jobs, before, [], {}, disk, zip)
  {
  }

  lemma {:induction false} FinishedSnoc(jobs: seq<TransferJob>, before: seq<Job>, faced: seq<ReadEnv>, ids: set<int>,
                                        env: ReadEnv, disk: Disk, zip: Zip)
    requires |faced| < |before| == |jobs| && FinishedIds(jobs, before, faced, ids, disk, zip)
    ensures var n := |faced|;
            FinishedIds(jobs, before, faced + [env],
                        if VisitJob(before[n], env, disk, zip).finished then ids + {jobs[n].id} else ids, disk, zip)
  {
    hide VisitJob;
    var n, all := |faced|, faced + [env];
    var ids' := if VisitJob(before[n], env, disk, zip).finished then ids + {jobs[n].id} else ids;
    forall id
      ensures id in ids' <==>
              exists k :: 0 <= k < |all| && jobs[k].id == id && VisitJob(before[k], all[k], disk, zip).finished
    {
      if id in ids {
        var k :| 0 <= k < n && jobs[k].id == id && VisitJob(before[k], faced[k], disk, zip).finished;
        assert all[k] == faced[k];
      } else if id in ids' {
        assert all[n] == env;
      }
      if k :| 0 <= k < |all| && jobs[k].id == id && VisitJob(before[k], all[k], disk, zip).finished {
        if k < n {
          assert all[k] == faced[k];
        }
      }
    }
  }

  /** What a round has sent, logged and finished once the jobs were visited in these states. */
  ghost predicate Visited(jobs: seq<TransferJob>, before: seq<Job>, faced: seq<ReadEnv>, sent: seq<Message>,
                          log: Option<JobLog>, gone: set<int>, disk: Disk, zip: Zip)
    requires |faced| <= |before| == |jobs|
  {
    && sent == Messages(before, faced, disk, zip) && log == LastLog(before, faced, disk, zip)
    && FinishedIds(jobs, before, faced, gone, disk, zip)
  }

  lemma {:induction false} NoneVisited(jobs: seq<TransferJob>, before: seq<Job>, disk: Disk, zip: Zip)
    requires |before| == |jobs|
    ensures Visited(jobs, before, [], [], None, {}, disk, zip)
  {
    NoMessages(before, disk, zip);
    NoneFinished(jobs, before, disk, zip);
  }

  lemma {:induction false} VisitedSnoc(jobs: seq<TransferJob>, before: seq<Job>, faced: seq<ReadEnv>,
                                       sent: seq<Message>, log: Option<JobLog>, gone: set<int>, env: ReadEnv,
                                       v: Visit, disk: Disk, zip: Zip)
    requires |faced| < |before| == |jobs| && Visited(jobs, before, faced, sent, log, gone, disk, zip)
    requires v == VisitJob(before[|faced|], env, disk, zip)
    ensures var more := match v.message case None => [] case Some(m) => [m];
            && (more == [] ==> sent + more == sent)
            && Visited(jobs, before, faced + [env], sent + more, if v.finished then LogOf(v) else log,
                       if v.finished then gone + {jobs[|faced|].id} else gone, disk, zip)
            && Messages(before, faced + [env], disk, zip) == sent + more
            && Messages(before[|faced|..], (faced + [env])[|faced|..], disk, zip) == more
  {
    hide VisitJob, Messages, LastLog, FinishedIds;
    MessagesSnoc(before, faced, env, disk, zip);
    LogSnoc(before, faced, env, disk, zip);
    FinishedSnoc(jobs, before, faced, gone, env, disk, zip);
  }

  /** The list of sending jobs. */
  class JobQueue {
    var jobs: seq<TransferJob>

    ghost predicate Valid()
      reads this, jobs
    {
      && (forall a, b :: 0 <= a < b < |jobs| ==> jobs[a] != jobs[b])
      && (forall j <- jobs :: j.file.Some? && j.file.value.Reader? ==> j.file.value.pos <= |j.file.value.content|)
    }

    method RemoveJob(id: int)
      modifies this
      ensures jobs == WithoutIds(old(jobs), {id})
    {
      var kept := [];
      for i := 0 to |jobs|
        invariant jobs == old(jobs)
        invariant kept == WithoutIds(jobs[..i], {id})
      {
        assert jobs[..i + 1][..i] == jobs[..i];
        if jobs[i].id != id {
          kept := kept + [jobs[i]];
        }
      }
      assert jobs[..|jobs|] == jobs;
      jobs := kept;
    }

    ghost function States(): (states: seq<Job>)
      reads this, jobs
      ensures |states| == |jobs| && forall k :: 0 <= k < |jobs| ==> states[k] == jobs[k].State()
    {
      seq(|jobs|, k requires 0 <= k < |jobs| reads this, jobs => jobs[k].State())
    }

    /**
     One round over the jobs. `faced` is what the environment did to each read and `sendOk` whether the
     stream takes each message; a refused message ends the round there and keeps the list.
     */
    method HandleReadJobs(openOk: seq<bool>, digestOk: seq<bool>, sendOk: seq<bool>, disk: FileSystem, zip: Zip)
      returns (sent: seq<Message>, log: Option<JobLog>, ok: bool, ghost faced: seq<ReadEnv>, ghost gone: set<int>)
      requires Valid()
      requires |openOk| == |digestOk| == |sendOk| == |jobs|
      modifies this, jobs
      ensures |faced| <= |old(jobs)| && (ok ==> |faced| == |old(jobs)|)
      ensures forall k :: 0 <= k < |faced| ==>
                old(jobs)[k].State() == VisitJob(old(States())[k], faced[k], disk.files, zip).job
      ensures forall k :: |faced| <= k < |old(jobs)| ==> old(jobs)[k].State() == old(States())[k]
      ensures ok ==> Visited(old(jobs), old(States()), faced, sent, log, gone, disk.files, zip)
      ensures !ok ==> faced != [] && Messages(old(States()), faced, disk.files, zip) ==
                      sent + Messages(old(States())[|faced| - 1..], faced[|faced| - 1..], disk.files, zip)
      ensures jobs == if ok then WithoutIds(old(jobs), gone) else old(jobs)
    {
      hide VisitJob, LogOf, WithoutIds, Messages, LastLog, TransferJob.State, FinishedIds, Visited;
      sent, log, faced, ok, gone := [], None, [], true, {};
      var all := jobs;
      ghost var before, now := States(), States();
      var finished: seq<int> := [];
      var i := 0;
      NoneVisited(all, before, disk.files, zip);
      while i < |all|
        invariant 0 <= i <= |all| && jobs == all && Valid() && States() == now && |now| == |all|
        invariant |faced| == i && ok
        invariant forall k :: 0 <= k < i ==> now[k] == VisitJob(before[k], faced[k], disk.files, zip).job
        invariant forall k :: i <= k < |all| ==> now[k] == before[k]
        invariant gone == set id | id in finished
        invariant Visited(all, before, faced, sent, log, gone, disk.files, zip)
      {
        var message, done, entry, env := VisitAt(i, openOk[i], digestOk[i], disk, zip);
        ghost var v := VisitJob(now[i], env, disk.files, zip);
        VisitedSnoc(all, before, faced, sent, log, gone, env, v, disk.files, zip);
        faced, now := faced + [env], now[i := v.job];
        if done {
          log := entry;
          finished := finished + [all[i].id];
          gone := gone + {all[i].id};
        }
        if message.Some? {
          if !sendOk[i] {
            return sent, log, false, faced, gone;
          }
          sent := sent + [message.value];
        }
        i := i + 1;
      }
      RemoveAll(finished);
    }

    /** The visit of one job leaves the others alone. */
    method VisitAt(i: nat, openOk: bool, digestOk: bool, disk: FileSystem, zip: Zip)
      returns (message: Option<Message>, done: bool, entry: Option<JobLog>, ghost env: ReadEnv)
      requires Valid() && i < |jobs|
      modifies jobs[i]
      ensures jobs == old(jobs) && Valid()
      ensures var v := VisitJob(old(States())[i], env, disk.files, zip);
              && message == v.message && done == v.finished && entry == LogOf(v)
              && States() == old(States())[i := v.job]
    {
      hide VisitJob, LogOf, TransferJob.State;
      message, done, entry, env := VisitOne(jobs[i], openOk, digestOk, disk, zip);
    }

    method VisitOne(job: TransferJob, openOk: bool, digestOk: bool, disk: FileSystem, zip: Zip)
      returns (message: Option<Message>, done: bool, entry: Option<JobLog>, ghost env: ReadEnv)
      requires job.file.Some? && job.file.value.Reader? ==> job.file.value.pos <= |job.file.value.content|
      modifies job
      ensures VisitJob(old(job.State()), env, disk.files, zip) == Visit(job.State(), message, done)
      ensures entry == LogOf(Visit(job.State(), message, done)) && (entry.Some? <==> done)
      ensures job.file.Some? && job.file.value.Reader? ==> job.file.value.pos <= |job.file.value.content|
    {
      message, done, entry, env := None, false, None, ReadEnv(openOk, digestOk, true);
      if !job.isLastJob {
        hide ReadStep;
        var result, _ := job.Read(openOk, digestOk, disk, zip);
        env := ReadEnv(openOk, digestOk, result != Err(IoError));
        match result {
          case Err(_) => message := Some(ErrorMsg(job.id, job.fileNum));
          case Ok(Some(block)) => message := Some(BlockMsg(block));
          case Ok(None) =>
            if job.JobCompleted() {
              done := true;
              entry := Some(JobLog(job.State(), !job.JobSkipped()));
              message := Some(if job.JobSkipped() then ErrorMsg(job.id, job.fileNum) else DoneMsg(job.id, job.fileNum));
            }
        }
      }
    }

    method RemoveAll(finished: seq<int>)
      modifies this
      ensures jobs == WithoutIds(old(jobs), set id | id in finished)
    {
      ghost var ids: set<int> := {};
      ghost var all := jobs;
      WithoutIdsKeeps(jobs, {});
      for n := 0 to |finished|
        invariant jobs == WithoutIds(all, ids)
        invariant ids == set id | id in finished[..n]
      {
        RemoveJob(finished[n]);
        WithoutIdsTwice(all, ids, finished[n]);
        assert finished[..n + 1] == finished[..n] + [finished[n]];
        ids := ids + {finished[n]};
      }
      assert finished[..|finished|] == finished;
    }
  }

  /** With distinct ids, a round drops a job exactly when it was past its list with nobody to wait for. */
  lemma {:induction false} DropsOnlyFinished(jobs: seq<TransferJob>, before: seq<Job>, faced: seq<ReadEnv>,
                                             ids: set<int>, disk: Disk, zip: Zip, k: nat)
    requires k < |jobs| == |before| == |faced|
    requires forall a, b :: 0 <= a < b < |jobs| ==> jobs[a].id != jobs[b].id
    requires FinishedIds(jobs, before, faced, ids, disk, zip)
    ensures jobs[k] !in WithoutIds(jobs, ids)
            <==> !before[k].isLastJob && !before[k].InRange() && before[k].Completed()
  {
    WithoutIdsKeeps(jobs, ids);
    FinishedOnlyAtEnd(before[k], faced[k], disk, zip);
    if VisitJob(before[k], faced[k], disk, zip).finished {
      assert jobs[k].id in ids;
    }
  }
}
