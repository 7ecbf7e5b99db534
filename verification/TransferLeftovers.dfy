/**
 What a delivery with failures does to the rest of the receiver's disk: nothing, except that downloads left over from
 earlier transfers can be picked up and installed (libs/hbb_common/src/fs.rs).
 */
module TransferLeftovers {
  import opened Basics
  import opened Transfer
  import opened TransferHandshake
  import opened TransferDelivery
  import opened TransferFaults

  /** The numbers at which the receiver turned to another file, or to the same one again. */
  function Passed(start: int, blocks: seq<Block>, lucks: seq<Luck>, zip: Zip): set<int>
    requires |lucks| == |blocks|
    decreases |blocks|
  {
    if blocks == [] then {}
    else
      var n := |blocks| - 1;
      var c := Follow(start, blocks[..n], lucks[..n], zip);
      Passed(start, blocks[..n], lucks[..n], zip) + if Switches(c, blocks[n]) then {c.cur} else {}
  }

  /** A name that is neither the final nor the download path of any file of the job. */
  ghost predicate Foreign(j: Job, name: string) {
    forall k :: 0 <= k < |j.files| ==> name != j.PathOf(k) && name != j.DownloadOf(k)
  }

  /** The leftover download of file k is installed. */
  ghost predicate Picked(j: Job, before: Disk, disk: Disk, k: int)
    requires 0 <= k < |j.files|
  {
    && j.DownloadOf(k) in before && j.DownloadOf(k) !in disk
    && j.PathOf(k) in disk && disk[j.PathOf(k)] == before[j.DownloadOf(k)]
  }

  /** Neither the file nor its download has changed. */
  ghost predicate Untouched(j: Job, before: Disk, disk: Disk, k: int)
    requires 0 <= k < |j.files|
  {
    SameAt(before, disk, j.PathOf(k)) && SameAt(before, disk, j.DownloadOf(k))
  }

  /** A file that was never created: its leftover is picked up exactly if the receiver has passed it. */
  ghost predicate Rests(j: Job, before: Disk, disk: Disk, passed: set<int>, k: int)
    requires 0 <= k < |j.files|
  {
    if k in passed && j.DownloadOf(k) in before then Picked(j, before, disk, k) else Untouched(j, before, disk, k)
  }

  /** Everything on the disk besides the contents of the created files. */
  ghost predicate Elsewhere(j0: Job, before: Disk, disk: Disk, c: Course, passed: set<int>) {
    && (forall name :: Foreign(j0, name) ==> SameAt(before, disk, name))
    && (forall k :: 0 <= k < |j0.files| && k !in c.files ==> Rests(j0, before, disk, passed, k))
    && (forall k :: 0 <= k < |j0.files| && k in c.files && (c.holder != Some(k) || c.renamed) ==>
          j0.DownloadOf(k) !in disk)
  }

  lemma {:induction false} PathsDiffer(j: Job, a: int, b: int)
    requires PathsApart(j) && 0 <= a < |j.files| && 0 <= b < |j.files|
    ensures j.PathOf(a) != j.DownloadOf(b)
    ensures a != b ==> j.PathOf(a) != j.PathOf(b) && j.DownloadOf(a) != j.DownloadOf(b)
  {
    if a != b {
      DownloadsApart(j, a, b);
    }
  }

  /** Writing to the names of one file leaves the others and the foreign names alone. */
  ghost predicate OnlyFile(j: Job, disk: Disk, disk': Disk, k: int)
    requires 0 <= k < |j.files|
  {
    forall name :: name != j.PathOf(k) && name != j.DownloadOf(k) ==> SameAt(disk, disk', name)
  }

  lemma {:induction false} OthersRest(j: Job, before: Disk, disk: Disk, disk': Disk, k: int, m: int, passed: set<int>,
                                      passed': set<int>)
    requires PathsApart(j) && 0 <= k < |j.files| && 0 <= m < |j.files| && m != k && OnlyFile(j, disk, disk', k)
    requires m in passed <==> m in passed'
    ensures Rests(j, before, disk, passed, m) ==> Rests(j, before, disk', passed', m)
    ensures j.DownloadOf(m) !in disk ==> j.DownloadOf(m) !in disk'
  {
    hide Join, PathsApart;
    PathsDiffer(j, m, k);
    PathsDiffer(j, k, m);
    assert SameAt(disk, disk', j.PathOf(m)) && SameAt(disk, disk', j.DownloadOf(m));
  }

  /** One file changes, and that file is all right: then everything else still is. */
  lemma {:induction false} ChangeOneFile(j0: Job, before: Disk, disk: Disk, disk': Disk, c: Course, c': Course, k: int,
                                         passed: set<int>, passed': set<int>)
    requires PathsApart(j0) && Elsewhere(j0, before, disk, c, passed)
    requires 0 <= k < |j0.files| && OnlyFile(j0, disk, disk', k)
    requires forall m :: m != k ==> (m in c.files <==> m in c'.files) && (m in passed <==> m in passed')
    requires forall m :: m != k && m in c.files && (c'.holder != Some(m) || c'.renamed) ==>
               c.holder != Some(m) || c.renamed
    requires k !in c'.files ==> Rests(j0, before, disk', passed', k)
    requires k in c'.files && (c'.holder != Some(k) || c'.renamed) ==> j0.DownloadOf(k) !in disk'
    ensures Elsewhere(j0, before, disk', c', passed')
  {
    hide Join, PathsApart, Rests, OnlyFile;
    forall m | 0 <= m < |j0.files| && m != k
      ensures m !in c'.files ==> Rests(j0, before, disk', passed', m)
      ensures m in c'.files && (c'.holder != Some(m) || c'.renamed) ==> j0.DownloadOf(m) !in disk'
    {
      OthersRest(j0, before, disk, disk', k, m, passed, passed');
    }
    forall name | Foreign(j0, name)
      ensures SameAt(before, disk', name)
    {
      ForeignKept(j0, disk, disk', k, name);
    }
  }

  lemma {:induction false} ForeignKept(j: Job, disk: Disk, disk': Disk, k: int, name: string)
    requires 0 <= k < |j.files| && OnlyFile(j, disk, disk', k) && Foreign(j, name)
    ensures SameAt(disk, disk', name)
  {
  }

  /** `modify_time` passes the current number. */
  lemma {:induction false} ModifyElsewhere(j0: Job, before: Disk, j: Job, disk: Disk, c: Course, passed: set<int>)
    requires PathsApart(j0) && Located(j0, j, disk, c) && Elsewhere(j0, before, disk, c, passed)
    ensures Elsewhere(j0, before, ModifyTimeStep(j, disk).1, c.(renamed := true), passed + {c.cur})
  {
    hide Join, PathsApart, Elsewhere, OnDisk;
    var k := c.cur;
    var c', passed' := c.(renamed := true), passed + {k};
    var disk' := ModifyTimeStep(j, disk).1;
    if j.InRange() {
      var dl, p := j0.DownloadOf(k), j0.PathOf(k);
      assert dl == j.DownloadOf(j.fileNum) && p == j.PathOf(j.fileNum);
      assert OnlyFile(j0, disk, disk', k);
      PathsDiffer(j0, k, k);
      PassedOne(j0, before, disk, disk', c, k, passed);
      assert k in c.files ==> c.holder == Some(k);
      ChangeOneFile(j0, before, disk, disk', c, c', k, passed, passed');
    } else {
      OutOfRange(j0, before, disk, c, passed);
    }
  }

  lemma {:induction false} PassedOne(j0: Job, before: Disk, disk: Disk, disk': Disk, c: Course, k: int,
                                     passed: set<int>)
    requires 0 <= k < |j0.files| && j0.PathOf(k) != j0.DownloadOf(k)
    requires Elsewhere(j0, before, disk, c, passed)
    requires var dl, p := j0.DownloadOf(k), j0.PathOf(k);
             disk' == if dl in disk then (disk - {dl})[p := disk[dl]] else disk
    ensures j0.DownloadOf(k) !in disk'
    ensures k !in c.files ==> Rests(j0, before, disk', passed + {k}, k)
  {
    hide Join;
    if k !in c.files {
      assert Rests(j0, before, disk, passed, k);
    }
  }

  lemma {:induction false} OutOfRange(j0: Job, before: Disk, disk: Disk, c: Course, passed: set<int>)
    requires Elsewhere(j0, before, disk, c, passed) && !(0 <= c.cur < |j0.files|)
    requires c.holder.Some? && !c.renamed ==> c.holder.value == c.cur
    ensures Elsewhere(j0, before, disk, c.(renamed := true), passed + {c.cur})
  {
    hide Join;
    assert forall k :: 0 <= k < |j0.files| ==> (k in passed <==> k in passed + {c.cur});
    assert forall k :: 0 <= k < |j0.files| && Rests(j0, before, disk, passed, k) ==>
                       Rests(j0, before, disk, passed + {c.cur}, k);
  }

  lemma {:induction false} StepElsewhere(j0: Job, before: Disk, j: Job, disk: Disk, c: Course, b: Block, luck: Luck,
                                         passed: set<int>, zip: Zip)
    requires PathsApart(j0) && Located(j0, j, disk, c) && Elsewhere(j0, before, disk, c, passed) && Due(c, b)
    requires b.id == j0.id && 0 <= b.fileNum < |j0.files|
    ensures Elsewhere(j0, before, WriteStep(j, disk, b, luck, zip).1, CourseStep(c, b, luck, zip),
                      passed + if Switches(c, b) then {c.cur} else {})
  {
    hide PathsApart, Elsewhere, Located, WriteStep, ModifyTimeStep, Reaching, Plain, CutsShort, Due;
    if !Switches(c, b) {
      AppendLocated(j0, j, disk, c, b, luck, zip);
      AppendElsewhere(j0, before, j, disk, c, b, luck, passed, zip);
      assert passed + {} == passed;
    } else if Refuses(c, luck) {
      ModifyElsewhere(j0, before, j, disk, c, passed);
      RefusalLocated(j0, j, disk, c, b, luck, zip);
      var c1 := c.(renamed := true);
      SameFiles(j0, before, ModifyTimeStep(j, disk).1, c1, Course(b.fileNum, c.holder, true, c.files),
                passed + {c.cur});
    } else {
      ModifyElsewhere(j0, before, j, disk, c, passed);
      CreationLocated(j0, j, disk, c, b, luck, zip);
      CreationElsewhere(j0, before, ModifyTimeStep(j, disk).1, c.(renamed := true), b.fileNum,
                        Reaching(b, luck, zip), passed + {c.cur});
    }
  }

  lemma {:induction false} SameFiles(j0: Job, before: Disk, disk: Disk, c: Course, c': Course, passed: set<int>)
    requires Elsewhere(j0, before, disk, c, passed)
    requires c'.files == c.files && c'.holder == c.holder && c'.renamed == c.renamed
    ensures Elsewhere(j0, before, disk, c', passed)
  {
    hide Rests, Join;
  }

  lemma {:induction false} CreationElsewhere(j0: Job, before: Disk, disk: Disk, c: Course, k: int, bytes: seq<byte>,
                                             passed: set<int>)
    requires PathsApart(j0) && Elsewhere(j0, before, disk, c, passed) && c.renamed && 0 <= k < |j0.files|
    ensures Elsewhere(j0, before, disk[j0.DownloadOf(k) := bytes], Course(k, Some(k), false, c.files[k := bytes]),
                      passed)
  {
    hide Join, PathsApart, Elsewhere;
    var disk' := disk[j0.DownloadOf(k) := bytes];
    assert OnlyFile(j0, disk, disk', k);
    ChangeOneFile(j0, before, disk, disk', c, Course(k, Some(k), false, c.files[k := bytes]), k, passed, passed);
  }

  lemma {:induction false} AppendElsewhere(j0: Job, before: Disk, j: Job, disk: Disk, c: Course, b: Block, luck: Luck,
                                           passed: set<int>, zip: Zip)
    requires PathsApart(j0) && Located(j0, j, disk, c) && Elsewhere(j0, before, disk, c, passed) && !Switches(c, b)
    requires b.id == j0.id && 0 <= b.fileNum < |j0.files|
    ensures Elsewhere(j0, before, WriteStep(j, disk, b, luck, zip).1, CourseStep(c, b, luck, zip), passed)
  {
    hide Join, PathsApart, Located, WriteStep, Reaching, Plain, CutsShort;
    AppendLocated(j0, j, disk, c, b, luck, zip);
    var k := c.holder.value;
    var disk' := WriteStep(j, disk, b, luck, zip).1;
    assert OnlyFile(j0, disk, disk', k);
    PathsDiffer(j0, k, k);
    ChangeOneFile(j0, before, disk, disk', c, CourseStep(c, b, luck, zip), k, passed, passed);
  }

  lemma {:induction false} DeliveryElsewhere(j: Job, disk: Disk, blocks: seq<Block>, lucks: seq<Luck>, zip: Zip)
    requires PathsApart(j) && j.file == None && ForJob(j, blocks) && Ordered(blocks) && |lucks| == |blocks|
    ensures Elsewhere(j, disk, DeliverWith(j, disk, blocks, lucks, zip).1, Follow(j.fileNum, blocks, lucks, zip),
                      Passed(j.fileNum, blocks, lucks, zip))
    decreases |blocks|
  {
    hide PathsApart, Elsewhere, Located, WriteStep, CourseStep, Due;
    if blocks == [] {
      NothingElsewhere(j, disk);
    } else {
      var n := |blocks| - 1;
      DeliveryElsewhere(j, disk, blocks[..n], lucks[..n], zip);
      DeliveryFollows(j, disk, blocks[..n], lucks[..n], zip);
      CourseRanged(j, blocks, lucks, zip, n);
      var (j1, disk1) := DeliverWith(j, disk, blocks[..n], lucks[..n], zip);
      StepElsewhere(j, disk, j1, disk1, Follow(j.fileNum, blocks[..n], lucks[..n], zip), blocks[n], lucks[n],
                    Passed(j.fileNum, blocks[..n], lucks[..n], zip), zip);
    }
  }

  lemma {:induction false} NothingElsewhere(j: Job, disk: Disk)
    ensures Elsewhere(j, disk, disk, Course(j.fileNum, None, false, map[]), {})
  {
    hide Join;
  }

  // ----- which numbers are passed -----

  /** The number a block was refused for because its file could not be created. */
  ghost predicate AnsweredCreateError(j: Job, disk: Disk, blocks: seq<Block>, lucks: seq<Luck>, zip: Zip, k: int)
    requires |lucks| == |blocks|
  {
    exists i: nat :: i < |blocks| && blocks[i].fileNum == k
                     && ResultAt(j, disk, blocks, lucks, zip, i) == Err(CreateError)
  }

  predicate FailedFor(start: int, blocks: seq<Block>, lucks: seq<Luck>, zip: Zip, n: nat, k: int)
    requires |lucks| == |blocks| && n <= |blocks|
  {
    exists i: nat :: i < n && blocks[i].fileNum == k
                     && FailsToCreate(Follow(start, blocks[..i], lucks[..i], zip), blocks[i], lucks[i])
  }

  lemma {:induction false} FailedSnoc(start: int, blocks: seq<Block>, lucks: seq<Luck>, zip: Zip, n: nat, k: int)
    requires |lucks| == |blocks| && n < |blocks|
    ensures FailedFor(start, blocks, lucks, zip, n + 1, k) <==>
            || FailedFor(start, blocks, lucks, zip, n, k)
            || (blocks[n].fileNum == k &&
                FailsToCreate(Follow(start, blocks[..n], lucks[..n], zip), blocks[n], lucks[n]))
  {
    hide Follow, FailsToCreate;
  }

  /** A file that was not created has been passed, or is the current one, exactly if it was the first or failed. */
  lemma {:induction false} PassedIff(start: int, blocks: seq<Block>, lucks: seq<Luck>, zip: Zip, n: nat, k: int)
    requires |lucks| == |blocks| && n <= |blocks| && k !in Follow(start, blocks[..n], lucks[..n], zip).files
    ensures k in Passed(start, blocks[..n], lucks[..n], zip) + {Follow(start, blocks[..n], lucks[..n], zip).cur} <==>
            k == start || FailedFor(start, blocks, lucks, zip, n, k)
    decreases n
  {
    hide Follow, Passed, Reaching, FailedFor;
    if n == 0 {
      NothingPassed(start, blocks, lucks, zip, k);
    } else {
      FollowStep(start, blocks, lucks, zip, n - 1);
      PassedStep(start, blocks, lucks, zip, n - 1);
      PassedIff(start, blocks, lucks, zip, n - 1, k);
      FailedSnoc(start, blocks, lucks, zip, n - 1, k);
    }
  }

  lemma {:induction false} NothingPassed(start: int, blocks: seq<Block>, lucks: seq<Luck>, zip: Zip, k: int)
    requires |lucks| == |blocks|
    ensures Passed(start, blocks[..0], lucks[..0], zip) == {}
    ensures Follow(start, blocks[..0], lucks[..0], zip).cur == start
    ensures !FailedFor(start, blocks, lucks, zip, 0, k)
  {
  }

  lemma {:induction false} PassedStep(start: int, blocks: seq<Block>, lucks: seq<Luck>, zip: Zip, n: nat)
    requires |lucks| == |blocks| && n < |blocks|
    ensures var c := Follow(start, blocks[..n], lucks[..n], zip);
            Passed(start, blocks[..n + 1], lucks[..n + 1], zip) ==
            Passed(start, blocks[..n], lucks[..n], zip) + if Switches(c, blocks[n]) then {c.cur} else {}
  {
    hide Follow;
    assert blocks[..n + 1][..n] == blocks[..n] && lucks[..n + 1][..n] == lucks[..n];
  }

  // ----- the whole disk -----

  /** The leftover download of file k is picked up: the receiver was at k without creating it. */
  ghost predicate PicksUp(j: Job, disk: Disk, blocks: seq<Block>, lucks: seq<Luck>, zip: Zip, k: int)
    requires |lucks| == |blocks| && 0 <= k < |j.files|
  {
    && j.DownloadOf(k) in disk
    && (k == j.fileNum || AnsweredCreateError(j, disk, blocks, lucks, zip, k))
  }

  lemma {:induction false} AnswersTell(j: Job, disk: Disk, blocks: seq<Block>, lucks: seq<Luck>, zip: Zip, k: int)
    requires PathsApart(j) && j.file == None && ForJob(j, blocks) && Ordered(blocks) && |lucks| == |blocks|
    ensures AnsweredCreateError(j, disk, blocks, lucks, zip, k) <==>
            FailedFor(j.fileNum, blocks, lucks, zip, |blocks|, k)
  {
    hide PathsApart, Follow, FailsToCreate, ResultAt, OpenAt;
    forall i: nat | i < |blocks|
      ensures ResultAt(j, disk, blocks, lucks, zip, i) == Err(CreateError) <==>
              FailsToCreate(Follow(j.fileNum, blocks[..i], lucks[..i], zip), blocks[i], lucks[i])
    {
      Observed(j, disk, blocks, lucks, zip, i);
    }
  }

  /**
   The whole disk after any delivery. Names foreign to the job are as before. A created file is under its final name
   with the content of the course and has no download left. Any other file has its leftover download installed if it
   was the job's first or was answered with CreateError, and is as before if there is no such leftover.
   */
  lemma {:induction false} WholeDisk(j: Job, disk: Disk, blocks: seq<Block>, lucks: seq<Luck>, zip: Zip)
    requires PathsApart(j) && j.file == None && ForJob(j, blocks) && Ordered(blocks) && |lucks| == |blocks|
    ensures var (j1, disk1) := DeliverWith(j, disk, blocks, lucks, zip);
            var final := ModifyTimeStep(j1, disk1).1;
            var created := Follow(j.fileNum, blocks, lucks, zip).files;
            && (forall name :: Foreign(j, name) ==> SameAt(disk, final, name))
            && (forall k :: k in created ==>
                  && 0 <= k < |j.files| && j.DownloadOf(k) !in final
                  && j.PathOf(k) in final && final[j.PathOf(k)] == created[k])
            && (forall k :: 0 <= k < |j.files| && k !in created ==>
                  if PicksUp(j, disk, blocks, lucks, zip, k) then Picked(j, disk, final, k)
                  else Untouched(j, disk, final, k))
  {
    hide PathsApart, Located, DeliverWith, Follow, Passed, ModifyTimeStep, Join, Picked, Untouched, Foreign, FailedFor,
         AnsweredCreateError;
    var n := |blocks|;
    assert blocks[..n] == blocks && lucks[..n] == lucks;
    DeliveryElsewhere(j, disk, blocks, lucks, zip);
    DeliveryFollows(j, disk, blocks, lucks, zip);
    FaultyDelivery(j, disk, blocks, lucks, zip);
    var (j1, disk1) := DeliverWith(j, disk, blocks, lucks, zip);
    var c, passed := Follow(j.fileNum, blocks, lucks, zip), Passed(j.fileNum, blocks, lucks, zip);
    ModifyElsewhere(j, disk, j1, disk1, c, passed);
    var final := ModifyTimeStep(j1, disk1).1;
    forall k | 0 <= k < |j.files| && k !in c.files
      ensures k in passed + {c.cur} <==> k == j.fileNum || AnsweredCreateError(j, disk, blocks, lucks, zip, k)
      ensures Rests(j, disk, final, passed + {c.cur}, k)
    {
      PassedIff(j.fileNum, blocks, lucks, zip, n, k);
      AnswersTell(j, disk, blocks, lucks, zip, k);
    }
  }

  /**
   Everything but the created files is left alone if and only if there is no leftover download of the job's first
   number or of one answered with CreateError, other than those of files that were created.
   */
  lemma {:induction false} RestUntouchedIff(j: Job, disk: Disk, blocks: seq<Block>, lucks: seq<Luck>, zip: Zip)
    requires PathsApart(j) && j.file == None && ForJob(j, blocks) && Ordered(blocks) && |lucks| == |blocks|
    ensures var (j1, disk1) := DeliverWith(j, disk, blocks, lucks, zip);
            var final := ModifyTimeStep(j1, disk1).1;
            var created := Follow(j.fileNum, blocks, lucks, zip).files;
            (forall k :: 0 <= k < |j.files| && k !in created ==> Untouched(j, disk, final, k)) <==>
            (forall k :: 0 <= k < |j.files| && k !in created ==> !PicksUp(j, disk, blocks, lucks, zip, k))
  {
    hide PathsApart, DeliverWith, Follow, ModifyTimeStep, Join, PicksUp, Foreign, Picked, Untouched;
    WholeDisk(j, disk, blocks, lucks, zip);
    var (j1, disk1) := DeliverWith(j, disk, blocks, lucks, zip);
    var final := ModifyTimeStep(j1, disk1).1;
    forall k | 0 <= k < |j.files| && Picked(j, disk, final, k)
      ensures !Untouched(j, disk, final, k)
    {
      PickedIsTouched(j, disk, final, k);
    }
  }

  lemma {:induction false} PickedIsTouched(j: Job, before: Disk, disk: Disk, k: int)
    requires 0 <= k < |j.files| && Picked(j, before, disk, k)
    ensures !Untouched(j, before, disk, k)
  {
  }
}
