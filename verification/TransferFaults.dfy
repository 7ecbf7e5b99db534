/**
 What a receiver's disk holds when its file system fails now and then: synchronising, creating and writing files
 may fail at any block, and the receiver goes on with the next one (libs/hbb_common/src/fs.rs).
 */
module TransferFaults {
  import opened Basics
  import opened Transfer
  import opened TransferHandshake
  import opened TransferDelivery

  /** Delivers blocks in order; each meets its own luck, and an error does not end the delivery. */
  function DeliverWith(j: Job, disk: Disk, blocks: seq<Block>, lucks: seq<Luck>, zip: Zip): (Job, Disk)
    requires |lucks| == |blocks|
    decreases |blocks|
  {
    if blocks == [] then (j, disk)
    else
      var n := |blocks| - 1;
      var (j1, disk1) := DeliverWith(j, disk, blocks[..n], lucks[..n], zip);
      var (j2, disk2, _) := WriteStep(j1, disk1, blocks[n], lucks[n], zip);
      (j2, disk2)
  }

  /** What the i-th write reports. */
  function ResultAt(j: Job, disk: Disk, blocks: seq<Block>, lucks: seq<Luck>, zip: Zip, i: nat): Result<(), WriteError>
    requires |lucks| == |blocks| && i < |blocks|
  {
    var (j1, disk1) := DeliverWith(j, disk, blocks[..i], lucks[..i], zip);
    WriteStep(j1, disk1, blocks[i], lucks[i], zip).2
  }

  /** Whether a file is open when the i-th block arrives. */
  predicate OpenAt(j: Job, disk: Disk, blocks: seq<Block>, lucks: seq<Luck>, zip: Zip, i: nat)
    requires |lucks| == |blocks| && i < |blocks|
  {
    DeliverWith(j, disk, blocks[..i], lucks[..i], zip).0.file.Some?
  }

  /** With a file system that never fails this is the ordinary delivery. */
  lemma {:induction false} DeliverWithoutFaults(j: Job, disk: Disk, blocks: seq<Block>, lucks: seq<Luck>, zip: Zip)
    requires |lucks| == |blocks| && forall l <- lucks :: l == Fine
    ensures DeliverWith(j, disk, blocks, lucks, zip) == Deliver(j, disk, blocks, zip)
    decreases |blocks|
  {
    hide WriteStep;
    if blocks != [] {
      var n := |blocks| - 1;
      assert lucks[n] in lucks && forall l <- lucks[..n] :: l in lucks;
      DeliverWithoutFaults(j, disk, blocks[..n], lucks[..n], zip);
    }
  }

  // ----- the course of a delivery -----

  /**
   The file number the receiver is at, the file its handle belongs to, whether that has its final name by now,
   and the contents of the files created so far.
   */
  datatype Course = Course(cur: int, holder: Option<int>, renamed: bool, files: map<int, seq<byte>>)

  /** A block is refused, or these bytes of it reach file k. */
  datatype Fate = Refused | Into(k: int, bytes: seq<byte>)

  predicate Switches(c: Course, b: Block) {
    b.fileNum != c.cur || c.holder == None
  }

  function FateOf(c: Course, b: Block, luck: Luck, zip: Zip): Fate {
    if !Switches(c, b) then Into(c.holder.value, Reaching(b, luck, zip))
    else if (c.holder.Some? && luck.SyncFails?) || luck.CreateFails? then Refused
    else Into(b.fileNum, Reaching(b, luck, zip))
  }

  function Content(c: Course, k: int): seq<byte> {
    if k in c.files then c.files[k] else []
  }

  function CourseStep(c: Course, b: Block, luck: Luck, zip: Zip): Course {
    var fate := FateOf(c, b, luck, zip);
    if !Switches(c, b) then
      c.(files := c.files[fate.k := Content(c, fate.k) + fate.bytes])
    else if c.holder.Some? && luck.SyncFails? then c.(renamed := true)
    else if luck.CreateFails? then Course(b.fileNum, c.holder, true, c.files)
    else Course(b.fileNum, Some(b.fileNum), false, c.files[b.fileNum := fate.bytes])
  }

  function Follow(start: int, blocks: seq<Block>, lucks: seq<Luck>, zip: Zip): Course
    requires |lucks| == |blocks|
    decreases |blocks|
  {
    if blocks == [] then Course(start, None, false, map[])
    else
      var n := |blocks| - 1;
      CourseStep(Follow(start, blocks[..n], lucks[..n], zip), blocks[n], lucks[n], zip)
  }

  function FateAt(start: int, blocks: seq<Block>, lucks: seq<Luck>, zip: Zip, i: nat): Fate
    requires |lucks| == |blocks| && i < |blocks|
  {
    FateOf(Follow(start, blocks[..i], lucks[..i], zip), blocks[i], lucks[i], zip)
  }

  // ----- the course is what happens on the disk -----

  /** The files of a course are those of the job, none above the current number. */
  ghost predicate Ranged(j0: Job, c: Course) {
    && (forall m :: m in c.files ==> 0 <= m < |j0.files| && m <= c.cur)
    && (c.files != map[] ==> c.holder.Some?)
    && (c.holder.Some? ==> c.holder.value in c.files)
    && (c.holder.Some? && !c.renamed ==> c.holder.value == c.cur)
    && (c.cur in c.files ==> c.holder == Some(c.cur))
  }

  /** Where a created file is: under its final name, or still being downloaded. */
  function PlaceOf(j0: Job, c: Course, m: int): string
    requires 0 <= m < |j0.files|
  {
    if c.holder == Some(m) && !c.renamed then j0.DownloadOf(m) else j0.PathOf(m)
  }

  ghost predicate OnDisk(j0: Job, disk: Disk, c: Course) {
    forall m :: m in c.files && 0 <= m < |j0.files| ==>
      PlaceOf(j0, c, m) in disk && disk[PlaceOf(j0, c, m)] == c.files[m]
  }

  ghost predicate Located(j0: Job, j: Job, disk: Disk, c: Course) {
    && SameJob(j0, j) && j.fileNum == c.cur && Ranged(j0, c)
    && (c.holder == None ==> j.file == None)
    && (c.holder.Some? ==> j.file == Some(Writer(PlaceOf(j0, c, c.holder.value))))
    && (c.holder == Some(c.cur) && c.renamed ==> j0.DownloadOf(c.cur) !in disk)
    && OnDisk(j0, disk, c)
  }

  /** `modify_time` gives the held file its final name and leaves the others alone. */
  lemma {:induction false} ModifyLocated(j0: Job, j: Job, disk: Disk, c: Course)
    requires PathsApart(j0) && Located(j0, j, disk, c)
    ensures var (j1, disk1) := ModifyTimeStep(j, disk);
            Located(j0, j1, disk1, c.(renamed := true)) && j1.fileNum == j.fileNum
  {
    hide Join;
    var c' := c.(renamed := true);
    var (j1, disk1) := ModifyTimeStep(j, disk);
    if j.InRange() {
      var dl, p := j0.DownloadOf(c.cur), j0.PathOf(c.cur);
      assert dl == j.DownloadOf(j.fileNum) && p == j.PathOf(j.fileNum);
      forall m | m in c.files && 0 <= m < |j0.files|
        ensures j0.PathOf(m) in disk1 && disk1[j0.PathOf(m)] == c.files[m]
      {
        assert m != c.cur ==> PlaceOf(j0, c, m) == j0.PathOf(m);
        assert m == c.cur ==> c.holder == Some(c.cur);
      }
    }
  }

  /** The order of the blocks, as a course sees it: nothing above the block's number is known yet. */
  ghost predicate Due(c: Course, b: Block) {
    c.files != map[] ==> c.cur <= b.fileNum
  }

  predicate Refuses(c: Course, luck: Luck) {
    (c.holder.Some? && luck.SyncFails?) || luck.CreateFails?
  }

  lemma {:induction false} RefusalLocated(j0: Job, j: Job, disk: Disk, c: Course, b: Block, luck: Luck, zip: Zip)
    requires PathsApart(j0) && Located(j0, j, disk, c) && Due(c, b) && Switches(c, b) && Refuses(c, luck)
    requires b.id == j0.id && 0 <= b.fileNum < |j0.files|
    ensures var (j', disk', r) := WriteStep(j, disk, b, luck, zip);
            && disk' == ModifyTimeStep(j, disk).1
            && Located(j0, j', disk', CourseStep(c, b, luck, zip))
            && r == Err(if c.holder.Some? && luck.SyncFails? then SyncError else CreateError)
  {
    hide Join, Reaching, CutsShort, ModifyTimeStep, Plain, OnDisk, PathsApart, AppendTo, Append, PlaceOf;
    ModifyLocated(j0, j, disk, c);
    var (j1, disk1) := ModifyTimeStep(j, disk);
    assert b.fileNum !in c.files;
    assert j1.file.Some? <==> c.holder.Some?;
    SamePlaces(j0, disk1, c.(renamed := true), b.fileNum);
  }

  /** The write of a block that starts a new download. */
  lemma {:induction false} CreationWrites(j0: Job, j: Job, disk: Disk, b: Block, luck: Luck, zip: Zip)
    requires SameJob(j0, j) && b.id == j0.id && 0 <= b.fileNum < |j0.files|
    requires b.fileNum != j.fileNum || j.file == None
    requires !luck.CreateFails? && !(ModifyTimeStep(j, disk).0.file.Some? && luck.SyncFails?)
    requires SameJob(j, ModifyTimeStep(j, disk).0)
    ensures var (j', disk', r) := WriteStep(j, disk, b, luck, zip);
            var dl := j0.DownloadOf(b.fileNum);
            && SameJob(j0, j') && j'.fileNum == b.fileNum && j'.file == Some(Writer(dl))
            && disk' == ModifyTimeStep(j, disk).1[dl := Reaching(b, luck, zip)]
            && r == (if CutsShort(Plain(b, zip), luck) then Err(DiskError) else Ok(()))
  {
    hide Join, Reaching, CutsShort, ModifyTimeStep, Plain;
    var bytes := Reaching(b, luck, zip);
    assert [] + bytes == bytes;
  }

  lemma {:induction false} CreationLocated(j0: Job, j: Job, disk: Disk, c: Course, b: Block, luck: Luck, zip: Zip)
    requires PathsApart(j0) && Located(j0, j, disk, c) && Due(c, b) && Switches(c, b) && !Refuses(c, luck)
    requires b.id == j0.id && 0 <= b.fileNum < |j0.files|
    ensures var (j', disk', r) := WriteStep(j, disk, b, luck, zip);
            && disk' == ModifyTimeStep(j, disk).1[j0.DownloadOf(b.fileNum) := Reaching(b, luck, zip)]
            && Located(j0, j', disk', CourseStep(c, b, luck, zip))
            && r == (if CutsShort(Plain(b, zip), luck) then Err(DiskError) else Ok(()))
  {
    hide Join, Reaching, CutsShort, WriteStep, ModifyTimeStep, Plain, OnDisk, PathsApart, AppendTo, PlaceOf;
    ModifyLocated(j0, j, disk, c);
    var (j1, disk1) := ModifyTimeStep(j, disk);
    assert b.fileNum !in c.files;
    assert j1.file.Some? <==> c.holder.Some?;
    CreationWrites(j0, j, disk, b, luck, zip);
    CreatedOnDisk(j0, disk1, c.(renamed := true), b.fileNum, Reaching(b, luck, zip));
  }

  lemma {:induction false} SwitchLocated(j0: Job, j: Job, disk: Disk, c: Course, b: Block, luck: Luck, zip: Zip)
    requires PathsApart(j0) && Located(j0, j, disk, c) && Due(c, b) && Switches(c, b)
    requires b.id == j0.id && 0 <= b.fileNum < |j0.files|
    ensures var (j', disk', r) := WriteStep(j, disk, b, luck, zip);
            && Located(j0, j', disk', CourseStep(c, b, luck, zip))
            && r == AnswerOf(c, b, luck, zip)
  {
    hide WriteStep, Located, PathsApart, CourseStep, Due, Switches, CutsShort, Plain;
    if Refuses(c, luck) {
      RefusalLocated(j0, j, disk, c, b, luck, zip);
    } else {
      CreationLocated(j0, j, disk, c, b, luck, zip);
    }
  }

  /** What the write of a block answers. */
  function AnswerOf(c: Course, b: Block, luck: Luck, zip: Zip): Result<(), WriteError> {
    if Switches(c, b) && c.holder.Some? && luck.SyncFails? then Err(SyncError)
    else if Switches(c, b) && luck.CreateFails? then Err(CreateError)
    else if CutsShort(Plain(b, zip), luck) then Err(DiskError)
    else Ok(())
  }

  /** A file number that is passed without being created changes no place. */
  lemma {:induction false} SamePlaces(j0: Job, disk: Disk, c: Course, k: int)
    requires c.renamed && OnDisk(j0, disk, c)
    ensures OnDisk(j0, disk, Course(k, c.holder, true, c.files))
    ensures forall m :: 0 <= m < |j0.files| ==> PlaceOf(j0, Course(k, c.holder, true, c.files), m) == PlaceOf(j0, c, m)
  {
    var c' := Course(k, c.holder, true, c.files);
    assert forall m :: 0 <= m < |j0.files| ==> PlaceOf(j0, c', m) == PlaceOf(j0, c, m);
  }

  lemma {:induction false} CreatedOnDisk(j0: Job, disk: Disk, c: Course, k: int, bytes: seq<byte>)
    requires PathsApart(j0) && c.renamed && OnDisk(j0, disk, c) && 0 <= k < |j0.files| && k !in c.files
    ensures var c' := Course(k, Some(k), false, c.files[k := bytes]);
            var dl := j0.DownloadOf(k);
            && PlaceOf(j0, c', k) == dl
            && AppendTo(disk[dl := []], Some(Writer(dl)), bytes) == disk[dl := bytes]
            && OnDisk(j0, AppendTo(disk[dl := []], Some(Writer(dl)), bytes), c')
  {
    hide Join;
    var c' := Course(k, Some(k), false, c.files[k := bytes]);
    var dl := j0.DownloadOf(k);
    var disk' := AppendTo(disk[dl := []], Some(Writer(dl)), bytes);
    assert [] + bytes == bytes;
    assert disk' == disk[dl := bytes];
    forall m | m in c'.files && 0 <= m < |j0.files|
      ensures PlaceOf(j0, c', m) in disk' && disk'[PlaceOf(j0, c', m)] == c'.files[m]
    {
      if m != k {
        assert PlaceOf(j0, c, m) == PlaceOf(j0, c', m) == j0.PathOf(m);
      }
    }
  }

  lemma {:induction false} AppendLocated(j0: Job, j: Job, disk: Disk, c: Course, b: Block, luck: Luck, zip: Zip)
    requires PathsApart(j0) && Located(j0, j, disk, c) && !Switches(c, b)
    requires b.id == j0.id && 0 <= b.fileNum < |j0.files|
    ensures var (j', disk', r) := WriteStep(j, disk, b, luck, zip);
            && Located(j0, j', disk', CourseStep(c, b, luck, zip))
            && r == AnswerOf(c, b, luck, zip)
            && c.holder.value in c.files && 0 <= c.holder.value < |j0.files|
            && (var place := PlaceOf(j0, c, c.holder.value);
                place in disk && disk' == disk[place := disk[place] + Reaching(b, luck, zip)])
  {
    hide Join, Reaching, CutsShort, ModifyTimeStep, Plain;
    var h, bytes := c.holder.value, Reaching(b, luck, zip);
    var place := PlaceOf(j0, c, h);
    assert place in disk && disk[place] == c.files[h];
    var c' := CourseStep(c, b, luck, zip);
    var disk' := disk[place := disk[place] + bytes];
    assert WriteStep(j, disk, b, luck, zip).1 == disk';
    forall m | m in c'.files && 0 <= m < |j0.files|
      ensures PlaceOf(j0, c', m) in disk' && disk'[PlaceOf(j0, c', m)] == c'.files[m]
    {
      assert PlaceOf(j0, c', m) == PlaceOf(j0, c, m);
      assert m != h ==> PlaceOf(j0, c, m) == j0.PathOf(m) != place;
    }
  }

  lemma {:induction false} CourseNumbers(start: int, blocks: seq<Block>, lucks: seq<Luck>, zip: Zip, last: int)
    requires |lucks| == |blocks| && forall i :: 0 <= i < |blocks| ==> blocks[i].fileNum <= last
    ensures var c := Follow(start, blocks, lucks, zip); c.files != map[] ==> c.cur <= last
    ensures var c := Follow(start, blocks, lucks, zip); c.holder.Some? ==> c.files != map[]
    decreases |blocks|
  {
    hide Reaching;
    if blocks != [] {
      var n := |blocks| - 1;
      CourseNumbers(start, blocks[..n], lucks[..n], zip, last);
      var c := Follow(start, blocks[..n], lucks[..n], zip);
      var c' := CourseStep(c, blocks[n], lucks[n], zip);
      if FateOf(c, blocks[n], lucks[n], zip).Into? {
        assert FateOf(c, blocks[n], lucks[n], zip).k in c'.files;
      }
    }
  }

  /** At every point of the delivery the disk is where the course says. */
  lemma {:induction false} DeliveryFollows(j: Job, disk: Disk, blocks: seq<Block>, lucks: seq<Luck>, zip: Zip)
    requires PathsApart(j) && j.file == None && ForJob(j, blocks) && Ordered(blocks) && |lucks| == |blocks|
    ensures var (j1, disk1) := DeliverWith(j, disk, blocks, lucks, zip);
            Located(j, j1, disk1, Follow(j.fileNum, blocks, lucks, zip))
    decreases |blocks|
  {
    hide WriteStep, CourseStep, Located, PathsApart;
    if blocks == [] {
      NothingDelivered(j, disk);
    } else {
      var n := |blocks| - 1;
      DeliveryFollows(j, disk, blocks[..n], lucks[..n], zip);
      StepFollows(j, disk, blocks, lucks, zip, n);
      assert blocks[..n + 1] == blocks && lucks[..n + 1] == lucks;
    }
  }

  lemma {:induction false} NothingDelivered(j: Job, disk: Disk)
    requires j.file == None
    ensures Located(j, j, disk, Course(j.fileNum, None, false, map[]))
  {
  }

  lemma {:induction false} StepFollows(j: Job, disk: Disk, blocks: seq<Block>, lucks: seq<Luck>, zip: Zip, i: nat)
    requires PathsApart(j) && ForJob(j, blocks) && Ordered(blocks) && |lucks| == |blocks| && i < |blocks|
    requires var (j1, disk1) := DeliverWith(j, disk, blocks[..i], lucks[..i], zip);
             Located(j, j1, disk1, Follow(j.fileNum, blocks[..i], lucks[..i], zip))
    ensures var (j1, disk1) := DeliverWith(j, disk, blocks[..i], lucks[..i], zip);
            var c := Follow(j.fileNum, blocks[..i], lucks[..i], zip);
            var (j2, disk2, r) := WriteStep(j1, disk1, blocks[i], lucks[i], zip);
            && Located(j, j2, disk2, CourseStep(c, blocks[i], lucks[i], zip))
            && r == AnswerOf(c, blocks[i], lucks[i], zip)
            && (j1.file.Some? <==> c.holder.Some?)
  {
    hide DeliverWith, Follow, WriteStep, CourseStep, PathsApart, Located;
    var (j1, disk1) := DeliverWith(j, disk, blocks[..i], lucks[..i], zip);
    var c := Follow(j.fileNum, blocks[..i], lucks[..i], zip);
    CourseNumbers(j.fileNum, blocks[..i], lucks[..i], zip, blocks[i].fileNum);
    OpenIffHeld(j, j1, disk1, c);
    if Switches(c, blocks[i]) {
      SwitchLocated(j, j1, disk1, c, blocks[i], lucks[i], zip);
    } else {
      AppendLocated(j, j1, disk1, c, blocks[i], lucks[i], zip);
    }
  }

  lemma {:induction false} OpenIffHeld(j0: Job, j: Job, disk: Disk, c: Course)
    requires Located(j0, j, disk, c)
    ensures j.file.Some? <==> c.holder.Some?
  {
  }

  predicate FailsToCreate(c: Course, b: Block, luck: Luck) {
    Switches(c, b) && !(c.holder.Some? && luck.SyncFails?) && luck.CreateFails?
  }

  /** What the disk holds in the end: every file that was ever created, with the content the course gives it. */
  lemma {:induction false} FaultyDelivery(j: Job, disk: Disk, blocks: seq<Block>, lucks: seq<Luck>, zip: Zip)
    requires PathsApart(j) && j.file == None && ForJob(j, blocks) && Ordered(blocks) && |lucks| == |blocks|
    ensures var (j1, disk1) := DeliverWith(j, disk, blocks, lucks, zip);
            var final := ModifyTimeStep(j1, disk1).1;
            var c := Follow(j.fileNum, blocks, lucks, zip);
            forall m :: m in c.files ==>
              0 <= m < |j.files| && j.PathOf(m) in final && final[j.PathOf(m)] == c.files[m]
  {
    hide DeliverWith, Follow, PathsApart, ModifyTimeStep, Join;
    var (j1, disk1) := DeliverWith(j, disk, blocks, lucks, zip);
    var c := Follow(j.fileNum, blocks, lucks, zip);
    DeliveryFollows(j, disk, blocks, lucks, zip);
    ModifyLocated(j, j1, disk1, c);
    var c' := c.(renamed := true);
    assert forall m :: m in c.files ==> m in c'.files && PlaceOf(j, c', m) == j.PathOf(m);
  }

  // ----- which bytes end up where -----

  /** All bytes that reach file m, whosever block they come from. */
  function Poured(m: int, start: int, blocks: seq<Block>, lucks: seq<Luck>, zip: Zip): seq<byte>
    requires |lucks| == |blocks|
    decreases |blocks|
  {
    if blocks == [] then []
    else
      var n := |blocks| - 1;
      var fate := FateAt(start, blocks, lucks, zip, n);
      Poured(m, start, blocks[..n], lucks[..n], zip) + if fate.Into? && fate.k == m then fate.bytes else []
  }

  /** The bytes of its own blocks that reach file m. */
  function Own(m: int, start: int, blocks: seq<Block>, lucks: seq<Luck>, zip: Zip): seq<byte>
    requires |lucks| == |blocks|
    decreases |blocks|
  {
    if blocks == [] then []
    else
      var n := |blocks| - 1;
      var fate := FateAt(start, blocks, lucks, zip, n);
      Own(m, start, blocks[..n], lucks[..n], zip) +
      if fate.Into? && fate.k == m && blocks[n].fileNum == m then fate.bytes else []
  }

  /** Block i puts bytes into a file that is not its own. */
  predicate Astray(start: int, blocks: seq<Block>, lucks: seq<Luck>, zip: Zip, i: nat)
    requires |lucks| == |blocks| && i < |blocks|
  {
    var fate := FateAt(start, blocks, lucks, zip, i);
    fate.Into? && fate.k != blocks[i].fileNum && fate.bytes != []
  }

  predicate AstrayInto(start: int, blocks: seq<Block>, lucks: seq<Luck>, zip: Zip, i: nat, m: int)
    requires |lucks| == |blocks| && i < |blocks|
  {
    Astray(start, blocks, lucks, zip, i) && FateAt(start, blocks, lucks, zip, i).k == m
  }

  /** Block i is in its own file with all its bytes, if it has any. */
  predicate Whole(start: int, blocks: seq<Block>, lucks: seq<Luck>, zip: Zip, i: nat)
    requires |lucks| == |blocks| && i < |blocks|
  {
    || Plain(blocks[i], zip) == []
    || FateAt(start, blocks, lucks, zip, i) == Into(blocks[i].fileNum, Plain(blocks[i], zip))
  }

  lemma {:induction false} FatePrefix(start: int, blocks: seq<Block>, lucks: seq<Luck>, zip: Zip, n: nat, i: nat)
    requires |lucks| == |blocks| && i < n <= |blocks|
    ensures FateAt(start, blocks[..n], lucks[..n], zip, i) == FateAt(start, blocks, lucks, zip, i)
    ensures Astray(start, blocks[..n], lucks[..n], zip, i) <==> Astray(start, blocks, lucks, zip, i)
    ensures Whole(start, blocks[..n], lucks[..n], zip, i) <==> Whole(start, blocks, lucks, zip, i)
  {
    hide Follow, FateOf, Plain;
    assert blocks[..n][..i] == blocks[..i] && lucks[..n][..i] == lucks[..i];
  }

  lemma {:induction false} CreatedAfresh(j0: Job, c: Course, b: Block)
    requires Ranged(j0, c) && Due(c, b) && Switches(c, b)
    ensures b.fileNum !in c.files
  {
  }

  lemma {:induction false} CourseRanged(j: Job, blocks: seq<Block>, lucks: seq<Luck>, zip: Zip, i: nat)
    requires PathsApart(j) && j.file == None && ForJob(j, blocks) && Ordered(blocks) && |lucks| == |blocks|
    requires i <= |blocks|
    ensures Ranged(j, Follow(j.fileNum, blocks[..i], lucks[..i], zip))
    ensures i < |blocks| ==> Due(Follow(j.fileNum, blocks[..i], lucks[..i], zip), blocks[i])
  {
    hide DeliverWith, Follow, PathsApart, OnDisk, PlaceOf;
    DeliveryFollows(j, map[], blocks[..i], lucks[..i], zip);
    if i < |blocks| {
      CourseNumbers(j.fileNum, blocks[..i], lucks[..i], zip, blocks[i].fileNum);
    }
  }

  /** A file holds exactly what was poured into it. */
  lemma {:induction false} FilesArePoured(j: Job, blocks: seq<Block>, lucks: seq<Luck>, zip: Zip, m: int)
    requires PathsApart(j) && j.file == None && ForJob(j, blocks) && Ordered(blocks) && |lucks| == |blocks|
    ensures Content(Follow(j.fileNum, blocks, lucks, zip), m) == Poured(m, j.fileNum, blocks, lucks, zip)
    decreases |blocks|
  {
    hide PathsApart, Ranged, Due, Reaching;
    if blocks != [] {
      var n := |blocks| - 1;
      FilesArePoured(j, blocks[..n], lucks[..n], zip, m);
      CourseRanged(j, blocks, lucks, zip, n);
      var c := Follow(j.fileNum, blocks[..n], lucks[..n], zip);
      if Switches(c, blocks[n]) {
        CreatedAfresh(j, c, blocks[n]);
      }
    }
  }

  lemma {:induction false} PouredIsOwn(m: int, start: int, blocks: seq<Block>, lucks: seq<Luck>, zip: Zip)
    requires |lucks| == |blocks|
    ensures |Own(m, start, blocks, lucks, zip)| <= |Poured(m, start, blocks, lucks, zip)|
    ensures Poured(m, start, blocks, lucks, zip) == Own(m, start, blocks, lucks, zip) <==>
            forall i: nat :: i < |blocks| ==> !AstrayInto(start, blocks, lucks, zip, i, m)
    decreases |blocks|
  {
    hide FateAt;
    if blocks != [] {
      var n := |blocks| - 1;
      PouredIsOwn(m, start, blocks[..n], lucks[..n], zip);
      forall i: nat | i < n
        ensures AstrayInto(start, blocks[..n], lucks[..n], zip, i, m) <==> AstrayInto(start, blocks, lucks, zip, i, m)
      {
        FatePrefix(start, blocks, lucks, zip, n, i);
      }
      var own, poured := Own(m, start, blocks[..n], lucks[..n], zip), Poured(m, start, blocks[..n], lucks[..n], zip);
      var fate := FateAt(start, blocks, lucks, zip, n);
      if fate.Into? && fate.k == m {
        ShorterParts(own, poured, if blocks[n].fileNum == m then fate.bytes else [], fate.bytes);
      } else {
        ShorterParts(own, poured, [], []);
      }
      assert (forall i: nat :: i < |blocks| ==> !AstrayInto(start, blocks, lucks, zip, i, m)) <==>
             (forall i: nat :: i < n ==> !AstrayInto(start, blocks, lucks, zip, i, m))
             && !AstrayInto(start, blocks, lucks, zip, n, m);
    }
  }

  /**
   After any delivery, every file that was created holds exactly the bytes of its own blocks that reached it, if
   and only if no block with bytes in it was written while the open handle belonged to another file.
   */
  lemma {:induction false} FilesIntactIff(j: Job, disk: Disk, blocks: seq<Block>, lucks: seq<Luck>, zip: Zip)
    requires PathsApart(j) && j.file == None && ForJob(j, blocks) && Ordered(blocks) && |lucks| == |blocks|
    ensures var (j1, disk1) := DeliverWith(j, disk, blocks, lucks, zip);
            var final := ModifyTimeStep(j1, disk1).1;
            var created := Follow(j.fileNum, blocks, lucks, zip).files;
            (forall m :: m in created ==>
               && 0 <= m < |j.files| && j.PathOf(m) in final
               && final[j.PathOf(m)] == Own(m, j.fileNum, blocks, lucks, zip))
            <==> (forall i: nat :: i < |blocks| ==> !Astray(j.fileNum, blocks, lucks, zip, i))
  {
    hide DeliverWith, Follow, PathsApart, ModifyTimeStep, Join, Own, Poured, FateAt;
    FaultyDelivery(j, disk, blocks, lucks, zip);
    var (j1, disk1) := DeliverWith(j, disk, blocks, lucks, zip);
    var final, c := ModifyTimeStep(j1, disk1).1, Follow(j.fileNum, blocks, lucks, zip);
    forall m
      ensures Content(c, m) == Poured(m, j.fileNum, blocks, lucks, zip)
      ensures Poured(m, j.fileNum, blocks, lucks, zip) == Own(m, j.fileNum, blocks, lucks, zip) <==>
              forall i: nat :: i < |blocks| ==> !AstrayInto(j.fileNum, blocks, lucks, zip, i, m)
      ensures |Own(m, j.fileNum, blocks, lucks, zip)| <= |Poured(m, j.fileNum, blocks, lucks, zip)|
    {
      FilesArePoured(j, blocks, lucks, zip, m);
      PouredIsOwn(m, j.fileNum, blocks, lucks, zip);
    }
    forall i: nat | i < |blocks| && Astray(j.fileNum, blocks, lucks, zip, i)
      ensures exists m :: m in c.files && c.files[m] != Own(m, j.fileNum, blocks, lucks, zip)
    {
      var k := FateAt(j.fileNum, blocks, lucks, zip, i).k;
      assert AstrayInto(j.fileNum, blocks, lucks, zip, i, k);
      assert Poured(k, j.fileNum, blocks, lucks, zip) != Own(k, j.fileNum, blocks, lucks, zip);
      assert k in c.files;
    }
  }

  /** The own bytes that reached a file are all its bytes if and only if each of its blocks got there whole. */
  lemma {:induction false} OwnIffWhole(m: int, start: int, blocks: seq<Block>, lucks: seq<Luck>, zip: Zip)
    requires |lucks| == |blocks|
    ensures |Own(m, start, blocks, lucks, zip)| <= |Data(m, blocks, zip)|
    ensures Own(m, start, blocks, lucks, zip) == Data(m, blocks, zip) <==>
            forall i: nat :: i < |blocks| && blocks[i].fileNum == m ==> Whole(start, blocks, lucks, zip, i)
    decreases |blocks|
  {
    hide FateAt, Plain;
    if blocks != [] {
      var n := |blocks| - 1;
      OwnIffWhole(m, start, blocks[..n], lucks[..n], zip);
      forall i: nat | i < n
        ensures Whole(start, blocks[..n], lucks[..n], zip, i) <==> Whole(start, blocks, lucks, zip, i)
      {
        FatePrefix(start, blocks, lucks, zip, n, i);
      }
      FateReaches(start, blocks, lucks, zip, n);
      var own, data := Own(m, start, blocks[..n], lucks[..n], zip), Data(m, blocks[..n], zip);
      if blocks[n].fileNum == m {
        var fate, plain := FateAt(start, blocks, lucks, zip, n), Plain(blocks[n], zip);
        var bytes := if fate.Into? && fate.k == m then fate.bytes else [];
        ShorterParts(own, data, bytes, plain);
        assert bytes == plain <==> Whole(start, blocks, lucks, zip, n);
      } else {
        ShorterParts(own, data, [], []);
      }
      assert (forall i: nat :: i < |blocks| && blocks[i].fileNum == m ==> Whole(start, blocks, lucks, zip, i)) <==>
             (forall i: nat :: i < n && blocks[i].fileNum == m ==> Whole(start, blocks, lucks, zip, i))
             && (blocks[n].fileNum == m ==> Whole(start, blocks, lucks, zip, n));
    }
  }

  lemma {:induction false} FateReaches(start: int, blocks: seq<Block>, lucks: seq<Luck>, zip: Zip, i: nat)
    requires |lucks| == |blocks| && i < |blocks|
    ensures var fate := FateAt(start, blocks, lucks, zip, i);
            fate.Into? ==> fate.bytes <= Plain(blocks[i], zip)
  {
    hide Follow, Plain;
  }

  lemma {:induction false} ShorterParts(a: seq<byte>, b: seq<byte>, x: seq<byte>, y: seq<byte>)
    requires |a| <= |b| && x <= y
    ensures a + x == b + y <==> a == b && x == y
  {
    if a + x == b + y {
      assert |a| == |b| && |x| == |y|;
      assert a == (a + x)[..|a|] && b == (b + y)[..|b|];
    }
  }

  // ----- in the caller's terms -----

  lemma {:induction false} Observed(j: Job, disk: Disk, blocks: seq<Block>, lucks: seq<Luck>, zip: Zip, p: nat)
    requires PathsApart(j) && j.file == None && ForJob(j, blocks) && Ordered(blocks) && |lucks| == |blocks|
    requires p < |blocks|
    ensures var c := Follow(j.fileNum, blocks[..p], lucks[..p], zip);
            && ResultAt(j, disk, blocks, lucks, zip, p) == AnswerOf(c, blocks[p], lucks[p], zip)
            && (ResultAt(j, disk, blocks, lucks, zip, p) == Err(CreateError) <==> FailsToCreate(c, blocks[p], lucks[p]))
            && (OpenAt(j, disk, blocks, lucks, zip, p) <==> c.holder.Some?)
  {
    hide DeliverWith, Follow, PathsApart, WriteStep, CourseStep, Located, CutsShort, Plain;
    DeliveryFollows(j, disk, blocks[..p], lucks[..p], zip);
    StepFollows(j, disk, blocks, lucks, zip, p);
  }

  lemma {:induction false} FollowStep(start: int, blocks: seq<Block>, lucks: seq<Luck>, zip: Zip, i: nat)
    requires |lucks| == |blocks| && i < |blocks|
    ensures Follow(start, blocks[..i + 1], lucks[..i + 1], zip) ==
            CourseStep(Follow(start, blocks[..i], lucks[..i], zip), blocks[i], lucks[i], zip)
  {
    hide CourseStep;
    assert blocks[..i + 1][..i] == blocks[..i] && lucks[..i + 1][..i] == lucks[..i];
  }

  /** While the blocks stay with the file whose creation failed, the handle stays with the old one. */
  lemma {:induction false} HandleStays(start: int, blocks: seq<Block>, lucks: seq<Luck>, zip: Zip, p: nat, i: nat)
    requires |lucks| == |blocks| && p < i < |blocks|
    requires forall q :: p <= q <= i ==> blocks[q].fileNum == blocks[p].fileNum
    requires var c := Follow(start, blocks[..p], lucks[..p], zip);
             c.holder.Some? && FailsToCreate(c, blocks[p], lucks[p])
    ensures var c := Follow(start, blocks[..p], lucks[..p], zip);
            var c' := Follow(start, blocks[..i], lucks[..i], zip);
            c'.cur == blocks[p].fileNum && c'.holder == c.holder
    decreases i
  {
    hide Follow, Reaching;
    if i == p + 1 {
      FollowStep(start, blocks, lucks, zip, p);
    } else {
      HandleStays(start, blocks, lucks, zip, p, i - 1);
      FollowStep(start, blocks, lucks, zip, i - 1);
    }
  }

  /** A handle that does not belong to the current file is left over from a failed creation. */
  lemma {:induction false} FindFailure(start: int, blocks: seq<Block>, lucks: seq<Luck>, zip: Zip, i: nat)
    returns (p: nat)
    requires |lucks| == |blocks| && i <= |blocks|
    requires var c := Follow(start, blocks[..i], lucks[..i], zip);
             c.holder.Some? && c.holder.value != c.cur
    ensures p < i && blocks[p].fileNum == Follow(start, blocks[..i], lucks[..i], zip).cur
    ensures var c := Follow(start, blocks[..p], lucks[..p], zip);
            c.holder.Some? && FailsToCreate(c, blocks[p], lucks[p])
    decreases i
  {
    hide Reaching;
    assert i > 0;
    FollowStep(start, blocks, lucks, zip, i - 1);
    var c := Follow(start, blocks[..i - 1], lucks[..i - 1], zip);
    hide Follow;
    if FailsToCreate(c, blocks[i - 1], lucks[i - 1]) {
      p := i - 1;
    } else {
      p := FindFailure(start, blocks, lucks, zip, i - 1);
    }
  }

  /** An earlier block of the same file was answered with CreateError while another file was open. */
  ghost predicate Misled(j: Job, disk: Disk, blocks: seq<Block>, lucks: seq<Luck>, zip: Zip, i: nat)
    requires |lucks| == |blocks| && i < |blocks|
  {
    exists p: nat :: p < i && blocks[p].fileNum == blocks[i].fileNum && OpenAt(j, disk, blocks, lucks, zip, p)
                     && ResultAt(j, disk, blocks, lucks, zip, p) == Err(CreateError)
  }

  /** A block is misled exactly if it is written into a file that is not its own. */
  lemma {:induction false} MisledIff(j: Job, disk: Disk, blocks: seq<Block>, lucks: seq<Luck>, zip: Zip, i: nat)
    requires PathsApart(j) && j.file == None && ForJob(j, blocks) && Ordered(blocks) && |lucks| == |blocks|
    requires i < |blocks|
    ensures var fate := FateAt(j.fileNum, blocks, lucks, zip, i);
            Misled(j, disk, blocks, lucks, zip, i) <==> fate.Into? && fate.k != blocks[i].fileNum
  {
    hide DeliverWith, Follow, PathsApart, Ranged, Due, Reaching, ResultAt, OpenAt, FailsToCreate;
    var start, b := j.fileNum, blocks[i];
    var c := Follow(start, blocks[..i], lucks[..i], zip);
    CourseRanged(j, blocks, lucks, zip, i);
    var fate := FateAt(start, blocks, lucks, zip, i);
    if fate.Into? && fate.k != b.fileNum {
      assert !Switches(c, b) && c.cur == b.fileNum && c.holder.value != c.cur;
      var p := FindFailure(start, blocks, lucks, zip, i);
      Observed(j, disk, blocks, lucks, zip, p);
    }
    forall p: nat | p < i && blocks[p].fileNum == b.fileNum && OpenAt(j, disk, blocks, lucks, zip, p)
                    && ResultAt(j, disk, blocks, lucks, zip, p) == Err(CreateError)
      ensures fate.Into? && fate.k != b.fileNum
    {
      Observed(j, disk, blocks, lucks, zip, p);
      CourseRanged(j, blocks, lucks, zip, p);
      HeldIsOlder(j, Follow(start, blocks[..p], lucks[..p], zip), blocks[p], lucks[p]);
      assert forall q :: p <= q <= i ==> blocks[p].fileNum <= blocks[q].fileNum <= blocks[i].fileNum;
      HandleStays(start, blocks, lucks, zip, p, i);
    }
  }

  /**
   A block goes astray exactly when it has bytes to write and an earlier block of the same file was answered with
   CreateError while another file was open.
   */
  lemma {:induction false} AstrayIffAfterCreateError(j: Job, disk: Disk, blocks: seq<Block>, lucks: seq<Luck>, zip: Zip,
                                                     i: nat)
    requires PathsApart(j) && j.file == None && ForJob(j, blocks) && Ordered(blocks) && |lucks| == |blocks|
    requires i < |blocks|
    ensures Astray(j.fileNum, blocks, lucks, zip, i) <==>
            Reaching(blocks[i], lucks[i], zip) != [] && Misled(j, disk, blocks, lucks, zip, i)
  {
    hide PathsApart, Follow, Reaching, Misled;
    MisledIff(j, disk, blocks, lucks, zip, i);
  }

  lemma {:induction false} HeldIsOlder(j0: Job, c: Course, b: Block, luck: Luck)
    requires Ranged(j0, c) && Due(c, b) && c.holder.Some? && FailsToCreate(c, b, luck)
    ensures c.holder.value != b.fileNum
  {
  }

  // ----- a first file that cannot be created -----

  /** Without an open file the creation is tried again for each block, and the blocks before it succeeds are lost. */
  lemma {:induction false} RetryLosesBlocks(j: Job, disk: Disk, blocks: seq<Block>, lucks: seq<Luck>, zip: Zip, k: int,
                                            n: nat)
    requires PathsApart(j) && j.file == None && ForJob(j, blocks) && |lucks| == |blocks| && n < |blocks|
    requires forall i :: 0 <= i < |blocks| ==>
               blocks[i].fileNum == k && lucks[i] == if i < n then CreateFails else Fine
    ensures var (j1, disk1) := DeliverWith(j, disk, blocks, lucks, zip);
            var final := ModifyTimeStep(j1, disk1).1;
            && (forall i: nat :: i < n ==> ResultAt(j, disk, blocks, lucks, zip, i) == Err(CreateError))
            && 0 <= k < |j.files| && j.PathOf(k) in final && final[j.PathOf(k)] == Data(k, blocks[n..], zip)
  {
    hide DeliverWith, PathsApart, ModifyTimeStep, Follow, ResultAt, OpenAt;
    assert Ordered(blocks);
    var start := j.fileNum;
    forall i: nat | i < n
      ensures ResultAt(j, disk, blocks, lucks, zip, i) == Err(CreateError)
    {
      NothingCreated(start, blocks, lucks, zip, i);
      Observed(j, disk, blocks, lucks, zip, i);
    }
    FaultyDelivery(j, disk, blocks, lucks, zip);
    CreatedLate(start, blocks, lucks, zip, k, n, |blocks|);
    assert blocks[..|blocks|] == blocks && lucks[..|lucks|] == lucks && blocks[n..|blocks|] == blocks[n..];
  }

  lemma {:induction false} NothingCreated(start: int, blocks: seq<Block>, lucks: seq<Luck>, zip: Zip, i: nat)
    requires |lucks| == |blocks| && i <= |blocks| && forall q :: 0 <= q < i ==> lucks[q] == CreateFails
    ensures var c := Follow(start, blocks[..i], lucks[..i], zip); c.holder == None && c.files == map[]
    decreases i
  {
    hide Reaching;
    if i > 0 {
      NothingCreated(start, blocks, lucks, zip, i - 1);
      FollowStep(start, blocks, lucks, zip, i - 1);
    }
  }

  lemma {:induction false} CreatedLate(start: int, blocks: seq<Block>, lucks: seq<Luck>, zip: Zip, k: int, n: nat,
                                       i: nat)
    requires |lucks| == |blocks| && n < i <= |blocks|
    requires forall q :: 0 <= q < |blocks| ==>
               blocks[q].fileNum == k && lucks[q] == if q < n then CreateFails else Fine
    ensures Follow(start, blocks[..i], lucks[..i], zip) ==
            Course(k, Some(k), false, map[k := Data(k, blocks[n..i], zip)])
    decreases i
  {
    hide Follow, Plain, Data, CourseStep;
    FollowStep(start, blocks, lucks, zip, i - 1);
    DataSnoc(k, blocks[n..i - 1], blocks[i - 1], zip);
    assert blocks[n..i] == blocks[n..i - 1] + [blocks[i - 1]];
    if i == n + 1 {
      NothingCreated(start, blocks, lucks, zip, n);
      FineCreation(Follow(start, blocks[..n], lucks[..n], zip), blocks[n], zip);
      assert blocks[n..n] == [];
      NoData(k, zip);
      assert [] + Plain(blocks[n], zip) == Plain(blocks[n], zip);
    } else {
      CreatedLate(start, blocks, lucks, zip, k, n, i - 1);
      FineAppend(k, Data(k, blocks[n..i - 1], zip), blocks[i - 1], zip);
    }
  }

  lemma {:induction false} NoData(k: int, zip: Zip)
    ensures Data(k, [], zip) == []
  {
  }

  lemma {:induction false} FineCreation(c: Course, b: Block, zip: Zip)
    requires c.holder == None && c.files == map[]
    ensures CourseStep(c, b, Fine, zip) == Course(b.fileNum, Some(b.fileNum), false, map[b.fileNum := Plain(b, zip)])
  {
    hide Plain;
  }

  lemma {:induction false} FineAppend(k: int, data: seq<byte>, b: Block, zip: Zip)
    requires b.fileNum == k
    ensures CourseStep(Course(k, Some(k), false, map[k := data]), b, Fine, zip) ==
            Course(k, Some(k), false, map[k := data + Plain(b, zip)])
  {
    hide Plain;
  }
}
