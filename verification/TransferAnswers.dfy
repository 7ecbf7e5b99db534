/**
 What a sender can conclude from the answers to its blocks: which files were created, and which of them hold all their
 bytes (libs/hbb_common/src/fs.rs).
 */
module TransferAnswers {
  import opened Basics
  import opened Transfer
  import opened TransferHandshake
  import opened TransferDelivery
  import opened TransferFaults

  /** The ordinary circumstances of a delivery: a fresh receiver and the ordered blocks of one job. */
  ghost predicate Deliverable(j: Job, blocks: seq<Block>, lucks: seq<Luck>) {
    PathsApart(j) && j.file == None && ForJob(j, blocks) && Ordered(blocks) && |lucks| == |blocks|
  }

  function FinalDisk(j: Job, disk: Disk, blocks: seq<Block>, lucks: seq<Luck>, zip: Zip): Disk
    requires |lucks| == |blocks|
  {
    var (j1, disk1) := DeliverWith(j, disk, blocks, lucks, zip);
    ModifyTimeStep(j1, disk1).1
  }

  /** The files that the delivery created. */
  function Created(j: Job, blocks: seq<Block>, lucks: seq<Luck>, zip: Zip): map<int, seq<byte>>
    requires |lucks| == |blocks|
  {
    Follow(j.fileNum, blocks, lucks, zip).files
  }

  // ----- answers and fates -----

  /** An accepted block reaches a file whole; a failed write reaches it in part; a refused block does not. */
  lemma {:induction false} AnswerTellsFate(j: Job, disk: Disk, blocks: seq<Block>, lucks: seq<Luck>, zip: Zip, i: nat)
    requires Deliverable(j, blocks, lucks) && i < |blocks|
    ensures var answer := ResultAt(j, disk, blocks, lucks, zip, i);
            var fate := FateAt(j.fileNum, blocks, lucks, zip, i);
            && (fate.Into? <==> answer.Ok? || answer == Err(DiskError))
            && (fate.Into? ==> fate.bytes == Reaching(blocks[i], lucks[i], zip))
            && (answer.Ok? ==> Reaching(blocks[i], lucks[i], zip) == Plain(blocks[i], zip))
            && (answer == Err(DiskError) ==> |Reaching(blocks[i], lucks[i], zip)| < |Plain(blocks[i], zip)|)
  {
    hide PathsApart, Follow, ResultAt, OpenAt, Plain;
    Observed(j, disk, blocks, lucks, zip, i);
  }

  /** A file was created exactly if a block of it was accepted, or written in part, without being misled. */
  lemma {:induction false} CreatedIff(j: Job, disk: Disk, blocks: seq<Block>, lucks: seq<Luck>, zip: Zip, k: int)
    requires Deliverable(j, blocks, lucks)
    ensures k in Created(j, blocks, lucks, zip) <==>
            exists i: nat ::
              && i < |blocks| && blocks[i].fileNum == k && !Misled(j, disk, blocks, lucks, zip, i)
              && (ResultAt(j, disk, blocks, lucks, zip, i).Ok? ||
                  ResultAt(j, disk, blocks, lucks, zip, i) == Err(DiskError))
  {
    hide PathsApart, Follow, ResultAt, Misled, FateAt, Plain, Reaching;
    forall i: nat | i < |blocks|
      ensures IntoOwn(j.fileNum, blocks, lucks, zip, i) <==>
              !Misled(j, disk, blocks, lucks, zip, i) &&
              (ResultAt(j, disk, blocks, lucks, zip, i).Ok? ||
               ResultAt(j, disk, blocks, lucks, zip, i) == Err(DiskError))
    {
      MisledIff(j, disk, blocks, lucks, zip, i);
      AnswerTellsFate(j, disk, blocks, lucks, zip, i);
    }
    CreatedByOwn(j, blocks, lucks, zip, |blocks|, k);
    assert blocks[..|blocks|] == blocks && lucks[..|lucks|] == lucks;
  }

  predicate IntoOwn(start: int, blocks: seq<Block>, lucks: seq<Luck>, zip: Zip, i: nat)
    requires |lucks| == |blocks| && i < |blocks|
  {
    var fate := FateAt(start, blocks, lucks, zip, i);
    fate.Into? && fate.k == blocks[i].fileNum
  }

  lemma {:induction false} CreatedByOwn(j: Job, blocks: seq<Block>, lucks: seq<Luck>, zip: Zip, n: nat, k: int)
    requires Deliverable(j, blocks, lucks) && n <= |blocks|
    ensures k in Follow(j.fileNum, blocks[..n], lucks[..n], zip).files <==>
            exists i: nat :: i < n && blocks[i].fileNum == k && IntoOwn(j.fileNum, blocks, lucks, zip, i)
    decreases n
  {
    hide PathsApart, Follow, IntoOwn;
    if n == 0 {
      NothingFollowed(j.fileNum, blocks, lucks, zip);
    } else {
      CreatedByOwn(j, blocks, lucks, zip, n - 1, k);
      FollowStep(j.fileNum, blocks, lucks, zip, n - 1);
      CourseRanged(j, blocks, lucks, zip, n - 1);
      KeysStep(j, blocks, lucks, zip, n - 1, k);
    }
  }

  lemma {:induction false} NothingFollowed(start: int, blocks: seq<Block>, lucks: seq<Luck>, zip: Zip)
    requires |lucks| == |blocks|
    ensures Follow(start, blocks[..0], lucks[..0], zip).files == map[]
  {
  }

  lemma {:induction false} KeysStep(j: Job, blocks: seq<Block>, lucks: seq<Luck>, zip: Zip, n: nat, k: int)
    requires |lucks| == |blocks| && n < |blocks|
    requires Ranged(j, Follow(j.fileNum, blocks[..n], lucks[..n], zip))
    ensures var c := Follow(j.fileNum, blocks[..n], lucks[..n], zip);
            k in CourseStep(c, blocks[n], lucks[n], zip).files <==>
            k in c.files || (blocks[n].fileNum == k && IntoOwn(j.fileNum, blocks, lucks, zip, n))
  {
    hide Follow, Reaching;
  }

  // ----- a created file gets all its blocks -----

  /** The receiver has got to file m or past it, with another file's handle, and without creating m. */
  predicate Missed(c: Course, m: int) {
    c.holder.Some? && m <= c.cur && m !in c.files
  }

  lemma {:induction false} MissedStays(j: Job, blocks: seq<Block>, lucks: seq<Luck>, zip: Zip, i: nat, n: nat, m: int)
    requires Deliverable(j, blocks, lucks) && i <= n <= |blocks|
    requires Missed(Follow(j.fileNum, blocks[..i], lucks[..i], zip), m)
    requires i < |blocks| ==> m <= blocks[i].fileNum
    ensures Missed(Follow(j.fileNum, blocks[..n], lucks[..n], zip), m)
    decreases n
  {
    hide PathsApart, Follow, Reaching;
    if n > i {
      MissedStays(j, blocks, lucks, zip, i, n - 1, m);
      FollowStep(j.fileNum, blocks, lucks, zip, n - 1);
      CourseRanged(j, blocks, lucks, zip, n - 1);
      assert blocks[i].fileNum <= blocks[n - 1].fileNum;
    }
  }

  /** No block of a file that gets created is misled. */
  lemma {:induction false} CreatedIsNotMisled(j: Job, disk: Disk, blocks: seq<Block>, lucks: seq<Luck>, zip: Zip,
                                              i: nat)
    requires Deliverable(j, blocks, lucks) && i < |blocks|
    requires blocks[i].fileNum in Created(j, blocks, lucks, zip)
    ensures !Misled(j, disk, blocks, lucks, zip, i)
  {
    hide PathsApart, Follow, Misled, Reaching;
    MisledIff(j, disk, blocks, lucks, zip, i);
    CourseRanged(j, blocks, lucks, zip, i);
    var n := |blocks|;
    assert blocks[..n] == blocks && lucks[..n] == lucks;
    var c := Follow(j.fileNum, blocks[..i], lucks[..i], zip);
    if Missed(c, blocks[i].fileNum) {
      MissedStays(j, blocks, lucks, zip, i, n, blocks[i].fileNum);
    }
  }

  // ----- what a created file holds -----

  /** The bytes of file m that its answers account for among the first n blocks. */
  function Kept(m: int, j: Job, disk: Disk, blocks: seq<Block>, lucks: seq<Luck>, zip: Zip, n: nat): seq<byte>
    requires |lucks| == |blocks| && n <= |blocks|
    decreases n
  {
    if n == 0 then []
    else
      var answer := ResultAt(j, disk, blocks, lucks, zip, n - 1);
      Kept(m, j, disk, blocks, lucks, zip, n - 1) +
      if blocks[n - 1].fileNum == m && (answer.Ok? || answer == Err(DiskError))
      then Reaching(blocks[n - 1], lucks[n - 1], zip) else []
  }

  lemma {:induction false} OwnIsKept(m: int, j: Job, disk: Disk, blocks: seq<Block>, lucks: seq<Luck>, zip: Zip, n: nat)
    requires Deliverable(j, blocks, lucks) && n <= |blocks| && m in Created(j, blocks, lucks, zip)
    ensures Own(m, j.fileNum, blocks[..n], lucks[..n], zip) == Kept(m, j, disk, blocks, lucks, zip, n)
    decreases n
  {
    hide PathsApart, Follow, Misled, Reaching, FateAt, ResultAt, Plain;
    if n > 0 {
      OwnIsKept(m, j, disk, blocks, lucks, zip, n - 1);
      assert blocks[..n][..n - 1] == blocks[..n - 1] && lucks[..n][..n - 1] == lucks[..n - 1];
      FatePrefix(j.fileNum, blocks, lucks, zip, n, n - 1);
      AnswerTellsFate(j, disk, blocks, lucks, zip, n - 1);
      MisledIff(j, disk, blocks, lucks, zip, n - 1);
      if blocks[n - 1].fileNum == m {
        CreatedIsNotMisled(j, disk, blocks, lucks, zip, n - 1);
      }
    }
  }

  /** Every block of file m with bytes in it was accepted. */
  ghost predicate AllAccepted(m: int, j: Job, disk: Disk, blocks: seq<Block>, lucks: seq<Luck>, zip: Zip)
    requires |lucks| == |blocks|
  {
    forall i: nat :: i < |blocks| && blocks[i].fileNum == m && Plain(blocks[i], zip) != [] ==>
      ResultAt(j, disk, blocks, lucks, zip, i).Ok?
  }

  /** No block of another file put bytes into file m. */
  ghost predicate Clean(m: int, j: Job, blocks: seq<Block>, lucks: seq<Luck>, zip: Zip)
    requires |lucks| == |blocks|
  {
    forall i: nat :: i < |blocks| ==> !AstrayInto(j.fileNum, blocks, lucks, zip, i, m)
  }

  lemma {:induction false} WholeIffAccepted(j: Job, disk: Disk, blocks: seq<Block>, lucks: seq<Luck>, zip: Zip, i: nat)
    requires Deliverable(j, blocks, lucks) && i < |blocks|
    ensures Plain(blocks[i], zip) != [] ==>
              (Whole(j.fileNum, blocks, lucks, zip, i) <==>
               ResultAt(j, disk, blocks, lucks, zip, i).Ok? && !Misled(j, disk, blocks, lucks, zip, i))
  {
    hide PathsApart, Follow, Misled, Reaching, FateAt, ResultAt, Plain;
    AnswerTellsFate(j, disk, blocks, lucks, zip, i);
    MisledIff(j, disk, blocks, lucks, zip, i);
  }

  lemma {:induction false} OwnIsDataIff(m: int, j: Job, disk: Disk, blocks: seq<Block>, lucks: seq<Luck>, zip: Zip)
    requires Deliverable(j, blocks, lucks) && m in Created(j, blocks, lucks, zip)
    ensures Own(m, j.fileNum, blocks, lucks, zip) == Data(m, blocks, zip) <==>
            AllAccepted(m, j, disk, blocks, lucks, zip)
  {
    hide PathsApart, Follow, Misled, ResultAt, Plain, Own, Data, Created;
    OwnIffWhole(m, j.fileNum, blocks, lucks, zip);
    forall i: nat | i < |blocks| && blocks[i].fileNum == m && Plain(blocks[i], zip) != []
      ensures Whole(j.fileNum, blocks, lucks, zip, i) <==> ResultAt(j, disk, blocks, lucks, zip, i).Ok?
    {
      WholeIffAccepted(j, disk, blocks, lucks, zip, i);
      CreatedIsNotMisled(j, disk, blocks, lucks, zip, i);
    }
  }

  /**
   What a created file holds in the end. It is what its answers account for if and only if no other block put bytes
   into it, and that is all its bytes if and only if each of its blocks with bytes was accepted. If one of the two
   conditions holds, the file is complete and correct if and only if the other does as well.
   */
  lemma {:induction false} CreatedFileEnds(m: int, j: Job, disk: Disk, blocks: seq<Block>, lucks: seq<Luck>, zip: Zip)
    requires Deliverable(j, blocks, lucks) && m in Created(j, blocks, lucks, zip)
    ensures var final := FinalDisk(j, disk, blocks, lucks, zip);
            var kept := Kept(m, j, disk, blocks, lucks, zip, |blocks|);
            var accepted := AllAccepted(m, j, disk, blocks, lucks, zip);
            var clean := Clean(m, j, blocks, lucks, zip);
            && 0 <= m < |j.files| && j.PathOf(m) in final
            && (final[j.PathOf(m)] == kept <==> clean)
            && (kept == Data(m, blocks, zip) <==> accepted)
            && (clean || accepted ==> (final[j.PathOf(m)] == Data(m, blocks, zip) <==> clean && accepted))
  {
    hide PathsApart, DeliverWith, Follow, ModifyTimeStep, Misled, ResultAt, Plain, Own, Poured, Data, Kept, AstrayInto;
    var n := |blocks|;
    assert blocks[..n] == blocks && lucks[..n] == lucks;
    FaultyDelivery(j, disk, blocks, lucks, zip);
    FilesArePoured(j, blocks, lucks, zip, m);
    PouredIsOwn(m, j.fileNum, blocks, lucks, zip);
    OwnIsKept(m, j, disk, blocks, lucks, zip, n);
    OwnIsDataIff(m, j, disk, blocks, lucks, zip);
  }

  /** Nothing went astray: no misled block had bytes to write. */
  ghost predicate NothingAstray(j: Job, disk: Disk, blocks: seq<Block>, lucks: seq<Luck>, zip: Zip)
    requires |lucks| == |blocks|
  {
    forall i: nat :: i < |blocks| && Misled(j, disk, blocks, lucks, zip, i) ==>
      Reaching(blocks[i], lucks[i], zip) == []
  }

  ghost predicate CreatedAccepted(j: Job, disk: Disk, blocks: seq<Block>, lucks: seq<Luck>, zip: Zip)
    requires |lucks| == |blocks|
  {
    forall m :: m in Created(j, blocks, lucks, zip) ==> AllAccepted(m, j, disk, blocks, lucks, zip)
  }

  ghost predicate CreatedComplete(j: Job, disk: Disk, blocks: seq<Block>, lucks: seq<Luck>, zip: Zip)
    requires |lucks| == |blocks|
  {
    var final := FinalDisk(j, disk, blocks, lucks, zip);
    forall m :: m in Created(j, blocks, lucks, zip) && 0 <= m < |j.files| ==>
      j.PathOf(m) in final && final[j.PathOf(m)] == Data(m, blocks, zip)
  }

  lemma {:induction false} CleanIff(j: Job, disk: Disk, blocks: seq<Block>, lucks: seq<Luck>, zip: Zip)
    requires Deliverable(j, blocks, lucks)
    ensures NothingAstray(j, disk, blocks, lucks, zip) <==>
            forall m :: m in Created(j, blocks, lucks, zip) ==> Clean(m, j, blocks, lucks, zip)
  {
    hide PathsApart, Follow, Misled, Reaching, FateAt, Poured, Own;
    forall i: nat | i < |blocks|
      ensures Astray(j.fileNum, blocks, lucks, zip, i) <==>
              Reaching(blocks[i], lucks[i], zip) != [] && Misled(j, disk, blocks, lucks, zip, i)
    {
      AstrayIffAfterCreateError(j, disk, blocks, lucks, zip, i);
    }
    if i: nat :| i < |blocks| && Astray(j.fileNum, blocks, lucks, zip, i) {
      var k := FateAt(j.fileNum, blocks, lucks, zip, i).k;
      assert AstrayInto(j.fileNum, blocks, lucks, zip, i, k);
      PouredIsOwn(k, j.fileNum, blocks, lucks, zip);
      FilesArePoured(j, blocks, lucks, zip, k);
      assert k in Created(j, blocks, lucks, zip);
    }
  }

  /**
   In the answers alone: if nothing went astray or every block of the created files was accepted, then all created
   files are complete and correct if and only if both hold.
   */
  lemma {:induction false} CompleteIffAnswered(j: Job, disk: Disk, blocks: seq<Block>, lucks: seq<Luck>, zip: Zip)
    requires Deliverable(j, blocks, lucks)
    ensures NothingAstray(j, disk, blocks, lucks, zip) || CreatedAccepted(j, disk, blocks, lucks, zip) ==>
              (CreatedComplete(j, disk, blocks, lucks, zip) <==>
               NothingAstray(j, disk, blocks, lucks, zip) && CreatedAccepted(j, disk, blocks, lucks, zip))
  {
    hide PathsApart, FinalDisk, Created, NothingAstray, Clean, AllAccepted, Data;
    CleanIff(j, disk, blocks, lucks, zip);
    forall m | m in Created(j, blocks, lucks, zip)
      ensures var final := FinalDisk(j, disk, blocks, lucks, zip);
              var accepted := AllAccepted(m, j, disk, blocks, lucks, zip);
              var clean := Clean(m, j, blocks, lucks, zip);
              && 0 <= m < |j.files| && j.PathOf(m) in final
              && (clean || accepted ==> (final[j.PathOf(m)] == Data(m, blocks, zip) <==> clean && accepted))
    {
      CreatedFileEnds(m, j, disk, blocks, lucks, zip);
    }
  }

  // ----- when both conditions fail -----

  /**
   With a cut-off block and a stray one the file comes out right exactly if the stray byte happens to fill the gap. The
   answers are the same either way, so they alone do not tell.
   */
  lemma {:induction false} StrayFillsGap(j: Job, disk: Disk, zip: Zip, x: byte, y: byte, z: byte, lost: byte)
    requires PathsApart(j) && Fresh(j) && j.fileNum == 0 && |j.files| >= 2
    ensures var blocks := [Block(j.id, 0, [x, y], false), Block(j.id, 1, [lost], false), Block(j.id, 1, [z], false)];
            var lucks := [WriteFails(1), CreateFails, Fine];
            var final := FinalDisk(j, disk, blocks, lucks, zip);
            && j.PathOf(0) in final && (final[j.PathOf(0)] == Data(0, blocks, zip) <==> y == z)
            && ResultAt(j, disk, blocks, lucks, zip, 0) == Err(DiskError)
            && ResultAt(j, disk, blocks, lucks, zip, 1) == Err(CreateError)
            && ResultAt(j, disk, blocks, lucks, zip, 2) == Ok(())
            && Misled(j, disk, blocks, lucks, zip, 2)
  {
    var b0, b1, b2 := Block(j.id, 0, [x, y], false), Block(j.id, 1, [lost], false), Block(j.id, 1, [z], false);
    var blocks, lucks := [b0, b1, b2], [WriteFails(1), CreateFails, Fine];
    GapCourse(j.id, zip, x, y, z, lost);
    hide PathsApart, Follow, FateAt, FateOf, ResultAt, OpenAt, DeliverWith, ModifyTimeStep, Misled, CourseStep;
    assert ForJob(j, blocks) && Ordered(blocks);
    FaultyDelivery(j, disk, blocks, lucks, zip);
    Observed(j, disk, blocks, lucks, zip, 0);
    Observed(j, disk, blocks, lucks, zip, 1);
    Observed(j, disk, blocks, lucks, zip, 2);
    MisledIff(j, disk, blocks, lucks, zip, 2);
    GapData(j.id, zip, x, y, z, lost);
    assert [x, z] == [x, y] <==> [x, z][1] == [x, y][1];
  }

  lemma {:induction false} GapData(id: int, zip: Zip, x: byte, y: byte, z: byte, lost: byte)
    ensures var blocks := [Block(id, 0, [x, y], false), Block(id, 1, [lost], false), Block(id, 1, [z], false)];
            Data(0, blocks, zip) == [x, y]
  {
    var b0, b1, b2 := Block(id, 0, [x, y], false), Block(id, 1, [lost], false), Block(id, 1, [z], false);
    hide Data;
    DataSnoc(0, [], b0, zip);
    DataSnoc(0, [b0], b1, zip);
    DataSnoc(0, [b0, b1], b2, zip);
    NoData(0, zip);
    assert [] + [b0] == [b0] && [b0] + [b1] == [b0, b1] && [b0, b1] + [b2] == [b0, b1, b2];
  }

  lemma {:induction false} GapCourse(id: int, zip: Zip, x: byte, y: byte, z: byte, lost: byte)
    ensures var blocks := [Block(id, 0, [x, y], false), Block(id, 1, [lost], false), Block(id, 1, [z], false)];
            var lucks := [WriteFails(1), CreateFails, Fine];
            && Follow(0, blocks[..0], lucks[..0], zip) == Course(0, None, false, map[])
            && Follow(0, blocks[..1], lucks[..1], zip) == Course(0, Some(0), false, map[0 := [x]])
            && Follow(0, blocks[..2], lucks[..2], zip) == Course(1, Some(0), true, map[0 := [x]])
            && Follow(0, blocks, lucks, zip) == Course(1, Some(0), true, map[0 := [x, z]])
            && FateAt(0, blocks, lucks, zip, 2) == Into(0, [z])
  {
    var b0, b1, b2 := Block(id, 0, [x, y], false), Block(id, 1, [lost], false), Block(id, 1, [z], false);
    var blocks, lucks := [b0, b1, b2], [WriteFails(1), CreateFails, Fine];
    assert blocks[..3] == blocks && lucks[..3] == lucks;
    FollowStep(0, blocks, lucks, zip, 0);
    FollowStep(0, blocks, lucks, zip, 1);
    FollowStep(0, blocks, lucks, zip, 2);
    assert Follow(0, blocks[..0], lucks[..0], zip) == Course(0, None, false, map[]);
    hide Follow;
    assert [x, y][..1] == [x];
    assert Follow(0, blocks[..1], lucks[..1], zip) == Course(0, Some(0), false, map[0 := [x]]);
    assert Follow(0, blocks[..2], lucks[..2], zip) == Course(1, Some(0), true, map[0 := [x]]);
    assert [x] + [z] == [x, z];
  }
}
