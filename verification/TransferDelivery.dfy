/**
 What a receiver's disk holds after it has written the blocks of any run of a sender
 (libs/hbb_common/src/fs.rs).
 */
module TransferDelivery {
  import opened Basics
  import opened Transfer
  import opened TransferHandshake

  // ----- the bytes of one file inside a block list -----

  /** The plain bytes of all blocks of file k, in order. */
  function Data(k: int, blocks: seq<Block>, zip: Zip): seq<byte> {
    if blocks == [] then []
    else
      var b := blocks[|blocks| - 1];
      Data(k, blocks[..|blocks| - 1], zip) + (if b.fileNum == k then Plain(b, zip) else [])
  }

  predicate Touched(k: int, blocks: seq<Block>) {
    exists i :: 0 <= i < |blocks| && blocks[i].fileNum == k
  }

  lemma {:induction false} TouchedSnoc(k: int, blocks: seq<Block>, b: Block)
    ensures Touched(k, blocks + [b]) <==> Touched(k, blocks) || b.fileNum == k
  {
    var all := blocks + [b];
    if Touched(k, blocks) {
      var i :| 0 <= i < |blocks| && blocks[i].fileNum == k;
      assert all[i].fileNum == k;
    }
    if b.fileNum == k {
      assert all[|blocks|].fileNum == k;
    }
    if Touched(k, all) {
      var i :| 0 <= i < |all| && all[i].fileNum == k;
      assert i < |blocks| ==> blocks[i].fileNum == k;
    }
  }

  lemma {:induction false} DataSnoc(k: int, blocks: seq<Block>, b: Block, zip: Zip)
    ensures Data(k, blocks + [b], zip) == Data(k, blocks, zip) + (if b.fileNum == k then Plain(b, zip) else [])
  {
    assert (blocks + [b])[..|blocks|] == blocks;
  }

  lemma {:induction false} DataUntouched(k: int, blocks: seq<Block>, zip: Zip)
    requires !Touched(k, blocks)
    ensures Data(k, blocks, zip) == []
  {
    if blocks != [] {
      var init, b := blocks[..|blocks| - 1], blocks[|blocks| - 1];
      assert blocks == init + [b];
      TouchedSnoc(k, init, b);
      DataUntouched(k, init, zip);
    }
  }

  ghost predicate Ordered(blocks: seq<Block>) {
    forall a, b :: 0 <= a < b < |blocks| ==> blocks[a].fileNum <= blocks[b].fileNum
  }

  ghost predicate ForJob(j: Job, blocks: seq<Block>) {
    forall i :: 0 <= i < |blocks| ==> blocks[i].id == j.id && 0 <= blocks[i].fileNum < |j.files|
  }

  /** The blocks that are for this job and for a file of its list. */
  function Meant(j: Job, blocks: seq<Block>): seq<Block> {
    if blocks == [] then []
    else
      var b := blocks[|blocks| - 1];
      Meant(j, blocks[..|blocks| - 1]) + (if b.id == j.id && 0 <= b.fileNum < |j.files| then [b] else [])
  }

  lemma {:induction false} SwitchKeepsJob(j: Job, disk: Disk, k: int, luck: Luck)
    requires 0 <= k < |j.files|
    ensures var (j', _, r) := SwitchStep(j, disk, k, luck);
            SameJob(j, j') && (r.Err? ==> r.error == SyncError || r.error == CreateError)
  {
    hide Rename;
  }

  lemma {:induction false} AppendKeepsJob(j: Job, disk: Disk, b: Block, luck: Luck, zip: Zip)
    ensures var (j', _, r) := Append(j, disk, b, luck, zip);
            SameJob(j, j') && (r.Err? ==> r.error == DiskError)
  {
    hide AppendTo, Reaching;
  }

  /** A block for another job or outside the list is refused with an error of its own and changes nothing. */
  lemma {:induction false} StrangersRefused(j: Job, disk: Disk, b: Block, luck: Luck, zip: Zip)
    ensures var (j', disk', r) := WriteStep(j, disk, b, luck, zip);
            && SameJob(j, j')
            && (r == Err(WrongId) <==> b.id != j.id)
            && (r == Err(WrongFileNumber) <==> b.id == j.id && !(0 <= b.fileNum < |j.files|))
            && (r == Err(WrongId) || r == Err(WrongFileNumber) ==> j' == j && disk' == disk)
  {
    hide Append, SwitchStep;
    if b.id == j.id && 0 <= b.fileNum < |j.files| {
      if b.fileNum != j.fileNum || j.file == None {
        SwitchKeepsJob(j, disk, b.fileNum, luck);
        var (j1, disk1, _) := SwitchStep(j, disk, b.fileNum, luck);
        AppendKeepsJob(j1, disk1, b, luck, zip);
      } else {
        AppendKeepsJob(j, disk, b, luck, zip);
      }
    }
  }

  /** So a delivery goes as if these blocks had never come. */
  lemma {:induction false} StrangersIgnored(j: Job, disk: Disk, blocks: seq<Block>, zip: Zip)
    ensures Deliver(j, disk, blocks, zip) == Deliver(j, disk, Meant(j, blocks), zip)
    ensures SameJob(j, Deliver(j, disk, blocks, zip).0)
    decreases |blocks|
  {
    hide WriteStep;
    if blocks != [] {
      var init, b := blocks[..|blocks| - 1], blocks[|blocks| - 1];
      StrangersIgnored(j, disk, init, zip);
      var (j1, disk1) := Deliver(j, disk, init, zip);
      StrangersRefused(j1, disk1, b, Fine, zip);
      var meant := Meant(j, init);
      assert (meant + [b])[..|meant|] == meant && meant + [] == meant;
    }
  }

  // ----- the receiver -----

  /** Final paths are distinct and none is the download path of another file. */
  ghost predicate PathsApart(j: Job) {
    && (forall a, b :: 0 <= a < |j.files| && 0 <= b < |j.files| && a != b ==> j.PathOf(a) != j.PathOf(b))
    && (forall a, b :: 0 <= a < |j.files| && 0 <= b < |j.files| ==> j.PathOf(a) != j.DownloadOf(b))
  }

  lemma {:induction false} DownloadsApart(j: Job, a: int, b: int)
    requires PathsApart(j) && 0 <= a < |j.files| && 0 <= b < |j.files| && a != b
    ensures j.DownloadOf(a) != j.DownloadOf(b)
  {
    var p, q := j.PathOf(a), j.PathOf(b);
    assert p == (p + DOWNLOAD)[..|p + DOWNLOAD| - |DOWNLOAD|];
    assert q == (q + DOWNLOAD)[..|q + DOWNLOAD| - |DOWNLOAD|];
  }

  predicate SameAt(d1: Disk, d2: Disk, name: string) {
    (name in d1 <==> name in d2) && (name in d1 ==> d1[name] == d2[name])
  }

  /**
   A rename moves one file over another name. A handle follows the file it was opened for: to the new name, or to no
   name at all if that file was the one overwritten.
   */
  lemma {:induction false} RenameTells(disk: Disk, file: Option<OpenFile>, from: string, to: string)
    requires from != to
    ensures var (disk', file') := Rename(disk, file, from, to);
            && (from !in disk ==> disk' == disk && file' == file)
            && (from in disk ==>
                  && from !in disk' && to in disk' && disk'[to] == disk[from]
                  && (forall name :: name != from && name != to ==> SameAt(disk, disk', name))
                  && (file == Some(Writer(from)) ==> file' == Some(Writer(to)))
                  && (file == Some(Writer(to)) ==> file' == Some(Unlinked))
                  && (file != Some(Writer(from)) && file != Some(Writer(to)) ==> file' == file))
  {
  }

  /** `name` is neither the final nor the download path of a file that got a block. */
  ghost predicate Outside(j: Job, blocks: seq<Block>, name: string) {
    forall k :: 0 <= k < |j.files| && Touched(k, blocks) ==> name != j.PathOf(k) && name != j.DownloadOf(k)
  }

  /** File k is installed with exactly the bytes of its blocks. */
  ghost predicate Installed(j: Job, disk: Disk, blocks: seq<Block>, k: int, zip: Zip)
    requires 0 <= k < |j.files|
  {
    j.PathOf(k) in disk && disk[j.PathOf(k)] == Data(k, blocks, zip) && j.DownloadOf(k) !in disk
  }

  /** Exactly the files that got blocks are installed; everything else is as it was. */
  ghost predicate Delivered(j: Job, before: Disk, after: Disk, blocks: seq<Block>, zip: Zip) {
    && (forall k :: 0 <= k < |j.files| && Touched(k, blocks) ==> Installed(j, after, blocks, k, zip))
    && (forall name :: Outside(j, blocks, name) ==> SameAt(before, after, name))
  }

  /** The receiver between two blocks: file `k` is being downloaded, earlier ones are installed. */
  ghost predicate Receiving(j0: Job, before: Disk, j: Job, disk: Disk, blocks: seq<Block>, k: int, zip: Zip) {
    && SameJob(j0, j) && j.fileNum == k && 0 <= k < |j0.files|
    && j.file == Some(Writer(j0.DownloadOf(k)))
    && Touched(k, blocks)
    && j0.DownloadOf(k) in disk && disk[j0.DownloadOf(k)] == Data(k, blocks, zip)
    && SameAt(before, disk, j0.PathOf(k))
    && (forall m :: 0 <= m < |j0.files| && m != k && Touched(m, blocks) ==> Installed(j0, disk, blocks, m, zip))
    && (forall name :: Outside(j0, blocks, name) ==> SameAt(before, disk, name))
  }

  /** The rename of the open download installs it. */
  lemma {:induction false} RenameInstalls(j0: Job, before: Disk, j: Job, disk: Disk, blocks: seq<Block>, k: int,
                                          zip: Zip)
    requires PathsApart(j0) && Receiving(j0, before, j, disk, blocks, k, zip)
    ensures var (j', disk') := ModifyTimeStep(j, disk);
            Delivered(j0, before, disk', blocks, zip)
  {
    var disk' := ModifyTimeStep(j, disk).1;
    assert disk' == (disk - {j0.DownloadOf(k)})[j0.PathOf(k) := disk[j0.DownloadOf(k)]];
    forall m | 0 <= m < |j0.files| && Touched(m, blocks)
      ensures Installed(j0, disk', blocks, m, zip)
    {
      if m != k {
        assert Installed(j0, disk, blocks, m, zip);
        DownloadsApart(j0, m, k);
      }
    }
  }

  lemma {:induction false} SameFileBlock(j0: Job, before: Disk, j: Job, disk: Disk, blocks: seq<Block>, b: Block,
                                         zip: Zip)
    requires PathsApart(j0) && Receiving(j0, before, j, disk, blocks, b.fileNum, zip)
    requires b.id == j0.id
    ensures var (j', disk', r) := WriteStep(j, disk, b, Fine, zip);
            r == Ok(()) && Receiving(j0, before, j', disk', blocks + [b], b.fileNum, zip)
  {
    var (j', disk', r) := WriteStep(j, disk, b, Fine, zip);
    var k, all := b.fileNum, blocks + [b];
    var dl := j0.DownloadOf(k);
    assert disk' == disk[dl := disk[dl] + Plain(b, zip)];
    DataSnoc(k, blocks, b, zip);
    TouchedSnoc(k, blocks, b);
    forall m | 0 <= m < |j0.files| && m != k && Touched(m, all)
      ensures Installed(j0, disk', all, m, zip)
    {
      TouchedSnoc(m, blocks, b);
      DataSnoc(m, blocks, b, zip);
      DownloadsApart(j0, m, k);
      assert Installed(j0, disk, blocks, m, zip);
    }
    forall name | Outside(j0, all, name)
      ensures SameAt(before, disk', name)
    {
      OutsideSnoc(j0, blocks, b, name);
    }
  }

  lemma {:induction false} OutsideSnoc(j: Job, blocks: seq<Block>, b: Block, name: string)
    requires Outside(j, blocks + [b], name) && 0 <= b.fileNum < |j.files|
    ensures Outside(j, blocks, name) && name != j.PathOf(b.fileNum) && name != j.DownloadOf(b.fileNum)
  {
    forall k | 0 <= k < |j.files| && Touched(k, blocks)
      ensures name != j.PathOf(k) && name != j.DownloadOf(k)
    {
      TouchedSnoc(k, blocks, b);
    }
    TouchedSnoc(b.fileNum, blocks, b);
  }

  /** A first block of a new file, on a disk where everything before it is installed. */
  lemma {:induction false} NewFileBlock(j0: Job, before: Disk, j: Job, disk: Disk, blocks: seq<Block>, b: Block,
                                        zip: Zip)
    requires PathsApart(j0) && SameJob(j0, j)
    requires b.id == j0.id && 0 <= b.fileNum < |j0.files| && !Touched(b.fileNum, blocks)
    requires b.fileNum != j.fileNum || j.file == None
    requires Delivered(j0, before, ModifyTimeStep(j, disk).1, blocks, zip)
    ensures var (j', disk', r) := WriteStep(j, disk, b, Fine, zip);
            r == Ok(()) && Receiving(j0, before, j', disk', blocks + [b], b.fileNum, zip)
  {
    var (j', disk', r) := WriteStep(j, disk, b, Fine, zip);
    var mid := ModifyTimeStep(j, disk).1;
    var k, all := b.fileNum, blocks + [b];
    var dl := j0.DownloadOf(k);
    assert disk' == mid[dl := [] + Plain(b, zip)];
    DataSnoc(k, blocks, b, zip);
    DataUntouched(k, blocks, zip);
    TouchedSnoc(k, blocks, b);
    forall m | 0 <= m < |j0.files| && m != k && Touched(m, all)
      ensures Installed(j0, disk', all, m, zip)
    {
      TouchedSnoc(m, blocks, b);
      DataSnoc(m, blocks, b, zip);
      DownloadsApart(j0, m, k);
      assert Installed(j0, mid, blocks, m, zip);
    }
    forall name | Outside(j0, all, name)
      ensures SameAt(before, disk', name)
    {
      OutsideSnoc(j0, blocks, b, name);
    }
    assert Outside(j0, blocks, j0.PathOf(k));
  }

  /** The rename that the first block triggers, seen from the receiver's first state. */
  function FirstDisk(j: Job, disk: Disk): Disk {
    ModifyTimeStep(j, disk).1
  }

  lemma {:induction false} DeliverKeepsReceiving(j: Job, disk: Disk, blocks: seq<Block>, zip: Zip)
    requires PathsApart(j) && j.file == None
    requires blocks != [] && ForJob(j, blocks) && Ordered(blocks)
    ensures var (j', disk') := Deliver(j, disk, blocks, zip);
            Receiving(j, FirstDisk(j, disk), j', disk', blocks, blocks[|blocks| - 1].fileNum, zip)
    decreases |blocks|
  {
    var init, b := blocks[..|blocks| - 1], blocks[|blocks| - 1];
    assert blocks == init + [b];
    var before := FirstDisk(j, disk);
    var (j1, disk1) := Deliver(j, disk, init, zip);
    if init == [] {
      assert Delivered(j, before, before, init, zip);
      NewFileBlock(j, before, j, disk, init, b, zip);
    } else {
      DeliverKeepsReceiving(j, disk, init, zip);
      var k := init[|init| - 1].fileNum;
      if k == b.fileNum {
        SameFileBlock(j, before, j1, disk1, init, b, zip);
      } else {
        RenameInstalls(j, before, j1, disk1, init, k, zip);
        assert !Touched(b.fileNum, init);
        NewFileBlock(j, before, j1, disk1, init, b, zip);
      }
    }
  }

  /** A leftover download of the job's first file that no block overwrites. */
  ghost predicate Stale(j: Job, disk: Disk, blocks: seq<Block>) {
    j.InRange() && j.DownloadOf(j.fileNum) in disk && !Touched(j.fileNum, blocks)
  }

  /**
   Writing any ordered list of blocks and finishing with `modify_time` installs exactly the files that
   got blocks, each with the bytes of its blocks, if and only if no leftover download of the first
   file is picked up on the way.
   */
  lemma {:induction false} ReceiverInstalls(j: Job, disk: Disk, blocks: seq<Block>, zip: Zip)
    requires PathsApart(j) && j.file == None
    requires ForJob(j, blocks) && Ordered(blocks)
    ensures var (j1, disk1) := Deliver(j, disk, blocks, zip);
            Delivered(j, disk, ModifyTimeStep(j1, disk1).1, blocks, zip) <==> !Stale(j, disk, blocks)
  {
    var (j1, disk1) := Deliver(j, disk, blocks, zip);
    var after, first := ModifyTimeStep(j1, disk1).1, FirstDisk(j, disk);
    if blocks != [] {
      DeliverKeepsReceiving(j, disk, blocks, zip);
      RenameInstalls(j, first, j1, disk1, blocks, blocks[|blocks| - 1].fileNum, zip);
    }
    assert Delivered(j, first, after, blocks, zip);
    if Stale(j, disk, blocks) {
      var name := j.DownloadOf(j.fileNum);
      forall k | 0 <= k < |j.files| && Touched(k, blocks)
        ensures name != j.PathOf(k) && name != j.DownloadOf(k)
      {
        DownloadsApart(j, k, j.fileNum);
      }
      assert Outside(j, blocks, name);
      assert name !in first && !SameAt(disk, after, name);
    } else {
      forall name | Outside(j, blocks, name)
        ensures SameAt(disk, after, name)
      {
        assert SameAt(first, after, name) && SameAt(disk, first, name);
      }
    }
  }

  // ----- the sender -----

  function Sum(sizes: seq<nat>): nat {
    if sizes == [] then 0 else Sum(sizes[..|sizes| - 1]) + sizes[|sizes| - 1]
  }

  /** The plain and the transmitted bytes of a list of blocks. */
  function PlainBytes(blocks: seq<Block>, zip: Zip): nat {
    if blocks == [] then 0
    else PlainBytes(blocks[..|blocks| - 1], zip) + |Plain(blocks[|blocks| - 1], zip)|
  }

  function SentBytes(blocks: seq<Block>): nat {
    if blocks == [] then 0 else SentBytes(blocks[..|blocks| - 1]) + |blocks[|blocks| - 1].data|
  }

  lemma {:induction false} BytesSnoc(blocks: seq<Block>, b: Block, zip: Zip)
    ensures PlainBytes(blocks + [b], zip) == PlainBytes(blocks, zip) + |Plain(b, zip)|
    ensures SentBytes(blocks + [b]) == SentBytes(blocks) + |b.data|
  {
    assert (blocks + [b])[..|blocks|] == blocks;
  }

  lemma {:induction false} BlocksSnoc(log: seq<Event>, e: Event)
    ensures Blocks(log + [e]) == Blocks(log) + (if e.BlockOut? then [e.block] else [])
  {
    assert (log + [e])[..|log|] == log;
  }

  /** Bytes that identify file k at the sender. */
  predicate HasSource(j: Job, src: Disk, k: int) {
    0 <= k < |j.files| && j.PathOf(k) in src
  }

  function Source(j: Job, src: Disk, k: int): seq<byte>
    requires HasSource(j, src, k)
  {
    src[j.PathOf(k)]
  }

  /** The blocks of the finished part of a run: ordered, of this job, and all below `limit`. */
  ghost predicate GoodBlocks(j: Job, blocks: seq<Block>, limit: int) {
    && ForJob(j, blocks) && Ordered(blocks)
    && (forall i :: 0 <= i < |blocks| ==> blocks[i].fileNum < limit)
  }

  /** Every file that got blocks exists, and its blocks hold a prefix of it. */
  ghost predicate PrefixesSent(j: Job, src: Disk, blocks: seq<Block>, zip: Zip) {
    forall k :: Touched(k, blocks) ==> HasSource(j, src, k) && Data(k, blocks, zip) <= Source(j, src, k)
  }

  /** Every file whose end was announced was sent whole. */
  ghost predicate ClosedComplete(j: Job, src: Disk, log: seq<Event>, limit: int, zip: Zip) {
    forall k :: Closed(k) in log ==>
      k < limit && HasSource(j, src, k) && Touched(k, Blocks(log)) && Data(k, Blocks(log), zip) == Source(j, src, k)
  }

  ghost predicate Counted(j0: Job, j: Job, blocks: seq<Block>, zip: Zip) {
    && j.finishedSize == j0.finishedSize + PlainBytes(blocks, zip)
    && j.transferred == j0.transferred + SentBytes(blocks)
    && SentBytes(blocks) <= PlainBytes(blocks, zip)
  }

  /** The open file is a reader that stands right behind what was sent of it. */
  ghost predicate OpenFileSent(j0: Job, k: int, file: OpenFile, src: Disk, blocks: seq<Block>, zip: Zip) {
    && HasSource(j0, src, k) && file.Reader?
    && file.content == Source(j0, src, k)
    && file.pos <= |file.content|
    && Data(k, blocks, zip) == file.content[..file.pos]
  }

  /** What every state of a run keeps; `j0` is the job at its start. */
  ghost predicate Sending(j0: Job, j: Job, log: seq<Event>, src: Disk, zip: Zip) {
    var blocks := Blocks(log);
    && SameJob(j0, j)
    && GoodBlocks(j0, blocks, if j.file.Some? then j.fileNum + 1 else j.fileNum)
    && PrefixesSent(j0, src, blocks, zip)
    && ClosedComplete(j0, src, log, j.fileNum, zip)
    && (j.file.Some? ==> OpenFileSent(j0, j.fileNum, j.file.value, src, blocks, zip))
    && Counted(j0, j, blocks, zip)
  }

  lemma {:induction false} NoBlocks(log: seq<Event>, more: seq<Event>)
    requires forall e <- more :: !e.BlockOut?
    ensures Blocks(log + more) == Blocks(log)
  {
    if more == [] {
      assert log + more == log;
    } else {
      var init := more[..|more| - 1];
      NoBlocks(log, init);
      assert log + more == (log + init) + [more[|more| - 1]];
      BlocksSnoc(log + init, more[|more| - 1]);
    }
  }

  /** A step that emits no block and does not move the read position. */
  lemma {:induction false} QuietStep(j0: Job, j: Job, j': Job, log: seq<Event>, more: seq<Event>, src: Disk, zip: Zip)
    requires Sending(j0, j, log, src, zip) && SameJob(j, j')
    requires forall e <- more :: !e.BlockOut? && !e.Closed?
    requires j'.finishedSize == j.finishedSize && j'.transferred == j.transferred
    requires j'.fileNum >= j.fileNum
    requires j'.file == None ==> j.file == None || j'.fileNum > j.fileNum
    requires j'.file.Some? ==> j'.fileNum == j.fileNum
    requires j'.file.Some? && j'.file != j.file ==>
               j.file == None && HasSource(j, src, j.fileNum) && j'.file == Some(Reader(Source(j, src, j.fileNum), 0))
    ensures Sending(j0, j', log + more, src, zip)
  {
    NoBlocks(log, more);
    assert forall k :: Closed(k) in log + more ==> Closed(k) in log;
    if j.file == None && j'.file.Some? {
      assert !Touched(j.fileNum, Blocks(log));
      DataUntouched(j.fileNum, Blocks(log), zip);
    }
  }

  lemma {:induction false} PackedChunk(j: Job, chunk: seq<byte>, zip: Zip)
    requires Lossless(zip) && j.InRange()
    ensures var b := Pack(j, chunk, zip);
            b.id == j.id && b.fileNum == j.fileNum && Plain(b, zip) == chunk && |b.data| <= |chunk|
  {
    hide Ext;
  }

  /** The block is compressed exactly if its file may be and that makes the bytes fewer. */
  ghost predicate Packed(j: Job, b: Block, zip: Zip) {
    && b.id == j.id && 0 <= b.fileNum < |j.files|
    && var small := zip.compress(Plain(b, zip));
       && (b.compressed <==> !KeptPlain(j.files[b.fileNum]) && |small| < |Plain(b, zip)|)
       && b.data == if b.compressed then small else Plain(b, zip)
  }

  lemma {:induction false} ReadPacks(j: Job, env: ReadEnv, disk: Disk, zip: Zip)
    requires Lossless(zip)
    ensures forall b :: BlockOut(b) in ReadStep(j, env, disk, zip).log ==> Packed(j, b, zip)
  {
    hide Ext, KeptPlain;
    if j.InRange() {
      KeptPlainIff(j.files[j.fileNum]);
    }
  }

  /** In every run each block is packed so: compressed unless its ending forbids it or that would save nothing. */
  lemma {:induction false} BlocksArePacked(s: Job, acts: seq<Action>, disk: Disk, zip: Zip)
    requires Lossless(zip)
    ensures forall b :: BlockOut(b) in Run(s, acts, disk, zip).1 ==> Packed(s, b, zip)
    ensures SameJob(s, Run(s, acts, disk, zip).0)
    decreases |acts|
  {
    hide ReadStep, Packed, Lossless;
    if acts != [] {
      var init, a := acts[..|acts| - 1], acts[|acts| - 1];
      BlocksArePacked(s, init, disk, zip);
      var j := Run(s, init, disk, zip).0;
      ActMonotone(j, a, disk, zip);
      if a.DoRead? {
        ReadPacks(j, a.env, disk, zip);
        forall b | Packed(j, b, zip)
          ensures Packed(s, b, zip)
        {
          PackedForSame(s, j, b, zip);
        }
      }
    }
  }

  lemma {:induction false} PackedForSame(j: Job, j': Job, b: Block, zip: Zip)
    requires SameJob(j, j') && Packed(j', b, zip)
    ensures Packed(j, b, zip)
  {
  }

  /** One more block of the open file: what it changes for the other files, which is nothing. */
  lemma {:induction false} BlockKeepsOthers(j0: Job, log: seq<Event>, b: Block, src: Disk, zip: Zip)
    requires PrefixesSent(j0, src, Blocks(log), zip) && ClosedComplete(j0, src, log, b.fileNum, zip)
    requires HasSource(j0, src, b.fileNum) && Data(b.fileNum, Blocks(log) + [b], zip) <= Source(j0, src, b.fileNum)
    ensures Blocks(log + [BlockOut(b)]) == Blocks(log) + [b]
    ensures PrefixesSent(j0, src, Blocks(log) + [b], zip)
    ensures ClosedComplete(j0, src, log + [BlockOut(b)], b.fileNum, zip)
    ensures Touched(b.fileNum, Blocks(log) + [b])
  {
    var blocks := Blocks(log);
    BlocksSnoc(log, BlockOut(b));
    TouchedSnoc(b.fileNum, blocks, b);
    forall m | Touched(m, blocks + [b])
      ensures HasSource(j0, src, m) && Data(m, blocks + [b], zip) <= Source(j0, src, m)
    {
      TouchedSnoc(m, blocks, b);
      DataSnoc(m, blocks, b, zip);
    }
    forall m | Closed(m) in log + [BlockOut(b)]
      ensures m < b.fileNum && HasSource(j0, src, m) && Touched(m, blocks + [b])
      ensures Data(m, blocks + [b], zip) == Source(j0, src, m)
    {
      assert Closed(m) in log;
      TouchedSnoc(m, blocks, b);
      DataSnoc(m, blocks, b, zip);
    }
  }

  lemma {:induction false} GoodBlocksSnoc(j0: Job, blocks: seq<Block>, b: Block)
    requires GoodBlocks(j0, blocks, b.fileNum + 1) && b.id == j0.id && 0 <= b.fileNum < |j0.files|
    ensures GoodBlocks(j0, blocks + [b], b.fileNum + 1)
  {
  }

  /** The job after a block, while its file stays open. */
  lemma {:induction false} SendChunk(j0: Job, j: Job, log: seq<Event>, b: Block, end: nat, src: Disk, zip: Zip)
    requires Sending(j0, j, log, src, zip) && j.file.Some?
    requires j.file.value.pos <= end <= |j.file.value.content|
    requires b.id == j.id && b.fileNum == j.fileNum
    requires Plain(b, zip) == j.file.value.content[j.file.value.pos..end] && |b.data| <= |Plain(b, zip)|
    ensures Sending(j0, AfterBlock(j, end, b), log + [BlockOut(b)], src, zip)
  {
    hide PrefixesSent, ClosedComplete, GoodBlocks, Data, PlainBytes, SentBytes, Plain, Blocks;
    assert HasSource(j0, src, j.fileNum);
    var k, blocks, content := j.fileNum, Blocks(log), j.file.value.content;
    BytesSnoc(blocks, b, zip);
    DataSnoc(k, blocks, b, zip);
    assert content[..j.file.value.pos] + Plain(b, zip) == content[..end];
    BlockKeepsOthers(j0, log, b, src, zip);
    GoodBlocksSnoc(j0, blocks, b);
  }

  /** The empty block at the end of the file closes it. */
  lemma {:induction false} SendEnd(j0: Job, j: Job, log: seq<Event>, src: Disk, zip: Zip)
    requires Sending(j0, j, log, src, zip) && j.file.Some?
    requires j.file.value.pos == |j.file.value.content|
    ensures var b := Block(j.id, j.fileNum, [], false);
            Sending(j0, j.Advance(), log + [BlockOut(b), Closed(j.fileNum)], src, zip)
  {
    var b := Block(j.id, j.fileNum, [], false);
    var k, pos := j.fileNum, j.file.value.pos;
    var log1 := log + [BlockOut(b)];
    SendChunk(j0, j, log, b, pos, src, zip);
    assert Data(k, Blocks(log1), zip) == Source(j0, src, k) by {
      assert j.file.value.content[..pos] == j.file.value.content;
    }
    DataSnoc(k, Blocks(log), b, zip);
    BlockKeepsOthers(j0, log, b, src, zip);
    BlocksSnoc(log1, Closed(k));
    assert log + [BlockOut(b), Closed(k)] == log1 + [Closed(k)];
    hide PrefixesSent, Data, PlainBytes, SentBytes, Plain, Blocks;
    forall m | Closed(m) in log1 + [Closed(k)]
      ensures m < k + 1 && HasSource(j0, src, m) && Touched(m, Blocks(log1))
      ensures Data(m, Blocks(log1), zip) == Source(j0, src, m)
    {
      assert m == k || Closed(m) in log1;
    }
    var all, j' := log1 + [Closed(k)], j.Advance();
    assert Blocks(all) == Blocks(log1) + [] == Blocks(log1);
    assert ClosedComplete(j0, src, all, j'.fileNum, zip) && GoodBlocks(j0, Blocks(all), j'.fileNum);
    assert Sending(j0, j', all, src, zip);
  }

  lemma {:induction false} QuietReadKeepsSending(j0: Job, j: Job, log: seq<Event>, env: ReadEnv, src: Disk, zip: Zip)
    requires Sending(j0, j, log, src, zip) && j.InRange() && j.file.Some?
    requires (j.detect && !j.confirmed) || !env.ioOk
    ensures var r := ReadOpen(j, env, zip);
            Sending(j0, r.job, log + r.log, src, zip)
  {
    hide Sending, SameJob, HasSource;
    OpenReadMonotone(j, env, zip);
    var r := ReadOpen(j, env, zip);
    QuietStep(j0, j, r.job, log, r.log, src, zip);
  }

  lemma {:induction false} ReadMoreKeepsSending(j0: Job, j: Job, log: seq<Event>, env: ReadEnv, src: Disk, zip: Zip)
    requires Lossless(zip) && Sending(j0, j, log, src, zip) && j.InRange() && j.file.Some?
    requires env.ioOk && j.file.value.Reader? && j.file.value.pos < |j.file.value.content|
    ensures var r := ReadChunk(j, env, zip);
            Sending(j0, r.job, log + r.log, src, zip)
  {
    var Reader(content, pos) := j.file.value;
    hide Sending, Pack, Plain, Lossless, AfterBlock;
    var end := Min(pos + BUF_SIZE, |content|);
    PackedChunk(j, content[pos..end], zip);
    SendChunk(j0, j, log, Pack(j, content[pos..end], zip), end, src, zip);
  }

  lemma {:induction false} OpenReadKeepsSending(j0: Job, j: Job, log: seq<Event>, env: ReadEnv, src: Disk, zip: Zip)
    requires Lossless(zip) && Sending(j0, j, log, src, zip) && j.InRange() && j.file.Some?
    ensures var r := ReadOpen(j, env, zip);
            Sending(j0, r.job, log + r.log, src, zip)
  {
    assert j.file.value.Reader? && j.file.value.pos <= |j.file.value.content|;
    hide Pack, Sending;
    if (j.detect && !j.confirmed) || !env.ioOk {
      QuietReadKeepsSending(j0, j, log, env, src, zip);
    } else if j.file.value.pos < |j.file.value.content| {
      hide ReadChunk;
      ReadMoreKeepsSending(j0, j, log, env, src, zip);
    } else {
      SendEnd(j0, j, log, src, zip);
    }
  }

  lemma {:induction false} ReadKeepsSending(j0: Job, j: Job, log: seq<Event>, env: ReadEnv, src: Disk, zip: Zip)
    requires Lossless(zip) && Sending(j0, j, log, src, zip)
    ensures var r := ReadStep(j, env, src, zip);
            Sending(j0, r.job, log + r.log, src, zip)
  {
    assert j.file.Some? ==> j.InRange();
    assert log + [] == log;
    hide ReadOpen, Sending;
    if j.InRange() && j.file.Some? {
      OpenReadKeepsSending(j0, j, log, env, src, zip);
    } else if j.InRange() && env.openOk && j.PathOf(j.fileNum) in src {
      OpeningKeepsSending(j0, j, log, env, src, zip);
    } else if j.InRange() {
      QuietStep(j0, j, j.Advance(), log, [OpenFailed(j.fileNum)], src, zip);
    }
  }

  lemma {:induction false} OpeningKeepsSending(j0: Job, j: Job, log: seq<Event>, env: ReadEnv, src: Disk, zip: Zip)
    requires Lossless(zip) && Sending(j0, j, log, src, zip)
    requires j.InRange() && j.file == None && env.openOk && j.PathOf(j.fileNum) in src
    ensures var r := ReadStep(j, env, src, zip);
            Sending(j0, r.job, log + r.log, src, zip)
  {
    hide ReadOpen, Sending;
    var j1 := j.(file := Some(Reader(src[j.PathOf(j.fileNum)], 0)), confirmed := false, waiting := false);
    QuietStep(j0, j, j1, log, [Opened(j.fileNum)], src, zip);
    OpenReadKeepsSending(j0, j1, log + [Opened(j.fileNum)], env, src, zip);
    var r1 := ReadOpen(j1, env, zip);
    assert log + ([Opened(j.fileNum)] + r1.log) == (log + [Opened(j.fileNum)]) + r1.log;
  }

  lemma {:induction false} ConfirmKeepsSending(j0: Job, j: Job, log: seq<Event>, request: ConfirmRequest, src: Disk,
                                               zip: Zip)
    requires Sending(j0, j, log, src, zip)
    ensures var (j', more) := ConfirmStep(j, request);
            Sending(j0, j', log + more, src, zip)
  {
    hide Sending;
    var (j', more) := ConfirmStep(j, request);
    QuietStep(j0, j, j', log, more, src, zip);
  }

  lemma {:induction false} RunKeepsSending(j0: Job, acts: seq<Action>, src: Disk, zip: Zip)
    requires Lossless(zip) && j0.file == None
    ensures var (j, log) := Run(j0, acts, src, zip);
            Sending(j0, j, log, src, zip)
    decreases |acts|
  {
    if acts == [] {
      assert Sending(j0, j0, [], src, zip);
    } else {
      var init, a := acts[..|acts| - 1], acts[|acts| - 1];
      hide ReadStep, ConfirmStep, Sending;
      RunKeepsSending(j0, init, src, zip);
      var (j1, log) := Run(j0, init, src, zip);
      match a
      case DoRead(env) => ReadKeepsSending(j0, j1, log, env, src, zip);
      case DoConfirm(request) => ConfirmKeepsSending(j0, j1, log, request, src, zip);
    }
  }

  // ----- end to end -----

  /**
   Transfer fidelity. Take any run of a fresh sender, deliver its blocks in order to a fresh receiver for
   the same list and finish with `modify_time`. Provided no leftover download of the first file is picked
   up, the receiver holds a prefix of every file that got blocks, the whole file when its end was
   announced, and nothing else on its disk has changed. Both sides count the same bytes.
   */
  lemma {:induction false} TransferFidelity(s: Job, acts: seq<Action>, src: Disk, r: Job, dst: Disk, zip: Zip)
    requires Lossless(zip) && Fresh(s) && Fresh(r) && r.id == s.id && r.files == s.files
    requires PathsApart(r)
    requires !Stale(r, dst, Blocks(Run(s, acts, src, zip).1))
    ensures var (s1, log) := Run(s, acts, src, zip);
            var (r1, dst1) := Deliver(r, dst, Blocks(log), zip);
            var final := ModifyTimeStep(r1, dst1).1;
            && (forall k :: 0 <= k < |s.files| && Touched(k, Blocks(log)) ==>
                  && r.PathOf(k) in final && r.PathOf(k) + ".download" !in final
                  && HasSource(s, src, k) && final[r.PathOf(k)] <= Source(s, src, k))
            && (forall k :: Closed(k) in log ==>
                  HasSource(s, src, k) && r.PathOf(k) in final && final[r.PathOf(k)] == Source(s, src, k))
            && (forall name :: Outside(r, Blocks(log), name) ==> SameAt(dst, final, name))
            && r1.finishedSize == s1.finishedSize && r1.transferred == s1.transferred
            && s1.transferred <= s1.finishedSize
  {
    var (s1, log) := Run(s, acts, src, zip);
    var blocks := Blocks(log);
    RunKeepsSending(s, acts, src, zip);
    ReceiverInstalls(r, dst, blocks, zip);
    ReceiverCounts(r, dst, blocks, zip);
    var (r1, dst1) := Deliver(r, dst, blocks, zip);
    var final := ModifyTimeStep(r1, dst1).1;
    forall k | Touched(k, blocks)
      ensures HasSource(s, src, k) && Data(k, blocks, zip) <= Source(s, src, k)
      ensures Installed(r, final, blocks, k, zip)
    {
      assert HasSource(s1, src, k);
    }
    forall k | Closed(k) in log
      ensures HasSource(s, src, k) && Touched(k, blocks) && Data(k, blocks, zip) == Source(s, src, k)
    {
      assert HasSource(s1, src, k);
    }
  }

  /** The receiver's counters add up the plain and the transmitted bytes of what it wrote. */
  lemma {:induction false} ReceiverCounts(r: Job, dst: Disk, blocks: seq<Block>, zip: Zip)
    requires ForJob(r, blocks)
    ensures var r1 := Deliver(r, dst, blocks, zip).0;
            && SameJob(r, r1)
            && r1.finishedSize == r.finishedSize + PlainBytes(blocks, zip)
            && r1.transferred == r.transferred + SentBytes(blocks)
    decreases |blocks|
  {
    if blocks != [] {
      var init, b := blocks[..|blocks| - 1], blocks[|blocks| - 1];
      ReceiverCounts(r, dst, init, zip);
      var (r1, dst1) := Deliver(r, dst, init, zip);
      WriteCounts(r1, dst1, b, zip);
    }
  }

  lemma {:induction false} ModifyTimeKeeps(r: Job, dst: Disk)
    ensures var r1 := ModifyTimeStep(r, dst).0;
            SameJob(r, r1) && r1.finishedSize == r.finishedSize && r1.transferred == r.transferred
  {
    hide Rename, Join;
  }

  lemma {:induction false} WriteCounts(r: Job, dst: Disk, b: Block, zip: Zip)
    requires b.id == r.id && 0 <= b.fileNum < |r.files|
    ensures var r1 := WriteStep(r, dst, b, Fine, zip).0;
            && SameJob(r, r1)
            && r1.finishedSize == r.finishedSize + |Plain(b, zip)|
            && r1.transferred == r.transferred + |b.data|
  {
    hide ModifyTimeStep, AppendTo, Plain, Join;
    ModifyTimeKeeps(r, dst);
    var r1 := WriteStep(r, dst, b, Fine, zip).0;
    if b.fileNum != r.fileNum || r.file == None {
      var mid := ModifyTimeStep(r, dst).0;
      assert r1.finishedSize == mid.finishedSize + |Plain(b, zip)| && r1.transferred == mid.transferred + |b.data|;
    }
  }

  // ----- skipped files -----

  /** No block of a file goes out after the run has moved past it. */
  ghost predicate PassedFilesSilent(log: seq<Event>, fileNum: int) {
    && (forall i :: 0 <= i < |log| && log[i].Skipped? ==> log[i].k < fileNum)
    && (forall i, m :: 0 <= i < m < |log| && log[i].Skipped? && log[m].BlockOut? ==> log[m].block.fileNum > log[i].k)
  }

  lemma {:induction false} ActPassedFilesSilent(j: Job, a: Action, log: seq<Event>, disk: Disk, zip: Zip)
    requires PassedFilesSilent(log, j.fileNum)
    ensures var (j', more) := Act(j, a, disk, zip);
            PassedFilesSilent(log + more, j'.fileNum)
  {
    hide Act;
    ActMonotone(j, a, disk, zip);
    ActNews(j, a, disk, zip);
    var (j', more) := Act(j, a, disk, zip);
    var all := log + more;
    assert forall i :: |log| <= i < |all| ==> all[i] in more;
  }

  /** Blocks belong to the current file, and a skip is the only event of its step and passes the file. */
  lemma {:induction false} ActNews(j: Job, a: Action, disk: Disk, zip: Zip)
    ensures var (j', more) := Act(j, a, disk, zip);
            forall e <- more :: (e.BlockOut? ==> e.block.fileNum == j.fileNum)
                                && (e.Skipped? ==> more == [e] && e.k == j.fileNum && j'.fileNum == e.k + 1)
  {
    hide Ext;
  }

  lemma {:induction false} RunPassedFilesSilent(j: Job, acts: seq<Action>, disk: Disk, zip: Zip)
    ensures var (j', log) := Run(j, acts, disk, zip);
            PassedFilesSilent(log, j'.fileNum)
    decreases |acts|
  {
    if acts != [] {
      var init, a := acts[..|acts| - 1], acts[|acts| - 1];
      RunPassedFilesSilent(j, init, disk, zip);
      var (j1, log) := Run(j, init, disk, zip);
      ActPassedFilesSilent(j1, a, log, disk, zip);
    }
  }

  /** Event `i` is a block of file k. */
  predicate Emits(log: seq<Event>, i: int, k: int) {
    0 <= i < |log| && log[i].BlockOut? && log[i].block.fileNum == k
  }

  lemma {:induction false} TouchedByEvent(log: seq<Event>, k: int)
    ensures Touched(k, Blocks(log)) <==> exists i :: Emits(log, i, k)
  {
    if log != [] {
      var init, e := log[..|log| - 1], log[|log| - 1];
      assert log == init + [e];
      TouchedByEvent(init, k);
      BlocksSnoc(init, e);
      assert Blocks(init) + [] == Blocks(init);
      assert forall i :: 0 <= i < |init| ==> (Emits(init, i, k) <==> Emits(log, i, k));
      if e.BlockOut? {
        TouchedSnoc(k, Blocks(init), e.block);
        assert e.block.fileNum == k ==> Emits(log, |init|, k);
      }
      assert (exists i :: Emits(log, i, k)) <==> (exists i :: Emits(init, i, k)) || Emits(log, |init|, k) by {
        if i :| Emits(log, i, k) {
          assert i < |init| ==> Emits(init, i, k);
        }
      }
    }
  }

  /** A file is touched by a run in which it is skipped exactly when a block of it went out before the skip. */
  lemma {:induction false} SkippedUntouched(j: Job, acts: seq<Action>, disk: Disk, zip: Zip, i: nat)
    requires i < |Run(j, acts, disk, zip).1| && Run(j, acts, disk, zip).1[i].Skipped?
    ensures var log := Run(j, acts, disk, zip).1;
            var k := log[i].k;
            Touched(k, Blocks(log)) <==> exists m :: m < i && Emits(log, m, k)
  {
    RunPassedFilesSilent(j, acts, disk, zip);
    var log := Run(j, acts, disk, zip).1;
    TouchedByEvent(log, log[i].k);
    if Touched(log[i].k, Blocks(log)) {
      var m :| Emits(log, m, log[i].k);
      assert m < i;
    }
  }
}
