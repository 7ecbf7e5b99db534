/**
 The file transfer job of libs/hbb_common/src/fs.rs, as pure steps and as the object that takes them.

 One TransferJob type plays both roles, as in the source: a sender calls `Read` and `Confirm`,
 a receiver calls `Write` and `ModifyTime`. A disk is a map from path to contents.
 */
module Transfer {
  import opened Basics

  const BUF_SIZE := 128 * 1024

  type Disk = map<string, seq<byte>>

  /** `compress` and `decompress`; the models assume a compressor that does not fail. */
  datatype Zip = Zip(compress: seq<byte> -> seq<byte>, decompress: seq<byte> -> seq<byte>)

  ghost predicate Lossless(zip: Zip) {
    forall x :: zip.decompress(zip.compress(x)) == x
  }

  datatype Block = Block(id: int, fileNum: int, data: seq<byte>, compressed: bool)

  /** The bytes a block stands for. */
  function Plain(b: Block, zip: Zip): seq<byte> {
    if b.compressed then zip.decompress(b.data) else b.data
  }

  /** An open file: a read position, the path a written file has now, or a written file whose path was taken over. */
  datatype OpenFile = Reader(content: seq<byte>, pos: nat) | Writer(path: string) | Unlinked

  datatype Job = Job(
    id: int,
    path: string,
    files: seq<string>,
    isLastJob: bool,
    fileNum: int,
    file: Option<OpenFile>,
    finishedSize: nat,
    transferred: nat,
    detect: bool,
    confirmed: bool,
    skipped: bool,
    waiting: bool)
  {
    /** A negative number, cast to usize, is past the end of every list. */
    predicate InRange() {
      0 <= fileNum < |files|
    }

    function PathOf(k: int): string
      requires 0 <= k < |files|
    {
      Join(path, files[k])
    }

    function DownloadOf(k: int): string
      requires 0 <= k < |files|
    {
      PathOf(k) + DOWNLOAD
    }

    /** Gives up the current file and moves to the next one. */
    function Advance(): Job {
      this.(fileNum := fileNum + 1, file := None, confirmed := false, waiting := false)
    }

    predicate Completed() {
      !detect || (!confirmed && !waiting)
    }
  }

  const DOWNLOAD := ".download"

  /** A job as the constructors leave it: nothing open, nothing counted, no flag set. */
  predicate Fresh(j: Job) {
    && j.file == None && j.finishedSize == 0 && j.transferred == 0
    && !j.confirmed && !j.skipped && !j.waiting
  }

  function Join(base: string, name: string): string {
    if name == "" then base
    else if name[0] == '/' then name
    else if base == "" || base[|base| - 1] == '/' then base + name
    else base + "/" + name
  }

  /** The names a path goes through: its parts between slashes, without empty ones. `part` is the one begun. */
  function Components(path: string, part: string): seq<string> {
    if path == "" then (if part == "" then [] else [part])
    else if path[0] == '/' then (if part == "" then [] else [part]) + Components(path[1..], "")
    else Components(path[1..], part + [path[0]])
  }

  lemma {:induction false} ComponentsSplit(a: string, b: string, part: string)
    ensures Components(a + "/" + b, part) == Components(a, part) + Components(b, "")
    decreases |a|
  {
    var path := a + "/" + b;
    if a == "" {
      assert path[0] == '/' && path[1..] == b;
    } else {
      assert path[0] == a[0] && path[1..] == a[1..] + "/" + b;
      ComponentsSplit(a[1..], b, if a[0] == '/' then "" else part + [a[0]]);
    }
  }

  lemma {:induction false} NoComponents()
    ensures Components("", "") == []
  {
  }

  /**
   A relative name leads from a directory through its own components, with one slash at the seam and none added at
   either end; an absolute name leads to itself.
   */
  lemma {:induction false} JoinLeads(base: string, name: string)
    requires name == "" || name[0] != '/'
    ensures Components(Join(base, name), "") == Components(base, "") + Components(name, "")
    ensures base <= Join(base, name) && |Join(base, name)| <= |base| + |name| + 1
    ensures base != "" && base[|base| - 1] == '/' ==> |Join(base, name)| == |base| + |name|
    ensures forall other :: Join(other, "/" + name) == "/" + name
  {
    hide Components;
    NoComponents();
    assert Components(base, "") + [] == Components(base, "") && [] + Components(name, "") == Components(name, "");
    assert base + "" == base && "" + name == name;
    if name != "" && base != "" {
      if base[|base| - 1] == '/' {
        var init := base[..|base| - 1];
        assert base == init + "/" + "" && base + name == init + "/" + name;
        ComponentsSplit(init, "", "");
        ComponentsSplit(init, name, "");
        assert Components(init, "") + [] == Components(init, "");
      } else {
        ComponentsSplit(base, name, "");
      }
    }
  }

  /** A listed file lies below the directory of the job under its listed name, and its download right beside it. */
  lemma {:induction false} PathLeads(j: Job, k: nat)
    requires k < |j.files| && (j.files[k] == "" || j.files[k][0] != '/')
    ensures Components(j.PathOf(k), "") == Components(j.path, "") + Components(j.files[k], "")
    ensures j.DownloadOf(k) == j.PathOf(k) + ".download"
  {
    hide Components;
    JoinLeads(j.path, j.files[k]);
  }

  // ----- the sender -----

  const COMPRESSED := {"xz", "gz", "zip", "7z", "rar", "bz2", "tgz", "png", "jpg"}

  /** What follows the last dot, empty when there is none. */
  function Ext(name: string): string {
    if '.' !in name then "" else AfterLastDot(name)
  }

  function AfterLastDot(name: string): string {
    if name == "" || name[|name| - 1] == '.' then ""
    else AfterLastDot(name[..|name| - 1]) + [name[|name| - 1]]
  }

  /** `name` ends with a dot and `ext`. */
  predicate HasEnding(name: string, ext: string) {
    |name| > |ext| && name[|name| - |ext| - 1..] == "." + ext
  }

  predicate NoDot(s: string) {
    '.' !in s
  }

  lemma {:induction false} LastDot(name: string, ext: string)
    requires HasEnding(name, ext) && NoDot(ext)
    ensures AfterLastDot(name) == ext
    decreases |ext|
  {
    var last := name[|name| - 1];
    assert last == ("." + ext)[|ext|];
    if ext != "" {
      var init := ext[..|ext| - 1];
      assert last in ext && NoDot(init);
      assert name[..|name| - 1][|name| - |ext| - 1..] == ("." + ext)[..|ext|] == "." + init;
      LastDot(name[..|name| - 1], init);
    }
  }

  /** The extension is what the name ends with behind a dot, as long as there is one. */
  lemma {:induction false} ExtIsEnding(name: string, ext: string)
    requires ext != "" && NoDot(ext)
    ensures Ext(name) == ext <==> HasEnding(name, ext)
  {
    if HasEnding(name, ext) {
      assert name[|name| - |ext| - 1] == name[|name| - |ext| - 1..][0] == '.';
      LastDot(name, ext);
    }
    if '.' in name {
      AfterDot(name);
    }
  }

  lemma {:induction false} AfterDot(name: string)
    requires '.' in name
    ensures HasEnding(name, AfterLastDot(name))
  {
    var last := name[|name| - 1];
    assert name == name[..|name| - 1] + [last];
    if last != '.' {
      var init := name[..|name| - 1];
      AfterDot(init);
      var ext := AfterLastDot(init);
      assert name[|name| - |ext| - 2..] == init[|init| - |ext| - 1..] + [last] == "." + (ext + [last]);
    } else {
      assert name[|name| - 1..] == "." + "";
    }
  }

  /** What the environment does to one `read`: open the file, send a digest, read from the file. */
  datatype ReadEnv = ReadEnv(openOk: bool, digestOk: bool, ioOk: bool)

  datatype ReadError = OpenError | DigestError | IoError

  datatype Event =
    | Opened(k: int)
    | OpenFailed(k: int)
    | Digest(k: int, sent: bool)
    | BlockOut(block: Block)
    | Closed(k: int)
    | ReadFailed(k: int)
    | Confirmed(k: int, waiting: bool)
    | Skipped(k: int)

  datatype ReadResult = ReadResult(job: Job, result: Result<Option<Block>, ReadError>, log: seq<Event>)

  /** A chunk of file k, compressed when its name does not say it already is and that makes it smaller. */
  function Pack(j: Job, chunk: seq<byte>, zip: Zip): Block
    requires j.InRange()
  {
    var small := zip.compress(chunk);
    if Ext(j.files[j.fileNum]) !in COMPRESSED && |small| < |chunk|
    then Block(j.id, j.fileNum, small, true)
    else Block(j.id, j.fileNum, chunk, false)
  }

  /** The endings of files that are not compressed again. */
  predicate KeptPlain(name: string) {
    || HasEnding(name, "xz") || HasEnding(name, "gz") || HasEnding(name, "zip") || HasEnding(name, "7z")
    || HasEnding(name, "rar") || HasEnding(name, "bz2") || HasEnding(name, "tgz") || HasEnding(name, "png")
    || HasEnding(name, "jpg")
  }

  lemma {:induction false} KeptPlainIff(name: string)
    ensures KeptPlain(name) <==> Ext(name) in COMPRESSED
  {
    hide Ext, HasEnding;
    ExtIsEnding(name, "xz");
    ExtIsEnding(name, "gz");
    ExtIsEnding(name, "zip");
    ExtIsEnding(name, "7z");
    ExtIsEnding(name, "rar");
    ExtIsEnding(name, "bz2");
    ExtIsEnding(name, "tgz");
    ExtIsEnding(name, "png");
    ExtIsEnding(name, "jpg");
  }

  /** The job after it has read its file up to `end` and packed the bytes into `b`. */
  function AfterBlock(j: Job, end: nat, b: Block): Job
    requires j.file.Some? && j.file.value.Reader? && j.file.value.pos <= end
  {
    var Reader(content, pos) := j.file.value;
    j.(file := Some(Reader(content, end)),
       finishedSize := j.finishedSize + (end - pos),
       transferred := j.transferred + |b.data|)
  }

  function ReadChunk(j: Job, env: ReadEnv, zip: Zip): ReadResult
    requires j.InRange() && j.file.Some?
  {
    var k := j.fileNum;
    if !j.file.value.Reader? || !env.ioOk then ReadResult(j.Advance(), Err(IoError), [ReadFailed(k)])
    else
      var Reader(content, pos) := j.file.value;
      var end := Min(pos + BUF_SIZE, |content|);
      if end <= pos then
        var b := Block(j.id, k, [], false);
        ReadResult(j.Advance(), Ok(Some(b)), [BlockOut(b), Closed(k)])
      else
        var b := Pack(j, content[pos..end], zip);
        ReadResult(AfterBlock(j, end, b), Ok(Some(b)), [BlockOut(b)])
  }

  function ReadOpen(j: Job, env: ReadEnv, zip: Zip): ReadResult
    requires j.InRange() && j.file.Some?
  {
    if j.detect && !j.confirmed then
      if j.waiting then ReadResult(j, Ok(None), [])
      else if env.digestOk then ReadResult(j.(waiting := true), Ok(None), [Digest(j.fileNum, true)])
      else ReadResult(j, Err(DigestError), [Digest(j.fileNum, false)])
    else ReadChunk(j, env, zip)
  }

  function ReadStep(j: Job, env: ReadEnv, disk: Disk, zip: Zip): ReadResult {
    if !j.InRange() then ReadResult(j.(file := None), Ok(None), [])
    else if j.file.Some? then ReadOpen(j, env, zip)
    else if env.openOk && j.PathOf(j.fileNum) in disk then
      var content := disk[j.PathOf(j.fileNum)];
      var r := ReadOpen(j.(file := Some(Reader(content, 0)), confirmed := false, waiting := false), env, zip);
      r.(log := [Opened(j.fileNum)] + r.log)
    else ReadResult(j.Advance(), Err(OpenError), [OpenFailed(j.fileNum)])
  }

  datatype Answer = Skip(skip: bool) | OffsetBlk(offset: nat) | NoAnswer
  datatype ConfirmRequest = ConfirmRequest(fileNum: int, answer: Answer)

  function ConfirmStep(j: Job, r: ConfirmRequest): (Job, seq<Event>) {
    if j.fileNum != r.fileNum then (j, [])
    else match r.answer
         case Skip(true) => (j.Advance().(skipped := true), [Skipped(j.fileNum)])
         case Skip(false) => (j.(confirmed := true, skipped := false), [Confirmed(j.fileNum, j.waiting)])
         case OffsetBlk(_) => (j.(confirmed := true, skipped := false), [Confirmed(j.fileNum, j.waiting)])
         case NoAnswer => (j, [])
  }

  datatype Action = DoRead(env: ReadEnv) | DoConfirm(request: ConfirmRequest)

  function Act(j: Job, a: Action, disk: Disk, zip: Zip): (Job, seq<Event>) {
    match a
    case DoRead(env) => var r := ReadStep(j, env, disk, zip); (r.job, r.log)
    case DoConfirm(request) => ConfirmStep(j, request)
  }

  /** Any run of the sender: its final state and everything that happened. */
  function Run(j: Job, acts: seq<Action>, disk: Disk, zip: Zip): (Job, seq<Event>) {
    if acts == [] then (j, [])
    else
      var (j1, log) := Run(j, acts[..|acts| - 1], disk, zip);
      var (j2, more) := Act(j1, acts[|acts| - 1], disk, zip);
      (j2, log + more)
  }

  function Blocks(log: seq<Event>): seq<Block> {
    if log == [] then []
    else
      var e := log[|log| - 1];
      Blocks(log[..|log| - 1]) + (if e.BlockOut? then [e.block] else [])
  }

  // ----- the receiver -----

  /** `std::fs::rename` for one file; an open handle keeps following its file. */
  function Rename(disk: Disk, file: Option<OpenFile>, from: string, to: string): (Disk, Option<OpenFile>) {
    if from !in disk then (disk, file)
    else ((disk - {from})[to := disk[from]],
          if file == Some(Writer(from)) then Some(Writer(to))
          else if file == Some(Writer(to)) then Some(Unlinked)
          else file)
  }

  function ModifyTimeStep(j: Job, disk: Disk): (Job, Disk) {
    if !j.InRange() then (j, disk)
    else
      var (disk', file') := Rename(disk, j.file, j.DownloadOf(j.fileNum), j.PathOf(j.fileNum));
      (j.(file := file'), disk')
  }

  /**
   How the file system treats one write. A failing write gets only `written` bytes through; if that is all there are,
   `write_all` has nothing left to fail on and succeeds.
   */
  datatype Luck = Fine | SyncFails | CreateFails | WriteFails(written: nat)

  datatype WriteError = WrongId | WrongFileNumber | SyncError | CreateError | DiskError

  /** Finishes the file in hand and starts the download of file k. */
  function SwitchStep(j: Job, disk: Disk, k: int, luck: Luck): (Job, Disk, Result<(), WriteError>)
    requires 0 <= k < |j.files|
  {
    var (j1, disk1) := ModifyTimeStep(j, disk);
    if j1.file.Some? && luck.SyncFails? then (j1, disk1, Err(SyncError))
    else
      var j2 := j1.(fileNum := k);
      if luck.CreateFails? then (j2, disk1, Err(CreateError))
      else (j2.(file := Some(Writer(j.DownloadOf(k)))), disk1[j.DownloadOf(k) := []], Ok(()))
  }

  function WriteStep(j: Job, disk: Disk, b: Block, luck: Luck, zip: Zip): (Job, Disk, Result<(), WriteError>) {
    if b.id != j.id then (j, disk, Err(WrongId))
    else if !(0 <= b.fileNum < |j.files|) then (j, disk, Err(WrongFileNumber))
    else if b.fileNum != j.fileNum || j.file == None then
      var (j1, disk1, r) := SwitchStep(j, disk, b.fileNum, luck);
      if r.Err? then (j1, disk1, r) else Append(j1, disk1, b, luck, zip)
    else Append(j, disk, b, luck, zip)
  }

  function AppendTo(disk: Disk, file: Option<OpenFile>, data: seq<byte>): Disk {
    if file.Some? && file.value.Writer? && file.value.path in disk
    then disk[file.value.path := disk[file.value.path] + data]
    else disk
  }

  predicate CutsShort(data: seq<byte>, luck: Luck) {
    luck.WriteFails? && luck.written < |data|
  }

  /** What of a block's plain bytes reaches the open file. */
  function Reaching(b: Block, luck: Luck, zip: Zip): seq<byte> {
    var data := Plain(b, zip);
    if CutsShort(data, luck) then data[..luck.written] else data
  }

  function Append(j: Job, disk: Disk, b: Block, luck: Luck, zip: Zip): (Job, Disk, Result<(), WriteError>) {
    var disk' := AppendTo(disk, j.file, Reaching(b, luck, zip));
    if CutsShort(Plain(b, zip), luck) then (j, disk', Err(DiskError))
    else (j.(finishedSize := j.finishedSize + |Plain(b, zip)|, transferred := j.transferred + |b.data|), disk', Ok(()))
  }

  /** Delivers blocks in order to a receiver whose file system does what it is asked. */
  function Deliver(j: Job, disk: Disk, blocks: seq<Block>, zip: Zip): (Job, Disk) {
    if blocks == [] then (j, disk)
    else
      var (j1, disk1) := Deliver(j, disk, blocks[..|blocks| - 1], zip);
      var (j2, disk2, _) := WriteStep(j1, disk1, blocks[|blocks| - 1], Fine, zip);
      (j2, disk2)
  }

  // ----- the objects -----

  class FileSystem {
    var files: Disk

    constructor (files: Disk)
      ensures this.files == files
    {
      this.files := files;
    }
  }

  class TransferJob {
    const id: int
    const path: string
    const files: seq<string>
    const detect: bool
    var isLastJob: bool
    var fileNum: int
    var file: Option<OpenFile>
    var finishedSize: nat
    var transferred: nat
    var confirmed: bool
    var skipped: bool
    var waiting: bool

    function State(): Job
      reads this
    {
      Job(id, path, files, isLastJob, fileNum, file, finishedSize, transferred, detect, confirmed, skipped, waiting)
    }

    /** `new_write`, and `new_read` once the list of files is known. */
    constructor (id: int, path: string, fileNum: int, files: seq<string>, detect: bool)
      ensures Fresh(State())
      ensures this.id == id && this.path == path && this.files == files && this.detect == detect
      ensures this.fileNum == fileNum && !isLastJob
    {
      this.id, this.path, this.files, this.detect := id, path, files, detect;
      this.fileNum, file, finishedSize, transferred := fileNum, None, 0, 0;
      isLastJob, confirmed, skipped, waiting := false, false, false, false;
    }

    method SetFileConfirmed(ok: bool)
      modifies this`confirmed, this`skipped
      ensures confirmed == ok && !skipped
    {
      confirmed, skipped := ok, false;
    }

    method SetFileSkipped()
      modifies this
      ensures State() == old(State()).Advance().(skipped := true)
    {
      file := None;
      SetFileConfirmed(false);
      waiting := false;
      fileNum := fileNum + 1;
      skipped := true;
    }

    /** `log` is what happened, in order. */
    method Confirm(r: ConfirmRequest) returns (ghost log: seq<Event>)
      modifies this
      ensures (State(), log) == ConfirmStep(old(State()), r)
    {
      log := [];
      if fileNum == r.fileNum {
        match r.answer {
          case Skip(s) =>
            if s {
              log := [Skipped(fileNum)];
              SetFileSkipped();
            } else {
              log := [Event.Confirmed(fileNum, waiting)];
              SetFileConfirmed(true);
            }
          case OffsetBlk(_) =>
            log := [Event.Confirmed(fileNum, waiting)];
            SetFileConfirmed(true);
          case NoAnswer =>
        }
      }
    }

    predicate JobCompleted()
      reads this
    {
      !detect || (!confirmed && !waiting)
    }

    predicate JobSkipped()
      reads this
    {
      skipped && |files| == 1
    }

    /**
     Fills the buffer from the open file. Each read of the operating system returns any positive number
     of bytes that fits, or zero at the end of the file, or fails; the filled part is the same however
     the reads were split.
     */
    method FillBuffer(buf: array<byte>) returns (offset: nat, ok: bool)
      requires buf.Length == BUF_SIZE
      requires file.Some?
      requires file.value.Reader? ==> file.value.pos <= |file.value.content|
      modifies buf, this`file
      ensures ok ==>
                var f, f0 := file, old(file);
                && f0.value.Reader?
                && var Reader(content, pos) := f0.value;
                   && f == Some(Reader(content, pos + offset))
                   && pos + offset == Min(pos + BUF_SIZE, |content|)
                   && buf[..offset] == content[pos..pos + offset]
    {
      offset := 0;
      if !file.value.Reader? {
        return 0, false;
      }
      ghost var content, pos := file.value.content, file.value.pos;
      while true
        invariant 0 <= offset < BUF_SIZE && pos + offset <= |content|
        invariant file == Some(Reader(content, pos + offset))
        invariant buf[..offset] == content[pos..pos + offset]
        decreases BUF_SIZE - offset
      {
        var failed: bool := *;
        if failed {
          return offset, false;
        }
        var Reader(c, p) := file.value;
        var room := Min(BUF_SIZE - offset, |c| - p);
        var n: nat :| n <= room && (n == 0 <==> room == 0);
        forall i | 0 <= i < n {
          buf[offset + i] := c[p + i];
        }
        file := Some(Reader(c, p + n));
        offset := offset + n;
        if n == 0 || offset == BUF_SIZE {
          return offset, true;
        }
      }
    }

    /** One step of the sender; `log` is what happened, in order. */
    method Read(openOk: bool, digestOk: bool, disk: FileSystem, zip: Zip)
      returns (result: Result<Option<Block>, ReadError>, ghost log: seq<Event>)
      requires file.Some? && file.value.Reader? ==> file.value.pos <= |file.value.content|
      modifies this
      ensures var env := ReadEnv(openOk, digestOk, result != Err(IoError));
              ReadStep(old(State()), env, disk.files, zip) == ReadResult(State(), result, log)
      ensures file.Some? && file.value.Reader? ==> file.value.pos <= |file.value.content|
    {
      hide Pack, Ext;
      log := [];
      if !(0 <= fileNum < |files|) {
        file := None;
        return Ok(None), log;
      }
      var k := fileNum;
      var name := files[k];
      if file == None {
        var p := Join(path, name);
        if openOk && p in disk.files {
          file := Some(Reader(disk.files[p], 0));
          confirmed, waiting := false, false;
          log := [Opened(k)];
        } else {
          fileNum := fileNum + 1;
          confirmed, waiting := false, false;
          return Err(OpenError), [OpenFailed(k)];
        }
      }
      if detect && !confirmed {
        if !waiting {
          log := log + [Digest(k, digestOk)];
          if !digestOk {
            return Err(DigestError), log;
          }
          waiting := true;
        }
        return Ok(None), log;
      }
      ghost var more;
      result, more := ReadBlock(zip);
      log := log + more;
    }

    /** What one filling of the buffer yields: the next bytes of the file, none at its end. */
    method ReadBuffer() returns (data: seq<byte>, ok: bool)
      requires file.Some?
      requires file.value.Reader? ==> file.value.pos <= |file.value.content|
      modifies this`file
      ensures ok ==>
                var f, f0 := file, old(file);
                && f0.value.Reader?
                && var Reader(content, pos) := f0.value;
                   var end := Min(pos + BUF_SIZE, |content|);
                   f == Some(Reader(content, end)) && data == content[pos..end]
    {
      var buf := new byte[BUF_SIZE](_ => 0);
      var offset;
      offset, ok := FillBuffer(buf);
      data := if ok then buf[..offset] else [];
    }

    method ReadBlock(zip: Zip) returns (result: Result<Option<Block>, ReadError>, ghost log: seq<Event>)
      requires 0 <= fileNum < |files| && file.Some?
      requires file.value.Reader? ==> file.value.pos <= |file.value.content|
      modifies this
      ensures var env := ReadEnv(true, true, result != Err(IoError));
              ReadChunk(old(State()), env, zip) == ReadResult(State(), result, log)
      ensures file.Some? && file.value.Reader? ==> file.value.pos <= |file.value.content|
    {
      hide Ext;
      var k := fileNum;
      var data, ok := ReadBuffer();
      if !ok {
        fileNum, file := fileNum + 1, None;
        confirmed, waiting := false, false;
        return Err(IoError), [ReadFailed(k)];
      }
      var offset := |data|;
      var compressed := false;
      if offset == 0 {
        fileNum, file := fileNum + 1, None;
        confirmed, waiting := false, false;
      } else {
        finishedSize := finishedSize + offset;
        if Ext(files[k]) !in COMPRESSED {
          var tmp := zip.compress(data);
          if |tmp| < |data| {
            data, compressed := tmp, true;
          }
        }
        transferred := transferred + |data|;
      }
      var block := Block(id, k, data, compressed);
      log := [BlockOut(block)] + if offset == 0 then [Closed(k)] else [];
      return Ok(Some(block)), log;
    }

    method ModifyTime(disk: FileSystem)
      modifies this`file, disk
      ensures (State(), disk.files) == ModifyTimeStep(old(State()), old(disk.files))
    {
      if 0 <= fileNum < |files| {
        var p := Join(path, files[fileNum]);
        var download := p + DOWNLOAD;
        if download in disk.files {
          disk.files := (disk.files - {download})[p := disk.files[download]];
          if file == Some(Writer(download)) {
            file := Some(Writer(p));
          } else if file == Some(Writer(p)) {
            file := Some(Unlinked);
          }
        }
      }
    }

    method Write(block: Block, luck: Luck, disk: FileSystem, zip: Zip) returns (r: Result<(), WriteError>)
      modifies this, disk
      ensures (State(), disk.files, r) == WriteStep(old(State()), old(disk.files), block, luck, zip)
    {
      hide SwitchStep;
      if block.id != id {
        return Err(WrongId);
      }
      if !(0 <= block.fileNum < |files|) {
        return Err(WrongFileNumber);
      }
      if block.fileNum != fileNum || file == None {
        r := Switch(block.fileNum, luck, disk);
        if r.Err? {
          return;
        }
      }
      var data := if block.compressed then zip.decompress(block.data) else block.data;
      assert data[..|data|] == data;
      r := WriteAll(data, luck, disk);
      if r.Ok? {
        finishedSize := finishedSize + |data|;
        transferred := transferred + |block.data|;
      }
    }

    method Switch(k: int, luck: Luck, disk: FileSystem) returns (r: Result<(), WriteError>)
      requires 0 <= k < |files|
      modifies this`file, this`fileNum, disk
      ensures (State(), disk.files, r) == SwitchStep(old(State()), old(disk.files), k, luck)
      ensures r.Ok? ==> file.Some?
    {
      ModifyTime(disk);
      if file.Some? && luck.SyncFails? {
        return Err(SyncError);
      }
      fileNum := k;
      var p := Join(path, files[k]) + DOWNLOAD;
      if luck.CreateFails? {
        return Err(CreateError);
      }
      disk.files := disk.files[p := []];
      file := Some(Writer(p));
      return Ok(());
    }

    /** `write_all` on the open file, which may be unlinked meanwhile. */
    method WriteAll(data: seq<byte>, luck: Luck, disk: FileSystem) returns (r: Result<(), WriteError>)
      requires file.Some?
      modifies disk
      ensures var n := if CutsShort(data, luck) then luck.written else |data|;
              disk.files == AppendTo(old(disk.files), file, data[..n])
      ensures r == if CutsShort(data, luck) then Err(DiskError) else Ok(())
    {
      var n := if CutsShort(data, luck) then luck.written else |data|;
      if file.value.Writer? && file.value.path in disk.files {
        disk.files := disk.files[file.value.path := disk.files[file.value.path] + data[..n]];
      }
      return if CutsShort(data, luck) then Err(DiskError) else Ok(());
    }
  }
}
