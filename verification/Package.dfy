/**
 The portable package: the writer of libs/portable/generate.py and the reader of
 libs/portable/src/bin_reader.rs.

 Paths and the executable name are their UTF-8 bytes.
 */
module Package {
  import opened Basics

  /** The bytes of "rustdesk", which open the file and close the list of entries. */
  const MAGIC: seq<byte> := [0x72, 0x75, 0x73, 0x74, 0x64, 0x65, 0x73, 0x6b]
  const MD5_LENGTH := 32

  datatype Entry = Entry(path: seq<byte>, data: seq<byte>, md5: seq<byte>)

  // ----- format -----

  function BeBytes(n: nat): (bs: seq<byte>)
    requires n < U32
    ensures |bs| == 4
  {
    [n / 256 / 256 / 256, n / 256 / 256 % 256, n / 256 % 256, n % 256]
  }

  function BeValue(bs: seq<byte>): (n: nat)
    requires |bs| == 4
    ensures n < U32
  {
    ((bs[0] as int * 256 + bs[1]) * 256 + bs[2]) * 256 + bs[3]
  }

  lemma {:induction false} BeRoundTrip(n: nat, bs: seq<byte>)
    requires n < U32 && |bs| == 4
    ensures BeValue(BeBytes(n)) == n && BeBytes(BeValue(bs)) == bs
  {
    var x := bs[0] as int * 256 + bs[1];
    var y := x * 256 + bs[2];
    assert x / 256 == bs[0] as int && x % 256 == bs[1] as int;
    assert y / 256 == x && y % 256 == bs[2] as int;
    assert BeValue(bs) / 256 == y && BeValue(bs) % 256 == bs[3] as int;
  }

  /** The lengths that the writer can store; a longer path or file raises OverflowError. */
  predicate Fits(e: Entry) {
    |e.path| < U32 && |e.data| < U32
  }

  function EntryBytes(e: Entry): seq<byte>
    requires Fits(e)
  {
    BeBytes(|e.path|) + e.path + BeBytes(|e.data|) + e.data + e.md5
  }

  function EntriesBytes(entries: seq<Entry>): seq<byte>
    requires forall e <- entries :: Fits(e)
  {
    if entries == [] then [] else EntryBytes(entries[0]) + EntriesBytes(entries[1..])
  }

  function PackageBytes(entries: seq<Entry>, exe: seq<byte>): seq<byte>
    requires forall e <- entries :: Fits(e)
  {
    MAGIC + EntriesBytes(entries) + MAGIC + exe
  }

  // ----- reading -----

  datatype Panic = BinDataInvalid | NotAPackage | OutOfBounds

  /** The next entry and what follows it, None where an index would be out of bounds. */
  function ParseEntry(s: seq<byte>): Option<(Entry, seq<byte>)> {
    if |s| < 4 then None
    else
      var n := BeValue(s[..4]);
      var s1 := s[4..];
      if |s1| < n + 4 then None
      else
        var m := BeValue(s1[n..n + 4]);
        var s2 := s1[n + 4..];
        if |s2| < m + MD5_LENGTH then None
        else Some((Entry(s1[..n], s2[..m], s2[m..m + MD5_LENGTH]), s2[m + MD5_LENGTH..]))
  }

  function ReadEntries(s: seq<byte>): Result<(seq<Entry>, seq<byte>), Panic>
    decreases |s|
  {
    if |s| < |MAGIC| then Err(OutOfBounds)
    else if s[..|MAGIC|] == MAGIC then Ok(([], s[|MAGIC|..]))
    else match ParseEntry(s)
         case None => Err(OutOfBounds)
         case Some((e, rest)) =>
           match ReadEntries(rest)
           case Err(p) => Err(p)
           case Ok((entries, exe)) => Ok(([e] + entries, exe))
  }

  function ReadPackage(data: seq<byte>): Result<(seq<Entry>, seq<byte>), Panic> {
    if |data| <= |MAGIC| then Err(BinDataInvalid)
    else if data[..|MAGIC|] != MAGIC then Err(NotAPackage)
    else ReadEntries(data[|MAGIC|..])
  }

  // ----- round trips -----

  /** The entry starts with the bytes of the end mark: its path is 0x72757374 bytes long and starts with "desk". */
  predicate LooksLikeEnd(e: Entry) {
    |e.path| == 0x7275_7374 && e.path[..4] == [0x64, 0x65, 0x73, 0x6b]
  }

  lemma {:induction false} EndMarkIff(e: Entry, tail: seq<byte>)
    requires Fits(e) && |e.md5| == MD5_LENGTH
    ensures var s := EntryBytes(e) + tail;
            |s| >= |MAGIC| && (s[..|MAGIC|] == MAGIC <==> LooksLikeEnd(e))
  {
    var s, n := EntryBytes(e) + tail, |e.path|;
    BeRoundTrip(n, MAGIC[..4]);
    assert s[..4] == BeBytes(n);
    if n >= 4 {
      assert s[4..8] == e.path[..4];
    }
    assert s[..8] == s[..4] + s[4..8];
    assert MAGIC == MAGIC[..4] + [0x64, 0x65, 0x73, 0x6b];
    if s[..8] == MAGIC {
      assert BeBytes(n) == MAGIC[..4];
      assert n == 0x7275_7374;
    }
  }

  lemma {:induction false} ParseWritten(e: Entry, tail: seq<byte>)
    requires Fits(e) && |e.md5| == MD5_LENGTH
    ensures ParseEntry(EntryBytes(e) + tail) == Some((e, tail))
  {
    hide BeBytes, BeValue;
    var s, n, m := EntryBytes(e) + tail, |e.path|, |e.data|;
    BeRoundTrip(n, BeBytes(n));
    BeRoundTrip(m, BeBytes(m));
    var s1 := s[4..];
    assert s[..4] == BeBytes(n);
    assert s1 == e.path + BeBytes(m) + e.data + e.md5 + tail;
    assert s1[n..n + 4] == BeBytes(m);
    var s2 := s1[n + 4..];
    assert s2 == e.data + e.md5 + tail;
    assert s1[..n] == e.path && s2[..m] == e.data && s2[m..m + MD5_LENGTH] == e.md5;
    assert s2[m + MD5_LENGTH..] == tail;
  }

  ghost predicate Writable(entries: seq<Entry>) {
    forall e <- entries :: Fits(e) && |e.md5| == MD5_LENGTH
  }

  /** How many entries the reader gets before one looks like the end mark. */
  function Readable(entries: seq<Entry>): (n: nat)
    ensures n <= |entries|
    ensures n == |entries| <==> forall e <- entries :: !LooksLikeEnd(e)
  {
    if entries == [] || LooksLikeEnd(entries[0]) then 0
    else
      assert entries == [entries[0]] + entries[1..];
      1 + Readable(entries[1..])
  }

  lemma {:induction false} ReadWrittenEntries(entries: seq<Entry>, exe: seq<byte>)
    requires Writable(entries)
    ensures var r := ReadEntries(EntriesBytes(entries) + MAGIC + exe);
            && r.Ok? && r.value.0 == entries[..Readable(entries)]
            && (Readable(entries) == |entries| ==> r.value.1 == exe)
    decreases |entries|
  {
    hide EntryBytes, ParseEntry, LooksLikeEnd, Fits;
    var s := EntriesBytes(entries) + MAGIC + exe;
    if entries == [] {
      assert s == MAGIC + exe && s[..8] == MAGIC && s[8..] == exe;
    } else {
      var e, tail := entries[0], EntriesBytes(entries[1..]) + MAGIC + exe;
      assert s == EntryBytes(e) + tail;
      EndMarkIff(e, tail);
      if !LooksLikeEnd(e) {
        ParseWritten(e, tail);
        ReadWrittenEntries(entries[1..], exe);
        assert [e] + entries[1..][..Readable(entries[1..])] == entries[..Readable(entries)];
      }
    }
  }

  /** Reading returns what was written exactly when no entry looks like the end mark; it never panics. */
  lemma {:induction false} WriteThenRead(entries: seq<Entry>, exe: seq<byte>)
    requires Writable(entries)
    ensures ReadPackage(PackageBytes(entries, exe)).Ok?
    ensures ReadPackage(PackageBytes(entries, exe)) == Ok((entries, exe)) <==> forall e <- entries :: !LooksLikeEnd(e)
  {
    var data := PackageBytes(entries, exe);
    assert data[..8] == MAGIC;
    assert data[8..] == EntriesBytes(entries) + MAGIC + exe;
    ReadWrittenEntries(entries, exe);
    assert entries[..|entries|] == entries;
  }

  lemma {:induction false} Regroup(a: seq<byte>, p: seq<byte>, b: seq<byte>, d: seq<byte>, h: seq<byte>,
                                   rest: seq<byte>)
    ensures a + (p + b + (d + h + rest)) == (a + p + b + d + h) + rest
  {
  }

  lemma {:induction false} ParsedIsWritten(s: seq<byte>)
    requires ParseEntry(s).Some?
    ensures var (e, rest) := ParseEntry(s).value;
            Fits(e) && |e.md5| == MD5_LENGTH && s == EntryBytes(e) + rest
  {
    hide BeBytes, BeValue;
    var (e, rest) := ParseEntry(s).value;
    var n, s1 := BeValue(s[..4]), s[4..];
    var m, s2 := BeValue(s1[n..n + 4]), s1[n + 4..];
    BeRoundTrip(0, s[..4]);
    BeRoundTrip(0, s1[n..n + 4]);
    assert |e.path| == n && |e.data| == m;
    assert s2 == e.data + e.md5 + rest;
    assert s1 == e.path + s1[n..n + 4] + s2;
    assert s == s[..4] + s1;
    hide ParseEntry;
    Regroup(BeBytes(n), e.path, BeBytes(m), e.data, e.md5, rest);
  }

  lemma {:induction false} ReadEntriesAreWritten(s: seq<byte>)
    requires ReadEntries(s).Ok?
    ensures var (entries, exe) := ReadEntries(s).value;
            Writable(entries) && s == EntriesBytes(entries) + MAGIC + exe && Readable(entries) == |entries|
    decreases |s|
  {
    if s[..8] == MAGIC {
      assert s == MAGIC + s[8..];
    } else {
      hide EntryBytes, ParseEntry, LooksLikeEnd, Fits;
      ParsedIsWritten(s);
      var (e, rest) := ParseEntry(s).value;
      ReadEntriesAreWritten(rest);
      var (entries, exe) := ReadEntries(rest).value;
      EndMarkIff(e, rest);
      PrependEntry(e, entries, exe);
    }
  }

  lemma {:induction false} PrependEntry(e: Entry, entries: seq<Entry>, exe: seq<byte>)
    requires Fits(e) && |e.md5| == MD5_LENGTH && Writable(entries)
    ensures var all := [e] + entries;
            && Writable(all)
            && EntriesBytes(all) + MAGIC + exe == EntryBytes(e) + (EntriesBytes(entries) + MAGIC + exe)
            && (!LooksLikeEnd(e) ==> Readable(all) == 1 + Readable(entries))
  {
    hide EntryBytes, LooksLikeEnd;
    var all := [e] + entries;
    assert all[1..] == entries && forall x <- all :: x == e || x in entries;
  }

  /** Whatever the reader accepts is a written package: writing the result again gives the same bytes. */
  lemma {:induction false} ReadThenWrite(data: seq<byte>)
    requires ReadPackage(data).Ok?
    ensures var (entries, exe) := ReadPackage(data).value;
            Writable(entries) && PackageBytes(entries, exe) == data
  {
    hide ReadEntries, EntriesBytes, Readable;
    var rest := data[|MAGIC|..];
    assert data[..|MAGIC|] == MAGIC && ReadPackage(data) == ReadEntries(rest);
    ReadEntriesAreWritten(rest);
    hide ReadPackage, Fits;
    var (entries, exe) := ReadPackage(data).value;
    assert data == MAGIC + rest;
    assert MAGIC + (EntriesBytes(entries) + MAGIC + exe) == MAGIC + EntriesBytes(entries) + MAGIC + exe;
  }

  /** What a written package looks like, byte by byte: big-endian lengths, each in front of what it measures. */
  lemma {:induction false} EntryLayout(e: Entry)
    requires Fits(e) && |e.md5| == MD5_LENGTH
    ensures var s, n, m := EntryBytes(e), |e.path|, |e.data|;
            && |s| == 4 + n + 4 + m + 32
            && n == s[0] as int * 0x100_0000 + s[1] as int * 0x1_0000 + s[2] as int * 0x100 + s[3]
            && s[4..4 + n] == e.path
            && m == s[4 + n] as int * 0x100_0000 + s[5 + n] as int * 0x1_0000 + s[6 + n] as int * 0x100 + s[7 + n]
            && s[8 + n..8 + n + m] == e.data
            && s[8 + n + m..] == e.md5
  {
    hide BeBytes;
    var s, n, m := EntryBytes(e), |e.path|, |e.data|;
    BeRoundTrip(n, BeBytes(n));
    BeRoundTrip(m, BeBytes(m));
    assert s[..4] == BeBytes(n) && s[4 + n..8 + n] == BeBytes(m);
  }

  /** Why a file is refused: nothing behind the mark, another mark, or an entry or end mark that is cut off. */
  lemma {:induction false} RefusalTells(data: seq<byte>)
    ensures var r := ReadPackage(data);
            && (r == Err(BinDataInvalid) <==> |data| <= 8)
            && (r == Err(NotAPackage) <==> |data| > 8 && data[..8] != MAGIC)
            && (r == Err(OutOfBounds) <==>
                  |data| > 8 && data[..8] == MAGIC &&
                  forall entries, exe :: Writable(entries) ==> PackageBytes(entries, exe) != data)
  {
    hide ReadEntries, EntriesBytes, Readable;
    if |data| > 8 && data[..8] == MAGIC {
      OnlyOutOfBounds(data[8..]);
      if ReadPackage(data).Ok? {
        ReadThenWrite(data);
        var (entries, exe) := ReadPackage(data).value;
        assert PackageBytes(entries, exe) == data;
      }
      forall entries, exe | Writable(entries) && PackageBytes(entries, exe) == data
        ensures ReadPackage(data).Ok?
      {
        WriteThenRead(entries, exe);
      }
    }
  }

  lemma {:induction false} OnlyOutOfBounds(s: seq<byte>)
    ensures ReadEntries(s).Err? ==> ReadEntries(s) == Err(OutOfBounds)
    decreases |s|
  {
    hide ParseEntry;
    if |s| >= |MAGIC| && s[..|MAGIC|] != MAGIC && ParseEntry(s).Some? {
      ParsedIsWritten(s);
      OnlyOutOfBounds(ParseEntry(s).value.1);
    }
  }

  // ----- the programs -----

  datatype WriteError = OverflowError

  /** Writes entry by entry; a length that four bytes cannot hold ends the run with the file cut off there. */
  method WritePackageMetadata(table: seq<Entry>, exe: seq<byte>) returns (r: Result<(), WriteError>, file: seq<byte>)
    ensures r.Ok? <==> forall e <- table :: Fits(e)
    ensures r.Ok? ==> file == PackageBytes(table, exe)
  {
    file := MAGIC;
    ghost var done: seq<Entry> := [];
    for i := 0 to |table|
      invariant done == table[..i]
      invariant forall k :: 0 <= k < i ==> Fits(table[k])
      invariant file == MAGIC + EntriesBytes(done)
    {
      hide BeBytes, EntryBytes, EntriesBytes;
      var e := table[i];
      if |e.path| >= U32 {
        assert e in table && !Fits(e);
        return Err(OverflowError), file;
      }
      ghost var before := file;
      file := file + BeBytes(|e.path|);
      file := file + e.path;
      if |e.data| >= U32 {
        assert e in table && !Fits(e);
        return Err(OverflowError), file;
      }
      file := file + BeBytes(|e.data|);
      file := file + e.data;
      file := file + e.md5;
      Appended(before, e);
      EntriesSnoc(done, e);
      done := done + [e];
    }
    assert table[..|table|] == table;
    file := file + MAGIC;
    file := file + exe;
    return Ok(()), file;
  }

  lemma {:induction false} Appended(file: seq<byte>, e: Entry)
    requires Fits(e)
    ensures file + BeBytes(|e.path|) + e.path + BeBytes(|e.data|) + e.data + e.md5 == file + EntryBytes(e)
  {
    hide BeBytes;
  }

  lemma {:induction false} EntriesSnoc(entries: seq<Entry>, e: Entry)
    requires (forall x <- entries :: Fits(x)) && Fits(e)
    ensures EntriesBytes(entries + [e]) == EntriesBytes(entries) + EntryBytes(e)
    decreases |entries|
  {
    var all := entries + [e];
    if entries == [] {
      assert all == [e] && all[1..] == [];
    } else {
      assert all[1..] == entries[1..] + [e];
      EntriesSnoc(entries[1..], e);
    }
  }

  /** One round of the reader's loop: the entry at `base` and the bytes it takes. */
  method ReadOne(binData: seq<byte>, base: nat) returns (r: Option<(Entry, nat)>)
    requires base + 8 <= |binData|
    ensures match r
            case None => ParseEntry(binData[base..]) == None
            case Some((e, offset)) =>
              0 < offset <= |binData| - base && ParseEntry(binData[base..]) == Some((e, binData[base + offset..]))
  {
    ghost var s := binData[base..];
    var offset := 0;
    var pathLength := BeValue(binData[base..base + 4]);
    assert binData[base..base + 4] == s[..4];
    offset := offset + 4;
    if base + offset + pathLength > |binData| {
      return None;
    }
    var path := binData[base + offset..base + offset + pathLength];
    offset := offset + pathLength;
    if base + offset + 4 > |binData| {
      return None;
    }
    var fileLength := BeValue(binData[base + offset..base + offset + 4]);
    ghost var s1 := s[4..];
    assert binData[base + offset..base + offset + 4] == s1[pathLength..pathLength + 4];
    offset := offset + 4;
    ghost var s2 := s1[pathLength + 4..];
    assert s2 == binData[base + offset..];
    if base + offset + fileLength > |binData| {
      return None;
    }
    var raw := binData[base + offset..base + offset + fileLength];
    offset := offset + fileLength;
    if base + offset + MD5_LENGTH > |binData| {
      return None;
    }
    var md5 := binData[base + offset..base + offset + MD5_LENGTH];
    offset := offset + MD5_LENGTH;
    assert path == s1[..pathLength] && raw == s2[..fileLength];
    assert md5 == s2[fileLength..fileLength + MD5_LENGTH];
    assert binData[base + offset..] == s2[fileLength + MD5_LENGTH..];
    return Some((Entry(path, raw, md5), offset));
  }

  lemma {:induction false} EndMarkAt(data: seq<byte>, base: nat)
    requires base + 8 <= |data|
    ensures data[base..base + 8] == data[base..][..8] && data[base + 8..] == data[base..][8..]
  {
  }

  method Read(binData: seq<byte>) returns (r: Result<(seq<Entry>, seq<byte>), Panic>)
    ensures r == ReadPackage(binData)
  {
    var base := 0;
    var parsed: seq<Entry> := [];
    if |binData| <= |MAGIC| {
      return Err(BinDataInvalid);
    }
    if binData[..|MAGIC|] != MAGIC {
      return Err(NotAPackage);
    }
    base := base + |MAGIC|;
    ghost var s := binData[base..];
    AfterNothing(ReadEntries(s));
    hide ReadPackage, After, ReadEntries, ParseEntry;
    while true
      invariant |MAGIC| <= base <= |binData|
      invariant s == binData[base..]
      invariant ReadPackage(binData) == After(parsed, ReadEntries(s))
      decreases |binData| - base
    {
      ReadEntriesStep(parsed, s);
      if base + |MAGIC| > |binData| {
        return Err(OutOfBounds);
      }
      EndMarkAt(binData, base);
      if binData[base..base + |MAGIC|] == MAGIC {
        base := base + |MAGIC|;
        return Ok((parsed, binData[base..]));
      }
      var next := ReadOne(binData, base);
      if next.None? {
        return Err(OutOfBounds);
      }
      s := binData[base + next.value.1..];
      parsed := parsed + [next.value.0];
      base := base + next.value.1;
    }
  }

  /** A reader's result behind entries that were already parsed. */
  function After(parsed: seq<Entry>, r: Result<(seq<Entry>, seq<byte>), Panic>): Result<(seq<Entry>, seq<byte>),
                 Panic> {
    match r
    case Err(p) => Err(p)
    case Ok((entries, exe)) => Ok((parsed + entries, exe))
  }

  lemma {:induction false} AfterNothing(r: Result<(seq<Entry>, seq<byte>), Panic>)
    ensures After([], r) == r
  {
    if r.Ok? {
      assert [] + r.value.0 == r.value.0;
    }
  }

  lemma {:induction false} ReadEntriesStep(parsed: seq<Entry>, s: seq<byte>)
    ensures After(parsed, ReadEntries(s))
            == if |s| < |MAGIC| then Err(OutOfBounds)
               else if s[..|MAGIC|] == MAGIC then Ok((parsed, s[|MAGIC|..]))
               else match ParseEntry(s)
                    case None => Err(OutOfBounds)
                    case Some((e, rest)) => After(parsed + [e], ReadEntries(rest))
  {
    hide ParseEntry;
    if |s| >= |MAGIC| {
      if s[..|MAGIC|] == MAGIC {
        assert parsed + [] == parsed;
      } else if ParseEntry(s).Some? {
        var (e, rest) := ParseEntry(s).value;
        if ReadEntries(rest).Ok? {
          var es := ReadEntries(rest).value.0;
          assert parsed + ([e] + es) == (parsed + [e]) + es;
        }
      }
    }
  }
}
