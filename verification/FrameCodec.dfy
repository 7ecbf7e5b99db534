/**
 The length-prefixed frame codec of libs/hbb_common/src/bytes_codec.rs.

 A frame is a little-endian header of one to four bytes followed by the payload.
 The two low bits of the header hold its width minus one, the rest the payload length.
 */
module FrameCodec {
  import opened Basics

  const USIZE_MAX := 0xFFFF_FFFF_FFFF_FFFF
  const MAX_PAYLOAD := 0x3FFF_FFFF

  datatype DecodeState = Head | Data(n: nat)

  // ----- wire format -----

  /** The narrowest header width that can hold a payload length. */
  function Width(n: nat): (w: nat)
    requires n <= MAX_PAYLOAD
  {
    if n <= 0x3F then 1 else if n <= 0x3FFF then 2 else if n <= 0x3F_FFFF then 3 else 4
  }

  function Header(n: nat): seq<byte>
    requires n <= MAX_PAYLOAD
  {
    LeBytes(4 * n + (Width(n) - 1), Width(n))
  }

  /** A payload on the wire, or None for a payload too long for a four-byte header. */
  function EncodeFrame(data: seq<byte>): (r: Option<seq<byte>>)
    ensures r.Some? <==> |data| <= 0x3FFF_FFFF
  {
    if |data| <= MAX_PAYLOAD then Some(Header(|data|) + data) else None
  }

  /** Reads a header: its width and the payload length it announces. */
  function ParseHeader(s: seq<byte>): Option<(nat, nat)> {
    if s == [] then None
    else
      var w := s[0] % 4 + 1;
      if |s| < w then None else Some((w, LeValue(s[..w]) / 4))
  }

  lemma {:induction false} HeaderParses(n: nat, tail: seq<byte>)
    requires n <= MAX_PAYLOAD
    ensures ParseHeader(Header(n) + tail) == Some((Width(n), n))
  {
    var w, v := Width(n), 4 * n + (Width(n) - 1);
    Widths();
    LeValueOfBytes(v, w);
    var s := Header(n) + tail;
    assert s[..w] == Header(n);
    assert s[0] == v % 256;
    assert (v % 256) % 4 == w - 1;
  }

  /** The encoder never spends more header bytes than any header the decoder reads as the same length. */
  lemma {:induction false} HeaderIsShortest(s: seq<byte>)
    requires ParseHeader(s).Some?
    ensures ParseHeader(s).value.1 <= 0x3FFF_FFFF
    ensures Width(ParseHeader(s).value.1) <= ParseHeader(s).value.0
  {
    var (w, n) := ParseHeader(s).value;
    LeBytesOfValue(s[..w]);
    Widths();
  }

  // ----- decoding a buffer -----

  datatype Step =
    | Frame(data: seq<byte>, rest: seq<byte>)
    | More(state: DecodeState, rest: seq<byte>)
    | TooBig(rest: seq<byte>)

  function DecodeData(n: nat, buf: seq<byte>): Step {
    if |buf| < n then More(Data(n), buf) else Frame(buf[..n], buf[n..])
  }

  /** One call of the decoder on the buffered bytes, outside raw mode. */
  function DecodeStep(state: DecodeState, buf: seq<byte>, limit: nat): Step {
    match state
    case Data(n) => DecodeData(n, buf)
    case Head =>
      match ParseHeader(buf)
      case None => More(Head, buf)
      case Some((w, n)) => if n > limit then TooBig(buf) else DecodeData(n, buf[w..])
  }

  /** All frames the decoder yields before it needs more bytes or fails. */
  datatype Drained = Drained(frames: seq<seq<byte>>, state: DecodeState, rest: seq<byte>, failed: bool)

  function Measure(state: DecodeState, buf: seq<byte>): nat {
    |buf| + (if state.Data? then 1 else 0)
  }

  function Drain(state: DecodeState, buf: seq<byte>, limit: nat): Drained
    decreases Measure(state, buf)
  {
    match DecodeStep(state, buf, limit)
    case More(state', rest) => Drained([], state', rest, false)
    case TooBig(rest) => Drained([], Head, rest, true)
    case Frame(data, rest) =>
      var d := Drain(Head, rest, limit);
      d.(frames := [data] + d.frames)
  }

  /** Feeding a byte stream in chunks; a failed decoder reads nothing further. */
  function Feed(state: DecodeState, buf: seq<byte>, chunks: seq<seq<byte>>, limit: nat): Drained
    decreases |chunks|
  {
    var d := Drain(state, buf, limit);
    if d.failed || chunks == [] then d
    else
      var later := Feed(d.state, d.rest + chunks[0], chunks[1..], limit);
      later.(frames := d.frames + later.frames)
  }

  // ----- chunk invariance -----

  lemma {:induction false} DecodeExtends(state: DecodeState, buf: seq<byte>, more: seq<byte>, limit: nat)
    ensures match DecodeStep(state, buf, limit)
            case Frame(data, rest) => DecodeStep(state, buf + more, limit) == Frame(data, rest + more)
            case TooBig(rest) => DecodeStep(state, buf + more, limit) == TooBig(rest + more)
            case More(state', rest) => DecodeStep(state, buf + more, limit) == DecodeStep(state', rest + more, limit)
  {
    var s := buf + more;
    if state.Data? {
      if |buf| >= state.n {
        assert s[..state.n] == buf[..state.n] && s[state.n..] == buf[state.n..] + more;
      }
    } else if ParseHeader(buf).Some? {
      var (w, n) := ParseHeader(buf).value;
      assert s[..w] == buf[..w] && s[w..] == buf[w..] + more;
      if |buf[w..]| >= n {
        assert (buf[w..] + more)[..n] == buf[w..][..n];
        assert (buf[w..] + more)[n..] == buf[w..][n..] + more;
      }
    }
  }

  lemma {:induction false} DecodeProgress(state: DecodeState, buf: seq<byte>, limit: nat)
    ensures match DecodeStep(state, buf, limit)
            case Frame(_, rest) => Measure(Head, rest) < Measure(state, buf)
            case _ => true
  {
  }

  lemma {:induction false} DrainExtends(state: DecodeState, buf: seq<byte>, more: seq<byte>, limit: nat)
    ensures var d := Drain(state, buf, limit);
            if d.failed
            then Drain(state, buf + more, limit) == d.(rest := d.rest + more)
            else var later := Drain(d.state, d.rest + more, limit);
                 Drain(state, buf + more, limit) == later.(frames := d.frames + later.frames)
    decreases Measure(state, buf)
  {
    hide DecodeStep;
    DecodeExtends(state, buf, more, limit);
    DecodeProgress(state, buf, limit);
    match DecodeStep(state, buf, limit)
    case More(state', rest) =>
      var later := Drain(state', rest + more, limit);
      assert [] + later.frames == later.frames;
    case TooBig(rest) =>
    case Frame(data, rest) =>
      DrainExtends(Head, rest, more, limit);
      var d := Drain(Head, rest, limit);
      if !d.failed {
        var later := Drain(d.state, d.rest + more, limit);
        assert [data] + (d.frames + later.frames) == ([data] + d.frames) + later.frames;
      }
  }

  /** A drained decoder has nothing left to yield, so feeding may be resumed from it. */
  lemma {:induction false} DrainedIsDry(state: DecodeState, buf: seq<byte>, limit: nat)
    ensures var d := Drain(state, buf, limit);
            !d.failed ==> Drain(d.state, d.rest, limit) == Drained([], d.state, d.rest, false)
    decreases Measure(state, buf)
  {
    DecodeProgress(state, buf, limit);
    DecodeExtends(state, buf, [], limit);
    match DecodeStep(state, buf, limit)
    case Frame(_, rest) => DrainedIsDry(Head, rest, limit);
    case More(state', rest) => assert buf + [] == buf && rest + [] == rest;
    case TooBig(_) =>
  }

  lemma {:induction false} FeedContinues(state: DecodeState, buf: seq<byte>, chunks: seq<seq<byte>>, limit: nat)
    ensures var d, fed := Drain(state, buf, limit), Feed(state, buf, chunks, limit);
            if d.failed then fed == d
            else && Drain(d.state, d.rest, limit) == Drained([], d.state, d.rest, false)
                 && var rest := Feed(d.state, d.rest, chunks, limit);
                    fed == rest.(frames := d.frames + rest.frames)
  {
    var d := Drain(state, buf, limit);
    DrainedIsDry(state, buf, limit);
    if !d.failed && chunks == [] {
      assert d.frames + [] == d.frames;
    } else if !d.failed {
      var later := Feed(d.state, d.rest + chunks[0], chunks[1..], limit);
      assert [] + later.frames == later.frames;
    }
  }

  lemma {:induction false} FeedFromDry(state: DecodeState, buf: seq<byte>, chunks: seq<seq<byte>>, limit: nat)
    requires Drain(state, buf, limit) == Drained([], state, buf, false)
    ensures chunks == [] ==> Feed(state, buf, chunks, limit) == Drained([], state, buf, false)
    ensures chunks != [] ==>
              Feed(state, buf, chunks, limit) == Feed(state, buf + chunks[0], chunks[1..], limit)
  {
    if chunks != [] {
      var later := Feed(state, buf + chunks[0], chunks[1..], limit);
      assert [] + later.frames == later.frames;
    }
  }

  /** The frames and the error depend on the concatenated bytes only, whatever the chunks were. */
  lemma {:induction false} ChunkInvariance(state: DecodeState, buf: seq<byte>, chunks: seq<seq<byte>>, limit: nat)
    ensures var fed, whole := Feed(state, buf, chunks, limit), Drain(state, buf + Concat(chunks), limit);
            && fed.frames == whole.frames
            && fed.failed == whole.failed
            && (!fed.failed ==> fed == whole)
    decreases |chunks|
  {
    DrainExtends(state, buf, Concat(chunks), limit);
    var d := Drain(state, buf, limit);
    if chunks == [] {
      assert buf + Concat(chunks) == buf;
    } else if !d.failed {
      ChunkInvariance(d.state, d.rest + chunks[0], chunks[1..], limit);
      assert d.rest + chunks[0] + Concat(chunks[1..]) == d.rest + Concat(chunks);
    }
  }

  // ----- decoding inverts encoding -----

  ghost predicate AllFit(msgs: seq<seq<byte>>, limit: nat) {
    forall m <- msgs :: |m| <= MAX_PAYLOAD && |m| <= limit
  }

  function Wire(msgs: seq<seq<byte>>): seq<byte>
    requires forall m <- msgs :: |m| <= MAX_PAYLOAD
  {
    if msgs == [] then [] else EncodeFrame(msgs[0]).value + Wire(msgs[1..])
  }

  lemma {:induction false} WireCons(m: seq<byte>, msgs: seq<seq<byte>>)
    requires |m| <= MAX_PAYLOAD && forall x <- msgs :: |x| <= MAX_PAYLOAD
    ensures Wire([m] + msgs) == EncodeFrame(m).value + Wire(msgs)
  {
    assert ([m] + msgs)[1..] == msgs;
  }

  lemma {:induction false} DecodeEncoded(m: seq<byte>, tail: seq<byte>, limit: nat)
    requires |m| <= MAX_PAYLOAD
    ensures var s := EncodeFrame(m).value + tail;
            DecodeStep(Head, s, limit) == if |m| <= limit then Frame(m, tail) else TooBig(s)
  {
    var s := EncodeFrame(m).value + tail;
    HeaderParses(|m|, m + tail);
    assert s == Header(|m|) + (m + tail);
    assert s[Width(|m|)..] == m + tail;
  }

  lemma {:induction false} DecodeInvertsEncode(msgs: seq<seq<byte>>, tail: seq<byte>, limit: nat)
    requires AllFit(msgs, limit)
    ensures var d := Drain(Head, tail, limit);
            Drain(Head, Wire(msgs) + tail, limit) == d.(frames := msgs + d.frames)
    decreases |msgs|
  {
    hide DecodeStep, EncodeFrame;
    if msgs == [] {
      assert Wire(msgs) + tail == tail;
      assert msgs + Drain(Head, tail, limit).frames == Drain(Head, tail, limit).frames;
    } else {
      DecodeEncoded(msgs[0], Wire(msgs[1..]) + tail, limit);
      assert Wire(msgs) + tail == EncodeFrame(msgs[0]).value + (Wire(msgs[1..]) + tail);
      DecodeInvertsEncode(msgs[1..], tail, limit);
      var d := Drain(Head, tail, limit);
      assert [msgs[0]] + (msgs[1..] + d.frames) == msgs + d.frames;
    }
  }

  /** End to end: encoded messages, cut into any chunks, come back exactly when none exceeds the decoder's limit. */
  lemma {:induction false} RoundTrip(msgs: seq<seq<byte>>, chunks: seq<seq<byte>>, limit: nat)
    requires forall m <- msgs :: |m| <= MAX_PAYLOAD
    requires Concat(chunks) == Wire(msgs)
    ensures AllFit(msgs, limit) <==> Feed(Head, [], chunks, limit) == Drained(msgs, Head, [], false)
  {
    ChunkInvariance(Head, [], chunks, limit);
    assert [] + Concat(chunks) == Wire(msgs);
    if AllFit(msgs, limit) {
      DecodeInvertsEncode(msgs, [], limit);
      assert Wire(msgs) + [] == Wire(msgs);
      assert msgs + [] == msgs;
    } else {
      OversizedFails(msgs, limit);
    }
  }

  lemma {:induction false} OversizedFails(msgs: seq<seq<byte>>, limit: nat)
    requires forall m <- msgs :: |m| <= MAX_PAYLOAD
    requires !AllFit(msgs, limit)
    ensures Drain(Head, Wire(msgs), limit).failed
  {
    DecodeEncoded(msgs[0], Wire(msgs[1..]), limit);
    if |msgs[0]| <= limit {
      assert msgs == [msgs[0]] + msgs[1..];
      OversizedFails(msgs[1..], limit);
    }
  }

  // ----- raw mode -----

  /** In raw mode every non-empty read is handed on as it is. */
  function RawFeed(chunks: seq<seq<byte>>): seq<seq<byte>> {
    if chunks == [] then []
    else (if chunks[0] == [] then [] else [chunks[0]]) + RawFeed(chunks[1..])
  }

  lemma {:induction false} RawKeepsBytes(chunks: seq<seq<byte>>)
    ensures Concat(RawFeed(chunks)) == Concat(chunks)
  {
    if chunks != [] {
      RawKeepsBytes(chunks[1..]);
      ConcatAppend(if chunks[0] == [] then [] else [chunks[0]], RawFeed(chunks[1..]));
      assert Concat([chunks[0]]) == chunks[0] + Concat([]);
    }
  }

  /** All ways of feeding these bytes give the same frames. */
  ghost predicate RawInvariant(bytes: seq<byte>) {
    forall a: seq<seq<byte>>, b: seq<seq<byte>> ::
      Concat(a) == bytes && Concat(b) == bytes ==> RawFeed(a) == RawFeed(b)
  }

  lemma {:induction false} ConcatPair(a: seq<byte>, b: seq<byte>)
    ensures Concat([a]) == a && Concat([a, b]) == a + b
  {
    assert [a][1..] == [] && [a, b][1..] == [b];
    assert Concat([a]) == a + Concat([]) && Concat([b]) == b + Concat([]);
  }

  /** At most one byte can only be read at once. */
  lemma {:induction false} RawShort(chunks: seq<seq<byte>>)
    requires |Concat(chunks)| <= 1
    ensures RawFeed(chunks) == if Concat(chunks) == [] then [] else [Concat(chunks)]
  {
    if chunks != [] {
      RawShort(chunks[1..]);
      assert Concat(chunks) == chunks[0] + Concat(chunks[1..]);
      if chunks[0] == [] {
        assert Concat(chunks) == Concat(chunks[1..]);
      } else {
        assert Concat(chunks[1..]) == [] && Concat(chunks) == chunks[0];
      }
    }
  }

  /** Raw mode is chunk invariant for a stream exactly if it has at most one byte. */
  lemma {:induction false} RawDependsOnChunks(bytes: seq<byte>)
    ensures RawInvariant(bytes) <==> |bytes| <= 1
  {
    if |bytes| <= 1 {
      forall a: seq<seq<byte>>, b: seq<seq<byte>> | Concat(a) == bytes && Concat(b) == bytes
        ensures RawFeed(a) == RawFeed(b)
      {
        RawShort(a);
        RawShort(b);
      }
    } else {
      RawLong(bytes);
    }
  }

  /** More bytes can be read together or the first one on its own. */
  lemma {:induction false} RawLong(bytes: seq<byte>)
    requires |bytes| > 1
    ensures var whole, cut := [bytes], [bytes[..1], bytes[1..]];
            Concat(whole) == bytes && Concat(cut) == bytes && RawFeed(whole) != RawFeed(cut)
  {
    var head, tail := bytes[..1], bytes[1..];
    ConcatPair(bytes, []);
    ConcatPair(head, tail);
    assert head + tail == bytes;
    RawFirst(bytes, []);
    RawFirst(head, [tail]);
    assert [bytes] + [] == [bytes] && [head] + [tail] == [head, tail];
  }

  lemma {:induction false} RawFirst(chunk: seq<byte>, more: seq<seq<byte>>)
    requires chunk != []
    ensures RawFeed([chunk] + more) == [chunk] + RawFeed(more)
  {
    assert ([chunk] + more)[1..] == more;
  }

  // ----- the codec object -----

  datatype CodecError = TooBigPacket | Overflow

  /** A growable byte buffer, the role BytesMut plays. */
  class Buffer {
    var bytes: seq<byte>

    constructor ()
      ensures bytes == []
    {
      bytes := [];
    }
  }

  class BytesCodec {
    var state: DecodeState
    var raw: bool
    var maxPacketLength: nat

    constructor ()
      ensures state == Head && !raw && maxPacketLength == 0xFFFF_FFFF_FFFF_FFFF
    {
      state, raw, maxPacketLength := Head, false, USIZE_MAX;
    }

    method SetRaw()
      modifies this`raw
      ensures raw
    {
      raw := true;
    }

    method SetMaxPacketLength(n: nat)
      modifies this`maxPacketLength
      ensures maxPacketLength == n
    {
      maxPacketLength := n;
    }

    method DecodeHead(src: Buffer) returns (r: Result<Option<nat>, CodecError>)
      modifies src
      ensures match ParseHeader(old(src.bytes))
              case None => r == Ok(None) && src.bytes == old(src.bytes)
              case Some((w, n)) =>
                if n > maxPacketLength then r == Err(TooBigPacket) && src.bytes == old(src.bytes)
                else r == Ok(Some(n)) && src.bytes == old(src.bytes)[w..]
    {
      var s := src.bytes;
      if s == [] {
        return Ok(None);
      }
      var headLen := s[0] % 4 + 1;
      if |s| < headLen {
        return Ok(None);
      }
      hide Or, Shl;
      var n: nat := s[0];
      if headLen > 1 {
        OrByte(n, s[1], 8);
        n := Or(n, Shl(s[1], 8));
      }
      if headLen > 2 {
        OrByte(n, s[2], 16);
        n := Or(n, Shl(s[2], 16));
      }
      if headLen > 3 {
        OrByte(n, s[3], 24);
        n := Or(n, Shl(s[3], 24));
      }
      LeValueUpTo4(s[..headLen]);
      n := n / 4;
      if n > maxPacketLength {
        return Err(TooBigPacket);
      }
      src.bytes := s[headLen..];
      return Ok(Some(n));
    }

    method DecodeData(n: nat, src: Buffer) returns (r: Option<seq<byte>>)
      modifies src
      ensures if |old(src.bytes)| < n then r == None && src.bytes == old(src.bytes)
              else r == Some(old(src.bytes)[..n]) && src.bytes == old(src.bytes)[n..]
    {
      if |src.bytes| < n {
        return None;
      }
      r := Some(src.bytes[..n]);
      src.bytes := src.bytes[n..];
    }

    method Decode(src: Buffer) returns (r: Result<Option<seq<byte>>, CodecError>)
      modifies this`state, src
      ensures old(raw) ==> state == old(state) && src.bytes == []
                           && r == Ok(if old(src.bytes) == [] then None else Some(old(src.bytes)))
      ensures !old(raw) ==>
                match DecodeStep(old(state), old(src.bytes), maxPacketLength)
                case Frame(data, rest) => r == Ok(Some(data)) && state == Head && src.bytes == rest
                case More(s, rest) => r == Ok(None) && state == s && src.bytes == rest
                case TooBig(rest) => r == Err(TooBigPacket) && state == Head && src.bytes == rest
    {
      if raw {
        if src.bytes != [] {
          r := Ok(Some(src.bytes));
          src.bytes := [];
          return;
        } else {
          return Ok(None);
        }
      }
      var n: nat;
      match state {
        case Data(m) => n := m;
        case Head =>
          var head := DecodeHead(src);
          match head {
            case Err(e) => return Err(e);
            case Ok(None) => return Ok(None);
            case Ok(Some(m)) =>
              state := Data(m);
              n := m;
          }
      }
      var data := DecodeData(n, src);
      if data.Some? {
        state := Head;
      }
      return Ok(data);
    }

    method Encode(data: seq<byte>, buf: Buffer) returns (r: Result<(), CodecError>)
      modifies buf
      ensures raw ==> r == Ok(()) && buf.bytes == old(buf.bytes) + data
      ensures !raw ==> match EncodeFrame(data)
                       case Some(w) => r == Ok(()) && buf.bytes == old(buf.bytes) + w
                       case None => r == Err(Overflow) && buf.bytes == old(buf.bytes)
    {
      hide LeBytes, Header, Or, Shl;
      if raw {
        buf.bytes := buf.bytes + data;
        return Ok(());
      }
      HeaderAsWritten(|data|);
      if |data| <= 0x3F {
        buf.bytes := buf.bytes + LeBytes(Shl(|data|, 2) % 0x100, 1);
      } else if |data| <= 0x3FFF {
        buf.bytes := buf.bytes + LeBytes(Or(Shl(|data|, 2) % U16, 1), 2);
      } else if |data| <= 0x3F_FFFF {
        var h := Or(Shl(|data|, 2) % U32, 2);
        buf.bytes := buf.bytes + LeBytes(h % U16, 2);
        buf.bytes := buf.bytes + LeBytes((h / U16) % 0x100, 1);
      } else if |data| <= MAX_PAYLOAD {
        buf.bytes := buf.bytes + LeBytes(Or(Shl(|data|, 2) % U32, 3), 4);
      } else {
        return Err(Overflow);
      }
      assert buf.bytes == old(buf.bytes) + Header(|data|);
      buf.bytes := buf.bytes + data;
      assert buf.bytes == old(buf.bytes) + (Header(|data|) + data);
      return Ok(());
    }
  }

  lemma {:induction false} OrByte(low: nat, b: byte, k: nat)
    requires k in {8, 16, 24} && low < (if k == 8 then 0x100 else if k == 16 then 0x1_0000 else 0x100_0000)
    ensures Or(low, Shl(b, k)) == low + b as int * (if k == 8 then 0x100 else if k == 16 then 0x1_0000 else 0x100_0000)
  {
    hide Or, Shl;
    ByteShifts(b);
    OrAbove(low, b, k);
  }

  /** The two low bits of a length shifted left by two are clear, so or-ing in the width tag adds it. */
  lemma {:induction false} TagAdds(n: nat, tag: nat)
    requires tag < 4
    ensures Shl(n, 2) == 4 * n && Or(Shl(n, 2), tag) == 4 * n + tag
  {
    assert Shl(1, 1) == 2 && Shl(1, 2) == 4;
    assert Shl(n, 1) == 2 * Shl(n, 0) && Shl(n, 2) == 2 * Shl(n, 1);
    OrBelowShift(n, 2, tag);
  }

  /** The header as the encoder writes it, shift by shift and cast by cast. */
  lemma {:induction false} HeaderAsWritten(n: nat)
    ensures n <= 0x3F ==> Header(n) == LeBytes(Shl(n, 2) % 0x100, 1)
    ensures 0x3F < n <= 0x3FFF ==> Header(n) == LeBytes(Or(Shl(n, 2) % U16, 1), 2)
    ensures 0x3FFF < n <= 0x3F_FFFF ==>
              var h := Or(Shl(n, 2) % U32, 2);
              Header(n) == LeBytes(h % U16, 2) + LeBytes((h / U16) % 0x100, 1)
    ensures 0x3F_FFFF < n <= MAX_PAYLOAD ==> Header(n) == LeBytes(Or(Shl(n, 2) % U32, 3), 4)
  {
    hide LeBytes, Or, Shl;
    TagAdds(n, 1);
    TagAdds(n, 2);
    TagAdds(n, 3);
    if n <= 0x3F {
      assert (4 * n) % 0x100 == 4 * n;
    } else if n <= 0x3FFF {
      assert (4 * n) % U16 == 4 * n;
    } else if n <= MAX_PAYLOAD {
      assert (4 * n) % U32 == 4 * n;
      if n <= 0x3F_FFFF {
        SplitThree(4 * n + 2);
      }
    }
  }

  /** A three-byte header is its low two bytes followed by the third. */
  lemma {:induction false} SplitThree(h: nat)
    requires h < 0x100_0000
    ensures LeBytes(h, 3) == LeBytes(h % U16, 2) + LeBytes((h / U16) % 0x100, 1)
  {
    SplitThreeDigits(h);
    var m := h / 256;
    assert LeBytes(h, 3) == [h % 256] + LeBytes(m, 2);
    assert LeBytes(m, 2) == [m % 256] + LeBytes(m / 256, 1);
    assert LeBytes(h % 0x1_0000, 2) == [h % 256] + LeBytes(m % 256, 1);
    assert LeBytes(m / 256, 1) == [m / 256] + LeBytes(0, 0);
  }

  lemma {:induction false} SplitThreeDigits(h: nat)
    requires h < 0x100_0000
    ensures h % 0x1_0000 % 256 == h % 256 && h % 0x1_0000 / 256 == h / 256 % 256
    ensures h / 256 / 256 == h / 0x1_0000 < 256
  {
    var hi, lo := h / 0x1_0000, h % 0x1_0000;
    var l1, l0 := lo / 256, lo % 256;
    assert h == 256 * (256 * hi + l1) + l0;
    assert h / 256 == 256 * hi + l1;
  }
}
