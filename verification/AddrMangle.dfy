/** Address mangling of libs/hbb_common/src/lib.rs: bit packing, its inverse, and the IPv4 conversion. */
module AddrMangle {
  import opened Basics

  /** Socket addresses; an IP address is its octets in network order. */
  datatype Addr =
    | V4(ip: seq<byte>, port: nat)
    | V6(ip: seq<byte>, port: nat, flow: nat, scope: nat)

  predicate Valid(a: Addr) {
    a.port < U16 && match a
                    case V4(ip, _) => |ip| == 4
                    case V6(ip, _, flow, scope) => |ip| == 16 && flow < U32 && scope < U32
  }

  const LOOPBACK: seq<byte> := [0, 0, 0, 0, 0, 0, 0, 0, 0, 0, 0, 0, 0, 0, 0, 1]
  const TEN_ZEROS: seq<byte> := [0, 0, 0, 0, 0, 0, 0, 0, 0, 0]

  /** An IPv4-compatible or IPv4-mapped address (sections 2.5.5.1 and 2.5.5.2 of RFC 4291) other than ::1. */
  predicate CarriesV4(ip: seq<byte>)
    requires |ip| == 16
  {
    ip != LOOPBACK && ip[..10] == TEN_ZEROS && (ip[10..12] == [0, 0] || ip[10..12] == [0xff, 0xff])
  }

  function TryIntoV4(a: Addr): (r: Addr)
    requires Valid(a)
    ensures Valid(r)
  {
    match a
    case V4(_, _) => a
    case V6(ip, port, _, _) => if CarriesV4(ip) then V4(ip[12..16], port) else a
  }

  /** The IPv4-mapped and the IPv4-compatible form of four octets. */
  function Mapped(octets: seq<byte>): seq<byte> {
    TEN_ZEROS + [0xff, 0xff] + octets
  }

  function Compatible(octets: seq<byte>): seq<byte> {
    TEN_ZEROS + [0, 0] + octets
  }

  /** The mapped form of an address turns into the address, and so does its compatible form, unless that is ::1. */
  lemma {:induction false} TryIntoV4Unwraps(octets: seq<byte>, port: nat, flow: nat, scope: nat)
    requires |octets| == 4 && port < U16 && flow < U32 && scope < U32
    ensures TryIntoV4(V6(Mapped(octets), port, flow, scope)) == V4(octets, port)
    ensures TryIntoV4(V6(Compatible(octets), port, flow, scope)) ==
            if octets == [0, 0, 0, 1] then V6(Compatible(octets), port, flow, scope) else V4(octets, port)
  {
    var m, c := Mapped(octets), Compatible(octets);
    assert m[..10] == TEN_ZEROS && m[10..12] == [0xff, 0xff] && m[12..16] == octets && m[10] != LOOPBACK[10];
    assert c[..10] == TEN_ZEROS && c[10..12] == [0, 0] && c[12..16] == octets;
    assert c == LOOPBACK <==> octets == [0, 0, 0, 1] by {
      assert LOOPBACK == TEN_ZEROS + [0, 0] + [0, 0, 0, 1];
      assert LOOPBACK[12..16] == [0, 0, 0, 1];
    }
  }

  /** Everything else stays what it is, and what has been unwrapped is not unwrapped again. */
  lemma {:induction false} TryIntoV4Keeps(a: Addr)
    requires Valid(a)
    ensures TryIntoV4(a).port == a.port && TryIntoV4(TryIntoV4(a)) == TryIntoV4(a)
    ensures TryIntoV4(a) != a <==>
            a.V6? && a.ip != LOOPBACK && exists o: seq<byte> :: |o| == 4 && (a.ip == Mapped(o) || a.ip == Compatible(o))
  {
    if a.V6? {
      var o := a.ip[12..16];
      assert a.ip == a.ip[..10] + a.ip[10..12] + o;
      if o: seq<byte> :| |o| == 4 && (a.ip == Mapped(o) || a.ip == Compatible(o)) {
        assert a.ip[..10] == TEN_ZEROS && (a.ip[10..12] == [0xff, 0xff] || a.ip[10..12] == [0, 0]);
      }
    }
  }

  // ----- shifts -----

  lemma {:induction false} Shifts(n: nat)
    ensures Shl(n, 17) == n * TWO_17 && Shl(n, 49) == n * TWO_49
    ensures Shl(1, 17) == TWO_17 && Shl(1, 49) == TWO_49
  {
    ShlMul(n, 17);
    ShlMul(n, 49);
    assert Shl(1, 8) == 0x100;
    ShlAdd(1, 8, 8);
    ShlAdd(1, 16, 16);
    ShlAdd(1, 32, 16);
    assert Shl(1, 48) == U32 * U16;
    assert Shl(1, 17) == 2 * Shl(1, 16) && Shl(1, 49) == 2 * Shl(1, 48);
  }

  lemma {:induction false} Width16()
    ensures Pow256(16) == U64 * U64
  {
    Widths();
    assert Pow256(12) == 256 * 256 * 256 * 256 * Pow256(8);
    assert Pow256(16) == 256 * 256 * 256 * 256 * Pow256(12);
  }

  lemma {:induction false} MultipleAtLeast(a: int, d: nat)
    ensures a >= 1 ==> a * d >= d
    ensures a <= -1 ==> a * d + d <= 0
  {
    assert a * d == (a - 1) * d + d && a * d == (a + 1) * d - d;
  }

  lemma {:induction false} QuotientIs(n: nat, d: nat, q: nat, r: nat)
    requires n == q * d + r && r < d
    ensures n / d == q && n % d == r
  {
    var x, m := n / d, n % d;
    assert n == x * d + m && 0 <= m < d;
    assert (q - x) * d == q * d - x * d == m - r;
    MultipleAtLeast(q - x, d);
  }

  /** The packed number as the encoder computes it. */
  function Pack(ip: nat, port: nat, tm: nat): nat {
    Or(Or(Shl(ip + tm, 49), Shl(tm, 17)), port + tm % U16)
  }

  /** The three fields do not overlap: packing is a sum of fields, each below the next one's unit. */
  lemma {:induction false} FieldsDoNotOverlap(ip: nat, port: nat, tm: nat)
    requires ip < U32 && port < U16 && tm < U32
    ensures Pack(ip, port, tm) == (ip + tm) * TWO_49 + tm * TWO_17 + (port + tm % U16)
    ensures port + tm % U16 < TWO_17 && tm * TWO_17 + (port + tm % U16) < TWO_49
    ensures Pack(ip, port, tm) < Pow256(16)
  {
    hide Or, Shl, Pow256;
    Shifts(ip + tm);
    Shifts(tm);
    OrBelowShift(ip + tm, 49, tm * TWO_17);
    var high := (ip + tm) * U32 + tm;
    Shifts(high);
    assert high * TWO_17 == (ip + tm) * TWO_49 + tm * TWO_17;
    OrBelowShift(high, 17, port + tm % U16);
    Width16();
  }

  // ----- trailing zeros -----

  /** The bytes without the zeros at their end. */
  function Stripped(bs: seq<byte>): (s: seq<byte>)
    ensures s <= bs
  {
    if bs == [] || bs[|bs| - 1] != 0 then bs else Stripped(bs[..|bs| - 1])
  }

  function Padded(bs: seq<byte>): (p: seq<byte>)
    requires |bs| <= 16
    ensures |p| == 16
  {
    bs + Zeros(16 - |bs|)
  }

  function Zeros(n: nat): (zs: seq<byte>)
    ensures |zs| == n && forall k :: 0 <= k < n ==> zs[k] == 0
  {
    if n == 0 then [] else Zeros(n - 1) + [0]
  }

  /** Padding undoes stripping. */
  lemma {:induction false} PadUndoesStrip(bs: seq<byte>)
    requires |bs| <= 16
    ensures Stripped(bs) + Zeros(|bs| - |Stripped(bs)|) == bs
    decreases |bs|
  {
    if bs != [] && bs[|bs| - 1] == 0 {
      PadUndoesStrip(bs[..|bs| - 1]);
    }
  }

  // ----- encode and decode -----

  /** `tm` is the current time in microseconds, cast to u32. */
  function Encoded(addr: Addr, tm: nat): seq<byte>
    requires Valid(addr) && tm < U32
  {
    match TryIntoV4(addr)
    case V4(ip, port) => Stripped(LeBytes(Pack(LeValue(ip), port, tm), 16))
    case V6(ip, port, _, _) => ip + LeBytes(port, 2)
  }

  /** A decoded address, or the configured listen address for other long inputs. */
  datatype Outcome = Address(addr: Addr) | AnyListenAddr

  /**
   What the decoder makes of the number that the bytes hold. Both differences wrap at 128 bits before they are cast
   to 32 and 16 bits, which is the same as wrapping there.
   */
  function Unpacked(number: nat): Outcome {
    var tm := number / TWO_17 % U32;
    var high, low := number / TWO_49, number % TWO_24;
    Address(V4(LeBytes((high - tm) % U32, 4), (low - tm % U16) % U16))
  }

  /** A difference of the decoder is below zero, which a debug build reports as an overflow. */
  predicate Underflows(number: nat) {
    var tm := number / TWO_17 % U32;
    number / TWO_49 < tm || number % TWO_24 < tm % U16
  }

  function Decoded(bytes: seq<byte>): Outcome {
    if |bytes| > 16 then
      if |bytes| != 18 then AnyListenAddr
      else Address(V6(bytes[..16], LeValue(bytes[16..]), 0, 0))
    else
      Unpacked(LeValue(Padded(bytes)))
  }

  lemma {:induction false} UnpackFields(ip: nat, port: nat, tm: nat)
    requires ip < U32 && port < U16 && tm < U32
    ensures var number := Pack(ip, port, tm);
            && number / TWO_17 % U32 == tm
            && number / TWO_49 == ip + tm
            && number % TWO_24 == port + tm % U16 + tm % 0x80 * TWO_17
  {
    FieldsDoNotOverlap(ip, port, tm);
    hide Pack;
    var number, low := Pack(ip, port, tm), port + tm % U16;
    var high := (ip + tm) * U32 + tm;
    QuotientIs(number, TWO_17, high, low);
    QuotientIs(high, U32, ip + tm, tm);
    QuotientIs(number, TWO_49, ip + tm, tm * TWO_17 + low);
    QuotientIs(tm, 0x80, tm / 0x80, tm % 0x80);
    QuotientIs(number, TWO_24, (ip + tm) * 0x200_0000 + tm / 0x80, tm % 0x80 * TWO_17 + low);
  }

  /** Stripping the zeros of sixteen bytes does not change what they decode to. */
  lemma {:induction false} DecodeStripped(number: nat)
    requires number < Pow256(16)
    ensures Decoded(Stripped(LeBytes(number, 16))) == Unpacked(number)
    ensures LeValue(Padded(Stripped(LeBytes(number, 16)))) == number
  {
    hide LeBytes, LeValue, Pow256, Unpacked;
    var bytes := LeBytes(number, 16);
    LeValueOfBytes(number, 16);
    PadUndoesStrip(bytes);
    assert Padded(Stripped(bytes)) == bytes;
  }

  lemma {:induction false} UnpackPacked(ip: nat, port: nat, tm: nat)
    requires ip < U32 && port < U16 && tm < U32
    ensures Unpacked(Pack(ip, port, tm)) == Address(V4(LeBytes(ip, 4), port)) && !Underflows(Pack(ip, port, tm))
  {
    UnpackFields(ip, port, tm);
    hide Pack, LeBytes;
    var low := Pack(ip, port, tm) % TWO_24;
    QuotientIs(low - tm % U16, U16, tm % 0x80 * 2, port);
    QuotientIs(ip, U32, 0, ip);
  }

  lemma {:induction false} DecodePacked(ip: nat, port: nat, tm: nat)
    requires ip < U32 && port < U16 && tm < U32
    ensures Decoded(Stripped(LeBytes(Pack(ip, port, tm), 16))) == Address(V4(LeBytes(ip, 4), port))
    ensures !Underflows(LeValue(Padded(Stripped(LeBytes(Pack(ip, port, tm), 16)))))
  {
    hide *;
    FieldsDoNotOverlap(ip, port, tm);
    DecodeStripped(Pack(ip, port, tm));
    UnpackPacked(ip, port, tm);
  }

  /**
   Decoding an encoded address never underflows, and gives back the converted address exactly when it is
   IPv4 or its flow label and scope are zero.
   */
  lemma {:induction false} DecodeEncode(addr: Addr, tm: nat)
    requires Valid(addr) && tm < U32
    ensures |Encoded(addr, tm)| <= 16 ==> !Underflows(LeValue(Padded(Encoded(addr, tm))))
    ensures Decoded(Encoded(addr, tm)) == Address(TryIntoV4(addr))
            <==> (TryIntoV4(addr).V6? ==> addr.flow == 0 && addr.scope == 0)
  {
    match TryIntoV4(addr)
    case V4(ip, port) =>
      LeBytesOfValue(ip);
      Widths();
      DecodePacked(LeValue(ip), port, tm);
    case V6(ip, port, _, _) =>
      Widths();
      LeValueOfBytes(port, 2);
      var bytes := ip + LeBytes(port, 2);
      assert bytes[..16] == ip && bytes[16..] == LeBytes(port, 2);
  }

  /**
   What the bytes of an encoded address hold: for IPv4 a number of three fields from the little-endian octets, the port
   and the time, without zeros at its end; for IPv6 the octets and the little-endian port.
   */
  lemma {:induction false} EncodedLayout(addr: Addr, tm: nat)
    requires Valid(addr) && tm < U32
    ensures var a, bytes := TryIntoV4(addr), Encoded(addr, tm);
            && (a.V4? ==>
                  && |bytes| <= 16 && (bytes != [] ==> bytes[|bytes| - 1] != 0)
                  && LeValue(Padded(bytes)) == (LeValue(a.ip) + tm) * 0x2_0000_0000_0000 + tm * 0x2_0000
                                               + a.port + tm % 0x1_0000)
            && (a.V6? ==> |bytes| == 18 && bytes[..16] == a.ip && a.port == bytes[16] as int + bytes[17] as int * 0x100)
  {
    Widths();
    match TryIntoV4(addr)
    case V4(ip, port) =>
      LeBytesOfValue(ip);
      FieldsDoNotOverlap(LeValue(ip), port, tm);
      hide Pack;
      DecodeStripped(Pack(LeValue(ip), port, tm));
      StrippedEnd(LeBytes(Pack(LeValue(ip), port, tm), 16));
    case V6(ip, port, _, _) =>
      var tail := LeBytes(port, 2);
      LeValueOfBytes(port, 2);
      LeValueUpTo4(tail);
  }

  lemma {:induction false} StrippedEnd(bs: seq<byte>)
    ensures Stripped(bs) != [] ==> Stripped(bs)[|Stripped(bs)| - 1] != 0
    decreases |bs|
  {
    if bs != [] && bs[|bs| - 1] == 0 {
      StrippedEnd(bs[..|bs| - 1]);
    }
  }

  /** Which address comes out is told by the length alone: up to 16 bytes IPv4, 18 bytes IPv6, any other the default. */
  lemma {:induction false} LengthTells(bytes: seq<byte>)
    ensures var r := Decoded(bytes);
            && (r.Address? && r.addr.V4? <==> |bytes| <= 16)
            && (r.Address? && r.addr.V6? <==> |bytes| == 18)
            && (r == AnyListenAddr <==> |bytes| == 17 || |bytes| > 18)
            && (r.Address? ==> Valid(r.addr))
            && (|bytes| == 18 ==>
                  r.addr == V6(bytes[..16], bytes[16] as int + bytes[17] as int * 0x100, 0, 0))
  {
    hide Padded;
    if |bytes| == 18 {
      LeValueUpTo4(bytes[16..]);
    }
  }

  // ----- the functions as they run -----

  method Encode(addr: Addr, tm: nat) returns (bytes: seq<byte>)
    requires Valid(addr) && tm < U32
    ensures bytes == Encoded(addr, tm)
  {
    match TryIntoV4(addr) {
      case V4(octets, port) =>
        var ip := LeValue(octets);
        var v := Or(Or(Shl(ip + tm, 49), Shl(tm, 17)), port + tm % U16);
        bytes := LeBytes(v, 16);
        var padding := 0;
        assert bytes[..16] == bytes;
        while padding < 16 && bytes[15 - padding] == 0
          invariant 0 <= padding <= 16
          invariant Stripped(bytes) == Stripped(bytes[..16 - padding])
        {
          assert bytes[..16 - padding][..15 - padding] == bytes[..15 - padding];
          padding := padding + 1;
        }
        bytes := bytes[..16 - padding];
      case V6(octets, port, _, _) =>
        bytes := octets;
        var tail := LeBytes(port, 2);
        bytes := bytes + [tail[0]];
        bytes := bytes + [tail[1]];
    }
  }

  method Decode(bytes: seq<byte>) returns (r: Outcome)
    ensures r == Decoded(bytes)
  {
    if |bytes| > 16 {
      if |bytes| != 18 {
        return AnyListenAddr;
      }
      return Address(V6(bytes[..16], LeValue(bytes[16..]), 0, 0));
    }
    var padded := new byte[16](_ => 0);
    for i := 0 to |bytes|
      invariant padded[..i] == bytes[..i]
      invariant forall k :: i <= k < 16 ==> padded[k] == 0
    {
      padded[i] := bytes[i];
      assert padded[..i + 1] == padded[..i] + [padded[i]];
    }
    assert padded[..] == Padded(bytes) by {
      assert padded[..|bytes|] == bytes && padded[|bytes|..] == Zeros(16 - |bytes|);
      assert padded[..] == padded[..|bytes|] + padded[|bytes|..];
    }
    var number := LeValue(padded[..]);
    var tm := number / TWO_17 % U32;
    var ip := LeBytes((number / TWO_49 - tm) % U32, 4);
    var port := number % TWO_24 - tm % U16;
    return Address(V4(ip, port % U16));
  }
}
