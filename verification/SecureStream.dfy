/**
 The counter-nonce layer of libs/hbb_common/src/tcp.rs over the frame codec.

 secretbox is an ideal pair of functions; sockets are a list of byte chunks.
 */
module SecureStream {
  import opened Basics
  import opened FrameCodec

  const NONCE_BYTES := 24
  const MAC_BYTES := 16

  // ----- the ideal box -----

  type SealFn = (seq<byte>, seq<byte>, seq<byte>) -> seq<byte>
  type OpenFn = (seq<byte>, seq<byte>, seq<byte>) -> Option<seq<byte>>

  datatype SecretBox = SecretBox(seal: SealFn, open: OpenFn)

  /** The nonce of a message counter: eight little-endian bytes, then zeros. */
  function Nonce(counter: nat): (n: seq<byte>)
    ensures |n| == NONCE_BYTES
  {
    LeBytes(counter, 8) + LeBytes(0, 16)
  }

  /** Opening undoes sealing, only under the counter that sealed, and always takes sixteen bytes off. */
  ghost predicate Ideal(box: SecretBox) {
    && (forall m, n, k :: box.open(box.seal(m, n, k), n, k) == Some(m))
    && (forall m, n, k :: |box.seal(m, n, k)| == |m| + MAC_BYTES)
    && (forall m, k, i: nat, j: nat ::
          i < U64 && j < U64 && i != j ==> box.open(box.seal(m, Nonce(i), k), Nonce(j), k) == None)
    && (forall c, n, k :: box.open(c, n, k).Some? ==> |c| == |box.open(c, n, k).value| + MAC_BYTES)
  }

  /** The counter stands in the first eight bytes of its nonce, and zeros behind it. */
  lemma {:induction false} NonceLayout(counter: nat)
    requires counter < U64
    ensures LeValue(Nonce(counter)[..8]) == counter
    ensures forall k :: 8 <= k < NONCE_BYTES ==> Nonce(counter)[k] == 0
  {
    Widths();
    LeValueOfBytes(counter, 8);
    ZeroBytes(16);
    assert Nonce(counter)[..8] == LeBytes(counter, 8);
  }

  lemma {:induction false} ZeroBytes(width: nat)
    ensures forall k :: 0 <= k < width ==> LeBytes(0, width)[k] == 0
  {
    if width > 0 {
      ZeroBytes(width - 1);
      assert LeBytes(0, width) == [0] + LeBytes(0, width - 1);
    }
  }

  /** Counters below the wrap have distinct nonces. */
  lemma {:induction false} NonceInjective(i: nat, j: nat)
    requires i < U64 && j < U64
    ensures Nonce(i) == Nonce(j) <==> i == j
  {
    NonceLayout(i);
    NonceLayout(j);
  }

  /** A stand-in for secretbox: the nonce's first sixteen bytes in front of the message. */
  function Tag(n: seq<byte>): (t: seq<byte>)
    ensures |t| == 16
  {
    (n + LeBytes(0, 16))[..16]
  }

  lemma {:induction false} TagsDiffer(i: nat, j: nat)
    requires i < U64 && j < U64 && i != j
    ensures Tag(Nonce(i)) != Tag(Nonce(j))
  {
    Widths();
    LeValueOfBytes(i, 8);
    LeValueOfBytes(j, 8);
    assert Tag(Nonce(i))[..8] == LeBytes(i, 8) && Tag(Nonce(j))[..8] == LeBytes(j, 8);
  }

  function TagSeal(m: seq<byte>, n: seq<byte>, k: seq<byte>): seq<byte> {
    Tag(n) + m
  }

  function TagOpen(c: seq<byte>, n: seq<byte>, k: seq<byte>): Option<seq<byte>> {
    if |c| >= 16 && c[..16] == Tag(n) then Some(c[16..]) else None
  }

  lemma {:induction false} TagOpens(m: seq<byte>, n: seq<byte>, n': seq<byte>, k: seq<byte>)
    ensures TagOpen(TagSeal(m, n, k), n', k) == if Tag(n) == Tag(n') then Some(m) else None
  {
    assert (Tag(n) + m)[..16] == Tag(n) && (Tag(n) + m)[16..] == m;
  }

  /** The laws are consistent: the stand-in meets them. */
  lemma {:induction false} IdealBoxExists() returns (box: SecretBox)
    ensures Ideal(box)
  {
    box := SecretBox(TagSeal, TagOpen);
    forall m: seq<byte>, n: seq<byte>, k: seq<byte>
      ensures box.open(box.seal(m, n, k), n, k) == Some(m)
    {
      TagOpens(m, n, n, k);
    }
    forall m: seq<byte>, k: seq<byte>, i: nat, j: nat | i < U64 && j < U64 && i != j
      ensures box.open(box.seal(m, Nonce(i), k), Nonce(j), k) == None
    {
      TagsDiffer(i, j);
      TagOpens(m, Nonce(i), Nonce(j), k);
    }
    hide TagOpen, Tag, Nonce;
  }

  // ----- what a sender puts on the wire -----

  datatype Send =
    | Raw(msg: seq<byte>)     // send_raw with a key set
    | Plain(msg: seq<byte>)   // send_bytes

  /** Whether the codec takes the message; one that it refuses is reported to the sender. */
  predicate Accepted(s: Send) {
    match s
    case Raw(m) => |m| + MAC_BYTES <= MAX_PAYLOAD
    case Plain(m) => |m| <= MAX_PAYLOAD
  }

  function Bump(counter: nat): (c: nat) {
    (counter + 1) % U64
  }

  /** What a message becomes on its way to the codec. */
  function FrameOf(box: SecretBox, key: seq<byte>, counter: nat, s: Send): seq<byte> {
    match s
    case Raw(m) => box.seal(m, Nonce(Bump(counter)), key)
    case Plain(m) => m
  }

  /** The counter after a message; it also advances for a message that the codec refuses. */
  function CounterSent(counter: nat, s: Send): nat {
    if s.Raw? then Bump(counter) else counter
  }

  /** The frames handed to the codec and taken by it. */
  function Frames(box: SecretBox, key: seq<byte>, counter: nat, sends: seq<Send>): (frames: seq<seq<byte>>)
    ensures forall f <- frames :: |f| <= MAX_PAYLOAD
    decreases |sends|
  {
    if sends == [] then []
    else
      var f := FrameOf(box, key, counter, sends[0]);
      (if |f| <= MAX_PAYLOAD then [f] else []) + Frames(box, key, CounterSent(counter, sends[0]), sends[1..])
  }

  // ----- what a receiver makes of the frames -----

  datatype Delivery = Got(msg: seq<byte>) | BadSeal

  function CounterAfter(counter: nat, frame: seq<byte>): nat {
    if |frame| <= 1 then counter else Bump(counter)
  }

  function OpenFrame(box: SecretBox, key: seq<byte>, counter: nat, frame: seq<byte>): Delivery {
    if |frame| <= 1 then Got(frame)
    else match box.open(frame, Nonce(Bump(counter)), key)
         case Some(m) => Got(m)
         case None => BadSeal
  }

  function Deliveries(box: SecretBox, key: seq<byte>, counter: nat, frames: seq<seq<byte>>): seq<Delivery>
    decreases |frames|
  {
    if frames == [] then []
    else [OpenFrame(box, key, counter, frames[0])]
         + Deliveries(box, key, CounterAfter(counter, frames[0]), frames[1..])
  }

  function CounterAfterAll(counter: nat, frames: seq<seq<byte>>): nat
    decreases |frames|
  {
    if frames == [] then counter else CounterAfterAll(CounterAfter(counter, frames[0]), frames[1..])
  }

  /** Number of frames longer than one byte, the encrypted ones. */
  function Encrypted(frames: seq<seq<byte>>): nat {
    if frames == [] then 0 else (if |frames[0]| > 1 then 1 else 0) + Encrypted(frames[1..])
  }

  /** The receive counter is the number of encrypted frames consumed, modulo the counter width. */
  lemma {:induction false} CounterCountsEncrypted(counter: nat, frames: seq<seq<byte>>)
    requires counter < U64
    ensures CounterAfterAll(counter, frames) == (counter + Encrypted(frames)) % U64
    decreases |frames|
  {
    if frames != [] {
      CounterCountsEncrypted(CounterAfter(counter, frames[0]), frames[1..]);
      if |frames[0]| > 1 {
        ModAdd(counter + 1, Encrypted(frames[1..]));
      }
    }
  }

  lemma {:induction false} ModAdd(a: int, b: int)
    ensures (a % U64 + b) % U64 == (a + b) % U64
  {
    Wrap(a % U64 + b, a / U64);
    assert a == a % U64 + a / U64 * U64;
  }

  lemma {:induction false} DeliveriesAppend(box: SecretBox, key: seq<byte>, counter: nat,
                                            xs: seq<seq<byte>>, ys: seq<seq<byte>>)
    ensures Deliveries(box, key, counter, xs + ys)
            == Deliveries(box, key, counter, xs) + Deliveries(box, key, CounterAfterAll(counter, xs), ys)
    ensures CounterAfterAll(counter, xs + ys) == CounterAfterAll(CounterAfterAll(counter, xs), ys)
    decreases |xs|
  {
    if xs == [] {
      assert xs + ys == ys;
    } else {
      assert (xs + ys)[1..] == xs[1..] + ys;
      DeliveriesAppend(box, key, CounterAfter(counter, xs[0]), xs[1..], ys);
    }
  }

  lemma {:induction false} DeliveriesCons(box: SecretBox, key: seq<byte>, counter: nat, frame: seq<byte>,
                                          later: seq<seq<byte>>)
    ensures Deliveries(box, key, counter, [frame] + later) ==
            [OpenFrame(box, key, counter, frame)] + Deliveries(box, key, CounterAfter(counter, frame), later)
  {
    assert ([frame] + later)[0] == frame && ([frame] + later)[1..] == later;
  }

  // ----- end to end -----

  function Got1(s: Send): Delivery { Got(s.msg) }

  /** The accepted messages, as the receiver should see them. */
  function Sent(sends: seq<Send>): seq<Delivery> {
    if sends == [] then []
    else (if Accepted(sends[0]) then [Got1(sends[0])] else []) + Sent(sends[1..])
  }

  /** A frame that is not sealed but long enough for the receiver to try and open it. */
  predicate Unsealed(s: Send) {
    s.Plain? && 1 < |s.msg| <= MAX_PAYLOAD
  }

  /** How a message moves the sender's counter ahead of the receiver's. */
  function DriftAfter(s: Send, drift: int): int {
    if s.Raw? && !Accepted(s) then drift + 1 else if Unsealed(s) then drift - 1 else drift
  }

  function ReceivedAfter(s: Send, received: nat): nat {
    if Accepted(s) && (s.Raw? || Unsealed(s)) then Bump(received) else received
  }

  /**
   What arrives when the sender's counter runs `drift` ahead of the receiver's: each sealed message refused by the
   codec adds one and each long unsealed frame takes one off, and a sealed message opens only while the drift is a
   multiple of the counter width.
   */
  function Arrives(box: SecretBox, key: seq<byte>, received: nat, sends: seq<Send>, drift: int): seq<Delivery>
    decreases |sends|
  {
    if sends == [] then []
    else
      var s := sends[0];
      (if !Accepted(s) then []
       else if Unsealed(s) then [OpenFrame(box, key, received, s.msg)]
       else [if s.Raw? && drift % U64 != 0 then BadSeal else Got1(s)]) +
      Arrives(box, key, ReceivedAfter(s, received), sends[1..], DriftAfter(s, drift))
  }

  /** No sealed message is accepted while the counters are apart, and no long frame goes unsealed. */
  predicate InStep(sends: seq<Send>, drift: int)
    decreases |sends|
  {
    sends == [] ||
    (!Unsealed(sends[0]) && (sends[0].Raw? && Accepted(sends[0]) ==> drift % U64 == 0) &&
     InStep(sends[1..], DriftAfter(sends[0], drift)))
  }

  /** The sender's counter is `drift` ahead of the receiver's. */
  predicate Apart(sent: nat, received: nat, drift: int) {
    received < U64 && sent == (received + drift) % U64
  }

  /** A message moves the counters by what it makes of the drift. */
  lemma {:induction false} DriftStep(sent: nat, received: nat, drift: int, s: Send)
    requires Apart(sent, received, drift)
    ensures Apart(CounterSent(sent, s), ReceivedAfter(s, received), DriftAfter(s, drift))
  {
    ModAdd(received + drift, 1);
    ModAdd(received + 1, drift);
    ModAdd(received + 1, drift - 1);
  }

  lemma {:induction false} CountersMeet(sent: nat, received: nat, drift: int)
    requires Apart(sent, received, drift)
    ensures Bump(sent) == Bump(received) <==> drift % U64 == 0
  {
    ModAdd(drift, received);
    var e := drift % U64;
    assert sent == if e + received < U64 then e + received else e + received - U64;
  }

  /** An accepted sealed message is opened, or fails to open, by the distance of the counters alone. */
  lemma {:induction false} FrameArrives(box: SecretBox, key: seq<byte>, sent: nat, received: nat, drift: int, s: Send)
    requires Ideal(box) && Apart(sent, received, drift)
    ensures var f := FrameOf(box, key, sent, s);
            && (Accepted(s) <==> |f| <= MAX_PAYLOAD)
            && (Unsealed(s) ==> f == s.msg)
            && (Accepted(s) && !Unsealed(s) ==>
                  OpenFrame(box, key, received, f) == (if s.Raw? && drift % U64 != 0 then BadSeal else Got1(s)))
            && (Accepted(s) ==> CounterAfter(received, f) == ReceivedAfter(s, received))
  {
    hide Nonce;
    CountersMeet(sent, received, drift);
  }

  lemma {:induction false} FramesArrive(box: SecretBox, key: seq<byte>, sent: nat, received: nat, drift: int,
                                        sends: seq<Send>)
    requires Ideal(box) && Apart(sent, received, drift)
    ensures Deliveries(box, key, received, Frames(box, key, sent, sends)) == Arrives(box, key, received, sends, drift)
    decreases |sends|
  {
    hide Ideal, FrameOf, OpenFrame, CounterAfter, CounterSent, Bump, Accepted, Apart, Got1, Unsealed, DriftAfter,
         ReceivedAfter;
    if sends != [] {
      var s, rest := sends[0], sends[1..];
      DriftStep(sent, received, drift, s);
      FrameArrives(box, key, sent, received, drift, s);
      var f, fs := FrameOf(box, key, sent, s), Frames(box, key, sent, sends);
      var later := Frames(box, key, CounterSent(sent, s), rest);
      FramesArrive(box, key, CounterSent(sent, s), ReceivedAfter(s, received), DriftAfter(s, drift), rest);
      if Accepted(s) {
        assert fs == [f] + later;
        DeliveriesCons(box, key, received, f, later);
      } else {
        assert fs == later;
        RefusedKeeps(s, received);
      }
    }
  }

  lemma {:induction false} RefusedKeeps(s: Send, received: nat)
    requires !Accepted(s)
    ensures ReceivedAfter(s, received) == received && !Unsealed(s)
  {
  }

  /** What the receiver makes of a long unsealed frame is never the frame itself. */
  lemma {:induction false} UnsealedIsLost(box: SecretBox, key: seq<byte>, received: nat, s: Send)
    requires Ideal(box) && Unsealed(s)
    ensures OpenFrame(box, key, received, s.msg) != Got1(s)
  {
    hide Nonce;
  }

  lemma {:induction false} ArrivesIffInStep(box: SecretBox, key: seq<byte>, received: nat, sends: seq<Send>, drift: int)
    requires Ideal(box)
    ensures Arrives(box, key, received, sends, drift) == Sent(sends) <==> InStep(sends, drift)
    decreases |sends|
  {
    hide Ideal, OpenFrame, Accepted, Unsealed, DriftAfter, ReceivedAfter;
    if sends != [] {
      var s := sends[0];
      var received', drift' := ReceivedAfter(s, received), DriftAfter(s, drift);
      ArrivesIffInStep(box, key, received', sends[1..], drift');
      var later, sentLater := Arrives(box, key, received', sends[1..], drift'), Sent(sends[1..]);
      if Accepted(s) {
        if Unsealed(s) {
          UnsealedIsLost(box, key, received, s);
        }
        var first := if Unsealed(s) then OpenFrame(box, key, received, s.msg)
                     else if s.Raw? && drift % U64 != 0 then BadSeal else Got1(s);
        SameCons(first, later, Got1(s), sentLater);
        assert Arrives(box, key, received, sends, drift) == [first] + later;
        assert Sent(sends) == [Got1(s)] + sentLater;
        assert first == Got1(s) <==> !Unsealed(s) && (s.Raw? ==> drift % U64 == 0);
      } else {
        RefusedKeeps(s, received);
        assert Arrives(box, key, received, sends, drift) == later && Sent(sends) == sentLater;
      }
    }
  }

  lemma {:induction false} SameCons(a: Delivery, x: seq<Delivery>, b: Delivery, y: seq<Delivery>)
    ensures [a] + x == [b] + y <==> a == b && x == y
  {
    if [a] + x == [b] + y {
      assert ([a] + x)[0] == ([b] + y)[0] && ([a] + x)[1..] == x && ([b] + y)[1..] == y;
    }
  }

  /**
   The secure channel: whatever chunks the wire is cut into, the receiver gets what the counters
   allow, and it gets exactly the accepted messages if and only if no message was sealed after the
   codec had refused an oversized one and no frame of two or more bytes went unsealed.
   */
  lemma {:induction false} ChannelDelivers(box: SecretBox, key: seq<byte>, sends: seq<Send>, chunks: seq<seq<byte>>)
    requires Ideal(box)
    requires Concat(chunks) == Wire(Frames(box, key, 0, sends))
    ensures var fed := Feed(Head, [], chunks, USIZE_MAX);
            && !fed.failed && fed.state == Head && fed.rest == []
            && Deliveries(box, key, 0, fed.frames) == Arrives(box, key, 0, sends, 0)
            && (Deliveries(box, key, 0, fed.frames) == Sent(sends) <==> InStep(sends, 0))
  {
    hide Ideal, Feed, Arrives, InStep, Deliveries, Frames, Sent;
    var frames := Frames(box, key, 0, sends);
    RoundTrip(frames, chunks, USIZE_MAX);
    FramesArrive(box, key, 0, 0, 0, sends);
    ArrivesIffInStep(box, key, 0, sends, 0);
  }

  /** Without oversized messages and long unsealed frames the channel is always in step. */
  lemma {:induction false} InStepWhenAllAccepted(sends: seq<Send>)
    requires forall s <- sends :: Accepted(s) && !Unsealed(s)
    ensures InStep(sends, 0)
  {
    hide Accepted, Unsealed;
    if sends != [] {
      assert sends[0] in sends && forall s <- sends[1..] :: s in sends;
      InStepWhenAllAccepted(sends[1..]);
    }
  }

  /** One refused message breaks every sealed message after it. */
  lemma {:induction false} RefusedMessageBreaksChannel(box: SecretBox, key: seq<byte>, big: seq<byte>, m: seq<byte>)
    requires |big| + MAC_BYTES > MAX_PAYLOAD >= |m| + MAC_BYTES
    ensures !InStep([Raw(big), Raw(m)], 0)
    ensures Arrives(box, key, 0, [Raw(big), Raw(m)], 0) == [BadSeal]
  {
    var sends := [Raw(big), Raw(m)];
    assert sends[1..] == [Raw(m)];
    assert [Raw(m)][1..] == [];
    assert InStep(sends, 0) == InStep([Raw(m)], 1);
    assert Arrives(box, key, 0, sends, 0) == Arrives(box, key, 0, [Raw(m)], 1);
    assert Arrives(box, key, 0, [Raw(m)], 1) == [BadSeal] + Arrives(box, key, 1, [], 1);
  }

  // ----- nonces -----

  /** The sender's counter after a run of messages. */
  function CounterBefore(counter: nat, sends: seq<Send>): nat
    decreases |sends|
  {
    if sends == [] then counter else CounterBefore(CounterSent(counter, sends[0]), sends[1..])
  }

  /** The nonce that a run from the start uses for its i-th message, if that is sealed. */
  function NonceOf(sends: seq<Send>, i: nat): seq<byte>
    requires i < |sends|
  {
    Nonce(Bump(CounterBefore(0, sends[..i])))
  }

  function Sealings(sends: seq<Send>): nat {
    if sends == [] then 0 else (if sends[0].Raw? then 1 else 0) + Sealings(sends[1..])
  }

  lemma {:induction false} CounterIsSealings(counter: nat, sends: seq<Send>)
    requires counter < U64
    ensures CounterBefore(counter, sends) == (counter + Sealings(sends)) % U64
    decreases |sends|
  {
    if sends != [] {
      CounterIsSealings(CounterSent(counter, sends[0]), sends[1..]);
      ModAdd(counter + 1, Sealings(sends[1..]));
    }
  }

  lemma {:induction false} SealingsAppend(a: seq<Send>, b: seq<Send>)
    ensures Sealings(a + b) == Sealings(a) + Sealings(b)
    decreases |a|
  {
    if a == [] {
      assert a + b == b;
    } else {
      assert (a + b)[1..] == a[1..] + b;
      SealingsAppend(a[1..], b);
    }
  }

  lemma {:induction false} FramesAppend(box: SecretBox, key: seq<byte>, counter: nat, a: seq<Send>, b: seq<Send>)
    ensures Frames(box, key, counter, a + b) ==
            Frames(box, key, counter, a) + Frames(box, key, CounterBefore(counter, a), b)
    decreases |a|
  {
    hide FrameOf, CounterSent;
    if a == [] {
      assert a + b == b;
    } else {
      assert (a + b)[1..] == a[1..] + b;
      FramesAppend(box, key, CounterSent(counter, a[0]), a[1..], b);
    }
  }

  /** The frames of a run contain the i-th message sealed under its nonce, where the codec takes it. */
  lemma {:induction false} FrameUsesNonce(box: SecretBox, key: seq<byte>, sends: seq<Send>, i: nat)
    requires i < |sends| && sends[i].Raw?
    ensures var f := box.seal(sends[i].msg, NonceOf(sends, i), key);
            var counter := CounterBefore(0, sends[..i]);
            Frames(box, key, 0, sends) ==
            Frames(box, key, 0, sends[..i]) + (if |f| <= MAX_PAYLOAD then [f] else []) +
            Frames(box, key, Bump(counter), sends[i + 1..])
  {
    assert sends == sends[..i] + sends[i..] && sends[i..][0] == sends[i] && sends[i..][1..] == sends[i + 1..];
    FramesAppend(box, key, 0, sends[..i], sends[i..]);
  }

  /** The nonce of the i-th message holds the number of messages sealed up to it: the first sealed one has 1. */
  lemma {:induction false} NonceCounts(sends: seq<Send>, i: nat)
    requires i < |sends|
    ensures var n := NonceOf(sends, i);
            && LeValue(n[..8]) == (Sealings(sends[..i]) + 1) % U64
            && |n| == 24 && forall k :: 8 <= k < 24 ==> n[k] == 0
  {
    hide Nonce, Sealings, CounterBefore, LeValue;
    CounterIsSealings(0, sends[..i]);
    ModAdd(Sealings(sends[..i]), 1);
    NonceLayout(Bump(CounterBefore(0, sends[..i])));
  }

  /**
   Two sealed messages of one run share a nonce exactly when the number of messages sealed from the first up to the
   second is a multiple of 2^64.
   */
  lemma {:induction false} NonceReuse(sends: seq<Send>, i: nat, j: nat)
    requires i <= j < |sends| && sends[i].Raw? && sends[j].Raw?
    ensures NonceOf(sends, i) == NonceOf(sends, j) <==> Sealings(sends[i..j]) % U64 == 0
  {
    hide Nonce, Sealings, CounterBefore;
    var m, n := Sealings(sends[..i]), Sealings(sends[i..j]);
    assert sends[..j] == sends[..i] + sends[i..j];
    SealingsAppend(sends[..i], sends[i..j]);
    CounterIsSealings(0, sends[..i]);
    CounterIsSealings(0, sends[..j]);
    ModAdd(m, 1);
    ModAdd(m + n, 1);
    SameCounter(m + n + 1, m + 1);
    NonceInjective(Bump(CounterBefore(0, sends[..i])), Bump(CounterBefore(0, sends[..j])));
  }

  lemma {:induction false} SameCounter(a: nat, b: nat)
    ensures a % U64 == b % U64 <==> (a - b) % U64 == 0
  {
    var x, y := a % U64, b % U64;
    Wrap(x - y, a / U64 - b / U64);
    assert a - b == x - y + (a / U64 - b / U64) * U64;
  }

  // ----- the objects -----

  /** `Encrypt`: the shared key with one counter for each direction. */
  class Encrypt {
    const box: SecretBox
    const key: seq<byte>
    var sent: nat
    var received: nat

    constructor (box: SecretBox, key: seq<byte>)
      ensures this.box == box && this.key == key && sent == 0 && received == 0
    {
      this.box, this.key, sent, received := box, key, 0, 0;
    }

    static method GetNonce(seqnum: nat) returns (nonce: array<byte>)
      ensures fresh(nonce) && nonce[..] == Nonce(seqnum)
      ensures nonce.Length == 24 && (seqnum < U64 ==> LeValue(nonce[..8]) == seqnum)
      ensures forall k :: 8 <= k < 24 ==> nonce[k] == 0
    {
      nonce := new byte[NONCE_BYTES](_ => 0);
      var le := LeBytes(seqnum, 8);
      for i := 0 to 8
        invariant nonce[..i] == le[..i]
        invariant forall k :: i <= k < NONCE_BYTES ==> nonce[k] == 0
      {
        nonce[i] := le[i];
      }
      ZeroBytes(16);
      assert nonce[..8] == le;
      assert nonce[8..] == LeBytes(0, 16);
      assert nonce[..] == nonce[..8] + nonce[8..];
      if seqnum < U64 {
        NonceLayout(seqnum);
        assert nonce[..8] == nonce[..][..8];
      }
    }

    method Dec(bytes: Buffer) returns (r: Result<(), ()>)
      modifies this`received, bytes
      ensures received == CounterAfter(old(received), old(bytes.bytes))
      ensures match OpenFrame(box, key, old(received), old(bytes.bytes))
              case Got(m) => r == Ok(()) && bytes.bytes == m
              case BadSeal => r == Err(()) && bytes.bytes == old(bytes.bytes)
    {
      if |bytes.bytes| <= 1 {
        return Ok(());
      }
      received := (received + 1) % U64;
      var nonce := GetNonce(received);
      match box.open(bytes.bytes, nonce[..], key) {
        case Some(res) =>
          bytes.bytes := res;
          return Ok(());
        case None =>
          return Err(());
      }
    }

    method Enc(data: seq<byte>) returns (c: seq<byte>)
      modifies this`sent
      ensures sent == Bump(old(sent))
      ensures c == box.seal(data, Nonce(sent), key)
    {
      sent := (sent + 1) % U64;
      var nonce := GetNonce(sent);
      c := box.seal(data, nonce[..], key);
    }
  }

  datatype Item = Pending | Message(bytes: seq<byte>) | DecodeFailure | DecryptFailure

  /** `FramedStream` with its socket replaced by the two buffers of the framed transport. */
  class FramedStream {
    const codec: BytesCodec
    const readBuf: Buffer
    const writeBuf: Buffer
    var encrypt: Encrypt?

    /** Framed and encrypted, the state in which peers exchange messages after the handshake. */
    ghost predicate Secured()
      reads this, codec
    {
      encrypt != null && !codec.raw
    }

    constructor ()
      ensures encrypt == null && fresh(codec) && fresh(readBuf) && fresh(writeBuf)
      ensures codec.state == Head && !codec.raw && codec.maxPacketLength == 0xFFFF_FFFF_FFFF_FFFF
      ensures readBuf.bytes == [] && writeBuf.bytes == []
    {
      codec := new BytesCodec();
      readBuf := new Buffer();
      writeBuf := new Buffer();
      encrypt := null;
    }

    method SetKey(box: SecretBox, key: seq<byte>)
      modifies this
      ensures fresh(encrypt) && encrypt.box == box && encrypt.key == key
      ensures encrypt.sent == 0 && encrypt.received == 0
    {
      encrypt := new Encrypt(box, key);
    }

    method SetRaw()
      modifies this, codec
      ensures codec.raw && encrypt == null && codec.state == old(codec.state)
      ensures codec.maxPacketLength == old(codec.maxPacketLength)
    {
      codec.SetRaw();
      encrypt := null;
    }

    method SendBytes(bytes: seq<byte>) returns (r: Result<(), CodecError>)
      modifies writeBuf
      ensures codec.raw ==> r == Ok(()) && writeBuf.bytes == old(writeBuf.bytes) + bytes
      ensures !codec.raw ==> match EncodeFrame(bytes)
                             case Some(w) => r == Ok(()) && writeBuf.bytes == old(writeBuf.bytes) + w
                             case None => r == Err(Overflow) && writeBuf.bytes == old(writeBuf.bytes)
    {
      r := codec.Encode(bytes, writeBuf);
    }

    method SendRaw(msg: seq<byte>) returns (r: Result<(), CodecError>)
      modifies writeBuf, encrypt
      ensures encrypt == null && !codec.raw ==>
                match EncodeFrame(msg)
                case Some(w) => r == Ok(()) && writeBuf.bytes == old(writeBuf.bytes) + w
                case None => r == Err(Overflow) && writeBuf.bytes == old(writeBuf.bytes)
      ensures encrypt != null ==> encrypt.sent == Bump(old(encrypt.sent)) && encrypt.received == old(encrypt.received)
      ensures codec.raw ==>
                var frame := if encrypt == null then msg else encrypt.box.seal(msg, Nonce(encrypt.sent), encrypt.key);
                r == Ok(()) && writeBuf.bytes == old(writeBuf.bytes) + frame
      ensures encrypt != null && !codec.raw ==>
                match EncodeFrame(encrypt.box.seal(msg, Nonce(encrypt.sent), encrypt.key))
                case Some(w) => r == Ok(()) && writeBuf.bytes == old(writeBuf.bytes) + w
                case None => r == Err(Overflow) && writeBuf.bytes == old(writeBuf.bytes)
    {
      var bytes := msg;
      if encrypt != null {
        bytes := encrypt.Enc(msg);
      }
      r := SendBytes(bytes);
    }

    /** A message of the sender: sealed and counted, or as it is. */
    method SendOne(s: Send)
      requires Secured()
      modifies writeBuf, encrypt
      ensures encrypt.sent == CounterSent(old(encrypt.sent), s) && encrypt.received == old(encrypt.received)
      ensures var f := FrameOf(encrypt.box, encrypt.key, old(encrypt.sent), s);
              writeBuf.bytes == old(writeBuf.bytes) + Wire(if |f| <= MAX_PAYLOAD then [f] else [])
    {
      hide EncodeFrame, Wire, Nonce;
      ghost var f := FrameOf(encrypt.box, encrypt.key, encrypt.sent, s);
      WireNil();
      if |f| <= MAX_PAYLOAD {
        WireCons(f, []);
        assert [f] + [] == [f] && EncodeFrame(f).value + [] == EncodeFrame(f).value;
      } else {
        assert writeBuf.bytes + [] == writeBuf.bytes;
      }
      match s {
        case Raw(m) => var _ := SendRaw(m);
        case Plain(m) => var _ := SendBytes(m);
      }
    }

    /** A whole run of the sender writes exactly the frames of `Frames`. */
    method SendAll(sends: seq<Send>)
      requires Secured()
      modifies writeBuf, encrypt
      ensures writeBuf.bytes == old(writeBuf.bytes)
                                + Wire(Frames(encrypt.box, encrypt.key, old(encrypt.sent), sends))
    {
      ghost var box, key := encrypt.box, encrypt.key;
      var i := 0;
      while i < |sends|
        invariant 0 <= i <= |sends|
        invariant writeBuf.bytes + Wire(Frames(box, key, encrypt.sent, sends[i..]))
                  == old(writeBuf.bytes) + Wire(Frames(box, key, old(encrypt.sent), sends))
      {
        hide Wire, FrameOf, CounterSent, Frames;
        FramesStep(box, key, encrypt.sent, sends[i..], writeBuf.bytes);
        assert sends[i..][1..] == sends[i + 1..];
        SendOne(sends[i]);
        i := i + 1;
      }
      assert sends[i..] == [];
      WireNil();
      assert writeBuf.bytes + [] == writeBuf.bytes;
    }

    ghost function Received(): nat
      reads this, encrypt
    {
      if encrypt == null then 0 else encrypt.received
    }

    /** The frame as it is without a key, and opened under the next counter with one. */
    ghost predicate Handed(r: Item, frame: seq<byte>, counter: nat)
      reads this, encrypt
    {
      if encrypt == null then r == Message(frame)
      else && encrypt.received == CounterAfter(counter, frame)
           && r == match OpenFrame(encrypt.box, encrypt.key, counter, frame)
                   case Got(m) => Message(m)
                   case BadSeal => DecryptFailure
    }

    method Next() returns (r: Item)
      modifies codec`state, readBuf, encrypt
      ensures encrypt != null ==> encrypt.sent == old(encrypt.sent)
      ensures codec.raw ==>
                && codec.state == old(codec.state) && readBuf.bytes == []
                && (if old(readBuf.bytes) == [] then r == Pending && Received() == old(Received())
                    else Handed(r, old(readBuf.bytes), old(Received())))
      ensures !codec.raw ==>
                match DecodeStep(old(codec.state), old(readBuf.bytes), codec.maxPacketLength)
                case More(s, rest) =>
                  r == Pending && codec.state == s && readBuf.bytes == rest && Received() == old(Received())
                case TooBig(rest) => r == DecodeFailure && readBuf.bytes == rest && Received() == old(Received())
                case Frame(data, rest) =>
                  && codec.state == Head && readBuf.bytes == rest
                  && Handed(r, data, old(Received()))
    {
      var res := codec.Decode(readBuf);
      match res {
        case Err(_) => return DecodeFailure;
        case Ok(None) => return Pending;
        case Ok(Some(bytes)) =>
          var message := new Buffer();
          message.bytes := bytes;
          if encrypt != null {
            var outcome := encrypt.Dec(message);
            if outcome.Err? {
              return DecryptFailure;
            }
          }
          return Message(message.bytes);
      }
    }

    /** Calls `Next` until it has to wait for the socket or the codec fails. */
    method DrainItems() returns (got: seq<Delivery>, failed: bool)
      requires Secured()
      modifies codec`state, readBuf, encrypt
      ensures encrypt.sent == old(encrypt.sent)
      ensures var d := Drain(old(codec.state), old(readBuf.bytes), codec.maxPacketLength);
              && got == Deliveries(encrypt.box, encrypt.key, old(encrypt.received), d.frames)
              && encrypt.received == CounterAfterAll(old(encrypt.received), d.frames)
              && failed == d.failed
              && (!failed ==> codec.state == d.state && readBuf.bytes == d.rest)
    {
      got := [];
      ghost var frames := [];
      ghost var whole := Drain(codec.state, readBuf.bytes, codec.maxPacketLength);
      ghost var start := encrypt.received;
      BehindNothing(whole);
      while true
        invariant Secured() && encrypt.sent == old(encrypt.sent)
        invariant whole == Behind(frames, Drain(codec.state, readBuf.bytes, codec.maxPacketLength))
        invariant got == Deliveries(encrypt.box, encrypt.key, start, frames)
        invariant encrypt.received == CounterAfterAll(start, frames)
        decreases Measure(codec.state, readBuf.bytes)
      {
        DecodeProgress(codec.state, readBuf.bytes, codec.maxPacketLength);
        DrainStep(frames, codec.state, readBuf.bytes, codec.maxPacketLength);
        ghost var step := DecodeStep(codec.state, readBuf.bytes, codec.maxPacketLength);
        hide DecodeStep, Drain, Behind, Deliveries, CounterAfterAll, CounterAfter;
        var item := Next();
        match item {
          case Pending =>
            return got, false;
          case DecodeFailure =>
            return got, true;
          case Message(m) =>
            got := got + [Got(m)];
          case DecryptFailure =>
            got := got + [BadSeal];
        }
        DeliveriesSnoc(encrypt.box, encrypt.key, start, frames, step.data);
        frames := frames + [step.data];
      }
    }

    /** A whole run of the receiver over the chunks the socket returns. */
    method ReceiveAll(chunks: seq<seq<byte>>) returns (got: seq<Delivery>, failed: bool)
      requires Secured()
      modifies codec`state, readBuf, encrypt
      ensures encrypt.sent == old(encrypt.sent)
      ensures var fed := Feed(old(codec.state), old(readBuf.bytes), chunks, codec.maxPacketLength);
              && got == Deliveries(encrypt.box, encrypt.key, old(encrypt.received), fed.frames)
              && encrypt.received == CounterAfterAll(old(encrypt.received), fed.frames)
              && failed == fed.failed
    {
      hide Drain, Feed, Deliveries, CounterAfterAll;
      ghost var limit, start := codec.maxPacketLength, encrypt.received;
      ghost var whole := Feed(codec.state, readBuf.bytes, chunks, limit);
      ghost var frames := Drain(codec.state, readBuf.bytes, limit).frames;
      FeedContinues(codec.state, readBuf.bytes, chunks, limit);
      got, failed := DrainItems();
      var i := 0;
      while i < |chunks| && !failed
        invariant 0 <= i <= |chunks|
        invariant Secured() && encrypt.sent == old(encrypt.sent)
        invariant failed ==> whole.frames == frames && whole.failed
        invariant !failed ==> Drain(codec.state, readBuf.bytes, limit)
                              == Drained([], codec.state, readBuf.bytes, false)
        invariant !failed ==> var f := Feed(codec.state, readBuf.bytes, chunks[i..], limit);
                              whole == f.(frames := frames + f.frames)
        invariant got == Deliveries(encrypt.box, encrypt.key, start, frames)
        invariant encrypt.received == CounterAfterAll(start, frames)
      {
        assert chunks[i..][1..] == chunks[i + 1..];
        FeedFromDry(codec.state, readBuf.bytes, chunks[i..], limit);
        readBuf.bytes := readBuf.bytes + chunks[i];
        ghost var d := Drain(codec.state, readBuf.bytes, limit);
        FeedContinues(codec.state, readBuf.bytes, chunks[i + 1..], limit);
        DeliveriesAppend(encrypt.box, encrypt.key, start, frames, d.frames);
        ghost var rest := Feed(d.state, d.rest, chunks[i + 1..], limit).frames;
        assert frames + (d.frames + rest) == (frames + d.frames) + rest;
        var more;
        more, failed := DrainItems();
        got := got + more;
        frames := frames + d.frames;
        i := i + 1;
      }
      if !failed {
        FeedFromDry(codec.state, readBuf.bytes, [], limit);
        assert chunks[i..] == [] && frames + [] == frames;
      }
    }
  }

  /** Cuts a wire into chunks of these sizes, and a last one for the rest. */
  function Cut(wire: seq<byte>, sizes: seq<nat>): (chunks: seq<seq<byte>>)
    ensures Concat(chunks) == wire
    decreases |sizes|
  {
    if sizes == [] then
      assert [wire][1..] == [];
      [wire]
    else
      var n := Min(sizes[0], |wire|);
      assert wire == wire[..n] + wire[n..];
      [wire[..n]] + Cut(wire[n..], sizes[1..])
  }

  /** Two ends of a connection under one key, before the first message. */
  ghost predicate Connected(a: FramedStream, b: FramedStream)
    reads a, b, a.codec, b.codec, a.writeBuf, b.readBuf, a.encrypt, b.encrypt
  {
    && a.Secured() && b.Secured() && a.encrypt != b.encrypt && a.writeBuf != b.readBuf
    && a.encrypt.box == b.encrypt.box && a.encrypt.key == b.encrypt.key
    && a.encrypt.sent == 0 && b.encrypt.received == 0
    && a.writeBuf.bytes == [] && b.readBuf.bytes == []
    && b.codec.state == Head && b.codec.maxPacketLength == USIZE_MAX
  }

  /**
   A whole transmission: one object sends, the wire is cut in any way, the other object receives. What arrives is
   decided by the counters, and it is what was sent if and only if they stay in step.
   */
  method Transmit(a: FramedStream, b: FramedStream, sends: seq<Send>, sizes: seq<nat>)
    returns (got: seq<Delivery>, failed: bool)
    requires Connected(a, b) && Ideal(a.encrypt.box)
    modifies a.writeBuf, a.encrypt, b.codec`state, b.readBuf, b.encrypt
    ensures !failed && got == Arrives(old(a.encrypt).box, old(a.encrypt).key, 0, sends, 0)
    ensures got == Sent(sends) <==> InStep(sends, 0)
  {
    hide Ideal, Arrives, Sent, InStep, Frames, Feed, Deliveries, CounterAfterAll, Cut;
    ghost var box, key := a.encrypt.box, a.encrypt.key;
    a.SendAll(sends);
    assert [] + Wire(Frames(box, key, 0, sends)) == Wire(Frames(box, key, 0, sends));
    var chunks := Cut(a.writeBuf.bytes, sizes);
    ChannelDelivers(box, key, sends, chunks);
    got, failed := b.ReceiveAll(chunks);
  }

  lemma {:induction false} FramesStep(box: SecretBox, key: seq<byte>, counter: nat, sends: seq<Send>, before: seq<byte>)
    requires sends != []
    ensures var f := FrameOf(box, key, counter, sends[0]);
            before + Wire(Frames(box, key, counter, sends)) ==
            before + Wire(if |f| <= MAX_PAYLOAD then [f] else []) +
            Wire(Frames(box, key, CounterSent(counter, sends[0]), sends[1..]))
  {
    hide Wire, FrameOf, CounterSent;
    var f := FrameOf(box, key, counter, sends[0]);
    var later := Frames(box, key, CounterSent(counter, sends[0]), sends[1..]);
    WireNil();
    if |f| <= MAX_PAYLOAD {
      WireCons(f, later);
      WireCons(f, []);
      assert [f] + [] == [f] && EncodeFrame(f).value + [] == EncodeFrame(f).value;
      assert before + (EncodeFrame(f).value + Wire(later)) == before + EncodeFrame(f).value + Wire(later);
    } else {
      assert [] + later == later && before + [] == before;
    }
  }

  lemma {:induction false} WireNil()
    ensures Wire([]) == []
  {
  }

  /** What the codec makes of the bytes after it gave these frames. */
  function Behind(frames: seq<seq<byte>>, d: Drained): Drained {
    d.(frames := frames + d.frames)
  }

  lemma {:induction false} BehindNothing(d: Drained)
    ensures Behind([], d) == d
  {
    assert [] + d.frames == d.frames;
  }

  lemma {:induction false} DrainStep(frames: seq<seq<byte>>, state: DecodeState, buf: seq<byte>, limit: nat)
    ensures Behind(frames, Drain(state, buf, limit)) ==
            match DecodeStep(state, buf, limit)
            case More(state', rest) => Drained(frames, state', rest, false)
            case TooBig(rest) => Drained(frames, Head, rest, true)
            case Frame(data, rest) => Behind(frames + [data], Drain(Head, rest, limit))
  {
    hide DecodeStep;
    assert frames + [] == frames;
    match DecodeStep(state, buf, limit) {
      case Frame(data, rest) =>
        var d := Drain(Head, rest, limit);
        assert frames + ([data] + d.frames) == (frames + [data]) + d.frames;
      case _ =>
    }
  }

  lemma {:induction false} DeliveriesSnoc(box: SecretBox, key: seq<byte>, counter: nat, frames: seq<seq<byte>>,
                                          frame: seq<byte>)
    ensures var last := CounterAfterAll(counter, frames);
            && Deliveries(box, key, counter, frames + [frame]) ==
               Deliveries(box, key, counter, frames) + [OpenFrame(box, key, last, frame)]
            && CounterAfterAll(counter, frames + [frame]) == CounterAfter(last, frame)
  {
    hide OpenFrame, CounterAfter;
    DeliveriesAppend(box, key, counter, frames, [frame]);
    assert [frame][1..] == [];
  }
}
