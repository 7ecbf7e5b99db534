/**
 The video recorder of libs/scrap/src/common/record.rs: which files a run of frames produces, what each of them
 holds, and which states it reports.

 The frames a file is offered are recorded together with the size and format of the call that offered them and
 with the muxer's answer, so that what a file holds can be compared with what it was opened for.
 */
module Recorder {
  import opened Basics

  datatype Format = Unknown | VP8 | VP9 | AV1 | H264 | H265

  /** `pts` is a signed 64-bit number. */
  datatype Frame = Frame(data: seq<byte>, pts: int, key: bool)

  datatype Context = Context(name: string, width: nat, height: nat, format: Format)

  /** A frame handed to the muxer by a call for this size and format; `taken` is the muxer's answer. */
  datatype Offer = Offer(frame: Frame, width: nat, height: nat, format: Format, taken: bool)

  /** What write_video keeps about an output file; the offers are its history. */
  datatype Output = Output(ctx: Context, key: bool, written: bool, offers: seq<Offer>)

  datatype Event = NewFile(name: string) | NewFrame | WriteTail | RemoveFile

  /** The recorder, with the events it has sent, the outputs it has closed and whether each of them had lasted. */
  datatype State = State(
    inner: Option<Output>, ctx2: Option<Context>, pts: Option<int>, failed: bool,
    sent: seq<Event>, closed: seq<Output>, lasts: seq<bool>)

  /**
   What the system answers around one call of `check`: the file name if one could be made, whether the output
   opens, and whether an output dropped meanwhile has lasted for MIN_SECS.
   */
  datatype World = World(name: Option<string>, opens: bool, lasted: bool)

  /** One frame of a message, with the answers it meets. */
  datatype Shot = Shot(frame: Frame, world: World, taken: bool)

  datatype Call = Call(width: nat, height: nat, format: Format, world: World, shots: seq<Shot>)

  datatype Outcome = Outcome(state: State, ok: bool)

  const INITIAL := State(None, None, None, false, [], [], [])

  // ----- the steps -----

  function Ending(out: Output, lasted: bool): Event {
    if out.written && lasted then WriteTail else RemoveFile
  }

  /** Dropping the output, if there is one. */
  function Drop(s: State, lasted: bool): State {
    match s.inner
    case None => s
    case Some(out) =>
      s.(inner := None, sent := s.sent + [Ending(out, lasted)], closed := s.closed + [out], lasts := s.lasts + [lasted])
  }

  predicate Fits(ctx2: Option<Context>, w: nat, h: nat, format: Format) {
    ctx2.Some? && ctx2.value.width == w && ctx2.value.height == h && ctx2.value.format == format
  }

  predicate Openable(format: Format, hwcodec: bool) {
    format in {VP8, VP9, AV1} || hwcodec
  }

  function Settled(s: State, w: nat, h: nat, format: Format, world: World): State
    requires Fits(s.ctx2, w, h, format) || world.name.Some?
  {
    if Fits(s.ctx2, w, h, format) then s
    else Drop(s.(ctx2 := Some(Context(world.name.value, w, h, format))), world.lasted)
  }

  function Opened(s: State): State
    requires s.ctx2.Some?
  {
    s.(inner := Some(Output(s.ctx2.value, false, false, [])), pts := None,
       sent := s.sent + [NewFile(s.ctx2.value.name)])
  }

  function Checked(s: State, w: nat, h: nat, format: Format, hwcodec: bool, world: World): Outcome {
    if !Fits(s.ctx2, w, h, format) && world.name.None? then Outcome(s, false)
    else
      var t := Settled(s, w, h, format, world);
      if t.inner.Some? then Outcome(t, true)
      else if !Openable(format, hwcodec) || !world.opens then Outcome(t, false)
      else Outcome(Opened(t), true)
  }

  /** `check` for a caller that remembers a failure. */
  function CheckOrFail(s: State, w: nat, h: nat, format: Format, hwcodec: bool, world: World): Outcome {
    var r := Checked(s, w, h, format, hwcodec, world);
    if r.ok then r else Outcome(r.state.(failed := true), false)
  }

  function CheckedPts(s: State, frame: Frame, w: nat, h: nat, format: Format, hwcodec: bool, world: World): Outcome {
    if s.pts.None? && !frame.key then Outcome(s, false)
    else
      var last := if s.pts.Some? then s.pts.value else 0;
      var t := s.(pts := Some(frame.pts));
      if last <= frame.pts then Outcome(t, true)
      else
        var r := CheckOrFail(Drop(t, world.lasted).(ctx2 := None), w, h, format, hwcodec, world);
        if r.ok then Outcome(r.state.(pts := Some(frame.pts)), true) else r
  }

  function Extended(out: Output, offer: Offer): Output {
    var key := out.key || offer.frame.key;
    if key then Output(out.ctx, key, out.written || offer.taken, out.offers + [offer]) else out
  }

  function Write(s: State, offer: Offer): State {
    match s.inner
    case None => s
    case Some(out) => s.(inner := Some(Extended(out, offer)))
  }

  /** One turn of the loop over the frames of a message. */
  function Take(s: State, shot: Shot, w: nat, h: nat, format: Format, hwcodec: bool): Outcome {
    var r := CheckedPts(s, shot.frame, w, h, format, hwcodec, shot.world);
    if r.ok then Outcome(Write(r.state, Offer(shot.frame, w, h, format, shot.taken)), true) else r
  }

  function TakeAll(s: State, shots: seq<Shot>, w: nat, h: nat, format: Format, hwcodec: bool): Outcome
    decreases |shots|
  {
    if shots == [] then Outcome(s, true)
    else
      var r := Take(s, shots[0], w, h, format, hwcodec);
      if r.ok then TakeAll(r.state, shots[1..], w, h, format, hwcodec) else r
  }

  function Recorded(s: State, call: Call, hwcodec: bool): Outcome {
    if s.failed || call.format == Unknown then Outcome(s, false)
    else
      var c := CheckOrFail(s, call.width, call.height, call.format, hwcodec, call.world);
      if !c.ok then c
      else
        var r := TakeAll(c.state, call.shots, call.width, call.height, call.format, hwcodec);
        if r.ok then Outcome(r.state.(sent := r.state.sent + [NewFrame]), true) else r
  }

  function Run(s: State, calls: seq<Call>, hwcodec: bool): State
    decreases |calls|
  {
    if calls == [] then s else Run(Recorded(s, calls[0], hwcodec).state, calls[1..], hwcodec)
  }

  // ----- what an output may hold -----

  predicate OneKind(out: Output) {
    forall o <- out.offers :: o.width == out.ctx.width && o.height == out.ctx.height && o.format == out.ctx.format
  }

  predicate InOrder(offers: seq<Offer>) {
    forall i, j :: 0 <= i <= j < |offers| ==> offers[i].frame.pts <= offers[j].frame.pts
  }

  predicate KeyFirst(out: Output) {
    out.key == (out.offers != []) && (out.key ==> out.offers[0].frame.key)
  }

  predicate WrittenIfTaken(out: Output) {
    out.written <==> exists o <- out.offers :: o.taken
  }

  predicate Sound(out: Output) {
    OneKind(out) && InOrder(out.offers) && KeyFirst(out) && WrittenIfTaken(out)
  }

  // ----- what the events may say -----

  datatype Phase = Idle | Recording | Broken

  /** The automaton of (NewFile NewFrame* (WriteTail | RemoveFile))*. */
  function Next(p: Phase, e: Event): Phase {
    match (p, e)
    case (Idle, NewFile(_)) => Recording
    case (Recording, NewFrame) => Recording
    case (Recording, WriteTail) => Idle
    case (Recording, RemoveFile) => Idle
    case _ => Broken
  }

  function After(p: Phase, events: seq<Event>): Phase {
    if events == [] then p else Next(After(p, events[..|events| - 1]), events[|events| - 1])
  }

  /** The names the events announce, in order. */
  function Announced(events: seq<Event>): seq<string> {
    if events == [] then []
    else
      var last := events[|events| - 1];
      Announced(events[..|events| - 1]) + if last.NewFile? then [last.name] else []
  }

  /** The ends the events report, in order. */
  function Ended(events: seq<Event>): seq<Event> {
    if events == [] then []
    else
      var last := events[|events| - 1];
      Ended(events[..|events| - 1]) + if last.WriteTail? || last.RemoveFile? then [last] else []
  }

  function Shown(events: seq<Event>): nat {
    if events == [] then 0
    else Shown(events[..|events| - 1]) + if events[|events| - 1].NewFrame? then 1 else 0
  }

  lemma {:induction false} OneMore(events: seq<Event>, e: Event, p: Phase)
    ensures After(p, events + [e]) == Next(After(p, events), e)
    ensures Announced(events + [e]) == Announced(events) + if e.NewFile? then [e.name] else []
    ensures Ended(events + [e]) == Ended(events) + if e.WriteTail? || e.RemoveFile? then [e] else []
    ensures Shown(events + [e]) == Shown(events) + if e.NewFrame? then 1 else 0
  {
    assert (events + [e])[..|events|] == events;
  }

  function NamesOf(outs: seq<Output>): (ns: seq<string>)
    ensures |ns| == |outs| && forall k :: 0 <= k < |outs| ==> ns[k] == outs[k].ctx.name
  {
    seq(|outs|, k requires 0 <= k < |outs| => outs[k].ctx.name)
  }

  // ----- the invariant -----

  function All(s: State): seq<Output> {
    s.closed + match s.inner case None => [] case Some(out) => [out]
  }

  /** The outputs are sound, the events match them, and the last time stamp is remembered. */
  predicate EventsMatch(s: State) {
    && After(Idle, s.sent) == (if s.inner.Some? then Recording else Idle)
    && Announced(s.sent) == NamesOf(All(s))
    && |Ended(s.sent)| == |s.closed| == |s.lasts|
    && forall k :: 0 <= k < |s.closed| ==>
         Ended(s.sent)[k] == if s.closed[k].written && s.lasts[k] then WriteTail else RemoveFile
  }

  predicate Remembers(s: State, out: Output) {
    && s.ctx2 == Some(out.ctx)
    && (out.offers != [] ==> s.pts.Some? && out.offers[|out.offers| - 1].frame.pts <= s.pts.value)
  }

  predicate OutputsSound(s: State) {
    && (forall out <- s.closed :: Sound(out))
    && (s.inner.Some? ==> Sound(s.inner.value))
  }

  /** The open output belongs to the remembered context and time. */
  predicate Tracks(s: State) {
    s.inner.Some? ==> Remembers(s, s.inner.value)
  }

  predicate Good(s: State) {
    EventsMatch(s) && OutputsSound(s) && Tracks(s)
  }

  lemma {:induction false} DropGood(s: State, lasted: bool)
    requires EventsMatch(s) && OutputsSound(s)
    ensures EventsMatch(Drop(s, lasted)) && OutputsSound(Drop(s, lasted))
  {
    if s.inner.Some? {
      var e := Ending(s.inner.value, lasted);
      OneMore(s.sent, e, Idle);
      assert All(Drop(s, lasted)) == All(s);
    }
  }

  lemma {:induction false} OpenedGood(s: State)
    requires EventsMatch(s) && OutputsSound(s) && s.inner.None? && s.ctx2.Some?
    ensures Good(Opened(s))
  {
    var t := Opened(s);
    OneMore(s.sent, NewFile(s.ctx2.value.name), Idle);
    assert All(t) == All(s) + [t.inner.value];
    assert NamesOf(All(t)) == NamesOf(All(s)) + [s.ctx2.value.name];
  }

  /** A check keeps the invariant; if it succeeds, an output of exactly the requested kind is open. */
  lemma {:induction false} CheckGood(s: State, w: nat, h: nat, format: Format, hwcodec: bool, world: World)
    requires Good(s)
    ensures var r := CheckOrFail(s, w, h, format, hwcodec, world);
            Good(r.state) &&
            (r.ok ==> r.state.inner.Some? && Fits(r.state.ctx2, w, h, format) &&
                      (s.inner.None? ==> r.state.inner.value.offers == []))
  {
    hide After, Announced, Ended, NamesOf, Sound;
    if Fits(s.ctx2, w, h, format) || world.name.Some? {
      if !Fits(s.ctx2, w, h, format) {
        var u := s.(ctx2 := Some(Context(world.name.value, w, h, format)));
        assert EventsMatch(u) by { assert All(u) == All(s); }
        DropGood(u, world.lasted);
      }
      var t := Settled(s, w, h, format, world);
      if t.inner.None? {
        OpenedGood(t);
      }
    }
  }

  /** A check closes the open output exactly for another kind and a new name, and asks then whether it has lasted. */
  lemma {:induction false} CheckCloses(s: State, w: nat, h: nat, format: Format, hwcodec: bool, world: World)
    ensures var t := CheckOrFail(s, w, h, format, hwcodec, world).state;
            var closes := s.inner.Some? && world.name.Some? &&
                          (s.ctx2.None? || s.ctx2.value.width != w || s.ctx2.value.height != h
                           || s.ctx2.value.format != format);
            && t.closed == (if closes then s.closed + [s.inner.value] else s.closed)
            && t.lasts == (if closes then s.lasts + [world.lasted] else s.lasts)
  {
    hide Ending;
  }

  /**
   When a check succeeds: with the right output open, or else if a name is known or found and the output opens, for
   which formats other than vp8, vp9 and av1 need the hardware codec. A new output has the remembered name or the new
   one. Only a failed check marks the recorder as failed.
   */
  lemma {:induction false} CheckSucceedsIff(s: State, w: nat, h: nat, format: Format, hwcodec: bool, world: World)
    ensures var r := CheckOrFail(s, w, h, format, hwcodec, world);
            var fits := s.ctx2.Some? && s.ctx2.value.width == w && s.ctx2.value.height == h
                        && s.ctx2.value.format == format;
            var able := (format == VP8 || format == VP9 || format == AV1 || hwcodec) && world.opens;
            && (r.ok <==> (fits && s.inner.Some?) || ((fits || world.name.Some?) && able))
            && (r.state.failed <==> s.failed || !r.ok)
            && (r.ok && fits && s.inner.Some? ==> r.state == s)
            && (r.ok && !(fits && s.inner.Some?) ==>
                  && r.state.inner.Some? && r.state.inner.value.offers == [] && r.state.pts.None?
                  && r.state.inner.value.ctx
                     == Context(if fits then s.ctx2.value.name else world.name.value, w, h, format))
  {
    hide Ending;
  }

  /**
   When a frame is accepted: a first frame must be a key frame, and a time stamp that goes back needs a name and an
   output that opens. A frame that is not accepted for its kind alone does not mark the recorder as failed.
   */
  lemma {:induction false} TakeSucceedsIff(s: State, shot: Shot, w: nat, h: nat, format: Format, hwcodec: bool)
    ensures var r := Take(s, shot, w, h, format, hwcodec);
            var first := s.pts.None? && !shot.frame.key;
            var back := (if s.pts.Some? then s.pts.value else 0) > shot.frame.pts;
            var able := (format == VP8 || format == VP9 || format == AV1 || hwcodec) && shot.world.opens;
            && (r.ok <==> !first && (back ==> shot.world.name.Some? && able))
            && (first ==> r.state == s)
            && (r.state.failed <==> s.failed || (!r.ok && !first))
  {
    hide CheckOrFail, Ending;
    var u := Drop(s.(pts := Some(shot.frame.pts)), shot.world.lasted).(ctx2 := None);
    CheckSucceedsIff(u, w, h, format, hwcodec, shot.world);
  }

  /** The frame's time is remembered, and an output of the requested kind is open for it. */
  predicate ReadyFor(s: State, frame: Frame, w: nat, h: nat, format: Format) {
    Good(s) && s.inner.Some? && Fits(s.ctx2, w, h, format) && s.pts == Some(frame.pts)
  }

  lemma {:induction false} CheckPtsGood(
    s: State, frame: Frame, w: nat, h: nat, format: Format, hwcodec: bool, world: World)
    requires Good(s) && s.inner.Some? && Fits(s.ctx2, w, h, format)
    ensures var r := CheckedPts(s, frame, w, h, format, hwcodec, world);
            Good(r.state) && (r.ok ==> ReadyFor(r.state, frame, w, h, format))
  {
    hide After, Announced, Ended, NamesOf, Sound, Checked;
    var last := if s.pts.Some? then s.pts.value else 0;
    var t := s.(pts := Some(frame.pts));
    assert All(t) == All(s);
    if (s.pts.Some? || frame.key) && last > frame.pts {
      DropGood(t, world.lasted);
      var u := Drop(t, world.lasted).(ctx2 := None);
      assert All(u) == All(Drop(t, world.lasted));
      CheckGood(u, w, h, format, hwcodec, world);
      var v := CheckOrFail(u, w, h, format, hwcodec, world).state;
      assert All(v.(pts := Some(frame.pts))) == All(v);
    }
  }

  lemma {:induction false} WriteVideoSound(out: Output, offer: Offer)
    requires Sound(out)
    requires offer.width == out.ctx.width && offer.height == out.ctx.height && offer.format == out.ctx.format
    requires out.offers != [] ==> out.offers[|out.offers| - 1].frame.pts <= offer.frame.pts
    ensures Sound(Extended(out, offer))
  {
    var r := Extended(out, offer);
    if r.offers == out.offers + [offer] {
      assert r.offers[|out.offers|] == offer;
      assert r.written ==> exists o <- r.offers :: o.taken by {
        if o :| o in out.offers && o.taken {
          assert o in r.offers;
        }
      }
    }
  }

  lemma {:induction false} WriteGood(s: State, offer: Offer)
    requires ReadyFor(s, offer.frame, offer.width, offer.height, offer.format)
    ensures Good(Write(s, offer))
    ensures Fits(Write(s, offer).ctx2, offer.width, offer.height, offer.format) && Write(s, offer).inner.Some?
  {
    hide After, Announced, Ended, Sound;
    var out := s.inner.value;
    WriteVideoSound(out, offer);
    assert NamesOf(All(Write(s, offer))) == NamesOf(All(s));
  }

  lemma {:induction false} TakeAllGood(
    s: State, shots: seq<Shot>, w: nat, h: nat, format: Format, hwcodec: bool)
    requires Good(s) && s.inner.Some? && Fits(s.ctx2, w, h, format)
    ensures var r := TakeAll(s, shots, w, h, format, hwcodec);
            Good(r.state) && (r.ok ==> r.state.inner.Some?)
    decreases |shots|
  {
    hide CheckedPts, Write, Good, Fits;
    if shots != [] {
      var shot := shots[0];
      CheckPtsGood(s, shot.frame, w, h, format, hwcodec, shot.world);
      var r := CheckedPts(s, shot.frame, w, h, format, hwcodec, shot.world);
      if r.ok {
        WriteGood(r.state, Offer(shot.frame, w, h, format, shot.taken));
        TakeAllGood(Take(s, shot, w, h, format, hwcodec).state, shots[1..], w, h, format, hwcodec);
      }
    }
  }

  lemma {:induction false} NewFrameGood(s: State)
    requires Good(s) && s.inner.Some?
    ensures Good(s.(sent := s.sent + [NewFrame]))
  {
    OneMore(s.sent, NewFrame, Idle);
    assert All(s.(sent := s.sent + [NewFrame])) == All(s);
  }

  lemma {:induction false} WriteFrameGood(s: State, call: Call, hwcodec: bool)
    requires Good(s)
    ensures Good(Recorded(s, call, hwcodec).state)
  {
    hide Good, TakeAll, CheckOrFail, Fits;
    if !s.failed && call.format != Unknown {
      CheckGood(s, call.width, call.height, call.format, hwcodec, call.world);
      var c := CheckOrFail(s, call.width, call.height, call.format, hwcodec, call.world);
      if c.ok {
        TakeAllGood(c.state, call.shots, call.width, call.height, call.format, hwcodec);
        var r := TakeAll(c.state, call.shots, call.width, call.height, call.format, hwcodec);
        if r.ok {
          NewFrameGood(r.state);
        }
      }
    }
  }

  lemma {:induction false} RunGood(s: State, calls: seq<Call>, hwcodec: bool)
    requires Good(s)
    ensures Good(Run(s, calls, hwcodec))
    decreases |calls|
  {
    hide Good, Recorded;
    if calls != [] {
      WriteFrameGood(s, calls[0], hwcodec);
      RunGood(Recorded(s, calls[0], hwcodec).state, calls[1..], hwcodec);
    }
  }

  lemma {:induction false} InitiallyGood()
    ensures Good(INITIAL)
  {
    assert All(INITIAL) == [];
  }

  // ----- the main results -----

  /**
   Over every run, each output was offered frames of its own size and format only, with non-decreasing time
   stamps and a key frame first; it counts as written exactly if the muxer took one of them.
   */
  lemma {:induction false} OutputsOverRuns(calls: seq<Call>, hwcodec: bool)
    ensures forall out <- All(Run(INITIAL, calls, hwcodec)) ::
              OneKind(out) && InOrder(out.offers) && KeyFirst(out) && WrittenIfTaken(out)
  {
    InitiallyGood();
    RunGood(INITIAL, calls, hwcodec);
    hide Run, OneKind, InOrder, KeyFirst, WrittenIfTaken;
  }

  /** The end that is reported for an output with these offers. */
  predicate EndsAs(e: Event, offers: seq<Offer>, lasted: bool) {
    && (e == WriteTail <==> lasted && exists o <- offers :: o.taken)
    && (e == RemoveFile <==> !(lasted && exists o <- offers :: o.taken))
  }

  /**
   Over every run, the events are a prefix of (NewFile NewFrame* (WriteTail | RemoveFile))*, in the middle of a
   file exactly while an output is open; they announce the outputs by name and in order, and a file is said to have
   got its tail exactly if the muxer took a frame for it and it had lasted when it was closed, and removed otherwise.
   Dropping the recorder completes the sequence in the same way.
   */
  lemma {:induction false} EventsOverRuns(calls: seq<Call>, hwcodec: bool, lasted: bool)
    ensures var s := Run(INITIAL, calls, hwcodec);
            && After(Idle, s.sent) == (if s.inner.Some? then Recording else Idle)
            && Announced(s.sent) == NamesOf(All(s))
            && |Ended(s.sent)| == |s.closed| == |s.lasts|
            && (forall k :: 0 <= k < |s.closed| ==> EndsAs(Ended(s.sent)[k], s.closed[k].offers, s.lasts[k]))
            && After(Idle, Drop(s, lasted).sent) == Idle
            && (s.inner.None? ==> Drop(s, lasted).sent == s.sent)
            && (s.inner.Some? ==>
                  && |Drop(s, lasted).sent| == |s.sent| + 1 && s.sent <= Drop(s, lasted).sent
                  && EndsAs(Drop(s, lasted).sent[|s.sent|], s.inner.value.offers, lasted))
  {
    InitiallyGood();
    RunGood(INITIAL, calls, hwcodec);
    var s := Run(INITIAL, calls, hwcodec);
    DropGood(s, lasted);
    hide Run, After, Announced, Ended;
    assert Drop(s, lasted).inner.None?;
    assert forall k :: 0 <= k < |s.closed| ==> s.closed[k] in s.closed;
  }

  // ----- no key frame is lost -----

  function Offered(outs: seq<Output>): seq<Offer> {
    if outs == [] then [] else Offered(outs[..|outs| - 1]) + outs[|outs| - 1].offers
  }

  function Keys(offers: seq<Offer>): seq<Offer> {
    if offers == [] then []
    else
      var last := offers[|offers| - 1];
      Keys(offers[..|offers| - 1]) + if last.frame.key then [last] else []
  }

  function KeyOffers(s: State): seq<Offer> {
    Keys(Offered(All(s)))
  }

  /** The key frames of a message, as a muxer that gives these answers is offered them. */
  function KeyShots(shots: seq<Shot>, w: nat, h: nat, format: Format): seq<Offer>
    decreases |shots|
  {
    if shots == [] then []
    else
      (if shots[0].frame.key then [Offer(shots[0].frame, w, h, format, shots[0].taken)] else []) +
      KeyShots(shots[1..], w, h, format)
  }

  function KeyFrames(calls: seq<Call>): seq<Offer>
    decreases |calls|
  {
    if calls == [] then []
    else KeyShots(calls[0].shots, calls[0].width, calls[0].height, calls[0].format) + KeyFrames(calls[1..])
  }

  predicate Succeeds(s: State, calls: seq<Call>, hwcodec: bool)
    decreases |calls|
  {
    calls == [] ||
    (Recorded(s, calls[0], hwcodec).ok && Succeeds(Recorded(s, calls[0], hwcodec).state, calls[1..], hwcodec))
  }

  lemma {:induction false} OfferedAppend(outs: seq<Output>, out: Output)
    ensures Offered(outs + [out]) == Offered(outs) + out.offers
  {
    assert (outs + [out])[..|outs|] == outs;
  }

  lemma {:induction false} KeysAppend(offers: seq<Offer>, offer: Offer)
    ensures Keys(offers + [offer]) == Keys(offers) + if offer.frame.key then [offer] else []
  {
    assert (offers + [offer])[..|offers|] == offers;
  }

  lemma {:induction false} OpenedOffers(s: State)
    requires s.inner.None? && s.ctx2.Some?
    ensures KeyOffers(Opened(s)) == KeyOffers(s)
  {
    var out := Opened(s).inner.value;
    assert All(Opened(s)) == All(s) + [out];
    OfferedAppend(All(s), out);
    assert Offered(All(s)) + [] == Offered(All(s));
  }

  lemma {:induction false} CheckOffers(s: State, w: nat, h: nat, format: Format, hwcodec: bool, world: World)
    ensures KeyOffers(CheckOrFail(s, w, h, format, hwcodec, world).state) == KeyOffers(s)
  {
    hide Offered, Keys;
    if Fits(s.ctx2, w, h, format) || world.name.Some? {
      var t := Settled(s, w, h, format, world);
      assert All(t) == All(s);
      if t.inner.None? {
        OpenedOffers(t);
      }
      assert All(t.(failed := true)) == All(t);
    }
    assert All(s.(failed := true)) == All(s);
  }

  lemma {:induction false} CheckPtsOffers(
    s: State, frame: Frame, w: nat, h: nat, format: Format, hwcodec: bool, world: World)
    ensures KeyOffers(CheckedPts(s, frame, w, h, format, hwcodec, world).state) == KeyOffers(s)
  {
    hide Offered, Keys, CheckOrFail;
    var t := s.(pts := Some(frame.pts));
    var u := Drop(t, world.lasted).(ctx2 := None);
    assert All(t) == All(s) && All(u) == All(s);
    CheckOffers(u, w, h, format, hwcodec, world);
    var v := CheckOrFail(u, w, h, format, hwcodec, world).state;
    assert All(v.(pts := Some(frame.pts))) == All(v);
  }

  lemma {:induction false} WriteOffers(s: State, offer: Offer)
    requires s.inner.Some?
    ensures KeyOffers(Write(s, offer)) == KeyOffers(s) + if offer.frame.key then [offer] else []
  {
    var out := s.inner.value;
    var next := Extended(out, offer);
    assert All(s) == s.closed + [out] && All(Write(s, offer)) == s.closed + [next];
    OfferedAppend(s.closed, out);
    OfferedAppend(s.closed, next);
    if next.offers == out.offers + [offer] {
      assert Offered(s.closed) + next.offers == (Offered(s.closed) + out.offers) + [offer];
      KeysAppend(Offered(s.closed) + out.offers, offer);
    }
  }

  lemma {:induction false} TakeAllOffers(
    s: State, shots: seq<Shot>, w: nat, h: nat, format: Format, hwcodec: bool)
    requires Good(s) && s.inner.Some? && Fits(s.ctx2, w, h, format)
    requires TakeAll(s, shots, w, h, format, hwcodec).ok
    ensures KeyOffers(TakeAll(s, shots, w, h, format, hwcodec).state) == KeyOffers(s) + KeyShots(shots, w, h, format)
    decreases |shots|
  {
    hide CheckedPts, Write, Good, Fits, KeyOffers;
    if shots != [] {
      var shot := shots[0];
      var offer := Offer(shot.frame, w, h, format, shot.taken);
      CheckPtsGood(s, shot.frame, w, h, format, hwcodec, shot.world);
      CheckPtsOffers(s, shot.frame, w, h, format, hwcodec, shot.world);
      var r := CheckedPts(s, shot.frame, w, h, format, hwcodec, shot.world);
      WriteGood(r.state, offer);
      WriteOffers(r.state, offer);
      TakeAllOffers(Write(r.state, offer), shots[1..], w, h, format, hwcodec);
    }
  }

  lemma {:induction false} WriteFrameOffers(s: State, call: Call, hwcodec: bool)
    requires Good(s) && Recorded(s, call, hwcodec).ok
    ensures KeyOffers(Recorded(s, call, hwcodec).state) ==
            KeyOffers(s) + KeyShots(call.shots, call.width, call.height, call.format)
  {
    hide Good, TakeAll, CheckOrFail, Fits, Offered, Keys, KeyShots;
    CheckGood(s, call.width, call.height, call.format, hwcodec, call.world);
    CheckOffers(s, call.width, call.height, call.format, hwcodec, call.world);
    var c := CheckOrFail(s, call.width, call.height, call.format, hwcodec, call.world).state;
    TakeAllOffers(c, call.shots, call.width, call.height, call.format, hwcodec);
    var r := TakeAll(c, call.shots, call.width, call.height, call.format, hwcodec).state;
    assert All(r.(sent := r.sent + [NewFrame])) == All(r);
  }

  /** As long as calls succeed, every key frame reaches an output, once and in order. */
  lemma {:induction false} KeyFramesKept(s: State, calls: seq<Call>, hwcodec: bool)
    requires Good(s) && Succeeds(s, calls, hwcodec)
    ensures KeyOffers(Run(s, calls, hwcodec)) == KeyOffers(s) + KeyFrames(calls)
    ensures Shown(Run(s, calls, hwcodec).sent) == Shown(s.sent) + |calls|
    decreases |calls|
  {
    hide Good, Recorded, KeyOffers, KeyShots, Shown;
    if calls != [] {
      WriteFrameGood(s, calls[0], hwcodec);
      WriteFrameOffers(s, calls[0], hwcodec);
      WriteFrameShows(s, calls[0], hwcodec);
      KeyFramesKept(Recorded(s, calls[0], hwcodec).state, calls[1..], hwcodec);
    }
  }

  lemma {:induction false} DropShows(s: State, lasted: bool)
    ensures Shown(Drop(s, lasted).sent) == Shown(s.sent)
    ensures Drop(s, lasted).ctx2 == s.ctx2
  {
    hide Shown, After, Announced, Ended;
    if s.inner.Some? {
      OneMore(s.sent, Ending(s.inner.value, lasted), Idle);
    }
  }

  lemma {:induction false} CheckShows(s: State, w: nat, h: nat, format: Format, hwcodec: bool, world: World)
    ensures Shown(CheckOrFail(s, w, h, format, hwcodec, world).state.sent) == Shown(s.sent)
  {
    hide Shown, After, Announced, Ended, Drop;
    if Fits(s.ctx2, w, h, format) || world.name.Some? {
      if !Fits(s.ctx2, w, h, format) {
        DropShows(s.(ctx2 := Some(Context(world.name.value, w, h, format))), world.lasted);
      }
      var t := Settled(s, w, h, format, world);
      OneMore(t.sent, NewFile(t.ctx2.value.name), Idle);
    }
  }

  lemma {:induction false} CheckPtsShows(
    s: State, frame: Frame, w: nat, h: nat, format: Format, hwcodec: bool, world: World)
    ensures Shown(CheckedPts(s, frame, w, h, format, hwcodec, world).state.sent) == Shown(s.sent)
  {
    hide Shown, CheckOrFail, Drop;
    var t := s.(pts := Some(frame.pts));
    DropShows(t, world.lasted);
    CheckShows(Drop(t, world.lasted).(ctx2 := None), w, h, format, hwcodec, world);
  }

  lemma {:induction false} TakeAllShows(
    s: State, shots: seq<Shot>, w: nat, h: nat, format: Format, hwcodec: bool)
    ensures Shown(TakeAll(s, shots, w, h, format, hwcodec).state.sent) == Shown(s.sent)
    decreases |shots|
  {
    hide Shown, CheckedPts;
    if shots != [] {
      CheckPtsShows(s, shots[0].frame, w, h, format, hwcodec, shots[0].world);
      TakeAllShows(Take(s, shots[0], w, h, format, hwcodec).state, shots[1..], w, h, format, hwcodec);
    }
  }

  lemma {:induction false} WriteFrameShows(s: State, call: Call, hwcodec: bool)
    ensures var r := Recorded(s, call, hwcodec); Shown(r.state.sent) == Shown(s.sent) + if r.ok then 1 else 0
  {
    hide Shown, CheckOrFail, TakeAll;
    CheckShows(s, call.width, call.height, call.format, hwcodec, call.world);
    var c := CheckOrFail(s, call.width, call.height, call.format, hwcodec, call.world).state;
    TakeAllShows(c, call.shots, call.width, call.height, call.format, hwcodec);
    var r := TakeAll(c, call.shots, call.width, call.height, call.format, hwcodec).state;
    OneMore(r.sent, NewFrame, Idle);
  }

  /**
   One frame: a time stamp that goes back closes the output and starts another, which waits for a key frame;
   otherwise the frame goes to the open output, unless that is still waiting for one.
   */
  lemma {:induction false} OneFrame(s: State, shot: Shot, w: nat, h: nat, format: Format, hwcodec: bool)
    requires Good(s) && s.inner.Some? && Fits(s.ctx2, w, h, format)
    requires Take(s, shot, w, h, format, hwcodec).ok
    ensures var t := Take(s, shot, w, h, format, hwcodec).state;
            var offer := Offer(shot.frame, w, h, format, shot.taken);
            var back := (if s.pts.Some? then s.pts.value else 0) > shot.frame.pts;
            && t.inner.Some? && t.pts == Some(shot.frame.pts)
            && t.closed == (if back then s.closed + [s.inner.value] else s.closed)
            && t.lasts == (if back then s.lasts + [shot.world.lasted] else s.lasts)
            && (var before := if back then [] else s.inner.value.offers;
                t.inner.value.offers == if shot.frame.key || before != [] then before + [offer] else before)
  {
    hide After, Announced, Ended;
    var u := Drop(s.(pts := Some(shot.frame.pts)), shot.world.lasted).(ctx2 := None);
    assert u.inner.None? && u.closed == s.closed + [s.inner.value];
  }

  // ----- what the muxer keeps -----

  /** The time stamp the muxer gets: a cast to an unsigned 64-bit number times a million, both wrapping. */
  function Time(pts: int): int {
    (pts % U64 * 1_000_000) % U64
  }

  /** The time stamp is the frame's own in nanoseconds exactly for the times that fit. */
  lemma {:induction false} TimeFits(pts: int)
    ensures Time(pts) == pts * 1_000_000 <==> 0 <= pts && pts * 1_000_000 < U64
  {
    if 0 <= pts && pts * 1_000_000 < U64 {
      assert pts % U64 == pts;
    }
  }

  /** How often a time in nanoseconds goes round the 64-bit clock; negative for times below zero. */
  function Laps(pts: int): int {
    pts * 1_000_000 / U64
  }

  lemma {:induction false} TimeIs(pts: int)
    ensures Time(pts) == pts * 1_000_000 - Laps(pts) * U64
  {
    var q, r := pts / U64, pts % U64;
    assert pts == r + q * U64;
    assert pts * 1_000_000 == r * 1_000_000 + (q * 1_000_000) * U64;
    Wrap(r * 1_000_000, q * 1_000_000);
  }

  /** The later frame is a lap ahead of the earlier one, but less than the lap's length. */
  predicate Overtakes(a: int, b: int) {
    (b - a) * 1_000_000 < (Laps(b) - Laps(a)) * U64
  }

  lemma {:induction false} TimeOrder(a: int, b: int)
    ensures Time(a) <= Time(b) <==> !Overtakes(a, b)
  {
    hide Time, Laps;
    TimeIs(a);
    TimeIs(b);
  }

  /** Within one lap below zero and one above, only a short step across zero is out of order. */
  lemma {:induction false} NearZero(a: int, b: int)
    requires a <= b && -U64 <= a * 1_000_000 && b * 1_000_000 < U64
    ensures Time(a) <= Time(b) <==> a >= 0 || b < 0 || (b - a) * 1_000_000 >= U64
  {
    hide Time;
    TimeOrder(a, b);
    assert Laps(a) == (if a < 0 then -1 else 0) && Laps(b) == (if b < 0 then -1 else 0);
  }

  /** The stamps of an output as the muxer gets them, in order. */
  predicate StampsInOrder(offers: seq<Offer>) {
    forall i, j :: 0 <= i <= j < |offers| ==> Time(offers[i].frame.pts) <= Time(offers[j].frame.pts)
  }

  /**
   Over every run, the time stamps of an output are handed over in order if and only if none of its frames is
   overtaken by a later one. They are if all lie in one lap, as times that fit do, or small negative ones.
   */
  lemma {:induction false} TimesInOrder(calls: seq<Call>, hwcodec: bool)
    ensures forall out <- All(Run(INITIAL, calls, hwcodec)) ::
              && (StampsInOrder(out.offers) <==>
                    forall i, j :: 0 <= i <= j < |out.offers| ==>
                      !Overtakes(out.offers[i].frame.pts, out.offers[j].frame.pts))
              && ((forall i, j :: 0 <= i <= j < |out.offers| ==>
                     Laps(out.offers[i].frame.pts) == Laps(out.offers[j].frame.pts)) ==> StampsInOrder(out.offers))
  {
    OutputsOverRuns(calls, hwcodec);
    hide Run, All, Time, Laps, OneKind, KeyFirst, WrittenIfTaken;
    forall out | out in All(Run(INITIAL, calls, hwcodec))
      ensures StampsInOrder(out.offers) <==>
              forall i, j :: 0 <= i <= j < |out.offers| ==>
                !Overtakes(out.offers[i].frame.pts, out.offers[j].frame.pts)
      ensures (forall i, j :: 0 <= i <= j < |out.offers| ==>
                 Laps(out.offers[i].frame.pts) == Laps(out.offers[j].frame.pts)) ==> StampsInOrder(out.offers)
    {
      assert InOrder(out.offers);
      OutputStamps(out.offers);
    }
  }

  lemma {:induction false} OutputStamps(offers: seq<Offer>)
    requires InOrder(offers)
    ensures StampsInOrder(offers) <==>
            forall i, j :: 0 <= i <= j < |offers| ==> !Overtakes(offers[i].frame.pts, offers[j].frame.pts)
    ensures (forall i, j :: 0 <= i <= j < |offers| ==> Laps(offers[i].frame.pts) == Laps(offers[j].frame.pts)) ==>
              StampsInOrder(offers)
  {
    hide Time, Laps;
    forall i, j | 0 <= i <= j < |offers|
      ensures Time(offers[i].frame.pts) <= Time(offers[j].frame.pts) <==>
              !Overtakes(offers[i].frame.pts, offers[j].frame.pts)
    {
      TimeOrder(offers[i].frame.pts, offers[j].frame.pts);
    }
  }

  /** The frames the file holds. */
  function Written(offers: seq<Offer>): seq<Offer> {
    if offers == [] then []
    else (if offers[0].taken then [offers[0]] else []) + Written(offers[1..])
  }

  lemma {:induction false} WrittenFrom(offers: seq<Offer>, n: nat)
    requires n < |offers| && offers[n].taken && forall i :: 0 <= i < n ==> !offers[i].taken
    ensures Written(offers) != [] && Written(offers)[0] == offers[n]
    decreases n
  {
    if n > 0 {
      WrittenFrom(offers[1..], n - 1);
    }
  }

  lemma {:induction false} FirstTaken(offers: seq<Offer>) returns (n: nat)
    requires Written(offers) != []
    ensures n < |offers| && offers[n].taken && forall i :: 0 <= i < n ==> !offers[i].taken
  {
    if offers[0].taken {
      n := 0;
    } else {
      var m := FirstTaken(offers[1..]);
      assert forall i :: 0 < i < m + 1 ==> offers[i] == offers[1..][i - 1];
      n := m + 1;
    }
  }

  // ----- what a muxer may refuse -----

  /** Every offer that an output has been made meets a condition. */
  predicate OffersMeet(s: State, ok: Offer -> bool) {
    forall out <- All(s) :: forall o <- out.offers :: ok(o)
  }

  /** Every offer that these calls may make meets a condition. */
  predicate CallsMeet(calls: seq<Call>, ok: Offer -> bool) {
    forall c <- calls :: ShotsMeet(c.shots, c.width, c.height, c.format, ok)
  }

  predicate ShotsMeet(shots: seq<Shot>, w: nat, h: nat, format: Format, ok: Offer -> bool) {
    forall x <- shots :: ok(Offer(x.frame, w, h, format, x.taken))
  }

  /** A check changes the outputs at most by an empty one. */
  lemma {:induction false} CheckAll(s: State, w: nat, h: nat, format: Format, hwcodec: bool, world: World)
    ensures var t := CheckOrFail(s, w, h, format, hwcodec, world).state;
            All(t) == All(s) || exists out: Output :: out.offers == [] && All(t) == All(s) + [out]
  {
    if Fits(s.ctx2, w, h, format) || world.name.Some? {
      var t := Settled(s, w, h, format, world);
      assert All(t) == All(s) && All(t.(failed := true)) == All(t);
      if t.inner.None? {
        assert All(Opened(t)) == All(t) + [Opened(t).inner.value];
      }
    }
    assert All(s.(failed := true)) == All(s);
  }

  lemma {:induction false} CheckMeets(s: State, w: nat, h: nat, format: Format, hwcodec: bool, world: World,
                                      ok: Offer -> bool)
    requires OffersMeet(s, ok)
    ensures OffersMeet(CheckOrFail(s, w, h, format, hwcodec, world).state, ok)
  {
    hide CheckOrFail, All;
    CheckAll(s, w, h, format, hwcodec, world);
  }

  lemma {:induction false} TakeMeets(s: State, shot: Shot, w: nat, h: nat, format: Format, hwcodec: bool,
                                     ok: Offer -> bool)
    requires OffersMeet(s, ok) && ok(Offer(shot.frame, w, h, format, shot.taken))
    ensures OffersMeet(Take(s, shot, w, h, format, hwcodec).state, ok)
  {
    hide CheckOrFail, Extended;
    var t := s.(pts := Some(shot.frame.pts));
    var u := Drop(t, shot.world.lasted).(ctx2 := None);
    assert All(t) == All(s) && All(u) == All(s);
    CheckMeets(u, w, h, format, hwcodec, shot.world, ok);
    var v := CheckOrFail(u, w, h, format, hwcodec, shot.world).state;
    assert All(v.(pts := Some(shot.frame.pts))) == All(v);
    var r := CheckedPts(s, shot.frame, w, h, format, hwcodec, shot.world).state;
    WriteMeets(r, Offer(shot.frame, w, h, format, shot.taken), ok);
  }

  lemma {:induction false} WriteMeets(s: State, offer: Offer, ok: Offer -> bool)
    requires OffersMeet(s, ok) && ok(offer)
    ensures OffersMeet(Write(s, offer), ok)
  {
    if s.inner.Some? {
      var out := s.inner.value;
      var t := Write(s, offer);
      assert All(s) == s.closed + [out] && All(t) == s.closed + [Extended(out, offer)];
      assert out in All(s) && forall x <- s.closed :: x in All(s);
    }
  }

  lemma {:induction false} TakeAllMeets(s: State, shots: seq<Shot>, w: nat, h: nat, format: Format, hwcodec: bool,
                                        ok: Offer -> bool)
    requires OffersMeet(s, ok) && ShotsMeet(shots, w, h, format, ok)
    ensures OffersMeet(TakeAll(s, shots, w, h, format, hwcodec).state, ok)
    decreases |shots|
  {
    hide Take, OffersMeet;
    if shots != [] {
      assert shots[0] in shots && forall x <- shots[1..] :: x in shots;
      TakeMeets(s, shots[0], w, h, format, hwcodec, ok);
      if Take(s, shots[0], w, h, format, hwcodec).ok {
        TakeAllMeets(Take(s, shots[0], w, h, format, hwcodec).state, shots[1..], w, h, format, hwcodec, ok);
      }
    }
  }

  lemma {:induction false} RecordedMeets(s: State, call: Call, hwcodec: bool, ok: Offer -> bool)
    requires OffersMeet(s, ok) && ShotsMeet(call.shots, call.width, call.height, call.format, ok)
    ensures OffersMeet(Recorded(s, call, hwcodec).state, ok)
  {
    hide CheckOrFail, TakeAll, ShotsMeet;
    CheckMeets(s, call.width, call.height, call.format, hwcodec, call.world, ok);
    var c := CheckOrFail(s, call.width, call.height, call.format, hwcodec, call.world).state;
    TakeAllMeets(c, call.shots, call.width, call.height, call.format, hwcodec, ok);
    var r := TakeAll(c, call.shots, call.width, call.height, call.format, hwcodec).state;
    assert All(r.(sent := r.sent + [NewFrame])) == All(r);
  }

  /** What holds of every offer of the calls holds of every offer of the outputs. */
  lemma {:induction false} RunMeets(s: State, calls: seq<Call>, hwcodec: bool, ok: Offer -> bool)
    requires OffersMeet(s, ok) && CallsMeet(calls, ok)
    ensures OffersMeet(Run(s, calls, hwcodec), ok)
    decreases |calls|
  {
    hide Recorded, OffersMeet, ShotsMeet;
    if calls != [] {
      assert calls[0] in calls && forall c <- calls[1..] :: c in calls;
      RecordedMeets(s, calls[0], hwcodec, ok);
      RunMeets(Recorded(s, calls[0], hwcodec).state, calls[1..], hwcodec, ok);
    }
  }

  /** With a muxer that takes every key frame, every file that was offered one starts with the first of them. */
  lemma {:induction false} FilesStartWithKey(calls: seq<Call>, hwcodec: bool)
    requires CallsMeet(calls, (o: Offer) => o.frame.key ==> o.taken)
    ensures forall out <- All(Run(INITIAL, calls, hwcodec)) :: out.offers != [] ==>
              Written(out.offers) != [] && Written(out.offers)[0] == out.offers[0] && out.offers[0].frame.key
  {
    assert All(INITIAL) == [];
    OutputsOverRuns(calls, hwcodec);
    RunMeets(INITIAL, calls, hwcodec, (o: Offer) => o.frame.key ==> o.taken);
    hide Run, CallsMeet;
    forall out | out in All(Run(INITIAL, calls, hwcodec)) && out.offers != []
      ensures Written(out.offers) != [] && Written(out.offers)[0] == out.offers[0] && out.offers[0].frame.key
    {
      assert out.offers[0] in out.offers;
      WrittenFrom(out.offers, 0);
    }
  }

  /** Every file that holds something starts with a key frame. */
  predicate StartWithKeys(s: State) {
    forall out <- All(s) :: Written(out.offers) != [] ==> Written(out.offers)[0].frame.key
  }

  /** All runs with a muxer that answers by `takes` leave files that start with key frames. */
  ghost predicate KeepsKeysFirst(takes: Frame -> bool) {
    forall calls, hwcodec :: CallsMeet(calls, (o: Offer) => o.taken == takes(o.frame)) ==>
      StartWithKeys(Run(INITIAL, calls, hwcodec))
  }

  /** A key frame that is refused, and another frame that is taken and not earlier. */
  predicate Misplaces(takes: Frame -> bool, refused: Frame, taken: Frame) {
    refused.key && !takes(refused) && !taken.key && takes(taken) && refused.pts <= taken.pts
  }

  lemma {:induction false} RunStartsWithKeys(calls: seq<Call>, hwcodec: bool, takes: Frame -> bool)
    requires CallsMeet(calls, (o: Offer) => o.taken == takes(o.frame))
    requires forall a, b :: !Misplaces(takes, a, b)
    ensures StartWithKeys(Run(INITIAL, calls, hwcodec))
  {
    assert All(INITIAL) == [];
    OutputsOverRuns(calls, hwcodec);
    RunMeets(INITIAL, calls, hwcodec, (o: Offer) => o.taken == takes(o.frame));
    hide Run, CallsMeet, All;
    forall out | out in All(Run(INITIAL, calls, hwcodec)) && Written(out.offers) != []
      ensures Written(out.offers)[0].frame.key
    {
      var n := FirstTaken(out.offers);
      WrittenFrom(out.offers, n);
      assert out.offers[0] in out.offers && out.offers[n] in out.offers;
      assert out.offers[0].frame.pts <= out.offers[n].frame.pts;
      assert !Misplaces(takes, out.offers[0].frame, out.offers[n].frame);
    }
  }

  /**
   A muxer that answers by the frame leaves only files that start with a key frame if and only if it never refuses a
   key frame and takes another frame that is not earlier.
   */
  lemma {:induction false} FirstWrittenIsKey(takes: Frame -> bool)
    ensures KeepsKeysFirst(takes) <==> forall a, b :: !Misplaces(takes, a, b)
  {
    if forall a, b :: !Misplaces(takes, a, b) {
      forall calls, hwcodec | CallsMeet(calls, (o: Offer) => o.taken == takes(o.frame))
        ensures StartWithKeys(Run(INITIAL, calls, hwcodec))
      {
        RunStartsWithKeys(calls, hwcodec, takes);
      }
    }
    if a, b :| Misplaces(takes, a, b) {
      MisplacedFrame(takes, a, b);
    }
  }

  lemma {:induction false} MisplacedFrame(takes: Frame -> bool, a: Frame, b: Frame)
    requires Misplaces(takes, a, b)
    ensures !KeepsKeysFirst(takes)
  {
    var world := World(Some("a"), true, true);
    var calls := TwoFrames(world, a, false, b, true);
    TwoFramesRun(world, "a", a, false, b, true);
    var s := Run(INITIAL, calls, false);
    var offers := s.inner.value.offers;
    assert calls[0].shots == [Shot(a, world, false), Shot(b, world, true)];
    assert CallsMeet(calls, (o: Offer) => o.taken == takes(o.frame));
    hide Run;
    WrittenFrom(offers, 1);
    assert s.inner.value in All(s);
    assert !StartWithKeys(s);
  }

  /** A muxer that does not look at the time must take every key frame or refuse every other frame. */
  lemma {:induction false} TimeBlindMuxer(takes: Frame -> bool)
    requires forall f: Frame, p: int :: takes(f.(pts := p)) == takes(f)
    ensures KeepsKeysFirst(takes) <==>
            (forall f: Frame :: f.key ==> takes(f)) || (forall f: Frame :: !f.key ==> !takes(f))
  {
    hide KeepsKeysFirst;
    FirstWrittenIsKey(takes);
    if a: Frame, b: Frame :| a.key && !takes(a) && !b.key && takes(b) {
      assert Misplaces(takes, a, b.(pts := a.pts));
    }
  }

  /** A call with two frames and the muxer's answers to them. */
  function TwoFrames(world: World, a: Frame, takenA: bool, b: Frame, takenB: bool): seq<Call> {
    [Call(1, 1, VP9, world, [Shot(a, world, takenA), Shot(b, world, takenB)])]
  }

  /** A key frame and a frame that is not earlier end up in one file, whatever the first one's time. */
  lemma {:induction false} TwoFramesRun(world: World, name: string, a: Frame, takenA: bool, b: Frame, takenB: bool)
    requires world.name == Some(name) && world.opens && a.key && a.pts <= b.pts
    ensures var s := Run(INITIAL, TwoFrames(world, a, takenA, b, takenB), false);
            && s.inner.Some? && s.inner.value.written == (takenA || takenB)
            && s.inner.value.offers == [Offer(a, 1, 1, VP9, takenA), Offer(b, 1, 1, VP9, takenB)]
  {
    var x, y := Shot(a, world, takenA), Shot(b, world, takenB);
    var call := Call(1, 1, VP9, world, [x, y]);
    var c := CheckOrFail(INITIAL, 1, 1, VP9, false, world).state;
    var blank := Output(Context(name, 1, 1, VP9), false, false, []);
    assert c.inner == Some(blank) && c.pts == None && c.ctx2 == Some(Context(name, 1, 1, VP9));
    FirstFrame(c, x, name);
    var d := Take(c, x, 1, 1, VP9, false).state;
    assert [] + [Offer(a, 1, 1, VP9, takenA)] == [Offer(a, 1, 1, VP9, takenA)];
    var e := Take(d, y, 1, 1, VP9, false).state;
    assert e.inner.value.offers == [Offer(a, 1, 1, VP9, takenA), Offer(b, 1, 1, VP9, takenB)];
    assert [x, y][1..] == [y] && [y][1..] == [];
    assert TakeAll(d, [y], 1, 1, VP9, false) == TakeAll(e, [], 1, 1, VP9, false) == Outcome(e, true);
    assert TakeAll(c, [x, y], 1, 1, VP9, false) == Outcome(e, true);
    assert Run(INITIAL, [call], false).inner == e.inner;
  }

  lemma {:induction false} FirstFrame(c: State, x: Shot, name: string)
    requires c.inner == Some(Output(Context(name, 1, 1, VP9), false, false, [])) && c.pts == None
    requires c.ctx2 == Some(Context(name, 1, 1, VP9)) && x.frame.key && x.world.name == Some(name) && x.world.opens
    ensures var r := Take(c, x, 1, 1, VP9, false);
            && r.ok && r.state.pts == Some(x.frame.pts)
            && r.state.inner == Some(Output(Context(name, 1, 1, VP9), true, x.taken,
                                            [Offer(x.frame, 1, 1, VP9, x.taken)]))
  {
    assert [] + [Offer(x.frame, 1, 1, VP9, x.taken)] == [Offer(x.frame, 1, 1, VP9, x.taken)];
  }

  /** If the muxer refuses the key frame, the file starts with the frame after it, key or not. */
  lemma {:induction false} RefusedKeyFrame(world: World, name: string, second: Frame)
    requires world.name == Some(name) && world.opens && second.pts >= 0
    ensures var s := Run(INITIAL, TwoFrames(world, Frame([], 0, true), false, second, true), false);
            && s.inner.Some? && s.inner.value.written
            && Written(s.inner.value.offers) == [Offer(second, 1, 1, VP9, true)]
  {
    TwoFramesRun(world, name, Frame([], 0, true), false, second, true);
    hide Run;
    var offers := [Offer(Frame([], 0, true), 1, 1, VP9, false), Offer(second, 1, 1, VP9, true)];
    assert offers[1..] == [Offer(second, 1, 1, VP9, true)] && offers[1..][1..] == [];
    assert Written(offers[1..]) == [Offer(second, 1, 1, VP9, true)] + Written([]);
  }

  /** A run that hands over -1 and then 0: the first frame's time goes back behind zero, so it opens a file anew. */
  lemma {:induction false} TimesOutOfOrder(world: World, name: string)
    requires world.name == Some(name) && world.opens
    ensures var s := Run(INITIAL, TwoFrames(world, Frame([], -1, true), true, Frame([], 0, false), true), false);
            && s.inner.Some? && |s.inner.value.offers| == 2
            && s.inner.value.offers[0].taken && s.inner.value.offers[1].taken
            && Time(s.inner.value.offers[0].frame.pts) > Time(s.inner.value.offers[1].frame.pts)
  {
    TwoFramesRun(world, name, Frame([], -1, true), true, Frame([], 0, false), true);
    hide Run, Time;
    NearZero(-1, 0);
  }

  /** After a failed check nothing is accepted any more, and frames of no known format never are. */
  lemma {:induction false} FailureIsFinal(s: State, calls: seq<Call>, hwcodec: bool)
    requires s.failed || forall call <- calls :: call.format == Unknown
    ensures Run(s, calls, hwcodec) == s
    decreases |calls|
  {
    if calls != [] {
      FailureIsFinal(s, calls[1..], hwcodec);
    }
  }

  // ----- the recorder itself -----

  /** The two recorders behind `RecorderApi`, which differ in the muxer only. */
  class FileRecorder {
    const ctx: Context
    var key: bool
    var written: bool
    var offers: seq<Offer>

    constructor (ctx: Context)
      ensures Value() == Output(ctx, false, false, [])
    {
      this.ctx, key, written, offers := ctx, false, false, [];
    }

    function Value(): Output
      reads this
    {
      Output(ctx, key, written, offers)
    }

    method WriteVideo(offer: Offer) returns (ok: bool)
      modifies this
      ensures Value() == Extended(old(Value()), offer)
      ensures ok == (offer.taken && (old(key) || offer.frame.key))
    {
      if offer.frame.key {
        key := true;
      }
      if key {
        offers := offers + [offer];
        ok := offer.taken;
        if ok {
          written := true;
        }
      } else {
        ok := false;
      }
    }
  }

  class Recorder {
    const hwcodec: bool
    var inner: FileRecorder?
    var ctx2: Option<Context>
    var pts: Option<int>
    var checkFailed: bool
    /** The events sent, the outputs closed so far and whether each had lasted. */
    var sent: seq<Event>
    var closed: seq<Output>
    var lasts: seq<bool>

    constructor (hwcodec: bool)
      ensures Value() == INITIAL && inner == null && this.hwcodec == hwcodec
    {
      this.hwcodec, inner, ctx2, pts, checkFailed := hwcodec, null, None, None, false;
      sent, closed, lasts := [], [], [];
    }

    function Value(): State
      reads this, inner
    {
      State(if inner == null then None else Some(inner.Value()), ctx2, pts, checkFailed, sent, closed, lasts)
    }

    method SendState(e: Event)
      modifies this`sent
      ensures sent == old(sent) + [e]
    {
      sent := sent + [e];
    }

    method DropInner(lasted: bool)
      modifies this`inner, this`sent, this`closed, this`lasts
      ensures inner == null && Value() == Drop(old(Value()), lasted)
    {
      if inner != null {
        var state := WriteTail;
        if !inner.written || !lasted {
          state := RemoveFile;
        }
        closed, lasts := closed + [inner.Value()], lasts + [lasted];
        inner := null;
        SendState(state);
      }
    }

    /** Turns to a context of another kind or a fresh one, which needs a file name. */
    method Settle(w: nat, h: nat, format: Format, world: World) returns (ok: bool)
      modifies this`ctx2, this`inner, this`sent, this`closed, this`lasts
      ensures ok == (Fits(old(ctx2), w, h, format) || world.name.Some?)
      ensures Value() == if ok then Settled(old(Value()), w, h, format, world) else old(Value())
      ensures ok ==> ctx2.Some?
      ensures inner == old(inner) || inner == null
    {
      hide Drop;
      if ctx2.None? || ctx2.value.width != w || ctx2.value.height != h || ctx2.value.format != format {
        if world.name.None? {
          return false;
        }
        ctx2 := Some(Context(world.name.value, w, h, format));
        DropInner(world.lasted);
      }
      return true;
    }

    method Open(format: Format, opens: bool) returns (ok: bool)
      requires inner == null && ctx2.Some?
      modifies this`inner, this`pts, this`sent
      ensures ok == (Openable(format, hwcodec) && opens)
      ensures Value() == if ok then Opened(old(Value())) else old(Value())
      ensures inner == null || fresh(inner)
    {
      if format !in {VP8, VP9, AV1} && !hwcodec {
        return false;
      }
      if !opens {
        return false;
      }
      inner := new FileRecorder(ctx2.value);
      pts := None;
      SendState(NewFile(ctx2.value.name));
      return true;
    }

    method Check(w: nat, h: nat, format: Format, world: World) returns (ok: bool)
      modifies this
      ensures inner == old(inner) || inner == null || fresh(inner)
      ensures var r := Checked(old(Value()), w, h, format, hwcodec, world); Value() == r.state && ok == r.ok
    {
      hide Opened, Openable, Drop;
      var settled := Settle(w, h, format, world);
      if !settled {
        return false;
      }
      if inner == null {
        ok := Open(format, world.opens);
        return;
      }
      return true;
    }

    /** Starts another file after a time stamp that went back. */
    method Rotate(w: nat, h: nat, format: Format, world: World) returns (ok: bool)
      modifies this
      ensures inner == old(inner) || inner == null || fresh(inner)
      ensures var r := CheckOrFail(Drop(old(Value()), world.lasted).(ctx2 := None), w, h, format, hwcodec, world);
              Value() == r.state && ok == r.ok
    {
      hide Checked, Drop;
      DropInner(world.lasted);
      ctx2 := None;
      ok := Check(w, h, format, world);
      if !ok {
        checkFailed := true;
      }
    }

    method CheckPts(frame: Frame, w: nat, h: nat, format: Format, world: World) returns (ok: bool)
      modifies this
      ensures inner == old(inner) || inner == null || fresh(inner)
      ensures var r := CheckedPts(old(Value()), frame, w, h, format, hwcodec, world);
              Value() == r.state && ok == r.ok
    {
      hide CheckOrFail, Drop;
      if pts.None? && !frame.key {
        return false;
      }
      var oldPts := pts;
      pts := Some(frame.pts);
      if (match oldPts case Some(p) => p case None => 0) > frame.pts {
        var rotated := Rotate(w, h, format, world);
        if !rotated {
          return false;
        }
        pts := Some(frame.pts);
      }
      return true;
    }

    method WriteFrame(call: Call) returns (ok: bool)
      modifies this, inner
      ensures inner == old(inner) || inner == null || fresh(inner)
      ensures var r := Recorded(old(Value()), call, hwcodec); Value() == r.state && ok == r.ok
    {
      if checkFailed {
        return false;
      }
      var format := call.format;
      if format == Unknown {
        return false;
      }
      ghost var start := Value();
      var checked := Check(call.width, call.height, format, call.world);
      if !checked {
        checkFailed := true;
        return false;
      }
      ghost var settled := Value();
      ghost var whole := TakeAll(settled, call.shots, call.width, call.height, format, hwcodec);
      assert call.shots[0..] == call.shots;
      for i := 0 to |call.shots|
        invariant inner == old(inner) || inner == null || fresh(inner)
        invariant whole == TakeAll(Value(), call.shots[i..], call.width, call.height, format, hwcodec)
      {
        ghost var before := Value();
        var shot := call.shots[i];
        assert call.shots[i..][0] == shot && call.shots[i..][1..] == call.shots[i + 1..];
        ok := CheckPts(shot.frame, call.width, call.height, format, shot.world);
        if !ok {
          return;
        }
        if inner != null {
          var _ := inner.WriteVideo(Offer(shot.frame, call.width, call.height, format, shot.taken));
        }
        assert Value() == Take(before, shot, call.width, call.height, format, hwcodec).state;
      }
      SendState(NewFrame);
      return true;
    }
  }
}
