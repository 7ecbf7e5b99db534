/**
 Codec negotiation in libs/scrap/src/common/codec.rs: from what every connected peer can decode and prefers, and
 what this host can encode, `Encoder::update` chooses one format for all of them.
 */
module Negotiation {
  import opened Basics

  datatype Format = VP9 | VP8 | AV1 | H264 | H265

  /** The wire values of PreferCodec; a peer may send others. */
  const AUTO := 0
  const PREFER_VP9 := 1
  const PREFER_H264 := 2
  const PREFER_H265 := 3
  const PREFER_VP8 := 4
  const PREFER_AV1 := 5

  datatype Decoding = Decoding(vp9: int, h264: int, h265: int, vp8: int, av1: int, prefer: int)

  type Peers = map<int, Decoding>

  /** What the host answers: its options, its encoders and its memory. */
  datatype Host = Host(
    av1Disabled: bool, av1Test: bool, vram264: bool, vram265: bool, hw264: bool, hw265: bool, memory: nat)

  datatype Usable = Usable(vp8: bool, av1: bool, h264: bool, h265: bool)

  /** `Failed` is an encoder that could not be created, which resets the format. */
  datatype Event = Update(id: int, decoding: Decoding) | Remove(id: int) | NewOnlyVP9(id: int) | Check | Failed

  datatype State = State(peers: Peers, format: Format, usable: Option<Usable>)

  const ONLY_VP9 := Decoding(1, 0, 0, 0, 0, AUTO)
  const INITIAL := State(map[], VP9, None)
  const LOW_MEMORY := 4 * 1024 * 1024 * 1024

  function Ability(d: Decoding, f: Format): int {
    match f
    case VP9 => d.vp9
    case VP8 => d.vp8
    case AV1 => d.av1
    case H264 => d.h264
    case H265 => d.h265
  }

  predicate AllDecode(peers: Peers, f: Format) {
    |peers| > 0 && forall k <- peers :: Ability(peers[k], f) > 0
  }

  function UsableBy(peers: Peers, host: Host): Usable {
    Usable(
      AllDecode(peers, VP8),
      AllDecode(peers, AV1) && !host.av1Disabled,
      AllDecode(peers, H264) && (host.vram264 || host.hw264),
      AllDecode(peers, H265) && (host.vram265 || host.hw265))
  }

  predicate Admissible(prefer: int, u: Usable) {
    prefer == PREFER_VP9 || (prefer == PREFER_VP8 && u.vp8) || (prefer == PREFER_AV1 && u.av1) ||
    (prefer == PREFER_H264 && u.h264) || (prefer == PREFER_H265 && u.h265)
  }

  predicate Known(order: seq<int>, peers: Peers) {
    forall i :: 0 <= i < |order| ==> order[i] in peers
  }

  /** The admissible preferences in the order in which the map of peers is visited. */
  function Preferences(order: seq<int>, peers: Peers, u: Usable): seq<int>
    requires Known(order, peers)
  {
    if order == [] then []
    else
      (if Admissible(peers[order[0]].prefer, u) then [peers[order[0]].prefer] else []) +
      Preferences(order[1..], peers, u)
  }

  predicate IsOrder(order: seq<int>, peers: Peers) {
    multiset(order) == multiset(peers.Keys)
  }

  lemma {:induction false} OrderVisits(order: seq<int>, peers: Peers)
    requires IsOrder(order, peers)
    ensures Known(order, peers)
    ensures forall k <- peers :: k in order
  {
    forall i | 0 <= i < |order|
      ensures order[i] in peers
    {
      assert order[i] in multiset(order);
      assert order[i] in multiset(peers.Keys);
    }
    forall k | k in peers
      ensures k in order
    {
      assert k in multiset(peers.Keys);
      assert k in multiset(order);
    }
  }

  // ----- the vote -----

  /** The distinct values in the order of their first appearance. */
  function Firsts(prefs: seq<int>): seq<int> {
    if prefs == [] then []
    else
      var last := prefs[|prefs| - 1];
      var before := Firsts(prefs[..|prefs| - 1]);
      if last in before then before else before + [last]
  }

  /** The first value with the greatest count. */
  function Leader(values: seq<int>, counts: multiset<int>): (w: int)
    requires values != []
    ensures w in values
    ensures forall v <- values :: counts[v] <= counts[w]
  {
    if |values| == 1 then values[0]
    else
      var w := Leader(values[1..], counts);
      if counts[values[0]] >= counts[w] then values[0] else w
  }

  function Winner(prefs: seq<int>): int {
    if Firsts(prefs) == [] then AUTO else Leader(Firsts(prefs), multiset(prefs))
  }

  lemma {:induction false} FirstsCover(prefs: seq<int>)
    ensures forall p :: p in Firsts(prefs) <==> p in prefs
    ensures prefs != [] ==> Firsts(prefs) != [] && Firsts(prefs)[0] == prefs[0]
    decreases |prefs|
  {
    if prefs != [] {
      var init := prefs[..|prefs| - 1];
      FirstsCover(init);
      assert prefs == init + [prefs[|prefs| - 1]];
    }
  }

  /** The winner is an admissible preference that nobody outnumbers. */
  lemma {:induction false} WinnerIsMostFrequent(prefs: seq<int>)
    requires prefs != []
    ensures Winner(prefs) in prefs
    ensures forall p :: multiset(prefs)[p] <= multiset(prefs)[Winner(prefs)]
  {
    FirstsCover(prefs);
    forall p
      ensures multiset(prefs)[p] <= multiset(prefs)[Winner(prefs)]
    {
      if p in multiset(prefs) {
        assert p in prefs && p in Firsts(prefs);
      }
    }
  }

  predicate Outnumbers(votes: multiset<int>, w: int) {
    w in votes && forall p <- votes :: p != w ==> votes[p] < votes[w]
  }

  /** A preference that outnumbers every other one wins in whatever order the votes come. */
  lemma {:induction false} StrictWinnerWins(prefs: seq<int>, w: int)
    requires Outnumbers(multiset(prefs), w)
    ensures Winner(prefs) == w
  {
    assert w in prefs;
    WinnerIsMostFrequent(prefs);
    assert Winner(prefs) in multiset(prefs);
  }

  lemma {:induction false} LeaderFirst(values: seq<int>, counts: multiset<int>)
    requires values != [] && forall v <- values :: counts[v] <= counts[values[0]]
    ensures Leader(values, counts) == values[0]
  {
  }

  /** Of equally frequent preferences the first one wins. */
  lemma {:induction false} FirstOfEqualsWins(prefs: seq<int>)
    requires prefs != [] && forall p <- prefs :: multiset(prefs)[p] <= multiset(prefs)[prefs[0]]
    ensures Winner(prefs) == prefs[0]
  {
    FirstsCover(prefs);
    LeaderFirst(Firsts(prefs), multiset(prefs));
  }

  // ----- the choice -----

  function AutoCodec(u: Usable, host: Host): Format {
    if u.h265 then H265
    else if u.h264 then H264
    else if u.vp8 && host.memory <= LOW_MEMORY then VP8
    else if u.av1 && host.av1Test then AV1
    else VP9
  }

  function Choice(preference: int, peers: Peers, u: Usable, host: Host): Format {
    if preference == PREFER_VP8 then VP8
    else if preference == PREFER_VP9 then VP9
    else if preference == PREFER_AV1 then AV1
    else if preference == PREFER_H264 && AllDecode(peers, H264) && (host.vram264 || host.hw264) then H264
    else if preference == PREFER_H265 && AllDecode(peers, H265) && (host.vram265 || host.hw265) then H265
    else AutoCodec(u, host)
  }

  function Connected(peers: Peers, e: Event): Peers {
    match e
    case Update(id, d) => peers[id := d]
    case Remove(id) => peers - {id}
    case NewOnlyVP9(id) => peers[id := ONLY_VP9]
    case _ => peers
  }

  function Negotiated(order: seq<int>, peers: Peers, host: Host): Format
    requires IsOrder(order, peers)
  {
    OrderVisits(order, peers);
    var u := UsableBy(peers, host);
    Choice(Winner(Preferences(order, peers, u)), peers, u, host)
  }

  /** An event, the host's answers to it, and the order in which it finds the peers. */
  datatype Step = Step(event: Event, host: Host, order: seq<int>)

  predicate Possible(s: State, step: Step) {
    step.event.Failed? || IsOrder(step.order, Connected(s.peers, step.event))
  }

  function Next(s: State, step: Step): State
    requires Possible(s, step)
  {
    if step.event.Failed? then s.(format := VP9)
    else
      var peers := Connected(s.peers, step.event);
      State(peers, Negotiated(step.order, peers, step.host), Some(UsableBy(peers, step.host)))
  }

  predicate Run(s: State, steps: seq<Step>, t: State)
    decreases |steps|
  {
    if steps == [] then s == t else Possible(s, steps[0]) && Run(Next(s, steps[0]), steps[1..], t)
  }

  /** Every vote is admissible and is some peer's preference. */
  lemma {:induction false} PreferencesAdmissible(order: seq<int>, peers: Peers, u: Usable)
    requires Known(order, peers)
    ensures forall p <- Preferences(order, peers, u) ::
              Admissible(p, u) && exists i :: 0 <= i < |order| && peers[order[i]].prefer == p
    decreases |order|
  {
    hide Admissible;
    if order != [] {
      PreferencesAdmissible(order[1..], peers, u);
      forall p | p in Preferences(order, peers, u)
        ensures exists i :: 0 <= i < |order| && peers[order[i]].prefer == p
      {
        if p in Preferences(order[1..], peers, u) {
          var i :| 0 <= i < |order[1..]| && peers[order[1..][i]].prefer == p;
          assert order[i + 1] == order[1..][i];
        } else {
          assert peers[order[0]].prefer == p;
        }
      }
    }
  }

  function FormatOf(prefer: int): Format {
    if prefer == PREFER_VP8 then VP8
    else if prefer == PREFER_AV1 then AV1
    else if prefer == PREFER_H264 then H264
    else if prefer == PREFER_H265 then H265
    else VP9
  }

  predicate FormatUsable(f: Format, u: Usable) {
    match f
    case VP9 => true
    case VP8 => u.vp8
    case AV1 => u.av1
    case H264 => u.h264
    case H265 => u.h265
  }

  /** An admissible preference is granted as it is; without one the automatic choice applies. */
  lemma {:induction false} ChoiceGrants(preference: int, peers: Peers, host: Host)
    ensures var u := UsableBy(peers, host);
            && (Admissible(preference, u) ==> Choice(preference, peers, u, host) == FormatOf(preference))
            && (preference == AUTO ==> Choice(preference, peers, u, host) == AutoCodec(u, host))
            && (Admissible(preference, u) || preference == AUTO ==>
                  FormatUsable(Choice(preference, peers, u, host), u))
  {
    hide AllDecode;
  }

  /**
   What an event does: the peers that are connected then, and for each format whether all of them decode it and the
   host can encode it. A failed encoder changes the format alone.
   */
  lemma {:induction false} EventTells(s: State, step: Step)
    requires Possible(s, step)
    ensures var t, host := Next(s, step), step.host;
            match step.event
            case Failed => t == s.(format := VP9)
            case Update(id, d) => id in t.peers && t.peers[id] == d && t.peers - {id} == s.peers - {id}
            case Remove(id) => id !in t.peers && t.peers == s.peers - {id}
            case NewOnlyVP9(id) => id in t.peers && t.peers[id].vp9 == 1 && t.peers[id].prefer == 0
                                   && (forall f :: Ability(t.peers[id], f) > 0 <==> f == VP9)
                                   && t.peers - {id} == s.peers - {id}
            case Check => t.peers == s.peers
    ensures var t, host := Next(s, step), step.host;
            var some := t.peers != map[];
            !step.event.Failed? ==>
              && t.usable.Some?
              && (t.usable.value.vp8 <==> some && forall k <- t.peers :: t.peers[k].vp8 > 0)
              && (t.usable.value.av1 <==> some && (forall k <- t.peers :: t.peers[k].av1 > 0) && !host.av1Disabled)
              && (t.usable.value.h264 <==> some && (forall k <- t.peers :: t.peers[k].h264 > 0)
                                           && (host.vram264 || host.hw264))
              && (t.usable.value.h265 <==> some && (forall k <- t.peers :: t.peers[k].h265 > 0)
                                           && (host.vram265 || host.hw265))
  {
    hide Negotiated;
    assert Ability(ONLY_VP9, VP9) == 1;
  }

  /** A preference counts as a vote if its format is usable; VP9 always is. */
  predicate Counts(prefer: int, u: Usable) {
    || prefer == 1 || (prefer == 4 && u.vp8) || (prefer == 5 && u.av1) || (prefer == 2 && u.h264)
    || (prefer == 3 && u.h265)
  }

  lemma {:induction false} EmptyVote()
    ensures Winner([]) == AUTO
  {
  }

  lemma {:induction false} NoPreferences(order: seq<int>, peers: Peers, u: Usable)
    requires Known(order, peers) && forall k <- peers :: !Counts(peers[k].prefer, u)
    ensures Preferences(order, peers, u) == []
    decreases |order|
  {
    if order != [] {
      NoPreferences(order[1..], peers, u);
    }
  }

  /**
   Without a vote the formats rank h265, h264, then vp8 on a host with at most 4 GiB, then av1 if its test is on, then
   vp9, and the first usable one is chosen.
   */
  lemma {:induction false} NoVoteRanks(s: State, step: Step)
    requires Possible(s, step) && !step.event.Failed?
    requires forall k <- Next(s, step).peers :: !Counts(Next(s, step).peers[k].prefer, Next(s, step).usable.value)
    ensures var t := Next(s, step);
            var u, small := t.usable.value, step.host.memory <= 4_294_967_296;
            && (t.format == H265 <==> u.h265)
            && (t.format == H264 <==> u.h264 && !u.h265)
            && (t.format == VP8 <==> u.vp8 && small && !u.h264 && !u.h265)
            && (t.format == AV1 <==> u.av1 && step.host.av1Test && !(u.vp8 && small) && !u.h264 && !u.h265)
  {
    hide UsableBy, IsOrder, Preferences;
    var t := Next(s, step);
    OrderVisits(step.order, t.peers);
    NoPreferences(step.order, t.peers, t.usable.value);
    EmptyVote();
  }

  /** How many of these peers prefer `w`. */
  function Supporters(peers: Peers, w: int): nat {
    |set k | k in peers && peers[k].prefer == w|
  }

  function SupportersIn(order: seq<int>, peers: Peers, w: int): (ks: set<int>)
    ensures forall k :: k in ks <==> k in order && k in peers && peers[k].prefer == w
  {
    set k | k in order && k in peers && peers[k].prefer == w
  }

  predicate Distinct(order: seq<int>) {
    forall i, j :: 0 <= i < j < |order| ==> order[i] != order[j]
  }

  lemma {:induction false} OrderDistinct(order: seq<int>, keys: set<int>)
    requires multiset(order) == multiset(keys)
    ensures Distinct(order)
  {
    forall i, j | 0 <= i < j < |order|
      ensures order[i] != order[j]
    {
      var x := order[i];
      assert order == order[..i] + [x] + order[i + 1..j] + [order[j]] + order[j + 1..];
      assert multiset(keys)[x] <= 1;
    }
  }

  /** Each peer whose preference is usable has one vote, and nobody else has any. */
  lemma {:induction false} VotesAreCounted(order: seq<int>, peers: Peers, u: Usable, w: int)
    requires Known(order, peers) && Distinct(order)
    ensures multiset(Preferences(order, peers, u))[w] == if Counts(w, u) then |SupportersIn(order, peers, w)| else 0
    decreases |order|
  {
    if order != [] {
      var k, rest := order[0], order[1..];
      VotesAreCounted(rest, peers, u, w);
      assert k !in rest;
      var before := SupportersIn(rest, peers, w);
      assert SupportersIn(order, peers, w) == if peers[k].prefer == w then before + {k} else before;
      SameCounts(peers[k].prefer, u);
    }
  }

  lemma {:induction false} SameCounts(prefer: int, u: Usable)
    ensures Admissible(prefer, u) <==> Counts(prefer, u)
  {
  }

  /** The preference that most peers share is granted if it counts: its number on the wire names the format. */
  lemma {:induction false} MajorityIsGranted(s: State, step: Step, w: int)
    requires Possible(s, step) && !step.event.Failed?
    requires var t := Next(s, step);
             && Counts(w, t.usable.value) && Supporters(t.peers, w) > 0
             && forall p :: p != w && Counts(p, t.usable.value) ==> Supporters(t.peers, p) < Supporters(t.peers, w)
    ensures Next(s, step).format == if w == 1 then VP9 else if w == 2 then H264 else if w == 3 then H265
                                    else if w == 4 then VP8 else AV1
  {
    hide UsableBy, Preferences, Choice, AutoCodec, Winner, Counts, Admissible;
    var t := Next(s, step);
    OrderVisits(step.order, t.peers);
    OrderDistinct(step.order, t.peers.Keys);
    var prefs := Preferences(step.order, t.peers, t.usable.value);
    forall p
      ensures multiset(prefs)[p] == if Counts(p, t.usable.value) then Supporters(t.peers, p) else 0
    {
      VotesAreCounted(step.order, t.peers, t.usable.value, p);
      SupportersAll(step.order, t.peers, p);
    }
    StrictWinnerWins(prefs, w);
    SameCounts(w, t.usable.value);
    ChoiceGrants(w, t.peers, step.host);
    GrantedFormat(w, t.usable.value);
  }

  lemma {:induction false} SupportersAll(order: seq<int>, peers: Peers, w: int)
    requires forall k <- peers :: k in order
    ensures |SupportersIn(order, peers, w)| == Supporters(peers, w)
  {
    var all := set k | k in peers && peers[k].prefer == w;
    assert forall k <- all :: k in peers && k in order;
    assert SupportersIn(order, peers, w) == all;
  }

  lemma {:induction false} GrantedFormat(w: int, u: Usable)
    requires Counts(w, u)
    ensures FormatOf(w) == if w == 1 then VP9 else if w == 2 then H264 else if w == 3 then H265
                           else if w == 4 then VP8 else AV1
  {
  }

  predicate Safe(s: State) {
    && (s.format != VP9 ==> AllDecode(s.peers, s.format))
    && (s.format != VP9 ==> s.usable.Some? && FormatUsable(s.format, s.usable.value))
  }

  lemma {:induction false} NegotiatedUsable(order: seq<int>, peers: Peers, host: Host)
    requires IsOrder(order, peers)
    ensures FormatUsable(Negotiated(order, peers, host), UsableBy(peers, host))
    ensures Negotiated(order, peers, host) != VP9 ==> AllDecode(peers, Negotiated(order, peers, host))
  {
    hide AllDecode, Winner, Preferences, Admissible, Choice, FormatUsable, IsOrder;
    OrderVisits(order, peers);
    var u := UsableBy(peers, host);
    var prefs := Preferences(order, peers, u);
    PreferencesAdmissible(order, peers, u);
    if prefs == [] {
      EmptyVote();
    } else {
      WinnerIsMostFrequent(prefs);
    }
    ChoiceGrants(Winner(prefs), peers, host);
    if Negotiated(order, peers, host) != VP9 {
      UsableDecodes(Negotiated(order, peers, host), peers, host);
    }
  }

  lemma {:induction false} UsableDecodes(f: Format, peers: Peers, host: Host)
    requires FormatUsable(f, UsableBy(peers, host)) && f != VP9
    ensures AllDecode(peers, f)
  {
  }

  /**
   After every step of every run, a chosen format other than VP9 is marked usable and can be decoded by every
   connected peer, of which there is at least one.
   */
  lemma {:induction false} NegotiationSafety(s: State, steps: seq<Step>, t: State)
    requires Safe(s) && Run(s, steps, t)
    ensures Safe(t)
    decreases |steps|
  {
    hide Negotiated, UsableBy, FormatUsable, IsOrder, AllDecode;
    if steps != [] {
      var step := steps[0];
      if !step.event.Failed? {
        NegotiatedUsable(step.order, Connected(s.peers, step.event), step.host);
      }
      NegotiationSafety(Next(s, step), steps[1..], t);
    }
  }

  // ----- the connected peers -----

  predicate Concerns(e: Event, id: int) {
    match e
    case Update(k, _) => k == id
    case Remove(k) => k == id
    case NewOnlyVP9(k) => k == id
    case _ => false
  }

  /** Events about other peers leave a peer's entry alone. */
  lemma {:induction false} OthersKeepEntry(s: State, steps: seq<Step>, t: State, id: int)
    requires Run(s, steps, t)
    requires forall step <- steps :: !Concerns(step.event, id)
    ensures id in t.peers <==> id in s.peers
    ensures id in s.peers ==> t.peers[id] == s.peers[id]
    decreases |steps|
  {
    hide Negotiated, UsableBy, IsOrder;
    if steps != [] {
      assert steps[0] in steps;
      OthersKeepEntry(Next(s, steps[0]), steps[1..], t, id);
    }
  }

  lemma {:induction false} OnlyVP9Forces(order: seq<int>, peers: Peers, host: Host, id: int)
    requires IsOrder(order, peers)
    requires id in peers && peers[id] == ONLY_VP9
    ensures Negotiated(order, peers, host) == VP9
  {
    NegotiatedUsable(order, peers, host);
  }

  /** While a VP9-only entry has been neither updated nor removed, every step leaves the choice at VP9. */
  lemma {:induction false} OnlyVP9Stays(s: State, steps: seq<Step>, t: State, id: int)
    requires steps != [] && steps[0].event == NewOnlyVP9(id) && Run(s, steps, t)
    requires forall step <- steps[1..] :: !Concerns(step.event, id)
    ensures t.format == VP9
  {
    hide Negotiated, UsableBy, IsOrder;
    var u := Next(s, steps[0]);
    assert id in u.peers && u.peers[id] == ONLY_VP9;
    OnlyVP9Forces(steps[0].order, u.peers, steps[0].host, id);
    EntryKeepsVP9(u, steps[1..], t, id);
  }

  lemma {:induction false} EntryKeepsVP9(s: State, steps: seq<Step>, t: State, id: int)
    requires s.format == VP9 && id in s.peers && s.peers[id] == ONLY_VP9 && Run(s, steps, t)
    requires forall step <- steps :: !Concerns(step.event, id)
    ensures t.format == VP9
    decreases |steps|
  {
    hide Negotiated, UsableBy, IsOrder;
    if steps != [] {
      var step := steps[0];
      assert step in steps;
      if !step.event.Failed? {
        OnlyVP9Forces(step.order, Connected(s.peers, step.event), step.host, id);
      }
      EntryKeepsVP9(Next(s, step), steps[1..], t, id);
    }
  }

  /** The preference that gets most admissible votes is one of those votes, admissible, and some peer's own. */
  lemma {:induction false} SelectedIsAdmissible(order: seq<int>, peers: Peers, host: Host)
    requires IsOrder(order, peers) && Known(order, peers)
    ensures var u := UsableBy(peers, host);
            var prefs := Preferences(order, peers, u);
            if prefs == [] then Winner(prefs) == AUTO
            else && Admissible(Winner(prefs), u)
                 && (exists k :: k in peers && peers[k].prefer == Winner(prefs))
                 && (forall p :: multiset(prefs)[p] <= multiset(prefs)[Winner(prefs)])
  {
    hide AllDecode, Winner, Preferences, Admissible, IsOrder, UsableBy;
    var u := UsableBy(peers, host);
    var prefs := Preferences(order, peers, u);
    if prefs == [] {
      EmptyVote();
    } else {
      PreferencesAdmissible(order, peers, u);
      WinnerIsMostFrequent(prefs);
      var i :| 0 <= i < |order| && peers[order[i]].prefer == Winner(prefs);
      var k := order[i];
      assert k in peers && peers[k].prefer == Winner(prefs);
      assert Admissible(Winner(prefs), u);
    }
  }

  /** VP9 wins the vote, or there is no vote and the automatic choice falls back to it. */
  predicate VP9Forced(order: seq<int>, peers: Peers, host: Host)
    requires Known(order, peers)
  {
    var u := UsableBy(peers, host);
    var prefs := Preferences(order, peers, u);
    if prefs == [] then AutoCodec(u, host) == VP9 else Winner(prefs) == PREFER_VP9
  }

  lemma {:induction false} VP9IffForced(order: seq<int>, peers: Peers, host: Host)
    requires IsOrder(order, peers) && Known(order, peers)
    ensures Negotiated(order, peers, host) == VP9 <==> VP9Forced(order, peers, host)
  {
    hide AllDecode, Winner, Preferences, Choice, IsOrder, UsableBy;
    SelectedIsAdmissible(order, peers, host);
    ChoiceGrants(Winner(Preferences(order, peers, UsableBy(peers, host))), peers, host);
  }

  /**
   The chosen format can be decoded by every connected peer if and only if VP9 can, or VP9 was not forced: VP9 is
   the one format that is chosen without asking.
   */
  lemma {:induction false} DecodableIffNotForced(order: seq<int>, peers: Peers, host: Host)
    requires IsOrder(order, peers) && Known(order, peers) && |peers| > 0
    ensures AllDecode(peers, Negotiated(order, peers, host)) <==>
            AllDecode(peers, VP9) || !VP9Forced(order, peers, host)
  {
    hide AllDecode, Negotiated, VP9Forced, IsOrder;
    NegotiatedUsable(order, peers, host);
    VP9IffForced(order, peers, host);
  }

  /** VP9 itself is chosen without asking: here the only peer cannot decode it. */
  lemma {:induction false} VP9Unchecked(host: Host)
    ensures var peers := map[7 := Decoding(0, 0, 0, 0, 0, AUTO)];
            IsOrder([7], peers) && Negotiated([7], peers, host) == VP9 && !AllDecode(peers, VP9)
  {
    var peers: Peers := map[7 := Decoding(0, 0, 0, 0, 0, AUTO)];
    assert peers.Keys == {7};
    assert IsOrder([7], peers);
    NegotiatedUsable([7], peers, host);
    assert Ability(peers[7], Negotiated([7], peers, host)) == 0;
  }

  // ----- the order of the map -----

  lemma {:induction false} PreferencesAppend(a: seq<int>, b: seq<int>, peers: Peers, u: Usable)
    requires Known(a + b, peers)
    ensures Known(a, peers)
    ensures Known(b, peers)
    ensures Preferences(a + b, peers, u) == Preferences(a, peers, u) + Preferences(b, peers, u)
    decreases |a|
  {
    hide Admissible;
    forall i | 0 <= i < |b|
      ensures b[i] in peers
    {
      assert (a + b)[|a| + i] == b[i];
    }
    forall i | 0 <= i < |a|
      ensures a[i] in peers
    {
      assert (a + b)[i] == a[i];
    }
    if a == [] {
      assert a + b == b;
    } else {
      assert (a + b)[1..] == a[1..] + b;
      PreferencesAppend(a[1..], b, peers, u);
    }
  }

  lemma {:induction false} PreferencesMove(x: seq<int>, k: int, y: seq<int>, peers: Peers, u: Usable)
    requires Known(x, peers) && Known(y, peers) && k in peers
    ensures multiset(Preferences(x + ([k] + y), peers, u)) ==
            multiset(Preferences([k], peers, u)) + multiset(Preferences(x + y, peers, u))
  {
    hide Preferences;
    PreferencesAppend(x, [k] + y, peers, u);
    PreferencesAppend([k], y, peers, u);
    PreferencesAppend(x, y, peers, u);
  }

  /** An occurrence of a value, and the sequence without it. */
  lemma {:induction false} Locate(b: seq<int>, k: int) returns (x: seq<int>, y: seq<int>)
    requires k in multiset(b)
    ensures b == x + ([k] + y)
    ensures multiset(x + y) == multiset(b) - multiset{k} && |x + y| == |b| - 1
  {
    assert k in b;
    var i :| 0 <= i < |b| && b[i] == k;
    x, y := b[..i], b[i + 1..];
    assert b == x + ([k] + y);
  }

  lemma {:induction false} KnownAround(x: seq<int>, k: int, y: seq<int>, peers: Peers)
    ensures Known(x + ([k] + y), peers) <==> Known(x, peers) && k in peers && Known(y, peers)
    ensures Known(x + y, peers) <==> Known(x, peers) && Known(y, peers)
  {
    var s, t := x + ([k] + y), x + y;
    assert forall i :: 0 <= i < |x| ==> s[i] == x[i] && t[i] == x[i];
    assert forall i :: 0 <= i < |y| ==> s[|x| + 1 + i] == y[i] && t[|x| + i] == y[i];
    assert s[|x|] == k;
  }

  /** Visiting the peers in another order changes the order of the votes only. */
  lemma {:induction false} VotesDoNotDependOnOrder(a: seq<int>, b: seq<int>, peers: Peers, u: Usable)
    requires Known(a, peers) && Known(b, peers)
    requires multiset(a) == multiset(b)
    ensures multiset(Preferences(a, peers, u)) == multiset(Preferences(b, peers, u))
    decreases |a|
  {
    hide Preferences, Known;
    if a == [] {
      assert |multiset(b)| == 0;
      assert b == [];
    } else {
      var k := a[0];
      assert k in multiset(a);
      var v, w := Locate(a, k);
      var x, y := Locate(b, k);
      KnownAround(v, k, w, peers);
      KnownAround(x, k, y, peers);
      PreferencesMove(v, k, w, peers, u);
      PreferencesMove(x, k, y, peers, u);
      VotesDoNotDependOnOrder(v + w, x + y, peers, u);
    }
  }

  // ----- when the order matters -----

  /** The vote is empty, or one preference outnumbers every other. */
  ghost predicate Decided(votes: multiset<int>) {
    votes == multiset{} || exists w <- votes :: Outnumbers(votes, w)
  }

  ghost predicate OrderIrrelevant(peers: Peers, host: Host) {
    forall a, b :: IsOrder(a, peers) && IsOrder(b, peers) ==> Negotiated(a, peers, host) == Negotiated(b, peers, host)
  }

  function Votes(order: seq<int>, peers: Peers, host: Host): multiset<int>
    requires IsOrder(order, peers)
  {
    OrderVisits(order, peers);
    multiset(Preferences(order, peers, UsableBy(peers, host)))
  }

  lemma {:induction false} DecidedVote(a: seq<int>, b: seq<int>, peers: Peers, host: Host)
    requires IsOrder(a, peers) && IsOrder(b, peers) && Decided(Votes(a, peers, host))
    ensures Negotiated(a, peers, host) == Negotiated(b, peers, host)
  {
    hide UsableBy, Winner, Preferences, Choice, Outnumbers;
    OrderVisits(a, peers);
    OrderVisits(b, peers);
    var u := UsableBy(peers, host);
    var pa, pb := Preferences(a, peers, u), Preferences(b, peers, u);
    VotesDoNotDependOnOrder(a, b, peers, u);
    if multiset(pa) == multiset{} {
      assert |multiset(pa)| == 0 && |multiset(pb)| == 0;
      assert pa == [] && pb == [];
    } else {
      var w :| w in multiset(pa) && Outnumbers(multiset(pa), w);
      StrictWinnerWins(pa, w);
      StrictWinnerWins(pb, w);
    }
  }

  /** A peer whose preference is as frequent as any other gets its way when it comes first. */
  lemma {:induction false} FirstPeerWins(order: seq<int>, peers: Peers, host: Host, k: int)
    requires IsOrder(order, peers) && k in peers && Admissible(peers[k].prefer, UsableBy(peers, host))
    requires forall p <- Votes(order, peers, host) ::
               Votes(order, peers, host)[p] <= Votes(order, peers, host)[peers[k].prefer]
    ensures exists b :: IsOrder(b, peers) && Negotiated(b, peers, host) == FormatOf(peers[k].prefer)
  {
    hide UsableBy, Winner, Choice, Admissible;
    OrderVisits(order, peers);
    var u := UsableBy(peers, host);
    var i :| 0 <= i < |order| && order[i] == k;
    var b := [k] + (order[..i] + order[i + 1..]);
    assert order == order[..i] + ([k] + order[i + 1..]);
    assert IsOrder(b, peers);
    OrderVisits(b, peers);
    VotesDoNotDependOnOrder(order, b, peers, u);
    var prefs := Preferences(b, peers, u);
    assert prefs[0] == peers[k].prefer;
    assert multiset(prefs) == Votes(order, peers, host);
    forall p | p in prefs
      ensures multiset(prefs)[p] <= multiset(prefs)[prefs[0]]
    {
      assert p in Votes(order, peers, host);
    }
    FirstOfEqualsWins(prefs);
    ChoiceGrants(prefs[0], peers, host);
  }

  lemma {:induction false} AdmissibleFormatsDiffer(p: int, q: int, u: Usable)
    requires Admissible(p, u) && Admissible(q, u) && p != q
    ensures FormatOf(p) != FormatOf(q)
  {
  }

  lemma {:induction false} UndecidedVote(order: seq<int>, peers: Peers, host: Host)
    requires IsOrder(order, peers) && !Decided(Votes(order, peers, host))
    ensures !OrderIrrelevant(peers, host)
  {
    hide UsableBy, Winner, Choice, Admissible, Preferences, Negotiated, FormatOf;
    OrderVisits(order, peers);
    var u := UsableBy(peers, host);
    var prefs := Preferences(order, peers, u);
    var votes := Votes(order, peers, host);
    assert prefs != [];
    WinnerIsMostFrequent(prefs);
    var p := Winner(prefs);
    assert p in votes && !Outnumbers(votes, p);
    var q :| q in votes && q != p && votes[q] >= votes[p];
    assert q in prefs && votes[q] == votes[p];
    PreferencesAdmissible(order, peers, u);
    var k :| 0 <= k < |order| && peers[order[k]].prefer == p;
    var j :| 0 <= j < |order| && peers[order[j]].prefer == q;
    FirstPeerWins(order, peers, host, order[k]);
    FirstPeerWins(order, peers, host, order[j]);
    AdmissibleFormatsDiffer(p, q, u);
  }

  /**
   The choice is the same for every order in which the map is visited exactly when there is no admissible
   preference or one of them outnumbers all the others.
   */
  lemma {:induction false} OrderIrrelevantIffDecided(order: seq<int>, peers: Peers, host: Host)
    requires IsOrder(order, peers)
    ensures OrderIrrelevant(peers, host) <==> Decided(Votes(order, peers, host))
  {
    hide Negotiated, Decided, Votes;
    if Decided(Votes(order, peers, host)) {
      forall a, b | IsOrder(a, peers) && IsOrder(b, peers)
        ensures Negotiated(a, peers, host) == Negotiated(b, peers, host)
      {
        DecidedVote(order, a, peers, host);
        DecidedVote(order, b, peers, host);
      }
    } else {
      UndecidedVote(order, peers, host);
    }
  }

  // ----- the update itself -----

  /** Each distinct preference with its exact number of votes, in the order of first appearance. */
  predicate Tally(counts: seq<(int, nat)>, prefs: seq<int>) {
    && |counts| == |Firsts(prefs)|
    && forall i :: 0 <= i < |counts| ==> counts[i] == (Firsts(prefs)[i], multiset(prefs)[Firsts(prefs)[i]])
  }

  lemma {:induction false} FirstsDistinct(prefs: seq<int>)
    ensures forall i, j :: 0 <= i < j < |Firsts(prefs)| ==> Firsts(prefs)[i] != Firsts(prefs)[j]
    decreases |prefs|
  {
    if prefs != [] {
      FirstsDistinct(prefs[..|prefs| - 1]);
    }
  }

  lemma {:induction false} FirstsSnoc(prefs: seq<int>, p: int)
    ensures Firsts(prefs + [p]) == if p in Firsts(prefs) then Firsts(prefs) else Firsts(prefs) + [p]
    ensures multiset(prefs + [p]) == multiset(prefs) + multiset{p}
  {
    assert (prefs + [p])[..|prefs|] == prefs;
  }

  lemma {:induction false} TallyBump(counts: seq<(int, nat)>, prefs: seq<int>, i: nat)
    requires Tally(counts, prefs) && i < |counts|
    ensures Tally(counts[i := (counts[i].0, counts[i].1 + 1)], prefs + [counts[i].0])
  {
    hide Firsts;
    var p := counts[i].0;
    FirstsSnoc(prefs, p);
    FirstsDistinct(prefs);
    assert Firsts(prefs)[i] == p;
  }

  lemma {:induction false} TallyPush(counts: seq<(int, nat)>, prefs: seq<int>, p: int)
    requires Tally(counts, prefs) && forall k :: 0 <= k < |counts| ==> counts[k].0 != p
    ensures Tally(counts + [(p, 1)], prefs + [p])
  {
    hide Firsts;
    FirstsSnoc(prefs, p);
    FirstsCover(prefs);
    assert p !in prefs && multiset(prefs)[p] == 0;
  }

  method CountVotes(prefs: seq<int>) returns (counts: seq<(int, nat)>)
    ensures Tally(counts, prefs)
  {
    counts := [];
    for n := 0 to |prefs|
      invariant Tally(counts, prefs[..n])
    {
      hide Tally;
      assert prefs[..n + 1] == prefs[..n] + [prefs[n]];
      var i := 0;
      while i < |counts| && counts[i].0 != prefs[n]
        invariant 0 <= i <= |counts|
        invariant forall k :: 0 <= k < i ==> counts[k].0 != prefs[n]
      {
        i := i + 1;
      }
      if i < |counts| {
        TallyBump(counts, prefs[..n], i);
        counts := counts[i := (counts[i].0, counts[i].1 + 1)];
      } else {
        TallyPush(counts, prefs[..n], prefs[n]);
        counts := counts + [(prefs[n], 1)];
      }
    }
    assert prefs[..|prefs|] == prefs;
  }

  method MostFrequent(counts: seq<(int, nat)>, ghost prefs: seq<int>) returns (w: int)
    requires Tally(counts, prefs)
    ensures w == Winner(prefs)
  {
    hide Firsts;
    var max := 0;
    for i := 0 to |counts|
      invariant forall k :: 0 <= k < i ==> counts[k].1 <= max
      invariant max == 0 || exists k :: 0 <= k < i && counts[k].1 == max
    {
      if counts[i].1 > max {
        max := counts[i].1;
      }
    }
    for i := 0 to |counts|
      invariant forall k :: 0 <= k < i ==> counts[k].1 != max
    {
      if counts[i].1 == max {
        LeaderAt(Firsts(prefs), multiset(prefs), i);
        return counts[i].0;
      }
    }
    return AUTO;
  }

  lemma {:induction false} LeaderAt(values: seq<int>, counts: multiset<int>, i: nat)
    requires i < |values|
    requires forall k :: 0 <= k < i ==> counts[values[k]] < counts[values[i]]
    requires forall k :: i <= k < |values| ==> counts[values[k]] <= counts[values[i]]
    ensures Leader(values, counts) == values[i]
    decreases |values|
  {
    if i > 0 {
      LeaderAt(values[1..], counts, i - 1);
    }
  }

  method Auto(u: Usable, host: Host) returns (autoCodec: Format)
    ensures autoCodec == AutoCodec(u, host)
  {
    autoCodec := if u.av1 && host.av1Test then AV1 else VP9;
    if u.h264 {
      autoCodec := H264;
    }
    if u.h265 {
      autoCodec := H265;
    }
    if autoCodec == VP9 || autoCodec == AV1 {
      if u.vp8 && host.memory <= LOW_MEMORY {
        autoCodec := VP8;
      }
    }
  }

  class Encoder {
    var decodings: Peers
    var format: Format
    var usable: Option<Usable>

    constructor ()
      ensures Value() == INITIAL
    {
      decodings, format, usable := map[], VP9, None;
    }

    function Value(): State
      reads this
    {
      State(decodings, format, usable)
    }

    /** What the first half of the update does: the peers change, and with them what can be encoded for all. */
    method Admit(event: Event, host: Host)
      requires !event.Failed?
      modifies this`decodings, this`usable
      ensures decodings == Connected(old(decodings), event)
      ensures usable == Some(UsableBy(decodings, host))
    {
      match event {
        case Update(id, decoding) => decodings := decodings[id := decoding];
        case Remove(id) => decodings := decodings - {id};
        case NewOnlyVP9(id) => decodings := decodings[id := ONLY_VP9];
        case Check =>
      }
      var vp8Useable := AllDecode(decodings, VP8);
      var av1Useable := AllDecode(decodings, AV1) && !host.av1Disabled;
      var h264Useable := AllDecode(decodings, H264) && (host.vram264 || host.hw264);
      var h265Useable := AllDecode(decodings, H265) && (host.vram265 || host.hw265);
      usable := Some(Usable(vp8Useable, av1Useable, h264Useable, h265Useable));
    }

    /** What the second half does with the preference that got most votes. */
    method Settle(preference: int, host: Host)
      requires usable.Some?
      modifies this`format
      ensures format == Choice(preference, decodings, usable.value, host)
    {
      hide AutoCodec;
      var h264Encoding := AllDecode(decodings, H264) && (host.vram264 || host.hw264);
      var h265Encoding := AllDecode(decodings, H265) && (host.vram265 || host.hw265);
      var autoCodec := Auto(usable.value, host);
      if preference == PREFER_VP8 {
        format := VP8;
      } else if preference == PREFER_VP9 {
        format := VP9;
      } else if preference == PREFER_AV1 {
        format := AV1;
      } else if preference == PREFER_H264 && h264Encoding {
        format := H264;
      } else if preference == PREFER_H265 && h265Encoding {
        format := H265;
      } else {
        format := autoCodec;
      }
    }

    method Update(step: Step)
      requires !step.event.Failed? && Possible(Value(), step)
      modifies this
      ensures Value() == Next(old(Value()), step)
    {
      hide Preferences, Winner, Choice, UsableBy, Connected, IsOrder, Known;
      Admit(step.event, step.host);
      OrderVisits(step.order, decodings);
      var preferences := Preferences(step.order, decodings, usable.value);
      var counts := CountVotes(preferences);
      var preference := MostFrequent(counts, preferences);
      Settle(preference, step.host);
    }
  }
}
