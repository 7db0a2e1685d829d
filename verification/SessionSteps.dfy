/**
  What one evolution of a session does, state by state and field by field, and how sessions come to be established.
 */
module SessionSteps {
  import opened Bytes
  import opened Session
  import N = Negotiation
  import O = OpenMessage

  // ---------------------------------------------------------------- the next state

  /** The last sign of the peer, after the packet of this step. */
  function Heard(s: Fields, pkt: Packet, w: World): int {
    if pkt.NoPacket? then s.lastRecv else w.now
  }

  /** The hold timer is on and has run out. */
  predicate Expired(s: Fields, pkt: Packet, w: World) {
    s.settings.localKeepAlive && Heard(s, pkt, w) + s.settings.localHold < w.now
  }

  /** The packet ends the session: a NOTIFICATION, or an OPEN that the handler refuses. */
  predicate Ends(pkt: Packet, w: World) {
    pkt.NotificationPacket? || (pkt.OpenPacket? && !w.accepts)
  }

  /** An OPEN of the peer has come, with this packet at the latest. */
  predicate Opened(s: Fields, pkt: Packet) {
    s.openReceived || pkt.OpenPacket?
  }

  /** The neighbor may send its OPEN: an active one at once, a passive one after an OPEN of the peer. */
  predicate MayOpen(s: Fields, pkt: Packet) {
    s.settings.passive ==> Opened(s, pkt)
  }

  function After(s: Fields, pkt: Packet, w: World): Fields
    requires Negotiated(s, pkt).Some?
  {
    Evolve(s, pkt, w).value
  }

  /** The state after the packet, and what was sent, is not touched by the view of the peer. */
  lemma AfterPacket(s: Fields, pkt: Packet, peer: N.Peer, w: World)
    ensures var t := OnPacket(s, pkt, peer, w);
      && t.settings == s.settings && t.lastRecv == Heard(s, pkt, w) && t.lastSent == s.lastSent && t.out == s.out
      && t.curState == (if Ends(pkt, w) then Idle
                        else if s.curState == OpenConfirm && pkt.KeepAlivePacket? then Established else s.curState)
      && t.openReceived == (!Ends(pkt, w) && Opened(s, pkt)) && t.connected == (!Ends(pkt, w) && s.connected)
      && t.drops == s.drops + (if Ends(pkt, w) then 1 else 0)
  {
  }

  lemma Steps(s: Fields, pkt: Packet, w: World)
    requires Negotiated(s, pkt).Some?
    ensures var t := OnPacket(s, pkt, Negotiated(s, pkt).value, w); var u := OnState(t, w);
      After(s, pkt, w) == if HoldExpired(u, w.now) then Drop(u) else u
  {
  }

  /** Where the second `switch` leads. */
  lemma AfterState(s: Fields, w: World)
    ensures var t := OnState(s, w);
      && t.settings == s.settings && t.lastRecv == s.lastRecv && t.openReceived == s.openReceived && t.drops == s.drops
      && t.curState ==
           match s.curState
           case Idle => if !s.settings.passive && w.connects then Active else Idle
           case Connect => Connect
           case Active => if !s.settings.passive || s.openReceived then OpenSent else Active
           case OpenSent => if s.openReceived then OpenConfirm else OpenSent
           case OpenConfirm => OpenConfirm
           case Established => Established
  {
    hide LocalOpen;
  }

  /**
    A session is established by a KEEPALIVE in OPENCONFIRM, stays established until a packet ends it or the hold time
    runs out, and is established in no other way.
   */
  lemma EstablishedIff(s: Fields, pkt: Packet, w: World)
    requires Negotiated(s, pkt).Some?
    ensures After(s, pkt, w).curState == Established
      <==> !Expired(s, pkt, w) && !Ends(pkt, w)
           && (s.curState == Established || (s.curState == OpenConfirm && pkt.KeepAlivePacket?))
  {
    hide OnPacket, OnState, Negotiated;
    AfterPacket(s, pkt, Negotiated(s, pkt).value, w);
    AfterState(OnPacket(s, pkt, Negotiated(s, pkt).value, w), w);
    Steps(s, pkt, w);
  }

  lemma OpenConfirmIff(s: Fields, pkt: Packet, w: World)
    requires Negotiated(s, pkt).Some?
    ensures After(s, pkt, w).curState == OpenConfirm
      <==> !Expired(s, pkt, w) && !Ends(pkt, w)
           && ((s.curState == OpenConfirm && !pkt.KeepAlivePacket?) || (s.curState == OpenSent && Opened(s, pkt)))
  {
    hide OnPacket, OnState, Negotiated;
    AfterPacket(s, pkt, Negotiated(s, pkt).value, w);
    AfterState(OnPacket(s, pkt, Negotiated(s, pkt).value, w), w);
    Steps(s, pkt, w);
  }

  lemma OpenSentIff(s: Fields, pkt: Packet, w: World)
    requires Negotiated(s, pkt).Some?
    ensures After(s, pkt, w).curState == OpenSent
      <==> !Expired(s, pkt, w) && !Ends(pkt, w)
           && ((s.curState == OpenSent && !Opened(s, pkt)) || (s.curState == Active && MayOpen(s, pkt)))
  {
    hide OnPacket, OnState, Negotiated;
    AfterPacket(s, pkt, Negotiated(s, pkt).value, w);
    AfterState(OnPacket(s, pkt, Negotiated(s, pkt).value, w), w);
    Steps(s, pkt, w);
  }

  /** ACTIVE is a passive neighbor waiting for an OPEN, or an active one that has just connected, also in the step of a disconnect. */
  lemma ActiveIff(s: Fields, pkt: Packet, w: World)
    requires Negotiated(s, pkt).Some?
    ensures After(s, pkt, w).curState == Active
      <==> (s.curState == Active && !Ends(pkt, w) && !MayOpen(s, pkt))
           || ((s.curState == Idle || Ends(pkt, w)) && !s.settings.passive && w.connects)
  {
    hide OnPacket, OnState, Negotiated;
    AfterPacket(s, pkt, Negotiated(s, pkt).value, w);
    AfterState(OnPacket(s, pkt, Negotiated(s, pkt).value, w), w);
    Steps(s, pkt, w);
  }

  /** IDLE is where a packet or the hold timer ended the session, or where a connection could not be made. (No run is in CONNECT.) */
  lemma IdleIff(s: Fields, pkt: Packet, w: World)
    requires Negotiated(s, pkt).Some? && s.curState != Connect
    ensures After(s, pkt, w).curState == Idle
      <==> ((s.curState == Idle || Ends(pkt, w)) && (s.settings.passive || !w.connects))
           || (s.curState != Idle && !Ends(pkt, w) && Expired(s, pkt, w) && (s.curState == Active ==> MayOpen(s, pkt)))
  {
    hide OnPacket, OnState, Negotiated;
    AfterPacket(s, pkt, Negotiated(s, pkt).value, w);
    AfterState(OnPacket(s, pkt, Negotiated(s, pkt).value, w), w);
    Steps(s, pkt, w);
  }

  // ---------------------------------------------------------------- the other fields

  /** The step disconnects: by its packet, or because the hold time ran out past ACTIVE. */
  predicate Disconnecting(s: Fields, pkt: Packet, w: World) {
    Ends(pkt, w) || (Expired(s, pkt, w) && s.curState != Idle && (s.curState == Active ==> MayOpen(s, pkt)))
  }

  /** What a disconnect leaves: no OPEN, no history, no connection unless one was made again in the same step. */
  lemma DisconnectedFields(s: Fields, pkt: Packet, w: World)
    requires Negotiated(s, pkt).Some? && s.curState != Connect
    ensures var r := After(s, pkt, w);
      && (Disconnecting(s, pkt, w) <==> r.drops == s.drops + 1) && (!Disconnecting(s, pkt, w) <==> r.drops == s.drops)
      && r.openReceived == (!Disconnecting(s, pkt, w) && Opened(s, pkt))
      && (Disconnecting(s, pkt, w) ==> r.since == [] && r.connected == (r.curState == Active))
      && (!Disconnecting(s, pkt, w) ==> r.connected == (s.connected || (s.curState == Idle && r.curState == Active)))
  {
    hide OnPacket, Negotiated, LocalOpen;
    AfterPacket(s, pkt, Negotiated(s, pkt).value, w);
    if Ends(pkt, w) {
      EndedHistory(s, pkt, Negotiated(s, pkt).value, w);
    }
    AfterState(OnPacket(s, pkt, Negotiated(s, pkt).value, w), w);
    Steps(s, pkt, w);
  }

  lemma EndedHistory(s: Fields, pkt: Packet, peer: N.Peer, w: World)
    requires Ends(pkt, w)
    ensures OnPacket(s, pkt, peer, w).since == []
  {
  }

  /** A bare disconnect touches nothing else: not the queue, not the timers, not what is known about the peer. */
  lemma DisconnectKeepsRest(s: Fields)
    ensures var r := Take(s, Disconnects).value;
      && r.curState == Idle && !r.openReceived && !r.connected && r.since == [] && r.drops == s.drops + 1
      && r.settings == s.settings && r.config == s.config && r.peer == s.peer && r.out == s.out
      && r.lastSent == s.lastSent && r.lastRecv == s.lastRecv && r.peerKeepAlive == s.peerKeepAlive && r.peerHold == s.peerHold
  {
  }

  /** The peer's hold time is the last one other than 0 that an OPEN announced; the receive time is the last sign of the peer. */
  lemma TimerFields(s: Fields, pkt: Packet, w: World)
    requires Negotiated(s, pkt).Some?
    ensures var r := After(s, pkt, w); var announced := pkt.OpenPacket? && pkt.open.holdTime != 0;
      && r.lastRecv == Heard(s, pkt, w)
      && r.peerHold == (if announced then pkt.open.holdTime * 1_000_000_000 else s.peerHold)
      && r.peerKeepAlive == (announced || s.peerKeepAlive)
  {
    hide OnPacket, OnState, Negotiated;
    var t := OnPacket(s, pkt, Negotiated(s, pkt).value, w);
    AfterPacket(s, pkt, Negotiated(s, pkt).value, w);
    HoldAfterPacket(s, pkt, Negotiated(s, pkt).value, w);
    AfterState(t, w);
    StateKeepsHold(t, w);
    Steps(s, pkt, w);
  }

  lemma StateKeepsHold(s: Fields, w: World)
    ensures var t := OnState(s, w); t.peerHold == s.peerHold && t.peerKeepAlive == s.peerKeepAlive
  {
    hide LocalOpen;
  }

  /**
    What a step enqueues: the OPEN and a KEEPALIVE when it may open in ACTIVE; a KEEPALIVE past OPENSENT when the interval
    has passed, which also sets the time of the last one; nothing else, and nothing after a packet that ends the session.
   */
  lemma QueueFields(s: Fields, pkt: Packet, w: World)
    requires Negotiated(s, pkt).Some?
    ensures var r := After(s, pkt, w);
      var opening := s.curState == Active && !Ends(pkt, w) && MayOpen(s, pkt);
      var alive := (s.curState == OpenConfirm || s.curState == Established) && !Ends(pkt, w)
        && r.peerKeepAlive && s.lastSent + r.peerHold / 1_000_000_000 / 3 < w.now;
      && (opening ==> |r.out| == |s.out| + 2 && r.out[..|s.out|] == s.out && r.out[|s.out|].OpenMessage? && r.out[|s.out| + 1] == KeepAliveMessage)
      && (alive ==> r.out == s.out + [KeepAliveMessage])
      && (!opening && !alive ==> r.out == s.out)
      && r.lastSent == if alive then w.now else s.lastSent
  {
    hide OnPacket, OnState, Negotiated;
    AfterPacket(s, pkt, Negotiated(s, pkt).value, w);
    HoldAfterPacket(s, pkt, Negotiated(s, pkt).value, w);
    TimerFields(s, pkt, w);
    Steps(s, pkt, w);
    StateQueue(OnPacket(s, pkt, Negotiated(s, pkt).value, w), w);
  }

  lemma StateQueue(s: Fields, w: World)
    ensures var r := OnState(s, w);
      var opening := s.curState == Active && (s.settings.passive ==> s.openReceived);
      var alive := (s.curState == OpenConfirm || s.curState == Established)
        && s.peerKeepAlive && s.lastSent + s.peerHold / 1_000_000_000 / 3 < w.now;
      && (opening ==> |r.out| == |s.out| + 2 && r.out[..|s.out|] == s.out && r.out[|s.out|].OpenMessage? && r.out[|s.out| + 1] == KeepAliveMessage)
      && (alive ==> r.out == s.out + [KeepAliveMessage])
      && (!opening && !alive ==> r.out == s.out)
      && r.lastSent == if alive then w.now else s.lastSent
  {
    hide LocalOpen;
  }

  lemma HoldAfterPacket(s: Fields, pkt: Packet, peer: N.Peer, w: World)
    ensures var t := OnPacket(s, pkt, peer, w); var announced := pkt.OpenPacket? && pkt.open.holdTime != 0;
      && t.peerHold == (if announced then pkt.open.holdTime * 1_000_000_000 else s.peerHold)
      && t.peerKeepAlive == (announced || s.peerKeepAlive)
  {
  }

  /** What a step that does not disconnect adds to the history: the packet, then what was enqueued or the move to OPENCONFIRM. */
  function News(pkt: Packet, s: Fields, r: Fields): seq<Event> {
    (if pkt.OpenPacket? then [PeerOpen] else if pkt.KeepAlivePacket? then [PeerKeepAlive] else [])
    + (if |r.out| == |s.out| + 2 then [SentOpen, SentKeepAlive]
       else if |r.out| == |s.out| + 1 then [SentKeepAlive]
       else if s.curState == OpenSent && r.curState == OpenConfirm then [EnteredConfirm] else [])
  }

  lemma HistoryIsFaithful(s: Fields, pkt: Packet, w: World)
    requires Negotiated(s, pkt).Some? && After(s, pkt, w).drops == s.drops
    ensures After(s, pkt, w).since == s.since + News(pkt, s, After(s, pkt, w))
  {
    hide OnPacket, OnState, Negotiated;
    var t := OnPacket(s, pkt, Negotiated(s, pkt).value, w);
    AfterPacket(s, pkt, Negotiated(s, pkt).value, w);
    AfterState(t, w);
    Steps(s, pkt, w);
    assert After(s, pkt, w) == OnState(t, w) && !Ends(pkt, w);
    NotedPacket(s, pkt, Negotiated(s, pkt).value, w);
    NotedState(t, w);
    Assoc(s.since, News(pkt, s, s), News(NoPacket, t, OnState(t, w)));
    NewsInOrder(pkt, s, t, OnState(t, w));
  }

  lemma NewsInOrder(pkt: Packet, s: Fields, t: Fields, r: Fields)
    requires t.out == s.out && (t.curState == OpenSent <==> s.curState == OpenSent)
    ensures News(pkt, s, s) + News(NoPacket, t, r) == News(pkt, s, r)
  {
  }

  lemma NotedPacket(s: Fields, pkt: Packet, peer: N.Peer, w: World)
    requires !Ends(pkt, w)
    ensures OnPacket(s, pkt, peer, w).since == s.since + News(pkt, s, s)
  {
    assert s.since + [] == s.since;
  }

  lemma NotedState(s: Fields, w: World)
    ensures OnState(s, w).since == s.since + News(NoPacket, s, OnState(s, w))
  {
    hide LocalOpen;
    assert s.since + [] == s.since;
    assert s.since + [SentOpen] + [SentKeepAlive] == s.since + [SentOpen, SentKeepAlive];
  }

  // ---------------------------------------------------------------- how sessions come to be

  /**
    From ACTIVE with an OPEN processed, any run with two evolutions and then one that takes a KEEPALIVE, without a
    disconnect, ends in ESTABLISHED, whatever else happens on the way.
   */
  lemma KeepAliveEstablishes(s: Fields, steps: seq<Step>, w: World)
    requires s.curState == Active && s.openReceived && Evolutions(steps) >= 2
    requires Run(s, steps + [Evolves(KeepAlivePacket, w)]).Some?
    requires Run(s, steps + [Evolves(KeepAlivePacket, w)]).value.drops == s.drops
    ensures Run(s, steps + [Evolves(KeepAlivePacket, w)]).value.curState == Established
  {
    hide EvolveWith;
    var all := steps + [Evolves(KeepAlivePacket, w)];
    assert all[..|all| - 1] == steps && all[|all| - 1] == Evolves(KeepAlivePacket, w);
    var t := Run(s, steps).value;
    RankNeverFallsInRun(s, steps);
    RankNeverFalls(t, Evolves(KeepAlivePacket, w));
    TwoEvolutionsConfirm(s, steps);
    KeepAliveNotEnding(t, w);
  }

  lemma KeepAliveNotEnding(t: Fields, w: World)
    requires (t.curState == OpenConfirm || t.curState == Established) && Evolve(t, KeepAlivePacket, w).value.drops == t.drops
    ensures Evolve(t, KeepAlivePacket, w).value.curState == Established
  {
    EstablishedIff(t, KeepAlivePacket, w);
    DisconnectedFields(t, KeepAlivePacket, w);
  }

  /**
    Sessions are established: an active neighbor without a hold timer that connects, takes an OPEN which does not fault and
    is accepted, evolves once more and takes a KEEPALIVE, is in ESTABLISHED.
   */
  lemma HandshakeEstablishes(s: Fields, open: O.Open, w: World, w1: World, w2: World, w3: World)
    requires s.curState == Idle && !s.settings.passive && !s.settings.localKeepAlive && w.connects && w1.accepts
    requires N.ApplyOpen(Replicated(s), s.peer, open).Some?
    ensures var r := Run(s, [Evolves(NoPacket, w), Evolves(OpenPacket(open), w1), Evolves(NoPacket, w2), Evolves(KeepAlivePacket, w3)]);
      r.Some? && r.value.curState == Established
  {
    hide EvolveWith, Run, N.ApplyOpen;
    var a := After(s, NoPacket, w);
    ActiveIff(s, NoPacket, w);
    Connecting(s, w);
    var b := After(a, OpenPacket(open), w1);
    OpenSentIff(a, OpenPacket(open), w1);
    DisconnectedFields(a, OpenPacket(open), w1);
    SettingsKept(a, OpenPacket(open), w1);
    var c := After(b, NoPacket, w2);
    OpenConfirmIff(b, NoPacket, w2);
    SettingsKept(b, NoPacket, w2);
    EstablishedIff(c, KeepAlivePacket, w3);
    var (e0, e1, e2, e3) := (Evolves(NoPacket, w), Evolves(OpenPacket(open), w1), Evolves(NoPacket, w2), Evolves(KeepAlivePacket, w3));
    assert [] + [e0] == [e0] && [e0] + [e1] == [e0, e1] && [e0, e1] + [e2] == [e0, e1, e2] && [e0, e1, e2] + [e3] == [e0, e1, e2, e3];
    OneMore(s, [], e0);
    OneMore(s, [e0], e1);
    OneMore(s, [e0, e1], e2);
    OneMore(s, [e0, e1, e2], e3);
  }

  /** So does a neighbor just made without a hold time, with any list of families and add-path modes it can negotiate. */
  lemma NewNeighborEstablishes(config: N.Config, holdtime: int, open: O.Open, w: World, w1: World, w2: World, w3: World)
    requires holdtime < 3 && w.connects && w1.accepts && N.ApplyOpen(config, N.NEW_PEER, open).Some?
    ensures var s := Initial(config, false, false, holdtime);
      var r := Run(s, [Evolves(NoPacket, w), Evolves(OpenPacket(open), w1), Evolves(NoPacket, w2), Evolves(KeepAlivePacket, w3)]);
      r.Some? && r.value.curState == Established
  {
    hide Run, N.ApplyOpen;
    HandshakeEstablishes(Initial(config, false, false, holdtime), open, w, w1, w2, w3);
  }

  /**
    A new active neighbor that has a hold time, of up to 65535 seconds, starts from a last sign of the peer in the year 1:
    at any time since 1970 it drops each session it opens at once, until it has heard something.
   */
  lemma NewNeighborDropsOpens(config: N.Config, replicateAsn: bool, holdtime: int, steps: seq<Step>)
    requires 3 <= holdtime <= 0xffff && Unheard(steps) && forall step | step in steps && step.Evolves? :: 0 <= step.w.now
    requires Run(Initial(config, false, replicateAsn, holdtime), steps).Some?
    ensures var s := Run(Initial(config, false, replicateAsn, holdtime), steps).value.curState; s == Idle || s == Active
  {
    hide Run;
    FirstOpenIsDropped(Initial(config, false, replicateAsn, holdtime), steps);
  }

  lemma OneMore(s: Fields, steps: seq<Step>, step: Step)
    requires steps == [] || Run(s, steps).Some?
    ensures Run(s, []) == Some(s) && Run(s, steps + [step]) == Take(Run(s, steps).value, step)
  {
    hide Evolve;
    assert (steps + [step])[..|steps|] == steps && Run(s, []) == Some(s);
  }

  lemma SettingsKept(s: Fields, pkt: Packet, w: World)
    requires Negotiated(s, pkt).Some?
    ensures After(s, pkt, w).settings == s.settings
  {
    hide OnPacket, OnState, Negotiated;
    Steps(s, pkt, w);
  }

  lemma Connecting(s: Fields, w: World)
    requires s.curState == Idle
    ensures var r := After(s, NoPacket, w);
      r.settings == s.settings && r.config == s.config && r.peer == s.peer && r.openReceived == s.openReceived
  {
    hide LocalOpen;
  }

  /** Anything received, an UPDATE included, keeps a session for the hold time from then on, and changes nothing else. */
  lemma ReceptionKeepsSession(s: Fields, now: int, w: World)
    requires s.curState == Established
    ensures var r := Run(s, [Received(now), Evolves(NoPacket, w)]);
      && r.Some? && (r.value.curState == Established <==> !s.settings.localKeepAlive || w.now <= now + s.settings.localHold)
      && r.value.peer == s.peer && r.value.config == s.config
  {
    hide Evolve, Run, Negotiated;
    var t := Take(s, Received(now)).value;
    assert [] + [Received(now)] == [Received(now)] && [Received(now)] + [Evolves(NoPacket, w)] == [Received(now), Evolves(NoPacket, w)];
    OneMore(s, [], Received(now));
    OneMore(s, [Received(now)], Evolves(NoPacket, w));
    SilentStep(t, w);
  }

  lemma SilentStep(s: Fields, w: World)
    requires s.curState == Established
    ensures var r := Evolve(s, NoPacket, w);
      && r.Some? && r.value.peer == s.peer && r.value.config == s.config
      && (r.value.curState == Established <==> !s.settings.localKeepAlive || w.now <= s.lastRecv + s.settings.localHold)
  {
    EstablishedIff(s, NoPacket, w);
    EvolveKeepsPeer(s, NoPacket, w);
  }

  // ---------------------------------------------------------------- the hold time announced

  /** A hold time of 3 to 65535 seconds is announced as it is; under 3 seconds none is, and longer ones wrap. */
  lemma AnnouncedHold(s: Fields, passive: bool, replicateAsn: bool, holdtime: int)
    requires s.settings == MakeSettings(passive, replicateAsn, holdtime)
    ensures LocalOpen(s).holdTime == if holdtime < 3 then 0 else holdtime % 0x1_0000
    ensures 3 <= holdtime <= 0xffff ==> LocalOpen(s).holdTime == holdtime
  {
  }

  /** What a neighbor announces, written, sent and read, is what its peer holds it to, in seconds. */
  lemma HoldTimeCrosses(s: Fields, passive: bool, replicateAsn: bool, holdtime: int, t: Fields, w: World)
    requires s.settings == MakeSettings(passive, replicateAsn, holdtime) && 3 <= holdtime <= 0xffff && N.Sound(s.config)
    requires Negotiated(t, OpenPacket(LocalOpen(s))).Some?
    ensures O.ParseOpen(O.EncodeBody(LocalOpen(s))) == Ok(LocalOpen(s))
    ensures var r := After(t, OpenPacket(LocalOpen(s)), w);
      r.peerKeepAlive && r.peerHold == holdtime * 1_000_000_000
  {
    hide O.ParseOpen, O.EncodeBody, Negotiated, EvolveWith;
    AnnouncedHold(s, passive, replicateAsn, holdtime);
    N.ExchangeIsApply(s.config, t.peer, s.config, holdtime);
    TimerFields(t, OpenPacket(LocalOpen(s)), w);
  }
}
