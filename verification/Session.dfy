/**
  The session state machine: `EvolveState`, `Disconnect` and `UpdateFromOpen` of a `Neighbor`, as a class, and as a
  function of its fields over which every run is studied (section 8 of RFC 4271).
 */
module Session {
  import opened Bytes
  import O = OpenMessage
  import N = Negotiation
  import Nlri

  datatype State = Idle | Connect | Active | OpenSent | OpenConfirm | Established

  /** A packet taken from the `update` channel, or nil when the one-second timer fires. */
  datatype Packet = OpenPacket(open: O.Open) | KeepAlivePacket | NotificationPacket | NoPacket

  /** What `EvolveState` puts on the outgoing queue. */
  datatype Message = OpenMessage(open: O.Open) | KeepAliveMessage

  /** History since the last `Disconnect`. */
  datatype Event = SentOpen | SentKeepAlive | PeerOpen | PeerKeepAlive | EnteredConfirm

  /** Times are in nanoseconds, as `time.Duration` counts; this is the zero `time.Time`. */
  const SECOND: int := 1_000_000_000
  const ZERO_TIME: int := -62135596800 * SECOND

  /** What is set when a neighbor is made and never changed. */
  datatype Settings = Settings(passive: bool, replicateAsn: bool, localKeepAlive: bool, localHold: int)

  /** The fields of a neighbor that its methods read or change, and the history. */
  datatype Fields = Fields(
    settings: Settings, curState: State, openReceived: bool, connected: bool, lastSent: int, lastRecv: int,
    peerKeepAlive: bool, peerHold: int, config: N.Config, peer: N.Peer, out: seq<Message>,
    since: seq<Event>, drops: nat)

  /** What the surroundings answer in one step: the time, whether a connection succeeds, whether the handler accepts the peer. */
  datatype World = World(now: int, connects: bool, accepts: bool)

  // ---------------------------------------------------------------- the machine as a function

  function Rank(s: State): nat {
    match s
    case Idle => 0
    case Connect => 1
    case Active => 2
    case OpenSent => 3
    case OpenConfirm => 4
    case Established => 5
  }

  /** The state does not go back, and an OPEN that came is not forgotten. */
  predicate Climbs(s: Fields, t: Fields) {
    Rank(t.curState) >= Rank(s.curState) && (s.openReceived ==> t.openReceived)
  }

  function Drop(s: Fields): Fields {
    s.(connected := false, openReceived := false, curState := Idle, since := [], drops := s.drops + 1)
  }

  function Note(s: Fields, e: Event): Fields {
    s.(since := s.since + [e])
  }

  /** The ASN a neighbor with `ReplicateASN` copies is the one from before this OPEN. */
  function Replicated(s: Fields): N.Config {
    if s.settings.replicateAsn then s.config.(asn := s.peer.asn) else s.config
  }

  /** What an OPEN makes known about the peer; `None` is the index fault of `CompareAddPath`. */
  function Negotiated(s: Fields, pkt: Packet): Option<N.Peer> {
    if pkt.OpenPacket? then N.ApplyOpen(Replicated(s), s.peer, pkt.open) else Some(s.peer)
  }

  function OnOpen(s: Fields, holdTime: u16, peer: N.Peer, accepts: bool): Fields {
    var s1 := if holdTime != 0 then s.(peerHold := holdTime * SECOND, peerKeepAlive := true) else s;
    var s2 := Note(s1.(config := Replicated(s), peer := peer, openReceived := true), PeerOpen);
    if accepts then s2 else Drop(s2)
  }

  /** The first `switch` of `EvolveState`, given what the OPEN made known. */
  function OnPacket(s: Fields, pkt: Packet, peer: N.Peer, w: World): (t: Fields)
    ensures t.settings == s.settings && t.drops >= s.drops
    ensures t.drops == s.drops ==> Climbs(s, t)
  {
    match pkt
    case OpenPacket(open) => OnOpen(s, open.holdTime, peer, w.accepts).(lastRecv := w.now)
    case KeepAlivePacket =>
      var t := Note(s, PeerKeepAlive).(lastRecv := w.now);
      if s.curState == OpenConfirm then t.(curState := Established) else t
    case NotificationPacket => Drop(s).(lastRecv := w.now)
    case NoPacket => s
  }

  function LocalOpen(s: Fields): O.Open {
    N.Announce(s.config, if s.settings.localKeepAlive then s.settings.localHold / SECOND % 0x1_0000 else 0)
  }

  function SendOpenPair(s: Fields): Fields {
    Note(Note(s, SentOpen), SentKeepAlive).(out := s.out + [OpenMessage(LocalOpen(s)), KeepAliveMessage], curState := OpenSent)
  }

  /** The hold time is divided down to seconds and by three, but the quotient is used as nanoseconds. */
  predicate KeepAliveDue(s: Fields, now: int) {
    s.peerKeepAlive && s.lastSent + s.peerHold / SECOND / 3 < now
  }

  function SendKeepAlive(s: Fields, now: int): Fields {
    if KeepAliveDue(s, now) then Note(s, SentKeepAlive).(out := s.out + [KeepAliveMessage], lastSent := now) else s
  }

  /** The second `switch`. */
  function OnState(s: Fields, w: World): (t: Fields)
    ensures t.settings == s.settings && t.drops == s.drops && Climbs(s, t)
    ensures s.openReceived && (s.curState == Active || s.curState == OpenSent) ==> Rank(t.curState) > Rank(s.curState)
  {
    match s.curState
    case Idle => if !s.settings.passive && w.connects then s.(connected := true, curState := Active) else s
    case Connect => s
    case Active => if !s.settings.passive || s.openReceived then SendOpenPair(s) else s
    case OpenSent => if s.openReceived then Note(s, EnteredConfirm).(curState := OpenConfirm) else s
    case OpenConfirm => SendKeepAlive(s, w.now)
    case Established => SendKeepAlive(s, w.now)
  }

  predicate PastActive(s: State) {
    s != Idle && s != Active
  }

  predicate HoldExpired(s: Fields, now: int) {
    PastActive(s.curState) && s.settings.localKeepAlive && s.lastRecv + s.settings.localHold < now
  }

  function EvolveWith(s: Fields, pkt: Packet, peer: N.Peer, w: World): (t: Fields)
    ensures t.settings == s.settings && t.drops >= s.drops
    ensures t.drops == s.drops ==> Climbs(s, t)
    ensures t.drops == s.drops && s.openReceived && (s.curState == Active || s.curState == OpenSent) ==>
      Rank(t.curState) > Rank(s.curState)
    ensures PastActive(t.curState) && t.settings.localKeepAlive ==> w.now <= t.lastRecv + t.settings.localHold
  {
    var t := OnState(OnPacket(s, pkt, peer, w), w);
    if HoldExpired(t, w.now) then Drop(t) else t
  }

  /** `EvolveState`; `None` is a fault. */
  function Evolve(s: Fields, pkt: Packet, w: World): Option<Fields> {
    match Negotiated(s, pkt)
    case None => None
    case Some(peer) => Some(EvolveWith(s, pkt, peer, w))
  }

  // ---------------------------------------------------------------- the neighbor

  class Neighbor {
    var curState: State
    var openReceived: bool
    var connected: bool
    const settings: Settings
    var lastSent: int
    var lastRecv: int
    var peerKeepAlive: bool
    var peerHold: int
    var config: N.Config
    var peer: N.Peer
    var out: seq<Message>
    ghost var since: seq<Event>
    ghost var drops: nat

    /** `NewNeighbor`, or `NewNeighborFromConn` for a passive one, whose connection exists already. */
    constructor (identifier: seq<byte>, asn: u32, addpath: bool, holdtime: int, routerefresh: bool, passive: bool, replicateAsn: bool)
      ensures View() == Initial(N.DefaultConfig(asn, identifier, addpath, routerefresh), passive, replicateAsn, holdtime)
      ensures curState == (if passive then Active else Idle) && connected == passive && !openReceived && out == [] && !peerKeepAlive
      ensures lastSent == lastRecv == -62135596800_000_000_000
      ensures settings.localKeepAlive == (holdtime >= 3) && settings.localHold == (if holdtime >= 3 then holdtime * 1_000_000_000 else 0)
    {
      this.curState := if passive then Active else Idle;
      this.openReceived := false;
      this.connected := passive;
      this.settings := MakeSettings(passive, replicateAsn, holdtime);
      this.lastSent := ZERO_TIME;
      this.lastRecv := ZERO_TIME;
      this.peerKeepAlive := false;
      this.peerHold := 0;
      var addPaths: seq<O.AddPath> := [];
      if addpath {
        addPaths := [O.AddPath(Nlri.AFI_IPV4, Nlri.SAFI_UNICAST, 3), O.AddPath(Nlri.AFI_IPV6, Nlri.SAFI_UNICAST, 3)];
      }
      var mp := [Nlri.AfiSafi(Nlri.AFI_IPV4, Nlri.SAFI_UNICAST), Nlri.AfiSafi(Nlri.AFI_IPV6, Nlri.SAFI_UNICAST)];
      this.config := N.Config(asn, identifier, mp, addPaths, routerefresh);
      this.peer := N.NEW_PEER;
      this.out := [];
      this.since := [];
      this.drops := 0;
    }

    ghost function View(): Fields
      reads this
    {
      Fields(settings, curState, openReceived, connected, lastSent, lastRecv,
             peerKeepAlive, peerHold, config, peer, out, since, drops)
    }

    method Disconnect()
      modifies this
      ensures View() == Drop(old(View()))
    {
      connected := false;
      openReceived := false;
      curState := Idle;
      since := [];
      drops := drops + 1;
    }

    /** Returns false where the comparison of add-path lists faults. */
    method ApplyCapabilities(l: seq<O.Capability>) returns (ok: bool)
      modifies `peer
      ensures N.ApplyCapabilities(config, old(peer), l) == if ok then Some(peer) else None
    {
      for c := 0 to |l|
        invariant N.ApplyCapabilities(config, old(peer), l) == N.ApplyCapabilities(config, peer, l[c..])
      {
        assert l[c..][1..] == l[c + 1..];
        match l[c] {
          case MP(afi, safi) => peer := peer.(mp := config.mp + [Nlri.AfiSafi(afi, safi)]);
          case AddPaths(list) =>
            var r := N.CompareAddPath(config.addPaths, list);
            if r.None? {
              return false;
            }
            peer := peer.(addPaths := list, send := r.value.0, decode := r.value.1);
          case ASN(asn) => peer := peer.(asn := asn, twoBytes := false);
          case RouteRefresh => peer := peer.(routeRefresh := true);
          case Other(_, _) =>
        }
      }
      return true;
    }

    method UpdateFromOpen(pkt: O.Open) returns (ok: bool)
      modifies `peer
      ensures N.ApplyOpen(config, old(peer), pkt) == if ok then Some(peer) else None
    {
      peer := peer.(asn := pkt.asn, identifier := pkt.identifier, twoBytes := true);
      for i := 0 to |pkt.parameters|
        invariant N.ApplyOpen(config, old(peer), pkt) == N.ApplyParameters(config, peer, pkt.parameters[i..])
      {
        assert pkt.parameters[i..][1..] == pkt.parameters[i + 1..];
        if pkt.parameters[i].ptype == O.PARAMETER_CAPA {
          if pkt.parameters[i].data.None? {
            return false;
          }
          var fine := ApplyCapabilities(pkt.parameters[i].data.value);
          if !fine {
            return false;
          }
        }
      }
      return true;
    }

    method EvolveState(pkt: Packet, now: int, connects: bool, accepts: bool) returns (ok: bool)
      modifies this
      ensures Evolve(old(View()), pkt, World(now, connects, accepts)) == if ok then Some(View()) else None
    {
      ghost var w := World(now, connects, accepts);
      ok := ReceivePacket(pkt, now, accepts, w);
      if !ok {
        return;
      }
      AdvanceState(now, connects, w);
      if curState != Idle && curState != Active && settings.localKeepAlive && lastRecv + settings.localHold < now {
        Disconnect();
      }
    }

    method ReceiveOpen(open: O.Open, accepts: bool) returns (ok: bool)
      modifies this
      ensures ok <==> N.ApplyOpen(Replicated(old(View())), old(peer), open).Some?
      ensures ok ==>
        View() == OnOpen(old(View()), open.holdTime, N.ApplyOpen(Replicated(old(View())), old(peer), open).value, accepts)
    {
      hide N.ApplyOpen;
      if open.holdTime != 0 {
        peerHold := open.holdTime * SECOND;
        peerKeepAlive := true;
      }
      if settings.replicateAsn {
        config := config.(asn := peer.asn);
      }
      ok := UpdateFromOpen(open);
      if ok {
        openReceived := true;
        since := since + [PeerOpen];
        if !accepts {
          Disconnect();
        }
      }
    }

    method ReceivePacket(pkt: Packet, now: int, accepts: bool, ghost w: World) returns (ok: bool)
      requires w.now == now && w.accepts == accepts
      modifies this
      ensures ok <==> Negotiated(old(View()), pkt).Some?
      ensures ok ==> View() == OnPacket(old(View()), pkt, Negotiated(old(View()), pkt).value, w)
    {
      match pkt {
        case OpenPacket(open) =>
          ok := ReceiveOpen(open, accepts);
          if !ok {
            return;
          }
        case KeepAlivePacket =>
          if curState == OpenConfirm {
            curState := Established;
          }
          since := since + [PeerKeepAlive];
        case NotificationPacket => Disconnect();
        case NoPacket =>
      }
      if pkt != NoPacket {
        lastRecv := now;
      }
      ok := true;
    }

    method AdvanceState(now: int, connects: bool, ghost w: World)
      requires w.now == now && w.connects == connects
      modifies this
      ensures View() == OnState(old(View()), w)
    {
      hide O.Craft;
      match curState {
        case Idle =>
          if !settings.passive && connects {
            connected := true;
            curState := Active;
          }
        case Connect =>
        case Active =>
          if !settings.passive || openReceived {
            var ht: u16 := 0;
            if settings.localKeepAlive {
              ht := settings.localHold / SECOND % 0x1_0000;
            }
            var open := O.CraftOpenMessage(config.asn, ht, To4(config.identifier), config.mp, config.addPaths, config.routeRefresh);
            out := out + [OpenMessage(open)];
            out := out + [KeepAliveMessage];
            since := since + [SentOpen];
            since := since + [SentKeepAlive];
            curState := OpenSent;
          }
        case OpenSent =>
          if openReceived {
            since := since + [EnteredConfirm];
            curState := OpenConfirm;
          }
        case OpenConfirm => KeepAlive(now);
        case Established => KeepAlive(now);
      }
    }

    method KeepAlive(now: int)
      modifies this
      ensures View() == SendKeepAlive(old(View()), now)
    {
      if peerKeepAlive && lastSent + peerHold / SECOND / 3 < now {
        out := out + [KeepAliveMessage];
        lastSent := now;
        since := since + [SentKeepAlive];
      }
    }
  }

  function MakeSettings(passive: bool, replicateAsn: bool, holdtime: int): Settings {
    Settings(passive, replicateAsn, holdtime >= 3, if holdtime >= 3 then holdtime * SECOND else 0)
  }

  function Initial(config: N.Config, passive: bool, replicateAsn: bool, holdtime: int): Fields {
    Fields(MakeSettings(passive, replicateAsn, holdtime), if passive then Active else Idle, false, passive,
           ZERO_TIME, ZERO_TIME, false, 0, config, N.NEW_PEER, [], [], 0)
  }

  // ---------------------------------------------------------------- runs

  /**
    One atomic step: the life routine evolves the state with a delivered packet or none, the receive routine notes
    that something came in, or the sender or receiver disconnects. A packet that the full channel refuses is no step.
   */
  datatype Step = Evolves(pkt: Packet, w: World) | Received(now: int) | Disconnects

  function Take(s: Fields, step: Step): Option<Fields> {
    match step
    case Evolves(pkt, w) => Evolve(s, pkt, w)
    case Received(now) => Some(s.(lastRecv := now))
    case Disconnects => Some(Drop(s))
  }

  /** A run, in which a fault ends everything. */
  function Run(s: Fields, steps: seq<Step>): Option<Fields> {
    if steps == [] then Some(s)
    else
      match Run(s, steps[..|steps| - 1])
      case None => None
      case Some(t) => Take(t, steps[|steps| - 1])
  }

  // ---------------------------------------------------------------- safety

  /** `e` happened before position `k` of the history. */
  predicate Before(since: seq<Event>, e: Event, k: nat) {
    k <= |since| && e in since[..k]
  }

  /** OPENCONFIRM was entered at position `k`, after both OPENs. */
  predicate ConfirmedAt(since: seq<Event>, k: nat) {
    k < |since| && since[k] == EnteredConfirm && Before(since, SentOpen, k) && Before(since, PeerOpen, k)
  }

  ghost predicate Confirmed(since: seq<Event>) {
    exists k: nat :: ConfirmedAt(since, k)
  }

  /** Both OPENs in either order, then OPENCONFIRM, then a KEEPALIVE of the peer. */
  ghost predicate HandshakeDone(since: seq<Event>) {
    exists k: nat, l: nat :: k < l < |since| && ConfirmedAt(since, k) && since[l] == PeerKeepAlive
  }

  function Sends(since: seq<Event>): seq<Event> {
    if since == [] then []
    else
      var last := since[|since| - 1];
      var before := Sends(since[..|since| - 1]);
      if last == SentOpen || last == SentKeepAlive then before + [last] else before
  }

  /** One OPEN, one KEEPALIVE, then only KEEPALIVEs. */
  predicate OpenThenKeepAlives(l: seq<Event>) {
    |l| >= 2 && l[0] == SentOpen && forall i :: 1 <= i < |l| ==> l[i] == SentKeepAlive
  }

  ghost predicate Invariant(s: Fields) {
    && (s.openReceived <==> PeerOpen in s.since)
    && s.curState != Connect
    && (if PastActive(s.curState) then OpenThenKeepAlives(Sends(s.since)) && SentOpen in s.since else Sends(s.since) == [])
    && (s.curState == OpenConfirm || s.curState == Established ==> Confirmed(s.since))
    && (s.curState == Established ==> HandshakeDone(s.since))
    && (s.settings.passive ==> OpenIsAnswer(s.since))
    && QueueEnds(s.out, Sends(s.since))
  }

  function Kind(m: Message): Event {
    if m.OpenMessage? then SentOpen else SentKeepAlive
  }

  /** The last messages of the queue are those the history tells of. */
  predicate QueueEnds(out: seq<Message>, sends: seq<Event>) {
    |sends| <= |out| && forall i :: 0 <= i < |sends| ==> Kind(out[|out| - |sends| + i]) == sends[i]
  }

  lemma Enqueued(out: seq<Message>, sends: seq<Event>, m: Message)
    requires QueueEnds(out, sends)
    ensures QueueEnds(out + [m], sends + [Kind(m)])
  {
  }

  /** Every OPEN was enqueued after an OPEN of the peer. */
  predicate OpenIsAnswer(since: seq<Event>) {
    forall i: nat | i < |since| && since[i] == SentOpen :: Before(since, PeerOpen, i)
  }

  lemma NoteAnswer(since: seq<Event>, e: Event)
    requires OpenIsAnswer(since) && (e == SentOpen ==> PeerOpen in since)
    ensures OpenIsAnswer(since + [e])
  {
    forall i: nat | i < |since + [e]| && (since + [e])[i] == SentOpen ensures Before(since + [e], PeerOpen, i) {
      assert (since + [e])[..i] == since[..i];
      if i == |since| {
        assert since[..i] == since;
      }
    }
  }

  lemma NoteKeeps(since: seq<Event>, e: Event, k: nat)
    requires ConfirmedAt(since, k)
    ensures ConfirmedAt(since + [e], k)
  {
    assert (since + [e])[..k] == since[..k];
  }

  lemma NoteSends(since: seq<Event>, e: Event)
    ensures Sends(since + [e]) == if e == SentOpen || e == SentKeepAlive then Sends(since) + [e] else Sends(since)
  {
    assert (since + [e])[..|since|] == since;
  }

  /** What the history clauses of the invariant gain from one more event. */
  lemma NoteHistory(since: seq<Event>, e: Event)
    ensures HandshakeDone(since) ==> HandshakeDone(since + [e])
    ensures Confirmed(since) ==> Confirmed(since + [e])
    ensures Confirmed(since) && e == PeerKeepAlive ==> HandshakeDone(since + [e])
  {
    forall k: nat | ConfirmedAt(since, k) ensures ConfirmedAt(since + [e], k) {
      NoteKeeps(since, e, k);
    }
    if e == PeerKeepAlive && Confirmed(since) {
      var k: nat :| ConfirmedAt(since, k);
      assert ConfirmedAt(since + [e], k) && (since + [e])[|since|] == PeerKeepAlive;
    }
    if HandshakeDone(since) {
      var k: nat, l: nat :| k < l < |since| && ConfirmedAt(since, k) && since[l] == PeerKeepAlive;
      assert ConfirmedAt(since + [e], k) && (since + [e])[l] == PeerKeepAlive;
    }
  }

  /** An event of the peer, with or without the move to ESTABLISHED that a KEEPALIVE allows. */
  lemma PeerEventKeeps(s: Fields, t: Fields, e: Event)
    requires Invariant(s) && (e == PeerOpen || e == PeerKeepAlive)
    requires t.since == s.since + [e] && t.settings == s.settings && t.out == s.out
    requires t.openReceived == (s.openReceived || e == PeerOpen)
    requires t.curState == s.curState || (e == PeerKeepAlive && s.curState == OpenConfirm && t.curState == Established)
    ensures Invariant(t)
  {
    hide Sends, QueueEnds, OpenIsAnswer, Confirmed, HandshakeDone, OpenThenKeepAlives;
    NoteSends(s.since, e);
    NoteHistory(s.since, e);
    if s.settings.passive {
      NoteAnswer(s.since, e);
    }
  }

  lemma OnPacketKeeps(s: Fields, pkt: Packet, peer: N.Peer, w: World)
    requires Invariant(s)
    ensures Invariant(OnPacket(s, pkt, peer, w))
  {
    var t := OnPacket(s, pkt, peer, w);
    match pkt
    case OpenPacket(open) => if w.accepts { PeerEventKeeps(s, t, PeerOpen); }
    case KeepAlivePacket => PeerEventKeeps(s, t, PeerKeepAlive);
    case NotificationPacket =>
    case NoPacket =>
  }

  /** The queue and the history both gain the OPEN and the first KEEPALIVE. */
  lemma PairEnqueued(out: seq<Message>, since: seq<Event>, open: O.Open)
    requires Sends(since) == []
    ensures Sends(since + [SentOpen] + [SentKeepAlive]) == [SentOpen, SentKeepAlive]
    ensures QueueEnds(out + [OpenMessage(open)] + [KeepAliveMessage], [SentOpen, SentKeepAlive])
  {
    hide Sends;
    NoteSends(since, SentOpen);
    NoteSends(since + [SentOpen], SentKeepAlive);
    assert [] + [SentOpen] == [SentOpen];
    assert [SentOpen] + [SentKeepAlive] == [SentOpen, SentKeepAlive];
  }

  /** An OPEN that answers one of the peer, and the KEEPALIVE behind it. */
  lemma PairIsAnswer(since: seq<Event>)
    requires OpenIsAnswer(since) && PeerOpen in since
    ensures OpenIsAnswer(since + [SentOpen] + [SentKeepAlive])
  {
    hide OpenIsAnswer;
    NoteAnswer(since, SentOpen);
    NoteAnswer(since + [SentOpen], SentKeepAlive);
  }

  /** The move to OPENSENT, whatever the OPEN says. */
  lemma SendPairKeeps(s: Fields, t: Fields, open: O.Open)
    requires Invariant(s) && s.curState == Active && (s.settings.passive ==> s.openReceived)
    requires t.since == s.since + [SentOpen] + [SentKeepAlive] && t.settings == s.settings
    requires t.out == s.out + [OpenMessage(open)] + [KeepAliveMessage]
    requires t.curState == OpenSent && t.openReceived == s.openReceived
    ensures Invariant(t)
  {
    hide Sends, QueueEnds, OpenIsAnswer, Confirmed, HandshakeDone;
    PairEnqueued(s.out, s.since, open);
    if s.settings.passive {
      PairIsAnswer(s.since);
    }
  }

  lemma KeepAliveKeeps(s: Fields, now: int)
    requires Invariant(s) && PastActive(s.curState)
    ensures Invariant(SendKeepAlive(s, now))
  {
    hide Sends, QueueEnds, OpenIsAnswer, Confirmed, HandshakeDone;
    NoteSends(s.since, SentKeepAlive);
    NoteHistory(s.since, SentKeepAlive);
    Enqueued(s.out, Sends(s.since), KeepAliveMessage);
    if s.settings.passive {
      NoteAnswer(s.since, SentKeepAlive);
    }
  }

  lemma ConfirmKeeps(s: Fields)
    requires Invariant(s) && s.curState == OpenSent && s.openReceived
    ensures Invariant(Note(s, EnteredConfirm).(curState := OpenConfirm))
  {
    NoteSends(s.since, EnteredConfirm);
    if s.settings.passive {
      NoteAnswer(s.since, EnteredConfirm);
    }
    var since := s.since + [EnteredConfirm];
    assert since[..|s.since|] == s.since;
    assert ConfirmedAt(since, |s.since|);
  }

  lemma OnStateKeeps(s: Fields, w: World)
    requires Invariant(s)
    ensures Invariant(OnState(s, w))
  {
    match s.curState
    case Active => if !s.settings.passive || s.openReceived {
      assert s.out + [OpenMessage(LocalOpen(s)), KeepAliveMessage] == s.out + [OpenMessage(LocalOpen(s))] + [KeepAliveMessage];
      SendPairKeeps(s, SendOpenPair(s), LocalOpen(s));
    }
    case OpenSent => if s.openReceived { ConfirmKeeps(s); }
    case OpenConfirm => KeepAliveKeeps(s, w.now);
    case Established => KeepAliveKeeps(s, w.now);
    case _ =>
  }

  lemma EvolveKeeps(s: Fields, pkt: Packet, peer: N.Peer, w: World)
    requires Invariant(s)
    ensures Invariant(EvolveWith(s, pkt, peer, w))
  {
    OnPacketKeeps(s, pkt, peer, w);
    OnStateKeeps(OnPacket(s, pkt, peer, w), w);
  }

  /** Every step keeps the invariant: a packet, a timer, a lost packet, and a disconnect at any point. */
  lemma TakeKeeps(s: Fields, step: Step)
    requires Invariant(s) && Take(s, step).Some?
    ensures Invariant(Take(s, step).value)
  {
    match step
    case Evolves(pkt, w) => EvolveKeeps(s, pkt, Negotiated(s, pkt).value, w);
    case Received(_) =>
    case Disconnects =>
  }

  lemma {:induction false} RunKeeps(s: Fields, steps: seq<Step>)
    requires Invariant(s) && Run(s, steps).Some?
    ensures Invariant(Run(s, steps).value)
    decreases |steps|
  {
    if steps != [] {
      RunKeeps(s, steps[..|steps| - 1]);
      TakeKeeps(Run(s, steps[..|steps| - 1]).value, steps[|steps| - 1]);
    }
  }

  /**
    In every reachable state: ESTABLISHED means that since the last disconnect both OPENs were exchanged, then
    OPENCONFIRM was entered, then a KEEPALIVE of the peer was processed.
   */
  lemma EstablishedSafety(config: N.Config, passive: bool, replicateAsn: bool, holdtime: int, steps: seq<Step>)
    ensures var r := Run(Initial(config, passive, replicateAsn, holdtime), steps);
      r.Some? && r.value.curState == Established ==> HandshakeDone(r.value.since)
  {
    if Run(Initial(config, passive, replicateAsn, holdtime), steps).Some? {
      RunKeeps(Initial(config, passive, replicateAsn, holdtime), steps);
    }
  }

  /**
    In every reachable state, what was enqueued since the last disconnect, and stands at the end of the queue, is
    nothing, or one OPEN, one KEEPALIVE and then only KEEPALIVEs; and a passive neighbor enqueued its OPEN after an OPEN
    of the peer.
   */
  lemma SendDiscipline(config: N.Config, passive: bool, replicateAsn: bool, holdtime: int, steps: seq<Step>)
    ensures var r := Run(Initial(config, passive, replicateAsn, holdtime), steps);
      r.Some? ==>
        && (Sends(r.value.since) == [] || OpenThenKeepAlives(Sends(r.value.since)))
        && QueueEnds(r.value.out, Sends(r.value.since))
        && (passive ==> OpenIsAnswer(r.value.since))
  {
    var s := Initial(config, passive, replicateAsn, holdtime);
    if Run(s, steps).Some? {
      RunKeeps(s, steps);
      SettingsAreFixed(s, steps);
    }
  }

  lemma {:induction false} SettingsAreFixed(s: Fields, steps: seq<Step>)
    requires Run(s, steps).Some?
    ensures Run(s, steps).value.settings == s.settings
    decreases |steps|
  {
    if steps != [] {
      var (before, last) := (steps[..|steps| - 1], steps[|steps| - 1]);
      var t := Run(s, before).value;
      SettingsAreFixed(s, before);
      if last.Evolves? {
        assert Run(s, steps).value == EvolveWith(t, last.pkt, Negotiated(t, last.pkt).value, last.w);
      }
    }
  }

  // ---------------------------------------------------------------- progress and teardown

  /** Without a disconnect a step never lowers the state, nor forgets that an OPEN came. */
  lemma RankNeverFalls(s: Fields, step: Step)
    requires Take(s, step).Some?
    ensures var t := Take(s, step).value;
      t.drops == s.drops ==> Rank(t.curState) >= Rank(s.curState) && (s.openReceived ==> t.openReceived)
    ensures Take(s, step).value.drops >= s.drops
  {
    if step.Evolves? {
      assert Take(s, step).value == EvolveWith(s, step.pkt, Negotiated(s, step.pkt).value, step.w);
    }
  }

  lemma {:induction false} RankNeverFallsInRun(s: Fields, steps: seq<Step>)
    requires Run(s, steps).Some?
    ensures var t := Run(s, steps).value;
      && t.drops >= s.drops
      && (t.drops == s.drops ==> Rank(t.curState) >= Rank(s.curState) && (s.openReceived ==> t.openReceived))
    decreases |steps|
  {
    if steps != [] {
      RankNeverFallsInRun(s, steps[..|steps| - 1]);
      RankNeverFalls(Run(s, steps[..|steps| - 1]).value, steps[|steps| - 1]);
    }
  }

  function Evolutions(steps: seq<Step>): nat {
    if steps == [] then 0 else Evolutions(steps[..|steps| - 1]) + if steps[|steps| - 1].Evolves? then 1 else 0
  }

  /**
    Once an OPEN was processed in ACTIVE, any run with two evolutions and no disconnect reaches OPENCONFIRM at least,
    whatever packets are taken or lost on the way.
   */
  lemma {:induction false} TwoEvolutionsConfirm(s: Fields, steps: seq<Step>)
    requires s.curState == Active && s.openReceived
    requires Run(s, steps).Some? && Run(s, steps).value.drops == s.drops
    ensures Rank(Run(s, steps).value.curState) >= 2 + if Evolutions(steps) < 2 then Evolutions(steps) else 2
    decreases |steps|
  {
    if steps != [] {
      var (before, last) := (steps[..|steps| - 1], steps[|steps| - 1]);
      var t := Run(s, before).value;
      RankNeverFallsInRun(s, before);
      RankNeverFalls(t, last);
      TwoEvolutionsConfirm(s, before);
      if last.Evolves? && (t.curState == Active || t.curState == OpenSent) {
        assert Run(s, steps).value == EvolveWith(t, last.pkt, Negotiated(t, last.pkt).value, last.w);
      }
    }
  }

  /** Evolutions at non-decreasing times at most `gap` apart, the first at most `gap` after `from`. */
  predicate Paced(steps: seq<Step>, from: int, gap: int) {
    steps == [] || (
      var (before, last) := (steps[..|steps| - 1], steps[|steps| - 1]);
      && Paced(before, from, gap)
      && (last.Evolves? ==> Clock(before, from) <= last.w.now <= Clock(before, from) + gap))
  }

  /** The time of the last evolution. */
  function Clock(steps: seq<Step>, from: int): int {
    if steps == [] then from
    else if steps[|steps| - 1].Evolves? then steps[|steps| - 1].w.now
    else Clock(steps[..|steps| - 1], from)
  }

  /**
    With evolutions at most `gap` apart, a session that is past ACTIVE has heard from its peer no longer ago than the
    hold time plus one gap, at any moment before the next evolution. (`Received` steps only note newer times.)
   */
  lemma {:induction false} NoSessionSurvivesSilence(s: Fields, steps: seq<Step>, from: int, gap: int, now: int)
    requires s.settings.localKeepAlive && !PastActive(s.curState)
    requires Run(s, steps).Some? && Paced(steps, from, gap) && Forward(s, steps)
    requires PastActive(Run(s, steps).value.curState) && now <= Clock(steps, from) + gap
    ensures now <= Run(s, steps).value.lastRecv + s.settings.localHold + gap
    decreases |steps|
  {
    if steps != [] {
      var (before, last) := (steps[..|steps| - 1], steps[|steps| - 1]);
      var t := Run(s, before).value;
      SettingsAreFixed(s, before);
      match last {
        case Evolves(pkt, w) =>
          SettingsAreFixed(s, steps);
          assert Run(s, steps).value == EvolveWith(t, pkt, Negotiated(t, pkt).value, w);
        case Received(_) => NoSessionSurvivesSilence(s, before, from, gap, now);
        case Disconnects =>
      }
    }
  }

  /** The receive routine's clock does not run backwards. */
  predicate Forward(s: Fields, steps: seq<Step>)
    requires Run(s, steps).Some?
  {
    steps == [] || (
      var (before, last) := (steps[..|steps| - 1], steps[|steps| - 1]);
      Forward(s, before) && (last.Received? ==> Run(s, before).value.lastRecv <= last.now))
  }

  lemma PassiveIdleStays(s: Fields, pkt: Packet, peer: N.Peer, w: World)
    requires s.settings.passive && s.curState == Idle
    ensures EvolveWith(s, pkt, peer, w).curState == Idle
  {
    assert OnPacket(s, pkt, peer, w).curState == Idle;
  }

  /** A passive neighbor that is IDLE stays IDLE in every run: nothing reconnects it. */
  lemma {:induction false} PassiveIdleForever(s: Fields, steps: seq<Step>)
    requires s.settings.passive && s.curState == Idle && Run(s, steps).Some?
    ensures Run(s, steps).value.curState == Idle
    decreases |steps|
  {
    if steps != [] {
      var (before, last) := (steps[..|steps| - 1], steps[|steps| - 1]);
      var t := Run(s, before).value;
      PassiveIdleForever(s, before);
      SettingsAreFixed(s, before);
      if last.Evolves? {
        PassiveIdleStays(t, last.pkt, Negotiated(t, last.pkt).value, last.w);
      }
    }
  }

  /** What no run has changed while nothing was received. */
  predicate Unheard(steps: seq<Step>) {
    forall step | step in steps :: !step.Received? && (step.Evolves? ==> step.pkt == NoPacket)
  }

  /**
    An active neighbor with its hold timer on whose last sign of the peer is older than the hold time (for a new one,
    the zero time) disconnects in the very step in which it enqueues its OPEN; so until it has heard something it
    is never past ACTIVE at the end of a step.
   */
  lemma {:induction false} FirstOpenIsDropped(s: Fields, steps: seq<Step>)
    requires s.settings.localKeepAlive && !PastActive(s.curState)
    requires Run(s, steps).Some? && Unheard(steps)
    requires forall step | step in steps && step.Evolves? :: s.lastRecv + s.settings.localHold < step.w.now
    ensures !PastActive(Run(s, steps).value.curState) && Run(s, steps).value.lastRecv == s.lastRecv
    decreases |steps|
  {
    if steps != [] {
      var (before, last) := (steps[..|steps| - 1], steps[|steps| - 1]);
      FirstOpenIsDropped(s, before);
      SettingsAreFixed(s, before);
      assert last in steps;
    }
  }

  /**
    When an OPEN is due, it is enqueued in any case; the step then ends in OPENSENT exactly when the hold time since the
    last sign of the peer, which a packet of this step counts as, has not run out. Otherwise it ends in IDLE.
   */
  lemma OpenIsKeptIff(s: Fields, pkt: Packet, w: World)
    requires Negotiated(s, pkt).Some?
    requires var t := OnPacket(s, pkt, Negotiated(s, pkt).value, w); t.curState == Active && (s.settings.passive ==> t.openReceived)
    ensures var r := Evolve(s, pkt, w).value;
      var heard := if pkt.NoPacket? then s.lastRecv else w.now;
      && |r.out| == |s.out| + 2 && r.out[|s.out|].OpenMessage?
      && (r.curState == OpenSent <==> !(s.settings.localKeepAlive && heard + s.settings.localHold < w.now))
      && (r.curState == OpenSent || r.curState == Idle)
  {
    hide N.ApplyOpen, O.Craft;
    var t := OnPacket(s, pkt, Negotiated(s, pkt).value, w);
    assert t.out == s.out && t.settings == s.settings;
  }

  /** With an interval of nanoseconds, under 22 microseconds in all, every ordinary step sends a keepalive. */
  lemma KeepAliveEveryStep(s: Fields, pkt: Packet, w: World)
    requires s.curState == Established && s.peerKeepAlive && s.peerHold <= 0xffff * SECOND
    requires pkt == NoPacket || pkt == KeepAlivePacket
    requires s.lastSent + 21846 <= w.now
    ensures Evolve(s, pkt, w).value.out == s.out + [KeepAliveMessage]
  {
  }

  /**
    A step, with or without a packet, enqueues what a keepalive interval of a third of the hold time asks for exactly when
    its time is not in the gap between the interval taken as nanoseconds and the interval meant.
   */
  lemma KeepAliveAsMeantIff(s: Fields, pkt: Packet, w: World)
    requires Negotiated(s, pkt).Some?
    requires var t := OnPacket(s, pkt, Negotiated(s, pkt).value, w);
      (t.curState == OpenConfirm || t.curState == Established) && t.peerKeepAlive && 0 <= t.peerHold
    ensures var hold := OnPacket(s, pkt, Negotiated(s, pkt).value, w).peerHold;
      Evolve(s, pkt, w).value.out == (if s.lastSent + hold / 3 < w.now then s.out + [KeepAliveMessage] else s.out)
      <==> !(s.lastSent + hold / SECOND / 3 < w.now <= s.lastSent + hold / 3)
  {
    hide N.ApplyOpen, OnPacket;
    var t := OnPacket(s, pkt, Negotiated(s, pkt).value, w);
    PacketKeepsQueue(s, pkt, Negotiated(s, pkt).value, w);
    assert t.peerHold / SECOND / 3 <= t.peerHold / 3;
    assert |s.out + [KeepAliveMessage]| == |s.out| + 1;
  }

  lemma PacketKeepsQueue(s: Fields, pkt: Packet, peer: N.Peer, w: World)
    ensures var t := OnPacket(s, pkt, peer, w); t.out == s.out && t.lastSent == s.lastSent
  {
  }

  ghost predicate WholeSeconds(s: Fields) {
    s.peerKeepAlive ==> exists h: u16 :: h > 0 && s.peerHold == h * SECOND
  }

  lemma OnPacketKeepsSeconds(s: Fields, pkt: Packet, peer: N.Peer, w: World)
    requires WholeSeconds(s)
    ensures WholeSeconds(OnPacket(s, pkt, peer, w))
  {
    if pkt.OpenPacket? && pkt.open.holdTime != 0 {
      assert OnPacket(s, pkt, peer, w).peerHold == pkt.open.holdTime * SECOND;
    }
  }

  /** In every run the hold time of the peer is a whole number of seconds that an OPEN announced. */
  lemma {:induction false} HoldIsWholeSeconds(s: Fields, steps: seq<Step>)
    requires WholeSeconds(s) && Run(s, steps).Some?
    ensures WholeSeconds(Run(s, steps).value)
    decreases |steps|
  {
    hide WholeSeconds, OnPacket, OnState, Negotiated;
    if steps != [] {
      var (before, last) := (steps[..|steps| - 1], steps[|steps| - 1]);
      HoldIsWholeSeconds(s, before);
      var t := Run(s, before).value;
      match last {
        case Evolves(pkt, w) =>
          var peer := Negotiated(t, pkt).value;
          OnPacketKeepsSeconds(t, pkt, peer, w);
          HoldTimeKept(OnPacket(t, pkt, peer, w), EvolveWith(t, pkt, peer, w), w);
        case _ => HoldTimeKept(t, Run(s, steps).value, World(0, false, false));
      }
    }
  }

  lemma HoldTimeKept(s: Fields, t: Fields, w: World)
    requires WholeSeconds(s)
    requires t == OnState(s, w) || t == Drop(OnState(s, w)) || t == Drop(s) || t == s.(lastRecv := t.lastRecv)
    ensures WholeSeconds(t)
  {
    hide LocalOpen;
  }

  /**
    With `ReplicateASN`, a neighbor that answers an OPEN announces the ASN it knew before that OPEN; this is the ASN of
    the peer exactly when the peer's ASN was known already.
   */
  lemma ReplicationIsLate(s: Fields, open: O.Open, w: World)
    requires s.settings.replicateAsn && s.curState == Active && w.accepts && Negotiated(s, OpenPacket(open)).Some?
    ensures var r := Evolve(s, OpenPacket(open), w).value; var hold := LocalOpen(s).holdTime;
      && r.out == s.out + [OpenMessage(N.Announce(s.config.(asn := s.peer.asn), hold)), KeepAliveMessage]
      && (r.out == s.out + [OpenMessage(N.Announce(s.config.(asn := r.peer.asn), hold)), KeepAliveMessage] <==> s.peer.asn == r.peer.asn)
  {
    hide N.ApplyOpen;
    var r := Evolve(s, OpenPacket(open), w).value;
    var hold := LocalOpen(s).holdTime;
    var (known, told) := (N.Announce(s.config.(asn := s.peer.asn), hold), N.Announce(s.config.(asn := r.peer.asn), hold));
    assert r.out[|s.out|] == OpenMessage(known);
    assert (s.out + [OpenMessage(told), KeepAliveMessage])[|s.out|] == OpenMessage(told);
    AnnouncedAsn(s.config.(asn := s.peer.asn), hold);
    AnnouncedAsn(s.config.(asn := r.peer.asn), hold);
  }

  lemma AnnouncedAsn(c: N.Config, hold: u16)
    ensures var l := N.Announce(c, hold).parameters[0].data.value; l != [] && l[0] == O.ASN(c.asn)
  {
  }

  /** A new neighbor answers the OPEN of AS 65001 as AS 0. */
  lemma ReplicationAnnouncesZero(identifier: seq<byte>, asn: u32, holdtime: int, remote: N.Config, hold: u16, w: World)
    requires w.accepts && remote.asn == 65001 && remote.addPaths == []
    ensures var s := Initial(N.DefaultConfig(asn, identifier, false, false), true, true, holdtime);
      var r := Evolve(s, OpenPacket(N.Announce(remote, hold)), w);
      && r.Some? && r.value.peer.asn == 65001
      && r.value.out == [OpenMessage(N.Announce(s.config.(asn := 0), LocalOpen(s).holdTime)), KeepAliveMessage]
  {
    hide N.Announce, N.ApplyOpen, LocalOpen;
    var s := Initial(N.DefaultConfig(asn, identifier, false, false), true, true, holdtime);
    OpenNegotiates(s, remote, hold, w);
    ReplicationIsLate(s, N.Announce(remote, hold), w);
    assert s.out == [] && s.peer.asn == 0;
  }

  // ---------------------------------------------------------------- negotiation over runs

  lemma StateKeepsPeer(s: Fields, w: World)
    ensures OnState(s, w).peer == s.peer && OnState(s, w).config == s.config
  {
    hide LocalOpen;
  }

  /** An OPEN leaves the view it gives of the peer, also when it is refused or the hold time runs out. */
  lemma OpenLeaves(s: Fields, open: O.Open, peer: N.Peer, w: World)
    ensures var t := EvolveWith(s, OpenPacket(open), peer, w); t.peer == peer && t.config == Replicated(s)
  {
    hide OnState;
    StateKeepsPeer(OnPacket(s, OpenPacket(open), peer, w), w);
  }

  /**
    In any state, the OPEN a peer crafted leaves what the exchange of OPENs gives with the view of the peer the neighbor
    had, whether or not the handler accepts; and it faults exactly when the comparison of the add-path lists does.
   */
  lemma OpenNegotiates(s: Fields, remote: N.Config, hold: u16, w: World)
    ensures var r := Evolve(s, OpenPacket(N.Announce(remote, hold)), w);
      && (r.None? <==> N.Modes(s.config, s.peer, remote).None?)
      && (r.Some? ==>
            && r.value.config == Replicated(s) && Some(r.value.peer) == N.ApplyOpen(Replicated(s), s.peer, N.Announce(remote, hold))
            && r.value.peer.asn == remote.asn && !r.value.peer.twoBytes
            && Some((r.value.peer.send, r.value.peer.decode)) == N.Modes(s.config, s.peer, remote))
  {
    hide N.ApplyOpen, N.Announce, EvolveWith, N.Compare;
    N.ApplyCrafted(Replicated(s), s.peer, remote, hold);
    var open := N.Announce(remote, hold);
    if Negotiated(s, OpenPacket(open)).Some? {
      OpenLeaves(s, open, Negotiated(s, OpenPacket(open)).value, w);
    }
  }

  /** A neighbor faults on a crafted OPEN exactly when an entry of its own list meets one of a list too short for its index. */
  lemma OpenFaultsIff(s: Fields, remote: N.Config, hold: u16, w: World)
    ensures Evolve(s, OpenPacket(N.Announce(remote, hold)), w).None?
      <==> exists i :: 0 <= i < |s.config.addPaths| && N.Matched(s.config.addPaths, remote.addPaths, i) && i >= |remote.addPaths|
  {
    hide Evolve, N.Announce, N.Matched;
    OpenNegotiates(s, remote, hold, w);
    N.CompareMeaning(s.config.addPaths, remote.addPaths, 0);
    if remote.addPaths == [] {
      N.NothingMatched(s.config.addPaths);
    }
  }

  /** A neighbor with the default add-path list faults on a peer that announces add-path for IPv6 only. */
  lemma DefaultNeighborFaults(s: Fields, remote: N.Config, hold: u16, w: World)
    requires s.config.addPaths == N.DEFAULT_ADD_PATHS
    requires remote.addPaths == [O.AddPath(Nlri.AFI_IPV6, Nlri.SAFI_UNICAST, 3)]
    ensures Evolve(s, OpenPacket(N.Announce(remote, hold)), w) == None
  {
    hide Evolve, N.Announce, N.Compare;
    OpenNegotiates(s, remote, hold, w);
    N.ShortListFaults();
  }

  /** What arrives of a crafted OPEN over the wire has the effect of the exchange, in any state. */
  lemma OpenGivesExchange(s: Fields, remote: N.Config, hold: u16, w: World)
    requires IsIPv4(remote.identifier)
    ensures match O.ParseOpen(O.EncodeBody(N.Announce(remote, hold)))
      case Err(_) => true
      case Ok(open) =>
        var r := Evolve(s, OpenPacket(open), w);
        var x := N.Exchange(Replicated(s), s.peer, remote, hold);
        (r.Some? <==> x.Some?) && (r.Some? ==> Some(r.value.peer) == x && r.value.config == Replicated(s))
  {
    hide O.ParseOpen, O.EncodeBody, N.ApplyOpen, EvolveWith;
    var r := O.ParseOpen(O.EncodeBody(N.Announce(remote, hold)));
    if r.Ok? && Negotiated(s, OpenPacket(r.value)).Some? {
      OpenLeaves(s, r.value, Negotiated(s, OpenPacket(r.value)).value, w);
    }
  }

  predicate NoOpen(steps: seq<Step>) {
    forall step | step in steps && step.Evolves? :: !step.pkt.OpenPacket?
  }

  /** Only an OPEN changes what is known about the peer: not a disconnect, and not a new connection. */
  lemma {:induction false} PeerIsKept(s: Fields, steps: seq<Step>)
    requires NoOpen(steps) && Run(s, steps).Some?
    ensures Run(s, steps).value.peer == s.peer && Run(s, steps).value.config == s.config
    decreases |steps|
  {
    hide EvolveWith;
    if steps != [] {
      var (before, last) := (steps[..|steps| - 1], steps[|steps| - 1]);
      PeerIsKept(s, before);
      assert last in steps;
      if last.Evolves? {
        EvolveKeepsPeer(Run(s, before).value, last.pkt, last.w);
      }
    }
  }

  lemma EvolveKeepsPeer(s: Fields, pkt: Packet, w: World)
    requires !pkt.OpenPacket?
    ensures var t := EvolveWith(s, pkt, s.peer, w); t.peer == s.peer && t.config == s.config
  {
    hide OnState, OnPacket;
    assert OnPacket(s, pkt, s.peer, w).peer == s.peer && OnPacket(s, pkt, s.peer, w).config == s.config by {
      PacketKeepsPeer(s, pkt, w);
    }
    StateKeepsPeer(OnPacket(s, pkt, s.peer, w), w);
  }

  lemma PacketKeepsPeer(s: Fields, pkt: Packet, w: World)
    requires !pkt.OpenPacket?
    ensures var t := OnPacket(s, pkt, s.peer, w); t.peer == s.peer && t.config == s.config
  {
  }

  /** So what was known when a session ended is the view from before for the OPEN of the next one. */
  lemma ReopenNegotiates(s: Fields, steps: seq<Step>, remote: N.Config, hold: u16, w: World)
    requires NoOpen(steps) && Run(s, steps).Some?
    ensures var r := Run(s, steps + [Evolves(OpenPacket(N.Announce(remote, hold)), w)]);
      && (r.None? <==> N.Modes(s.config, s.peer, remote).None?)
      && (r.Some? ==>
            && r.value.peer.asn == remote.asn && !r.value.peer.twoBytes
            && Some((r.value.peer.send, r.value.peer.decode)) == N.Modes(s.config, s.peer, remote))
  {
    hide Evolve, N.Announce, N.Modes;
    var all := steps + [Evolves(OpenPacket(N.Announce(remote, hold)), w)];
    assert all[..|all| - 1] == steps;
    PeerIsKept(s, steps);
    OpenNegotiates(Run(s, steps).value, remote, hold, w);
    SameModes(s, Run(s, steps).value, remote);
  }

  lemma SameModes(s: Fields, t: Fields, remote: N.Config)
    requires t.peer == s.peer && t.config == s.config
    ensures N.Modes(t.config, t.peer, remote) == N.Modes(s.config, s.peer, remote)
  {
  }

  /**
    Two neighbors, each in any state, take any steps, with disconnects but without an OPEN, and then each processes the
    OPEN of the other. What one then sends with path identifiers is what the other decodes with them exactly when the
    modes each had match. (`ReplicateASN` may have changed the ASN each announces.)
   */
  lemma SessionsAgreeIff(s: Fields, steps: seq<Step>, t: Fields, more: seq<Step>, a: N.Config, b: N.Config,
                         holdA: u16, holdB: u16, v: World, w: World)
    requires NoOpen(steps) && Run(s, steps).Some? && NoOpen(more) && Run(t, more).Some?
    requires a == s.config.(asn := a.asn) && b == t.config.(asn := b.asn)
    requires N.Sound(a) && N.Sound(b) && N.Aligned(a.addPaths, b.addPaths)
    ensures var rs := Run(s, steps + [Evolves(OpenPacket(N.Announce(b, holdB)), v)]);
      var rt := Run(t, more + [Evolves(OpenPacket(N.Announce(a, holdA)), w)]);
      && rs.Some? && rt.Some?
      && (N.SameFamilies(rs.value.peer.send, rt.value.peer.decode) <==> N.CarriedMatch(a, s.peer, b, t.peer))
      && (N.SameKnown(rs.value.peer.send, rt.value.peer.decode) <==> N.CarriedRoutesMatch(a, s.peer, b, t.peer))
  {
    hide Run, N.Announce, N.Exchange, N.Compare, N.CarriedMatch, N.SameFamilies, N.CarriedRoutesMatch, N.SameKnown;
    ReopenNegotiates(s, steps, b, holdB, v);
    ReopenNegotiates(t, more, a, holdA, w);
    N.ExchangeGivesModes(a, s.peer, b, holdB);
    N.ExchangeGivesModes(b, t.peer, a, holdA);
    N.OneDirection(a, s.peer, b, t.peer, holdA, holdB);
  }

  /**
    A default neighbor agrees on add-path with one peer; after a disconnect the peer comes back without add-path, and the
    neighbor still sends IPv4 with path identifiers.
   */
  lemma StaleSession(s: Fields, first: N.Config, second: N.Config, hold: u16, hold': u16, w: World, w': World)
    requires s.config.addPaths == N.DEFAULT_ADD_PATHS == first.addPaths && second.addPaths == []
    ensures var r := Run(s, [Evolves(OpenPacket(N.Announce(first, hold)), w), Disconnects,
                             Evolves(OpenPacket(N.Announce(second, hold')), w')]);
      r.Some? && Nlri.AfiSafi(Nlri.AFI_IPV4, Nlri.SAFI_UNICAST) in r.value.peer.send
  {
    hide Evolve, N.Announce, N.Compare;
    var open := Evolves(OpenPacket(N.Announce(first, hold)), w);
    assert [open][..0] == [];
    assert [open, Disconnects][..1] == [open];
    OpenNegotiates(s, first, hold, w);
    N.NoFault(N.DEFAULT_ADD_PATHS, N.DEFAULT_ADD_PATHS);
    N.DefaultListsAgree();
    assert Run(s, [open]) == Take(s, open);
    var t := Take(s, open).value;
    ReopenNegotiates(t, [Disconnects], second, hold', w');
    var last := Evolves(OpenPacket(N.Announce(second, hold')), w');
    assert [open, Disconnects, last][..2] == [open, Disconnects];
    assert ([Disconnects] + [last])[..1] == [Disconnects] && [Disconnects][..0] == [];
  }
}
