/** Cutting the incoming octet stream into messages: `readFromSocket` and the framing part of `NeighborReceiveRoutine`. */
module Framing {
  import opened Bytes
  import BgpHeader
  import OpenMessage
  import Packet
  import U = UpdateMessage

  /**
    A connection: everything the peer will send before it closes, and how many octets it has ready at each read. A
    read returns at least one octet while any is left, and never more than asked for.
   */
  class Socket {
    const stream: seq<byte>
    const ready: seq<nat>
    var pos: nat
    var calls: nat

    ghost predicate Valid()
      reads this
    {
      pos <= |stream|
    }

    ghost function Rest(): seq<byte>
      requires Valid()
      reads this
    {
      stream[pos..]
    }

    constructor (stream: seq<byte>, ready: seq<nat>)
      ensures Valid() && Rest() == stream
    {
      this.stream := stream;
      this.ready := ready;
      this.pos := 0;
      this.calls := 0;
    }

    method Read(max: nat) returns (chunk: seq<byte>, closed: bool)
      requires Valid() && max > 0
      modifies this
      ensures Valid() && |chunk| <= max
      ensures old(Rest()) == chunk + Rest()
      ensures closed <==> old(Rest()) == []
      ensures !closed ==> chunk != []
    {
      var left := |stream| - pos;
      var n := if calls < |ready| && 0 < ready[calls] < max then ready[calls] else max;
      n := if n < left then n else left;
      chunk := stream[pos..pos + n];
      closed := left == 0;
      pos := pos + n;
      calls := calls + 1;
    }
  }

  /** Fills `len` octets; what comes out does not depend on the sizes of the chunks. */
  method ReadFromSocket(s: Socket, len: nat) returns (msg: seq<byte>, ok: bool)
    requires s.Valid()
    modifies s
    ensures s.Valid()
    ensures ok <==> len <= |old(s.Rest())|
    ensures ok ==> msg == old(s.Rest())[..len] && s.Rest() == old(s.Rest())[len..]
  {
    msg := [];
    ok := true;
    assert [] + s.Rest() == s.Rest();
    while |msg| < len && ok
      invariant s.Valid() && |msg| <= len
      invariant msg + s.Rest() == old(s.Rest())
      invariant !ok ==> s.Rest() == [] && |msg| < len
      decreases len - |msg|, ok
    {
      ghost var before := s.Rest();
      var chunk, closed := s.Read(len - |msg|);
      Assoc(msg, chunk, s.Rest());
      msg := msg + chunk;
      ok := !closed;
    }
    SplitConcat(msg, s.Rest());
  }

  // ---------------------------------------------------------------- frames

  /** What is handed on: without content the buffer still holds the 19 header octets. */
  datatype Frame = Frame(bgptype: byte, payload: seq<byte>)

  /** Why the loop disconnects: the stream ended, a header was no header, or a message other than an UPDATE did not parse. */
  datatype End = Closed | BadHeader | BadMessage

  /** An UPDATE is handed on as it is; any other message must parse. */
  predicate Refused(f: Frame) {
    f.bgptype != BgpHeader.UPDATE && Packet.ParsePacket(f.bgptype, f.payload).err.Some?
  }

  function Payload(b: seq<byte>, end: nat): seq<byte>
    requires 19 <= end <= |b|
  {
    if end > 19 then b[19..end] else b[..19]
  }

  function Frames(b: seq<byte>): (seq<Frame>, End)
    decreases |b|
  {
    if |b| < 19 then ([], Closed)
    else
      match BgpHeader.ParsePacketHeader(b[..19])
      case Err(_) => ([], BadHeader)
      case Ok(h) =>
        var end := 19 + h.length;
        if end > |b| then ([], Closed)
        else
          var f := Frame(h.bgptype, Payload(b, end));
          if Refused(f) then ([], BadMessage) else Prepend([f], Frames(b[end..]))
  }

  lemma PrependEnd(done: seq<Frame>, how: End)
    ensures Prepend(done, ([], how)) == (done, how)
  {
    assert done + [] == done;
  }

  /** The frame at the head of the stream, after `done`. */
  lemma FrameStep(b: seq<byte>, done: seq<Frame>, h: BgpHeader.Header)
    requires |b| >= 19 && BgpHeader.ParsePacketHeader(b[..19]) == Ok(h) && 19 + h.length <= |b|
    ensures var f := Frame(h.bgptype, if h.length > 0 then b[19..][..h.length] else b[..19]);
      Prepend(done, Frames(b)) == if Refused(f) then (done, BadMessage) else Prepend(done + [f], Frames(b[19..][h.length..]))
  {
    hide Refused, BgpHeader.ParsePacketHeader;
    var end := 19 + h.length;
    DropThenSlice(b, 19, 0, h.length);
    PrependTwice(done, Frame(h.bgptype, Payload(b, end)), Frames(b[end..]));
    PrependEnd(done, BadMessage);
  }

  /**
    The receive loop up to the disconnect that ends it: what is handed on, and why the loop ends, depend on the octets
    only, however they are chunked.
   */
  method ReceiveFrames(s: Socket) returns (frames: seq<Frame>, how: End)
    requires s.Valid()
    modifies s
    ensures s.Valid()
    ensures (frames, how) == Frames(old(s.Rest()))
  {
    hide Packet.ParsePacket;
    frames := [];
    PrependNothing(Frames(s.Rest()));
    while true
      invariant s.Valid()
      invariant Frames(old(s.Rest())) == Prepend(frames, Frames(s.Rest()))
      decreases |s.Rest()|
    {
      ghost var b := s.Rest();
      PrependEnd(frames, Closed);
      PrependEnd(frames, BadHeader);
      var msg, ok := ReadFromSocket(s, 19);
      if !ok {
        return frames, Closed;
      }
      var r := BgpHeader.ParsePacketHeader(msg);
      if r.Err? {
        return frames, BadHeader;
      }
      var h := r.value;
      if h.length > 0 {
        msg, ok := ReadFromSocket(s, h.length);
      }
      if !ok {
        return frames, Closed;
      }
      FrameStep(b, frames, h);
      if h.bgptype != BgpHeader.UPDATE {
        var _, err := Packet.Read(h.bgptype, msg);
        if err.Some? {
          return frames, BadMessage;
        }
      }
      frames := frames + [Frame(h.bgptype, msg)];
    }
  }

  /** Two splits of one stream give the same frames. */
  method ChunkingDoesNotMatter(stream: seq<byte>, ready1: seq<nat>, ready2: seq<nat>)
    returns (frames1: seq<Frame>, how1: End, frames2: seq<Frame>, how2: End)
    ensures frames1 == frames2 && how1 == how2 && (frames1, how1) == Frames(stream)
  {
    var s1 := new Socket(stream, ready1);
    frames1, how1 := ReceiveFrames(s1);
    var s2 := new Socket(stream, ready2);
    frames2, how2 := ReceiveFrames(s2);
  }

  // ---------------------------------------------------------------- written messages

  /** A message to send: its type and content. */
  datatype Outgoing = Outgoing(bgptype: byte, content: seq<byte>)

  function Wire(m: Outgoing): seq<byte> {
    BgpHeader.Encode(m.bgptype, |m.content|) + m.content
  }

  function WireAll(l: seq<Outgoing>): seq<byte> {
    if l == [] then [] else Wire(l[0]) + WireAll(l[1..])
  }

  function FrameOf(m: Outgoing): Frame {
    Frame(m.bgptype, if m.content == [] then BgpHeader.Encode(m.bgptype, 0) else m.content)
  }

  function FramesOf(l: seq<Outgoing>): seq<Frame> {
    if l == [] then [] else [FrameOf(l[0])] + FramesOf(l[1..])
  }

  lemma FirstFrame(m: Outgoing, t: seq<byte>)
    requires |m.content| <= BgpHeader.MAX_CONTENT
    ensures Frames(Wire(m) + t) == if Refused(FrameOf(m)) then ([], BadMessage) else Prepend([FrameOf(m)], Frames(t))
  {
    hide Refused;
    var head := BgpHeader.Encode(m.bgptype, |m.content|);
    var b := Wire(m) + t;
    Assoc(head, m.content, t);
    SplitConcat(head, m.content + t);
    SplitConcat(m.content, t);
    BgpHeader.HeaderRoundTrip(m.bgptype, |m.content|, []);
    assert head + [] == head;
    PrependNothing(Frames(b));
    FrameStep(b, [], BgpHeader.Header(m.bgptype, |m.content|));
  }

  /** Which messages are refused: one of an unknown type, an OPEN that does not parse, a NOTIFICATION of a single octet. */
  lemma RefusedIff(m: Outgoing)
    ensures Refused(FrameOf(m)) <==>
      match m.bgptype
      case 1 => OpenMessage.ParseOpen(m.content).Err?
      case 2 => false
      case 3 => |m.content| == 1
      case 4 => false
      case _ => true
  {
  }

  /** A message that is received: its content fits a message, and it is not refused. */
  predicate Arrives(m: Outgoing) {
    |m.content| <= BgpHeader.MAX_CONTENT && !Refused(FrameOf(m))
  }

  /**
    Any sequence of written messages is received, types and contents in order, up to the first that does not arrive. If
    that one is refused the loop ends there; if it is too long, its octets are cut at the wrong places.
   */
  lemma {:induction false} FramesAreTheMessages(l: seq<Outgoing>) returns (k: nat)
    ensures k <= |l| && (forall i | 0 <= i < k :: Arrives(l[i])) && (k < |l| ==> !Arrives(l[k]))
    ensures Frames(WireAll(l)) == Prepend(FramesOf(l[..k]), Frames(WireAll(l[k..])))
    ensures k == |l| ==> Frames(WireAll(l)) == (FramesOf(l), Closed)
    ensures k < |l| && |l[k].content| <= BgpHeader.MAX_CONTENT ==> Frames(WireAll(l)) == (FramesOf(l[..k]), BadMessage)
  {
    hide Refused, WireAll, Wire, Frames, FrameOf, FramesOf;
    k := 0;
    NoFrames();
    PrependNothing(Frames(WireAll(l)));
    assert l[0..] == l;
    if l != [] && |l[0].content| <= BgpHeader.MAX_CONTENT {
      var (m, t) := (l[0], l[1..]);
      assert l == [m] + t;
      FirstWire(m, t);
      FirstFrame(m, WireAll(t));
      if !Refused(FrameOf(m)) {
        var n := FramesAreTheMessages(t);
        k := n + 1;
        assert l[..k] == [m] + t[..n] && l[k..] == t[n..];
        FramesOfFirst(m, t[..n]);
        FramesOfFirst(m, t);
        Assoc([FrameOf(m)], FramesOf(t[..n]), Frames(WireAll(l[k..])).0);
        forall i | 0 <= i < k ensures Arrives(l[i]) {
          assert i > 0 ==> l[i] == t[i - 1];
        }
      }
    }
  }

  lemma NoFrames()
    ensures FramesOf([]) == [] && Frames([]) == ([], Closed) && WireAll([]) == []
  {
  }

  lemma FramesOfFirst(m: Outgoing, l: seq<Outgoing>)
    ensures FramesOf([m] + l) == [FrameOf(m)] + FramesOf(l)
  {
  }

  /** Content that is too long is never received as it is: the header announces other octets, or no message at all. */
  lemma TooLongIsNotReceived(m: Outgoing, t: seq<byte>, rest: seq<Frame>)
    requires |m.content| > BgpHeader.MAX_CONTENT
    ensures Frames(Wire(m) + t) != ([FrameOf(m)] + rest, Closed)
  {
    hide Refused, BgpHeader.ParsePacketHeader, BgpHeader.Encode;
    var head := BgpHeader.Encode(m.bgptype, |m.content|);
    var b := Wire(m) + t;
    Assoc(head, m.content, t);
    SplitConcat(head, m.content + t);
    BgpHeader.WrappedHeader(m.bgptype, |m.content|, []);
    assert head + [] == head;
    if BgpHeader.ParsePacketHeader(head).Ok? {
      var h := BgpHeader.ParsePacketHeader(head).value;
      var f := Frame(h.bgptype, if h.length > 0 then b[19..][..h.length] else b[..19]);
      FrameStep(b, [], h);
      PrependNothing(Frames(b));
      assert |f.payload| != |m.content|;
      assert f != FrameOf(m);
      assert !Refused(f) ==> Frames(b).0[0] == f;
    }
  }

  /** All messages come out exactly when each fits a message and none is refused. */
  lemma AllReceivedIff(l: seq<Outgoing>)
    ensures Frames(WireAll(l)) == (FramesOf(l), Closed) <==> forall m | m in l :: Arrives(m)
  {
    hide Refused, Frames, FramesOf, WireAll;
    var k := FramesAreTheMessages(l);
    if k < |l| {
      assert l[k] in l;
      if |l[k].content| > BgpHeader.MAX_CONTENT {
        var t := l[k + 1..];
        assert l[k..] == [l[k]] + t && l == l[..k] + ([l[k]] + t);
        FirstWire(l[k], t);
        TooLongIsNotReceived(l[k], WireAll(t), FramesOf(t));
        FramesOfFirst(l[k], t);
        FramesOfJoin(l[..k], [l[k]] + t);
        Cancel(FramesOf(l[..k]), Frames(WireAll(l[k..])).0, [FrameOf(l[k])] + FramesOf(t));
      }
    } else {
      assert l[..k] == l;
    }
  }

  lemma FirstWire(m: Outgoing, l: seq<Outgoing>)
    ensures WireAll([m] + l) == Wire(m) + WireAll(l)
  {
    assert ([m] + l)[1..] == l;
  }

  lemma {:induction false} FramesOfJoin(l: seq<Outgoing>, t: seq<Outgoing>)
    ensures FramesOf(l + t) == FramesOf(l) + FramesOf(t)
  {
    hide FrameOf;
    if l == [] {
      assert l + t == t;
    } else {
      assert (l + t)[1..] == l[1..] + t;
      FramesOfJoin(l[1..], t);
    }
  }

  /** A ROUTE-REFRESH, which the library itself writes, ends the session: the KEEPALIVE behind it is not received. */
  lemma RouteRefreshEndsSession()
    ensures Frames(WireAll([Outgoing(5, [0, 1, 0, 1]), Outgoing(BgpHeader.KEEPALIVE, [])])) == ([], BadMessage)
  {
    var l := [Outgoing(5, [0, 1, 0, 1]), Outgoing(BgpHeader.KEEPALIVE, [])];
    RefusedIff(l[0]);
    FirstFrame(l[0], WireAll(l[1..]));
  }

  function Outgo(l: seq<Packet.Message>): seq<Outgoing>
    requires forall m | m in l :: Packet.Writable(m)
  {
    if l == [] then [] else [Outgoing(Packet.TypeOf(l[0]), Packet.Body(l[0]))] + Outgo(l[1..])
  }

  function EncodeAll(l: seq<Packet.Message>): seq<byte>
    requires forall m | m in l :: Packet.Writable(m)
  {
    if l == [] then [] else Packet.Encode(l[0]) + EncodeAll(l[1..])
  }

  lemma {:induction false} EncodeAllIsWire(l: seq<Packet.Message>)
    requires forall m | m in l :: Packet.Writable(m) && Packet.IdsComplete(m)
    ensures EncodeAll(l) == WireAll(Outgo(l))
  {
    hide Packet.Writable, Packet.IdsComplete, Packet.Body, Packet.DeclaredSize;
    if l != [] {
      EncodeAllIsWire(l[1..]);
      Packet.DeclaredIsWritten(l[0]);
      assert Outgo(l)[1..] == Outgo(l[1..]);
    }
  }

  lemma {:induction false} OutgoAt(l: seq<Packet.Message>)
    requires forall m | m in l :: Packet.Writable(m)
    ensures |Outgo(l)| == |l| && forall i | 0 <= i < |l| :: Outgo(l)[i] == Outgoing(Packet.TypeOf(l[i]), Packet.Body(l[i]))
  {
    hide Packet.Writable, Packet.Body, Packet.TypeOf;
    if l != [] {
      OutgoAt(l[1..]);
    }
  }

  /** A message of the library is refused exactly when it is an OPEN that does not parse. */
  lemma SentIsRefusedIff(m: Packet.Message)
    requires Packet.Writable(m)
    ensures Refused(FrameOf(Outgoing(Packet.TypeOf(m), Packet.Body(m))))
      <==> m.OpenMessage? && OpenMessage.ParseOpen(OpenMessage.EncodeBody(m.open)).Err?
  {
    hide OpenMessage.ParseOpen, U.EncodeBody, Refused;
    RefusedIff(Outgoing(Packet.TypeOf(m), Packet.Body(m)));
  }

  /** A message that fits and, if it is an OPEN, parses. */
  predicate Receivable(m: Packet.Message)
    requires Packet.Writable(m)
  {
    && |Packet.Body(m)| <= BgpHeader.MAX_CONTENT
    && (m.OpenMessage? ==> OpenMessage.ParseOpen(OpenMessage.EncodeBody(m.open)).Ok?)
  }

  /**
    What the sender writes for a list of messages is received as exactly those messages, whatever their kinds, if and
    only if each fits a message and every OPEN among them is one that parses.
   */
  lemma SentIsReceived(l: seq<Packet.Message>)
    requires forall m | m in l :: Packet.Writable(m) && Packet.IdsComplete(m)
    ensures Frames(EncodeAll(l)) == (FramesOf(Outgo(l)), Closed)
      <==> forall m | m in l :: Receivable(m)
  {
    hide Refused, Frames, FramesOf, WireAll, EncodeAll, Outgo, Packet.IdsComplete, Packet.Body,
      OpenMessage.ParseOpen, OpenMessage.EncodeBody;
    EncodeAllIsWire(l);
    OutgoAt(l);
    AllReceivedIff(Outgo(l));
    forall i | 0 <= i < |l|
      ensures Arrives(Outgo(l)[i]) <==> Receivable(l[i])
    {
      SentIsRefusedIff(l[i]);
    }
  }

  // ---------------------------------------------------------------- messages without content

  /** A NOTIFICATION without content is not rejected: its codes are read from the header's marker. */
  lemma EmptyNotificationReadsMarker()
    ensures var f := FrameOf(Outgoing(BgpHeader.NOTIFICATION, []));
      var r := Packet.ParsePacket(f.bgptype, f.payload);
      r.err.None? && r.message.Some? && r.message.value.Notification?
      && r.message.value.errorCode == 255 && r.message.value.errorSubcode == 255
    ensures Packet.ParsePacket(BgpHeader.NOTIFICATION, []).err == Some(Packet.ShortNotification)
  {
  }

  /** What is handed on decodes to the message the content decodes to, exactly but for a NOTIFICATION without content. */
  lemma DecodesAsContentIff(m: Outgoing)
    ensures var f := FrameOf(m);
      Packet.ParsePacket(f.bgptype, f.payload).message == Packet.ParsePacket(m.bgptype, m.content).message
      <==> !(m.bgptype == BgpHeader.NOTIFICATION && m.content == [])
  {
  }

  /** So it is for an UPDATE under any modes. */
  lemma UpdateDecodesAsContent(content: seq<byte>, list: U.Families, enc2: bool)
    ensures U.ParseUpdate(FrameOf(Outgoing(BgpHeader.UPDATE, content)).payload, list, enc2).update == U.ParseUpdate(content, list, enc2).update
  {
  }
}
