/** Complete BGP messages: `ParsePacket`, NOTIFICATION and KEEPALIVE (sections 4.1, 4.4 and 4.5 of RFC 4271). */
module Packet {
  import opened Bytes
  import BgpHeader
  import O = OpenMessage
  import U = UpdateMessage
  import A = Attributes

  datatype Message =
    | OpenMessage(open: O.Open)
    | UpdateMessage(update: U.Update)
    | Notification(errorCode: byte, errorSubcode: byte, data: seq<byte>)
    | KeepAlive

  function TypeOf(m: Message): byte {
    match m
    case OpenMessage(_) => BgpHeader.OPEN
    case UpdateMessage(_) => BgpHeader.UPDATE
    case Notification(_, _, _) => BgpHeader.NOTIFICATION
    case KeepAlive => BgpHeader.KEEPALIVE
  }

  /** The writers slice the OPEN identifier and the prefixes of an UPDATE. */
  predicate Writable(m: Message) {
    (m.OpenMessage? ==> |m.open.identifier| >= 4) && (m.UpdateMessage? ==> U.Writable(m.update))
  }

  function Body(m: Message): seq<byte>
    requires Writable(m)
  {
    match m
    case OpenMessage(open) => O.EncodeBody(open)
    case UpdateMessage(update) => U.EncodeBody(update)
    case Notification(code, subcode, data) => [code, subcode] + data
    case KeepAlive => []
  }

  /** `LenContent`: what the header announces. */
  function DeclaredSize(m: Message): nat
    requires Writable(m)
  {
    match m
    case OpenMessage(open) => 10 + |O.EncodeParameters(open.parameters)|
    case UpdateMessage(update) => U.LenContent(update)
    case Notification(_, _, data) => 2 + |data|
    case KeepAlive => 0
  }

  function Encode(m: Message): seq<byte>
    requires Writable(m)
  {
    BgpHeader.Encode(TypeOf(m), DeclaredSize(m)) + Body(m)
  }

  method Write(m: Message, w: Buffer)
    requires Writable(m)
    modifies w
    ensures w.data == old(w.data) + Encode(m)
  {
    match m
    case OpenMessage(open) => O.Write(open, w);
    case UpdateMessage(update) => U.Write(update, w);
    case Notification(code, subcode, data) =>
      ghost var before := w.data;
      BgpHeader.WriteBGPHeader(BgpHeader.NOTIFICATION, 2 + |data|, w);
      w.PutBytes([code, subcode]);
      w.PutBytes(data);
      Assoc(before, BgpHeader.Encode(TypeOf(m), DeclaredSize(m)), [code, subcode]);
      Assoc(before, BgpHeader.Encode(TypeOf(m), DeclaredSize(m)) + [code, subcode], data);
      Assoc(BgpHeader.Encode(TypeOf(m), DeclaredSize(m)), [code, subcode], data);
    case KeepAlive => BgpHeader.WriteBGPHeader(BgpHeader.KEEPALIVE, 0, w);
  }

  predicate IdsComplete(m: Message) {
    m.UpdateMessage? ==> A.IdsComplete(m.update.attributes)
  }

  /** The announced size of every kind of message is the number of octets written after the header. */
  lemma DeclaredIsWritten(m: Message)
    requires Writable(m) && IdsComplete(m)
    ensures DeclaredSize(m) == |Body(m)|
  {
    if m.UpdateMessage? {
      A.DeclaredIsWritten(m.update.attributes);
    }
  }

  // ---------------------------------------------------------------- decoding

  datatype PacketError = BadOpen(o: O.OpenError) | BadUpdate(u: U.UpdateError) | ShortNotification | UnknownType

  /** The two results of `ParsePacket`; an UPDATE may come with an error. */
  datatype PacketResult = PacketResult(message: Option<Message>, err: Option<PacketError>)

  /** An UPDATE is decoded without path identifiers and with four-octet ASNs. */
  function ParsePacket(bgptype: byte, b: seq<byte>): PacketResult {
    if bgptype == BgpHeader.OPEN then
      match O.ParseOpen(b)
      case Ok(open) => PacketResult(Some(OpenMessage(open)), None)
      case Err(e) => PacketResult(None, Some(BadOpen(e)))
    else if bgptype == BgpHeader.UPDATE then
      var r := U.ParseUpdate(b, [], false);
      PacketResult(if r.update.Some? then Some(UpdateMessage(r.update.value)) else None,
                   if r.err.Some? then Some(BadUpdate(r.err.value)) else None)
    else if bgptype == BgpHeader.NOTIFICATION then
      if |b| < 2 then PacketResult(None, Some(ShortNotification))
      else PacketResult(Some(Notification(b[0], b[1], b[2..])), None)
    else if bgptype == BgpHeader.KEEPALIVE then PacketResult(Some(KeepAlive), None)
    else PacketResult(None, Some(UnknownType))
  }

  method Read(bgptype: byte, b: seq<byte>) returns (message: Option<Message>, err: Option<PacketError>)
    ensures PacketResult(message, err) == ParsePacket(bgptype, b)
  {
    message, err := None, None;
    if bgptype == BgpHeader.OPEN {
      var r := O.Read(b);
      match r {
        case Ok(open) => message := Some(OpenMessage(open));
        case Err(e) => err := Some(BadOpen(e));
      }
    } else if bgptype == BgpHeader.UPDATE {
      var update, e := U.Read(b, [], false);
      assert U.UpdateResult(update, e) == U.ParseUpdate(b, [], false);
      if update.Some? {
        message := Some(UpdateMessage(update.value));
      }
      if e.Some? {
        err := Some(BadUpdate(e.value));
      }
    } else if bgptype == BgpHeader.NOTIFICATION {
      if |b| < 2 {
        err := Some(ShortNotification);
      } else {
        message := Some(Notification(b[0], b[1], b[2..]));
      }
    } else if bgptype == BgpHeader.KEEPALIVE {
      message := Some(KeepAlive);
    } else {
      err := Some(UnknownType);
    }
  }

  // ---------------------------------------------------------------- round trip

  /** A message that `ParsePacket` reads back. */
  predicate Fits(m: Message) {
    && Writable(m)
    && (m.OpenMessage? ==> O.OpenFits(m.open))
    && (m.UpdateMessage? ==> U.Encodable(m.update, [], false))
  }

  function Norm(m: Message): Message {
    if m.UpdateMessage? then UpdateMessage(U.Norm(m.update, false)) else m
  }

  /** Every message that fits is read back, up to the normal form of UPDATE attributes. */
  lemma MessageRoundTrip(m: Message)
    requires Fits(m)
    ensures ParsePacket(TypeOf(m), Body(m)) == PacketResult(Some(Norm(m)), None)
    ensures DeclaredSize(m) == |Body(m)|
  {
    match m
    case OpenMessage(open) => O.OpenRoundTrip(open);
    case UpdateMessage(update) =>
      U.UpdateRoundTrip(update, [], false);
      U.EncodableIdsComplete(update, [], false);
      DeclaredIsWritten(m);
    case Notification(_, _, data) => SplitConcat([m.errorCode, m.errorSubcode], data);
    case KeepAlive =>
  }
}
