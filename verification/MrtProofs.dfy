/** Writing MRT records and reading them back, one by one and as a stream. */
module MrtProofs {
  import opened Bytes
  import opened Mrt
  import opened MrtReader
  import opened MrtDecode
  import Nlri
  import A = Attributes
  import AttributeProofs
  import BgpHeader
  import Packet
  import UpdateMessage

  function Fresh(b: seq<byte>): Cursor {
    Cursor(b, false)
  }

  // ---------------------------------------------------------------- peers

  /** A four-octet identifier, and an address that is IPv4, or IPv6 and not IPv4-mapped. */
  predicate PeerFits(p: Peer) {
    |p.id| == 4 && (|p.ip| == 4 || (|p.ip| == 16 && !IsIPv4(p.ip)))
  }

  lemma ReadOne(x: byte, t: seq<byte>)
    ensures Read(Fresh([x] + t), 1) == ([x], Fresh(t))
  {
    ReadPart([x], t);
  }

  lemma Read16(x: u16, t: seq<byte>)
    ensures Read(Fresh(BE16(x) + t), 2) == (BE16(x), Fresh(t)) && U16(BE16(x)) == x
  {
    ReadPart(BE16(x), t);
    BE16RoundTrip(x, []);
    assert BE16(x) + [] == BE16(x);
  }

  lemma Read32(x: u32, t: seq<byte>)
    ensures Read(Fresh(BE32(x) + t), 4) == (BE32(x), Fresh(t)) && U32(BE32(x)) == x
  {
    ReadPart(BE32(x), t);
    BE32RoundTrip(x, []);
    assert BE32(x) + [] == BE32(x);
  }

  lemma Nest(a: seq<byte>, b: seq<byte>, c: seq<byte>, d: seq<byte>, t: seq<byte>)
    ensures a + (b + (c + d)) + t == a + (b + (c + (d + t)))
  {
    Assoc(a, b + (c + d), t);
    Assoc(b, c + d, t);
    Assoc(c, d, t);
  }

  lemma PeerParts(p: Peer, t: seq<byte>)
    requires PeerFits(p)
    ensures var asn := if p.asn <= 0xffff then BE16(p.asn) else BE32(p.asn);
      var flags: byte := (if p.asn <= 0xffff then 0 else 4) + if |p.ip| == 4 then 0 else 1;
      EncodePeer(p) + t == [flags] + (p.id + (p.ip + (asn + t)))
  {
    var asn := if p.asn <= 0xffff then BE16(p.asn) else BE32(p.asn);
    var flags: byte := (if p.asn <= 0xffff then 0 else 4) + if |p.ip| == 4 then 0 else 1;
    Nest([flags], p.id, p.ip, asn, t);
  }

  /** A peer with a 16-bit ASN is read back. */
  lemma PeerRoundTrip(p: Peer, t: seq<byte>)
    requires PeerFits(p) && p.asn <= 0xffff
    ensures DecodePeer(Fresh(EncodePeer(p) + t)) == (p, Fresh(t))
  {
    hide EncodePeer, IsIPv4, Read, BE16, U16;
    PeerParts(p, t);
    var flags: byte := if |p.ip| == 4 then 0 else 1;
    ReadOne(flags, p.id + (p.ip + (BE16(p.asn) + t)));
    ReadPart(p.id, p.ip + (BE16(p.asn) + t));
    ReadPart(p.ip, BE16(p.asn) + t);
    Read16(p.asn, t);
  }

  /** A longer ASN is written under a bit the reader does not look at, and two of its octets are taken for the ASN. */
  lemma LongAsnIsLost(p: Peer, t: seq<byte>)
    requires PeerFits(p) && p.asn > 0xffff
    ensures DecodePeer(Fresh(EncodePeer(p) + t)).0.asn <= 0xffff
  {
    PeerParts(p, t);
    var flags: byte := 4 + if |p.ip| == 4 then 0 else 1;
    ReadOne(flags, p.id + (p.ip + (BE32(p.asn) + t)));
  }

  /** A peer list is read back exactly when every ASN fits 16 bits. */
  lemma {:induction false} PeersRoundTripIff(l: seq<Peer>, t: seq<byte>)
    requires forall p | p in l :: PeerFits(p)
    ensures DecodePeers(Fresh(EncodePeers(l) + t), |l|).0 == l <==> forall p | p in l :: p.asn <= 0xffff
  {
    if l != [] {
      var rest := EncodePeers(l[1..]) + t;
      Assoc(EncodePeer(l[0]), EncodePeers(l[1..]), t);
      assert forall p :: p in l <==> p == l[0] || p in l[1..];
      assert l == [l[0]] + l[1..];
      if l[0].asn <= 0xffff {
        PeerRoundTrip(l[0], rest);
        PeersRoundTripIff(l[1..], t);
        Cancel([l[0]], DecodePeers(Fresh(rest), |l| - 1).0, l[1..]);
      } else {
        LongAsnIsLost(l[0], rest);
      }
    }
  }

  // ---------------------------------------------------------------- RIB entries

  predicate EntryFits(e: RibEntry) {
    && AttributeProofs.AllEncodable(e.attributes, [], false)
    && A.AllWritable(e.attributes)
    && |A.EncodeAll(e.attributes)| <= 0xffff
  }

  function NormEntry(e: RibEntry): RibEntry {
    e.(attributes := AttributeProofs.NormAll(e.attributes, false))
  }

  function NormEntries(l: seq<RibEntry>): seq<RibEntry> {
    if l == [] then [] else [NormEntry(l[0])] + NormEntries(l[1..])
  }

  lemma EntryCounts(e: RibEntry)
    requires EntryFits(e)
    ensures A.DeclaredLenAll(e.attributes) == |A.EncodeAll(e.attributes)|
  {
    forall a | a in e.attributes ensures a.Aggregator? ==> |a.id| == 4 {
      assert AttributeProofs.Encodable(a, [], false);
    }
    A.DeclaredIsWritten(e.attributes);
  }

  /** One entry on well-cut input, whatever its attributes hold. */
  lemma EntryTurn(index: u16, time: u32, b: seq<byte>, t: seq<byte>)
    requires |b| <= 0xffff
    ensures DecodeEntry(Fresh(BE16(index) + (BE32(time) + (BE16(|b|) + (b + t)))), false)
         == ((RibEntry(index, time, A.Parse(b, [], false).attributes), A.Parse(b, [], false).err), Fresh(t))
  {
    Read16(index, BE32(time) + (BE16(|b|) + (b + t)));
    Read32(time, BE16(|b|) + (b + t));
    Read16(|b|, b + t);
    ReadPart(b, t);
  }

  lemma EntryRoundTrip(e: RibEntry, t: seq<byte>)
    requires EntryFits(e)
    ensures DecodeEntry(Fresh(EncodeEntry(e) + t), false) == ((NormEntry(e), None), Fresh(t))
  {
    hide A.Parse, A.EncodeAll, DecodeEntry, BE16, BE32;
    var b := A.EncodeAll(e.attributes);
    assert EncodeEntry(e) == BE16(e.peerIndex) + (BE32(e.origTime) + (BE16(|b|) + b)) by {
      EntryCounts(e);
    }
    Nest(BE16(e.peerIndex), BE32(e.origTime), BE16(|b|), b, t);
    EntryTurn(e.peerIndex, e.origTime, b, t);
    AttributeProofs.ListRoundTrip(e.attributes, [], false);
  }

  lemma {:induction false} EntriesRoundTrip(l: seq<RibEntry>, t: seq<byte>)
    requires forall e | e in l :: EntryFits(e)
    ensures EntriesWritable(l)
    ensures DecodeEntries(Fresh(EncodeEntries(l) + t), |l|, false) == (NormEntries(l), None)
  {
    if l != [] {
      assert EntryFits(l[0]);
      EntriesRoundTrip(l[1..], t);
      Assoc(EncodeEntry(l[0]), EncodeEntries(l[1..]), t);
      EntryRoundTrip(l[0], EncodeEntries(l[1..]) + t);
    }
  }

  /** Entries whose lengths are exact: every aggregator identifier in them is complete. */
  predicate EntriesMeasured(l: seq<RibEntry>) {
    forall e | e in l :: A.AllWritable(e.attributes) && A.IdsComplete(e.attributes)
  }

  lemma {:induction false} EntriesCount(l: seq<RibEntry>)
    requires EntriesMeasured(l)
    ensures EntriesWritable(l) && EntriesLen(l) == |EncodeEntries(l)|
  {
    if l != [] {
      A.DeclaredIsWritten(l[0].attributes);
      EntriesCount(l[1..]);
    }
  }

  lemma FittingEntries(l: seq<RibEntry>)
    requires forall e | e in l :: EntryFits(e)
    ensures EntriesMeasured(l)
  {
    forall e, a | e in l && a in e.attributes ensures a.Aggregator? ==> |a.id| == 4 {
      assert AttributeProofs.Encodable(a, [], false);
    }
  }

  // ---------------------------------------------------------------- prefixes and sessions

  lemma PrefixRoundTrip(n: Nlri.Prefix, afi: u16, t: seq<byte>)
    requires Nlri.KnownAfi(afi) && Nlri.Canonical(n, Nlri.AddressSize(afi), false) && Nlri.Writable(n)
    ensures DecodePrefix(Fresh(Nlri.Encode(n, false) + t), afi) == (Nlri.NlriResult([n], None), Fresh(t))
  {
    var octets := n.ip[..Nlri.SplitLen(n)];
    Nlri.MaskSizeBound(n.mask);
    var bits: byte := Nlri.MaskSize(n.mask);
    assert Nlri.Encode(n, false) == [bits] + octets;
    Assoc([bits], octets, t);
    ReadOne(bits, octets + t);
    ReadPart(octets, t);
    Nlri.ParseInvertsEncode([n], afi, false);
    assert Nlri.EncodeList([n], false) == [bits] + octets;
  }

  /** Both ends IPv4, or both IPv6 with a peer address that is not IPv4-mapped. */
  predicate SessionFits(s: Session) {
    (|s.peerIP| == 4 && |s.localIP| == 4) || (|s.peerIP| == 16 && |s.localIP| == 16 && !IsIPv4(s.peerIP))
  }

  lemma SessionRoundTrip(s: Session, t: seq<byte>)
    requires SessionFits(s)
    ensures DecodeSession(Fresh(EncodeSession(s) + t)) == (s, Fresh(t))
    ensures |EncodeSession(s)| == SessionLen(s) == SessionSize(s)
  {
    var afi := if |s.peerIP| == 4 then Nlri.AFI_IPV4 else Nlri.AFI_IPV6;
    var ips := BE16(afi) + (s.peerIP + s.localIP);
    assert EncodeSession(s) == BE32(s.peerAS) + (BE32(s.localAS) + (BE16(s.iface) + ips));
    Nest(BE32(s.peerAS), BE32(s.localAS), BE16(s.iface), ips, t);
    Assoc(BE16(afi), s.peerIP + s.localIP, t);
    Assoc(s.peerIP, s.localIP, t);
    Read32(s.peerAS, BE32(s.localAS) + (BE16(s.iface) + (ips + t)));
    Read32(s.localAS, BE16(s.iface) + (ips + t));
    Read16(s.iface, ips + t);
    Read16(afi, s.peerIP + (s.localIP + t));
    ReadPart(s.peerIP, s.localIP + t);
    ReadPart(s.localIP, t);
  }

  // ---------------------------------------------------------------- records

  /** A record that is read back as its normal form. */
  predicate RecordFits(r: Record) {
    && Writable(r)
    && Len(r) <= MAX_LENGTH
    && match r
       case PeerIndex(_, id, name, peers) =>
         |id| == 4 && |name| <= 0xffff && |peers| <= 0xffff && forall p | p in peers :: PeerFits(p) && p.asn <= 0xffff
       case Rib(_, _, afi, safi, nlri, entries, asAfiSafi) =>
         && RibSubtype(afi, safi, asAfiSafi) != RIB_GENERIC
         && Nlri.Canonical(nlri.value, Nlri.AddressSize(afi), false)
         && |entries| <= 0xffff && forall e | e in entries :: EntryFits(e)
       case Message(_, session, message) =>
         SessionFits(session) && Packet.Fits(message.value) && |Packet.Body(message.value)| <= BgpHeader.MAX_CONTENT
       case StateChange(_, session, _, _) => SessionFits(session)
  }

  function Norm(r: Record): Record {
    match r
    case Rib(_, _, _, _, _, entries, _) => r.(entries := NormEntries(entries))
    case Message(_, _, message) => if message.Some? then r.(message := Some(Packet.Norm(message.value))) else r
    case _ => r
  }

  /** A peer whose addresses are addresses: the length counts 16 octets for whatever is not IPv4. */
  predicate PeerMeasured(p: Peer) {
    IsIPv4(p.id) && (IsIPv4(p.ip) || |p.ip| == 16)
  }

  /** The length counts two addresses of the size of the peer's. */
  predicate SessionMeasured(s: Session) {
    if IsIPv4(s.peerIP) then IsIPv4(s.localIP) else |s.peerIP| == |s.localIP| == 16
  }

  /** A record whose length is exact, whether or not it can be read back. */
  predicate Measured(r: Record) {
    && Writable(r)
    && match r
       case PeerIndex(_, id, _, peers) => IsIPv4(id) && forall p | p in peers :: PeerMeasured(p)
       case Rib(_, _, afi, safi, _, entries, asAfiSafi) => RibSubtype(afi, safi, asAfiSafi) != RIB_GENERIC && EntriesMeasured(entries)
       case Message(_, session, message) => SessionMeasured(session) && Packet.IdsComplete(message.value)
       case StateChange(_, session, _, _) => SessionMeasured(session)
  }

  lemma {:induction false} PeersCount(l: seq<Peer>)
    requires forall p | p in l :: PeerMeasured(p)
    ensures PeersLen(l) == |EncodePeers(l)|
  {
    if l != [] {
      assert PeerMeasured(l[0]);
      PeersCount(l[1..]);
    }
  }

  lemma SessionCount(s: Session)
    requires SessionMeasured(s)
    ensures |EncodeSession(s)| == SessionLen(s)
  {
  }

  /** The announced length is the number of octets written, whatever ASNs and attributes the record holds. */
  lemma LenIsWritten(r: Record)
    requires Measured(r)
    ensures Len(r) == |Body(r)|
  {
    match r
    case PeerIndex(_, _, _, peers) => PeersCount(peers);
    case Rib(_, _, _, _, _, entries, _) => EntriesCount(entries);
    case Message(_, session, message) =>
      SessionCount(session);
      Packet.DeclaredIsWritten(message.value);
    case StateChange(_, session, _, _) => SessionCount(session);
  }

  lemma FittingIsMeasured(r: Record)
    requires RecordFits(r)
    ensures Measured(r)
  {
    match r
    case PeerIndex(_, _, _, _) =>
    case Rib(_, _, _, _, _, entries, _) => FittingEntries(entries);
    case Message(_, _, message) =>
      if message.value.UpdateMessage? {
        UpdateMessage.EncodableIdsComplete(message.value.update, [], false);
      }
    case StateChange(_, _, _, _) =>
  }

  /** A peer index table is read back exactly when every ASN fits 16 bits. */
  lemma PeerIndexRoundTripIff(r: Record)
    requires r.PeerIndex? && |r.collectorId| == 4 && |r.viewName| <= 0xffff && |r.peers| <= 0xffff
    requires forall p | p in r.peers :: PeerFits(p)
    ensures DecodePeerIndex(Fresh(Body(r)), r.timestamp) == r <==> forall p | p in r.peers :: p.asn <= 0xffff
  {
    hide DecodePeers, EncodePeers;
    var peers := EncodePeers(r.peers);
    var counted := BE16(|r.peers|) + peers;
    assert Body(r) == r.collectorId + (BE16(|r.viewName|) + (r.viewName + counted));
    ReadPart(r.collectorId, BE16(|r.viewName|) + (r.viewName + counted));
    Read16(|r.viewName|, r.viewName + counted);
    ReadPart(r.viewName, counted);
    Read16(|r.peers|, peers);
    PeersRoundTripIff(r.peers, []);
    assert peers + [] == peers;
  }

  lemma RibPartRoundTrip(r: Record)
    requires r.Rib? && RecordFits(r)
    ensures var counted := BE16(|r.entries|) + EncodeEntries(r.entries);
      DecodeRib(Fresh(Nlri.Encode(r.nlri.value, false) + counted), r.timestamp, r.seqnum, r.afi, r.safi, true, false)
      == Decoded(Some(Norm(r)), None)
  {
    var entries := EncodeEntries(r.entries);
    PrefixRoundTrip(r.nlri.value, r.afi, BE16(|r.entries|) + entries);
    Read16(|r.entries|, entries);
    EntriesRoundTrip(r.entries, []);
    assert entries + [] == entries;
  }

  lemma RibSpecRoundTrip(r: Record)
    requires r.Rib? && RecordFits(r)
    ensures DecodeRibSpec(Fresh(Body(r)), r.timestamp, r.afi, r.safi, false) == Decoded(Some(Norm(r)), None)
  {
    var part := Nlri.Encode(r.nlri.value, false) + (BE16(|r.entries|) + EncodeEntries(r.entries));
    RibPartRoundTrip(r);
    RibBody(r);
    RibSpecTurn(part, r.timestamp, r.seqnum, r.afi, r.safi);
  }

  lemma RibBody(r: Record)
    requires r.Rib? && Writable(r) && RibSubtype(r.afi, r.safi, r.asAfiSafi) != RIB_GENERIC && |r.entries| <= 0xffff
    ensures Body(r) == BE32(r.seqnum) + (Nlri.Encode(r.nlri.value, false) + (BE16(|r.entries|) + EncodeEntries(r.entries)))
  {
    hide EncodeEntries, Nlri.Encode;
    var x := BE32(r.seqnum) + (Nlri.Encode(r.nlri.value, false) + (BE16(|r.entries|) + EncodeEntries(r.entries)));
    assert [] + x == x;
  }

  lemma RibSpecTurn(part: seq<byte>, timestamp: u32, seqnum: u32, afi: u16, safi: byte)
    ensures DecodeRibSpec(Fresh(BE32(seqnum) + part), timestamp, afi, safi, false)
         == DecodeRib(Fresh(part), timestamp, seqnum, afi, safi, true, false)
  {
    Read32(seqnum, part);
  }

  /** The subtype the writer picks leads the decoder to the same family. */
  lemma SubtypeSelects(c: Cursor, timestamp: u32, afi: u16, safi: byte)
    requires RibSubtype(afi, safi, true) != RIB_GENERIC
    ensures DecodeTableDumpV2(c, timestamp, RibSubtype(afi, safi, true)) == DecodeRibSpec(c, timestamp, afi, safi, false)
  {
  }

  lemma RibRoundTrip(r: Record)
    requires r.Rib? && RecordFits(r)
    ensures DecodeTableDumpV2(Fresh(Body(r)), r.timestamp, SubtypeOf(r)) == Decoded(Some(Norm(r)), None)
  {
    assert r.asAfiSafi;
    SubtypeSelects(Fresh(Body(r)), r.timestamp, r.afi, r.safi);
    RibSpecRoundTrip(r);
  }

  lemma MessageRoundTrip(r: Record)
    requires r.Message? && RecordFits(r)
    ensures DecodeMessage(Fresh(Body(r)), r.timestamp, |Body(r)|) == Decoded(Some(Norm(r)), None)
  {
    var m := r.message.value;
    var (head, body) := (BgpHeader.Encode(Packet.TypeOf(m), Packet.DeclaredSize(m)), Packet.Body(m));
    Packet.MessageRoundTrip(m);
    SessionRoundTrip(r.session, head + body);
    BgpHeader.HeaderRoundTrip(Packet.TypeOf(m), |body|, body);
    SplitConcat(head, body);
    ReadPart(head + body, []);
    assert head + body + [] == head + body;
  }

  lemma StateChangeRoundTrip(r: Record)
    requires r.StateChange? && RecordFits(r)
    ensures DecodeStateChange(Fresh(Body(r)), r.timestamp) == Decoded(Some(r), None)
  {
    SessionRoundTrip(r.session, BE16(r.oldState) + BE16(r.newState));
    Read16(r.oldState, BE16(r.newState));
    Read16(r.newState, []);
    assert BE16(r.newState) + [] == BE16(r.newState);
  }

  lemma BodyRoundTrip(r: Record)
    requires RecordFits(r)
    ensures DecodeBody(Body(r), r.timestamp, TypeOf(r), SubtypeOf(r)) == Decoded(Some(Norm(r)), None)
  {
    match r
    case PeerIndex(_, _, _, _) => PeerIndexRoundTripIff(r);
    case Rib(_, _, _, _, _, _, _) => RibRoundTrip(r);
    case Message(_, _, _) => MessageRoundTrip(r);
    case StateChange(_, _, _, _) => StateChangeRoundTrip(r);
  }

  /** What the decoder does with a header it wrote, and any body of the announced size. */
  lemma FramedBody(timestamp: u32, mrttype: u16, subtype: u16, body: seq<byte>, t: seq<byte>)
    requires |body| <= MAX_LENGTH
    ensures DecodeSingle(Header(timestamp, mrttype, subtype, |body|) + (body + t))
         == (DecodeBody(body, timestamp, mrttype, subtype), t)
  {
    hide DecodeBody, Header;
    var head := Header(timestamp, mrttype, subtype, |body|);
    HeaderFields(timestamp, mrttype, subtype, |body|, body + t);
    var b := head + (body + t);
    SplitConcat(head, body + t);
    SplitConcat(body, t);
    DropThenSlice(b, 12, 0, |body|);
  }

  lemma HeaderFields(timestamp: u32, mrttype: u16, subtype: u16, length: nat, t: seq<byte>)
    requires length <= MAX_LENGTH
    ensures var b := Header(timestamp, mrttype, subtype, length) + t;
      U32(b) == timestamp && U16(b[4..]) == mrttype && U16(b[6..]) == subtype && U32(b[8..]) == length
  {
    hide BE16, BE32, U16, U32;
    var b := Header(timestamp, mrttype, subtype, length) + t;
    Nest(BE32(timestamp), BE16(mrttype), BE16(subtype), BE32(length), t);
    SplitConcat(BE32(timestamp), BE16(mrttype) + (BE16(subtype) + (BE32(length) + t)));
    SplitConcat(BE16(mrttype), BE16(subtype) + (BE32(length) + t));
    SplitConcat(BE16(subtype), BE32(length) + t);
    DropThenSlice(b, 4, 2, |b| - 4);
    DropThenSlice(b, 6, 2, |b| - 6);
    BE32RoundTrip(timestamp, b[4..]);
    BE16RoundTrip(mrttype, b[6..]);
    BE16RoundTrip(subtype, b[8..]);
    BE32RoundTrip(length, t);
  }

  /** One written record is read back as its normal form, and exactly its octets are consumed. */
  lemma RecordRoundTrip(r: Record, t: seq<byte>)
    requires RecordFits(r)
    ensures DecodeSingle(Encode(r) + t) == (Decoded(Some(Norm(r)), None), t)
  {
    FittingIsMeasured(r);
    LenIsWritten(r);
    BodyRoundTrip(r);
    FramedBody(r.timestamp, TypeOf(r), SubtypeOf(r), Body(r), t);
    Assoc(Header(r.timestamp, TypeOf(r), SubtypeOf(r), Len(r)), Body(r), t);
  }

  // ---------------------------------------------------------------- streams

  /** `n` calls of `DecodeSingle` on one stream. */
  function DecodeMany(b: seq<byte>, n: nat): (seq<Decoded>, seq<byte>)
    decreases n
  {
    if n == 0 then ([], b)
    else
      var (d, rest) := DecodeSingle(b);
      var (l, end) := DecodeMany(rest, n - 1);
      ([d] + l, end)
  }

  function DecodedAs(l: seq<Record>): seq<Decoded> {
    if l == [] then [] else [Decoded(Some(Norm(l[0])), None)] + DecodedAs(l[1..])
  }

  lemma ManyStep(r: Record, t: seq<byte>, n: nat)
    requires RecordFits(r)
    ensures Writable(r)
    ensures DecodeMany(Encode(r) + t, n + 1) == ([Decoded(Some(Norm(r)), None)] + DecodeMany(t, n).0, DecodeMany(t, n).1)
  {
    RecordRoundTrip(r, t);
  }

  /** Reading the records written one after another returns exactly them, in order, without an error, and every octet is consumed. */
  lemma {:induction false} StreamRoundTrip(l: seq<Record>)
    requires forall r | r in l :: RecordFits(r)
    ensures (forall r | r in l :: Writable(r)) && DecodeMany(EncodeAll(l), |l|) == (DecodedAs(l), [])
  {
    hide DecodeSingle, Encode, RecordFits;
    if l != [] {
      assert RecordFits(l[0]);
      StreamRoundTrip(l[1..]);
      ManyStep(l[0], EncodeAll(l[1..]), |l| - 1);
    }
  }

  /**
    Whatever the type, and whatever becomes of the body, a record whose announced length is within the maximum and
    there takes exactly 12 octets and that length, and its outcome does not depend on what follows.
   */
  lemma FramingIgnoresBody(b: seq<byte>, t: seq<byte>)
    requires |b| >= 12 && U32(b[8..]) <= MAX_LENGTH && |b| == 12 + U32(b[8..])
    ensures DecodeSingle(b + t) == (DecodeSingle(b).0, t) && DecodeSingle(b).1 == []
  {
    hide DecodeBody;
    var end := |b|;
    SlicePrefix(b, t, 4, end);
    SlicePrefix(b, t, 6, end);
    SlicePrefix(b, t, 8, end);
    SlicePrefix(b, t, 12, end);
    SplitConcat(b, t);
    assert b[12..end] == b[12..] && b[end..] == [];
  }

  /** A record cut where its announced length ends, whatever it holds. */
  predicate Whole(b: seq<byte>) {
    |b| >= 12 && U32(b[8..]) <= MAX_LENGTH && |b| == 12 + U32(b[8..])
  }

  function Flatten(l: seq<seq<byte>>): seq<byte> {
    if l == [] then [] else l[0] + Flatten(l[1..])
  }

  function Outcomes(l: seq<seq<byte>>): seq<Decoded> {
    if l == [] then [] else [DecodeSingle(l[0]).0] + Outcomes(l[1..])
  }

  /** So however many records of a stream are damaged, and wherever: each has the outcome it has on its own. */
  lemma {:induction false} EachRecordAlone(l: seq<seq<byte>>)
    requires forall b | b in l :: Whole(b)
    ensures DecodeMany(Flatten(l), |l|) == (Outcomes(l), [])
  {
    hide DecodeSingle, Whole;
    if l != [] {
      assert Whole(l[0]);
      OneRecordAlone(l[0], Flatten(l[1..]));
      EachRecordAlone(l[1..]);
    }
  }

  lemma OneRecordAlone(b: seq<byte>, t: seq<byte>)
    requires Whole(b)
    ensures DecodeSingle(b + t) == (DecodeSingle(b).0, t)
  {
    FramingIgnoresBody(b, t);
  }

  /** And the records among them that were written, and fit, are read back in their places. */
  lemma LaterRecordsUnaffected(l: seq<seq<byte>>, i: nat, r: Record)
    requires (forall b | b in l :: Whole(b)) && i < |l| && RecordFits(r) && l[i] == Encode(r)
    ensures DecodeMany(Flatten(l), |l|) == (Outcomes(l), []) && |Outcomes(l)| == |l|
    ensures Outcomes(l)[i] == Decoded(Some(Norm(r)), None)
  {
    hide DecodeSingle, Whole, Encode;
    EachRecordAlone(l);
    OutcomeAt(l, i);
    RecordRoundTrip(r, []);
    assert Encode(r) + [] == Encode(r);
  }

  lemma {:induction false} OutcomeAt(l: seq<seq<byte>>, i: nat)
    requires i < |l|
    ensures |Outcomes(l)| == |l| && Outcomes(l)[i] == DecodeSingle(l[i]).0
  {
    hide DecodeSingle;
    if |l| > 1 {
      OutcomeAt(l[1..], if i > 0 then i - 1 else 0);
    } else {
      assert Outcomes(l[1..]) == [];
    }
  }

  // ---------------------------------------------------------------- where writer and reader part

  /** A generic RIB record announces one octet less than it writes, so reading it leaves the stream one octet early. */
  lemma GenericRibIsCutShort(r: Record, t: seq<byte>)
    requires r.Rib? && Writable(r) && RibSubtype(r.afi, r.safi, r.asAfiSafi) == RIB_GENERIC
    requires EntriesMeasured(r.entries) && Len(r) <= MAX_LENGTH
    ensures |Body(r)| == Len(r) + 1
    ensures |DecodeSingle(Encode(r) + t).1| == |t| + 1
  {
    EntriesCount(r.entries);
    var body := Body(r);
    var (most, last) := (body[..Len(r)], body[Len(r)..]);
    assert body == most + last;
    Assoc(Header(r.timestamp, TypeOf(r), SubtypeOf(r), Len(r)), body, t);
    Assoc(most, last, t);
    FramedBody(r.timestamp, TypeOf(r), SubtypeOf(r), most, last + t);
  }

  /**
    A TABLE_DUMP route keeps its prefix length exactly when it is no host route: /32 and /128 come out one bit short, and
    so does every length past the address.
   */
  lemma HostRouteIsCutIff(c: Cursor, timestamp: u32, subtype: u16, bits: byte, c1: Cursor)
    requires subtype == TABLE_DUMP_IPV4 || subtype == TABLE_DUMP_IPV6
    requires Read(Read(Read(Read(c, 2).1, 2).1, TableDumpSize(subtype)).1, 1) == ([bits], c1)
    ensures var d := DecodeTableDump(c, timestamp, subtype);
      d.DecodedTableDump? && |d.route.mask| == |d.route.ip| == TableDumpSize(subtype)
      && (Nlri.MaskSize(d.route.mask) == bits <==> bits < 8 * TableDumpSize(subtype))
  {
    var size := TableDumpSize(subtype);
    Nlri.MaskSizeInverts(CappedLength(bits, size), size);
  }
}
