/**
  MRT records and their wire form: the `Write` and `Len` methods of `mrt/mrt.go` (sections 2, 4.3 and 4.4 of RFC 6396).
 */
module Mrt {
  import opened Bytes
  import Nlri
  import A = Attributes
  import Packet

  const TABLE_DUMP: u16 := 12
  const TABLE_DUMPV2: u16 := 13
  const BGP4MP: u16 := 16

  const TABLE_DUMP_IPV4: u16 := 1
  const TABLE_DUMP_IPV6: u16 := 2

  const PEER_INDEX_TABLE: u16 := 1
  const RIB_IPV4_UNICAST: u16 := 2
  const RIB_IPV4_MULTICAST: u16 := 3
  const RIB_IPV6_UNICAST: u16 := 4
  const RIB_IPV6_MULTICAST: u16 := 5
  const RIB_GENERIC: u16 := 6
  const RIB_IPV4_UNICAST_ADDPATH: u16 := 8
  const RIB_IPV6_UNICAST_ADDPATH: u16 := 10
  const MESSAGE_AS4: u16 := 4
  const STATE_CHANGE_AS4: u16 := 5

  const MAX_LENGTH: nat := 0x10_0000

  datatype Peer = Peer(id: seq<byte>, ip: seq<byte>, asn: u32)

  datatype RibEntry = RibEntry(peerIndex: u16, origTime: u32, attributes: seq<A.Attribute>)

  /** The two ends of a session, as BGP4MP records carry them. */
  datatype Session = Session(peerAS: u32, localAS: u32, iface: u16, peerIP: seq<byte>, localIP: seq<byte>)

  datatype Record =
    | PeerIndex(timestamp: u32, collectorId: seq<byte>, viewName: seq<byte>, peers: seq<Peer>)
    | Rib(timestamp: u32, seqnum: u32, afi: u16, safi: byte, nlri: Option<Nlri.Prefix>, entries: seq<RibEntry>, asAfiSafi: bool)
    | Message(timestamp: u32, session: Session, message: Option<Packet.Message>)
    | StateChange(timestamp: u32, session: Session, oldState: u16, newState: u16)

  // ---------------------------------------------------------------- encoding

  /** The long-ASN bit is written as 4. */
  function EncodePeer(p: Peer): seq<byte> {
    [(if p.asn <= 0xffff then 0 else 4) + if IsIPv4(p.ip) then 0 else 1]
    + (To4(p.id) + ((if IsIPv4(p.ip) then To4(p.ip) else p.ip) + if p.asn <= 0xffff then BE16(p.asn) else BE32(p.asn)))
  }

  function EncodePeers(l: seq<Peer>): seq<byte> {
    if l == [] then [] else EncodePeer(l[0]) + EncodePeers(l[1..])
  }

  /** The attribute length is a 16-bit sum of the lengths the attributes announce. */
  function EncodeEntry(e: RibEntry): seq<byte>
    requires A.AllWritable(e.attributes)
  {
    BE16(e.peerIndex) + (BE32(e.origTime) + (BE16(A.DeclaredLenAll(e.attributes) % 0x1_0000) + A.EncodeAll(e.attributes)))
  }

  predicate EntriesWritable(l: seq<RibEntry>) {
    forall e | e in l :: A.AllWritable(e.attributes)
  }

  function EncodeEntries(l: seq<RibEntry>): seq<byte>
    requires EntriesWritable(l)
  {
    if l == [] then [] else EncodeEntry(l[0]) + EncodeEntries(l[1..])
  }

  /** `GetSubtype`: the family's own subtype, or the generic one. */
  function RibSubtype(afi: u16, safi: byte, asAfiSafi: bool): u16 {
    if !asAfiSafi then RIB_GENERIC
    else if afi == Nlri.AFI_IPV4 && safi == Nlri.SAFI_UNICAST then RIB_IPV4_UNICAST
    else if afi == Nlri.AFI_IPV4 && safi == Nlri.SAFI_MULTICAST then RIB_IPV4_MULTICAST
    else if afi == Nlri.AFI_IPV6 && safi == Nlri.SAFI_UNICAST then RIB_IPV6_UNICAST
    else if afi == Nlri.AFI_IPV6 && safi == Nlri.SAFI_MULTICAST then RIB_IPV6_MULTICAST
    else RIB_GENERIC
  }

  function EncodeSession(s: Session): seq<byte> {
    BE32(s.peerAS) + (BE32(s.localAS) + (BE16(s.iface) +
      if IsIPv4(s.peerIP) then BE16(Nlri.AFI_IPV4) + (To4(s.peerIP) + To4(s.localIP))
      else BE16(Nlri.AFI_IPV6) + (s.peerIP + s.localIP)))
  }

  /** The writers dereference the prefix of a RIB record and the message of a message record. */
  predicate Writable(r: Record) {
    match r
    case Rib(_, _, _, _, nlri, entries, _) => nlri.Some? && Nlri.Writable(nlri.value) && EntriesWritable(entries)
    case Message(_, _, message) => message.Some? && Packet.Writable(message.value)
    case _ => true
  }

  function Body(r: Record): seq<byte>
    requires Writable(r)
  {
    match r
    case PeerIndex(_, id, name, peers) =>
      To4(id) + (BE16(|name| % 0x1_0000) + (name + (BE16(|peers| % 0x1_0000) + EncodePeers(peers))))
    case Rib(_, seqnum, afi, safi, nlri, entries, asAfiSafi) =>
      (if RibSubtype(afi, safi, asAfiSafi) == RIB_GENERIC then BE16(afi) + [safi] else [])
      + (BE32(seqnum) + (Nlri.Encode(nlri.value, false) + (BE16(|entries| % 0x1_0000) + EncodeEntries(entries))))
    case Message(_, session, message) => EncodeSession(session) + Packet.Encode(message.value)
    case StateChange(_, session, oldState, newState) => EncodeSession(session) + (BE16(oldState) + BE16(newState))
  }

  function TypeOf(r: Record): u16 {
    if r.PeerIndex? || r.Rib? then TABLE_DUMPV2 else BGP4MP
  }

  function SubtypeOf(r: Record): u16 {
    match r
    case PeerIndex(_, _, _, _) => PEER_INDEX_TABLE
    case Rib(_, _, afi, safi, _, _, asAfiSafi) => RibSubtype(afi, safi, asAfiSafi)
    case Message(_, _, _) => MESSAGE_AS4
    case StateChange(_, _, _, _) => STATE_CHANGE_AS4
  }

  // ---------------------------------------------------------------- announced lengths

  function PeerLen(p: Peer): nat {
    1 + 4 + (if IsIPv4(p.ip) then 4 else 16) + if p.asn <= 0xffff then 2 else 4
  }

  function PeersLen(l: seq<Peer>): nat {
    if l == [] then 0 else PeerLen(l[0]) + PeersLen(l[1..])
  }

  function EntryLen(e: RibEntry): nat
    requires A.AllWritable(e.attributes)
  {
    2 + 4 + 2 + A.DeclaredLenAll(e.attributes)
  }

  function EntriesLen(l: seq<RibEntry>): nat
    requires EntriesWritable(l)
  {
    if l == [] then 0 else EntryLen(l[0]) + EntriesLen(l[1..])
  }

  function SessionLen(s: Session): nat {
    4 + 4 + 2 + 2 + 2 * if IsIPv4(s.peerIP) then 4 else 16
  }

  /** `Len`: for a generic RIB record the three octets of its family are counted as two. */
  function Len(r: Record): nat
    requires Writable(r)
  {
    match r
    case PeerIndex(_, _, name, peers) => 4 + 2 + |name| + 2 + PeersLen(peers)
    case Rib(_, _, afi, safi, nlri, entries, asAfiSafi) =>
      4 + |Nlri.Encode(nlri.value, false)| + 2
      + (if RibSubtype(afi, safi, asAfiSafi) == RIB_GENERIC then 2 else 0) + EntriesLen(entries)
    case Message(_, session, message) => SessionLen(session) + 19 + Packet.DeclaredSize(message.value)
    case StateChange(_, session, _, _) => SessionLen(session) + 2 + 2
  }

  function Header(timestamp: u32, mrttype: u16, subtype: u16, length: nat): (r: seq<byte>)
    ensures |r| == 12
  {
    BE32(timestamp) + (BE16(mrttype) + (BE16(subtype) + BE32(length % 0x1_0000_0000)))
  }

  function Encode(r: Record): seq<byte>
    requires Writable(r)
  {
    Header(r.timestamp, TypeOf(r), SubtypeOf(r), Len(r)) + Body(r)
  }

  function EncodeAll(l: seq<Record>): seq<byte>
    requires forall r | r in l :: Writable(r)
  {
    if l == [] then [] else Encode(l[0]) + EncodeAll(l[1..])
  }

  // ---------------------------------------------------------------- writers

  method WriteCommonHeader(w: Buffer, timestamp: u32, mrttype: u16, subtype: u16, length: nat)
    modifies w
    ensures w.data == old(w.data) + Header(timestamp, mrttype, subtype, length)
  {
    w.PutU32(timestamp);
    w.PutU16(mrttype);
    w.PutU16(subtype);
    w.PutU32(length % 0x1_0000_0000);
  }

  method WritePeer(p: Peer, w: Buffer)
    modifies w
    ensures w.data == old(w.data) + EncodePeer(p)
  {
    ghost var before := w.data;
    var newip := p.ip;
    var firstbit := 1;
    if To4(newip) != [] {
      newip := To4(newip);
      firstbit := 0;
    }
    var longasn := 1;
    if p.asn <= 0xffff {
      longasn := 0;
    }
    w.PutByte(4 * longasn + firstbit);
    w.PutBytes(To4(p.id));
    w.PutBytes(newip);
    if longasn == 1 {
      w.PutU32(p.asn);
    } else {
      w.PutU16(p.asn);
    }
    Nest4(before, [4 * longasn + firstbit], To4(p.id), newip, if longasn == 1 then BE32(p.asn) else BE16(p.asn));
  }

  lemma Nest4(s: seq<byte>, a: seq<byte>, b: seq<byte>, c: seq<byte>, d: seq<byte>)
    ensures s + a + b + c + d == s + (a + (b + (c + d)))
  {
    Assoc(s + a + b, c, d);
    Assoc(s + a, b, c + d);
    Assoc(s, a, b + (c + d));
  }

  method WriteEntry(e: RibEntry, w: Buffer)
    requires A.AllWritable(e.attributes)
    modifies w
    ensures w.data == old(w.data) + EncodeEntry(e)
  {
    ghost var before := w.data;
    w.PutU16(e.peerIndex);
    w.PutU32(e.origTime);
    var size := A.LenAll(e.attributes);
    w.PutU16(size % 0x1_0000);
    A.WriteAll(e.attributes, w);
    Nest4(before, BE16(e.peerIndex), BE32(e.origTime), BE16(size % 0x1_0000), A.EncodeAll(e.attributes));
  }

  method WritePeers(l: seq<Peer>, w: Buffer)
    modifies w
    ensures w.data == old(w.data) + EncodePeers(l)
  {
    for i := 0 to |l|
      invariant w.data + EncodePeers(l[i..]) == old(w.data) + EncodePeers(l)
    {
      assert l[i..][1..] == l[i + 1..];
      Assoc(w.data, EncodePeer(l[i]), EncodePeers(l[i + 1..]));
      WritePeer(l[i], w);
    }
  }

  method WriteEntries(l: seq<RibEntry>, w: Buffer)
    requires EntriesWritable(l)
    modifies w
    ensures w.data == old(w.data) + EncodeEntries(l)
  {
    for i := 0 to |l|
      invariant w.data + EncodeEntries(l[i..]) == old(w.data) + EncodeEntries(l)
    {
      assert l[i..][1..] == l[i + 1..];
      Assoc(w.data, EncodeEntry(l[i]), EncodeEntries(l[i + 1..]));
      WriteEntry(l[i], w);
    }
  }

  method WriteSession(s: Session, w: Buffer)
    modifies w
    ensures w.data == old(w.data) + EncodeSession(s)
  {
    ghost var before := w.data;
    w.PutU32(s.peerAS);
    w.PutU32(s.localAS);
    w.PutU16(s.iface);
    ghost var start := w.data;
    ghost var ips: seq<byte>;
    if IsIPv4(s.peerIP) {
      w.PutU16(Nlri.AFI_IPV4);
      w.PutBytes(To4(s.peerIP));
      w.PutBytes(To4(s.localIP));
      ips := BE16(Nlri.AFI_IPV4) + (To4(s.peerIP) + To4(s.localIP));
    } else {
      w.PutU16(Nlri.AFI_IPV6);
      w.PutBytes(s.peerIP);
      w.PutBytes(s.localIP);
      ips := BE16(Nlri.AFI_IPV6) + (s.peerIP + s.localIP);
    }
    assert w.data == start + ips;
    Nest4(before, BE32(s.peerAS), BE32(s.localAS), BE16(s.iface), ips);
  }

  method PeersLength(l: seq<Peer>) returns (sum: nat)
    ensures sum == PeersLen(l)
  {
    sum := 0;
    for i := 0 to |l|
      invariant sum + PeersLen(l[i..]) == PeersLen(l)
    {
      sum := sum + PeerLen(l[i]);
      assert l[i..][1..] == l[i + 1..];
    }
  }

  method EntriesLength(l: seq<RibEntry>) returns (size: nat)
    requires EntriesWritable(l)
    ensures size == EntriesLen(l)
  {
    size := 0;
    for i := 0 to |l|
      invariant size + EntriesLen(l[i..]) == EntriesLen(l)
    {
      var n := A.LenAll(l[i].attributes);
      size := size + 2 + 4 + 2 + n;
      assert l[i..][1..] == l[i + 1..];
    }
  }

  method ComputeLen(r: Record) returns (len: nat)
    requires Writable(r)
    ensures len == Len(r)
  {
    match r
    case PeerIndex(_, _, name, peers) =>
      var sum := PeersLength(peers);
      len := 4 + 2 + |name| + 2 + sum;
    case Rib(_, _, afi, safi, nlri, entries, asAfiSafi) =>
      len := 4 + Nlri.Len(nlri.value, false) + 2;
      if RibSubtype(afi, safi, asAfiSafi) == RIB_GENERIC {
        len := len + 2;
      }
      var sum := EntriesLength(entries);
      len := len + sum;
    case Message(_, session, message) => len := SessionLen(session) + 19 + Packet.DeclaredSize(message.value);
    case StateChange(_, session, _, _) => len := SessionLen(session) + 2 + 2;
  }

  method WriteBody(r: Record, w: Buffer)
    requires Writable(r)
    modifies w
    ensures w.data == old(w.data) + Body(r)
  {
    ghost var before := w.data;
    match r
    case PeerIndex(_, id, name, peers) =>
      w.PutBytes(To4(id));
      w.PutU16(|name| % 0x1_0000);
      w.PutBytes(name);
      w.PutU16(|peers| % 0x1_0000);
      ghost var start := w.data;
      WritePeers(peers, w);
      Assoc(before + To4(id) + BE16(|name| % 0x1_0000) + name, BE16(|peers| % 0x1_0000), EncodePeers(peers));
      Nest4(before, To4(id), BE16(|name| % 0x1_0000), name, BE16(|peers| % 0x1_0000) + EncodePeers(peers));
    case Rib(_, seqnum, afi, safi, nlri, entries, asAfiSafi) =>
      ghost var family: seq<byte> := [];
      assert before + [] == before;
      if RibSubtype(afi, safi, asAfiSafi) == RIB_GENERIC {
        w.PutU16(afi);
        w.PutByte(safi);
        family := BE16(afi) + [safi];
        Assoc(before, BE16(afi), [safi]);
      }
      w.PutU32(seqnum);
      Nlri.Write(nlri.value, w, false);
      w.PutU16(|entries| % 0x1_0000);
      WriteEntries(entries, w);
      Assoc(before + family + BE32(seqnum) + Nlri.Encode(nlri.value, false), BE16(|entries| % 0x1_0000), EncodeEntries(entries));
      Nest4(before, family, BE32(seqnum), Nlri.Encode(nlri.value, false), BE16(|entries| % 0x1_0000) + EncodeEntries(entries));
    case Message(_, session, message) =>
      WriteSession(session, w);
      Packet.Write(message.value, w);
      Assoc(before, EncodeSession(session), Packet.Encode(message.value));
    case StateChange(_, session, oldState, newState) =>
      WriteSession(session, w);
      w.PutU16(oldState);
      w.PutU16(newState);
      Assoc(before + EncodeSession(session), BE16(oldState), BE16(newState));
      Assoc(before, EncodeSession(session), BE16(oldState) + BE16(newState));
  }

  method Write(r: Record, w: Buffer)
    requires Writable(r)
    modifies w
    ensures w.data == old(w.data) + Encode(r)
  {
    ghost var before := w.data;
    var len := ComputeLen(r);
    WriteCommonHeader(w, r.timestamp, TypeOf(r), SubtypeOf(r), len);
    WriteBody(r, w);
    Assoc(before, Header(r.timestamp, TypeOf(r), SubtypeOf(r), len), Body(r));
  }
}
