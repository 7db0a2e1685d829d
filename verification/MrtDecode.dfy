/** `DecodeSingle` and the record decoders of `mrt/mrt.go`. */
module MrtDecode {
  import opened Bytes
  import opened Mrt
  import opened MrtReader
  import Nlri
  import A = Attributes
  import BgpHeader
  import Packet

  datatype MrtError =
    | NotARecord | UnknownType | UnknownSubtype | NegativeLength | BadBgpHeader(h: BgpHeader.HeaderError) | BgpTooLong
    | BadPacket(p: Packet.PacketError) | BadFamily | BadPrefix | BadAttributes(a: A.AttrError)

  /** A route of the first TABLE_DUMP format, for which there is no writer. */
  datatype TableDump = TableDump(
    timestamp: u32, view: u16, seqnum: u16, ip: seq<byte>, mask: seq<byte>, origTime: u32, peerIP: seq<byte>, peerAS: u16,
    attributes: seq<A.Attribute>)

  /** The two results of the decoders: a record may come with an error, and both may be nil. */
  datatype Decoded =
    | Decoded(record: Option<Record>, err: Option<MrtError>)
    | DecodedTableDump(route: TableDump, err: Option<MrtError>)

  // ---------------------------------------------------------------- the decoders as functions

  function DecodePeer(c: Cursor): (Peer, Cursor) {
    var (peertype, c1) := Read(c, 1);
    var (id, c2) := Read(c1, 4);
    var (ip, c3) := Read(c2, if peertype[0] % 2 == 1 then 16 else 4);
    var sizeasn := if peertype[0] / 2 % 2 == 1 then 4 else 2;
    var (asn, c4) := Read(c3, sizeasn);
    (Peer(id, ip, if sizeasn == 2 then U16(asn) else U32(asn)), c4)
  }

  function DecodePeers(c: Cursor, n: nat): (seq<Peer>, Cursor)
    decreases n
  {
    if n == 0 then ([], c)
    else
      var (p, d) := DecodePeer(c);
      var (l, e) := DecodePeers(d, n - 1);
      ([p] + l, e)
  }

  function DecodePeerIndex(c: Cursor, timestamp: u32): Record {
    var (id, c1) := Read(c, 4);
    var (namelen, c2) := Read(c1, 2);
    var (name, c3) := Read(c2, U16(namelen));
    var (count, c4) := Read(c3, 2);
    PeerIndex(timestamp, id, name, DecodePeers(c4, U16(count)).0)
  }

  /** One RIB entry; the attributes before an error are kept with it. */
  function DecodeEntry(c: Cursor, addpath: bool): ((RibEntry, Option<A.AttrError>), Cursor) {
    var (index, c1) := Read(c, 2);
    var (time, c2) := Read(c1, 4);
    var c3 := if addpath then Read(c2, 4).1 else c2;
    var (len, c4) := Read(c3, 2);
    var (b, c5) := Read(c4, U16(len));
    var r := A.Parse(b, [], false);
    ((RibEntry(U16(index), U32(time), r.attributes), r.err), c5)
  }

  /** All entries; only the error of the last one is kept. */
  function DecodeEntries(c: Cursor, n: nat, addpath: bool): (seq<RibEntry>, Option<A.AttrError>)
    decreases n
  {
    if n == 0 then ([], None)
    else
      var ((e, err), d) := DecodeEntry(c, addpath);
      var (l, lasterr) := DecodeEntries(d, n - 1, addpath);
      ([e] + l, if n == 1 then err else lasterr)
  }

  /** The octets of one prefix, decoded as a list that must hold exactly it. */
  function DecodePrefix(c: Cursor, afi: u16): (Nlri.NlriResult, Cursor) {
    var (bits, c1) := Read(c, 1);
    var (octets, c2) := Read(c1, Nlri.ByteLen(bits[0]));
    (Nlri.Parse(bits + octets, afi, false), c2)
  }

  /** The part shared by all RIB records, from the prefix on. */
  function DecodeRib(c: Cursor, timestamp: u32, seqnum: u32, afi: u16, safi: byte, asAfiSafi: bool, addpath: bool): Decoded {
    var (r, c1) := DecodePrefix(c, afi);
    if |r.list| != 1 then Decoded(Some(Rib(timestamp, seqnum, afi, safi, None, [], asAfiSafi)), Some(BadPrefix))
    else if r.err.Some? then Decoded(Some(Rib(timestamp, seqnum, afi, safi, Some(r.list[0]), [], asAfiSafi)), Some(BadPrefix))
    else
      var (count, c2) := Read(c1, 2);
      var (entries, err) := DecodeEntries(c2, U16(count), addpath);
      Decoded(Some(Rib(timestamp, seqnum, afi, safi, Some(r.list[0]), entries, asAfiSafi)),
              if err.Some? then Some(BadAttributes(err.value)) else None)
  }

  function DecodeRibSpec(c: Cursor, timestamp: u32, afi: u16, safi: byte, addpath: bool): Decoded {
    var (seqnum, c1) := Read(c, 4);
    DecodeRib(c1, timestamp, U32(seqnum), afi, safi, true, addpath)
  }

  /** The generic record is read as sequence number, then family. */
  function DecodeRibGeneric(c: Cursor, timestamp: u32): Decoded {
    var (seqnum, c1) := Read(c, 4);
    var (afi, c2) := Read(c1, 2);
    var (safi, c3) := Read(c2, 1);
    if !Nlri.KnownAfi(U16(afi)) || (safi[0] != Nlri.SAFI_UNICAST && safi[0] != Nlri.SAFI_MULTICAST) then
      Decoded(Some(Rib(timestamp, U32(seqnum), U16(afi), safi[0], None, [], false)), Some(BadFamily))
    else DecodeRib(c3, timestamp, U32(seqnum), U16(afi), safi[0], false, false)
  }

  function DecodeTableDumpV2(c: Cursor, timestamp: u32, subtype: u16): Decoded {
    if subtype == PEER_INDEX_TABLE then Decoded(Some(DecodePeerIndex(c, timestamp)), None)
    else if subtype == RIB_GENERIC then DecodeRibGeneric(c, timestamp)
    else if subtype == RIB_IPV4_UNICAST then DecodeRibSpec(c, timestamp, Nlri.AFI_IPV4, Nlri.SAFI_UNICAST, false)
    else if subtype == RIB_IPV6_UNICAST then DecodeRibSpec(c, timestamp, Nlri.AFI_IPV6, Nlri.SAFI_UNICAST, false)
    else if subtype == RIB_IPV4_MULTICAST then DecodeRibSpec(c, timestamp, Nlri.AFI_IPV4, Nlri.SAFI_MULTICAST, false)
    else if subtype == RIB_IPV6_MULTICAST then DecodeRibSpec(c, timestamp, Nlri.AFI_IPV6, Nlri.SAFI_MULTICAST, false)
    else if subtype == RIB_IPV4_UNICAST_ADDPATH then DecodeRibSpec(c, timestamp, Nlri.AFI_IPV4, Nlri.SAFI_UNICAST, true)
    else if subtype == RIB_IPV6_UNICAST_ADDPATH then DecodeRibSpec(c, timestamp, Nlri.AFI_IPV6, Nlri.SAFI_UNICAST, true)
    else Decoded(None, Some(UnknownSubtype))
  }

  function DecodeSession(c: Cursor): (Session, Cursor) {
    var (peeras, c1) := Read(c, 4);
    var (localas, c2) := Read(c1, 4);
    var (iface, c3) := Read(c2, 2);
    var (afi, c4) := Read(c3, 2);
    var sizeip := if U16(afi) == Nlri.AFI_IPV6 then 16 else 4;
    var (peerip, c5) := Read(c4, sizeip);
    var (localip, c6) := Read(c5, sizeip);
    (Session(U32(peeras), U32(localas), U16(iface), peerip, localip), c6)
  }

  function SessionSize(s: Session): nat {
    4 + 4 + 2 + 2 + 2 * |s.peerIP|
  }

  function DecodeMessage(c: Cursor, timestamp: u32, length: nat): Decoded {
    var (session, c1) := DecodeSession(c);
    if length < SessionSize(session) then Decoded(None, Some(NegativeLength))
    else
      var (msg, _) := Read(c1, length - SessionSize(session));
      match BgpHeader.ParsePacketHeader(msg)
      case Err(e) => Decoded(None, Some(BadBgpHeader(e)))
      case Ok(h) =>
        if h.length + 19 > |msg| then Decoded(None, Some(BgpTooLong))
        else
          var r := Packet.ParsePacket(h.bgptype, msg[19..19 + h.length]);
          Decoded(Some(Message(timestamp, session, r.message)), if r.err.Some? then Some(BadPacket(r.err.value)) else None)
  }

  /** The reader's error is not looked at: a short state change is padded with zeros. */
  function DecodeStateChange(c: Cursor, timestamp: u32): Decoded {
    var (session, c1) := DecodeSession(c);
    var (oldstate, c2) := Read(c1, 2);
    var (newstate, _) := Read(c2, 2);
    Decoded(Some(StateChange(timestamp, session, U16(oldstate), U16(newstate))), None)
  }

  /** The octets of an address of the subtype; none for a subtype that is neither IPv4 nor IPv6. */
  function TableDumpSize(subtype: u16): nat {
    if subtype == TABLE_DUMP_IPV4 then 4 else if subtype == TABLE_DUMP_IPV6 then 16 else 0
  }

  /** A prefix length as long as the address, or longer, becomes one bit less than the address. */
  function CappedLength(bits: byte, size: nat): nat {
    if bits >= 8 * size > 0 then 8 * size - 1 else bits
  }

  /** Attributes are in two-octet form, and none are kept next to an error. */
  function DecodeTableDump(c: Cursor, timestamp: u32, subtype: u16): Decoded {
    var size := TableDumpSize(subtype);
    var (view, c1) := Read(c, 2);
    var (seqnum, c2) := Read(c1, 2);
    var (ip, c3) := Read(c2, size);
    var (bits, c4) := Read(c3, 1);
    var (_, c5) := Read(c4, 1);
    var (time, c6) := Read(c5, 4);
    var (peerIP, c7) := Read(c6, size);
    var (peerAS, c8) := Read(c7, 2);
    var (attrlen, c9) := Read(c8, 2);
    var r := A.Parse(Read(c9, U16(attrlen)).0, [], true);
    var route := TableDump(timestamp, U16(view), U16(seqnum), ip, Nlri.Mask(CappedLength(bits[0], size), size), U32(time),
                           peerIP, U16(peerAS), if r.err.None? then r.attributes else []);
    DecodedTableDump(route, if r.err.Some? then Some(BadAttributes(r.err.value)) else None)
  }

  /** The `switch` on the record type. Another BGP4MP subtype gives neither record nor error. */
  function DecodeBody(content: seq<byte>, timestamp: u32, mrttype: u16, subtype: u16): Decoded {
    var c := Cursor(content, false);
    if mrttype == BGP4MP then
      if subtype == MESSAGE_AS4 then DecodeMessage(c, timestamp, |content|)
      else if subtype == STATE_CHANGE_AS4 then DecodeStateChange(c, timestamp)
      else Decoded(None, None)
    else if mrttype == TABLE_DUMPV2 then DecodeTableDumpV2(c, timestamp, subtype)
    else if mrttype == TABLE_DUMP then DecodeTableDump(c, timestamp, subtype)
    else Decoded(None, Some(UnknownType))
  }

  /** One record from a stream, and the stream after it. */
  function DecodeSingle(b: seq<byte>): (r: (Decoded, seq<byte>))
    ensures |r.1| <= |b|
  {
    if |b| < 12 then (Decoded(None, Some(NotARecord)), [])
    else
      var length := U32(b[8..]);
      if length > MAX_LENGTH then (Decoded(None, Some(NotARecord)), b[12..])
      else if 12 + length > |b| then (Decoded(None, Some(NotARecord)), [])
      else
        var end := 12 + length as int;
        (DecodeBody(b[12..end], U32(b), U16(b[4..]), U16(b[6..])), b[end..])
  }

  // ---------------------------------------------------------------- the decoders over a reader

  method ReadPeer(r: ByteReader) returns (p: Peer)
    requires r.Valid()
    modifies r
    ensures r.Valid() && (p, r.View()) == DecodePeer(old(r.View()))
  {
    var peertype := r.ReadUint8();
    var id := r.ReadBytes(4);
    var sizeip := 4;
    var sizeasn := 2;
    if peertype / 2 % 2 == 1 {
      sizeasn := 4;
    }
    if peertype % 2 == 1 {
      sizeip := 16;
    }
    var ip := r.ReadBytes(sizeip);
    var asn := r.ReadBytes(sizeasn);
    p := Peer(id, ip, if sizeasn == 2 then U16(asn) else U32(asn));
  }

  lemma PeersStep(l: seq<Peer>, c: Cursor, n: nat)
    requires n > 0
    ensures (l + DecodePeers(c, n).0, DecodePeers(c, n).1)
         == (l + [DecodePeer(c).0] + DecodePeers(DecodePeer(c).1, n - 1).0, DecodePeers(DecodePeer(c).1, n - 1).1)
  {
    Assoc(l, [DecodePeer(c).0], DecodePeers(DecodePeer(c).1, n - 1).0);
  }

  method ReadPeers(r: ByteReader, count: nat) returns (peers: seq<Peer>)
    requires r.Valid()
    modifies r
    ensures r.Valid() && (peers, r.View()) == DecodePeers(old(r.View()), count)
  {
    peers := [];
    ghost var whole := DecodePeers(r.View(), count);
    assert [] + whole.0 == whole.0;
    for i := 0 to count
      invariant r.Valid()
      invariant whole.0 == peers + DecodePeers(r.View(), count - i).0
      invariant whole.1 == DecodePeers(r.View(), count - i).1
    {
      PeersStep(peers, r.View(), count - i);
      var p := ReadPeer(r);
      peers := peers + [p];
    }
    assert peers + [] == peers;
  }

  method ReadPeerIndex(r: ByteReader, timestamp: u32) returns (record: Record)
    requires r.Valid()
    modifies r
    ensures r.Valid() && record == DecodePeerIndex(old(r.View()), timestamp)
  {
    var collid := r.ReadBytes(4);
    var viewnamelen := r.ReadUint16();
    var viewname := r.ReadBytes(viewnamelen);
    var peercount := r.ReadUint16();
    var peers := ReadPeers(r, peercount);
    record := PeerIndex(timestamp, collid, viewname, peers);
  }

  method ReadEntry(r: ByteReader, addpath: bool) returns (e: RibEntry, err: Option<A.AttrError>)
    requires r.Valid()
    modifies r
    ensures r.Valid() && ((e, err), r.View()) == DecodeEntry(old(r.View()), addpath)
  {
    var peerindex := r.ReadUint16();
    var origints := r.ReadUint32();
    if addpath {
      var _ := r.ReadUint32();
    }
    var attrlen := r.ReadUint16();
    var b := r.ReadBytes(attrlen);
    var attrs, aerr := A.ParsePathAttribute(b, [], false);
    assert A.AttrResult(attrs, aerr) == A.Parse(b, [], false);
    e := RibEntry(peerindex, origints, attrs);
    err := aerr;
  }

  lemma EntriesStep(l: seq<RibEntry>, c: Cursor, n: nat, addpath: bool)
    requires n > 0
    ensures l + DecodeEntries(c, n, addpath).0
         == l + [DecodeEntry(c, addpath).0.0] + DecodeEntries(DecodeEntry(c, addpath).1, n - 1, addpath).0
    ensures DecodeEntries(c, n, addpath).1
         == if n == 1 then DecodeEntry(c, addpath).0.1 else DecodeEntries(DecodeEntry(c, addpath).1, n - 1, addpath).1
  {
    Assoc(l, [DecodeEntry(c, addpath).0.0], DecodeEntries(DecodeEntry(c, addpath).1, n - 1, addpath).0);
  }

  method ReadEntries(r: ByteReader, count: nat, addpath: bool) returns (entries: seq<RibEntry>, errentry: Option<A.AttrError>)
    requires r.Valid()
    modifies r
    ensures r.Valid() && (entries, errentry) == DecodeEntries(old(r.View()), count, addpath)
  {
    entries := [];
    errentry := None;
    ghost var whole := DecodeEntries(r.View(), count, addpath);
    assert [] + whole.0 == whole.0;
    for i := 0 to count
      invariant r.Valid()
      invariant whole.0 == entries + DecodeEntries(r.View(), count - i, addpath).0
      invariant whole.1 == if i == count then errentry else DecodeEntries(r.View(), count - i, addpath).1
    {
      EntriesStep(entries, r.View(), count - i, addpath);
      var e, err := ReadEntry(r, addpath);
      errentry := err;
      entries := entries + [e];
    }
    assert entries + [] == entries;
  }

  method ReadRib(r: ByteReader, timestamp: u32, seqnum: u32, afi: u16, safi: byte, asAfiSafi: bool, addpath: bool)
    returns (d: Decoded)
    requires r.Valid()
    modifies r
    ensures r.Valid() && d == DecodeRib(old(r.View()), timestamp, seqnum, afi, safi, asAfiSafi, addpath)
  {
    hide Nlri.Parse, DecodeEntries;
    var preflen := r.ReadUint8();
    var size := preflen / 8;
    if preflen % 8 != 0 {
      size := size + 1;
    }
    var prefix := r.ReadBytes(size);
    var list, err := Nlri.ParseNLRI([preflen] + prefix, afi, false);
    assert Nlri.NlriResult(list, err) == Nlri.Parse([preflen] + prefix, afi, false);
    assert [preflen] == Read(old(r.View()), 1).0;
    if |list| != 1 {
      return Decoded(Some(Rib(timestamp, seqnum, afi, safi, None, [], asAfiSafi)), Some(BadPrefix));
    }
    if err.Some? {
      return Decoded(Some(Rib(timestamp, seqnum, afi, safi, Some(list[0]), [], asAfiSafi)), Some(BadPrefix));
    }
    var entrycount := r.ReadUint16();
    var entries, errentry := ReadEntries(r, entrycount, addpath);
    d := Decoded(Some(Rib(timestamp, seqnum, afi, safi, Some(list[0]), entries, asAfiSafi)),
                 if errentry.Some? then Some(BadAttributes(errentry.value)) else None);
  }

  method ReadTableDumpV2(r: ByteReader, timestamp: u32, subtype: u16) returns (d: Decoded)
    requires r.Valid()
    modifies r
    ensures d == DecodeTableDumpV2(old(r.View()), timestamp, subtype)
  {
    if subtype == PEER_INDEX_TABLE {
      var record := ReadPeerIndex(r, timestamp);
      return Decoded(Some(record), None);
    }
    if subtype == RIB_GENERIC {
      var seqnum := r.ReadUint32();
      var afi := r.ReadUint16();
      var safi := r.ReadUint8();
      if !Nlri.KnownAfi(afi) || (safi != Nlri.SAFI_UNICAST && safi != Nlri.SAFI_MULTICAST) {
        return Decoded(Some(Rib(timestamp, seqnum, afi, safi, None, [], false)), Some(BadFamily));
      }
      d := ReadRib(r, timestamp, seqnum, afi, safi, false, false);
      return;
    }
    if subtype < RIB_IPV4_UNICAST || subtype == 7 || subtype == 9 || subtype > RIB_IPV6_UNICAST_ADDPATH {
      return Decoded(None, Some(UnknownSubtype));
    }
    var afi, safi := Nlri.AFI_IPV6, Nlri.SAFI_UNICAST;
    if subtype == RIB_IPV4_UNICAST || subtype == RIB_IPV4_UNICAST_ADDPATH || subtype == RIB_IPV4_MULTICAST {
      afi := Nlri.AFI_IPV4;
    }
    if subtype == RIB_IPV4_MULTICAST || subtype == RIB_IPV6_MULTICAST {
      safi := Nlri.SAFI_MULTICAST;
    }
    var seqnum := r.ReadUint32();
    d := ReadRib(r, timestamp, seqnum, afi, safi, true, subtype >= RIB_IPV4_UNICAST_ADDPATH);
  }

  method ReadSession(r: ByteReader) returns (s: Session)
    requires r.Valid()
    modifies r
    ensures r.Valid() && (s, r.View()) == DecodeSession(old(r.View()))
  {
    var peeras := r.ReadUint32();
    var localas := r.ReadUint32();
    var ifaceindex := r.ReadUint16();
    var afi := r.ReadUint16();
    var sizeip := 4;
    if afi == Nlri.AFI_IPV6 {
      sizeip := 16;
    }
    var peerip := r.ReadBytes(sizeip);
    var localip := r.ReadBytes(sizeip);
    s := Session(peeras, localas, ifaceindex, peerip, localip);
  }

  method ReadMessage(r: ByteReader, timestamp: u32, length: nat) returns (d: Decoded)
    requires r.Valid()
    modifies r
    ensures d == DecodeMessage(old(r.View()), timestamp, length)
  {
    hide DecodeSession, Packet.ParsePacket, BgpHeader.ParsePacketHeader;
    var session := ReadSession(r);
    var headerLen := 4 + 4 + 2 + 2 + 2 * |session.peerIP|;
    if length < headerLen {
      return Decoded(None, Some(NegativeLength));
    }
    var msg := r.ReadBytes(length - headerLen);
    var h := BgpHeader.ParsePacketHeader(msg);
    if h.Err? {
      return Decoded(None, Some(BadBgpHeader(h.error)));
    }
    var end := 19 + h.value.length;
    if end > |msg| {
      return Decoded(None, Some(BgpTooLong));
    }
    var message, err := Packet.Read(h.value.bgptype, msg[19..end]);
    assert Packet.PacketResult(message, err) == Packet.ParsePacket(h.value.bgptype, msg[19..end]);
    d := Decoded(Some(Message(timestamp, session, message)), if err.Some? then Some(BadPacket(err.value)) else None);
  }

  method ReadStateChange(r: ByteReader, timestamp: u32) returns (d: Decoded)
    requires r.Valid()
    modifies r
    ensures d == DecodeStateChange(old(r.View()), timestamp)
  {
    var session := ReadSession(r);
    var oldstate := r.ReadUint16();
    var newstate := r.ReadUint16();
    d := Decoded(Some(StateChange(timestamp, session, oldstate, newstate)), None);
  }

  method CappedMask(subtype: u16, prefixLen: byte) returns (mask: seq<byte>)
    ensures mask == Nlri.Mask(CappedLength(prefixLen, TableDumpSize(subtype)), TableDumpSize(subtype))
  {
    mask := [];
    if subtype == TABLE_DUMP_IPV4 {
      mask := Nlri.Mask(if prefixLen >= 32 then 31 else prefixLen, 4);
    } else if subtype == TABLE_DUMP_IPV6 {
      mask := Nlri.Mask(if prefixLen >= 128 then 127 else prefixLen, 16);
    }
  }

  method ReadAddress(r: ByteReader, subtype: u16) returns (ip: seq<byte>)
    requires r.Valid()
    modifies r
    ensures r.Valid() && (ip, r.View()) == Read(old(r.View()), TableDumpSize(subtype))
  {
    if subtype == TABLE_DUMP_IPV4 {
      ip := r.ReadBytes(4);
    } else if subtype == TABLE_DUMP_IPV6 {
      ip := r.ReadBytes(16);
    } else {
      ip := [];
    }
  }

  method ReadTableDump(r: ByteReader, timestamp: u32, subtype: u16) returns (d: Decoded)
    requires r.Valid()
    modifies r
    ensures d == DecodeTableDump(old(r.View()), timestamp, subtype)
  {
    hide A.Parse, Nlri.Mask, Read, U16, U32;
    var view := r.ReadUint16();
    var seqnum := r.ReadUint16();
    var ip := ReadAddress(r, subtype);
    var prefixLen := r.ReadUint8();
    var mask := CappedMask(subtype, prefixLen);
    var _ := r.ReadUint8();
    var time := r.ReadUint32();
    var peerIP := ReadAddress(r, subtype);
    var peerAS := r.ReadUint16();
    var attrlen := r.ReadUint16();
    var octets := r.ReadBytes(attrlen);
    var attrs, err := A.ParsePathAttribute(octets, [], true);
    assert A.AttrResult(attrs, err) == A.Parse(octets, [], true);
    d := DecodedTableDump(TableDump(timestamp, view, seqnum, ip, mask, time, peerIP, peerAS, if err.None? then attrs else []),
                          if err.Some? then Some(BadAttributes(err.value)) else None);
  }

  /** A stream read with `io.ReadFull`, which takes what there is when it is too little. */
  class Stream {
    const data: seq<byte>
    var pos: nat

    constructor (data: seq<byte>)
      ensures Valid() && Rest() == data
    {
      this.data := data;
      this.pos := 0;
    }

    ghost predicate Valid()
      reads this
    {
      pos <= |data|
    }

    ghost function Rest(): seq<byte>
      requires Valid()
      reads this
    {
      data[pos..]
    }

    method ReadFull(n: nat) returns (b: seq<byte>, ok: bool)
      requires Valid()
      modifies this
      ensures Valid()
      ensures ok <==> n <= |old(Rest())|
      ensures if ok then b == old(Rest())[..n] && Rest() == old(Rest())[n..] else Rest() == []
    {
      ok := pos + n <= |data|;
      var next := if ok then pos + n else |data|;
      b := data[pos..next];
      if ok {
        DropThenSlice(data, pos, 0, n);
      }
      pos := next;
    }
  }

  method ReadSingle(s: Stream) returns (d: Decoded)
    requires s.Valid()
    modifies s
    ensures s.Valid() && (d, s.Rest()) == DecodeSingle(old(s.Rest()))
  {
    ghost var b := s.Rest();
    var header, ok := s.ReadFull(12);
    if !ok {
      return Decoded(None, Some(NotARecord));
    }
    var timestamp := U32(header[0..4]);
    var mrttype := U16(header[4..6]);
    var mrtsubtype := U16(header[6..8]);
    var mrtlength := U32(header[8..12]);
    assert timestamp == U32(b) && mrttype == U16(b[4..]) && mrtsubtype == U16(b[6..]) && mrtlength == U32(b[8..]);
    if mrtlength > MAX_LENGTH {
      return Decoded(None, Some(NotARecord));
    }
    var content, enough := s.ReadFull(mrtlength);
    if !enough {
      return Decoded(None, Some(NotARecord));
    }
    ghost var end := 12 + mrtlength as int;
    DropThenSlice(b, 12, 0, mrtlength);
    assert content == b[12..end] && s.Rest() == b[end..];
    var r := new ByteReader(content);
    if mrttype == BGP4MP {
      if mrtsubtype == MESSAGE_AS4 {
        d := ReadMessage(r, timestamp, mrtlength);
      } else if mrtsubtype == STATE_CHANGE_AS4 {
        d := ReadStateChange(r, timestamp);
      } else {
        d := Decoded(None, None);
      }
    } else if mrttype == TABLE_DUMPV2 {
      d := ReadTableDumpV2(r, timestamp, mrtsubtype);
    } else if mrttype == TABLE_DUMP {
      d := ReadTableDump(r, timestamp, mrtsubtype);
    } else {
      d := Decoded(None, Some(UnknownType));
    }
  }
}
