/**
  What `DecodeSingle` makes of records octet by octet, among them those no writer of the library produces: peers with
  four-octet ASNs, path identifiers, the generic and the first table dumps, and damaged records (RFC 6396, RFC 8050).
 */
module MrtReadings {
  import opened Bytes
  import opened Mrt
  import opened MrtReader
  import opened MrtDecode
  import opened MrtProofs
  import Nlri
  import A = Attributes
  import BgpHeader
  import Packet

  // ---------------------------------------------------------------- records

  function Head(timestamp: u32, mrttype: u16, subtype: u16, length: u32): seq<byte> {
    BE32(timestamp) + (BE16(mrttype) + (BE16(subtype) + BE32(length)))
  }

  /** A record of any type around a body. */
  function Framed(timestamp: u32, mrttype: u16, subtype: u16, body: seq<byte>): seq<byte>
    requires |body| <= 0xffff_ffff
  {
    Head(timestamp, mrttype, subtype, |body|) + body
  }

  lemma FramedRecord(timestamp: u32, mrttype: u16, subtype: u16, body: seq<byte>, t: seq<byte>)
    requires |body| <= 0x10_0000
    ensures DecodeSingle(Framed(timestamp, mrttype, subtype, body) + t) == (DecodeBody(body, timestamp, mrttype, subtype), t)
  {
    hide DecodeBody, DecodeSingle;
    FramedBody(timestamp, mrttype, subtype, body, t);
    Assoc(Head(timestamp, mrttype, subtype, |body|), body, t);
    HeadIsHeader(timestamp, mrttype, subtype, |body|);
  }

  lemma HeadIsHeader(timestamp: u32, mrttype: u16, subtype: u16, length: u32)
    ensures Header(timestamp, mrttype, subtype, length) == Head(timestamp, mrttype, subtype, length)
  {
    hide BE16, BE32;
  }

  /** An incomplete header or body takes the whole stream; a length over the maximum, which is 2^20, takes the header. */
  lemma DamagedFrames(timestamp: u32, mrttype: u16, subtype: u16, length: u32, t: seq<byte>)
    ensures |t| < 12 ==> DecodeSingle(t) == (Decoded(None, Some(NotARecord)), [])
    ensures length > 0x10_0000 ==>
      DecodeSingle(Head(timestamp, mrttype, subtype, length) + t) == (Decoded(None, Some(NotARecord)), t)
    ensures |t| < length <= 0x10_0000 ==>
      DecodeSingle(Head(timestamp, mrttype, subtype, length) + t) == (Decoded(None, Some(NotARecord)), [])
  {
    hide BE16, BE32, U32, DecodeBody;
    var b := Head(timestamp, mrttype, subtype, length) + t;
    LengthField(timestamp, mrttype, subtype, length, t);
    SplitConcat(Head(timestamp, mrttype, subtype, length), t);
  }

  lemma LengthField(timestamp: u32, mrttype: u16, subtype: u16, length: u32, t: seq<byte>)
    ensures var b := Head(timestamp, mrttype, subtype, length) + t; |b| == 12 + |t| && U32(b[8..]) == length
  {
    hide BE16, BE32, U32;
    var b := Head(timestamp, mrttype, subtype, length) + t;
    assert b[8..] == BE32(length) + t;
    BE32RoundTrip(length, t);
  }

  /** Types and subtypes without a decoder; only an unknown subtype of BGP4MP goes without an error. */
  lemma UnknownKinds(timestamp: u32, mrttype: u16, subtype: u16, body: seq<byte>)
    ensures mrttype != 12 && mrttype != 13 && mrttype != 16 ==>
      DecodeBody(body, timestamp, mrttype, subtype) == Decoded(None, Some(UnknownType))
    ensures subtype != 4 && subtype != 5 ==> DecodeBody(body, timestamp, 16, subtype) == Decoded(None, None)
    ensures (subtype == 0 || subtype == 7 || subtype == 9 || subtype > 10) ==>
      DecodeBody(body, timestamp, 13, subtype) == Decoded(None, Some(UnknownSubtype))
  {
  }

  // ---------------------------------------------------------------- peers

  /** A peer as it stands in a table: of the flags, 1 is for a sixteen-octet address and 2 for a four-octet ASN. */
  datatype WirePeer = WirePeer(flags: byte, peer: Peer)

  predicate Sized(p: WirePeer) {
    && |p.peer.id| == 4 && |p.peer.ip| == (if p.flags % 2 == 1 then 16 else 4)
    && (p.flags / 2 % 2 == 0 ==> p.peer.asn <= 0xffff)
  }

  function PeerOctets(p: WirePeer): seq<byte>
    requires Sized(p)
  {
    [p.flags] + (p.peer.id + (p.peer.ip + if p.flags / 2 % 2 == 0 then BE16(p.peer.asn) else BE32(p.peer.asn)))
  }

  predicate AllSized(ps: seq<WirePeer>) {
    forall p | p in ps :: Sized(p)
  }

  function PeersOctets(ps: seq<WirePeer>): seq<byte>
    requires AllSized(ps)
  {
    if ps == [] then [] else PeerOctets(ps[0]) + PeersOctets(ps[1..])
  }

  function ThePeers(ps: seq<WirePeer>): (r: seq<Peer>)
    ensures |r| == |ps| && forall i :: 0 <= i < |ps| ==> r[i] == ps[i].peer
  {
    seq(|ps|, i requires 0 <= i < |ps| => ps[i].peer)
  }

  /** A peer is read by its flags: the identifier, the address and the ASN, each of its own size, and no octet more. */
  lemma WirePeerReads(p: WirePeer, t: seq<byte>)
    requires Sized(p)
    ensures DecodePeer(Fresh(PeerOctets(p) + t)) == (p.peer, Fresh(t))
  {
    hide BE16, BE32, U16, U32, Read;
    var asn := if p.flags / 2 % 2 == 0 then BE16(p.peer.asn) else BE32(p.peer.asn);
    Nest([p.flags], p.peer.id, p.peer.ip, asn, t);
    ReadOne(p.flags, p.peer.id + (p.peer.ip + (asn + t)));
    ReadPart(p.peer.id, p.peer.ip + (asn + t));
    ReadPart(p.peer.ip, asn + t);
    if p.flags / 2 % 2 == 0 {
      Read16(p.peer.asn, t);
    } else {
      Read32(p.peer.asn, t);
    }
  }

  lemma {:induction false} WirePeersRead(ps: seq<WirePeer>, t: seq<byte>)
    requires AllSized(ps)
    ensures DecodePeers(Fresh(PeersOctets(ps) + t), |ps|) == (ThePeers(ps), Fresh(t))
  {
    hide DecodePeer, PeerOctets, Sized;
    if ps == [] {
      assert PeersOctets(ps) + t == t;
    } else {
      var rest := PeersOctets(ps[1..]) + t;
      Assoc(PeerOctets(ps[0]), PeersOctets(ps[1..]), t);
      assert Sized(ps[0]);
      WirePeerReads(ps[0], rest);
      WirePeersRead(ps[1..], t);
      assert [ps[0].peer] + ThePeers(ps[1..]) == ThePeers(ps);
    }
  }

  function TableOctets(id: seq<byte>, name: seq<byte>, ps: seq<WirePeer>): seq<byte>
    requires |name| <= 0xffff && |ps| <= 0xffff && AllSized(ps)
  {
    id + (BE16(|name|) + (name + (BE16(|ps|) + PeersOctets(ps))))
  }

  /** A peer index table is read as it stands, with addresses and ASNs of either size; octets after its peers are ignored. */
  lemma PeerTableReads(timestamp: u32, id: seq<byte>, name: seq<byte>, ps: seq<WirePeer>, junk: seq<byte>, t: seq<byte>)
    requires |id| == 4 && |name| <= 0xffff && |ps| <= 0xffff && AllSized(ps)
    requires |TableOctets(id, name, ps) + junk| <= 0x10_0000
    ensures DecodeSingle(Framed(timestamp, 13, 1, TableOctets(id, name, ps) + junk) + t)
         == (Decoded(Some(PeerIndex(timestamp, id, name, ThePeers(ps))), None), t)
  {
    hide BE16, U16, Read, DecodePeers, PeersOctets, DecodeSingle, Framed, AllSized, ThePeers;
    FramedRecord(timestamp, 13, 1, TableOctets(id, name, ps) + junk, t);
    var peers := PeersOctets(ps);
    TableParts(id, name, |ps|, peers, junk);
    ReadPart(id, BE16(|name|) + (name + (BE16(|ps|) + (peers + junk))));
    Read16(|name|, name + (BE16(|ps|) + (peers + junk)));
    ReadPart(name, BE16(|ps|) + (peers + junk));
    Read16(|ps|, peers + junk);
    WirePeersRead(ps, junk);
  }

  lemma TableParts(id: seq<byte>, name: seq<byte>, count: u16, peers: seq<byte>, junk: seq<byte>)
    requires |name| <= 0xffff
    ensures id + (BE16(|name|) + (name + (BE16(count) + peers))) + junk
         == id + (BE16(|name|) + (name + (BE16(count) + (peers + junk))))
  {
    hide BE16;
    Nest(id, BE16(|name|), name, BE16(count) + peers, junk);
    Assoc(BE16(count), peers, junk);
  }

  // ---------------------------------------------------------------- RIB entries

  /** An entry as it stands in a record; in the subtypes with path identifiers four octets of one come before the length. */
  datatype WireEntry = WireEntry(peerIndex: u16, origTime: u32, pathId: u32, data: seq<byte>)

  function EntryOctets(e: WireEntry, path: bool): seq<byte>
    requires |e.data| <= 0xffff
  {
    BE16(e.peerIndex) + (BE32(e.origTime) + ((if path then BE32(e.pathId) else []) + (BE16(|e.data|) + e.data)))
  }

  predicate AllShort(es: seq<WireEntry>) {
    forall e | e in es :: |e.data| <= 0xffff
  }

  function EntriesOctets(es: seq<WireEntry>, path: bool): seq<byte>
    requires AllShort(es)
  {
    if es == [] then [] else EntryOctets(es[0], path) + EntriesOctets(es[1..], path)
  }

  /** The attributes of an entry have four-octet ASNs and no path identifiers; those before an error are kept. */
  function TheEntry(e: WireEntry): RibEntry {
    RibEntry(e.peerIndex, e.origTime, A.Parse(e.data, [], false).attributes)
  }

  function TheEntries(es: seq<WireEntry>): (r: seq<RibEntry>)
    ensures |r| == |es| && forall i :: 0 <= i < |es| ==> r[i] == TheEntry(es[i])
  {
    seq(|es|, i requires 0 <= i < |es| => TheEntry(es[i]))
  }

  /** The error of the last entry, whatever the others had. */
  function LastOutcome(es: seq<WireEntry>): Option<MrtError> {
    if es == [] || A.Parse(es[|es| - 1].data, [], false).err.None? then None
    else Some(BadAttributes(A.Parse(es[|es| - 1].data, [], false).err.value))
  }

  lemma WireEntryReads(e: WireEntry, path: bool, t: seq<byte>)
    requires |e.data| <= 0xffff
    ensures DecodeEntry(Fresh(EntryOctets(e, path) + t), path) == ((TheEntry(e), A.Parse(e.data, [], false).err), Fresh(t))
  {
    hide BE16, BE32, U16, U32, Read, A.Parse;
    var id := if path then BE32(e.pathId) else [];
    var rest := BE16(|e.data|) + (e.data + t);
    Nest(BE16(e.peerIndex), BE32(e.origTime), id, BE16(|e.data|) + e.data, t);
    Assoc(BE16(|e.data|), e.data, t);
    Read16(e.peerIndex, BE32(e.origTime) + (id + rest));
    Read32(e.origTime, id + rest);
    if path {
      Read32(e.pathId, rest);
    } else {
      assert id + rest == rest;
    }
    Read16(|e.data|, e.data + t);
    ReadPart(e.data, t);
  }

  lemma {:induction false} WireEntriesRead(es: seq<WireEntry>, path: bool, t: seq<byte>)
    requires AllShort(es)
    ensures var (l, err) := DecodeEntries(Fresh(EntriesOctets(es, path) + t), |es|, path);
      l == TheEntries(es) && (if err.Some? then Some(BadAttributes(err.value)) else None) == LastOutcome(es)
  {
    hide DecodeEntry, EntryOctets, A.Parse, TheEntry;
    if es != [] {
      assert es[1..] != [] ==> es[1..][|es[1..]| - 1] == es[|es| - 1];
      var rest := EntriesOctets(es[1..], path) + t;
      Assoc(EntryOctets(es[0], path), EntriesOctets(es[1..], path), t);
      WireEntryReads(es[0], path, rest);
      WireEntriesRead(es[1..], path, t);
      assert [TheEntry(es[0])] + TheEntries(es[1..]) == TheEntries(es);
    }
  }

  // ---------------------------------------------------------------- RIB records

  /** The octets of a prefix, padded to the address of its family, with the mask of its length. */
  function ThePrefix(bits: byte, octets: seq<byte>, size: nat): Nlri.Prefix
    requires |octets| <= size
  {
    Nlri.Prefix(octets + Zeros(size - |octets|), Nlri.Mask(bits, size), 0)
  }

  lemma OnePrefix(bits: byte, octets: seq<byte>, afi: u16, t: seq<byte>)
    requires (afi == 1 || afi == 2) && |octets| == (bits + 7) / 8
    ensures var size := if afi == 1 then 4 else 16;
      DecodePrefix(Fresh([bits] + (octets + t)), afi)
      == (if bits <= 8 * size then Nlri.NlriResult([ThePrefix(bits, octets, size)], None)
          else Nlri.NlriResult([], Some(Nlri.BadPrefixLength)), Fresh(t))
  {
    hide Read, Nlri.Mask;
    ReadOne(bits, octets + t);
    ReadPart(octets, t);
    var b := [bits] + octets;
    assert Nlri.ByteLen(bits) == |octets| && b[0] == bits;
    assert b[1..|b|] == octets && b[|b|..] == [];
    if bits <= 8 * Nlri.AddressSize(afi) {
      var p := ThePrefix(bits, octets, Nlri.AddressSize(afi));
      assert Nlri.Next(b, Nlri.AddressSize(afi), false) == Nlri.Take(p, |b|);
      assert Nlri.ParseFrom([], Nlri.AddressSize(afi), false) == Nlri.NlriResult([], None);
      assert [p] + [] == [p];
    }
  }

  /** A record shared by all RIB subtypes from the prefix on, with the family and the kind of entries of its subtype. */
  lemma RibPartReads(timestamp: u32, seqnum: u32, afi: u16, safi: byte, asAfiSafi: bool, path: bool,
                     bits: byte, octets: seq<byte>, es: seq<WireEntry>, junk: seq<byte>)
    requires (afi == 1 || afi == 2) && |octets| == (bits + 7) / 8 && |es| <= 0xffff && AllShort(es)
    ensures var size := if afi == 1 then 4 else 16;
      DecodeRib(Fresh([bits] + (octets + (BE16(|es|) + (EntriesOctets(es, path) + junk)))), timestamp, seqnum, afi, safi, asAfiSafi, path)
      == if bits <= 8 * size then
           Decoded(Some(Rib(timestamp, seqnum, afi, safi, Some(ThePrefix(bits, octets, size)), TheEntries(es), asAfiSafi)), LastOutcome(es))
         else Decoded(Some(Rib(timestamp, seqnum, afi, safi, None, [], asAfiSafi)), Some(BadPrefix))
  {
    hide BE16, U16, Read, DecodePrefix, DecodeEntries, EntriesOctets, LastOutcome, A.Parse, TheEntries, ThePrefix;
    OnePrefix(bits, octets, afi, BE16(|es|) + (EntriesOctets(es, path) + junk));
    Read16(|es|, EntriesOctets(es, path) + junk);
    WireEntriesRead(es, path, junk);
  }

  function RibOctets(seqnum: u32, family: seq<byte>, bits: byte, octets: seq<byte>, es: seq<WireEntry>, path: bool, junk: seq<byte>): seq<byte>
    requires |es| <= 0xffff && AllShort(es)
  {
    BE32(seqnum) + (family + ([bits] + (octets + (BE16(|es|) + (EntriesOctets(es, path) + junk)))))
  }

  /**
    The six subtypes with a family of their own: IPv4 in 2, 3 and 8, multicast in 3 and 5, path identifiers in 8 and 10.
    A prefix longer than the address gives a record without prefix and entries.
   */
  lemma RibReads(timestamp: u32, subtype: u16, seqnum: u32, bits: byte, octets: seq<byte>, es: seq<WireEntry>, junk: seq<byte>, t: seq<byte>)
    requires subtype == 2 || subtype == 3 || subtype == 4 || subtype == 5 || subtype == 8 || subtype == 10
    requires |octets| == (bits + 7) / 8 && |es| <= 0xffff && AllShort(es)
    requires var path := subtype == 8 || subtype == 10; |RibOctets(seqnum, [], bits, octets, es, path, junk)| <= 0x10_0000
    ensures var path := subtype == 8 || subtype == 10;
      var ipv4 := subtype == 2 || subtype == 3 || subtype == 8;
      var (afi, size) := if ipv4 then (1, 4) else (2, 16);
      var safi := if subtype == 3 || subtype == 5 then 2 else 1;
      DecodeSingle(Framed(timestamp, 13, subtype, RibOctets(seqnum, [], bits, octets, es, path, junk)) + t)
      == (if bits <= 8 * size then
            Decoded(Some(Rib(timestamp, seqnum, afi, safi, Some(ThePrefix(bits, octets, size)), TheEntries(es), true)), LastOutcome(es))
          else Decoded(Some(Rib(timestamp, seqnum, afi, safi, None, [], true)), Some(BadPrefix)), t)
  {
    hide BE16, BE32, U32, Read, DecodeRib, EntriesOctets, LastOutcome, A.Parse, TheEntries, ThePrefix, DecodeSingle, Framed, AllShort;
    var path := subtype == 8 || subtype == 10;
    var afi := if subtype == 2 || subtype == 3 || subtype == 8 then 1 else 2;
    var safi := if subtype == 3 || subtype == 5 then 2 else 1;
    var part := [bits] + (octets + (BE16(|es|) + (EntriesOctets(es, path) + junk)));
    FramedRecord(timestamp, 13, subtype, RibOctets(seqnum, [], bits, octets, es, path, junk), t);
    assert [] + part == part;
    Read32(seqnum, part);
    RibPartReads(timestamp, seqnum, afi, safi, true, path, bits, octets, es, junk);
  }

  /**
    The generic subtype: sequence number, address family, subsequent family, and then as the others. A family that is not
    IPv4 or IPv6, unicast or multicast, gives a record with nothing but the family.
   */
  lemma GenericRibReads(timestamp: u32, seqnum: u32, afi: u16, safi: byte, bits: byte, octets: seq<byte>, es: seq<WireEntry>, junk: seq<byte>, t: seq<byte>)
    requires |octets| == (bits + 7) / 8 && |es| <= 0xffff && AllShort(es)
    requires |RibOctets(seqnum, BE16(afi) + [safi], bits, octets, es, false, junk)| <= 0x10_0000
    ensures var size := if afi == 1 then 4 else 16;
      DecodeSingle(Framed(timestamp, 13, 6, RibOctets(seqnum, BE16(afi) + [safi], bits, octets, es, false, junk)) + t)
      == (if (afi != 1 && afi != 2) || (safi != 1 && safi != 2) then
            Decoded(Some(Rib(timestamp, seqnum, afi, safi, None, [], false)), Some(BadFamily))
          else if bits <= 8 * size then
            Decoded(Some(Rib(timestamp, seqnum, afi, safi, Some(ThePrefix(bits, octets, size)), TheEntries(es), false)), LastOutcome(es))
          else Decoded(Some(Rib(timestamp, seqnum, afi, safi, None, [], false)), Some(BadPrefix)), t)
  {
    hide BE16, BE32, U16, U32, Read, DecodeRib, EntriesOctets, LastOutcome, A.Parse, TheEntries, ThePrefix, DecodeSingle, Framed, AllShort;
    var part := [bits] + (octets + (BE16(|es|) + (EntriesOctets(es, false) + junk)));
    FramedRecord(timestamp, 13, 6, RibOctets(seqnum, BE16(afi) + [safi], bits, octets, es, false, junk), t);
    Assoc(BE16(afi), [safi], part);
    Read32(seqnum, BE16(afi) + ([safi] + part));
    Read16(afi, [safi] + part);
    ReadOne(safi, part);
    if (afi == 1 || afi == 2) && (safi == 1 || safi == 2) {
      RibPartReads(timestamp, seqnum, afi, safi, false, false, bits, octets, es, junk);
    }
  }

  // ---------------------------------------------------------------- the first table dump

  function RouteOctets(view: u16, seqnum: u16, ip: seq<byte>, bits: byte, status: byte, time: u32, peerIP: seq<byte>, peerAS: u16, data: seq<byte>): seq<byte>
    requires |data| <= 0xffff
  {
    BE16(view) + (BE16(seqnum) + (ip + ([bits] + ([status] + (BE32(time) + (peerIP + (BE16(peerAS) + (BE16(|data|) + data))))))))
  }

  lemma RouteParts(view: u16, seqnum: u16, ip: seq<byte>, bits: byte, status: byte, time: u32, peerIP: seq<byte>, peerAS: u16, data: seq<byte>, junk: seq<byte>)
    requires |data| <= 0xffff
    ensures RouteOctets(view, seqnum, ip, bits, status, time, peerIP, peerAS, data) + junk
      == BE16(view) + (BE16(seqnum) + (ip + ([bits] + ([status] + (BE32(time) + (peerIP + (BE16(peerAS) + (BE16(|data|) + (data + junk)))))))))
  {
    hide BE16, BE32;
    var b := [status] + (BE32(time) + (peerIP + (BE16(peerAS) + (BE16(|data|) + data))));
    Nest(BE16(view), BE16(seqnum), ip, [bits] + b, junk);
    Assoc([bits], b, junk);
    Nest([status], BE32(time), peerIP, BE16(peerAS) + (BE16(|data|) + data), junk);
    Assoc(BE16(peerAS), BE16(|data|) + data, junk);
    Assoc(BE16(|data|), data, junk);
  }

  /**
    A TABLE_DUMP route: four-octet addresses in subtype 1, sixteen in 2, none in any other; attributes with two-octet ASNs,
    of which none are kept next to an error; and the mask one bit short for a host route.
   */
  lemma RouteReads(timestamp: u32, subtype: u16, view: u16, seqnum: u16, ip: seq<byte>, bits: byte, status: byte, time: u32,
                   peerIP: seq<byte>, peerAS: u16, data: seq<byte>, junk: seq<byte>, t: seq<byte>)
    requires |ip| == |peerIP| == (if subtype == 1 then 4 else if subtype == 2 then 16 else 0) && |data| <= 0xffff
    requires |RouteOctets(view, seqnum, ip, bits, status, time, peerIP, peerAS, data) + junk| <= 0x10_0000
    ensures var r := A.Parse(data, [], true);
      var mask := if subtype == 1 then Nlri.Mask(if bits < 32 then bits else 31, 4)
                  else if subtype == 2 then Nlri.Mask(if bits < 128 then bits else 127, 16) else [];
      DecodeSingle(Framed(timestamp, 12, subtype, RouteOctets(view, seqnum, ip, bits, status, time, peerIP, peerAS, data) + junk) + t)
      == (if r.err.None? then
            DecodedTableDump(TableDump(timestamp, view, seqnum, ip, mask, time, peerIP, peerAS, r.attributes), None)
          else
            DecodedTableDump(TableDump(timestamp, view, seqnum, ip, mask, time, peerIP, peerAS, []), Some(BadAttributes(r.err.value))), t)
  {
    hide BE16, BE32, U16, U32, Read, A.Parse, DecodeSingle, Framed, RouteOctets, Nlri.Mask;
    FramedRecord(timestamp, 12, subtype, RouteOctets(view, seqnum, ip, bits, status, time, peerIP, peerAS, data) + junk, t);
    RouteParts(view, seqnum, ip, bits, status, time, peerIP, peerAS, data, junk);
    var c8 := BE16(|data|) + (data + junk);
    var c6 := peerIP + (BE16(peerAS) + c8);
    var c3 := [bits] + ([status] + (BE32(time) + c6));
    Read16(view, BE16(seqnum) + (ip + c3));
    Read16(seqnum, ip + c3);
    ReadPart(ip, c3);
    ReadOne(bits, [status] + (BE32(time) + c6));
    ReadOne(status, BE32(time) + c6);
    Read32(time, c6);
    ReadPart(peerIP, BE16(peerAS) + c8);
    Read16(peerAS, c8);
    Read16(|data|, data + junk);
    ReadPart(data, junk);
    NoMask(bits);
  }

  lemma NoMask(bits: byte)
    ensures Nlri.Mask(CappedLength(bits, 0), 0) == []
  {
  }

  // ---------------------------------------------------------------- messages and state changes

  /** The two ends of a session; their addresses have sixteen octets in family 2 and four in any other. */
  function EndsOctets(s: Session, afi: u16): seq<byte> {
    BE32(s.peerAS) + (BE32(s.localAS) + (BE16(s.iface) + (BE16(afi) + (s.peerIP + s.localIP))))
  }

  predicate EndsSized(s: Session, afi: u16) {
    |s.peerIP| == |s.localIP| == if afi == 2 then 16 else 4
  }

  lemma EndsRead(s: Session, afi: u16, t: seq<byte>)
    requires EndsSized(s, afi)
    ensures DecodeSession(Fresh(EndsOctets(s, afi) + t)) == (s, Fresh(t))
    ensures |EndsOctets(s, afi)| == SessionSize(s)
  {
    hide BE16, BE32, U16, U32, Read;
    var ips := BE16(afi) + (s.peerIP + s.localIP);
    Nest(BE32(s.peerAS), BE32(s.localAS), BE16(s.iface), ips, t);
    Assoc(BE16(afi), s.peerIP + s.localIP, t);
    Assoc(s.peerIP, s.localIP, t);
    Read32(s.peerAS, BE32(s.localAS) + (BE16(s.iface) + (ips + t)));
    Read32(s.localAS, BE16(s.iface) + (ips + t));
    Read16(s.iface, ips + t);
    Read16(afi, s.peerIP + (s.localIP + t));
    ReadPart(s.peerIP, s.localIP + t);
    ReadPart(s.localIP, t);
  }

  /** What follows the two ends is a header that must be good and must not announce more than there is; what is left over is ignored. */
  lemma MessageReads(timestamp: u32, s: Session, afi: u16, msg: seq<byte>, t: seq<byte>)
    requires EndsSized(s, afi) && |EndsOctets(s, afi) + msg| <= 0x10_0000
    ensures DecodeSingle(Framed(timestamp, 16, 4, EndsOctets(s, afi) + msg) + t) ==
      (match BgpHeader.ParsePacketHeader(msg)
       case Err(e) => Decoded(None, Some(BadBgpHeader(e)))
       case Ok(h) =>
         if |msg| < 19 + h.length then Decoded(None, Some(BgpTooLong))
         else
           var r := Packet.ParsePacket(h.bgptype, msg[19..19 + h.length]);
           Decoded(Some(Message(timestamp, s, r.message)), if r.err.Some? then Some(BadPacket(r.err.value)) else None), t)
  {
    hide Read, DecodeSession, Packet.ParsePacket, BgpHeader.ParsePacketHeader, DecodeSingle, Framed, EndsOctets;
    FramedRecord(timestamp, 16, 4, EndsOctets(s, afi) + msg, t);
    EndsRead(s, afi, msg);
    ReadPart(msg, []);
    assert msg + [] == msg;
  }

  /** A body too short for the two ends of the family it says, or for a family at all, is refused; no other is for that. */
  lemma NegativeLengthIff(timestamp: u32, body: seq<byte>)
    ensures DecodeBody(body, timestamp, 16, 4) == Decoded(None, Some(NegativeLength))
      <==> |body| < 20 || (|body| < 44 && body[10] == 0 && body[11] == 2)
  {
    hide BgpHeader.ParsePacketHeader, Packet.ParsePacket;
    SessionFamily(body);
  }

  lemma SessionFamily(body: seq<byte>)
    ensures SessionSize(DecodeSession(Fresh(body)).0) == if |body| >= 12 && body[10] == 0 && body[11] == 2 then 44 else 20
  {
    hide U32;
    if |body| >= 12 {
      assert body[4..][4..][2..][..2] == body[10..12];
    }
  }

  /** A state change is read behind the two ends. Octets that are missing count as zeros, without an error. */
  lemma StateChangeReads(timestamp: u32, s: Session, afi: u16, from: u16, to: u16, rest: seq<byte>, t: seq<byte>)
    requires EndsSized(s, afi) && |EndsOctets(s, afi) + (BE16(from) + (BE16(to) + rest))| <= 0x10_0000
    ensures DecodeSingle(Framed(timestamp, 16, 5, EndsOctets(s, afi) + (BE16(from) + (BE16(to) + rest))) + t)
      == (Decoded(Some(StateChange(timestamp, s, from, to)), None), t)
    ensures |rest| < 2 ==>
      DecodeBody(EndsOctets(s, afi) + (BE16(from) + rest), timestamp, 16, 5) == Decoded(Some(StateChange(timestamp, s, from, 0)), None)
    ensures |rest| < 2 ==>
      DecodeBody(EndsOctets(s, afi) + rest, timestamp, 16, 5) == Decoded(Some(StateChange(timestamp, s, 0, 0)), None)
  {
    hide BE16, DecodeSession, DecodeSingle, Framed, EndsOctets;
    FramedRecord(timestamp, 16, 5, EndsOctets(s, afi) + (BE16(from) + (BE16(to) + rest)), t);
    EndsRead(s, afi, BE16(from) + (BE16(to) + rest));
    EndsRead(s, afi, BE16(from) + rest);
    EndsRead(s, afi, rest);
    Read16(from, BE16(to) + rest);
    Read16(to, rest);
    Read16(from, rest);
  }
}
