/** Fixed points of the wire form: the attribute flags the standards ask for, and messages spelled out octet by octet. */
module WireForm {
  import opened Bytes
  import Nlri
  import AsPath
  import A = Attributes
  import BgpHeader
  import O = OpenMessage
  import U = UpdateMessage
  import N = Negotiation
  import Packet
  import Mrt

  /**
    The optional and transitive bits of the known attributes: section 5.1 of RFC 4271, section 2 of RFC 1997, sections
    3 and 4 of RFC 4760, section 3 of RFC 8092.
   */
  function StandardFlags(code: byte): byte
    requires A.KnownCode(code)
  {
    if code == A.MED || code == A.REACH || code == A.UNREACH then 0x80
    else if code == A.AGGREGATOR || code == A.COMMUNITIES || code == A.LARGECOMMUNITIES then 0xC0
    else 0x40
  }

  /** The flags written are the standard ones exactly for all but LOCAL_PREF, ATOMIC_AGGREGATE and AGGREGATOR. */
  lemma FlagsAreStandardIff(a: A.Attribute)
    requires A.Writable(a) && !a.Raw?
    ensures var flags := A.Encode(a)[0];
      (if A.Extended(flags) then flags - A.EXTENDED else flags) == StandardFlags(A.CodeOf(a))
      <==> !a.LocPref? && !a.AtomicAggregate? && !a.Aggregator?
  {
    FirstOctet(a);
    var (flags, size) := (A.FlagsOf(a), A.DeclaredSize(a));
    hide A.Encode, A.DeclaredSize;
    StripExtended(flags, size);
  }

  lemma FirstOctet(a: A.Attribute)
    requires A.Writable(a)
    ensures A.Encode(a)[0] == A.HeaderFlags(A.FlagsOf(a), A.DeclaredSize(a))
  {
    hide A.Content, A.FlagsOf, A.DeclaredSize;
  }

  lemma StripExtended(flags: byte, size: nat)
    requires !A.Extended(flags)
    ensures var f := A.HeaderFlags(flags, size); (if A.Extended(f) then f - A.EXTENDED else f) == flags
  {
  }

  /** The add-path capability of two families, as in the repository's own test. */
  lemma AddPathCapability()
    ensures O.EncodeCapability(O.AddPaths([O.AddPath(1, 1, 2), O.AddPath(2, 1, 2)]))
         == [0x45, 0x08, 0x00, 0x01, 0x01, 0x02, 0x00, 0x02, 0x01, 0x02]
  {
    var l := [O.AddPath(1, 1, 2), O.AddPath(2, 1, 2)];
    assert l[1..] == [O.AddPath(2, 1, 2)] && l[1..][1..] == [];
    assert O.EncodeAddPath(l[0]) == [0x00, 0x01, 0x01, 0x02];
    assert O.EncodeAddPath(l[1]) == [0x00, 0x02, 0x01, 0x02];
    assert O.EncodeAddPaths(l) == [0x00, 0x01, 0x01, 0x02, 0x00, 0x02, 0x01, 0x02];
  }

  /** Four attributes, each spelled out: ORIGIN, a two-AS path, a next hop and one community. */
  lemma UpdateAttributes()
    ensures A.Encode(A.Origin(0)) == [0x40, 0x01, 0x01, 0x00]
    ensures A.Encode(A.Path([AsPath.Segment(2, [0x8826, 0xbadc])], false))
         == [0x40, 0x02, 0x0a, 0x02, 0x02, 0x00, 0x00, 0x88, 0x26, 0x00, 0x00, 0xba, 0xdc]
    ensures A.Encode(A.NextHop([0x02, 0x38, 0x0b, 0x01])) == [0x40, 0x03, 0x04, 0x02, 0x38, 0x0b, 0x01]
    ensures A.Encode(A.Communities([0x882603e9])) == [0xc0, 0x08, 0x04, 0x88, 0x26, 0x03, 0xe9]
  {
    hide AsPath.EncodeAll, AsPath.Encode, AsPath.EncodeAsns, A.EncodeU32s, A.HeaderFlags;
    PathOctets();
    CommunityOctets();
    ShortFlags(A.TRANSITIVE);
    ShortFlags(A.TRANSITIVEOPT);
    assert A.IPtoBytes([0x02, 0x38, 0x0b, 0x01]) == [0x02, 0x38, 0x0b, 0x01];
  }

  lemma ShortFlags(flags: byte)
    requires !A.Extended(flags)
    ensures forall size | size <= 0xff :: A.HeaderFlags(flags, size) == flags
  {
  }

  lemma CommunityOctets()
    ensures A.EncodeU32s([0x882603e9]) == [0x88, 0x26, 0x03, 0xe9]
  {
    assert [0x882603e9][1..] == [];
    assert BE32(0x882603e9) == [0x88, 0x26, 0x03, 0xe9];
  }

  lemma PathOctets()
    ensures AsPath.EncodeAll([AsPath.Segment(2, [0x8826, 0xbadc])], false)
         == [0x02, 0x02, 0x00, 0x00, 0x88, 0x26, 0x00, 0x00, 0xba, 0xdc]
  {
    var xs: seq<u32> := [0x8826, 0xbadc];
    var l := [AsPath.Segment(2, xs)];
    assert xs[1..] == [0xbadc] && xs[1..][1..] == [] && l[1..] == [];
    assert AsPath.EncodeAsns(xs[1..], false) == [0x00, 0x00, 0xba, 0xdc];
    assert AsPath.EncodeAsns(xs, false) == [0x00, 0x00, 0x88, 0x26, 0x00, 0x00, 0xba, 0xdc];
    assert AsPath.Encode(l[0], false) == [0x02, 0x02] + AsPath.EncodeAsns(xs, false);
  }

  /** A prefix of 22 bits takes three octets after its length; with a path identifier, four more before it. */
  lemma PrefixOctets()
    ensures var n := Nlri.Prefix([0xb9, 0xa1, 0x58, 0x00], [0xff, 0xff, 0xfc, 0x00], 7);
      && Nlri.Writable(n)
      && Nlri.Encode(n, false) == [0x16, 0xb9, 0xa1, 0x58]
      && Nlri.Encode(n, true) == [0x00, 0x00, 0x00, 0x07, 0x16, 0xb9, 0xa1, 0x58]
  {
    var n := Nlri.Prefix([0xb9, 0xa1, 0x58, 0x00], [0xff, 0xff, 0xfc, 0x00], 7);
    assert Nlri.Mask(22, 4) == n.mask by {
      assert Nlri.Mask(-2, 1) == [0];
      assert Nlri.Mask(6, 2) == [0xfc, 0x00];
      assert Nlri.Mask(14, 3) == [0xff, 0xfc, 0x00];
    }
    Nlri.MaskSizeInverts(22, 4);
    Nlri.MaskSizeBound(n.mask);
    assert n.ip[..3] == [0xb9, 0xa1, 0x58];
  }

  // ---------------------------------------------------------------- attribute headers

  /** The header of an attribute: flags, code and size, the size in two octets with bit 0x10 set when it is over 255. */
  lemma AttributeHeader(a: A.Attribute)
    requires A.Writable(a) && A.DeclaredSize(a) <= 0xffff && (a.Raw? ==> a.flags < 16)
    ensures var (f, n) := (A.FlagsOf(a), A.DeclaredSize(a));
      A.Encode(a) == (if n <= 255 then [f, A.CodeOf(a), n] else [f + 16, A.CodeOf(a), n / 256, n % 256]) + A.Content(a)
  {
    hide A.Content, A.DeclaredSize;
    assert !A.Extended(A.FlagsOf(a));
  }

  /** The attributes with fixed content. */
  lemma FixedAttributes(o: byte, x: u32, ip: seq<byte>, id: seq<byte>, enc2: bool)
    requires |id| == 4
    ensures A.Encode(A.Origin(o)) == [0x40, 1, 1, o]
    ensures |ip| == 4 ==> A.Encode(A.NextHop(ip)) == [0x40, 3, 4] + ip
    ensures |ip| == 16 && !IsIPv4(ip) ==> A.Encode(A.NextHop(ip)) == [0x40, 3, 16] + ip
    ensures A.Encode(A.Med(x)) == [0x80, 4, 4] + BE32(x)
    ensures A.Encode(A.LocPref(x)) == [0x80, 5, 4] + BE32(x)
    ensures A.Encode(A.AtomicAggregate) == [0x80, 6, 0]
    ensures A.Encode(A.Aggregator(x, id, enc2)) == [0x80, 7, 8] + BE32(x) + id
  {
    hide BE32, A.HeaderFlags;
    ShortFlags(0x40);
    ShortFlags(0x80);
    assert [0x80, 6, 0] + [] == [0x80, 6, 0];
  }

  /** The attributes with lists; the size of each is that of its list. */
  lemma ListAttributes(segments: seq<AsPath.Segment>, enc2: bool, xs: seq<u32>, cs: seq<A.LargeCommunity>)
    ensures |AsPath.EncodeAll(segments, enc2)| <= 255 ==>
      A.Encode(A.Path(segments, enc2)) == [0x40, 2, |AsPath.EncodeAll(segments, enc2)|] + AsPath.EncodeAll(segments, enc2)
    ensures |xs| <= 63 ==> A.Encode(A.Communities(xs)) == [0xc0, 8, 4 * |xs|] + A.EncodeU32s(xs)
    ensures |cs| <= 21 ==> A.Encode(A.LargeCommunities(cs)) == [0xc0, 32, 12 * |cs|] + A.EncodeLarges(cs)
  {
    hide A.Encode, AsPath.EncodeAll, A.EncodeU32s, A.EncodeLarges;
    if |AsPath.EncodeAll(segments, enc2)| <= 255 {
      AttributeHeader(A.Path(segments, enc2));
    }
    if |xs| <= 63 {
      AttributeHeader(A.Communities(xs));
    }
    if |cs| <= 21 {
      AttributeHeader(A.LargeCommunities(cs));
    }
  }

  /** The attributes with routes: family, for MP_REACH a next hop and a zero, and the prefixes. */
  lemma RouteAttributes(afi: u16, safi: byte, via: seq<byte>, l: seq<Nlri.Prefix>, path: bool)
    requires Nlri.AllWritable(l) && (|via| == 4 || (|via| == 16 && !IsIPv4(via)))
    ensures var routes := Nlri.EncodeList(l, path);
      |via| + |routes| <= 250 ==>
        A.Encode(A.MpReach(afi, safi, via, l, path)) == [0x80, 14, 5 + |via| + |routes|] + (BE16(afi) + [safi, |via|] + via + [0] + routes)
    ensures var routes := Nlri.EncodeList(l, path);
      |routes| <= 252 ==> A.Encode(A.MpUnreach(afi, safi, l, path)) == [0x80, 15, 3 + |routes|] + (BE16(afi) + [safi] + routes)
  {
    hide A.Encode, BE16, Nlri.EncodeList;
    var routes := Nlri.EncodeList(l, path);
    if |via| + |routes| <= 250 {
      AttributeHeader(A.MpReach(afi, safi, via, l, path));
    }
    if |routes| <= 252 {
      AttributeHeader(A.MpUnreach(afi, safi, l, path));
    }
  }

  /** A large community is its administrator and its two values; the ASNs of a two-octet path keep their low 16 bits. */
  lemma LargeAndShortAsns(g: u32, x: u32, y: u32)
    ensures A.EncodeLarges([A.LargeCommunity(g, x, y)]) == BE32(g) + BE32(x) + BE32(y)
    ensures AsPath.EncodeAll([AsPath.Segment(1, [0x18826, 0xbadc])], true) == [1, 2, 0x88, 0x26, 0xba, 0xdc]
  {
    hide BE32;
    assert A.EncodeLarges([]) == [] && [A.LargeCommunity(g, x, y)][1..] == [];
    var xs: seq<u32> := [0x18826, 0xbadc];
    var l := [AsPath.Segment(1, xs)];
    assert xs[1..] == [0xbadc] && xs[1..][1..] == [] && l[1..] == [];
    assert AsPath.EncodeAsns(xs[1..], true) == [0xba, 0xdc];
    assert AsPath.EncodeAsns(xs, true) == [0x88, 0x26, 0xba, 0xdc];
    assert AsPath.Encode(l[0], true) == [1, 2] + AsPath.EncodeAsns(xs, true);
  }

  // ---------------------------------------------------------------- messages

  const ONES: seq<byte> := [255, 255, 255, 255, 255, 255, 255, 255, 255, 255, 255, 255, 255, 255, 255, 255]

  /** The four messages: marker, length, type and content. */
  lemma MessageOctets(open: O.Open, update: U.Update, code: byte, subcode: byte, data: seq<byte>)
    requires |open.identifier| >= 4 && |O.EncodeParameters(open.parameters)| <= 0xff00
    requires U.Writable(update) && U.LenContent(update) <= 0xff00 && |data| <= 0xff00
    ensures Packet.Encode(Packet.OpenMessage(open)) == ONES + BE16(29 + |O.EncodeParameters(open.parameters)|) + [1] + O.EncodeBody(open)
    ensures Packet.Encode(Packet.UpdateMessage(update)) == ONES + BE16(19 + U.LenContent(update)) + [2] + U.EncodeBody(update)
    ensures Packet.Encode(Packet.Notification(code, subcode, data)) == ONES + BE16(21 + |data|) + [3] + ([code, subcode] + data)
    ensures Packet.Encode(Packet.KeepAlive) == ONES + [0, 19, 4]
  {
    hide BE16, O.EncodeParameters, O.EncodeBody, U.EncodeBody, U.LenContent;
    assert BE16(19) == [0, 19] by {
      NineteenOctets();
    }
    assert ONES + [0, 19] + [4] + [] == ONES + [0, 19, 4];
  }

  lemma NineteenOctets()
    ensures BE16(19) == [0, 19]
  {
  }

  /** The OPEN a default neighbor with add-path and route refresh sends: its capabilities in order, in one parameter. */
  lemma DefaultOpen(asn: u32, id: seq<byte>, hold: u16)
    requires |id| == 4
    ensures O.EncodeBody(N.Announce(N.DefaultConfig(asn, id, true, true), hold))
      == [4] + BE16(if asn > 0xffff then 23456 else asn) + BE16(hold) + id + [32, 2, 30]
         + ([65, 4] + BE32(asn) + [1, 4, 0, 1, 0, 1, 1, 4, 0, 2, 0, 1, 69, 8, 0, 1, 1, 3, 0, 2, 1, 3, 2, 0])
  {
    hide BE32, O.EncodeBody, O.EncodeCapabilities, N.Announce;
    var paths := [O.AddPath(1, 1, 3), O.AddPath(2, 1, 3)];
    var caps := [O.ASN(asn), O.MP(1, 1), O.MP(2, 1), O.AddPaths(paths), O.RouteRefresh];
    assert [O.ASN(asn), O.MP(1, 1), O.MP(2, 1)] + [O.AddPaths(paths)] + [O.RouteRefresh] == caps;
    DefaultAnnouncement(asn, id, true, true, hold);
    CapabilityOctets(asn);
    OneParameter(N.Announce(N.DefaultConfig(asn, id, true, true), hold), caps);
    assert id[..4] == id;
  }

  lemma OneParameter(o: O.Open, caps: seq<O.Capability>)
    requires |o.identifier| >= 4 && o.parameters == [O.Parameter(2, Some(caps))] && |O.EncodeCapabilities(caps)| <= 253
    ensures var d := O.EncodeCapabilities(caps); O.EncodeBody(o) == O.FixedPart(o) + [2 + |d|, 2, |d|] + d
  {
    hide O.EncodeCapabilities;
    var d := O.EncodeCapabilities(caps);
    assert O.EncodeParameters(o.parameters[1..]) == [];
    assert O.EncodeParameters(o.parameters) == [2, |d|] + d;
    assert O.FixedPart(o) + [2 + |d|] + ([2, |d|] + d) == O.FixedPart(o) + [2 + |d|, 2, |d|] + d;
  }

  /** What a neighbor made with or without add-path and route refresh announces. */
  lemma DefaultAnnouncement(asn: u32, id: seq<byte>, addpath: bool, routerefresh: bool, hold: u16)
    requires |id| == 4
    ensures N.Announce(N.DefaultConfig(asn, id, addpath, routerefresh), hold) ==
      O.Open(4, if asn > 0xffff then 23456 else asn, hold, id, [O.Parameter(2, Some(
        [O.ASN(asn), O.MP(1, 1), O.MP(2, 1)]
        + (if addpath then [O.AddPaths([O.AddPath(1, 1, 3), O.AddPath(2, 1, 3)])] else [])
        + (if routerefresh then [O.RouteRefresh] else [])))])
  {
    var mp := N.DefaultConfig(asn, id, addpath, routerefresh).mp;
    assert mp[1..][1..] == [] && O.MPCapabilities(mp[1..]) == [O.MP(2, 1)];
    assert O.MPCapabilities(mp) == [O.MP(1, 1), O.MP(2, 1)];
    assert [O.ASN(asn)] + O.MPCapabilities(mp) == [O.ASN(asn), O.MP(1, 1), O.MP(2, 1)];
  }

  lemma CapabilityOctets(asn: u32)
    ensures O.EncodeCapabilities([O.ASN(asn), O.MP(1, 1), O.MP(2, 1), O.AddPaths([O.AddPath(1, 1, 3), O.AddPath(2, 1, 3)]), O.RouteRefresh])
      == [65, 4] + BE32(asn) + [1, 4, 0, 1, 0, 1, 1, 4, 0, 2, 0, 1, 69, 8, 0, 1, 1, 3, 0, 2, 1, 3, 2, 0]
  {
    hide BE32, O.EncodeCapabilities, O.EncodeCapability;
    var paths := [O.AddPath(1, 1, 3), O.AddPath(2, 1, 3)];
    var l3 := [O.AddPaths(paths)] + [O.RouteRefresh];
    var l2 := [O.MP(2, 1)] + l3;
    var l1 := [O.MP(1, 1)] + l2;
    assert [O.ASN(asn)] + l1 == [O.ASN(asn), O.MP(1, 1), O.MP(2, 1), O.AddPaths(paths), O.RouteRefresh];
    CapabilityLast();
    OneCapability(O.AddPaths(paths), [O.RouteRefresh]);
    OneCapability(O.MP(2, 1), l3);
    OneCapability(O.MP(1, 1), l2);
    OneCapability(O.ASN(asn), l1);
    FamilyAndAsn(asn);
    DefaultPaths();
  }

  lemma OneCapability(c: O.Capability, l: seq<O.Capability>)
    ensures O.EncodeCapabilities([c] + l) == O.EncodeCapability(c) + O.EncodeCapabilities(l)
  {
    assert ([c] + l)[1..] == l;
  }

  lemma CapabilityLast()
    ensures O.EncodeCapabilities([O.RouteRefresh]) == [2, 0]
  {
    assert [O.RouteRefresh][1..] == [];
  }

  lemma FamilyAndAsn(asn: u32)
    ensures O.EncodeCapability(O.MP(1, 1)) == [1, 4, 0, 1, 0, 1] && O.EncodeCapability(O.MP(2, 1)) == [1, 4, 0, 2, 0, 1]
    ensures O.EncodeCapability(O.ASN(asn)) == [65, 4] + BE32(asn)
  {
  }

  lemma DefaultPaths()
    ensures O.EncodeCapability(O.AddPaths([O.AddPath(1, 1, 3), O.AddPath(2, 1, 3)])) == [69, 8, 0, 1, 1, 3, 0, 2, 1, 3]
  {
    var paths := [O.AddPath(1, 1, 3), O.AddPath(2, 1, 3)];
    assert paths[1..][1..] == [] && paths[1..][0] == O.AddPath(2, 1, 3);
    assert O.EncodeAddPaths(paths[1..]) == [0, 2, 1, 3];
    assert O.EncodeAddPaths(paths) == [0, 1, 1, 3, 0, 2, 1, 3];
  }

  // ---------------------------------------------------------------- MRT records

  /** A peer is flagged 1 for an IPv6 address and, where the reader looks for 2, 4 for an ASN over 16 bits. */
  lemma PeerOctets(p: Mrt.Peer)
    requires |p.id| == 4 && (|p.ip| == 4 || (|p.ip| == 16 && !IsIPv4(p.ip)))
    ensures Mrt.EncodePeer(p)
      == [if p.asn <= 0xffff then if |p.ip| == 4 then 0 else 1 else if |p.ip| == 4 then 4 else 5]
         + (p.id + (p.ip + if p.asn <= 0xffff then BE16(p.asn) else BE32(p.asn)))
  {
  }

  /** The common header, with the type and subtype of each kind of record. */
  lemma RecordHeader(r: Mrt.Record)
    requires Mrt.Writable(r) && Mrt.Len(r) <= 0xffff_ffff
    ensures var kind: seq<byte> :=
      match r
      case PeerIndex(_, _, _, _) => [0, 13, 0, 1]
      case Rib(_, _, afi, safi, _, _, asAfiSafi) =>
        (if asAfiSafi && (afi == 1 || afi == 2) && (safi == 1 || safi == 2) then [0, 13, 0, 2 * afi + safi - 1] else [0, 13, 0, 6])
      case Message(_, _, _) => [0, 16, 0, 4]
      case StateChange(_, _, _, _) => [0, 16, 0, 5];
      Mrt.Encode(r) == BE32(r.timestamp) + kind + BE32(Mrt.Len(r)) + Mrt.Body(r)
  {
    hide BE32, Mrt.Len, Mrt.Body;
  }

  /** The generic RIB record is written with its family first, where the reader expects the sequence number. */
  lemma GenericBody(r: Mrt.Record)
    requires r.Rib? && Mrt.Writable(r) && !r.asAfiSafi && |r.entries| <= 0xffff
    ensures Mrt.Body(r) == BE16(r.afi) + [r.safi]
      + (BE32(r.seqnum) + (Nlri.Encode(r.nlri.value, false) + (BE16(|r.entries|) + Mrt.EncodeEntries(r.entries))))
  {
    hide BE16, BE32, Mrt.EncodeEntries, Nlri.Encode;
  }
}
