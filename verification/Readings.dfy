/**
  What the decoders make of octets that no writer of the library produces, in plain octets and numbers: forms that are only
  read, forms longer or shorter than the written ones, and damaged input.
 */
module Readings {
  import opened Bytes
  import Nlri
  import AsPath
  import A = Attributes
  import AttributeProofs
  import BgpHeader
  import O = OpenMessage
  import U = UpdateMessage
  import Packet
  import Framing

  type Families = seq<Nlri.AfiSafi>

  // ---------------------------------------------------------------- attribute data

  /** ORIGIN, MED, LOCAL_PREF, NEXT_HOP and ATOMIC_AGGREGATE take their octets from the front and ignore what follows. */
  lemma ScalarData(f: byte, o: byte, x: u32, ip: seq<byte>, t: seq<byte>, list: Families, enc2: bool)
    requires |ip| == 4
    ensures A.DecodeData(f, 1, [o] + t, list, enc2) == Ok(A.Origin(o))
    ensures A.DecodeData(f, 4, BE32(x) + t, list, enc2) == Ok(A.Med(x))
    ensures A.DecodeData(f, 5, BE32(x) + t, list, enc2) == Ok(A.LocPref(x))
    ensures A.DecodeData(f, 3, ip + t, list, enc2) == Ok(A.NextHop(ip))
    ensures A.DecodeData(f, 6, t, list, enc2) == Ok(A.AtomicAggregate)
  {
    hide BE32, U32;
    BE32RoundTrip(x, t);
    SplitConcat(ip, t);
  }

  /** With too few octets each has its own error. */
  lemma ShortScalarData(f: byte, d: seq<byte>, list: Families, enc2: bool)
    requires |d| < 4
    ensures A.DecodeData(f, 1, [], list, enc2) == Err(A.EmptyOrigin)
    ensures A.DecodeData(f, 4, d, list, enc2) == Err(A.ShortMed)
    ensures A.DecodeData(f, 5, d, list, enc2) == Err(A.ShortLocPref)
    ensures A.DecodeData(f, 3, d, list, enc2) == Err(A.ShortNextHop)
  {
    assert A.DecodeData(f, 1, [], list, enc2) == Err(A.EmptyOrigin);
  }

  /** AGGREGATOR: the ASN, in the octets of the mode, then the identifier; other sizes give neither. */
  lemma AggregatorData(f: byte, asn2: u16, asn4: u32, id: seq<byte>, d: seq<byte>, list: Families)
    requires |id| == 4
    ensures A.DecodeData(f, 7, BE16(asn2) + id, list, true) == Ok(A.Aggregator(asn2, id, true))
    ensures A.DecodeData(f, 7, BE32(asn4) + id, list, false) == Ok(A.Aggregator(asn4, id, false))
    ensures |d| != 6 ==> A.DecodeData(f, 7, d, list, true) == Ok(A.Aggregator(0, [], true))
    ensures |d| != 8 ==> A.DecodeData(f, 7, d, list, false) == Ok(A.Aggregator(0, [], false))
  {
    hide BE16, BE32, U16, U32;
    BE16RoundTrip(asn2, id);
    BE32RoundTrip(asn4, id);
    SplitConcat(BE16(asn2), id);
    SplitConcat(BE32(asn4), id);
    assert (BE16(asn2) + id)[2..6] == id && (BE32(asn4) + id)[4..8] == id;
  }

  lemma {:induction false} U32sThenRest(xs: seq<u32>, t: seq<byte>)
    requires |t| < 4
    ensures A.DecodeU32s(A.EncodeU32s(xs) + t) == xs
  {
    hide BE32, U32;
    if xs == [] {
      assert A.EncodeU32s(xs) + t == t;
    } else {
      var rest := A.EncodeU32s(xs[1..]) + t;
      Assoc(BE32(xs[0]), A.EncodeU32s(xs[1..]), t);
      BE32RoundTrip(xs[0], rest);
      SplitConcat(BE32(xs[0]), rest);
      U32sThenRest(xs[1..], t);
    }
  }

  lemma {:induction false} LargesThenRest(cs: seq<A.LargeCommunity>, t: seq<byte>)
    requires |t| < 12
    ensures A.DecodeLarges(A.EncodeLarges(cs) + t) == cs
  {
    hide BE32, U32, A.EncodeLarge;
    if cs == [] {
      assert A.EncodeLarges(cs) + t == t;
    } else {
      var rest := A.EncodeLarges(cs[1..]) + t;
      Assoc(A.EncodeLarge(cs[0]), A.EncodeLarges(cs[1..]), t);
      AttributeProofs.LargeRoundTrip(cs[0], rest);
      LargesThenRest(cs[1..], t);
    }
  }

  /** Communities take all complete ones and ignore the octets left over. */
  lemma CommunityData(f: byte, xs: seq<u32>, cs: seq<A.LargeCommunity>, t: seq<byte>, list: Families, enc2: bool)
    ensures |t| < 4 ==> A.DecodeData(f, 8, A.EncodeU32s(xs) + t, list, enc2) == Ok(A.Communities(xs))
    ensures |t| < 12 ==> A.DecodeData(f, 32, A.EncodeLarges(cs) + t, list, enc2) == Ok(A.LargeCommunities(cs))
  {
    if |t| < 4 {
      U32sThenRest(xs, t);
    }
    if |t| < 12 {
      LargesThenRest(cs, t);
    }
  }

  /**
    MP_REACH: family, a next hop of any announced length, an octet of any value, and the routes, read with path identifiers
    exactly when the list has the family. Routes before an error among them are kept, and the error is not.
   */
  lemma ReachData(f: byte, afi: u16, safi: byte, via: seq<byte>, x: byte, routes: seq<byte>, list: Families, enc2: bool)
    requires |via| <= 255
    ensures var path := Nlri.AfiSafi(afi, safi) in list;
      A.DecodeData(f, 14, BE16(afi) + [safi, |via|] + via + [x] + routes, list, enc2)
      == Ok(A.MpReach(afi, safi, via, Nlri.Parse(routes, afi, path).list, path))
  {
    hide BE16, U16, Nlri.Parse;
    var head := BE16(afi) + [safi, |via|] + via;
    var d := head + [x] + routes;
    var rest := [safi, |via|] + via + [x] + routes;
    assert d == BE16(afi) + rest;
    BE16RoundTrip(afi, rest);
    assert d[2] == safi && d[3] == |via| && d[4..4 + |via|] == via && d[5 + |via|..] == routes;
  }

  /** Too few octets for the head, for the announced next hop, or for the octet after it. */
  lemma ShortReachData(f: byte, d: seq<byte>, list: Families, enc2: bool)
    ensures |d| < 4 ==> A.DecodeData(f, 14, d, list, enc2) == Err(A.ShortReach)
    ensures |d| >= 4 && |d| < 4 + d[3] as int ==> A.DecodeData(f, 14, d, list, enc2) == Err(A.ReachNextHop)
    ensures |d| >= 4 && |d| == 4 + d[3] as int ==> A.DecodeData(f, 14, d, list, enc2) == Err(A.ReachNoNlri)
    ensures |d| < 3 ==> A.DecodeData(f, 15, d, list, enc2) == Err(A.ShortUnreach)
  {
  }

  /** MP_UNREACH: family and routes, read with path identifiers when the list has the family, which is not recorded. */
  lemma UnreachData(f: byte, afi: u16, safi: byte, routes: seq<byte>, list: Families, enc2: bool)
    ensures A.DecodeData(f, 15, BE16(afi) + [safi] + routes, list, enc2)
      == Ok(A.MpUnreach(afi, safi, Nlri.Parse(routes, afi, Nlri.AfiSafi(afi, safi) in list).list, false))
  {
    hide BE16, U16, Nlri.Parse;
    var d := BE16(afi) + [safi] + routes;
    assert d == BE16(afi) + ([safi] + routes);
    BE16RoundTrip(afi, [safi] + routes);
    assert d[2] == safi && d[3..] == routes;
  }

  /** An attribute of any other code is kept as it is. */
  lemma OtherData(f: byte, code: byte, d: seq<byte>, list: Families, enc2: bool)
    requires code != 1 && code != 2 && code != 3 && code != 4 && code != 5 && code != 6 && code != 7 && code != 8
    requires code != 14 && code != 15 && code != 32
    ensures A.DecodeData(f, code, d, list, enc2) == Ok(A.Raw(f, code, d))
  {
  }

  // ---------------------------------------------------------------- AS_PATH data

  function Width(enc2: bool): nat {
    if enc2 then 2 else 4
  }

  /** A path segment that announces `n` ASNs of which only `xs` are there: the others are 0, and what is left is read on. */
  lemma {:induction false} CutAsns(xs: seq<u32>, n: nat, t: seq<byte>, enc2: bool)
    requires |xs| <= n && |t| < Width(enc2) && (enc2 ==> forall x | x in xs :: x < 0x1_0000)
    ensures AsPath.ReadAsns(AsPath.EncodeAsns(xs, enc2) + t, n, enc2) == (xs + Zeros(n - |xs|), t)
  {
    hide BE16, BE32, U16, U32;
    if xs == [] {
      assert AsPath.EncodeAsns(xs, enc2) + t == t && xs + Zeros(n) == Zeros(n);
      AsPath.ReadAsnsExhausted(t, n, enc2);
    } else {
      var rest := AsPath.EncodeAsns(xs[1..], enc2) + t;
      Assoc(AsPath.EncodeAsn(xs[0], enc2), AsPath.EncodeAsns(xs[1..], enc2), t);
      SplitConcat(AsPath.EncodeAsn(xs[0], enc2), rest);
      AsPath.DecodeInvertsEncode(xs[0], rest, enc2);
      assert xs[0] in xs && forall x | x in xs[1..] :: x in xs;
      CutAsns(xs[1..], n - 1, t, enc2);
      assert [xs[0]] + (xs[1..] + Zeros(n - |xs|)) == xs + Zeros(n - |xs|);
    }
  }

  /** AS_PATH is read as its segments, in the width of the mode; a single octet is no segment. */
  lemma PathData(f: byte, t: seq<byte>, list: Families, enc2: bool)
    ensures A.DecodeData(f, 2, t, list, enc2) == Ok(A.Path(AsPath.Parse(t, enc2), enc2))
    ensures |t| < 2 ==> AsPath.Parse(t, enc2) == []
  {
  }

  /** A segment with all its ASNs, whatever their number from 0 to 255, is followed by the next. */
  lemma WholeSegment(stype: byte, xs: seq<u32>, t: seq<byte>, enc2: bool)
    requires |xs| <= 255 && (enc2 ==> forall x | x in xs :: x < 0x1_0000)
    ensures AsPath.Parse([stype, |xs|] + AsPath.EncodeAsns(xs, enc2) + t, enc2) == [AsPath.Segment(stype, xs)] + AsPath.Parse(t, enc2)
  {
    hide AsPath.EncodeAsns, AsPath.Parse, AsPath.Fit;
    AsPath.ParseOneChunk(stype, xs, t, enc2);
    AsPath.FitIsIdentity(xs, enc2);
  }

  /** A segment cut short is filled with zeros, and the octets behind its last ASN are read on. */
  lemma CutSegment(stype: byte, n: byte, xs: seq<u32>, t: seq<byte>, enc2: bool)
    requires |xs| < n && |t| < Width(enc2) && (enc2 ==> forall x | x in xs :: x < 0x1_0000)
    ensures AsPath.Parse([stype, n] + AsPath.EncodeAsns(xs, enc2) + t, enc2)
      == [AsPath.Segment(stype, xs + Zeros(n - |xs|))] + AsPath.Parse(t, enc2)
  {
    hide AsPath.EncodeAsns, AsPath.ReadAsns;
    var asns := AsPath.EncodeAsns(xs, enc2);
    Assoc([stype, n], asns, t);
    SplitConcat([stype, n], asns + t);
    CutAsns(xs, n, t, enc2);
  }

  // ---------------------------------------------------------------- attributes in a list

  /** Bit 0x10 of the flags. */
  predicate LongLength(f: byte) {
    f / 16 % 2 == 1
  }

  /** An attribute on the wire, with its length in one octet or in two as the flags say. */
  function OnWire(f: byte, code: byte, d: seq<byte>): (r: seq<byte>)
    requires |d| <= if LongLength(f) then 0xffff else 0xff
    ensures |r| == |d| + if LongLength(f) then 4 else 3
  {
    (if LongLength(f) then [f, code, |d| / 256, |d| % 256] else [f, code, |d|]) + d
  }

  lemma WireTurn(f: byte, code: byte, d: seq<byte>, t: seq<byte>, list: Families, enc2: bool)
    requires |d| <= if LongLength(f) then 0xffff else 0xff
    ensures A.Next(OnWire(f, code, d) + t, list, enc2) ==
      match A.DecodeData(f, code, d, list, enc2)
      case Err(e) => A.Stop(e)
      case Ok(a) => A.Take(a, |OnWire(f, code, d)|)
    ensures (OnWire(f, code, d) + t)[|OnWire(f, code, d)|..] == t
  {
    hide A.DecodeData;
    var head: seq<byte> := if LongLength(f) then [f, code, |d| / 256, |d| % 256] else [f, code, |d|];
    var b := OnWire(f, code, d) + t;
    Assoc(head, d, t);
    SplitConcat(head, d + t);
    SplitConcat(head + d, t);
    var end := |head| + |d|;
    assert b[|head|..end] == d;
    assert A.DecodeHeader(b) == Ok(A.Head(f, code, |head|, |d|)) by {
      if LongLength(f) {
        assert b[2..][0] == |d| / 256 && b[2..][1] == |d| % 256;
      }
    }
  }

  /**
    Any attribute the decoder accepts, between what came before and whatever follows, is read as its data says and takes
    exactly its octets.
   */
  lemma AttributeInList(pre: seq<byte>, f: byte, code: byte, d: seq<byte>, t: seq<byte>, list: Families, enc2: bool)
    requires |d| <= (if LongLength(f) then 0xffff else 0xff)
    requires A.Parse(pre, list, enc2).err.None? && A.Parse(t, list, enc2).err.None? && A.DecodeData(f, code, d, list, enc2).Ok?
    ensures A.Parse(pre + OnWire(f, code, d) + t, list, enc2)
      == A.AttrResult(A.Parse(pre, list, enc2).attributes + [A.DecodeData(f, code, d, list, enc2).value] + A.Parse(t, list, enc2).attributes, None)
  {
    hide A.DecodeData, OnWire;
    var (l, a, r) := (A.Parse(pre, list, enc2).attributes, A.DecodeData(f, code, d, list, enc2).value, A.Parse(t, list, enc2).attributes);
    WireTurn(f, code, d, t, list, enc2);
    Assoc(pre, OnWire(f, code, d), t);
    AttributeProofs.ParseConcat(pre, OnWire(f, code, d) + t, list, enc2);
    Assoc(l, [a], r);
  }

  /** A two-octet AGGREGATOR, which no writer produces, anywhere in a list: its ASN and its identifier, neither cut nor swapped. */
  lemma ShortAggregatorInList(pre: seq<byte>, f: byte, asn: u16, id: seq<byte>, t: seq<byte>, list: Families)
    requires |id| == 4 && A.Parse(pre, list, true).err.None? && A.Parse(t, list, true).err.None?
    ensures A.Parse(pre + OnWire(f, 7, BE16(asn) + id) + t, list, true)
      == A.AttrResult(A.Parse(pre, list, true).attributes + [A.Aggregator(asn, id, true)] + A.Parse(t, list, true).attributes, None)
  {
    hide A.DecodeData, A.Parse, OnWire, BE16;
    AggregatorData(f, asn, 0, id, [], list);
    AttributeInList(pre, f, 7, BE16(asn) + id, t, list, true);
  }

  /** Data that is not accepted ends the list: what came before is kept with the error, but not before a short NEXT_HOP. */
  lemma BadAttributeInList(pre: seq<byte>, f: byte, code: byte, d: seq<byte>, t: seq<byte>, list: Families, enc2: bool)
    requires |d| <= (if LongLength(f) then 0xffff else 0xff)
    requires A.Parse(pre, list, enc2).err.None? && A.DecodeData(f, code, d, list, enc2).Err?
    ensures var e := A.DecodeData(f, code, d, list, enc2).error;
      A.Parse(pre + OnWire(f, code, d) + t, list, enc2)
      == A.AttrResult(if e == A.ShortNextHop then [] else A.Parse(pre, list, enc2).attributes, Some(e))
  {
    hide A.DecodeData, OnWire;
    WireTurn(f, code, d, t, list, enc2);
    Assoc(pre, OnWire(f, code, d), t);
    AttributeProofs.ParseConcat(pre, OnWire(f, code, d) + t, list, enc2);
    assert A.Parse(pre, list, enc2).attributes + [] == A.Parse(pre, list, enc2).attributes;
  }

  /** So do octets that are no attribute: fewer than three, a second length octet missing, or less data than announced. */
  lemma CutAttributeInList(pre: seq<byte>, t: seq<byte>, list: Families, enc2: bool)
    requires A.Parse(pre, list, enc2).err.None? && t != []
    ensures var l := A.Parse(pre, list, enc2).attributes;
      && (|t| < 3 ==> A.Parse(pre + t, list, enc2) == A.AttrResult(l, Some(A.ShortHeader)))
      && (|t| == 3 && LongLength(t[0]) ==> A.Parse(pre + t, list, enc2) == A.AttrResult(l, Some(A.ShortExtended)))
      && (|t| >= 3 && !LongLength(t[0]) && |t| < 3 + t[2] as int ==> A.Parse(pre + t, list, enc2) == A.AttrResult(l, Some(A.ShortData)))
      && (|t| >= 4 && LongLength(t[0]) && |t| < 4 + 256 * t[2] as int + t[3] ==>
            A.Parse(pre + t, list, enc2) == A.AttrResult(l, Some(A.ShortData)))
  {
    hide A.DecodeData;
    AttributeProofs.ParseConcat(pre, t, list, enc2);
    assert A.Parse(pre, list, enc2).attributes + [] == A.Parse(pre, list, enc2).attributes;
    if |t| >= 4 && LongLength(t[0]) {
      assert t[2..][0] == t[2] && t[2..][1] == t[3];
    }
  }

  // ---------------------------------------------------------------- UPDATE bodies

  /** `list` asks for path identifiers in the routes of the message itself: family 1, subfamily 1. */
  predicate PathsAsked(list: Families) {
    Nlri.AfiSafi(1, 1) in list
  }

  function Counted(w: seq<byte>, a: seq<byte>, n: seq<byte>): seq<byte>
    requires |w| <= 0xffff && |a| <= 0xffff
  {
    BE16(|w|) + w + (BE16(|a|) + a + n)
  }

  /**
    A body with counts that hold: the three parts decoded, each with its own error. Bad withdrawn routes give no update;
    after bad attributes the routes are not read; bad routes leave those before the error.
   */
  lemma CountedBody(w: seq<byte>, a: seq<byte>, n: seq<byte>, list: Families, enc2: bool)
    requires |w| <= 0xffff && |a| <= 0xffff
    ensures var path := PathsAsked(list);
      var (withdrawn, attributes, routes) := (Nlri.Parse(w, 1, path), A.Parse(a, list, enc2), Nlri.Parse(n, 1, path));
      U.ParseUpdate(Counted(w, a, n), list, enc2) ==
        if withdrawn.err.Some? then U.UpdateResult(None, Some(U.BadWithdrawn(withdrawn.err.value)))
        else if attributes.err.Some? then
          U.UpdateResult(Some(U.Update(withdrawn.list, attributes.attributes, [], path)), Some(U.BadAttributes(attributes.err.value)))
        else
          U.UpdateResult(Some(U.Update(withdrawn.list, attributes.attributes, routes.list, path)),
                         if routes.err.Some? then Some(U.BadNlri(routes.err.value)) else None)
  {
    hide A.Parse, Nlri.Parse, BE16, U16;
    U.BodyTurn(w, BE16(|a|) + a + n, list, enc2);
    U.CountedPart(a, n);
  }

  /** A body whose counts do not hold. */
  lemma MiscountedBody(b: seq<byte>, w: seq<byte>, t: seq<byte>, list: Families, enc2: bool)
    requires |w| <= 0xffff
    ensures |b| < 4 ==> U.ParseUpdate(b, list, enc2) == U.UpdateResult(None, Some(U.ShortUpdate))
    ensures |b| >= 4 && 256 * b[0] as int + b[1] + 4 > |b| ==> U.ParseUpdate(b, list, enc2) == U.UpdateResult(None, Some(U.WithdrawnTooLong))
    ensures |t| >= 2 && 256 * t[0] as int + t[1] + 2 > |t| && Nlri.Parse(w, 1, PathsAsked(list)).err.None? ==>
      U.ParseUpdate(BE16(|w|) + w + t, list, enc2) == U.UpdateResult(None, Some(U.AttributesTooLong))
  {
    hide A.Parse, Nlri.Parse;
    if |t| >= 2 {
      U.BodyTurn(w, t, list, enc2);
    }
  }

  // ---------------------------------------------------------------- message headers

  /** A header: sixteen octets of ones, the length with the header in two octets, and the type. */
  lemma HeaderOctets(bgptype: byte, size: nat)
    requires size + 19 <= 0xffff
    ensures BgpHeader.Encode(bgptype, size)
      == [255, 255, 255, 255, 255, 255, 255, 255, 255, 255, 255, 255, 255, 255, 255, 255, (size + 19) / 256, (size + 19) % 256, bgptype]
  {
  }

  /** What a header is read as, by its octets alone. */
  lemma HeaderReading(b: seq<byte>)
    ensures |b| < 19 ==> BgpHeader.ParsePacketHeader(b) == Err(BgpHeader.ShortHeader)
    ensures |b| >= 19 && (exists i :: 0 <= i < 16 && b[i] != 255) ==> BgpHeader.ParsePacketHeader(b) == Err(BgpHeader.NoMarker)
    ensures |b| >= 19 && (forall i :: 0 <= i < 16 ==> b[i] == 255) ==>
      var length := 256 * b[16] as int + b[17];
      BgpHeader.ParsePacketHeader(b)
      == if 19 <= length <= 4096 then Ok(BgpHeader.Header(b[18], length - 19)) else Err(BgpHeader.WrongLength)
  {
    if |b| >= 19 {
      assert b[16..][0] == b[16] && b[16..][1] == b[17];
      if forall i :: 0 <= i < 16 ==> b[i] == 255 {
        assert b[..16] == BgpHeader.MARKER;
      } else {
        var i :| 0 <= i < 16 && b[i] != 255;
        assert b[..16][i] != BgpHeader.MARKER[i];
      }
    }
  }

  /** The content of a message by its type. A KEEPALIVE may hold anything, and there are no other types. */
  lemma PacketData(bgptype: byte, code: byte, subcode: byte, b: seq<byte>)
    ensures bgptype == 0 || bgptype > 4 ==> Packet.ParsePacket(bgptype, b) == Packet.PacketResult(None, Some(Packet.UnknownType))
    ensures Packet.ParsePacket(4, b) == Packet.PacketResult(Some(Packet.KeepAlive), None)
    ensures Packet.ParsePacket(3, [code, subcode] + b) == Packet.PacketResult(Some(Packet.Notification(code, subcode, b)), None)
    ensures |b| < 2 ==> Packet.ParsePacket(3, b) == Packet.PacketResult(None, Some(Packet.ShortNotification))
    ensures Packet.ParsePacket(2, b) ==
      var r := U.ParseUpdate(b, [], false);
      Packet.PacketResult(if r.update.None? then None else Some(Packet.UpdateMessage(r.update.value)),
                          if r.err.None? then None else Some(Packet.BadUpdate(r.err.value)))
    ensures Packet.ParsePacket(1, b) ==
      match O.ParseOpen(b)
      case Err(e) => Packet.PacketResult(None, Some(Packet.BadOpen(e)))
      case Ok(open) => Packet.PacketResult(Some(Packet.OpenMessage(open)), None)
  {
    hide U.ParseUpdate, O.ParseOpen;
    assert ([code, subcode] + b)[2..] == b;
  }

  // ---------------------------------------------------------------- streams of messages

  /** A header without its sixteen octets of ones, or with a length out of range. */
  predicate BadHeader(b: seq<byte>)
    requires |b| >= 19
  {
    (exists i :: 0 <= i < 16 && b[i] != 255) || 256 * b[16] as int + b[17] < 19 || 256 * b[16] as int + b[17] > 4096
  }

  /** A stream that goes on with less than a header, a bad header, or less than a header announces. */
  lemma DamagedStream(t: seq<byte>)
    ensures |t| < 19 ==> Framing.Frames(t) == ([], Framing.Closed)
    ensures |t| >= 19 && BadHeader(t) ==> Framing.Frames(t) == ([], Framing.BadHeader)
    ensures |t| >= 19 && !BadHeader(t) && 256 * t[16] as int + t[17] > |t| ==> Framing.Frames(t) == ([], Framing.Closed)
  {
    hide BgpHeader.ParsePacketHeader, Framing.Refused;
    if |t| >= 19 {
      HeaderReading(t[..19]);
      if !BadHeader(t) {
        assert forall i :: 0 <= i < 16 ==> t[..19][i] == 255;
      } else if exists i :: 0 <= i < 16 && t[i] != 255 {
        var i :| 0 <= i < 16 && t[i] != 255;
        assert t[..19][i] != 255;
      }
    }
  }

  /** The messages before the damage are received, and the damage ends the loop. */
  lemma {:induction false} MessagesBeforeDamage(l: seq<Framing.Outgoing>, t: seq<byte>)
    requires forall m | m in l :: Framing.Arrives(m)
    ensures Framing.Frames(Framing.WireAll(l) + t) == Prepend(Framing.FramesOf(l), Framing.Frames(t))
  {
    hide Framing.Frames, Framing.Wire, Framing.FrameOf, Framing.Refused;
    if l == [] {
      assert Framing.WireAll(l) + t == t;
      assert [] + Framing.Frames(t).0 == Framing.Frames(t).0;
    } else {
      var rest := Framing.WireAll(l[1..]) + t;
      Assoc(Framing.Wire(l[0]), Framing.WireAll(l[1..]), t);
      assert Framing.Arrives(l[0]);
      Framing.FirstFrame(l[0], rest);
      MessagesBeforeDamage(l[1..], t);
      Assoc([Framing.FrameOf(l[0])], Framing.FramesOf(l[1..]), Framing.Frames(t).0);
    }
  }

  // ---------------------------------------------------------------- OPEN

  /** Capability data that is too short leaves the missing fields 0, and more than is needed is ignored. */
  lemma CapabilityData(afi: u16, x: byte, safi: byte, asn: u32, l: seq<O.AddPath>, d: seq<byte>)
    ensures O.DecodeCapability(1, BE16(afi) + [x, safi] + d) == O.MP(afi, safi)
    ensures 2 <= |d| < 4 ==> O.DecodeCapability(1, d) == O.MP(256 * d[0] as int + d[1], 0)
    ensures |d| < 2 ==> O.DecodeCapability(1, d) == O.MP(0, 0)
    ensures O.DecodeCapability(65, BE32(asn) + d) == O.ASN(asn)
    ensures |d| < 4 ==> O.DecodeCapability(65, d) == O.ASN(0)
    ensures O.DecodeCapability(2, d) == O.RouteRefresh
    ensures |d| < 4 ==> O.DecodeCapability(69, O.EncodeAddPaths(l) + d) == O.AddPaths(l)
  {
    hide BE32, U32;
    assert BE16(afi) + [x, safi] + d == BE16(afi) + ([x, safi] + d);
    BE16RoundTrip(afi, [x, safi] + d);
    BE32RoundTrip(asn, d);
    if |d| < 4 {
      AddPathsThenRest(l, d);
    }
  }

  lemma {:induction false} AddPathsThenRest(l: seq<O.AddPath>, t: seq<byte>)
    requires |t| < 4
    ensures O.DecodeAddPaths(O.EncodeAddPaths(l) + t) == l
  {
    if l == [] {
      assert O.EncodeAddPaths(l) + t == t;
    } else {
      var (head, rest) := (O.EncodeAddPath(l[0]), O.EncodeAddPaths(l[1..]) + t);
      Assoc(head, O.EncodeAddPaths(l[1..]), t);
      SplitConcat(head, rest);
      assert head == BE16(l[0].afi) + [l[0].safi, l[0].txrx];
      BE16RoundTrip(l[0].afi, [l[0].safi, l[0].txrx] + rest);
      assert head + rest == BE16(l[0].afi) + ([l[0].safi, l[0].txrx] + rest);
      AddPathsThenRest(l[1..], t);
    }
  }

  /** A capability of any other type is kept as it is. */
  lemma OtherCapability(ctype: byte, d: seq<byte>)
    requires ctype != 1 && ctype != 2 && ctype != 65 && ctype != 69
    ensures O.DecodeCapability(ctype, d) == O.Other(ctype, d)
  {
  }

  /** An OPEN with too few octets, or whose parameters are not as long as announced. */
  lemma MiscountedOpen(b: seq<byte>)
    ensures |b| < 10 ==> O.ParseOpen(b) == Err(O.ShortOpen)
    ensures |b| >= 10 && |b| != 10 + b[9] as int ==> O.ParseOpen(b) == Err(O.WrongParametersLength)
  {
  }

  /** The fields of an OPEN, in order, whatever its parameters. */
  lemma OpenFields(version: byte, asn: u16, hold: u16, id: seq<byte>, params: seq<byte>)
    requires |id| == 4 && |params| <= 255
    ensures O.ParseOpen([version] + BE16(asn) + BE16(hold) + id + [|params|] + params) ==
      match O.ParseParameters(params)
      case Err(e) => Err(e)
      case Ok(l) => Ok(O.Open(version, asn, hold, id, l))
  {
    hide O.ParseParameters, BE16, U16;
    var o := O.Open(version, asn, hold, id, []);
    assert O.FixedPart(o) == [version] + BE16(asn) + BE16(hold) + id by {
      assert id[..4] == id;
    }
    O.BodyTurn(o, params);
  }

  /** A parameter that announces more octets than are left, by two or more, ends the OPEN; so does a capability that does. */
  lemma OverlongParameters(ptype: byte, size: byte, t: seq<byte>)
    ensures size > |t| + 1 ==> O.ParseParameters([ptype, size] + t) == Err(O.WrongParameterLength)
    ensures size <= |t| + 1 && size > 0 && |t| >= 2 && 2 + t[1] > |t| ==>
      O.ParseParameters([2, size] + t) == Err(O.WrongCapabilityLength)
  {
    var b := [2, size] + t;
    assert b[2..] == t;
    assert ([ptype, size] + t)[1] == size;
  }
}
