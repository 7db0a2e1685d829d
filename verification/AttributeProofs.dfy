/**
  What writing and then reading path attributes gives, in both directions: every attribute list that can be
  written, and every octet string that is accepted.
 */
module AttributeProofs {
  import opened Bytes
  import opened Attributes
  import Nlri
  import AsPath

  type Families = seq<Nlri.AfiSafi>

  // ---------------------------------------------------------------- the normal form of one attribute

  /** The value an attribute has after being written and read back with the given ASN width. */
  function Norm(a: Attribute, enc2: bool): Attribute {
    match a
    case Path(segments, _) => Path(AsPath.ChunkAll(segments, enc2), enc2)
    case NextHop(ip) => NextHop(if |IPtoBytes(ip)| < 4 then [] else IPtoBytes(ip)[..4])
    case Aggregator(asn, id, _) => if enc2 then Aggregator(0, [], enc2) else Aggregator(asn, id, enc2)
    case MpReach(afi, safi, via, reach, addPath) =>
      MpReach(afi, safi, IPtoBytes(via), if Nlri.KnownAfi(afi) then reach else [], addPath)
    case MpUnreach(afi, safi, unreach, _) =>
      MpUnreach(afi, safi, if Nlri.KnownAfi(afi) then unreach else [], false)
    case Raw(flags, code, data) => Raw(HeaderFlags(flags, |data|), code, data)
    case _ => a
  }

  function NormAll(l: seq<Attribute>, enc2: bool): (r: seq<Attribute>)
    ensures |r| == |l| && forall i :: 0 <= i < |l| ==> r[i] == Norm(l[i], enc2)
  {
    if l == [] then [] else [Norm(l[0], enc2)] + NormAll(l[1..], enc2)
  }

  /** Prefixes that survive: canonical ones of a family the decoder knows. */
  predicate PrefixesFit(afi: u16, l: seq<Nlri.Prefix>, path: bool) {
    Nlri.KnownAfi(afi) ==> Nlri.AllCanonical(l, Nlri.AddressSize(afi), path)
  }

  /**
    What an attribute must meet to be read back as its normal form by a peer that decodes path identifiers for
    the families in `list` and ASNs of the given width.
   */
  predicate Encodable(a: Attribute, list: Families, enc2: bool) {
    && Writable(a)
    && |Content(a)| <= 0xffff
    && match a
       case Path(segments, e) => e == enc2 && forall s | s in segments :: AsPath.CountSurvives(s)
       case NextHop(ip) => |ip| == 4 || |ip| == 16
       case Aggregator(_, id, _) => |id| == 4
       case MpReach(afi, safi, _, reach, addPath) =>
         addPath == InAfiSafi(afi, safi, list) && PrefixesFit(afi, reach, addPath)
       case MpUnreach(afi, safi, unreach, addPath) =>
         addPath == InAfiSafi(afi, safi, list) && PrefixesFit(afi, unreach, addPath)
       case Raw(_, code, _) => !KnownCode(code)
       case _ => true
  }

  /** The content of an encodable attribute is as long as announced. */
  lemma EncodableSize(a: Attribute, list: Families, enc2: bool)
    requires Encodable(a, list, enc2)
    ensures Writable(a) && DeclaredSize(a) == |Content(a)| <= 0xffff
  {
  }

  predicate AllEncodable(l: seq<Attribute>, list: Families, enc2: bool) {
    forall a | a in l :: Encodable(a, list, enc2)
  }

  /** An attribute that is its own normal form. */
  predicate Normal(a: Attribute, enc2: bool) {
    Norm(a, enc2) == a
  }

  // ---------------------------------------------------------------- attribute contents

  lemma {:induction false} U32sRoundTrip(xs: seq<u32>)
    ensures DecodeU32s(EncodeU32s(xs)) == xs
  {
    if xs != [] {
      U32sRoundTrip(xs[1..]);
      SplitConcat(BE32(xs[0]), EncodeU32s(xs[1..]));
      BE32RoundTrip(xs[0], EncodeU32s(xs[1..]));
    }
  }

  lemma LargeRoundTrip(c: LargeCommunity, t: seq<byte>)
    ensures var b := EncodeLarge(c) + t;
      LargeCommunity(U32(b), U32(b[4..]), U32(b[8..])) == c && b[12..] == t
  {
    var b := EncodeLarge(c) + t;
    var (x, y, z) := (BE32(c.globalAdmin), BE32(c.localData1), BE32(c.localData2));
    assert b == x + (y + z + t);
    assert b[4..] == y + (z + t);
    assert b[8..] == z + t;
    BE32RoundTrip(c.globalAdmin, y + z + t);
    BE32RoundTrip(c.localData1, z + t);
    BE32RoundTrip(c.localData2, t);
  }

  lemma {:induction false} LargesRoundTrip(cs: seq<LargeCommunity>)
    ensures DecodeLarges(EncodeLarges(cs)) == cs
  {
    if cs != [] {
      LargesRoundTrip(cs[1..]);
      LargeRoundTrip(cs[0], EncodeLarges(cs[1..]));
    }
  }

  lemma PrefixesRoundTrip(afi: u16, l: seq<Nlri.Prefix>, path: bool)
    requires Nlri.AllWritable(l) && PrefixesFit(afi, l, path)
    ensures Nlri.Parse(Nlri.EncodeList(l, path), afi, path).list == if Nlri.KnownAfi(afi) then l else []
  {
    if Nlri.KnownAfi(afi) {
      Nlri.ParseInvertsEncode(l, afi, path);
    }
  }

  /** The decoder turns the written content of `a`, under the written header, into its normal form. */
  predicate ReadsBack(a: Attribute, list: Families, enc2: bool)
    requires Writable(a)
  {
    DecodeData(HeaderFlags(FlagsOf(a), DeclaredSize(a)), CodeOf(a), Content(a), list, enc2) == Ok(Norm(a, enc2))
  }

  lemma ReachRoundTrip(a: Attribute, list: Families, enc2: bool)
    requires a.MpReach? && Encodable(a, list, enc2)
    ensures ReadsBack(a, list, enc2)
  {
    hide Nlri.EncodeList, Nlri.Parse, IPtoBytes;
    var (via, body) := (IPtoBytes(a.via), Nlri.EncodeList(a.reach, a.addPath));
    var d := Content(a);
    var pos := 5 + |via|;
    var head := ReachHead(a.afi, a.safi, via);
    SplitConcat(head, body);
    assert head[..2] == BE16(a.afi) && head[2] == a.safi && head[3] == |via| && head[4..pos - 1] == via;
    assert d[2] == a.safi && d[3] == |via| && d[4..pos - 1] == via;
    BE16RoundTrip(a.afi, d[2..]);
    assert d == BE16(a.afi) + d[2..];
    PrefixesRoundTrip(a.afi, a.reach, a.addPath);
  }

  lemma UnreachRoundTrip(a: Attribute, list: Families, enc2: bool)
    requires a.MpUnreach? && Encodable(a, list, enc2)
    ensures ReadsBack(a, list, enc2)
  {
    var d := Content(a);
    SplitConcat(BE16(a.afi) + [a.safi], Nlri.EncodeList(a.unreach, a.addPath));
    BE16RoundTrip(a.afi, d[2..]);
    assert d == BE16(a.afi) + d[2..];
    PrefixesRoundTrip(a.afi, a.unreach, a.addPath);
  }

  lemma SequenceRoundTrip(a: Attribute, list: Families, enc2: bool)
    requires a.Path? || a.Communities? || a.LargeCommunities?
    requires Encodable(a, list, enc2)
    ensures ReadsBack(a, list, enc2)
  {
    hide AsPath.Parse, AsPath.EncodeAll, AsPath.ChunkAll, DecodeU32s, DecodeLarges, EncodeU32s, EncodeLarges;
    match a
    case Path(segments, _) => AsPath.PathRoundTrip(segments, enc2);
    case Communities(xs) => U32sRoundTrip(xs);
    case LargeCommunities(cs) => LargesRoundTrip(cs);
  }

  lemma ScalarRoundTrip(a: Attribute, list: Families, enc2: bool)
    requires a.Origin? || a.NextHop? || a.Med? || a.LocPref? || a.AtomicAggregate? || a.Aggregator? || a.Raw?
    requires Encodable(a, list, enc2)
    ensures ReadsBack(a, list, enc2)
  {
    match a
    case Med(med) => BE32RoundTrip(med, []); assert BE32(med) + [] == BE32(med);
    case LocPref(locPref) => BE32RoundTrip(locPref, []); assert BE32(locPref) + [] == BE32(locPref);
    case Aggregator(asn, id, _) => BE32RoundTrip(asn, id); SplitConcat(BE32(asn), id); assert Content(a)[4..8] == id;
    case _ =>
  }

  /** Every kind of content is read back as the normal form. */
  lemma ContentRoundTrip(a: Attribute, list: Families, enc2: bool)
    requires Encodable(a, list, enc2)
    ensures ReadsBack(a, list, enc2)
  {
    match a
    case MpReach(_, _, _, _, _) => ReachRoundTrip(a, list, enc2);
    case MpUnreach(_, _, _, _) => UnreachRoundTrip(a, list, enc2);
    case Path(_, _) => SequenceRoundTrip(a, list, enc2);
    case Communities(_) => SequenceRoundTrip(a, list, enc2);
    case LargeCommunities(_) => SequenceRoundTrip(a, list, enc2);
    case _ => ScalarRoundTrip(a, list, enc2);
  }

  // ---------------------------------------------------------------- attribute lists

  /** A written header is read back with its flags, code and size, with one or two length octets as the size needs. */
  lemma HeaderRoundTrip(size: nat, flags: byte, code: byte, content: seq<byte>, t: seq<byte>)
    requires size == |content| <= 0xffff
    ensures var b := Header(size, flags, code) + content + t;
      && DecodeHeader(b) == Ok(Head(HeaderFlags(flags, size), code, HeaderLen(size), size))
      && b[HeaderLen(size)..HeaderLen(size) + size] == content
      && b[HeaderLen(size) + size..] == t
  {
    var head := Header(size, flags, code);
    Assoc(head, content, t);
    SplitConcat(head, content + t);
    SplitConcat(head + content, t);
    SlicePrefix(head + content, t, |head|, |head| + size);
    SplitConcat(head, content);
    HeaderOctets(size, flags, code, content + t);
  }

  lemma HeaderOctets(size: nat, flags: byte, code: byte, t: seq<byte>)
    requires size <= 0xffff && size <= |t|
    ensures DecodeHeader(Header(size, flags, code) + t) == Ok(Head(HeaderFlags(flags, size), code, HeaderLen(size), size))
  {
    var b := Header(size, flags, code) + t;
    assert Extended(HeaderFlags(flags, size)) <==> size > 0xff;
    assert b[0] == HeaderFlags(flags, size) && b[1] == code;
    if size > 0xff {
      assert b[2] == size / 0x100 && b[3] == size % 0x100;
      assert U16(b[2..]) == size;
    } else {
      assert b[2] == size;
    }
  }

  lemma AttributeRoundTrip(a: Attribute, t: seq<byte>, list: Families, enc2: bool)
    requires Encodable(a, list, enc2)
    ensures Next(Encode(a) + t, list, enc2) == Take(Norm(a, enc2), |Encode(a)|)
  {
    var size := DeclaredSize(a);
    assert size == |Content(a)|;
    HeaderRoundTrip(size, FlagsOf(a), CodeOf(a), Content(a), t);
    ContentRoundTrip(a, list, enc2);
  }

  /** Writing a list of encodable attributes and reading it back gives their normal forms, in order, with no error. */
  lemma {:induction false} ListRoundTrip(l: seq<Attribute>, list: Families, enc2: bool)
    requires AllEncodable(l, list, enc2)
    ensures AllWritable(l)
    ensures Parse(EncodeAll(l), list, enc2) == AttrResult(NormAll(l, enc2), None)
  {
    if l != [] {
      assert Encodable(l[0], list, enc2);
      ListRoundTrip(l[1..], list, enc2);
      AttributeRoundTrip(l[0], EncodeAll(l[1..]), list, enc2);
      SplitConcat(Encode(l[0]), EncodeAll(l[1..]));
    }
  }

  // ---------------------------------------------------------------- accepted input

  /** The shape of a decoded attribute. */
  predicate Regular(a: Attribute, list: Families, enc2: bool) {
    match a
    case Path(segments, e) =>
      e == enc2 && forall s | s in segments :: AsPath.Short(s, enc2)
    case NextHop(ip) => |ip| == 4
    case Aggregator(_, id, e) => e == enc2 && (|id| == 4 || |id| == 0)
    case MpReach(afi, safi, _, reach, addPath) =>
      addPath == InAfiSafi(afi, safi, list) && (if Nlri.KnownAfi(afi) then PrefixesFit(afi, reach, addPath) else reach == [])
    case MpUnreach(afi, safi, unreach, addPath) =>
      !addPath && (if Nlri.KnownAfi(afi) then PrefixesFit(afi, unreach, InAfiSafi(afi, safi, list)) else unreach == [])
    case Raw(_, code, _) => !KnownCode(code)
    case _ => true
  }

  /**
    A decoded attribute the writer does not damage: no segment of 255 ASNs, an AGGREGATOR of the eight-octet form
    in four-octet mode, and no MP_UNREACH of a family that uses path identifiers.
   */
  predicate Stable(a: Attribute, list: Families, enc2: bool) {
    match a
    case Path(segments, _) => forall s | s in segments :: |s.asns| != 255
    case Aggregator(_, id, _) => !enc2 && |id| == 4
    case MpUnreach(afi, safi, _, _) => !InAfiSafi(afi, safi, list)
    case _ => true
  }

  lemma DecodedPathIsRegular(d: seq<byte>, list: Families, enc2: bool)
    ensures Regular(Path(AsPath.Parse(d, enc2), enc2), list, enc2)
    ensures |AsPath.EncodeAll(AsPath.Parse(d, enc2), enc2)| <= |d| + 2040
  {
    AsPath.ParsedSegments(d, enc2);
    AsPath.ParsedLength(d, enc2);
  }

  lemma DecodedReachIsRegular(d: seq<byte>, list: Families, enc2: bool)
    requires DecodeReach(d, list).Ok?
    ensures var a := DecodeReach(d, list).value; Regular(a, list, enc2) && Writable(a) && |Content(a)| <= |d|
  {
    var a := DecodeReach(d, list).value;
    var rest := d[5 + d[3] as int..];
    Nlri.ParseCanonical(rest, a.afi, a.addPath);
    if Nlri.KnownAfi(a.afi) {
      Nlri.EncodeInvertsParse(rest, a.afi, a.addPath);
    }
  }

  lemma DecodedUnreachIsRegular(d: seq<byte>, list: Families, enc2: bool)
    requires DecodeUnreach(d, list).Ok?
    ensures var a := DecodeUnreach(d, list).value;
      Regular(a, list, enc2) && Writable(a) && |Content(a)| <= |d|
  {
    var a := DecodeUnreach(d, list).value;
    var path := InAfiSafi(a.afi, a.safi, list);
    Nlri.ParseCanonical(d[3..], a.afi, path);
    if Nlri.KnownAfi(a.afi) {
      Nlri.EncodeInvertsParse(d[3..], a.afi, path);
      Nlri.PathIdsTakeRoom(a.unreach);
    }
  }

  /** Every attribute the decoder accepts is regular and can be written, and writing adds at most 2040 octets of AS-path padding. */
  lemma DecodedIsRegular(flags: byte, code: byte, d: seq<byte>, list: Families, enc2: bool)
    requires DecodeData(flags, code, d, list, enc2).Ok?
    ensures var a := DecodeData(flags, code, d, list, enc2).value;
      Regular(a, list, enc2) && Writable(a) && |Content(a)| <= |d| + 2040
  {
    if code == ASPATH {
      DecodedPathIsRegular(d, list, enc2);
    } else if code == REACH {
      DecodedReachIsRegular(d, list, enc2);
    } else if code == UNREACH {
      DecodedUnreachIsRegular(d, list, enc2);
    }
  }

  lemma {:induction false} ParsedIsRegular(b: seq<byte>, list: Families, enc2: bool)
    ensures forall a | a in Parse(b, list, enc2).attributes ::
      Regular(a, list, enc2) && Writable(a) && |Content(a)| <= |b| + 2040
    decreases |b|
  {
    if b != [] && Next(b, list, enc2).Take? {
      var h := DecodeHeader(b).value;
      var end := h.start + h.length;
      DecodedIsRegular(h.flags, h.code, b[h.start..end], list, enc2);
      ParsedIsRegular(b[end..], list, enc2);
    }
  }

  // ---------------------------------------------------------------- the normal form

  lemma HeaderFlagsTwice(flags: byte, size: nat)
    ensures HeaderFlags(HeaderFlags(flags, size), size) == HeaderFlags(flags, size)
    ensures HeaderFlags(flags, size) == flags <==> (Extended(flags) <==> size > 0xff)
  {
  }

  /** A regular, stable attribute and its normal form are written as the same octets. */
  lemma NormIsWrittenAlike(a: Attribute, list: Families, enc2: bool)
    requires Regular(a, list, enc2) && Stable(a, list, enc2) && Writable(a)
    ensures Writable(Norm(a, enc2)) && Encode(Norm(a, enc2)) == Encode(a)
  {
    if a.Path? {
      NormPathIsWrittenAlike(a.segments, enc2);
    } else if a.Raw? {
      HeaderFlagsTwice(a.flags, |a.data|);
    } else if a.NextHop? {
      assert IPtoBytes(a.nextHop) == a.nextHop;
    }
    assert Content(Norm(a, enc2)) == Content(a);
  }

  /** Taking the normal form twice changes nothing more. */
  lemma NormIsIdempotent(a: Attribute, list: Families, enc2: bool)
    requires Regular(a, list, enc2)
    ensures Norm(Norm(a, enc2), enc2) == Norm(a, enc2)
  {
    if a.Path? {
      NormPathIsWrittenAlike(a.segments, enc2);
    } else if a.Raw? {
      HeaderFlagsTwice(a.flags, |a.data|);
    }
  }

  lemma NormPathIsWrittenAlike(l: seq<AsPath.Segment>, enc2: bool)
    requires forall s | s in l :: AsPath.Short(s, enc2)
    ensures AsPath.EncodeAll(AsPath.ChunkAll(l, enc2), enc2) == AsPath.EncodeAll(l, enc2)
    ensures AsPath.ChunkAll(AsPath.ChunkAll(l, enc2), enc2) == AsPath.ChunkAll(l, enc2)
  {
    AsPath.ShortPathDropsEmpty(l, enc2);
    AsPath.NonEmptyIsWrittenAlike(l, enc2);
    AsPath.NonEmptyIsShort(l, enc2);
    AsPath.ShortPathDropsEmpty(AsPath.NonEmpty(l), enc2);
  }

  lemma {:induction false} NormAllIsWrittenAlike(l: seq<Attribute>, list: Families, enc2: bool)
    requires forall a | a in l :: Regular(a, list, enc2) && Stable(a, list, enc2) && Writable(a)
    ensures AllWritable(l) && AllWritable(NormAll(l, enc2))
    ensures EncodeAll(NormAll(l, enc2)) == EncodeAll(l)
  {
    if l != [] {
      NormIsWrittenAlike(l[0], list, enc2);
      NormAllIsWrittenAlike(l[1..], list, enc2);
      assert NormAll(l, enc2)[1..] == NormAll(l[1..], enc2);
    }
  }

  lemma StableIsEncodable(a: Attribute, list: Families, enc2: bool)
    requires Regular(a, list, enc2) && Stable(a, list, enc2) && Writable(a) && |Content(a)| <= 0xffff
    ensures Encodable(a, list, enc2)
  {
  }

  /**
    Re-encoding reaches a normal form in one step. For every accepted octet string (up to the size where padding
    could overflow a 16-bit length) whose attributes are stable, reading what is written gives the normal forms,
    and writing those gives the same octets again.
   */
  lemma ReencodingIsNormal(b: seq<byte>, list: Families, enc2: bool)
    requires |b| <= 0xffff - 2040 && Parse(b, list, enc2).err.None?
    requires forall a | a in Parse(b, list, enc2).attributes :: Stable(a, list, enc2)
    ensures var l := Parse(b, list, enc2).attributes;
      && AllWritable(l)
      && Parse(EncodeAll(l), list, enc2) == AttrResult(NormAll(l, enc2), None)
      && AllWritable(NormAll(l, enc2))
      && EncodeAll(NormAll(l, enc2)) == EncodeAll(l)
  {
    var l := Parse(b, list, enc2).attributes;
    ParsedIsRegular(b, list, enc2);
    forall a | a in l ensures Encodable(a, list, enc2) {
      StableIsEncodable(a, list, enc2);
    }
    ListRoundTrip(l, list, enc2);
    NormAllIsWrittenAlike(l, list, enc2);
  }

  /** Which decoded attributes re-encoding leaves exactly as they are. */
  lemma NormalIff(a: Attribute, list: Families, enc2: bool)
    requires Regular(a, list, enc2) && Stable(a, list, enc2)
    ensures Normal(a, enc2) <==>
      match a
      case Path(segments, _) => forall s | s in segments :: s.asns != []
      case MpReach(_, _, via, _, _) => IPtoBytes(via) == via
      case Raw(flags, _, data) => Extended(flags) <==> |data| > 0xff
      case _ => true
  {
    match a
    case Path(segments, _) =>
      AsPath.ShortPathDropsEmpty(segments, enc2);
      AsPath.NonEmptyIff(segments);
    case Raw(flags, _, data) => HeaderFlagsTwice(flags, |data|);
    case _ =>
  }

  lemma NormAllIff(l: seq<Attribute>, enc2: bool)
    ensures NormAll(l, enc2) == l <==> forall a | a in l :: Normal(a, enc2)
  {
    if NormAll(l, enc2) == l {
      forall a | a in l ensures Normal(a, enc2) {
        var i :| 0 <= i < |l| && l[i] == a;
        assert NormAll(l, enc2)[i] == a;
      }
    }
    if forall a | a in l :: Normal(a, enc2) {
      forall i | 0 <= i < |l| ensures NormAll(l, enc2)[i] == l[i] {
        assert Normal(l[i], enc2);
      }
    }
  }

  /**
    An MP_UNREACH decoded with path identifiers is written without them; reading that back gives the same routes
    only if there are none.
   */
  lemma UnreachLosesPathIds(a: Attribute, list: Families, enc2: bool)
    requires a.MpUnreach? && Regular(a, list, enc2) && Writable(a) && Nlri.KnownAfi(a.afi)
    requires InAfiSafi(a.afi, a.safi, list)
    ensures DecodeUnreach(Content(a), list) == Ok(a) <==> a.unreach == []
  {
    var body := Nlri.EncodeList(a.unreach, false);
    var d := Content(a);
    SplitConcat(BE16(a.afi) + [a.safi], body);
    BE16RoundTrip(a.afi, d[2..]);
    assert d == BE16(a.afi) + d[2..];
    assert DecodeUnreach(d, list) == Ok(MpUnreach(a.afi, a.safi, Nlri.Parse(body, a.afi, true).list, false));
    Nlri.EncodeInvertsParse(body, a.afi, true);
    Nlri.PathIdsTakeRoom(a.unreach);
  }

  // ---------------------------------------------------------------- exactly which attributes survive

  /** An attribute on its own, whose content is as long as announced. */
  lemma AloneTurn(a: Attribute, list: Families, enc2: bool)
    requires Writable(a) && DeclaredSize(a) == |Content(a)| <= 0xffff
    ensures Parse(Encode(a), list, enc2) ==
      match DecodeData(HeaderFlags(FlagsOf(a), DeclaredSize(a)), CodeOf(a), Content(a), list, enc2)
      case Err(e) => AttrResult([], Some(e))
      case Ok(x) => AttrResult([x], None)
  {
    var size := DeclaredSize(a);
    HeaderRoundTrip(size, FlagsOf(a), CodeOf(a), Content(a), []);
    assert Encode(a) + [] == Encode(a);
    var end := |Encode(a)|;
    assert Encode(a)[end..] == [];
    assert Parse([], list, enc2) == AttrResult([], None);
  }

  lemma AggregatorSurvivesIff(a: Attribute, list: Families, enc2: bool)
    requires a.Aggregator? && Regular(a, list, enc2)
    ensures Parse(Encode(a), list, enc2) == AttrResult([a], None) <==> !enc2 && |a.id| == 4
  {
    if |a.id| == 4 {
      AloneTurn(a, list, enc2);
      ScalarRoundTrip(a, list, enc2);
    } else {
      var b := Encode(a);
      assert b[0] == HeaderFlags(OPTIONAL, 8) && b[2] == 8;
      assert DecodeHeader(b) == Err(ShortData);
    }
  }

  lemma PathSurvivesIff(a: Attribute, list: Families, enc2: bool)
    requires a.Path? && |Content(a)| <= 0xffff
    ensures Parse(Encode(a), list, enc2) == AttrResult([a], None)
      <==> a.enc2 == enc2 && forall s | s in a.segments :: AsPath.Short(s, enc2) && 1 <= |s.asns| < 255
  {
    AloneTurn(a, list, enc2);
    AsPath.PathSurvivesIff(a.segments, enc2);
  }

  lemma UnreachSurvivesIff(a: Attribute, list: Families, enc2: bool)
    requires a.MpUnreach? && Regular(a, list, enc2) && Writable(a) && |Content(a)| <= 0xffff
    ensures Parse(Encode(a), list, enc2) == AttrResult([a], None) <==> !InAfiSafi(a.afi, a.safi, list) || a.unreach == []
  {
    AloneTurn(a, list, enc2);
    if !InAfiSafi(a.afi, a.safi, list) || !Nlri.KnownAfi(a.afi) {
      PrefixesRoundTripUnreach(a, list);
    } else {
      UnreachLosesPathIds(a, list, enc2);
    }
  }

  lemma PrefixesRoundTripUnreach(a: Attribute, list: Families)
    requires a.MpUnreach? && !a.addPath && Writable(a)
    requires (!InAfiSafi(a.afi, a.safi, list) && PrefixesFit(a.afi, a.unreach, false)) || !Nlri.KnownAfi(a.afi)
    requires !Nlri.KnownAfi(a.afi) ==> a.unreach == []
    ensures DecodeUnreach(Content(a), list) == Ok(a)
  {
    var body := Nlri.EncodeList(a.unreach, false);
    var d := Content(a);
    SplitConcat(BE16(a.afi) + [a.safi], body);
    BE16RoundTrip(a.afi, d[2..]);
    assert d == BE16(a.afi) + d[2..];
    if Nlri.KnownAfi(a.afi) {
      Nlri.ParseInvertsEncode(a.unreach, a.afi, false);
    }
  }

  /**
    Exactly which decoded attributes re-encoding gives back unchanged: the stable ones in normal form, and an
    MP_UNREACH without routes.
   */
  lemma SurvivesIff(a: Attribute, list: Families, enc2: bool)
    requires Regular(a, list, enc2) && Writable(a) && |Content(a)| <= 0xffff
    ensures Parse(Encode(a), list, enc2) == AttrResult([a], None)
      <==> (Stable(a, list, enc2) || (a.MpUnreach? && a.unreach == [])) && Normal(a, enc2)
  {
    if a.Aggregator? {
      AggregatorSurvivesIff(a, list, enc2);
    } else if a.Path? {
      PathSurvivesIff(a, list, enc2);
      AsPath.ShortPathDropsEmpty(a.segments, enc2);
      AsPath.NonEmptyIff(a.segments);
      assert forall s | s in a.segments :: AsPath.Short(s, enc2);
    } else if a.MpUnreach? {
      UnreachSurvivesIff(a, list, enc2);
    } else {
      AloneTurn(a, list, enc2);
      StableIsEncodable(a, list, enc2);
      ContentRoundTrip(a, list, enc2);
    }
  }

  // ---------------------------------------------------------------- exactly which lists survive

  /** An attribute whose content is as long as announced is cut off where it ends, whatever becomes of its content. */
  lemma FramedTurn(a: Attribute, t: seq<byte>, list: Families, enc2: bool)
    requires Writable(a) && DeclaredSize(a) == |Content(a)| <= 0xffff
    ensures Next(Encode(a) + t, list, enc2) ==
      match DecodeData(HeaderFlags(FlagsOf(a), DeclaredSize(a)), CodeOf(a), Content(a), list, enc2)
      case Err(e) => Stop(e)
      case Ok(x) => Take(x, |Encode(a)|)
  {
    hide DecodeData, Content;
    HeaderRoundTrip(DeclaredSize(a), FlagsOf(a), CodeOf(a), Content(a), t);
  }

  /** An AGGREGATOR without an identifier takes the next four octets for it, or ends the list. */
  lemma AggregatorSwallows(a: Attribute, t: seq<byte>, list: Families, enc2: bool)
    requires a.Aggregator? && a.id == []
    ensures Next(Encode(a) + t, list, enc2)
         == if |t| < 4 then Stop(ShortData) else Take(DecodeAggregator(BE32(a.asn) + t[..4], enc2), 11)
    ensures |t| >= 4 ==> (Encode(a) + t)[11..] == t[4..]
  {
    var head := Header(8, OPTIONAL, AGGREGATOR);
    var b := Encode(a) + t;
    assert Encode(a) == head + BE32(a.asn);
    Assoc(head, BE32(a.asn), t);
    if |t| >= 4 {
      HeaderOctets(8, OPTIONAL, AGGREGATOR, BE32(a.asn) + t);
      assert b[3..11] == BE32(a.asn) + t[..4];
    } else {
      assert b[0] == HeaderFlags(OPTIONAL, 8) && b[2] == 8;
      assert DecodeHeader(b) == Err(ShortData);
    }
  }

  /** Content that is no path and no aggregator does not grow when it is written again. */
  lemma ContentDoesNotGrow(flags: byte, code: byte, d: seq<byte>, list: Families, enc2: bool)
    requires DecodeData(flags, code, d, list, enc2).Ok?
    ensures var a := DecodeData(flags, code, d, list, enc2).value;
      !a.Path? && !a.Aggregator? ==> Writable(a) && |Content(a)| <= |d|
  {
    if code == REACH {
      DecodedReachIsRegular(d, list, enc2);
    } else if code == UNREACH {
      DecodedUnreachIsRegular(d, list, enc2);
    }
  }

  /** The header of an attribute and its data: what the decoder uses up for it. */
  predicate ReadFrom(r: seq<byte>, h: Head, a: Attribute, list: Families, enc2: bool) {
    && DecodeHeader(r) == Ok(h) && |r| == h.start + h.length
    && DecodeData(h.flags, h.code, r[h.start..], list, enc2) == Ok(a)
  }

  lemma OthersAreNotShorter(a: Attribute, r: seq<byte>, h: Head, list: Families, enc2: bool)
    requires ReadFrom(r, h, a, list, enc2) && Writable(a) && !a.Path? && !a.Aggregator?
    ensures |Encode(a)| <= |r|
  {
    hide Content, DecodeData;
    ContentDoesNotGrow(h.flags, h.code, r[h.start..], list, enc2);
  }

  /** The octets an AGGREGATOR was read from do not stand inside those written for it: its code comes nowhere else there. */
  lemma AggregatorIsNotInside(a: Attribute, d: nat, r: seq<byte>, h: Head, list: Families)
    requires a.Aggregator? && ReadFrom(r, h, a, list, true)
    requires 0 < d && d + |r| <= |Encode(a)|
    ensures r != Encode(a)[d..d + |r|]
  {
    hide BE32;
    var e := Encode(a);
    assert h.code == AGGREGATOR && r[1] == AGGREGATOR;
    AggregatorOctets(a);
    assert a.id == [] ==> a.asn == 0;
    assert a.id != [] ==> a.asn < 0x1_0000 && h.length == 6;
    assert e[d..d + |r|][1] == e[d + 1];
  }

  lemma AggregatorOctets(a: Attribute)
    requires a.Aggregator?
    ensures var e := Encode(a);
      |e| == 7 + |a.id| && e[2] == 8 && (a.asn < 0x1_0000 ==> e[3] == 0) && (a.asn == 0 ==> e[4] == e[5] == e[6] == 0)
  {
  }

  /** Nor do those a path was read from. */
  lemma PathIsNotInside(a: Attribute, d: nat, r: seq<byte>, h: Head, list: Families)
    requires a.Path? && ReadFrom(r, h, a, list, true) && |Content(a)| <= 0xffff
    requires 0 < d && d + |r| <= |Encode(a)|
    ensures r != Encode(a)[d..d + |r|]
  {
    hide AsPath.Parse, AsPath.EncodeAll, Encode, Content, DecodeData;
    var e := Encode(a);
    if r == e[d..d + |r|] {
      PathStandsInFront(a, d, r, h, list);
      assert e[d..d + |r|][1] == e[d + 1] && e[d..d + |r|][2] == e[d + 2];
      PathHeader(a);
    }
  }

  lemma PathSource(a: Attribute, r: seq<byte>, h: Head, list: Families)
    requires a.Path? && ReadFrom(r, h, a, list, true)
    ensures 3 <= h.start <= |r| && r[1] == ASPATH && Content(a) == AsPath.EncodeAll(AsPath.Parse(r[h.start..], true), true)
  {
    hide AsPath.Parse, AsPath.EncodeAll;
  }

  /** If they did, only the header could be in a different place, and the path could not be much longer. */
  lemma PathStandsInFront(a: Attribute, d: nat, r: seq<byte>, h: Head, list: Families)
    requires a.Path? && ReadFrom(r, h, a, list, true) && |Content(a)| <= 0xffff
    requires 0 < d && d + |r| <= |Encode(a)| && r == Encode(a)[d..d + |r|]
    ensures r[1] == ASPATH && d + h.start == HeaderLen(|Content(a)|) && |Content(a)| <= h.length + 510
  {
    hide AsPath.Parse, AsPath.EncodeAll, Header, Encode, Content, DecodeData, DecodeHeader;
    var (e, c, data) := (Encode(a), Content(a), r[h.start..]);
    var hl := HeaderLen(|c|);
    PathHeader(a);
    PathSource(a, r, h, list);
    var s := d + h.start - hl;
    SplitConcat(Header(|c|, TRANSITIVE, ASPATH), c);
    DropThenSlice(e, hl, s, s + |data|);
    assert e[d..d + |r|][h.start..] == e[d + h.start..d + |r|];
    AsPath.InsideIsFront(data, s);
    AsPath.RewrittenLength(data);
  }

  lemma PathHeader(a: Attribute)
    requires a.Path? && |Content(a)| <= 0xffff
    ensures Encode(a) == Header(|Content(a)|, TRANSITIVE, ASPATH) + Content(a)
    ensures |Content(a)| > 0xff ==> Encode(a)[2] == |Content(a)| / 0x100 && Encode(a)[3] == |Content(a)| % 0x100
    ensures |Encode(a)| == HeaderLen(|Content(a)|) + |Content(a)|
  {
  }

  /** In two-octet mode, an attribute that is read from a later place ends later than where it is written. */
  lemma EndsLater(a: Attribute, t: seq<byte>, d: nat, list: Families)
    requires Writable(a) && |Content(a)| <= 0xffff
    requires 0 < d <= |Encode(a) + t| && (Encode(a) + t)[d..] != []
    requires var n := Next((Encode(a) + t)[d..], list, true); n.Take? && n.attribute == a
    ensures d + Next((Encode(a) + t)[d..], list, true).used > |Encode(a)|
  {
    hide Content, Encode, DecodeData, DecodeHeader;
    var (e, x) := (Encode(a), (Encode(a) + t)[d..]);
    var h := DecodeHeader(x).value;
    var u := h.start + h.length;
    if d + u <= |e| {
      var r := e[d..d + u];
      assert x[..u] == r;
      assert x[h.start..u] == r[h.start..];
      HeaderOfPart(x, u);
      if a.Path? {
        PathIsNotInside(a, d, r, h, list);
      } else if a.Aggregator? {
        AggregatorIsNotInside(a, d, r, h, list);
      } else {
        OthersAreNotShorter(a, r, h, list, true);
      }
    }
  }

  lemma HeaderOfPart(x: seq<byte>, u: nat)
    requires DecodeHeader(x).Ok? && u == DecodeHeader(x).value.start + DecodeHeader(x).value.length
    ensures u <= |x| && DecodeHeader(x[..u]) == DecodeHeader(x)
  {
    if Extended(x[0]) {
      assert x[..u][2..][0] == x[2..][0] && x[..u][2..][1] == x[2..][1];
    }
  }

  /** So a reader ahead of the writer stays ahead, and runs out of input before it has read all attributes. */
  lemma {:induction false} AttributesAheadFail(l: seq<Attribute>, d: nat, list: Families)
    requires forall a | a in l :: Writable(a) && |Content(a)| <= 0xffff
    requires 0 < d <= |EncodeAll(l)|
    ensures Parse(EncodeAll(l)[d..], list, true) != AttrResult(l, None)
    decreases |l|
  {
    hide Content, Encode, Next;
    var b := EncodeAll(l);
    var x := b[d..];
    if Parse(x, list, true) == AttrResult(l, None) {
      EmptyList(list, true);
      var (a, t) := (l[0], EncodeAll(l[1..]));
      var n := Next(x, list, true);
      assert n.Take?;
      JoinedIff(n.attribute, a, Parse(x[n.used..], list, true), l[1..]);
      assert [a] + l[1..] == l;
      EndsLater(a, t, d, list);
      var ahead := d + n.used - |Encode(a)|;
      assert t[ahead..] == x[n.used..];
      AttributesAheadFail(l[1..], ahead, list);
    }
  }

  lemma FirstSurvivesIff(a: Attribute, l: seq<Attribute>, list: Families, enc2: bool)
    requires Regular(a, list, enc2) && Writable(a) && |Content(a)| <= 0xffff
    requires forall x | x in l :: Writable(x) && |Content(x)| <= 0xffff
    ensures AllWritable(l)
    ensures Parse(Encode(a) + EncodeAll(l), list, enc2) == AttrResult([a] + l, None)
      <==> Parse(Encode(a), list, enc2) == AttrResult([a], None) && Parse(EncodeAll(l), list, enc2) == AttrResult(l, None)
  {
    hide Content, Header, DecodeData, DecodeAggregator, Regular;
    var t := EncodeAll(l);
    var b := Encode(a) + t;
    if DeclaredSize(a) == |Content(a)| {
      FramedTurn(a, t, list, enc2);
      AloneTurn(a, list, enc2);
      SplitConcat(Encode(a), t);
      if Next(b, list, enc2).Take? {
        JoinedIff(Next(b, list, enc2).attribute, a, Parse(t, list, enc2), l);
      }
    } else {
      IncompleteId(a, list, enc2);
      AggregatorSurvivesIff(a, list, enc2);
      IncompleteFails(a, l, list, enc2);
    }
  }

  lemma IncompleteFails(a: Attribute, l: seq<Attribute>, list: Families, enc2: bool)
    requires a.Aggregator? && a.id == [] && forall x | x in l :: Writable(x) && |Content(x)| <= 0xffff
    ensures Parse(Encode(a) + EncodeAll(l), list, enc2) != AttrResult([a] + l, None)
  {
    hide Content, Encode, Next, DecodeAggregator;
    var t := EncodeAll(l);
    var b := Encode(a) + t;
    AggregatorSwallows(a, t, list, enc2);
    if |t| >= 4 {
      JoinedIff(DecodeAggregator(BE32(a.asn) + t[..4], enc2), a, Parse(t[4..], list, enc2), l);
      if enc2 {
        AttributesAheadFail(l, 4, list);
      } else {
        CompletedDiffers(a, t);
      }
    }
  }

  lemma CompletedDiffers(a: Attribute, t: seq<byte>)
    requires a.Aggregator? && a.id == [] && |t| >= 4
    ensures DecodeAggregator(BE32(a.asn) + t[..4], false) != a
  {
  }

  lemma IncompleteId(a: Attribute, list: Families, enc2: bool)
    requires Regular(a, list, enc2) && Writable(a) && DeclaredSize(a) != |Content(a)|
    ensures a.Aggregator? && a.id == []
  {
  }

  lemma JoinedIff(x: Attribute, a: Attribute, tail: AttrResult, l: seq<Attribute>)
    ensures Resume([x], tail) == AttrResult([a] + l, None) <==> x == a && tail == AttrResult(l, None)
  {
    if tail.err.None? {
      assert ([x] + tail.attributes)[0] == x && ([a] + l)[0] == a;
      assert ([x] + tail.attributes)[1..] == tail.attributes && ([a] + l)[1..] == l;
    }
  }

  /** A list of decoded attributes is read back unchanged exactly when each of them on its own is. */
  lemma {:induction false} ListSurvivesIff(l: seq<Attribute>, list: Families, enc2: bool)
    requires forall a | a in l :: Regular(a, list, enc2) && Writable(a) && |Content(a)| <= 0xffff
    ensures AllWritable(l)
    ensures Parse(EncodeAll(l), list, enc2) == AttrResult(l, None)
      <==> forall a | a in l :: Parse(Encode(a), list, enc2) == AttrResult([a], None)
  {
    hide Parse, Content, Regular, Encode;
    if l == [] {
      assert Parse([], list, enc2) == AttrResult([], None) by {
        EmptyList(list, enc2);
      }
    } else {
      assert forall a :: a in l <==> a == l[0] || a in l[1..];
      assert [l[0]] + l[1..] == l;
      FirstSurvivesIff(l[0], l[1..], list, enc2);
      ListSurvivesIff(l[1..], list, enc2);
    }
  }

  lemma EmptyList(list: Families, enc2: bool)
    ensures Parse([], list, enc2) == AttrResult([], None)
  {
  }

  /**
    For every accepted octet string: re-encoding and reading gives the decoded list back exactly when each attribute is
    stable, or an MP_UNREACH without routes, and in normal form.
   */
  lemma ReencodingIsIdentityIff(b: seq<byte>, list: Families, enc2: bool)
    requires |b| <= 0xffff - 2040 && Parse(b, list, enc2).err.None?
    ensures var l := Parse(b, list, enc2).attributes;
      && AllWritable(l)
      && (Parse(EncodeAll(l), list, enc2) == Parse(b, list, enc2)
          <==> forall a | a in l :: (Stable(a, list, enc2) || (a.MpUnreach? && a.unreach == [])) && Normal(a, enc2))
  {
    hide Parse, Content, Regular, Encode, EncodeAll, Stable, Normal;
    var l := Parse(b, list, enc2).attributes;
    ParsedIsRegular(b, list, enc2);
    ListSurvivesIff(l, list, enc2);
    forall a | a in l
      ensures Parse(Encode(a), list, enc2) == AttrResult([a], None)
        <==> (Stable(a, list, enc2) || (a.MpUnreach? && a.unreach == [])) && Normal(a, enc2)
    {
      SurvivesIff(a, list, enc2);
    }
  }

  // ---------------------------------------------------------------- framing

  /** More input after a complete attribute does not change it. */
  lemma NextIgnoresRest(b: seq<byte>, t: seq<byte>, list: Families, enc2: bool)
    requires Next(b, list, enc2).Take?
    ensures Next(b + t, list, enc2) == Next(b, list, enc2)
    ensures (b + t)[Next(b, list, enc2).used..] == b[Next(b, list, enc2).used..] + t
  {
    var h := DecodeHeader(b).value;
    var end := h.start + h.length;
    SlicePrefix(b, t, 2, end);
    SlicePrefix(b, t, h.start, end);
    SlicePrefix(b, t, end, end);
    assert DecodeHeader(b + t) == Ok(h);
  }

  /** Reading two accepted lists joined gives the two results joined. */
  lemma {:induction false} ParseConcat(b: seq<byte>, t: seq<byte>, list: Families, enc2: bool)
    requires Parse(b, list, enc2).err.None?
    ensures Parse(b + t, list, enc2) == Resume(Parse(b, list, enc2).attributes, Parse(t, list, enc2))
    decreases |b|
  {
    if b == [] {
      assert b + t == t;
    } else {
      var Take(a, used) := Next(b, list, enc2);
      NextIgnoresRest(b, t, list, enc2);
      ParseConcat(b[used..], t, list, enc2);
      ResumeTwice([a], Parse(b[used..], list, enc2).attributes, Parse(t, list, enc2));
    }
  }

  function Flatten(l: seq<seq<byte>>): seq<byte> {
    if l == [] then [] else l[0] + Flatten(l[1..])
  }

  /** An accepted list is cut without gap or overlap into pieces, one for each attribute, that decode to it alone. */
  lemma {:induction false} AttributesTile(b: seq<byte>, list: Families, enc2: bool) returns (pieces: seq<seq<byte>>)
    requires Parse(b, list, enc2).err.None?
    ensures |pieces| == |Parse(b, list, enc2).attributes| && Flatten(pieces) == b
    ensures forall i :: 0 <= i < |pieces| ==>
      Parse(pieces[i], list, enc2) == AttrResult([Parse(b, list, enc2).attributes[i]], None)
    decreases |b|
  {
    if b == [] {
      pieces := [];
    } else {
      var Take(a, used) := Next(b, list, enc2);
      var rest := AttributesTile(b[used..], list, enc2);
      pieces := [b[..used]] + rest;
      AttributeAlone(b, list, enc2);
      assert b == b[..used] + b[used..];
      assert pieces[1..] == rest;
    }
  }

  lemma AttributeAlone(b: seq<byte>, list: Families, enc2: bool)
    requires b != [] && Next(b, list, enc2).Take?
    ensures var Take(a, used) := Next(b, list, enc2); Parse(b[..used], list, enc2) == AttrResult([a], None)
  {
    var Take(a, used) := Next(b, list, enc2);
    var h := DecodeHeader(b).value;
    var piece := b[..used];
    if Extended(b[0]) {
      assert U16(piece[2..]) == U16(b[2..]);
    }
    assert DecodeHeader(piece) == Ok(h);
    assert piece[h.start..used] == b[h.start..used];
    assert piece[used..] == [];
    assert Parse(piece[used..], list, enc2) == AttrResult([], None);
  }
}
