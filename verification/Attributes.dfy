/**
  Path attributes: the data, their wire form and `ParsePathAttribute` (sections 4.3 and 5 of RFC 4271, sections
  3 and 4 of RFC 4760, section 3 of RFC 8092).
 */
module Attributes {
  import opened Bytes
  import Nlri
  import AsPath

  const ORIGIN: byte := 1
  const ASPATH: byte := 2
  const NEXTHOP: byte := 3
  const MED: byte := 4
  const LOCPREF: byte := 5
  const ATOMIC_AGGREGATE: byte := 6
  const AGGREGATOR: byte := 7
  const COMMUNITIES: byte := 8
  const REACH: byte := 14
  const UNREACH: byte := 15
  const LARGECOMMUNITIES: byte := 32

  const TRANSITIVE: byte := 0x40
  const TRANSITIVEOPT: byte := 0xC0
  const OPTIONAL: byte := 0x80
  const EXTENDED: byte := 0x10

  datatype LargeCommunity = LargeCommunity(globalAdmin: u32, localData1: u32, localData2: u32)

  datatype Attribute =
    | Origin(origin: byte)
    | Path(segments: seq<AsPath.Segment>, enc2: bool)
    | NextHop(nextHop: seq<byte>)
    | Med(med: u32)
    | LocPref(locPref: u32)
    | AtomicAggregate
    | Aggregator(asn: u32, id: seq<byte>, aggEnc2: bool)
    | Communities(communities: seq<u32>)
    | LargeCommunities(large: seq<LargeCommunity>)
    | MpReach(afi: u16, safi: byte, via: seq<byte>, reach: seq<Nlri.Prefix>, addPath: bool)
    | MpUnreach(afi: u16, safi: byte, unreach: seq<Nlri.Prefix>, addPath: bool)
    | Raw(flags: byte, code: byte, data: seq<byte>)

  function CodeOf(a: Attribute): byte {
    match a
    case Origin(_) => ORIGIN
    case Path(_, _) => ASPATH
    case NextHop(_) => NEXTHOP
    case Med(_) => MED
    case LocPref(_) => LOCPREF
    case AtomicAggregate => ATOMIC_AGGREGATE
    case Aggregator(_, _, _) => AGGREGATOR
    case Communities(_) => COMMUNITIES
    case LargeCommunities(_) => LARGECOMMUNITIES
    case MpReach(_, _, _, _, _) => REACH
    case MpUnreach(_, _, _, _) => UNREACH
    case Raw(_, code, _) => code
  }

  function FlagsOf(a: Attribute): byte {
    match a
    case Origin(_) => TRANSITIVE
    case Path(_, _) => TRANSITIVE
    case NextHop(_) => TRANSITIVE
    case Communities(_) => TRANSITIVEOPT
    case LargeCommunities(_) => TRANSITIVEOPT
    case Raw(flags, _, _) => flags
    case _ => OPTIONAL
  }

  /** The codes `ParsePathAttribute` decodes; any other code is kept as raw data. */
  predicate KnownCode(code: byte) {
    1 <= code <= 8 || code == REACH || code == UNREACH || code == LARGECOMMUNITIES
  }

  // ---------------------------------------------------------------- attribute header

  predicate Extended(flags: byte) {
    flags / EXTENDED % 2 == 1
  }

  function HeaderFlags(flags: byte, size: nat): byte {
    (if Extended(flags) then flags - EXTENDED else flags) + if size > 0xff then EXTENDED else 0
  }

  function HeaderLen(size: nat): nat {
    if size > 0xff then 4 else 3
  }

  function Header(size: nat, flags: byte, code: byte): (r: seq<byte>)
    ensures |r| == HeaderLen(size)
  {
    [HeaderFlags(flags, size), code]
    + (if size > 0xff then [size / 0x100 % 0x100] else [])
    + [size % 0x100]
  }

  method WriteAttributeHeader(w: Buffer, size: nat, attrflag: byte, attrcode: byte)
    modifies w
    ensures w.data == old(w.data) + Header(size, attrflag, attrcode)
  {
    w.PutByte(HeaderFlags(attrflag, size));
    w.PutByte(attrcode);
    if size > 0xff {
      w.PutByte(size / 0x100 % 0x100);
    }
    w.PutByte(size % 0x100);
  }

  // ---------------------------------------------------------------- attribute content

  function IPtoBytes(ip: seq<byte>): (r: seq<byte>)
    ensures |r| == 0 || |r| == 4 || |r| == 16
  {
    if IsIPv4(ip) then To4(ip) else To16(ip)
  }

  /** Two addresses are written alike exactly when they are the same address, in whichever of its forms each is kept. */
  lemma WrittenAlikeIff(x: seq<byte>, y: seq<byte>)
    ensures IPtoBytes(x) == IPtoBytes(y) <==> To16(x) == To16(y)
  {
    MappedForm(x);
    MappedForm(y);
    SplitConcat(Zeros(10) + [255, 255], IPtoBytes(x));
    SplitConcat(Zeros(10) + [255, 255], IPtoBytes(y));
  }

  /** The long form of an address follows from its written one. */
  lemma MappedForm(ip: seq<byte>)
    ensures To16(ip) == if |IPtoBytes(ip)| == 4 then Zeros(10) + [255, 255] + IPtoBytes(ip) else IPtoBytes(ip)
    ensures |IPtoBytes(ip)| == 16 ==> !IsMapped(IPtoBytes(ip))
  {
    if IsMapped(ip) {
      assert ip == ip[..10] + [255, 255] + ip[12..];
    }
  }

  function EncodeU32s(xs: seq<u32>): (r: seq<byte>)
    ensures |r| == 4 * |xs|
  {
    if xs == [] then [] else BE32(xs[0]) + EncodeU32s(xs[1..])
  }

  function EncodeLarge(c: LargeCommunity): (r: seq<byte>)
    ensures |r| == 12
  {
    BE32(c.globalAdmin) + BE32(c.localData1) + BE32(c.localData2)
  }

  function EncodeLarges(cs: seq<LargeCommunity>): (r: seq<byte>)
    ensures |r| == 12 * |cs|
  {
    if cs == [] then [] else EncodeLarge(cs[0]) + EncodeLarges(cs[1..])
  }

  /** The prefixes carried can be sliced as the writer does. */
  predicate Writable(a: Attribute) {
    (a.MpReach? ==> Nlri.AllWritable(a.reach)) && (a.MpUnreach? ==> Nlri.AllWritable(a.unreach))
  }

  /** The octets written after the header. */
  function Content(a: Attribute): seq<byte>
    requires Writable(a)
  {
    match a
    case Origin(origin) => [origin]
    case Path(segments, enc2) => AsPath.EncodeAll(segments, enc2)
    case NextHop(ip) => IPtoBytes(ip)
    case Med(med) => BE32(med)
    case LocPref(locPref) => BE32(locPref)
    case AtomicAggregate => []
    case Aggregator(asn, id, _) => BE32(asn) + id
    case Communities(xs) => EncodeU32s(xs)
    case LargeCommunities(cs) => EncodeLarges(cs)
    case MpReach(afi, safi, via, reach, addPath) =>
      ReachHead(afi, safi, IPtoBytes(via)) + Nlri.EncodeList(reach, addPath)
    case MpUnreach(afi, safi, unreach, addPath) => BE16(afi) + [safi] + Nlri.EncodeList(unreach, addPath)
    case Raw(_, _, data) => data
  }

  /** MP_REACH up to its prefixes: family, next hop and the reserved octet. */
  function ReachHead(afi: u16, safi: byte, via: seq<byte>): (r: seq<byte>)
    requires |via| <= 16
    ensures |r| == 5 + |via|
  {
    BE16(afi) + [safi, |via|] + via + [0]
  }

  /** The content size announced in the header: AGGREGATOR always says 8. */
  function DeclaredSize(a: Attribute): nat
    requires Writable(a)
  {
    if a.Aggregator? then 8 else |Content(a)|
  }

  function Encode(a: Attribute): seq<byte>
    requires Writable(a)
  {
    Header(DeclaredSize(a), FlagsOf(a), CodeOf(a)) + Content(a)
  }

  predicate AllWritable(l: seq<Attribute>) {
    forall a | a in l :: Writable(a)
  }

  function EncodeAll(l: seq<Attribute>): seq<byte>
    requires AllWritable(l)
  {
    if l == [] then [] else Encode(l[0]) + EncodeAll(l[1..])
  }

  method WriteU32s(xs: seq<u32>, w: Buffer)
    modifies w
    ensures w.data == old(w.data) + EncodeU32s(xs)
  {
    for i := 0 to |xs|
      invariant w.data + EncodeU32s(xs[i..]) == old(w.data) + EncodeU32s(xs)
    {
      assert xs[i..][1..] == xs[i + 1..];
      Assoc(w.data, BE32(xs[i]), EncodeU32s(xs[i + 1..]));
      w.PutU32(xs[i]);
    }
  }

  method WriteLarges(cs: seq<LargeCommunity>, w: Buffer)
    modifies w
    ensures w.data == old(w.data) + EncodeLarges(cs)
  {
    for i := 0 to |cs|
      invariant w.data + EncodeLarges(cs[i..]) == old(w.data) + EncodeLarges(cs)
    {
      assert cs[i..][1..] == cs[i + 1..];
      Assoc(w.data, EncodeLarge(cs[i]), EncodeLarges(cs[i + 1..]));
      ghost var before := w.data;
      w.PutU32(cs[i].globalAdmin);
      w.PutU32(cs[i].localData1);
      w.PutU32(cs[i].localData2);
      assert w.data == before + EncodeLarge(cs[i]);
    }
  }

  /** The `LenContent` and `ContentLen` methods of the attributes. */
  method ContentLen(a: Attribute) returns (size: nat)
    requires Writable(a)
    ensures size == DeclaredSize(a)
  {
    match a
    case Origin(_) => size := 1;
    case Path(segments, enc2) => size := AsPath.LenAll(segments, enc2);
    case NextHop(ip) => size := |IPtoBytes(ip)|;
    case Med(_) => size := 4;
    case LocPref(_) => size := 4;
    case AtomicAggregate => size := 0;
    case Aggregator(_, _, _) => size := 8;
    case Communities(xs) => size := 4 * |xs|;
    case LargeCommunities(cs) => size := 12 * |cs|;
    case MpReach(_, _, via, reach, addPath) =>
      var sum := Nlri.ListLen(reach, addPath);
      size := 4 + |IPtoBytes(via)| + 1 + sum;
    case MpUnreach(_, _, unreach, addPath) =>
      var sum := Nlri.ListLen(unreach, addPath);
      size := 3 + sum;
    case Raw(_, _, data) => size := |data|;
  }

  /** `Len` of an attribute: it is the number of octets `Write` appends, but for an AGGREGATOR whose identifier is not four octets. */
  method Len(a: Attribute) returns (len: nat)
    requires Writable(a)
    ensures len == |Encode(a)| <==> (a.Aggregator? ==> |a.id| == 4)
    ensures len == HeaderLen(DeclaredSize(a)) + DeclaredSize(a)
  {
    var size := ContentLen(a);
    len := HeaderLen(size) + size;
  }

  method WriteContent(a: Attribute, w: Buffer)
    requires Writable(a)
    modifies w
    ensures w.data == old(w.data) + Content(a)
  {
    ghost var before := w.data;
    match a
    case Origin(origin) => w.PutByte(origin);
    case Path(segments, enc2) => AsPath.WriteAll(segments, w, enc2);
    case NextHop(ip) => w.PutBytes(IPtoBytes(ip));
    case Med(med) => w.PutU32(med);
    case LocPref(locPref) => w.PutU32(locPref);
    case AtomicAggregate =>
    case Aggregator(asn, id, _) =>
      w.PutU32(asn);
      w.PutBytes(id);
      Assoc(before, BE32(asn), id);
    case Communities(xs) => WriteU32s(xs, w);
    case LargeCommunities(cs) => WriteLarges(cs, w);
    case MpReach(afi, safi, via, reach, addPath) =>
      WriteReachHead(afi, safi, IPtoBytes(via), w);
      Nlri.WriteList(reach, w, addPath);
      Assoc(before, ReachHead(afi, safi, IPtoBytes(via)), Nlri.EncodeList(reach, addPath));
    case MpUnreach(afi, safi, unreach, addPath) =>
      w.PutU16(afi);
      w.PutByte(safi);
      Assoc(before, BE16(afi), [safi]);
      Nlri.WriteList(unreach, w, addPath);
      Assoc(before, BE16(afi) + [safi], Nlri.EncodeList(unreach, addPath));
    case Raw(_, _, data) => w.PutBytes(data);
  }

  method WriteReachHead(afi: u16, safi: byte, via: seq<byte>, w: Buffer)
    requires |via| <= 16
    modifies w
    ensures w.data == old(w.data) + ReachHead(afi, safi, via)
  {
    w.PutU16(afi);
    w.PutByte(safi);
    w.PutByte(|via|);
    w.PutBytes(via);
    w.PutByte(0);
  }

  method Write(a: Attribute, w: Buffer)
    requires Writable(a)
    modifies w
    ensures w.data == old(w.data) + Encode(a)
  {
    ghost var before := w.data;
    var size := ContentLen(a);
    WriteAttributeHeader(w, size, FlagsOf(a), CodeOf(a));
    WriteContent(a, w);
    Assoc(before, Header(size, FlagsOf(a), CodeOf(a)), Content(a));
  }

  method WriteAll(l: seq<Attribute>, w: Buffer)
    requires AllWritable(l)
    modifies w
    ensures w.data == old(w.data) + EncodeAll(l)
  {
    for i := 0 to |l|
      invariant w.data + EncodeAll(l[i..]) == old(w.data) + EncodeAll(l)
    {
      assert l[i..][1..] == l[i + 1..];
      Assoc(w.data, Encode(l[i]), EncodeAll(l[i + 1..]));
      Write(l[i], w);
    }
  }

  predicate IdsComplete(l: seq<Attribute>) {
    forall a | a in l :: a.Aggregator? ==> |a.id| == 4
  }

  /** The sum of the lengths the attributes announce. */
  function DeclaredLenAll(l: seq<Attribute>): nat
    requires AllWritable(l)
  {
    if l == [] then 0 else HeaderLen(DeclaredSize(l[0])) + DeclaredSize(l[0]) + DeclaredLenAll(l[1..])
  }

  lemma {:induction false} DeclaredIsWritten(l: seq<Attribute>)
    requires AllWritable(l) && IdsComplete(l)
    ensures DeclaredLenAll(l) == |EncodeAll(l)|
  {
    if l != [] {
      DeclaredIsWritten(l[1..]);
    }
  }

  /** The loop of `LenPathAttribute`: with complete identifiers it counts the octets `WriteAll` will append. */
  method LenAll(l: seq<Attribute>) returns (sum: nat)
    requires AllWritable(l)
    ensures sum == DeclaredLenAll(l)
    ensures IdsComplete(l) ==> sum == |EncodeAll(l)|
  {
    sum := 0;
    for i := 0 to |l|
      invariant sum + DeclaredLenAll(l[i..]) == DeclaredLenAll(l)
    {
      var n := Len(l[i]);
      sum := sum + n;
      assert l[i..][1..] == l[i + 1..];
    }
    if IdsComplete(l) {
      DeclaredIsWritten(l);
    }
  }

  // ---------------------------------------------------------------- decoding

  datatype AttrError =
    | ShortHeader | ShortExtended | ShortData | EmptyOrigin | ShortMed | ShortLocPref | ShortNextHop
    | ShortReach | ReachNextHop | ReachNoNlri | ShortUnreach

  /** The two results of `ParsePathAttribute`; the attributes before an error are returned with it. */
  datatype AttrResult = AttrResult(attributes: seq<Attribute>, err: Option<AttrError>)

  datatype Head = Head(flags: byte, code: byte, start: nat, length: nat)

  function DecodeHeader(b: seq<byte>): (r: Result<Head, AttrError>)
    ensures r.Ok? ==> 3 <= r.value.start <= r.value.start + r.value.length <= |b|
  {
    if |b| < 3 then Err(ShortHeader)
    else if Extended(b[0]) && |b| < 4 then Err(ShortExtended)
    else
      var h := if Extended(b[0]) then Head(b[0], b[1], 4, U16(b[2..])) else Head(b[0], b[1], 3, b[2]);
      if h.start + h.length > |b| then Err(ShortData) else Ok(h)
  }

  function InAfiSafi(afi: u16, safi: byte, list: seq<Nlri.AfiSafi>): bool {
    Nlri.AfiSafi(afi, safi) in list
  }

  method FindAfiSafi(afi: u16, safi: byte, list: seq<Nlri.AfiSafi>) returns (found: bool)
    ensures found == InAfiSafi(afi, safi, list)
  {
    for i := 0 to |list|
      invariant Nlri.AfiSafi(afi, safi) !in list[..i]
    {
      if list[i].afi == afi && list[i].safi == safi {
        return true;
      }
    }
    return false;
  }

  function DecodeU32s(b: seq<byte>): (r: seq<u32>)
    ensures |r| == |b| / 4
  {
    if |b| < 4 then [] else [U32(b)] + DecodeU32s(b[4..])
  }

  function DecodeLarges(b: seq<byte>): (r: seq<LargeCommunity>)
    ensures |r| == |b| / 12
  {
    if |b| < 12 then [] else [LargeCommunity(U32(b), U32(b[4..]), U32(b[8..]))] + DecodeLarges(b[12..])
  }

  /** An identifier of the wrong length leaves the ASN 0 and the identifier empty. */
  function DecodeAggregator(d: seq<byte>, enc2: bool): Attribute {
    if |d| == 8 && !enc2 then Aggregator(U32(d), d[4..8], enc2)
    else if |d| == 6 && enc2 then Aggregator(U16(d), d[2..6], enc2)
    else Aggregator(0, [], enc2)
  }

  /** An error among the prefixes of MP_REACH is dropped: those decoded before it are kept. */
  function DecodeReach(d: seq<byte>, list: seq<Nlri.AfiSafi>): Result<Attribute, AttrError> {
    if |d| < 4 then Err(ShortReach)
    else if 4 + d[3] > |d| then Err(ReachNextHop)
    else if 5 + d[3] > |d| then Err(ReachNoNlri)
    else
      var (afi, safi, pos) := (U16(d), d[2], 5 + d[3] as int);
      var path := InAfiSafi(afi, safi, list);
      Ok(MpReach(afi, safi, d[4..pos - 1], Nlri.Parse(d[pos..], afi, path).list, path))
  }

  /** MP_UNREACH is decoded with path identifiers when the list asks for them, but does not record it. */
  function DecodeUnreach(d: seq<byte>, list: seq<Nlri.AfiSafi>): Result<Attribute, AttrError> {
    if |d| < 3 then Err(ShortUnreach)
    else
      var (afi, safi) := (U16(d), d[2]);
      Ok(MpUnreach(afi, safi, Nlri.Parse(d[3..], afi, InAfiSafi(afi, safi, list)).list, false))
  }

  /** The `switch` on the attribute code. */
  function DecodeData(flags: byte, code: byte, d: seq<byte>, list: seq<Nlri.AfiSafi>, enc2: bool):
      Result<Attribute, AttrError> {
    if code == ORIGIN then (if d == [] then Err(EmptyOrigin) else Ok(Origin(d[0])))
    else if code == MED then (if |d| < 4 then Err(ShortMed) else Ok(Med(U32(d))))
    else if code == AGGREGATOR then Ok(DecodeAggregator(d, enc2))
    else if code == ATOMIC_AGGREGATE then Ok(AtomicAggregate)
    else if code == LOCPREF then (if |d| < 4 then Err(ShortLocPref) else Ok(LocPref(U32(d))))
    else if code == ASPATH then Ok(Path(AsPath.Parse(d, enc2), enc2))
    else if code == NEXTHOP then (if |d| < 4 then Err(ShortNextHop) else Ok(NextHop(d[..4])))
    else if code == COMMUNITIES then Ok(Communities(DecodeU32s(d)))
    else if code == LARGECOMMUNITIES then Ok(LargeCommunities(DecodeLarges(d)))
    else if code == REACH then DecodeReach(d, list)
    else if code == UNREACH then DecodeUnreach(d, list)
    else Ok(Raw(flags, code, d))
  }

  datatype Turn = Stop(err: AttrError) | Take(attribute: Attribute, used: nat)

  /** What one turn of the outer loop finds at the head of the remaining input. */
  function Next(b: seq<byte>, list: seq<Nlri.AfiSafi>, enc2: bool): (r: Turn)
    ensures r.Take? ==> 3 <= r.used <= |b|
  {
    match DecodeHeader(b)
    case Err(e) => Stop(e)
    case Ok(h) =>
      var end := h.start + h.length;
      match DecodeData(h.flags, h.code, b[h.start..end], list, enc2)
      case Err(e) => Stop(e)
      case Ok(a) => Take(a, end)
  }

  /** The whole result when `acc` was decoded before `tail`; a short NEXT_HOP drops everything. */
  function Resume(acc: seq<Attribute>, tail: AttrResult): AttrResult {
    if tail.err == Some(ShortNextHop) then tail else AttrResult(acc + tail.attributes, tail.err)
  }

  lemma ResumeTwice(a: seq<Attribute>, b: seq<Attribute>, tail: AttrResult)
    ensures Resume(a, Resume(b, tail)) == Resume(a + b, tail)
  {
    Assoc(a, b, tail.attributes);
  }

  function Parse(b: seq<byte>, list: seq<Nlri.AfiSafi>, enc2: bool): AttrResult {
    if b == [] then AttrResult([], None)
    else
      match Next(b, list, enc2)
      case Stop(e) => AttrResult([], Some(e))
      case Take(a, used) => Resume([a], Parse(b[used..], list, enc2))
  }

  method ReadCommunities(data: seq<byte>) returns (communities: seq<u32>)
    ensures communities == DecodeU32s(data)
  {
    var n := |data| / 4;
    var a := new u32[n];
    assert data[0..] == data;
    for j := 0 to n
      invariant a[..j] + DecodeU32s(data[4 * j..]) == DecodeU32s(data)
    {
      var off := j * 4;
      var next := off + 4;
      ghost var rest := DecodeU32s(data[next..]);
      assert data[off..][4..] == data[next..];
      Assoc(a[..j], [U32(data[off..])], rest);
      a[j] := U32(data[off..]);
      assert a[..j + 1] == a[..j] + [a[j]];
      assert 4 * (j + 1) == next;
    }
    communities := a[..];
  }

  lemma DecodeLargeAt(b: seq<byte>, i: nat, j: nat)
    requires j == i + 12 <= |b|
    ensures DecodeLarges(b[i..])
         == [LargeCommunity(U32(b[i..]), U32(b[i + 4..]), U32(b[i + 8..]))] + DecodeLarges(b[j..])
  {
    DropThenSlice(b, i, 4, |b| - i);
    DropThenSlice(b, i, 8, |b| - i);
    DropThenSlice(b, i, 12, |b| - i);
  }

  method ReadLargeCommunities(data: seq<byte>) returns (communities: seq<LargeCommunity>)
    ensures communities == DecodeLarges(data)
  {
    var n := |data| / 12;
    communities := [];
    var off := 0;
    assert data[0..] == data;
    for j := 0 to n
      invariant off == 12 * j <= |data|
      invariant communities + DecodeLarges(data[off..]) == DecodeLarges(data)
    {
      var next := off + 12;
      var c := LargeCommunity(U32(data[off..]), U32(data[off + 4..]), U32(data[off + 8..]));
      DecodeLargeAt(data, off, next);
      Assoc(communities, [c], DecodeLarges(data[next..]));
      communities := communities + [c];
      off := next;
    }
  }

  method ReadReach(data: seq<byte>, list: seq<Nlri.AfiSafi>) returns (r: Result<Attribute, AttrError>)
    ensures r == DecodeReach(data, list)
  {
    if |data| < 4 {
      return Err(ShortReach);
    }
    var pos := 0;
    var afi := U16(data[pos..]);
    pos := pos + 2;
    var safi := data[pos];
    pos := pos + 1;
    var nhlen := data[pos];
    pos := pos + 1;
    if pos + nhlen > |data| {
      return Err(ReachNextHop);
    }
    var nh := data[pos..pos + nhlen];
    pos := pos + nhlen;
    pos := pos + 1;
    if pos > |data| {
      return Err(ReachNoNlri);
    }
    var parseinfo := FindAfiSafi(afi, safi, list);
    var nlri, _ := Nlri.ParseNLRI(data[pos..], afi, parseinfo);
    assert nlri == Nlri.Parse(data[pos..], afi, parseinfo).list;
    return Ok(MpReach(afi, safi, nh, nlri, parseinfo));
  }

  method ReadUnreach(data: seq<byte>, list: seq<Nlri.AfiSafi>) returns (r: Result<Attribute, AttrError>)
    ensures r == DecodeUnreach(data, list)
  {
    if |data| < 3 {
      return Err(ShortUnreach);
    }
    var pos := 0;
    var afi := U16(data[pos..]);
    pos := pos + 2;
    var safi := data[pos];
    pos := pos + 1;
    var parseinfo := FindAfiSafi(afi, safi, list);
    var nlri, _ := Nlri.ParseNLRI(data[pos..], afi, parseinfo);
    assert nlri == Nlri.Parse(data[pos..], afi, parseinfo).list;
    return Ok(MpUnreach(afi, safi, nlri, false));
  }

  function Octets32(b0: byte, b1: byte, b2: byte, b3: byte): u32 {
    b0 as int * 0x100_0000 + b1 as int * 0x1_0000 + b2 as int * 0x100 + b3
  }

  method ReadData(flags: byte, code: byte, data: seq<byte>, list: seq<Nlri.AfiSafi>, enc2: bool)
    returns (r: Result<Attribute, AttrError>)
    ensures r == DecodeData(flags, code, data, list, enc2)
  {
    if code == ORIGIN {
      if |data| == 0 {
        return Err(EmptyOrigin);
      }
      r := Ok(Origin(data[0]));
    } else if code == MED {
      if |data| < 4 {
        return Err(ShortMed);
      }
      r := Ok(Med(Octets32(data[0], data[1], data[2], data[3])));
    } else if code == AGGREGATOR {
      var asn: u32, id: seq<byte> := 0, [];
      if |data| == 8 && !enc2 {
        asn, id := Octets32(data[0], data[1], data[2], data[3]), data[4..8];
      } else if |data| == 6 && enc2 {
        asn, id := data[0] as int * 0x100 + data[1], data[2..6];
      }
      r := Ok(Aggregator(asn, id, enc2));
    } else if code == ATOMIC_AGGREGATE {
      r := Ok(AtomicAggregate);
    } else if code == LOCPREF {
      if |data| < 4 {
        return Err(ShortLocPref);
      }
      r := Ok(LocPref(Octets32(data[0], data[1], data[2], data[3])));
    } else if code == ASPATH {
      var segments := AsPath.ParseAsPath(data, enc2);
      r := Ok(Path(segments, enc2));
    } else if code == NEXTHOP {
      if |data| < 4 {
        return Err(ShortNextHop);
      }
      r := Ok(NextHop(data[0..4]));
    } else if code == COMMUNITIES {
      var xs := ReadCommunities(data);
      r := Ok(Communities(xs));
    } else if code == LARGECOMMUNITIES {
      var cs := ReadLargeCommunities(data);
      r := Ok(LargeCommunities(cs));
    } else if code == REACH {
      r := ReadReach(data, list);
    } else if code == UNREACH {
      r := ReadUnreach(data, list);
    } else {
      r := Ok(Raw(flags, code, data));
    }
  }

  /** One turn of the outer loop: the cursor moves from `i` to `j` and the list grows by one attribute. */
  lemma Advance(b: seq<byte>, i: nat, j: nat, acc: seq<Attribute>, a: Attribute, list: seq<Nlri.AfiSafi>, enc2: bool)
    requires i < j <= |b| && Next(b[i..], list, enc2) == Take(a, j - i)
    ensures Resume(acc, Parse(b[i..], list, enc2)) == Resume(acc + [a], Parse(b[j..], list, enc2))
  {
    var (rest, used) := (b[i..], j - i);
    assert Parse(rest, list, enc2) == Resume([a], Parse(rest[used..], list, enc2));
    assert rest[used..] == b[j..] by {
      DropThenSlice(b, i, used, used);
    }
    ResumeTwice(acc, [a], Parse(b[j..], list, enc2));
  }

  lemma NextAt(b: seq<byte>, i: nat, start: nat, end: nat, h: Head, list: seq<Nlri.AfiSafi>, enc2: bool)
    requires i < |b| && DecodeHeader(b[i..]) == Ok(h)
    requires start == i + h.start && end == start + h.length
    ensures end <= |b|
    ensures Next(b[i..], list, enc2) ==
      match DecodeData(h.flags, h.code, b[start..end], list, enc2)
      case Err(e) => Stop(e)
      case Ok(a) => Take(a, end - i)
  {
    DropThenSlice(b, i, h.start, h.start + h.length);
  }

  lemma HeaderAt(b: seq<byte>, i: nat)
    requires i + 3 <= |b|
    ensures DecodeHeader(b[i..]) ==
      if Extended(b[i]) && |b| - i < 4 then Err(ShortExtended)
      else
        var h := if Extended(b[i]) then Head(b[i], b[i + 1], 4, b[i + 2] as int * 0x100 + b[i + 3]) else Head(b[i], b[i + 1], 3, b[i + 2]);
        if i + h.start + h.length > |b| then Err(ShortData) else Ok(h)
  {
    if Extended(b[i]) && |b| - i >= 4 {
      DropThenSlice(b, i, 2, |b| - i);
    }
  }

  method ParsePathAttribute(b: seq<byte>, addpathlist: seq<Nlri.AfiSafi>, enc2: bool)
    returns (attributes: seq<Attribute>, err: Option<AttrError>)
    ensures AttrResult(attributes, err) == Parse(b, addpathlist, enc2)
  {
    attributes := [];
    var i := 0;
    while i < |b|
      invariant 0 <= i <= |b|
      invariant Parse(b, addpathlist, enc2) == Resume(attributes, Parse(b[i..], addpathlist, enc2))
      decreases |b| - i
    {
      if |b| - i < 3 {
        return attributes, Some(ShortHeader);
      }
      HeaderAt(b, i);
      var attrflag := b[i];
      var attrcode := b[i + 1];
      var extended := Extended(attrflag);
      var length: int := b[i + 2];
      if extended && i + 3 > |b| - 1 {
        return attributes, Some(ShortExtended);
      }
      var offset := 0;
      if extended {
        length := b[i + 2] as int * 0x100 + b[i + 3];
        offset := 1;
      }
      var start := i + offset + 3;
      var end := start + length;
      if end > |b| || start > |b| {
        return attributes, Some(ShortData);
      }
      NextAt(b, i, start, end, Head(attrflag, attrcode, 3 + offset, length), addpathlist, enc2);
      var data := b[start..end];
      var r := ReadData(attrflag, attrcode, data, addpathlist, enc2);
      if r.Err? {
        return if r.error == ShortNextHop then [] else attributes, Some(r.error);
      }
      Advance(b, i, end, attributes, r.value, addpathlist, enc2);
      attributes := attributes + [r.value];
      i := end;
    }
    return attributes, None;
  }
}
