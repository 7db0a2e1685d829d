/** The UPDATE message: `BGPMessageUpdate.Write` and `ParseUpdate` (section 4.3 of RFC 4271). */
module UpdateMessage {
  import opened Bytes
  import Nlri
  import A = Attributes
  import AsPath
  import AttributeProofs
  import BgpHeader

  type Families = seq<Nlri.AfiSafi>

  datatype Update = Update(withdrawn: seq<Nlri.Prefix>, attributes: seq<A.Attribute>, nlri: seq<Nlri.Prefix>, addPath: bool)

  predicate Writable(u: Update) {
    Nlri.AllWritable(u.withdrawn) && A.AllWritable(u.attributes) && Nlri.AllWritable(u.nlri)
  }

  // ---------------------------------------------------------------- encoding

  function EncodeBody(u: Update): seq<byte>
    requires Writable(u)
  {
    var withdrawn := Nlri.EncodeList(u.withdrawn, u.addPath);
    BE16(|withdrawn| % 0x1_0000) + withdrawn
    + (BE16(A.DeclaredLenAll(u.attributes) % 0x1_0000) + A.EncodeAll(u.attributes) + Nlri.EncodeList(u.nlri, u.addPath))
  }

  function LenContent(u: Update): nat
    requires Writable(u)
  {
    2 + |Nlri.EncodeList(u.withdrawn, u.addPath)| + 2 + A.DeclaredLenAll(u.attributes) + |Nlri.EncodeList(u.nlri, u.addPath)|
  }

  function Encode(u: Update): seq<byte>
    requires Writable(u)
  {
    BgpHeader.Encode(BgpHeader.UPDATE, LenContent(u)) + EncodeBody(u)
  }

  /** The declared content length is the number of octets written, unless an aggregator identifier is incomplete. */
  method ComputeLenContent(u: Update) returns (len: nat)
    requires Writable(u)
    ensures len == LenContent(u)
    ensures A.IdsComplete(u.attributes) ==> len == |EncodeBody(u)|
  {
    var sumW := Nlri.ListLen(u.withdrawn, u.addPath);
    var sumPA := A.LenAll(u.attributes);
    var sumA := Nlri.ListLen(u.nlri, u.addPath);
    len := 2 + sumW + 2 + sumPA + sumA;
  }

  method Write(u: Update, w: Buffer)
    requires Writable(u)
    modifies w
    ensures w.data == old(w.data) + Encode(u)
  {
    ghost var before := w.data;
    var len := ComputeLenContent(u);
    BgpHeader.WriteBGPHeader(BgpHeader.UPDATE, len, w);
    ghost var head := BgpHeader.Encode(BgpHeader.UPDATE, len);
    var lenW := Nlri.ListLen(u.withdrawn, u.addPath);
    w.PutU16(lenW % 0x1_0000);
    Nlri.WriteList(u.withdrawn, w, u.addPath);
    var lenPA := A.LenAll(u.attributes);
    w.PutU16(lenPA % 0x1_0000);
    A.WriteAll(u.attributes, w);
    Nlri.WriteList(u.nlri, w, u.addPath);
    Glue(before, head, BE16(lenW % 0x1_0000), Nlri.EncodeList(u.withdrawn, u.addPath),
         BE16(lenPA % 0x1_0000), A.EncodeAll(u.attributes), Nlri.EncodeList(u.nlri, u.addPath));
  }

  lemma Glue(before: seq<byte>, head: seq<byte>, l1: seq<byte>, p1: seq<byte>, l2: seq<byte>, p2: seq<byte>, p3: seq<byte>)
    ensures before + head + l1 + p1 + l2 + p2 + p3 == before + (head + (l1 + p1 + (l2 + p2 + p3)))
  {
    Assoc(before + head + l1 + p1, l2, p2);
    Assoc(before + head + l1 + p1, l2 + p2, p3);
    Assoc(before + head, l1, p1);
    Assoc(before + head, l1 + p1, l2 + p2 + p3);
    Assoc(before, head, l1 + p1 + (l2 + p2 + p3));
  }

  // ---------------------------------------------------------------- decoding

  datatype UpdateError =
    | ShortUpdate | WithdrawnTooLong | AttributesTooLong
    | BadWithdrawn(n: Nlri.NlriError) | BadAttributes(a: A.AttrError) | BadNlri(n: Nlri.NlriError)

  /** The two results of `ParseUpdate`; the message may be there next to an error. */
  datatype UpdateResult = UpdateResult(update: Option<Update>, err: Option<UpdateError>)

  function ParseUpdate(b: seq<byte>, list: Families, enc2: bool): UpdateResult {
    var addPath := A.InAfiSafi(Nlri.AFI_IPV4, Nlri.SAFI_UNICAST, list);
    if |b| < 4 then UpdateResult(None, Some(ShortUpdate))
    else if U16(b) + 4 > |b| then UpdateResult(None, Some(WithdrawnTooLong))
    else
      var mid := 2 + U16(b) as int;
      var withdrawn := Nlri.Parse(b[2..mid], Nlri.AFI_IPV4, addPath);
      if withdrawn.err.Some? then UpdateResult(None, Some(BadWithdrawn(withdrawn.err.value)))
      else ParseRest(b[mid..], withdrawn.list, list, addPath, enc2)
  }

  /** From the attribute length on. */
  function ParseRest(b: seq<byte>, withdrawn: seq<Nlri.Prefix>, list: Families, addPath: bool, enc2: bool): UpdateResult
    requires |b| >= 2
  {
    if U16(b) + 2 > |b| then UpdateResult(None, Some(AttributesTooLong))
    else
      var end := 2 + U16(b) as int;
      var attributes := A.Parse(b[2..end], list, enc2);
      if attributes.err.Some? then
        UpdateResult(Some(Update(withdrawn, attributes.attributes, [], addPath)), Some(BadAttributes(attributes.err.value)))
      else
        var nlri := Nlri.Parse(b[end..], Nlri.AFI_IPV4, addPath);
        UpdateResult(Some(Update(withdrawn, attributes.attributes, nlri.list, addPath)),
                     if nlri.err.Some? then Some(BadNlri(nlri.err.value)) else None)
  }

  method Read(b: seq<byte>, list: Families, enc2: bool) returns (update: Option<Update>, err: Option<UpdateError>)
    ensures UpdateResult(update, err) == ParseUpdate(b, list, enc2)
  {
    hide A.Parse, Nlri.Parse;
    var addPath := A.FindAfiSafi(Nlri.AFI_IPV4, Nlri.SAFI_UNICAST, list);
    if |b| < 4 {
      return None, Some(ShortUpdate);
    }
    var wdlen: int := U16(b);
    if wdlen + 4 > |b| {
      return None, Some(WithdrawnTooLong);
    }
    var offset := 2 + wdlen;
    var withdrawn, werr := Nlri.ParseNLRI(b[2..offset], Nlri.AFI_IPV4, addPath);
    assert Nlri.NlriResult(withdrawn, werr) == Nlri.Parse(b[2..offset], Nlri.AFI_IPV4, addPath);
    if werr.Some? {
      return None, Some(BadWithdrawn(werr.value));
    }
    var rest := b[offset..];
    var end := 2 + U16(rest) as int;
    if end > |rest| {
      return None, Some(AttributesTooLong);
    }
    var attributes, aerr := A.ParsePathAttribute(rest[2..end], list, enc2);
    assert A.AttrResult(attributes, aerr) == A.Parse(rest[2..end], list, enc2);
    if aerr.Some? {
      return Some(Update(withdrawn, attributes, [], addPath)), Some(BadAttributes(aerr.value));
    }
    var nlri, nerr := Nlri.ParseNLRI(rest[end..], Nlri.AFI_IPV4, addPath);
    assert Nlri.NlriResult(nlri, nerr) == Nlri.Parse(rest[end..], Nlri.AFI_IPV4, addPath);
    update := Some(Update(withdrawn, attributes, nlri, addPath));
    err := if nerr.Some? then Some(BadNlri(nerr.value)) else None;
  }

  // ---------------------------------------------------------------- round trips

  /** An update a peer with the given modes reads back: canonical prefixes, encodable attributes, lengths that fit their fields. */
  predicate Encodable(u: Update, list: Families, enc2: bool) {
    && u.addPath == A.InAfiSafi(Nlri.AFI_IPV4, Nlri.SAFI_UNICAST, list)
    && Nlri.AllCanonical(u.withdrawn, 4, u.addPath)
    && Nlri.AllCanonical(u.nlri, 4, u.addPath)
    && AttributeProofs.AllEncodable(u.attributes, list, enc2)
    && Writable(u)
    && |Nlri.EncodeList(u.withdrawn, u.addPath)| <= 0xffff
    && |A.EncodeAll(u.attributes)| <= 0xffff
  }

  function Norm(u: Update, enc2: bool): Update {
    u.(attributes := AttributeProofs.NormAll(u.attributes, enc2))
  }

  lemma EncodableIdsComplete(u: Update, list: Families, enc2: bool)
    requires Encodable(u, list, enc2)
    ensures A.IdsComplete(u.attributes) && A.DeclaredLenAll(u.attributes) == |A.EncodeAll(u.attributes)|
  {
    forall a | a in u.attributes ensures a.Aggregator? ==> |a.id| == 4 {
      assert AttributeProofs.Encodable(a, list, enc2);
    }
    A.DeclaredIsWritten(u.attributes);
  }

  /** With lengths that fit, the counts in the body are exact. */
  lemma BodyCounts(u: Update)
    requires Writable(u) && A.DeclaredLenAll(u.attributes) == |A.EncodeAll(u.attributes)| <= 0xffff
    requires |Nlri.EncodeList(u.withdrawn, u.addPath)| <= 0xffff
    ensures var (w, a) := (Nlri.EncodeList(u.withdrawn, u.addPath), A.EncodeAll(u.attributes));
      EncodeBody(u) == BE16(|w|) + w + (BE16(|a|) + a + Nlri.EncodeList(u.nlri, u.addPath))
  {
    SmallMod(|Nlri.EncodeList(u.withdrawn, u.addPath)|);
    SmallMod(|A.EncodeAll(u.attributes)|);
  }

  lemma SmallMod(x: nat)
    requires x <= 0xffff
    ensures x % 0x1_0000 == x
  {
  }

  /** A counted part and what follows it. */
  lemma CountedPart(part: seq<byte>, t: seq<byte>)
    requires |part| <= 0xffff
    ensures var b := BE16(|part|) + part + t;
      U16(b) == |part| && b[2..2 + |part|] == part && b[2 + |part|..] == t
  {
    Assoc(BE16(|part|), part, t);
    BE16RoundTrip(|part|, part + t);
    SplitConcat(BE16(|part|) + part, t);
  }

  /** A body cut at its counts: what the decoder does with the parts. */
  lemma BodyTurn(w: seq<byte>, rest: seq<byte>, list: Families, enc2: bool)
    requires |w| <= 0xffff && |rest| >= 2
    ensures ParseUpdate(BE16(|w|) + w + rest, list, enc2) ==
      var addPath := A.InAfiSafi(Nlri.AFI_IPV4, Nlri.SAFI_UNICAST, list);
      var r := Nlri.Parse(w, Nlri.AFI_IPV4, addPath);
      if r.err.Some? then UpdateResult(None, Some(BadWithdrawn(r.err.value)))
      else ParseRest(rest, r.list, list, addPath, enc2)
  {
    CountedPart(w, rest);
  }

  lemma RestTurn(a: seq<byte>, n: seq<byte>, withdrawn: seq<Nlri.Prefix>, list: Families, addPath: bool, enc2: bool)
    requires |a| <= 0xffff
    requires A.Parse(a, list, enc2).err.None? && Nlri.Parse(n, Nlri.AFI_IPV4, addPath).err.None?
    ensures ParseRest(BE16(|a|) + a + n, withdrawn, list, addPath, enc2) ==
      UpdateResult(Some(Update(withdrawn, A.Parse(a, list, enc2).attributes, Nlri.Parse(n, Nlri.AFI_IPV4, addPath).list, addPath)), None)
  {
    CountedPart(a, n);
  }

  /**
    Decoding the body that `Write` produces, with the matching family list and ASN width, returns the same
    withdrawn routes, the normal forms of the attributes in order, and the same prefixes.
   */
  lemma UpdateRoundTrip(u: Update, list: Families, enc2: bool)
    requires Encodable(u, list, enc2)
    ensures ParseUpdate(EncodeBody(u), list, enc2) == UpdateResult(Some(Norm(u, enc2)), None)
  {
    EncodableIdsComplete(u, list, enc2);
    var (w, a, n) := (Nlri.EncodeList(u.withdrawn, u.addPath), A.EncodeAll(u.attributes), Nlri.EncodeList(u.nlri, u.addPath));
    BodyCounts(u);
    BodyTurn(w, BE16(|a|) + a + n, list, enc2);
    Nlri.ParseInvertsEncode(u.withdrawn, Nlri.AFI_IPV4, u.addPath);
    Nlri.ParseInvertsEncode(u.nlri, Nlri.AFI_IPV4, u.addPath);
    AttributeProofs.ListRoundTrip(u.attributes, list, enc2);
    RestTurn(a, n, u.withdrawn, list, u.addPath, enc2);
  }

  /** The decoded update is the written one exactly when its attributes are in normal form. */
  lemma UpdateIdentityIff(u: Update, list: Families, enc2: bool)
    requires Encodable(u, list, enc2)
    ensures ParseUpdate(EncodeBody(u), list, enc2) == UpdateResult(Some(u), None)
      <==> forall a | a in u.attributes :: AttributeProofs.Normal(a, enc2)
  {
    UpdateRoundTrip(u, list, enc2);
    AttributeProofs.NormAllIff(u.attributes, enc2);
  }

  /** An update that fits a message is framed by its own header: the header announces exactly the body. */
  lemma UpdateIsFramed(u: Update, list: Families, enc2: bool, t: seq<byte>)
    requires Encodable(u, list, enc2) && LenContent(u) <= BgpHeader.MAX_CONTENT
    ensures var b := Encode(u) + t; var len := |EncodeBody(u)|;
      && BgpHeader.ParsePacketHeader(b) == Ok(BgpHeader.Header(BgpHeader.UPDATE, len))
      && b[19..19 + len] == EncodeBody(u) && b[19 + len..] == t
  {
    EncodableIdsComplete(u, list, enc2);
    var head := BgpHeader.Encode(BgpHeader.UPDATE, LenContent(u));
    Assoc(head, EncodeBody(u), t);
    BgpHeader.HeaderRoundTrip(BgpHeader.UPDATE, LenContent(u), EncodeBody(u) + t);
    SplitConcat(head, EncodeBody(u) + t);
    SplitConcat(head + EncodeBody(u), t);
  }

  // ---------------------------------------------------------------- accepted bodies

  lemma AcceptedPrefixes(b: seq<byte>, path: bool)
    ensures var l := Nlri.Parse(b, Nlri.AFI_IPV4, path).list;
      Nlri.AllCanonical(l, 4, path) && Nlri.AllWritable(l) && |Nlri.EncodeList(l, path)| <= |b|
  {
    Nlri.ParseCanonical(b, Nlri.AFI_IPV4, path);
    Nlri.EncodeInvertsParse(b, Nlri.AFI_IPV4, path);
  }

  /** An accepted body is its three parts with their counts. */
  lemma AcceptedBody(b: seq<byte>, list: Families, enc2: bool) returns (w: seq<byte>, a: seq<byte>, n: seq<byte>)
    requires ParseUpdate(b, list, enc2).err.None?
    ensures |w| <= 0xffff && |a| <= 0xffff && b == BE16(|w|) + w + (BE16(|a|) + a + n)
  {
    hide BE16, U16, A.Parse, Nlri.Parse;
    var mid := 2 + U16(b) as int;
    var rest := b[mid..];
    var end := 2 + U16(rest) as int;
    w, a, n := b[2..mid], rest[2..end], rest[end..];
    U16RoundTrip(b);
    U16RoundTrip(rest);
    assert rest == rest[..2] + a + n;
    assert b == b[..2] + w + rest;
  }

  lemma AcceptedParts(w: seq<byte>, a: seq<byte>, n: seq<byte>, list: Families, enc2: bool)
    requires |w| <= 0xffff && |a| <= 0xffff
    requires ParseUpdate(BE16(|w|) + w + (BE16(|a|) + a + n), list, enc2).err.None?
    ensures var addPath := A.InAfiSafi(Nlri.AFI_IPV4, Nlri.SAFI_UNICAST, list);
      && Nlri.Parse(w, Nlri.AFI_IPV4, addPath).err.None? && Nlri.Parse(n, Nlri.AFI_IPV4, addPath).err.None?
      && A.Parse(a, list, enc2).err.None?
      && ParseUpdate(BE16(|w|) + w + (BE16(|a|) + a + n), list, enc2).update
         == Some(Update(Nlri.Parse(w, Nlri.AFI_IPV4, addPath).list, A.Parse(a, list, enc2).attributes,
                        Nlri.Parse(n, Nlri.AFI_IPV4, addPath).list, addPath))
  {
    BodyTurn(w, BE16(|a|) + a + n, list, enc2);
    CountedPart(a, n);
  }

  lemma AcceptedIsEncodable(u: Update, w: seq<byte>, a: seq<byte>, n: seq<byte>, list: Families, enc2: bool)
    requires |w| <= 0xffff && |a| <= 0xffff - 2040
    requires u.addPath == A.InAfiSafi(Nlri.AFI_IPV4, Nlri.SAFI_UNICAST, list)
    requires Nlri.Parse(w, Nlri.AFI_IPV4, u.addPath) == Nlri.NlriResult(u.withdrawn, None)
    requires Nlri.Parse(n, Nlri.AFI_IPV4, u.addPath) == Nlri.NlriResult(u.nlri, None)
    requires A.Parse(a, list, enc2) == A.AttrResult(u.attributes, None)
    requires forall x | x in u.attributes :: AttributeProofs.Stable(x, list, enc2)
    ensures Writable(u) && AttributeProofs.AllEncodable(u.attributes, list, enc2) && |Nlri.EncodeList(u.withdrawn, u.addPath)| <= 0xffff
    ensures |A.EncodeAll(u.attributes)| <= 0xffff ==> Encodable(u, list, enc2)
  {
    AcceptedPrefixes(w, u.addPath);
    AcceptedPrefixes(n, u.addPath);
    AttributeProofs.ParsedIsRegular(a, list, enc2);
    forall x | x in u.attributes ensures AttributeProofs.Encodable(x, list, enc2) {
      AttributeProofs.StableIsEncodable(x, list, enc2);
    }
  }

  /** What the first octets of an accepted attribute list decode to is not all of it. */
  lemma CutListIsShorter(e: seq<byte>, c: nat, list: Families, enc2: bool)
    requires c < |e| && A.Parse(e, list, enc2).err.None?
    ensures A.Parse(e[..c], list, enc2) != A.Parse(e, list, enc2)
  {
    if A.Parse(e[..c], list, enc2) == A.Parse(e, list, enc2) {
      var (l, rest) := (A.Parse(e, list, enc2).attributes, e[c..]);
      assert e[..c] + rest == e;
      AttributeProofs.ParseConcat(e[..c], rest, list, enc2);
    }
  }

  lemma BodyParts(u: Update, list: Families, enc2: bool)
    requires Writable(u) && AttributeProofs.AllEncodable(u.attributes, list, enc2)
    requires |Nlri.EncodeList(u.withdrawn, u.addPath)| <= 0xffff
    ensures var (w, e) := (Nlri.EncodeList(u.withdrawn, u.addPath), A.EncodeAll(u.attributes));
      EncodeBody(u) == BE16(|w|) + w + (BE16(|e| % 0x1_0000) + e + Nlri.EncodeList(u.nlri, u.addPath))
  {
    assert A.IdsComplete(u.attributes) by {
      forall a | a in u.attributes ensures a.Aggregator? ==> |a.id| == 4 {
        assert AttributeProofs.Encodable(a, list, enc2);
      }
    }
    A.DeclaredIsWritten(u.attributes);
    SmallMod(|Nlri.EncodeList(u.withdrawn, u.addPath)|);
  }

  /** Attributes longer than their 16-bit count are never read back: the count is cut, and with it the list. */
  lemma CutCountFails(u: Update, list: Families, enc2: bool)
    requires Writable(u) && AttributeProofs.AllEncodable(u.attributes, list, enc2)
    requires |Nlri.EncodeList(u.withdrawn, u.addPath)| <= 0xffff && |A.EncodeAll(u.attributes)| > 0xffff
    ensures ParseUpdate(EncodeBody(u), list, enc2) != UpdateResult(Some(Norm(u, enc2)), None)
  {
    hide ParseUpdate, EncodeBody, A.Parse, A.EncodeAll, Nlri.EncodeList, Nlri.Parse;
    var (b, w, e) := (EncodeBody(u), Nlri.EncodeList(u.withdrawn, u.addPath), A.EncodeAll(u.attributes));
    var n := Nlri.EncodeList(u.nlri, u.addPath);
    var c := |e| % 0x1_0000;
    BodyParts(u, list, enc2);
    if ParseUpdate(b, list, enc2) == UpdateResult(Some(Norm(u, enc2)), None) {
      var w2, a2, n2 := AcceptedBody(b, list, enc2);
      SameCounts(w, BE16(c) + e + n, w2, BE16(|a2|) + a2 + n2);
      CutPart(e, n, c, a2, n2);
      AcceptedParts(w2, a2, n2, list, enc2);
      AttributeProofs.ListRoundTrip(u.attributes, list, enc2);
      CutListIsShorter(e, c, list, enc2);
    }
  }

  lemma SameCounts(w: seq<byte>, t: seq<byte>, w': seq<byte>, t': seq<byte>)
    requires |w| <= 0xffff && |w'| <= 0xffff && BE16(|w|) + w + t == BE16(|w'|) + w' + t'
    ensures w == w' && t == t'
  {
    CountedPart(w, t);
    CountedPart(w', t');
  }

  lemma CutPart(e: seq<byte>, n: seq<byte>, c: nat, a: seq<byte>, t: seq<byte>)
    requires c < |e| && c <= 0xffff && |a| <= 0xffff && BE16(c) + e + n == BE16(|a|) + a + t
    ensures a == e[..c]
  {
    assert BE16(c) + e + n == BE16(|e[..c]|) + e[..c] + (e[c..] + n);
    SameCounts(e[..c], e[c..] + n, a, t);
  }

  /**
    Every accepted body whose attributes are stable can be written again, and reading that gives the update in normal
    form exactly when padding does not push its attributes past their 16-bit length.
   */
  lemma ReencodedUpdate(b: seq<byte>, list: Families, enc2: bool)
    requires |b| <= 0xffff - 2040 && ParseUpdate(b, list, enc2).err.None?
    requires ParseUpdate(b, list, enc2).update.Some? ==>
      forall a | a in ParseUpdate(b, list, enc2).update.value.attributes :: AttributeProofs.Stable(a, list, enc2)
    ensures var r := ParseUpdate(b, list, enc2).update;
      && r.Some? && Writable(r.value)
      && (ParseUpdate(EncodeBody(r.value), list, enc2) == UpdateResult(Some(Norm(r.value, enc2)), None)
          <==> |A.EncodeAll(r.value.attributes)| <= 0xffff)
  {
    hide EncodeBody, A.Parse, A.EncodeAll, Nlri.EncodeList, Nlri.Parse, Encodable;
    var w, a, n := AcceptedBody(b, list, enc2);
    AcceptedParts(w, a, n, list, enc2);
    var u := ParseUpdate(b, list, enc2).update.value;
    AcceptedIsEncodable(u, w, a, n, list, enc2);
    if |A.EncodeAll(u.attributes)| <= 0xffff {
      UpdateRoundTrip(u, list, enc2);
    } else {
      CutCountFails(u, list, enc2);
    }
  }

  // ---------------------------------------------------------------- a small body that outgrows its count

  /** An AS_PATH of five octets: one segment that announces 254 ASNs and holds none. */
  const CUT_PATH: seq<byte> := [0x40, 2, 2, 2, 254]

  const PADDED_PATH: A.Attribute := A.Path([AsPath.Segment(2, Zeros(254))], false)

  function CutPaths(n: nat): (r: seq<byte>)
    ensures |r| == 5 * n
  {
    if n == 0 then [] else CUT_PATH + CutPaths(n - 1)
  }

  function PaddedPaths(n: nat): (r: seq<A.Attribute>)
    ensures |r| == n && forall a | a in r :: a == PADDED_PATH
  {
    if n == 0 then [] else [PADDED_PATH] + PaddedPaths(n - 1)
  }

  lemma CutSegmentIsPadded()
    ensures AsPath.Parse([2, 254], false) == PADDED_PATH.segments
  {
    hide AsPath.ReadAsns;
    var b: seq<byte> := [2, 254];
    AsPath.ReadAsnsExhausted([], 254, false);
    assert b[2..] == [];
  }

  lemma CutPathIsPadded(list: Families)
    ensures A.Parse(CUT_PATH, list, false) == A.AttrResult([PADDED_PATH], None)
  {
    hide AsPath.Parse;
    CutSegmentIsPadded();
    assert CUT_PATH[3..5] == [2, 254] && CUT_PATH[5..] == [];
    assert A.Next(CUT_PATH, list, false) == A.Take(PADDED_PATH, 5);
    assert A.Parse([], list, false) == A.AttrResult([], None);
  }

  lemma PaddedPathSize()
    ensures |A.Encode(PADDED_PATH)| == 1022
  {
    hide AsPath.Encode;
    var l := PADDED_PATH.segments;
    AsPath.LenContentIsWritten(l[0], false);
    assert AsPath.EncodeAll(l, false) == AsPath.Encode(l[0], false) + AsPath.EncodeAll(l[1..], false);
  }

  lemma {:induction false} CutPathsArePadded(n: nat, list: Families)
    ensures A.Parse(CutPaths(n), list, false) == A.AttrResult(PaddedPaths(n), None)
    ensures |A.EncodeAll(PaddedPaths(n))| == 1022 * n
  {
    hide A.Encode;
    CutPathIsPadded(list);
    PaddedPathSize();
    if n > 0 {
      CutPathsArePadded(n - 1, list);
      AttributeProofs.ParseConcat(CUT_PATH, CutPaths(n - 1), list, false);
    }
  }

  /**
    A body of 329 octets that is accepted and whose attributes are stable: re-encoded, its attributes take 66430 octets,
    more than their count can say, and the update is not read back.
   */
  lemma PaddingOverflows(list: Families)
    ensures var b := [0, 0, 1, 69] + CutPaths(65);
      var r := ParseUpdate(b, list, false);
      && |b| == 329 && r.err.None? && r.update.Some? && Writable(r.update.value)
      && (forall a | a in r.update.value.attributes :: AttributeProofs.Stable(a, list, false))
      && |A.EncodeAll(r.update.value.attributes)| == 66430
      && ParseUpdate(EncodeBody(r.update.value), list, false) != UpdateResult(Some(Norm(r.update.value, false)), None)
  {
    hide A.Parse, A.EncodeAll, ParseUpdate, EncodeBody, CutPaths;
    var (a, b) := (CutPaths(65), [0, 0, 1, 69] + CutPaths(65));
    var path := A.InAfiSafi(Nlri.AFI_IPV4, Nlri.SAFI_UNICAST, list);
    CutPathsArePadded(65, list);
    assert BE16(0) == [0, 0] && BE16(325) == [1, 69];
    assert b == BE16(0) + [] + (BE16(|a|) + a + []);
    BodyTurn([], BE16(|a|) + a + [], list, false);
    RestTurn(a, [], [], list, path, false);
    ReencodedUpdate(b, list, false);
  }
}
