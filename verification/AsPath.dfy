/**
  AS_PATH segments on the wire: a type octet, a count octet and the ASNs, in two or four octets each. A long
  segment is written as several of at most 255 ASNs (section 4.3 of RFC 4271, section 3 of RFC 6793).
 */
module AsPath {
  import opened Bytes

  datatype Segment = Segment(stype: byte, asns: seq<u32>)

  function Width(enc2: bool): nat {
    if enc2 then 2 else 4
  }

  // ---------------------------------------------------------------- encoding

  /** The two-octet form keeps the low 16 bits only. */
  function EncodeAsn(x: u32, enc2: bool): (r: seq<byte>)
    ensures |r| == Width(enc2)
  {
    if enc2 then BE16(x % 0x1_0000) else BE32(x)
  }

  function EncodeAsns(xs: seq<u32>, enc2: bool): (r: seq<byte>)
    ensures |r| == Width(enc2) * |xs|
  {
    if xs == [] then [] else EncodeAsn(xs[0], enc2) + EncodeAsns(xs[1..], enc2)
  }

  /** The number of wire segments for `n` ASNs. */
  function LenSets(n: nat): nat {
    n / 255 + if n % 255 != 0 then 1 else 0
  }

  function LenContent(s: Segment, enc2: bool): nat {
    if s.asns == [] then 0 else 2 * LenSets(|s.asns|) + Width(enc2) * |s.asns|
  }

  /** The wire segments of one path segment. The count of the last one is the length modulo 255, hence 0 for 255. */
  function Encode(s: Segment, enc2: bool): seq<byte>
    decreases |s.asns|
  {
    if s.asns == [] then []
    else if |s.asns| <= 255 then [s.stype, |s.asns| % 255] + EncodeAsns(s.asns, enc2)
    else [s.stype, 255] + EncodeAsns(s.asns[..255], enc2) + Encode(Segment(s.stype, s.asns[255..]), enc2)
  }

  function EncodeAll(l: seq<Segment>, enc2: bool): seq<byte> {
    if l == [] then [] else Encode(l[0], enc2) + EncodeAll(l[1..], enc2)
  }

  /** The closed form for the length agrees with the octets the chunk loop writes. */
  lemma {:induction false} LenContentIsWritten(s: Segment, enc2: bool)
    ensures LenContent(s, enc2) == |Encode(s, enc2)|
    decreases |s.asns|
  {
    if |s.asns| > 255 {
      LenContentIsWritten(Segment(s.stype, s.asns[255..]), enc2);
      assert LenSets(|s.asns|) == 1 + LenSets(|s.asns| - 255);
    }
  }

  /** The wire segment that starts at ASN `lo`, and those after it. */
  ghost function EncodeFrom(s: Segment, lo: nat, enc2: bool): seq<byte>
    requires lo <= |s.asns|
  {
    Encode(Segment(s.stype, s.asns[lo..]), enc2)
  }

  lemma EncodeFromStep(s: Segment, lo: nat, hi: nat, enc2: bool)
    requires lo < hi <= |s.asns| && hi == if |s.asns| - lo <= 255 then |s.asns| else lo + 255
    ensures var count := if hi < |s.asns| then 255 else (|s.asns| - lo) % 255;
      EncodeFrom(s, lo, enc2) == [s.stype, count] + EncodeAsns(s.asns[lo..hi], enc2) + EncodeFrom(s, hi, enc2)
  {
    if |s.asns| - lo <= 255 {
      assert s.asns[lo..hi] == s.asns[lo..] && s.asns[hi..] == [];
    } else {
      assert s.asns[lo..][..255] == s.asns[lo..hi] && s.asns[lo..][255..] == s.asns[hi..];
    }
  }

  /** Where wire segment `i` ends, and the count octet it carries. */
  ghost function ChunkEnd(n: nat, i: nat): (hi: nat)
    requires i < LenSets(n)
    ensures 255 * i < hi <= n
    ensures hi == if n - 255 * i <= 255 then n else 255 * i + 255
    ensures hi == if i + 1 < LenSets(n) then 255 * (i + 1) else n
    ensures i + 1 == LenSets(n) ==> (n - 255 * i) % 255 == n % 255
    ensures i + 1 < LenSets(n) <==> hi < n
  {
    if i + 1 < LenSets(n) then 255 * (i + 1) else n
  }

  lemma Glue(before: seq<byte>, x: byte, y: byte, body: seq<byte>, t: seq<byte>)
    ensures before + [x] + [y] + body + t == before + ([x, y] + body + t)
  {
  }

  /** The inner loop of the writer: the ASNs from `start`, up to `limit` or the end, whichever comes first. */
  method WriteAsns(asns: seq<u32>, start: nat, limit: nat, ghost end: nat, w: Buffer, enc2: bool)
    requires start <= end <= |asns| && end == if limit < |asns| then limit else |asns|
    modifies w
    ensures w.data == old(w.data) + EncodeAsns(asns[start..end], enc2)
  {
    var j := start;
    while j < |asns| && j < limit
      invariant start <= j <= end
      invariant w.data + EncodeAsns(asns[j..end], enc2) == old(w.data) + EncodeAsns(asns[start..end], enc2)
    {
      assert asns[j..end][1..] == asns[j + 1..end];
      Assoc(w.data, EncodeAsn(asns[j], enc2), EncodeAsns(asns[j + 1..end], enc2));
      if enc2 {
        w.PutU16(asns[j] % 0x1_0000);
      } else {
        w.PutU32(asns[j]);
      }
      j := j + 1;
    }
  }

  method Write(s: Segment, w: Buffer, enc2: bool)
    modifies w
    ensures w.data == old(w.data) + Encode(s, enc2)
  {
    var n := |s.asns|;
    if n == 0 {
      return;
    }
    var itera := LenSets(n);
    ghost var lo := 0;
    assert s.asns[0..] == s.asns;
    for i := 0 to itera
      invariant lo == (if i < itera then 255 * i else n) <= n
      invariant w.data + EncodeFrom(s, lo, enc2) == old(w.data) + Encode(s, enc2)
    {
      var cursetlen := 0xff;
      if i == itera - 1 {
        cursetlen := n % 0xff;
      }
      ghost var hi := ChunkEnd(n, i);
      ghost var before := w.data;
      EncodeFromStep(s, lo, hi, enc2);
      w.PutByte(s.stype);
      w.PutByte(cursetlen);
      WriteAsns(s.asns, 0xff * i, 0xff * (i + 1), hi, w, enc2);
      Glue(before, s.stype, cursetlen, EncodeAsns(s.asns[lo..hi], enc2), EncodeFrom(s, hi, enc2));
      lo := hi;
    }
    assert EncodeFrom(s, n, enc2) == [];
  }

  method WriteAll(l: seq<Segment>, w: Buffer, enc2: bool)
    modifies w
    ensures w.data == old(w.data) + EncodeAll(l, enc2)
  {
    for i := 0 to |l|
      invariant w.data + EncodeAll(l[i..], enc2) == old(w.data) + EncodeAll(l, enc2)
    {
      assert l[i..][1..] == l[i + 1..];
      Assoc(w.data, Encode(l[i], enc2), EncodeAll(l[i + 1..], enc2));
      Write(l[i], w, enc2);
    }
  }

  /** The loop of `BGPAttribute_ASPATH.LenContent`: it counts the octets `WriteAll` will append. */
  method LenAll(l: seq<Segment>, enc2: bool) returns (size: nat)
    ensures size == |EncodeAll(l, enc2)|
  {
    size := 0;
    for i := 0 to |l|
      invariant size + |EncodeAll(l[i..], enc2)| == |EncodeAll(l, enc2)|
    {
      LenContentIsWritten(l[i], enc2);
      size := size + LenContent(l[i], enc2);
      assert l[i..][1..] == l[i + 1..];
    }
  }

  // ---------------------------------------------------------------- decoding

  function DecodeAsn(b: seq<byte>, enc2: bool): u32
    requires |b| >= Width(enc2)
  {
    if enc2 then U16(b) else U32(b)
  }

  /** `n` ASNs, the ones that are missing read as 0, and the octets left over. */
  function ReadAsns(b: seq<byte>, n: nat, enc2: bool): (r: (seq<u32>, seq<byte>))
    ensures |r.0| == n && |r.1| <= |b|
    decreases n
  {
    if n == 0 then ([], b)
    else if |b| < Width(enc2) then ([0] + ReadAsns(b, n - 1, enc2).0, b)
    else
      var (xs, rest) := ReadAsns(b[Width(enc2)..], n - 1, enc2);
      ([DecodeAsn(b, enc2)] + xs, rest)
  }

  function Parse(b: seq<byte>, enc2: bool): seq<Segment>
    decreases |b|
  {
    if |b| < 2 then []
    else
      var (asns, rest) := ReadAsns(b[2..], b[1], enc2);
      [Segment(b[0], asns)] + Parse(rest, enc2)
  }

  lemma {:induction false} ReadAsnsExhausted(b: seq<byte>, n: nat, enc2: bool)
    requires |b| < Width(enc2) || n == 0
    ensures ReadAsns(b, n, enc2) == (Zeros(n), b)
  {
    if n > 0 {
      ReadAsnsExhausted(b, n - 1, enc2);
      assert Zeros(n) == [0] + Zeros(n - 1);
    }
  }

  /** One turn of the inner loop of the decoder. */
  lemma ReadAsnsStep(b: seq<byte>, pos: nat, next: nat, n: nat, enc2: bool)
    requires n > 0 && next == pos + Width(enc2) <= |b|
    ensures |b[pos..]| >= Width(enc2)
    ensures ReadAsns(b[pos..], n, enc2) == Prepend([DecodeAsn(b[pos..], enc2)], ReadAsns(b[next..], n - 1, enc2))
  {
    assert b[pos..][Width(enc2)..] == b[next..];
  }

  method ReadSegmentAsns(data: seq<byte>, start: nat, aslen: byte, enc2: bool) returns (asns: seq<u32>, pos: nat)
    requires start <= |data|
    ensures start <= pos <= |data|
    ensures (asns, data[pos..]) == ReadAsns(data[start..], aslen, enc2)
  {
    hide ReadAsns, DecodeAsn;
    pos := start;
    asns := Zeros(aslen);
    var width := Width(enc2);
    var j := 0;
    ghost var left := ReadAsns(data[start..], aslen, enc2);
    PrependNothing(left);
    while j < aslen && pos + width <= |data|
      invariant 0 <= j <= aslen && start <= pos <= |data|
      invariant |asns| == aslen && asns[j..] == Zeros(aslen - j)
      invariant left == ReadAsns(data[pos..], aslen - j, enc2)
      invariant ReadAsns(data[start..], aslen, enc2) == Prepend(asns[..j], left)
    {
      var next := pos + width;
      var asn := DecodeAsn(data[pos..], enc2);
      ReadAsnsStep(data, pos, next, aslen - j, enc2);
      left := ReadAsns(data[next..], aslen - j - 1, enc2);
      PrependTwice(asns[..j], asn, left);
      asns := SetNext(asns, j, asn);
      pos := next;
      j := j + 1;
    }
    ReadAsnsExhausted(data[pos..], aslen - j, enc2);
    assert asns == asns[..j] + asns[j..];
  }

  /** The store `ASPath[j] = asn` into the ASNs that are still 0. */
  function SetNext(asns: seq<u32>, j: nat, asn: u32): (r: seq<u32>)
    requires j < |asns| && asns[j..] == Zeros(|asns| - j)
    ensures |r| == |asns| && r[..j + 1] == asns[..j] + [asn] && r[j + 1..] == Zeros(|asns| - j - 1)
  {
    assert asns[j..][1..] == asns[j + 1..];
    asns[j := asn]
  }

  method ParseAsPath(data: seq<byte>, enc2: bool) returns (segments: seq<Segment>)
    ensures segments == Parse(data, enc2)
  {
    segments := [];
    var pos := 0;
    while pos < |data|
      invariant 0 <= pos <= |data|
      invariant Parse(data, enc2) == segments + Parse(data[pos..], enc2)
      decreases |data| - pos
    {
      ghost var at := pos;
      var stype := data[pos];
      pos := pos + 1;
      if pos >= |data| {
        break;
      }
      var aslen := data[pos];
      pos := pos + 1;
      assert data[at..][2..] == data[pos..];
      var asns, next := ReadSegmentAsns(data, pos, aslen, enc2);
      pos := next;
      segments := segments + [Segment(stype, asns)];
    }
  }

  // ---------------------------------------------------------------- writing, then reading

  /** What remains of the ASNs once they have been written with the given width. */
  function Fit(xs: seq<u32>, enc2: bool): (r: seq<u32>)
    ensures |r| == |xs|
  {
    if enc2 then seq(|xs|, i requires 0 <= i < |xs| => xs[i] % 0x1_0000) else xs
  }

  /** The segments of at most 255 ASNs that together carry one segment. */
  function Chunks(s: Segment, enc2: bool): seq<Segment>
    decreases |s.asns|
  {
    if s.asns == [] then []
    else if |s.asns| <= 255 then [Segment(s.stype, Fit(s.asns, enc2))]
    else [Segment(s.stype, Fit(s.asns[..255], enc2))] + Chunks(Segment(s.stype, s.asns[255..]), enc2)
  }

  function ChunkAll(l: seq<Segment>, enc2: bool): seq<Segment> {
    if l == [] then [] else Chunks(l[0], enc2) + ChunkAll(l[1..], enc2)
  }

  /** The writer's count octet is wrong exactly for a positive multiple of 255. */
  predicate CountSurvives(s: Segment) {
    s.asns == [] || |s.asns| % 255 != 0
  }

  lemma DecodeInvertsEncode(x: u32, t: seq<byte>, enc2: bool)
    ensures DecodeAsn(EncodeAsn(x, enc2) + t, enc2) == if enc2 then x % 0x1_0000 else x
  {
    if enc2 {
      BE16RoundTrip(x % 0x1_0000, t);
    } else {
      BE32RoundTrip(x, t);
    }
  }

  lemma {:induction false} ReadInvertsWrite(xs: seq<u32>, t: seq<byte>, enc2: bool)
    ensures ReadAsns(EncodeAsns(xs, enc2) + t, |xs|, enc2) == (Fit(xs, enc2), t)
  {
    if xs == [] {
      assert EncodeAsns(xs, enc2) + t == t;
    } else {
      var rest := EncodeAsns(xs[1..], enc2) + t;
      Assoc(EncodeAsn(xs[0], enc2), EncodeAsns(xs[1..], enc2), t);
      SplitConcat(EncodeAsn(xs[0], enc2), rest);
      DecodeInvertsEncode(xs[0], rest, enc2);
      ReadInvertsWrite(xs[1..], t, enc2);
      assert Fit(xs, enc2) == [Fit(xs, enc2)[0]] + Fit(xs[1..], enc2);
    }
  }

  lemma ParseOneChunk(stype: byte, xs: seq<u32>, t: seq<byte>, enc2: bool)
    requires |xs| <= 255
    ensures Parse([stype, |xs|] + EncodeAsns(xs, enc2) + t, enc2) == [Segment(stype, Fit(xs, enc2))] + Parse(t, enc2)
  {
    var b := [stype, |xs|] + EncodeAsns(xs, enc2) + t;
    Assoc([stype, |xs|], EncodeAsns(xs, enc2), t);
    SplitConcat([stype, |xs|], EncodeAsns(xs, enc2) + t);
    ReadInvertsWrite(xs, t, enc2);
  }

  lemma ParseFullChunk(s: Segment, t: seq<byte>, enc2: bool)
    requires |s.asns| > 255
    ensures Parse(Encode(s, enc2) + t, enc2)
         == [Segment(s.stype, Fit(s.asns[..255], enc2))] + Parse(Encode(Segment(s.stype, s.asns[255..]), enc2) + t, enc2)
  {
    var more := Encode(Segment(s.stype, s.asns[255..]), enc2);
    ParseOneChunk(s.stype, s.asns[..255], more + t, enc2);
    Assoc([s.stype, 255] + EncodeAsns(s.asns[..255], enc2), more, t);
  }

  lemma {:induction false} ParseInvertsEncode(s: Segment, t: seq<byte>, enc2: bool)
    requires CountSurvives(s)
    ensures Parse(Encode(s, enc2) + t, enc2) == Chunks(s, enc2) + Parse(t, enc2)
    decreases |s.asns|
  {
    if s.asns == [] {
      assert Encode(s, enc2) + t == t;
    } else if |s.asns| <= 255 {
      ParseOneChunk(s.stype, s.asns, t, enc2);
    } else {
      var more := Segment(s.stype, s.asns[255..]);
      var rest := Encode(more, enc2) + t;
      ParseInvertsEncode(more, t, enc2);
      ParseFullChunk(s, t, enc2);
      Assoc([Segment(s.stype, Fit(s.asns[..255], enc2))], Chunks(more, enc2), Parse(t, enc2));
    }
  }

  /** A length that is a positive multiple of 255 is never read back: a wire segment of no ASNs shows up instead. */
  lemma {:induction false} MultipleOf255IsLost(s: Segment, t: seq<byte>, r: seq<Segment>, enc2: bool)
    requires !CountSurvives(s)
    ensures Parse(Encode(s, enc2) + t, enc2) != Chunks(s, enc2) + r
    decreases |s.asns|
  {
    if |s.asns| <= 255 {
      assert Parse(Encode(s, enc2) + t, enc2)[0] == Segment(s.stype, []);
    } else {
      var more := Segment(s.stype, s.asns[255..]);
      MultipleOf255IsLost(more, t, r, enc2);
      ParseFullChunk(s, t, enc2);
      var first := [Segment(s.stype, Fit(s.asns[..255], enc2))];
      Assoc(first, Chunks(more, enc2), r);
      Cancel(first, Parse(Encode(more, enc2) + t, enc2), Chunks(more, enc2) + r);
    }
  }

  /**
    Reading a written path gives its chunks, in order and with nothing else, exactly when no segment holds a
    positive multiple of 255 ASNs.
   */
  lemma {:induction false} PathRoundTrip(l: seq<Segment>, enc2: bool)
    ensures Parse(EncodeAll(l, enc2), enc2) == ChunkAll(l, enc2) <==> forall s | s in l :: CountSurvives(s)
  {
    if l != [] {
      var t := EncodeAll(l[1..], enc2);
      assert forall s :: s in l <==> s == l[0] || s in l[1..];
      PathRoundTrip(l[1..], enc2);
      if CountSurvives(l[0]) {
        ParseInvertsEncode(l[0], t, enc2);
        Cancel(Chunks(l[0], enc2), Parse(t, enc2), ChunkAll(l[1..], enc2));
      } else {
        MultipleOf255IsLost(l[0], t, ChunkAll(l[1..], enc2), enc2);
      }
    }
  }

  function Joined(l: seq<Segment>): seq<u32> {
    if l == [] then [] else l[0].asns + Joined(l[1..])
  }

  /**
    The chunks of a segment: ceil(n / 255) of them, each with its type and 1 to 255 ASNs, which joined are the
    path (cut to 16 bits in the two-octet form).
   */
  lemma {:induction false} ChunksCarryThePath(s: Segment, enc2: bool)
    ensures |Chunks(s, enc2)| == LenSets(|s.asns|)
    ensures forall c | c in Chunks(s, enc2) :: c.stype == s.stype && 1 <= |c.asns| <= 255
    ensures Joined(Chunks(s, enc2)) == Fit(s.asns, enc2)
    decreases |s.asns|
  {
    if s.asns != [] {
      if |s.asns| <= 255 {
        assert Joined(Chunks(s, enc2)[1..]) == [];
      } else {
        var more := Segment(s.stype, s.asns[255..]);
        ChunksCarryThePath(more, enc2);
        assert Chunks(s, enc2)[1..] == Chunks(more, enc2);
        assert Fit(s.asns, enc2) == Fit(s.asns[..255], enc2) + Fit(s.asns[255..], enc2);
        assert LenSets(|s.asns|) == 1 + LenSets(|s.asns| - 255);
      }
    }
  }

  // ---------------------------------------------------------------- decoded paths

  /** Either every ASN was there, or the input ran out. */
  lemma {:induction false} ReadAsnsUse(b: seq<byte>, n: nat, enc2: bool)
    ensures |b| == Width(enc2) * n + |ReadAsns(b, n, enc2).1| || |ReadAsns(b, n, enc2).1| < Width(enc2)
    ensures enc2 ==> forall x | x in ReadAsns(b, n, enc2).0 :: x < 0x1_0000
    decreases n
  {
    if n > 0 {
      if |b| < Width(enc2) {
        ReadAsnsExhausted(b, n, enc2);
      } else {
        ReadAsnsUse(b[Width(enc2)..], n - 1, enc2);
      }
    }
  }

  predicate Short(s: Segment, enc2: bool) {
    |s.asns| <= 255 && (enc2 ==> forall x | x in s.asns :: x < 0x1_0000)
  }

  lemma {:induction false} ParsedSegments(b: seq<byte>, enc2: bool)
    ensures forall s | s in Parse(b, enc2) :: Short(s, enc2)
    decreases |b|
  {
    if |b| >= 2 {
      ReadAsnsUse(b[2..], b[1], enc2);
      ParsedSegments(ReadAsns(b[2..], b[1], enc2).1, enc2);
    }
  }

  /** At most two segments of a path are cut short and padded, so re-encoding adds at most twice 255 ASNs. */
  lemma {:induction false} ParsedLength(b: seq<byte>, enc2: bool)
    ensures |EncodeAll(Parse(b, enc2), enc2)| <= |b| + if |b| < 2 then 0 else if |b| < 4 then 1020 else 2040
    decreases |b|
  {
    if |b| >= 2 {
      var (asns, rest) := ReadAsns(b[2..], b[1], enc2);
      var s := Segment(b[0], asns);
      LenContentIsWritten(s, enc2);
      ReadAsnsUse(b[2..], b[1], enc2);
      ParsedLength(rest, enc2);
      assert Parse(b, enc2)[1..] == Parse(rest, enc2);
    }
  }

  function NonEmpty(l: seq<Segment>): seq<Segment> {
    if l == [] then []
    else if l[0].asns == [] then NonEmpty(l[1..])
    else [l[0]] + NonEmpty(l[1..])
  }

  lemma FitIsIdentity(xs: seq<u32>, enc2: bool)
    requires enc2 ==> forall x | x in xs :: x < 0x1_0000
    ensures Fit(xs, enc2) == xs
  {
    if enc2 {
      forall i | 0 <= i < |xs| ensures xs[i] % 0x1_0000 == xs[i] {
        assert xs[i] in xs;
      }
    }
  }

  /** The chunks of segments of at most 255 ASNs are those segments, without the empty ones. */
  lemma {:induction false} ShortPathDropsEmpty(l: seq<Segment>, enc2: bool)
    requires forall s | s in l :: Short(s, enc2)
    ensures ChunkAll(l, enc2) == NonEmpty(l)
  {
    if l != [] {
      assert Short(l[0], enc2);
      FitIsIdentity(l[0].asns, enc2);
      ShortPathDropsEmpty(l[1..], enc2);
    }
  }

  lemma {:induction false} NonEmptyIsWrittenAlike(l: seq<Segment>, enc2: bool)
    ensures EncodeAll(NonEmpty(l), enc2) == EncodeAll(l, enc2)
  {
    if l != [] {
      NonEmptyIsWrittenAlike(l[1..], enc2);
      if l[0].asns != [] {
        assert NonEmpty(l)[1..] == NonEmpty(l[1..]);
      }
    }
  }

  lemma {:induction false} NonEmptyIsShort(l: seq<Segment>, enc2: bool)
    ensures forall s | s in NonEmpty(l) :: s in l && s.asns != []
    ensures NonEmpty(NonEmpty(l)) == NonEmpty(l)
  {
    if l != [] {
      NonEmptyIsShort(l[1..], enc2);
      if l[0].asns != [] {
        assert NonEmpty(l)[1..] == NonEmpty(l[1..]);
      }
    }
  }

  lemma {:induction false} NonEmptyLength(l: seq<Segment>)
    ensures |NonEmpty(l)| <= |l|
  {
    if l != [] {
      NonEmptyLength(l[1..]);
    }
  }

  lemma {:induction false} NonEmptyIff(l: seq<Segment>)
    ensures NonEmpty(l) == l <==> forall s | s in l :: s.asns != []
  {
    if l != [] {
      NonEmptyIff(l[1..]);
      NonEmptyLength(l[1..]);
      if l[0].asns != [] {
        Cancel([l[0]], NonEmpty(l[1..]), l[1..]);
        assert [l[0]] + l[1..] == l;
      }
    }
  }

  // ---------------------------------------------------------------- which decoded paths survive

  lemma {:induction false} ZeroAsns(n: nat, enc2: bool)
    ensures EncodeAsns(Zeros(n), enc2) == Zeros(|EncodeAsns(Zeros(n), enc2)|)
  {
    if n > 0 {
      assert Zeros(n)[1..] == Zeros(n - 1);
      ZeroAsns(n - 1, enc2);
      assert EncodeAsn(0, enc2) == Zeros(Width(enc2));
    }
  }

  lemma EncodeInvertsDecode(b: seq<byte>, enc2: bool)
    requires |b| >= Width(enc2)
    ensures EncodeAsn(DecodeAsn(b, enc2), enc2) == b[..Width(enc2)]
  {
    hide BE16, BE32, U16, U32;
    if enc2 {
      U16RoundTrip(b);
    } else {
      U32RoundTrip(b);
    }
  }

  /** `used` octets of the input, written again, and zeros for the ASNs that were missing. */
  predicate WrittenAgain(b: seq<byte>, asns: seq<byte>, rest: seq<byte>, width: nat) {
    && |rest| <= |b|
    && var used := |b| - |rest|;
       && used <= |asns| && asns == b[..used] + Zeros(|asns| - used) && rest == b[used..]
       && (used == |asns| || |rest| < width)
  }

  lemma WrittenAgainStep(b: seq<byte>, head: seq<byte>, asns: seq<byte>, rest: seq<byte>, width: nat)
    requires |head| <= |b| && head == b[..|head|] && WrittenAgain(b[|head|..], asns, rest, width)
    ensures WrittenAgain(b, head + asns, rest, width)
  {
    var y := b[|head|..];
    var used := |y| - |rest|;
    Assoc(head, y[..used], Zeros(|asns| - used));
    assert head + y[..used] == b[..|head| + used];
  }

  /** Writing the ASNs that were read gives the input back, up to zeros where it ran out. */
  lemma {:induction false} WriteInvertsRead(b: seq<byte>, n: nat, enc2: bool)
    ensures var (xs, rest) := ReadAsns(b, n, enc2); WrittenAgain(b, EncodeAsns(xs, enc2), rest, Width(enc2))
    decreases n
  {
    var w := Width(enc2);
    if |b| < w || n == 0 {
      ReadAsnsExhausted(b, n, enc2);
      ZeroAsns(n, enc2);
    } else {
      var (xs, rest) := ReadAsns(b[w..], n - 1, enc2);
      WriteInvertsRead(b[w..], n - 1, enc2);
      EncodeInvertsDecode(b, enc2);
      WrittenAgainStep(b, b[..w], EncodeAsns(xs, enc2), rest, w);
      assert ([DecodeAsn(b, enc2)] + xs)[1..] == xs;
    }
  }

  /** Up to `n`, every second octet is 0 or 255: what a count octet is that does not announce 1 to 254 ASNs. */
  predicate OddCounts(b: seq<byte>, n: nat)
    requires n <= |b|
  {
    forall k | 0 <= k < n && k % 2 == 1 :: b[k] == 0 || b[k] == 255
  }

  /** From the third octet up to `hi`, each octet comes again `d` octets later. */
  predicate Repeats(b: seq<byte>, d: nat, hi: nat)
    requires hi + d <= |b|
  {
    2 <= hi && b[2..hi] == b[2 + d..hi + d]
  }

  lemma RepeatsAt(b: seq<byte>, d: nat, hi: nat, k: nat)
    requires hi + d <= |b| && Repeats(b, d, hi) && 2 <= k < hi
    ensures b[k] == b[k + d]
  {
    assert b[2..hi][k - 2] == b[2 + d..hi + d][k - 2];
  }

  lemma OddCountsSpread(b: seq<byte>, d: nat, hi: nat)
    requires 0 < d && d % 2 == 0 && hi + d <= |b| && Repeats(b, d, hi) && OddCounts(b, d + 2)
    ensures OddCounts(b, hi + d)
  {
    for n := d + 2 to hi + d
      invariant OddCounts(b, n)
    {
      var k := n - d;
      RepeatsAt(b, d, hi, k);
      assert n % 2 == 1 ==> k % 2 == 1 && (b[k] == 0 || b[k] == 255);
    }
  }

  /** A 255 repeated every `d` octets cannot end in zeros. */
  lemma RepetitionHitsZeros(b: seq<byte>, d: nat, hi: nat)
    requires 0 < d && d + 1 < |b| && b[d + 1] == 255 && hi + d <= |b| && Repeats(b, d, hi)
    ensures exists k :: hi <= k < |b| && b[k] != 0
  {
    var p := d + 1;
    while p < hi
      invariant 2 <= p < |b| && b[p] == 255
      decreases hi - p
    {
      RepeatsAt(b, d, hi, p);
      p := p + d;
    }
  }

  /** What the first segment of a decoded path says about the input, `d` octets into `b`. */
  lemma ParsedFirst(b: seq<byte>, d: nat, r: seq<Segment>, enc2: bool)
    requires d <= |b| && Parse(b[d..], enc2) == r != []
    ensures d + 2 <= |b| && |r[0].asns| == b[d + 1]
    ensures r[0] == Segment(b[d], ReadAsns(b[d + 2..], b[d + 1], enc2).0)
    ensures r[1..] == Parse(ReadAsns(b[d + 2..], b[d + 1], enc2).1, enc2)
  {
    assert b[d..][2..] == b[d + 2..];
  }

  lemma WrittenFirst(r: seq<Segment>, enc2: bool)
    requires r != [] && 1 <= |r[0].asns| <= 255
    ensures EncodeAll(r, enc2) == [r[0].stype, |r[0].asns| % 255] + EncodeAsns(r[0].asns, enc2) + EncodeAll(r[1..], enc2)
  {
  }

  /** Where the reader runs out of input inside the ASNs of a segment, what remains holds no segment the writer wrote. */
  lemma NothingWrittenAfter(r: seq<Segment>, b: seq<byte>, rest: seq<byte>, enc2: bool)
    requires |rest| < Width(enc2) && |rest| <= |b| && b[|b| - |rest|..] == rest
    requires Parse(rest, enc2) == r
    requires |EncodeAll(r, enc2)| <= |b| && b[|b| - |EncodeAll(r, enc2)|..] == EncodeAll(r, enc2)
    ensures EncodeAll(r, enc2) == []
  {
    if |rest| >= 2 {
      var y := rest[1];
      ReadAsnsExhausted(rest[2..], y, enc2);
      assert r == [Segment(rest[0], Zeros(y))] + Parse(rest[2..], enc2);
      assert r[1..] == [];
      if y > 0 {
        WrittenFirst(r, enc2);
        ZeroAsns(y, enc2);
        ZerosEnd(b, EncodeAll(r, enc2), rest);
      }
    }
  }

  /** The last octets of `b` are those of `c` and of `rest`; `c` ends in at least four zeros. */
  lemma ZerosEnd(b: seq<byte>, c: seq<byte>, rest: seq<byte>)
    requires 2 <= |rest| < 4 < |c| <= |b| && b[|b| - |rest|..] == rest && b[|b| - |c|..] == c
    requires forall k | |c| - 4 <= k < |c| :: c[k] == 0
    ensures rest[1] == 0
  {
    assert b[|b| - |c|..][|c| - |rest| + 1] == b[|b| - |rest|..][1];
  }

  /**
    A reader that is an even number of octets ahead of the writer never reads back what is being written: the count
    octets it passed are 0 or 255, so every segment the writer has there holds 255 ASNs, which repeat themselves.
   */
  lemma {:induction false} ReaderAheadFails(r: seq<Segment>, d: nat, enc2: bool)
    requires forall s | s in r :: |s.asns| <= 255
    requires 2 <= d <= |EncodeAll(r, enc2)| && d % 2 == 0 && OddCounts(EncodeAll(r, enc2), d)
    ensures Parse(EncodeAll(r, enc2)[d..], enc2) != r
    decreases |r|
  {
    hide Parse, ReadAsns, Encode;
    var b := EncodeAll(r, enc2);
    if Parse(b[d..], enc2) == r {
      ParsedFirst(b, d, r, enc2);
      if r[0].asns == [] {
        EmptySegmentPasses(r, d, enc2);
        ReaderAheadFails(r[1..], d + 2, enc2);
      } else {
        FullSegmentPasses(r, d, enc2);
        ReaderAheadFails(r[1..], d, enc2);
      }
    }
  }

  /** An empty segment puts the reader two more octets ahead. */
  lemma EmptySegmentPasses(r: seq<Segment>, d: nat, enc2: bool)
    requires r != [] && r[0].asns == []
    requires d <= |EncodeAll(r, enc2)| && d % 2 == 0 && OddCounts(EncodeAll(r, enc2), d)
    requires Parse(EncodeAll(r, enc2)[d..], enc2) == r
    ensures var c := EncodeAll(r[1..], enc2);
      d + 2 <= |c| && OddCounts(c, d + 2) && Parse(c[d + 2..], enc2) == r[1..]
  {
    hide Parse, EncodeAll;
    EmptyWritesNothing(r, enc2);
    ParsedFirst(EncodeAll(r, enc2), d, r, enc2);
  }

  lemma EmptyWritesNothing(r: seq<Segment>, enc2: bool)
    requires r != [] && r[0].asns == []
    ensures EncodeAll(r, enc2) == EncodeAll(r[1..], enc2)
  {
  }

  /**
    The octets of a full segment, `asns`, read `d` octets further on than where they were written. Either they were all
    there, and then what follows was read with the same lead, or input ran out, and then they were not the last ones.
   */
  lemma LeadCarriesOver(b: seq<byte>, asns: seq<byte>, c: seq<byte>, d: nat, rest: seq<byte>, width: nat)
    requires |b| == 2 + |asns| + |c| && b[2..2 + |asns|] == asns && b[2 + |asns|..] == c && |asns| % 2 == 0
    requires 2 <= d && d + 2 <= |b| && d % 2 == 0 && OddCounts(b, d) && b[d + 1] == 255
    requires WrittenAgain(b[d + 2..], asns, rest, width)
    ensures b[|b| - |rest|..] == rest
    ensures |b| - d - 2 - |rest| == |asns| ==> d <= |c| && OddCounts(c, d) && rest == c[d..]
    ensures |b| - d - 2 - |rest| < |asns| ==> |rest| < width && c != []
    ensures |b| - d - 2 - |rest| <= |asns|
  {
    var used := |b| - d - 2 - |rest|;
    ReadLater(b, asns, d, rest, width);
    if used == |asns| {
      OddCountsSpread(b, d, 2 + used);
      OddCountsAfter(b, 2 + used, c, d);
      assert b[2 + used..][d..] == c[d..];
    } else if c == [] {
      RepetitionHitsZeros(b, d, 2 + used);
    }
  }

  lemma OddCountsAfter(b: seq<byte>, start: nat, c: seq<byte>, d: nat)
    requires start <= |b| && b[start..] == c && start % 2 == 0 && d <= |c| && OddCounts(b, start + d)
    ensures OddCounts(c, d)
  {
    forall k | 0 <= k < d && k % 2 == 1 ensures c[k] == 0 || c[k] == 255 {
      var i := start + k;
      assert c[k] == b[i] && i % 2 == 1;
    }
  }

  /** What was read repeats what was written, as far as it was there, and the rest of what was written is zeros. */
  lemma ReadLater(b: seq<byte>, asns: seq<byte>, d: nat, rest: seq<byte>, width: nat)
    requires 2 + |asns| <= |b| && b[2..2 + |asns|] == asns
    requires d + 2 <= |b| && WrittenAgain(b[d + 2..], asns, rest, width)
    ensures var used := |b| - d - 2 - |rest|;
      && 0 <= used <= |asns| && Repeats(b, d, 2 + used) && rest == b[|b| - |rest|..]
      && (used < |asns| ==> |rest| < width)
      && forall k | 2 + used <= k < 2 + |asns| :: b[k] == 0
  {
    var x := b[d + 2..];
    var used := |x| - |rest|;
    assert asns[..used] == x[..used];
    assert b[2..2 + used] == asns[..used];
    assert b[2 + d..2 + used + d] == x[..used];
    forall k | 2 + used <= k < 2 + |asns| ensures b[k] == 0 {
      assert b[2..2 + |asns|][k - 2] == asns[k - 2] == Zeros(|asns| - used)[k - 2 - used];
    }
  }

  /** The ASNs of a full segment repeat with the reader's lead, which then carries over to the segments after it. */
  lemma FullSegmentPasses(r: seq<Segment>, d: nat, enc2: bool)
    requires r != [] && 1 <= |r[0].asns| <= 255
    requires 2 <= d <= |EncodeAll(r, enc2)| && d % 2 == 0 && OddCounts(EncodeAll(r, enc2), d)
    requires Parse(EncodeAll(r, enc2)[d..], enc2) == r
    ensures var c := EncodeAll(r[1..], enc2);
      d <= |c| && OddCounts(c, d) && Parse(c[d..], enc2) == r[1..]
  {
    hide Parse, ReadAsns, EncodeAll, EncodeAsns;
    var (b, c) := (EncodeAll(r, enc2), EncodeAll(r[1..], enc2));
    var asns := EncodeAsns(r[0].asns, enc2);
    WrittenFirst(r, enc2);
    ParsedFirst(b, d, r, enc2);
    assert b[1] == |r[0].asns| % 255;
    assert |r[0].asns| == 255 && b[d + 1] == 255;
    WriteInvertsRead(b[d + 2..], 255, enc2);
    var rest := ReadAsns(b[d + 2..], 255, enc2).1;
    LeadCarriesOver(b, asns, c, d, rest, Width(enc2));
    if |b| - d - 2 - |rest| < |asns| {
      NothingWrittenAfter(r[1..], b, rest, enc2);
    }
  }

  lemma {:induction false} ShortPathSurvivesIff(l: seq<Segment>, enc2: bool)
    requires forall s | s in l :: Short(s, enc2)
    ensures Parse(EncodeAll(l, enc2), enc2) == l <==> forall s | s in l :: 1 <= |s.asns| < 255
  {
    if l != [] {
      assert Short(l[0], enc2);
      assert forall s :: s in l <==> s == l[0] || s in l[1..];
      if l[0].asns == [] {
        EmptySegmentIsLost(l, enc2);
      } else if |l[0].asns| == 255 {
        WrittenFirst(l, enc2);
      } else {
        ShortPathSurvivesIff(l[1..], enc2);
        FirstSegmentSurvives(l, enc2);
      }
    }
  }

  /**
    Exactly which paths are read back as they are: those whose segments all hold 1 to 254 ASNs that fit the width. No
    coincidence of ASNs that look like counts makes another path survive.
   */
  lemma PathSurvivesIff(l: seq<Segment>, enc2: bool)
    ensures Parse(EncodeAll(l, enc2), enc2) == l <==> forall s | s in l :: Short(s, enc2) && 1 <= |s.asns| < 255
  {
    ParsedSegments(EncodeAll(l, enc2), enc2);
    if forall s | s in l :: Short(s, enc2) {
      ShortPathSurvivesIff(l, enc2);
    }
  }

  lemma FirstSegmentSurvives(l: seq<Segment>, enc2: bool)
    requires l != [] && 1 <= |l[0].asns| < 255 && Short(l[0], enc2)
    ensures Parse(EncodeAll(l, enc2), enc2) == l <==> Parse(EncodeAll(l[1..], enc2), enc2) == l[1..]
  {
    var t := EncodeAll(l[1..], enc2);
    ParseInvertsEncode(l[0], t, enc2);
    FitIsIdentity(l[0].asns, enc2);
    Cancel([l[0]], Parse(t, enc2), l[1..]);
  }

  lemma EmptySegmentIsLost(l: seq<Segment>, enc2: bool)
    requires l != [] && l[0].asns == [] && forall s | s in l :: |s.asns| <= 255
    ensures Parse(EncodeAll(l, enc2), enc2) != l
  {
    hide EncodeAll;
    if Parse(EncodeAll(l, enc2), enc2) == l {
      EmptySegmentPasses(l, 0, enc2);
      ReaderAheadFails(l[1..], 2, enc2);
    }
  }

  // ---------------------------------------------------------------- a decoded path written over its own octets

  /** From `p` on, nothing but zeros. */
  predicate ZeroFrom(b: seq<byte>, p: nat) {
    forall k | p <= k < |b| :: b[k] == 0
  }

  lemma LastNonzero(b: seq<byte>) returns (p: nat)
    ensures p <= |b| && ZeroFrom(b, p) && (p > 0 ==> b[p - 1] != 0)
  {
    p := |b|;
    while p > 0 && b[p - 1] == 0
      invariant p <= |b| && ZeroFrom(b, p)
    {
      p := p - 1;
    }
  }

  /** The first segment of a two-octet path and the octets left, in terms of the input. */
  lemma FirstRewritten(b: seq<byte>) returns (first: seq<byte>, rest: seq<byte>)
    requires |b| >= 2
    ensures |rest| <= |b| - 2 && rest == b[|b| - |rest|..]
    ensures EncodeAll(Parse(b, true), true) == first + EncodeAll(Parse(rest, true), true)
    ensures b[1] == 0 ==> first == [] && |rest| == |b| - 2
    ensures b[1] != 0 ==>
      var used := |b| - 2 - |rest|;
      && |first| >= 2 + used && (|first| == 2 + used || (|rest| < 2 && |first| <= 512))
      && first[2..2 + used] == b[2..2 + used] && ZeroFrom(first, 2 + used)
  {
    hide EncodeAsns, ReadAsns, ZeroFrom;
    var (asns, left) := ReadAsns(b[2..], b[1], true);
    rest := left;
    var s := Segment(b[0], asns);
    first := Encode(s, true);
    WriteInvertsRead(b[2..], b[1], true);
    assert Parse(b, true)[1..] == Parse(rest, true);
    if b[1] != 0 {
      var used := |b| - 2 - |rest|;
      assert first == [b[0], b[1] % 255] + EncodeAsns(asns, true);
      assert EncodeAsns(asns, true) == b[2..][..used] + Zeros(|first| - 2 - used);
      PaddedPiece(b, [b[0], b[1] % 255], EncodeAsns(asns, true), used, |first| - 2 - used);
    }
  }

  lemma PaddedPiece(b: seq<byte>, head: seq<byte>, body: seq<byte>, used: nat, k: nat)
    requires |head| == 2 && 2 + used <= |b| && body == b[2..][..used] + Zeros(k)
    ensures |head + body| == 2 + used + k
    ensures (head + body)[2..2 + used] == b[2..2 + used] && ZeroFrom(head + body, 2 + used)
  {
    SplitConcat(head, body);
    SplitConcat(b[2..][..used], Zeros(k));
    assert b[2..][..used] == b[2..2 + used];
  }

  /** In the two-octet form, rewriting a decoded path adds nothing but zeros behind the last octet that is not zero. */
  lemma {:induction false} ZerosStayBehind(b: seq<byte>, p: nat)
    requires ZeroFrom(b, p)
    ensures ZeroFrom(EncodeAll(Parse(b, true), true), p)
    ensures p == 0 ==> EncodeAll(Parse(b, true), true) == []
    decreases |b|
  {
    hide Parse, EncodeAll;
    if |b| < 2 {
      ShortPath(b);
    } else {
      var first, rest := FirstRewritten(b);
      var start := |b| - |rest|;
      ZerosStayBehind(rest, if p < start then 0 else p - start);
      if |first| > start {
        ShortPath(rest);
      }
      if b[1] != 0 {
        TailZero(b, first, start, p);
      }
    }
  }

  lemma ShortPath(b: seq<byte>)
    requires |b| < 2
    ensures EncodeAll(Parse(b, true), true) == []
  {
  }

  lemma TailZero(b: seq<byte>, first: seq<byte>, start: nat, p: nat)
    requires 2 <= start <= |b| && start <= |first| && b[1] != 0 && ZeroFrom(b, p)
    requires first[2..start] == b[2..start] && ZeroFrom(first, start)
    ensures p >= 2 && ZeroFrom(first, p)
  {
    forall k | p <= k < |first| ensures first[k] == 0 {
      if k < start {
        assert first[2..start][k - 2] == b[2..start][k - 2];
      }
    }
  }

  /** At most one segment of a two-octet path is cut short, so rewriting adds at most twice 255 octets. */
  lemma {:induction false} RewrittenLength(b: seq<byte>)
    ensures |EncodeAll(Parse(b, true), true)| <= |b| + 510
    ensures |b| < 2 ==> EncodeAll(Parse(b, true), true) == []
    decreases |b|
  {
    hide Parse, EncodeAll;
    if |b| < 2 {
      ShortPath(b);
    } else {
      var first, rest := FirstRewritten(b);
      RewrittenLength(rest);
    }
  }

  /** A decoded path whose octets stand inside what is written for it stands at its front. */
  lemma InsideIsFront(d: seq<byte>, s: nat)
    requires var c := EncodeAll(Parse(d, true), true); s + |d| <= |c| && d == c[s..s + |d|]
    ensures s == 0
  {
    hide Parse, EncodeAll;
    var c := EncodeAll(Parse(d, true), true);
    var p := LastNonzero(d);
    ZerosStayBehind(d, p);
    if p > 0 {
      assert c[s..s + |d|][p - 1] == c[s + p - 1];
    }
  }
}
