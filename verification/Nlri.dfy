/**
  Prefixes and their wire form: the mask tables, `NLRI_IPPrefix` and `ParseNLRI`
  (sections 4.3 of RFC 4271, 5 of RFC 4760, 3 of RFC 7911).
 */
module Nlri {
  import opened Bytes

  const AFI_IPV4: u16 := 1
  const AFI_IPV6: u16 := 2
  const SAFI_UNICAST: byte := 1
  const SAFI_MULTICAST: byte := 2

  datatype AfiSafi = AfiSafi(afi: u16, safi: byte)

  /** An `NLRI_IPPrefix`: the two fields of its `net.IPNet`, and the path identifier. */
  datatype Prefix = Prefix(ip: seq<byte>, mask: seq<byte>, pathId: u32)

  // ---------------------------------------------------------------- masks

  /** One octet of a mask that has `k` ones left to place. */
  function MaskByte(k: int): byte {
    if k <= 0 then 0
    else if k >= 8 then 255
    else [0, 128, 192, 224, 240, 248, 252, 254][k]
  }

  /** Row `bits` of the mask table whose rows have `n` octets (`MaskV4` and `MaskV6`). */
  function Mask(bits: int, n: nat): (m: seq<byte>)
    ensures |m| == n
    ensures bits <= 0 ==> m == Zeros(n)
    decreases n
  {
    if n == 0 then [] else [MaskByte(bits)] + Mask(bits - 8, n - 1)
  }

  /** The number of leading ones of an octet. */
  function LeadingOnes(v: byte): (k: nat)
    ensures k <= 8
  {
    if v < 128 then 0 else if v < 192 then 1 else if v < 224 then 2 else if v < 240 then 3
    else if v < 248 then 4 else if v < 252 then 5 else if v < 254 then 6 else if v < 255 then 7 else 8
  }

  /** `net.IPMask.Size` before its `-1` becomes 0: the count of ones, or -1 for a mask with a gap. */
  function SimpleMaskLength(m: seq<byte>): int {
    if m == [] then 0
    else if m[0] == 255 then
      var r := SimpleMaskLength(m[1..]);
      if r < 0 then -1 else 8 + r
    else if m[0] == MaskByte(LeadingOnes(m[0])) && m[1..] == Zeros(|m| - 1) then LeadingOnes(m[0])
    else -1
  }

  function MaskSize(m: seq<byte>): nat {
    if SimpleMaskLength(m) < 0 then 0 else SimpleMaskLength(m)
  }

  /** Taking the size of a table row gives the row number back, for every row of either table. */
  lemma {:induction false} MaskSizeInverts(bits: nat, n: nat)
    requires bits <= 8 * n
    ensures SimpleMaskLength(Mask(bits, n)) == bits && MaskSize(Mask(bits, n)) == bits
  {
    if n > 0 {
      assert Mask(bits, n)[1..] == Mask(bits - 8, n - 1);
      if bits >= 8 {
        MaskSizeInverts(bits - 8, n - 1);
      }
    }
  }

  /** What each bit of an octet counts, the first one first. */
  const WEIGHTS: seq<nat> := [128, 64, 32, 16, 8, 4, 2, 1]

  /** Bit `j` of octet `i`, which is bit `8 * i + j` of the mask. */
  predicate Bit(m: seq<byte>, i: nat, j: nat)
    requires i < |m| && j < 8
  {
    m[i] / WEIGHTS[j] % 2 == 1
  }

  lemma MaskByteBits(k: int, j: nat)
    requires j < 8
    ensures MaskByte(k) / WEIGHTS[j] % 2 == 1 <==> j < k
  {
    if 0 < k < 8 {
      assert MaskByte(k) == 128 || MaskByte(k) == 192 || MaskByte(k) == 224 || MaskByte(k) == 240
        || MaskByte(k) == 248 || MaskByte(k) == 252 || MaskByte(k) == 254;
    }
  }

  /** Row `bits` of either table has its first `bits` bits set and no other, for every row. */
  lemma {:induction false} MaskBits(bits: int, n: nat, i: nat, j: nat)
    requires i < n && j < 8
    ensures Bit(Mask(bits, n), i, j) <==> 8 * i + j < bits
    decreases n
  {
    hide MaskByte;
    if i == 0 {
      MaskByteBits(bits, j);
    } else {
      MaskBits(bits - 8, n - 1, i - 1, j);
      assert Mask(bits, n)[i] == Mask(bits - 8, n - 1)[i - 1];
    }
  }

  /** The size of a mask is a row number exactly when the mask is that row, and -1 exactly when it is no row at all. */
  lemma {:induction false} SizeMeansRow(m: seq<byte>)
    ensures SimpleMaskLength(m) >= 0 ==> SimpleMaskLength(m) <= 8 * |m| && m == Mask(SimpleMaskLength(m), |m|)
    ensures SimpleMaskLength(m) < 0 ==> forall k: nat | k <= 8 * |m| :: m != Mask(k, |m|)
  {
    if m != [] {
      SizeMeansRow(m[1..]);
    }
    if SimpleMaskLength(m) < 0 {
      forall k: nat | k <= 8 * |m| ensures m != Mask(k, |m|) {
        MaskSizeInverts(k, |m|);
      }
    }
  }

  // ---------------------------------------------------------------- encoding

  /** Octets needed for a prefix of the given number of bits. */
  function ByteLen(bits: nat): nat {
    bits / 8 + if bits % 8 != 0 then 1 else 0
  }

  /** They are enough, and one less would not be. */
  lemma EnoughOctets(bits: nat)
    ensures bits <= 8 * ByteLen(bits) < bits + 8
  {
  }

  function SplitLen(n: Prefix): nat {
    ByteLen(MaskSize(n.mask))
  }

  function Len(n: Prefix, addpath: bool): nat {
    (if addpath then 4 else 0) + 1 + SplitLen(n)
  }

  /** The writer slices `IP[:length]`, so the address must be that long; the mask must be an IPv4 or IPv6 one. */
  predicate Writable(n: Prefix) {
    SplitLen(n) <= |n.ip| && |n.mask| <= 16
  }

  lemma {:induction false} MaskSizeBound(m: seq<byte>)
    ensures MaskSize(m) <= 8 * |m| && SimpleMaskLength(m) <= 8 * |m|
  {
    if m != [] {
      MaskSizeBound(m[1..]);
    }
  }

  function Encode(n: Prefix, addpath: bool): (r: seq<byte>)
    requires Writable(n)
    ensures |r| == Len(n, addpath)
  {
    MaskSizeBound(n.mask);
    (if addpath then BE32(n.pathId) else []) + [MaskSize(n.mask)] + n.ip[..SplitLen(n)]
  }

  predicate AllWritable(l: seq<Prefix>) {
    forall n | n in l :: Writable(n)
  }

  function EncodeList(l: seq<Prefix>, addpath: bool): seq<byte>
    requires AllWritable(l)
  {
    if l == [] then [] else Encode(l[0], addpath) + EncodeList(l[1..], addpath)
  }

  lemma {:induction false} EncodeListConcat(a: seq<Prefix>, b: seq<Prefix>, addpath: bool)
    requires AllWritable(a) && AllWritable(b)
    ensures AllWritable(a + b)
    ensures EncodeList(a + b, addpath) == EncodeList(a, addpath) + EncodeList(b, addpath)
  {
    if a == [] {
      assert a + b == b;
    } else {
      assert (a + b)[1..] == a[1..] + b;
      EncodeListConcat(a[1..], b, addpath);
    }
  }

  method Write(n: Prefix, w: Buffer, addpath: bool)
    requires Writable(n)
    modifies w
    ensures w.data == old(w.data) + Encode(n, addpath)
  {
    if addpath {
      w.PutU32(n.pathId);
    }
    MaskSizeBound(n.mask);
    var ones := MaskSize(n.mask);
    w.PutByte(ones);
    w.PutBytes(n.ip[..SplitLen(n)]);
  }

  method WriteList(l: seq<Prefix>, w: Buffer, addpath: bool)
    requires AllWritable(l)
    modifies w
    ensures w.data == old(w.data) + EncodeList(l, addpath)
  {
    for i := 0 to |l|
      invariant w.data + EncodeList(l[i..], addpath) == old(w.data) + EncodeList(l, addpath)
    {
      assert l[i..][1..] == l[i + 1..];
      Assoc(w.data, Encode(l[i], addpath), EncodeList(l[i + 1..], addpath));
      Write(l[i], w, addpath);
    }
  }

  /** The accumulator loop behind every `ContentLen`: it counts the octets `WriteList` will append. */
  method ListLen(l: seq<Prefix>, addpath: bool) returns (sum: nat)
    requires AllWritable(l)
    ensures sum == |EncodeList(l, addpath)|
  {
    sum := 0;
    for i := 0 to |l|
      invariant sum + |EncodeList(l[i..], addpath)| == |EncodeList(l, addpath)|
    {
      sum := sum + Len(l[i], addpath);
      assert l[i..][1..] == l[i + 1..];
    }
  }

  // ---------------------------------------------------------------- decoding

  datatype NlriError = UnknownAfi | ShortPathId | BadPrefixLength | ShortPrefix

  /** The two results of `ParseNLRI`; a list may come with an error. */
  datatype NlriResult = NlriResult(list: seq<Prefix>, err: Option<NlriError>)

  function AddressSize(afi: u16): nat {
    if afi == AFI_IPV6 then 16 else 4
  }

  predicate KnownAfi(afi: u16) {
    afi == AFI_IPV4 || afi == AFI_IPV6
  }

  function MakePrefix(octets: seq<byte>, bits: byte, pathId: u32, asize: nat): Prefix
    requires |octets| <= asize
  {
    Prefix(octets + Zeros(asize - |octets|), Mask(bits, asize), pathId)
  }

  /** The result of the whole list when `acc` was decoded before `tail`; a short path identifier drops everything. */
  function Resume(acc: seq<Prefix>, tail: NlriResult): NlriResult {
    if tail.err == Some(ShortPathId) then tail else NlriResult(acc + tail.list, tail.err)
  }

  lemma ResumeTwice(a: seq<Prefix>, b: seq<Prefix>, tail: NlriResult)
    ensures Resume(a, Resume(b, tail)) == Resume(a + b, tail)
  {
    assert a + (b + tail.list) == a + b + tail.list;
  }

  /** What one turn of the loop finds at the head of the remaining input. */
  datatype Turn = Stop(err: NlriError) | Take(head: Prefix, used: nat)

  function Next(b: seq<byte>, asize: nat, path: bool): (r: Turn)
    requires b != []
    ensures r.Take? ==> 0 < r.used <= |b|
  {
    if path && |b| < 5 then Stop(ShortPathId)
    else
      var start := if path then 5 else 1;
      var bits := b[start - 1];
      if bits > 8 * asize then Stop(BadPrefixLength)
      else if start + ByteLen(bits) > |b| then Stop(ShortPrefix)
      else
        var used := start + ByteLen(bits);
        Take(MakePrefix(b[start..used], bits, if path then U32(b) else 0, asize), used)
  }

  function ParseFrom(b: seq<byte>, asize: nat, path: bool): NlriResult {
    if b == [] then NlriResult([], None)
    else
      match Next(b, asize, path)
      case Stop(err) => NlriResult([], Some(err))
      case Take(head, used) => Resume([head], ParseFrom(b[used..], asize, path))
  }

  /** `ParseNLRI`; the SAFI only appears in its error text. */
  function Parse(b: seq<byte>, afi: u16, path: bool): NlriResult {
    if !KnownAfi(afi) then NlriResult([], Some(UnknownAfi)) else ParseFrom(b, AddressSize(afi), path)
  }

  method ParseNLRI(b: seq<byte>, afi: u16, path: bool) returns (list: seq<Prefix>, err: Option<NlriError>)
    ensures NlriResult(list, err) == Parse(b, afi, path)
  {
    if afi != AFI_IPV4 && afi != AFI_IPV6 {
      return [], Some(UnknownAfi);
    }
    var asize := 4;
    if afi == AFI_IPV6 {
      asize := 16;
    }
    var i := 0;
    list := [];
    while i < |b|
      invariant 0 <= i <= |b|
      invariant ParseFrom(b, asize, path) == Resume(list, ParseFrom(b[i..], asize, path))
      decreases |b| - i
    {
      ghost var at := i;
      var pathId: u32 := 0;
      if path {
        if |b| - i < 5 {
          return [], Some(ShortPathId);
        }
        pathId := U32(b[i..]);
        i := i + 4;
      }
      var bits := b[i];
      i := i + 1;
      if bits > 8 * asize {
        return list, Some(BadPrefixLength);
      }
      var byteLen := bits / 8;
      if bits % 8 != 0 {
        byteLen := byteLen + 1;
      }
      if i + byteLen > |b| {
        return list, Some(ShortPrefix);
      }
      var end := i + byteLen;
      var prefix := b[i..end];
      Advance(b, at, i, end, list, pathId, bits, asize, path);
      list := list + [MakePrefix(prefix, bits, pathId, asize)];
      i := end;
    }
    return list, None;
  }

  /** One turn of the loop: past the octet `bits` before `k`, the cursor moves from `i` to `j` and the list grows. */
  lemma Advance(b: seq<byte>, i: nat, k: nat, j: nat, acc: seq<Prefix>, pathId: u32, bits: byte, asize: nat, path: bool)
    requires k == i + (if path then 5 else 1) <= j <= |b|
    requires b[k - 1] == bits <= 8 * asize && j == k + ByteLen(bits)
    requires pathId == if path then U32(b[i..]) else 0
    ensures j - k <= asize
    ensures Resume(acc, ParseFrom(b[i..], asize, path))
         == Resume(acc + [MakePrefix(b[k..j], bits, pathId, asize)], ParseFrom(b[j..], asize, path))
  {
    hide Next, ParseFrom;
    var (rest, used) := (b[i..], j - i);
    DropThenSlice(b, i, k - i, used);
    NextIs(rest, b[k..j], pathId, bits, asize, path);
    ParseFromTake(rest, asize, path);
    ResumeTwice(acc, [MakePrefix(b[k..j], bits, pathId, asize)], ParseFrom(b[j..], asize, path));
  }

  lemma ParseFromTake(b: seq<byte>, asize: nat, path: bool)
    requires b != [] && Next(b, asize, path).Take?
    ensures var Take(head, used) := Next(b, asize, path);
      ParseFrom(b, asize, path) == Resume([head], ParseFrom(b[used..], asize, path))
  {
  }

  lemma NextIs(b: seq<byte>, octets: seq<byte>, pathId: u32, bits: byte, asize: nat, path: bool)
    requires bits <= 8 * asize && |octets| == ByteLen(bits)
    requires if path then |b| >= 4 && U32(b) == pathId else pathId == 0
    requires var start := if path then 5 else 1;
      start + |octets| <= |b| && b[start - 1] == bits && b[start..start + |octets|] == octets
    ensures b != [] && |octets| <= asize
    ensures Next(b, asize, path) == Take(MakePrefix(octets, bits, pathId, asize), (if path then 5 else 1) + |octets|)
  {
  }

  // ---------------------------------------------------------------- the codec is a bijection

  /**
    A prefix the decoder can produce: an address of the family's size that is zero past the octets the
    mask covers, a mask with no gap, and no path identifier unless one is sent. Bits of the last covered
    octet that the mask does not cover are free.
   */
  predicate Canonical(n: Prefix, asize: nat, path: bool) {
    && |n.ip| == asize
    && MaskSize(n.mask) <= 8 * asize
    && n.mask == Mask(MaskSize(n.mask), asize)
    && n.ip[SplitLen(n)..] == Zeros(asize - SplitLen(n))
    && (path || n.pathId == 0)
  }

  predicate AllCanonical(l: seq<Prefix>, asize: nat, path: bool) {
    forall n | n in l :: Canonical(n, asize, path)
  }

  lemma {:induction false} CanonicalIsWritable(l: seq<Prefix>, asize: nat, path: bool)
    requires AllCanonical(l, asize, path) && asize <= 16
    ensures AllWritable(l)
  {
  }

  /** Decoding the octets of one canonical prefix yields it and leaves the octets after it. */
  lemma ParseOne(n: Prefix, t: seq<byte>, asize: nat, path: bool)
    requires asize <= 16 && Canonical(n, asize, path) && Writable(n)
    ensures ParseFrom(Encode(n, path) + t, asize, path) == Resume([n], ParseFrom(t, asize, path))
  {
    var b := Encode(n, path) + t;
    var octets := n.ip[..SplitLen(n)];
    var head := if path then BE32(n.pathId) else [];
    var lo := if path then 5 else 1;
    var hi := lo + SplitLen(n);
    Pieces(b, head, MaskSize(n.mask), octets, t, lo, hi);
    if path {
      BE32RoundTrip(n.pathId, b[4..]);
      assert b == BE32(n.pathId) + b[4..];
    }
    NextIs(b, octets, n.pathId, MaskSize(n.mask), asize, path);
    assert octets + n.ip[SplitLen(n)..] == n.ip;
    assert Next(b, asize, path) == Take(n, hi);
  }

  lemma {:induction false} ParseFromInvertsEncode(l: seq<Prefix>, asize: nat, path: bool)
    requires asize <= 16 && AllCanonical(l, asize, path) && AllWritable(l)
    ensures ParseFrom(EncodeList(l, path), asize, path) == NlriResult(l, None)
  {
    if l != [] {
      ParseOne(l[0], EncodeList(l[1..], path), asize, path);
      ParseFromInvertsEncode(l[1..], asize, path);
      assert [l[0]] + l[1..] == l;
    }
  }

  /** Written prefixes in front of other input are decoded first, and the rest as it would be on its own. */
  lemma {:induction false} ParseFromAfter(l: seq<Prefix>, t: seq<byte>, asize: nat, path: bool)
    requires asize <= 16 && AllCanonical(l, asize, path) && AllWritable(l)
    ensures ParseFrom(EncodeList(l, path) + t, asize, path) == Resume(l, ParseFrom(t, asize, path))
  {
    if l == [] {
      assert EncodeList(l, path) + t == t && [] + ParseFrom(t, asize, path).list == ParseFrom(t, asize, path).list;
    } else {
      var rest := EncodeList(l[1..], path);
      Assoc(Encode(l[0], path), rest, t);
      ParseOne(l[0], rest + t, asize, path);
      ParseFromAfter(l[1..], t, asize, path);
      ResumeTwice([l[0]], l[1..], ParseFrom(t, asize, path));
      assert [l[0]] + l[1..] == l;
    }
  }

  /**
    What damaged input gives, in plain octets: for IPv4 (1) and IPv6 (2) the prefixes before a bad length or a cut address
    are returned with the error, those before a cut path identifier are not; any other family gives nothing.
   */
  lemma DamagedList(l: seq<Prefix>, t: seq<byte>, afi: u16, path: bool)
    requires t != [] && AllCanonical(l, if afi == 2 then 16 else 4, path)
    ensures AllWritable(l)
    ensures afi != 1 && afi != 2 ==> Parse(EncodeList(l, path) + t, afi, path) == NlriResult([], Some(UnknownAfi))
    ensures (afi == 1 || afi == 2) && path && |t| < 5 ==> Parse(EncodeList(l, path) + t, afi, path) == NlriResult([], Some(ShortPathId))
    ensures (afi == 1 || afi == 2) && (path ==> |t| >= 5) ==>
      var size := if afi == 2 then 128 else 32;
      var (bits, left) := (if path then t[4] else t[0], |t| - if path then 5 else 1);
      && (bits > size ==> Parse(EncodeList(l, path) + t, afi, path) == NlriResult(l, Some(BadPrefixLength)))
      && (bits <= size && 8 * left < bits ==> Parse(EncodeList(l, path) + t, afi, path) == NlriResult(l, Some(ShortPrefix)))
  {
    var asize := if afi == 2 then 16 else 4;
    CanonicalIsWritable(l, asize, path);
    ParseFromAfter(l, t, asize, path);
    assert l + [] == l;
    EnoughOctets(if path && |t| >= 5 then t[4] else t[0]);
  }

  /** Decoding what was written returns every canonical list, for both families, with and without path identifiers. */
  lemma ParseInvertsEncode(l: seq<Prefix>, afi: u16, path: bool)
    requires KnownAfi(afi) && AllCanonical(l, AddressSize(afi), path)
    ensures AllWritable(l)
    ensures Parse(EncodeList(l, path), afi, path) == NlriResult(l, None)
  {
    CanonicalIsWritable(l, AddressSize(afi), path);
    ParseFromInvertsEncode(l, AddressSize(afi), path);
  }

  lemma MakePrefixCanonical(octets: seq<byte>, bits: byte, pathId: u32, asize: nat, path: bool)
    requires asize <= 16 && bits <= 8 * asize && |octets| == ByteLen(bits) && (path || pathId == 0)
    ensures ByteLen(bits) <= asize
    ensures var n := MakePrefix(octets, bits, pathId, asize);
      Canonical(n, asize, path) && Writable(n) && Encode(n, path) == (if path then BE32(pathId) else []) + [bits] + octets
  {
    MaskSizeInverts(bits, asize);
  }

  lemma {:induction false} ParseFromProperties(b: seq<byte>, asize: nat, path: bool)
    requires asize <= 16
    ensures AllCanonical(ParseFrom(b, asize, path).list, asize, path)
    ensures AllWritable(ParseFrom(b, asize, path).list)
    ensures var e := EncodeList(ParseFrom(b, asize, path).list, path);
      e <= b && (ParseFrom(b, asize, path).err.None? <==> e == b)
    ensures ParseFrom(b, asize, path).err == Some(ShortPathId) ==> ParseFrom(b, asize, path).list == []
    decreases |b|
  {
    if b != [] && Next(b, asize, path).Take? {
      var Take(head, used) := Next(b, asize, path);
      NextCanonical(b, asize, path);
      ParseFromProperties(b[used..], asize, path);
      PrependDecoded(b, head, ParseFrom(b[used..], asize, path), used, path);
    }
  }

  lemma NextCanonical(b: seq<byte>, asize: nat, path: bool)
    requires asize <= 16 && b != [] && Next(b, asize, path).Take?
    ensures var Take(head, used) := Next(b, asize, path);
      Canonical(head, asize, path) && Writable(head) && Encode(head, path) == b[..used]
  {
    var start := if path then 5 else 1;
    var bits := b[start - 1];
    var used := start + ByteLen(bits);
    if path {
      U32RoundTrip(b);
    }
    MakePrefixCanonical(b[start..used], bits, if path then U32(b) else 0, asize, path);
    assert b[..used] == b[..start - 1] + [bits] + b[start..used];
  }

  lemma PrependDecoded(b: seq<byte>, head: Prefix, tail: NlriResult, used: nat, path: bool)
    requires 0 < used <= |b| && Writable(head) && AllWritable(tail.list)
    requires Encode(head, path) == b[..used]
    requires EncodeList(tail.list, path) <= b[used..]
    requires tail.err.None? <==> EncodeList(tail.list, path) == b[used..]
    requires tail.err == Some(ShortPathId) ==> tail.list == []
    ensures AllWritable(Resume([head], tail).list)
    ensures var e := EncodeList(Resume([head], tail).list, path);
      e <= b && (tail.err.None? <==> e == b)
  {
    assert b == b[..used] + b[used..];
    assert ([head] + tail.list)[1..] == tail.list;
    var e := EncodeList(tail.list, path);
    assert b[..used] + e == b ==> e == b[used..];
  }

  /** Whatever the decoder returns, also next to an error, is canonical, so it can be written without a fault. */
  lemma ParseCanonical(b: seq<byte>, afi: u16, path: bool)
    ensures AllCanonical(Parse(b, afi, path).list, AddressSize(afi), path)
    ensures AllWritable(Parse(b, afi, path).list)
  {
    ParseFromProperties(b, AddressSize(afi), path);
  }

  /**
    Writing a decoded list gives the input back octet for octet, host bits included, exactly when decoding
    reported no error; after an error it gives the octets that were decoded, which start the input.
   */
  lemma EncodeInvertsParse(b: seq<byte>, afi: u16, path: bool)
    requires KnownAfi(afi)
    ensures AllWritable(Parse(b, afi, path).list)
    ensures EncodeList(Parse(b, afi, path).list, path) <= b
    ensures Parse(b, afi, path).err.None? <==> EncodeList(Parse(b, afi, path).list, path) == b
  {
    ParseFromProperties(b, AddressSize(afi), path);
  }

  /** The form with path identifiers is four octets longer for each prefix. */
  lemma {:induction false} PathIdsTakeRoom(l: seq<Prefix>)
    requires AllWritable(l)
    ensures |EncodeList(l, true)| == |EncodeList(l, false)| + 4 * |l|
  {
    if l != [] {
      PathIdsTakeRoom(l[1..]);
    }
  }
}
