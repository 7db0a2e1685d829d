/**
  The OPEN message: capabilities, optional parameters, `ParseOpen` and `CraftOpenMessage` (section 4.2 of RFC 4271,
  section 4 of RFC 5492, section 4 of RFC 7911, section 3 of RFC 6793).
 */
module OpenMessage {
  import opened Bytes
  import Nlri
  import BgpHeader

  const CAPA_MP: byte := 1
  const CAPA_RR: byte := 2
  const CAPA_ASN: byte := 65
  const CAPA_ADDPATH: byte := 69
  const PARAMETER_CAPA: byte := 2
  const AS_TRANS: u16 := 23456

  /** `TxRx` is 1 for receive, 2 for send, 3 for both. */
  datatype AddPath = AddPath(afi: u16, safi: byte, txrx: byte)

  datatype Capability =
    | MP(afi: u16, safi: byte)
    | ASN(asn: u32)
    | AddPaths(list: seq<AddPath>)
    | RouteRefresh
    | Other(ctype: byte, data: seq<byte>)

  /** The data of a parameter is its capability list, or nil. */
  datatype Parameter = Parameter(ptype: byte, data: Option<seq<Capability>>)

  datatype Open = Open(version: byte, asn: u16, holdTime: u16, identifier: seq<byte>, parameters: seq<Parameter>)

  // ---------------------------------------------------------------- encoding

  function EncodeAddPath(p: AddPath): (r: seq<byte>)
    ensures |r| == 4
  {
    BE16(p.afi) + [p.safi, p.txrx]
  }

  function EncodeAddPaths(l: seq<AddPath>): (r: seq<byte>)
    ensures |r| == 4 * |l|
  {
    if l == [] then [] else EncodeAddPath(l[0]) + EncodeAddPaths(l[1..])
  }

  function CapabilityType(c: Capability): byte {
    match c
    case MP(_, _) => CAPA_MP
    case ASN(_) => CAPA_ASN
    case AddPaths(_) => CAPA_ADDPATH
    case RouteRefresh => CAPA_RR
    case Other(ctype, _) => ctype
  }

  function CapabilityData(c: Capability): seq<byte> {
    match c
    case MP(afi, safi) => BE16(afi) + [0, safi]
    case ASN(asn) => BE32(asn)
    case AddPaths(list) => EncodeAddPaths(list)
    case RouteRefresh => []
    case Other(_, data) => data
  }

  /** The length octet keeps the low eight bits only. */
  function EncodeCapability(c: Capability): seq<byte> {
    [CapabilityType(c), |CapabilityData(c)| % 0x100] + CapabilityData(c)
  }

  function EncodeCapabilities(l: seq<Capability>): seq<byte> {
    if l == [] then [] else EncodeCapability(l[0]) + EncodeCapabilities(l[1..])
  }

  function EncodeParameter(p: Parameter): seq<byte> {
    match p.data
    case None => [p.ptype, 0]
    case Some(l) => [p.ptype, |EncodeCapabilities(l)| % 0x100] + EncodeCapabilities(l)
  }

  function EncodeParameters(l: seq<Parameter>): seq<byte> {
    if l == [] then [] else EncodeParameter(l[0]) + EncodeParameters(l[1..])
  }

  /** The fields before the parameters; the writer slices `Identifier[0:4]`. */
  function FixedPart(o: Open): (r: seq<byte>)
    requires |o.identifier| >= 4
    ensures |r| == 9
  {
    [o.version] + BE16(o.asn) + BE16(o.holdTime) + o.identifier[..4]
  }

  function EncodeBody(o: Open): seq<byte>
    requires |o.identifier| >= 4
  {
    FixedPart(o) + [|EncodeParameters(o.parameters)| % 0x100] + EncodeParameters(o.parameters)
  }

  function Encode(o: Open): seq<byte>
    requires |o.identifier| >= 4
  {
    BgpHeader.Encode(BgpHeader.OPEN, 10 + |EncodeParameters(o.parameters)|) + EncodeBody(o)
  }

  method CapabilityLen(c: Capability) returns (len: nat)
    ensures len == |EncodeCapability(c)|
  {
    match c
    case MP(_, _) => len := 6;
    case ASN(_) => len := 6;
    case AddPaths(list) =>
      var sum := 0;
      for i := 0 to |list|
        invariant sum == 4 * i
      {
        sum := sum + 4;
      }
      len := sum + 2;
    case RouteRefresh => len := 2;
    case Other(_, data) => len := 1 + 1 + |data|;
  }

  method CapabilitiesLen(l: seq<Capability>) returns (sum: nat)
    ensures sum == |EncodeCapabilities(l)|
  {
    sum := 0;
    for i := 0 to |l|
      invariant sum + |EncodeCapabilities(l[i..])| == |EncodeCapabilities(l)|
    {
      var n := CapabilityLen(l[i]);
      sum := sum + n;
      assert l[i..][1..] == l[i + 1..];
    }
  }

  /** `LenParams`: the octets the parameters take. */
  method ParametersLen(l: seq<Parameter>) returns (sum: nat)
    ensures sum == |EncodeParameters(l)|
  {
    sum := 0;
    for i := 0 to |l|
      invariant sum + |EncodeParameters(l[i..])| == |EncodeParameters(l)|
    {
      var n := 0;
      if l[i].data.Some? {
        n := CapabilitiesLen(l[i].data.value);
      }
      sum := sum + 2 + n;
      assert l[i..][1..] == l[i + 1..];
    }
  }

  method WriteCapabilityData(c: Capability, w: Buffer)
    modifies w
    ensures w.data == old(w.data) + CapabilityData(c)
  {
    ghost var before := w.data;
    match c
    case MP(afi, safi) =>
      w.PutU16(afi);
      w.PutByte(0);
      w.PutByte(safi);
      assert w.data == before + (BE16(afi) + [0, safi]);
    case ASN(asn) => w.PutU32(asn);
    case AddPaths(list) => WriteAddPaths(list, w);
    case RouteRefresh =>
    case Other(_, data) => w.PutBytes(data);
  }

  method WriteCapability(c: Capability, w: Buffer)
    modifies w
    ensures w.data == old(w.data) + EncodeCapability(c)
  {
    ghost var before := w.data;
    var len := CapabilityLen(c);
    w.PutByte(CapabilityType(c));
    w.PutByte((len - 2) % 0x100);
    WriteCapabilityData(c, w);
    Assoc(before, [CapabilityType(c)], [(len - 2) % 0x100]);
    Assoc(before, [CapabilityType(c), (len - 2) % 0x100], CapabilityData(c));
  }

  method WriteAddPaths(l: seq<AddPath>, w: Buffer)
    modifies w
    ensures w.data == old(w.data) + EncodeAddPaths(l)
  {
    for i := 0 to |l|
      invariant w.data + EncodeAddPaths(l[i..]) == old(w.data) + EncodeAddPaths(l)
    {
      assert l[i..][1..] == l[i + 1..];
      ghost var before := w.data;
      Assoc(before, EncodeAddPath(l[i]), EncodeAddPaths(l[i + 1..]));
      w.PutU16(l[i].afi);
      w.PutByte(l[i].safi);
      w.PutByte(l[i].txrx);
      assert w.data == before + EncodeAddPath(l[i]);
    }
  }

  method WriteCapabilities(l: seq<Capability>, w: Buffer)
    modifies w
    ensures w.data == old(w.data) + EncodeCapabilities(l)
  {
    for i := 0 to |l|
      invariant w.data + EncodeCapabilities(l[i..]) == old(w.data) + EncodeCapabilities(l)
    {
      assert l[i..][1..] == l[i + 1..];
      Assoc(w.data, EncodeCapability(l[i]), EncodeCapabilities(l[i + 1..]));
      WriteCapability(l[i], w);
    }
  }

  method WriteParameter(p: Parameter, w: Buffer)
    modifies w
    ensures w.data == old(w.data) + EncodeParameter(p)
  {
    ghost var before := w.data;
    w.PutByte(p.ptype);
    if p.data.None? {
      w.PutByte(0);
    } else {
      var len := CapabilitiesLen(p.data.value);
      w.PutByte(len % 0x100);
      WriteCapabilities(p.data.value, w);
      Assoc(before, [p.ptype, len % 0x100], EncodeCapabilities(p.data.value));
    }
  }

  method Write(o: Open, w: Buffer)
    requires |o.identifier| >= 4
    modifies w
    ensures w.data == old(w.data) + Encode(o)
  {
    ghost var before := w.data;
    var len := ParametersLen(o.parameters);
    BgpHeader.WriteBGPHeader(BgpHeader.OPEN, 10 + len, w);
    ghost var head := BgpHeader.Encode(BgpHeader.OPEN, 10 + len);
    WriteFixedPart(o, w);
    w.PutByte(len % 0x100);
    Assoc(before, head, FixedPart(o));
    Assoc(before, head + FixedPart(o), [len % 0x100]);
    ghost var start := head + FixedPart(o) + [len % 0x100];
    for i := 0 to |o.parameters|
      invariant w.data + EncodeParameters(o.parameters[i..]) == before + start + EncodeParameters(o.parameters)
    {
      assert o.parameters[i..][1..] == o.parameters[i + 1..];
      Assoc(w.data, EncodeParameter(o.parameters[i]), EncodeParameters(o.parameters[i + 1..]));
      WriteParameter(o.parameters[i], w);
    }
    Assoc(before, start, EncodeParameters(o.parameters));
    Assoc(head, FixedPart(o), [len % 0x100]);
    Assoc(head, FixedPart(o) + [len % 0x100], EncodeParameters(o.parameters));
  }

  method WriteFixedPart(o: Open, w: Buffer)
    requires |o.identifier| >= 4
    modifies w
    ensures w.data == old(w.data) + FixedPart(o)
  {
    w.PutByte(o.version);
    w.PutU16(o.asn);
    w.PutU16(o.holdTime);
    w.PutBytes(o.identifier[..4]);
  }

  // ---------------------------------------------------------------- decoding

  function DecodeAddPaths(b: seq<byte>): (r: seq<AddPath>)
    ensures |r| == |b| / 4
  {
    if |b| < 4 then [] else [AddPath(U16(b), b[2], b[3])] + DecodeAddPaths(b[4..])
  }

  /** `ParseCapability`. A field that the data is too short for stays 0. */
  function DecodeCapability(ctype: byte, d: seq<byte>): Capability {
    if ctype == CAPA_MP then MP(if |d| >= 2 then U16(d) else 0, if |d| >= 4 then d[3] else 0)
    else if ctype == CAPA_ADDPATH then AddPaths(DecodeAddPaths(d))
    else if ctype == CAPA_ASN then ASN(if |d| >= 4 then U32(d) else 0)
    else if ctype == CAPA_RR then RouteRefresh
    else Other(ctype, d)
  }

  datatype OpenError = ShortOpen | WrongParametersLength | WrongParameterLength | WrongCapabilityLength

  /**
    The inner loop of `ParseOpen` with `left` octets of its parameter to go: the capabilities, and the input it
    leaves. It may run past the end of the parameter, and stops when one octet of input is left.
   */
  function ParseCapabilities(b: seq<byte>, left: int): (r: Option<(seq<Capability>, seq<byte>)>)
    ensures r.Some? ==> |r.value.1| <= |b|
    decreases |b|
  {
    if |b| < 2 || left <= 0 then Some(([], b))
    else
      var end := 2 + b[1] as int;
      if end > |b| then None
      else
        match ParseCapabilities(b[end..], left - end)
        case None => None
        case Some((l, rest)) => Some(([DecodeCapability(b[0], b[2..end])] + l, rest))
  }

  /**
    The outer loop. The bound on the parameter length is one octet too wide, and what a parameter of another type
    holds is not skipped but read as further parameters.
   */
  function ParseParameters(b: seq<byte>): Result<seq<Parameter>, OpenError>
    decreases |b|
  {
    if |b| < 2 then Ok([])
    else if 1 + b[1] > |b| then Err(WrongParameterLength)
    else if b[0] == PARAMETER_CAPA then
      match ParseCapabilities(b[2..], b[1])
      case None => Err(WrongCapabilityLength)
      case Some((l, rest)) => Prepend(Parameter(b[0], Some(l)), ParseParameters(rest))
    else Prepend(Parameter(b[0], None), ParseParameters(b[2..]))
  }

  function Prepend(p: Parameter, r: Result<seq<Parameter>, OpenError>): Result<seq<Parameter>, OpenError> {
    match r
    case Err(e) => Err(e)
    case Ok(l) => Ok([p] + l)
  }

  function ParseOpen(b: seq<byte>): Result<Open, OpenError> {
    if |b| < 10 then Err(ShortOpen)
    else if |b| - 10 != b[9] then Err(WrongParametersLength)
    else
      match ParseParameters(b[10..])
      case Err(e) => Err(e)
      case Ok(l) => Ok(Open(b[0], U16(b[1..]), U16(b[3..]), b[5..9], l))
  }

  function Join(done: seq<Parameter>, r: Result<seq<Parameter>, OpenError>): Result<seq<Parameter>, OpenError> {
    match r
    case Err(e) => Err(e)
    case Ok(l) => Ok(done + l)
  }

  lemma JoinNothing(r: Result<seq<Parameter>, OpenError>)
    ensures Join([], r) == r
  {
    if r.Ok? {
      assert [] + r.value == r.value;
    }
  }

  lemma JoinTwice(done: seq<Parameter>, p: Parameter, r: Result<seq<Parameter>, OpenError>)
    ensures Join(done, Prepend(p, r)) == Join(done + [p], r)
  {
    if r.Ok? {
      Assoc(done, [p], r.value);
    }
  }

  ghost function JoinCaps(done: seq<Capability>, r: Option<(seq<Capability>, seq<byte>)>): Option<(seq<Capability>, seq<byte>)> {
    match r
    case None => None
    case Some((l, rest)) => Some((done + l, rest))
  }

  lemma JoinCapsNothing(r: Option<(seq<Capability>, seq<byte>)>)
    ensures JoinCaps([], r) == r
  {
    if r.Some? {
      assert [] + r.value.0 == r.value.0;
    }
  }

  lemma CapabilitiesStep(b: seq<byte>, i: nat, end: nat, left: int, done: seq<Capability>)
    requires i + 2 <= |b| && left > 0 && end == i + 2 + b[i + 1]
    ensures end > |b| ==> ParseCapabilities(b[i..], left) == None
    ensures end <= |b| ==>
      JoinCaps(done, ParseCapabilities(b[i..], left))
      == JoinCaps(done + [DecodeCapability(b[i], b[i + 2..end])], ParseCapabilities(b[end..], left - (end - i)))
  {
    if end <= |b| {
      DropThenSlice(b, i, 2, end - i);
      var r := ParseCapabilities(b[end..], left - (end - i));
      if r.Some? {
        Assoc(done, [DecodeCapability(b[i], b[i + 2..end])], r.value.0);
      }
    }
  }

  /** `ParseCapability`, reading field by field; a read that finds too little leaves its field 0. */
  method ReadCapability(ctype: byte, d: seq<byte>) returns (c: Capability)
    ensures c == DecodeCapability(ctype, d)
  {
    if ctype == CAPA_MP {
      var afi: u16, safi: byte := 0, 0;
      if |d| >= 2 {
        afi := d[0] as int * 0x100 + d[1];
      }
      if |d| >= 4 {
        safi := d[3];
      }
      c := MP(afi, safi);
    } else if ctype == CAPA_ADDPATH {
      var list := ReadAddPaths(d);
      c := AddPaths(list);
    } else if ctype == CAPA_ASN {
      var asn: u32 := 0;
      if |d| >= 4 {
        asn := U32(d);
      }
      c := ASN(asn);
    } else if ctype == CAPA_RR {
      c := RouteRefresh;
    } else {
      c := Other(ctype, d);
    }
  }

  method ReadAddPaths(d: seq<byte>) returns (list: seq<AddPath>)
    ensures list == DecodeAddPaths(d)
  {
    list := [];
    assert d[0..] == d;
    var pos := 0;
    for i := 0 to |d| / 4
      invariant pos == 4 * i && pos <= |d|
      invariant DecodeAddPaths(d) == list + DecodeAddPaths(d[pos..])
    {
      AddPathAt(d, pos);
      list := list + [AddPath(d[pos] as int * 0x100 + d[pos + 1], d[pos + 2], d[pos + 3])];
      pos := pos + 4;
    }
    assert DecodeAddPaths(d[pos..]) == [];
    assert list + [] == list;
  }

  lemma AddPathAt(d: seq<byte>, pos: nat)
    requires pos + 4 <= |d|
    ensures DecodeAddPaths(d[pos..])
         == [AddPath(d[pos] as int * 0x100 + d[pos + 1], d[pos + 2], d[pos + 3])] + DecodeAddPaths(d[pos + 4..])
  {
    assert d[pos..][4..] == d[pos + 4..];
  }

  method ReadCapabilities(b: seq<byte>, start: nat, parmlength: byte)
    returns (ok: bool, capas: seq<Capability>, i: nat)
    requires start <= |b|
    ensures ok ==> start <= i <= |b| && ParseCapabilities(b[start..], parmlength) == Some((capas, b[i..]))
    ensures !ok ==> ParseCapabilities(b[start..], parmlength) == None
  {
    capas := [];
    i := start;
    JoinCapsNothing(ParseCapabilities(b[start..], parmlength));
    while i < |b| - 1 && i < start + parmlength
      invariant start <= i <= |b|
      invariant ParseCapabilities(b[start..], parmlength)
             == JoinCaps(capas, ParseCapabilities(b[i..], start + parmlength - i))
      decreases |b| - i
    {
      var end := i + 2 + b[i + 1];
      CapabilitiesStep(b, i, end, start + parmlength - i, capas);
      if end > |b| {
        return false, [], i;
      }
      var capa := ReadCapability(b[i], b[i + 2..end]);
      capas := capas + [capa];
      i := end;
    }
    ok := true;
    assert capas + [] == capas;
  }

  method Read(b: seq<byte>) returns (r: Result<Open, OpenError>)
    ensures r == ParseOpen(b)
  {
    if |b| < 10 {
      return Err(ShortOpen);
    }
    if |b| - 10 != b[9] {
      return Err(WrongParametersLength);
    }
    var parameters: seq<Parameter> := [];
    var i := 10;
    JoinNothing(ParseParameters(b[10..]));
    while i < |b| - 1
      invariant 10 <= i <= |b|
      invariant ParseParameters(b[10..]) == Join(parameters, ParseParameters(b[i..]))
      decreases |b| - i
    {
      var parmtype := b[i];
      var parmlength := b[i + 1];
      if i + 1 + parmlength > |b| {
        return Err(WrongParameterLength);
      }
      ghost var at := i;
      i := i + 2;
      assert b[at..][2..] == b[i..];
      var data: Option<seq<Capability>> := None;
      if parmtype == PARAMETER_CAPA {
        var ok, capas, next := ReadCapabilities(b, i, parmlength);
        if !ok {
          return Err(WrongCapabilityLength);
        }
        data := Some(capas);
        i := next;
      }
      JoinTwice(parameters, Parameter(parmtype, data), ParseParameters(b[i..]));
      parameters := parameters + [Parameter(parmtype, data)];
    }
    assert parameters + [] == parameters;
    return Ok(Open(b[0], U16(b[1..]), U16(b[3..]), b[5..9], parameters));
  }

  // ---------------------------------------------------------------- round trip

  /** A capability that is read back: one of the four known, or of another type, with data that fits its length octet. */
  predicate CapabilityFits(c: Capability) {
    && |CapabilityData(c)| <= 255
    && (c.Other? ==> c.ctype != CAPA_MP && c.ctype != CAPA_RR && c.ctype != CAPA_ASN && c.ctype != CAPA_ADDPATH)
  }

  predicate ParameterFits(p: Parameter) {
    && (p.ptype == PARAMETER_CAPA <==> p.data.Some?)
    && (p.data.Some? ==> forall c | c in p.data.value :: CapabilityFits(c))
  }

  predicate OpenFits(o: Open) {
    && |o.identifier| == 4
    && (forall p | p in o.parameters :: ParameterFits(p))
    && |EncodeParameters(o.parameters)| <= 255
  }

  lemma {:induction false} AddPathsRoundTrip(l: seq<AddPath>)
    ensures DecodeAddPaths(EncodeAddPaths(l)) == l
  {
    if l != [] {
      var t := EncodeAddPaths(l[1..]);
      var b := EncodeAddPath(l[0]) + t;
      SplitConcat(EncodeAddPath(l[0]), t);
      BE16RoundTrip(l[0].afi, b[2..]);
      assert b == BE16(l[0].afi) + b[2..];
      AddPathsRoundTrip(l[1..]);
    }
  }

  lemma CapabilityRoundTrip(c: Capability)
    requires CapabilityFits(c)
    ensures DecodeCapability(CapabilityType(c), CapabilityData(c)) == c
  {
    match c
    case MP(afi, safi) => BE16RoundTrip(afi, [0, safi]);
    case ASN(asn) => BE32RoundTrip(asn, []); assert BE32(asn) + [] == BE32(asn);
    case AddPaths(list) => AddPathsRoundTrip(list);
    case _ =>
  }

  /** One turn of the inner loop on a well-cut capability, whatever it holds. */
  lemma CapabilityTurn(ctype: byte, d: seq<byte>, t: seq<byte>, left: int)
    requires |d| <= 255 && left > 0
    ensures ParseCapabilities([ctype, |d|] + d + t, left)
         == JoinCaps([DecodeCapability(ctype, d)], ParseCapabilities(t, left - 2 - |d|))
  {
    var b := [ctype, |d|] + d + t;
    var end := 2 + |d|;
    SplitConcat([ctype, |d|] + d, t);
    SlicePrefix([ctype, |d|] + d, t, 2, end);
    SplitConcat([ctype, |d|], d);
    assert b[0] == ctype && b[1] == |d| && b[2..end] == d && b[end..] == t;
  }

  lemma OneCapability(c: Capability, t: seq<byte>, left: int)
    requires CapabilityFits(c) && left > 0
    ensures ParseCapabilities(EncodeCapability(c) + t, left)
         == JoinCaps([c], ParseCapabilities(t, left - |EncodeCapability(c)|))
  {
    var (ctype, d) := (CapabilityType(c), CapabilityData(c));
    assert EncodeCapability(c) == [ctype, |d|] + d;
    CapabilityTurn(ctype, d, t, left);
    assert DecodeCapability(ctype, d) == c by {
      CapabilityRoundTrip(c);
    }
  }

  lemma {:induction false} CapabilitiesRoundTrip(l: seq<Capability>, t: seq<byte>)
    requires forall c | c in l :: CapabilityFits(c)
    ensures ParseCapabilities(EncodeCapabilities(l) + t, |EncodeCapabilities(l)|) == Some((l, t))
  {
    if l == [] {
      assert EncodeCapabilities(l) + t == t;
    } else {
      var rest := EncodeCapabilities(l[1..]);
      Assoc(EncodeCapability(l[0]), rest, t);
      OneCapability(l[0], rest + t, |EncodeCapabilities(l)|);
      CapabilitiesRoundTrip(l[1..], t);
      assert [l[0]] + l[1..] == l;
    }
  }

  lemma CapabilityParameterTurn(l: seq<Capability>, t: seq<byte>)
    requires (forall c | c in l :: CapabilityFits(c)) && |EncodeCapabilities(l)| <= 255
    ensures ParseParameters([PARAMETER_CAPA, |EncodeCapabilities(l)|] + EncodeCapabilities(l) + t)
         == Prepend(Parameter(PARAMETER_CAPA, Some(l)), ParseParameters(t))
  {
    var caps := EncodeCapabilities(l);
    Assoc([PARAMETER_CAPA, |caps|], caps, t);
    SplitConcat([PARAMETER_CAPA, |caps|], caps + t);
    CapabilitiesRoundTrip(l, t);
  }

  lemma OneParameter(p: Parameter, t: seq<byte>)
    requires ParameterFits(p) && |EncodeParameter(p)| <= 255
    ensures ParseParameters(EncodeParameter(p) + t) == Prepend(p, ParseParameters(t))
  {
    if p.data.Some? {
      var caps := EncodeCapabilities(p.data.value);
      assert EncodeParameter(p) == [PARAMETER_CAPA, |caps|] + caps;
      assert p == Parameter(PARAMETER_CAPA, Some(p.data.value));
      CapabilityParameterTurn(p.data.value, t);
    } else {
      OtherParameterTurn(p.ptype, t);
    }
  }

  lemma OtherParameterTurn(ptype: byte, t: seq<byte>)
    requires ptype != PARAMETER_CAPA
    ensures ParseParameters([ptype, 0] + t) == Prepend(Parameter(ptype, None), ParseParameters(t))
  {
    SplitConcat([ptype, 0], t);
  }

  lemma {:induction false} ParametersRoundTrip(l: seq<Parameter>)
    requires (forall p | p in l :: ParameterFits(p)) && |EncodeParameters(l)| <= 255
    ensures ParseParameters(EncodeParameters(l)) == Ok(l)
  {
    if l != [] {
      OneParameter(l[0], EncodeParameters(l[1..]));
      ParametersRoundTrip(l[1..]);
      assert [l[0]] + l[1..] == l;
    }
  }

  lemma FixedPartRoundTrip(o: Open, t: seq<byte>)
    requires |o.identifier| == 4
    ensures var b := FixedPart(o) + t;
      b[0] == o.version && U16(b[1..]) == o.asn && U16(b[3..]) == o.holdTime && b[5..9] == o.identifier && b[9..] == t
  {
    var b := FixedPart(o) + t;
    var (asn, hold) := (BE16(o.asn), BE16(o.holdTime));
    SplitConcat(FixedPart(o), t);
    BE16RoundTrip(o.asn, b[3..]);
    BE16RoundTrip(o.holdTime, b[5..]);
    assert b[1..] == asn + b[3..];
    assert b[3..] == hold + b[5..];
    SlicePrefix(FixedPart(o), t, 5, 9);
    assert FixedPart(o)[5..9] == o.identifier;
  }

  /** Every OPEN whose capabilities and parameters fit their length octets is read back unchanged, capabilities in order. */
  lemma OpenRoundTrip(o: Open)
    requires OpenFits(o)
    ensures ParseOpen(EncodeBody(o)) == Ok(o)
  {
    ParametersRoundTrip(o.parameters);
    BodyOf(o);
    BodyTurn(o, EncodeParameters(o.parameters));
  }

  lemma BodyOf(o: Open)
    requires |o.identifier| == 4 && |EncodeParameters(o.parameters)| <= 255
    ensures EncodeBody(o) == FixedPart(o) + [|EncodeParameters(o.parameters)|] + EncodeParameters(o.parameters)
  {
  }

  lemma BodyTurn(o: Open, params: seq<byte>)
    requires |o.identifier| == 4 && |params| <= 255
    ensures ParseOpen(FixedPart(o) + [|params|] + params) ==
      match ParseParameters(params)
      case Err(e) => Err(e)
      case Ok(l) => Ok(Open(o.version, o.asn, o.holdTime, o.identifier, l))
  {
    hide ParseParameters, FixedPart, U16;
    var b := FixedPart(o) + [|params|] + params;
    Assoc(FixedPart(o), [|params|], params);
    FixedPartRoundTrip(o, [|params|] + params);
    SplitConcat(FixedPart(o) + [|params|], params);
    assert b[9] == b[9..][0] && b[10..] == params && |b| == 10 + |params|;
  }

  /** What a parameter of another type holds is not skipped: it is read as parameters of its own. */
  lemma OtherParametersAreNotSkipped(ptype: byte, content: seq<byte>, t: seq<byte>)
    requires ptype != PARAMETER_CAPA && |content| <= 255
    ensures ParseParameters([ptype, |content|] + content + t)
         == Prepend(Parameter(ptype, None), ParseParameters(content + t))
  {
    Assoc([ptype, |content|], content, t);
    SplitConcat([ptype, |content|], content + t);
  }

  /** A parameter of type 1 whose eight octets happen to look like a capability parameter announces AS 65536. */
  lemma HiddenCapability()
    ensures ParseParameters([1, 8, 2, 6, 65, 4, 0, 1, 0, 0])
         == Ok([Parameter(1, None), Parameter(PARAMETER_CAPA, Some([ASN(65536)]))])
  {
    hide ParseParameters, CapabilityFits;
    var inner: seq<byte> := [2, 6, 65, 4, 0, 1, 0, 0];
    FullAsnOctets();
    CapabilityParameterTurn([ASN(65536)], []);
    assert [PARAMETER_CAPA, 6] + [65, 4, 0, 1, 0, 0] + [] == inner;
    OtherParametersAreNotSkipped(1, inner, []);
    assert [1, 8] + inner + [] == [1, 8, 2, 6, 65, 4, 0, 1, 0, 0];
    assert inner + [] == inner;
    NoParameters([]);
    var hidden := Parameter(PARAMETER_CAPA, Some([ASN(65536)]));
    assert [hidden] + [] == [hidden];
    assert [Parameter(1, None)] + [hidden] == [Parameter(1, None), hidden];
  }

  lemma FullAsnOctets()
    ensures EncodeCapabilities([ASN(65536)]) == [65, 4, 0, 1, 0, 0] && CapabilityFits(ASN(65536))
  {
    assert EncodeCapability(ASN(65536)) == [65, 4, 0, 1, 0, 0];
    assert EncodeCapabilities([ASN(65536)]) == EncodeCapability(ASN(65536)) + EncodeCapabilities([]);
  }

  /** Input without a parameter is at most one octet. */
  lemma NoParameters(b: seq<byte>)
    ensures ParseParameters(b) == Ok([]) <==> |b| <= 1
  {
    if |b| >= 2 && 1 + b[1] <= |b| && b[0] == PARAMETER_CAPA {
      var r := ParseCapabilities(b[2..], b[1]);
      if r.Some? {
        assert Prepend(Parameter(b[0], Some(r.value.0)), ParseParameters(r.value.1)) != Ok([]);
      }
    }
  }

  /** A last parameter of another type is read as that parameter alone exactly when it holds at most one octet. */
  lemma LastParameterIff(ptype: byte, content: seq<byte>)
    requires ptype != PARAMETER_CAPA && |content| <= 255
    ensures ParseParameters([ptype, |content|] + content) == Ok([Parameter(ptype, None)]) <==> |content| <= 1
  {
    hide ParseParameters;
    OtherParametersAreNotSkipped(ptype, content, []);
    assert content + [] == content && [ptype, |content|] + content + [] == [ptype, |content|] + content;
    NoParameters(content);
    if ParseParameters(content).Ok? {
      Cancel([Parameter(ptype, None)], ParseParameters(content).value, []);
      assert [Parameter(ptype, None)] + [] == [Parameter(ptype, None)];
    }
  }

  lemma {:induction false} ParametersBefore(l: seq<Parameter>, t: seq<byte>)
    requires (forall p | p in l :: ParameterFits(p)) && |EncodeParameters(l)| <= 255
    ensures ParseParameters(EncodeParameters(l) + t) == Join(l, ParseParameters(t))
  {
    hide ParseParameters, ParameterFits, EncodeParameter;
    if l == [] {
      assert EncodeParameters(l) + t == t;
      JoinNothing(ParseParameters(t));
    } else {
      var rest := EncodeParameters(l[1..]);
      Assoc(EncodeParameter(l[0]), rest, t);
      OneParameter(l[0], rest + t);
      ParametersBefore(l[1..], t);
      assert [l[0]] + l[1..] == l;
      if ParseParameters(t).Ok? {
        Assoc([l[0]], l[1..], ParseParameters(t).value);
      }
    }
  }

  /** So an OPEN that ends in such a parameter is read as meant exactly when that holds at most one octet. */
  lemma OpenWithOtherParameterIff(o: Open, ptype: byte, content: seq<byte>)
    requires OpenFits(o) && ptype != PARAMETER_CAPA && |EncodeParameters(o.parameters)| + 2 + |content| <= 255
    ensures var params := EncodeParameters(o.parameters) + ([ptype, |content|] + content);
      ParseOpen(FixedPart(o) + [|params|] + params) == Ok(o.(parameters := o.parameters + [Parameter(ptype, None)]))
      <==> |content| <= 1
  {
    hide ParseParameters, ParseOpen, FixedPart, ParameterFits;
    var last := [ptype, |content|] + content;
    var params := EncodeParameters(o.parameters) + last;
    ParametersBefore(o.parameters, last);
    LastParameterIff(ptype, content);
    BodyTurn(o, params);
    var r := ParseParameters(last);
    if r.Ok? {
      Cancel(o.parameters, r.value, [Parameter(ptype, None)]);
    }
  }

  /** With more behind it, a longer content can be read as meant by coincidence: here its parameter hides the next one. */
  lemma MeantByCoincidence()
    ensures ParseParameters([2, 6, 2, 4] + [2, 2, 2, 0]) == ParseParameters([2, 2, 2, 0]) == Ok([Parameter(PARAMETER_CAPA, Some([RouteRefresh]))])
    ensures ParseParameters([1, 4] + [2, 6, 2, 4] + [2, 2, 2, 0]) == Prepend(Parameter(1, None), ParseParameters([2, 2, 2, 0]))
  {
    hide ParseParameters;
    OtherParametersAreNotSkipped(1, [2, 6, 2, 4], [2, 2, 2, 0]);
    RefreshParameter([], 2);
    RefreshParameter([2, 2, 2, 0], 6);
    assert [PARAMETER_CAPA, 2, CAPA_RR, 0] + [] == [2, 2, 2, 0];
    assert [PARAMETER_CAPA, 6, CAPA_RR, 4] + [2, 2, 2, 0] == [2, 6, 2, 4] + [2, 2, 2, 0];
  }

  lemma RefreshParameter(d: seq<byte>, size: byte)
    requires size == 2 + |d|
    ensures ParseParameters([PARAMETER_CAPA, size, CAPA_RR, |d|] + d) == Ok([Parameter(PARAMETER_CAPA, Some([RouteRefresh]))])
  {
    hide ParseCapabilities, ParseParameters;
    var b := [PARAMETER_CAPA, size, CAPA_RR, |d|] + d;
    CapabilityTurn(CAPA_RR, d, [], size);
    assert b[2..] == [CAPA_RR, |d|] + d + [];
    NothingLeft();
    assert [RouteRefresh] + [] == [RouteRefresh];
    CapabilityParameterIs(b, [RouteRefresh], []);
    NoParameters([]);
    assert [Parameter(PARAMETER_CAPA, Some([RouteRefresh]))] + [] == [Parameter(PARAMETER_CAPA, Some([RouteRefresh]))];
  }

  lemma CapabilityParameterIs(b: seq<byte>, l: seq<Capability>, rest: seq<byte>)
    requires |b| >= 2 && 1 + b[1] <= |b| && b[0] == PARAMETER_CAPA && ParseCapabilities(b[2..], b[1]) == Some((l, rest))
    ensures ParseParameters(b) == Prepend(Parameter(PARAMETER_CAPA, Some(l)), ParseParameters(rest))
  {
  }

  lemma NothingLeft()
    ensures ParseCapabilities([], 0) == Some(([], []))
  {
  }

  // ---------------------------------------------------------------- which written OPENs parse

  lemma {:induction false} CapabilitiesParse(l: seq<Capability>, t: seq<byte>)
    requires forall c | c in l :: |CapabilityData(c)| <= 255
    ensures var r := ParseCapabilities(EncodeCapabilities(l) + t, |EncodeCapabilities(l)|); r.Some? && r.value.1 == t
  {
    hide CapabilityData, CapabilityType, DecodeCapability;
    if l == [] {
      assert EncodeCapabilities(l) + t == t;
    } else {
      var (head, rest) := (EncodeCapability(l[0]), EncodeCapabilities(l[1..]));
      var (ctype, d) := (CapabilityType(l[0]), CapabilityData(l[0]));
      Assoc(head, rest, t);
      assert head == [ctype, |d|] + d;
      CapabilityTurn(ctype, d, rest + t, |EncodeCapabilities(l)|);
      CapabilitiesParse(l[1..], t);
    }
  }

  lemma {:induction false} ParametersParse(l: seq<Parameter>)
    requires (forall p | p in l && p.data.Some? :: p.ptype == PARAMETER_CAPA) && |EncodeParameters(l)| <= 255
    ensures ParseParameters(EncodeParameters(l)).Ok?
  {
    if l != [] {
      var (p, t) := (l[0], EncodeParameters(l[1..]));
      ParametersParse(l[1..]);
      var capas := if p.data.Some? then p.data.value else [];
      var caps := EncodeCapabilities(capas);
      CapabilityDataFits(capas);
      assert EncodeParameter(p) == [p.ptype, |caps|] + caps;
      Assoc([p.ptype, |caps|], caps, t);
      SplitConcat([p.ptype, |caps|], caps + t);
      CapabilitiesParse(capas, t);
      assert caps == [] ==> caps + t == t;
    }
  }

  lemma CapabilityDataFits(l: seq<Capability>)
    ensures forall c | c in l :: |CapabilityData(c)| + 2 <= |EncodeCapabilities(l)|
  {
    forall c | c in l ensures |CapabilityData(c)| + 2 <= |EncodeCapabilities(l)| {
      CapabilitiesSize(l, c);
    }
  }

  /** A written OPEN in which only capability parameters hold data parses exactly when its parameters fit 255 octets. */
  lemma OpenParsesIff(o: Open)
    requires |o.identifier| >= 4 && forall p | p in o.parameters && p.data.Some? :: p.ptype == PARAMETER_CAPA
    ensures ParseOpen(EncodeBody(o)).Ok? <==> |EncodeParameters(o.parameters)| <= 255
  {
    hide ParseParameters, EncodeParameters;
    var params := EncodeParameters(o.parameters);
    if |params| <= 255 {
      ParametersParse(o.parameters);
      BodyTurn(o.(identifier := o.identifier[..4]), params);
    }
  }

  /** Whatever is parsed, exactly the capability parameters hold data, so reading the capabilities of one cannot fault. */
  lemma {:induction false} ParsedParameters(b: seq<byte>)
    ensures ParseParameters(b).Ok? ==> forall p | p in ParseParameters(b).value :: p.ptype == 2 <==> p.data.Some?
    decreases |b|
  {
    hide ParseCapabilities;
    if |b| >= 2 && 1 + b[1] <= |b| {
      if b[0] != 2 {
        ParsedParameters(b[2..]);
      } else if ParseCapabilities(b[2..], b[1]).Some? {
        ParsedParameters(ParseCapabilities(b[2..], b[1]).value.1);
      }
    }
  }

  // ---------------------------------------------------------------- crafting

  function MPCapabilities(l: seq<Nlri.AfiSafi>): seq<Capability> {
    if l == [] then [] else [MP(l[0].afi, l[0].safi)] + MPCapabilities(l[1..])
  }

  /** The capabilities `CraftOpenMessage` announces. */
  function CraftedCapabilities(asn: u32, mplist: seq<Nlri.AfiSafi>, addpathlist: seq<AddPath>, routerefresh: bool): seq<Capability> {
    [ASN(asn)] + MPCapabilities(mplist)
    + (if addpathlist != [] then [AddPaths(addpathlist)] else [])
    + (if routerefresh then [RouteRefresh] else [])
  }

  function Craft(asn: u32, holdtime: u16, identifier: seq<byte>, mplist: seq<Nlri.AfiSafi>, addpathlist: seq<AddPath>, routerefresh: bool): Open {
    Open(4, if asn >= 65536 then AS_TRANS else asn, holdtime, identifier,
         [Parameter(PARAMETER_CAPA, Some(CraftedCapabilities(asn, mplist, addpathlist, routerefresh)))])
  }

  method CraftOpenMessage(asn: u32, holdtime: u16, identifier: seq<byte>, mplist: seq<Nlri.AfiSafi>, addpathlist: seq<AddPath>, routerefresh: bool)
    returns (open: Open)
    ensures open == Craft(asn, holdtime, identifier, mplist, addpathlist, routerefresh)
  {
    var asn_2o: u16 := asn % 0x1_0000;
    if asn >= 65536 {
      asn_2o := 23456;
    }
    var capas := [ASN(asn)];
    for i := 0 to |mplist|
      invariant capas + MPCapabilities(mplist[i..]) == [ASN(asn)] + MPCapabilities(mplist)
    {
      assert mplist[i..][1..] == mplist[i + 1..];
      Assoc(capas, [MP(mplist[i].afi, mplist[i].safi)], MPCapabilities(mplist[i + 1..]));
      capas := capas + [MP(mplist[i].afi, mplist[i].safi)];
    }
    assert capas == [ASN(asn)] + MPCapabilities(mplist);
    if |addpathlist| > 0 {
      capas := capas + [AddPaths(addpathlist)];
    }
    if routerefresh {
      capas := capas + [RouteRefresh];
    }
    assert capas == CraftedCapabilities(asn, mplist, addpathlist, routerefresh);
    open := Open(4, asn_2o, holdtime, identifier, [Parameter(PARAMETER_CAPA, Some(capas))]);
  }

  lemma {:induction false} CapabilitiesSize(l: seq<Capability>, c: Capability)
    requires c in l
    ensures |CapabilityData(c)| + 2 <= |EncodeCapabilities(l)|
  {
    if c != l[0] {
      CapabilitiesSize(l[1..], c);
    }
  }

  lemma {:induction false} KnownMPs(l: seq<Nlri.AfiSafi>)
    ensures forall c | c in MPCapabilities(l) :: c.MP?
  {
    if l != [] {
      KnownMPs(l[1..]);
    }
  }

  /** A crafted OPEN whose parameters fit 255 octets meets the conditions of the round trip. */
  lemma CraftedFits(asn: u32, holdtime: u16, identifier: seq<byte>, mplist: seq<Nlri.AfiSafi>, addpathlist: seq<AddPath>, routerefresh: bool)
    requires |identifier| == 4
    requires |EncodeCapabilities(CraftedCapabilities(asn, mplist, addpathlist, routerefresh))| <= 253
    ensures OpenFits(Craft(asn, holdtime, identifier, mplist, addpathlist, routerefresh))
  {
    var l := CraftedCapabilities(asn, mplist, addpathlist, routerefresh);
    KnownMPs(mplist);
    forall c | c in l ensures CapabilityFits(c) {
      CapabilitiesSize(l, c);
    }
    var p := Parameter(PARAMETER_CAPA, Some(l));
    assert ParameterFits(p);
    assert EncodeParameters([p]) == EncodeParameter(p);
  }
}
