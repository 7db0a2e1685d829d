/** The 19-octet header of every BGP message (section 4.1 of RFC 4271). */
module BgpHeader {
  import opened Bytes

  const OPEN: byte := 1
  const UPDATE: byte := 2
  const NOTIFICATION: byte := 3
  const KEEPALIVE: byte := 4

  const HEADER_LEN: nat := 19
  const MAX_CONTENT: nat := 4077

  const MARKER: seq<byte> := [255, 255, 255, 255, 255, 255, 255, 255, 255, 255, 255, 255, 255, 255, 255, 255]

  /** The length field wraps at 16 bits, as the writer's `uint16` arithmetic does. */
  function Encode(bgptype: byte, size: nat): (r: seq<byte>)
    ensures |r| == HEADER_LEN
  {
    MARKER + BE16((19 + size) % 0x1_0000) + [bgptype]
  }

  method WriteBGPHeader(bgptype: byte, size: nat, w: Buffer)
    modifies w
    ensures w.data == old(w.data) + Encode(bgptype, size)
  {
    ghost var before := w.data;
    w.PutBytes(MARKER);
    w.PutU16((19 + size) % 0x1_0000);
    w.PutByte(bgptype);
    Assoc(before, MARKER, BE16((19 + size) % 0x1_0000));
    Assoc(before, MARKER + BE16((19 + size) % 0x1_0000), [bgptype]);
  }

  datatype HeaderError = NoMarker | WrongLength | ShortHeader

  /** Type and content length of a message. */
  datatype Header = Header(bgptype: byte, length: nat)

  function ParsePacketHeader(b: seq<byte>): (r: Result<Header, HeaderError>)
    ensures r.Ok? ==> r.value.length <= MAX_CONTENT
  {
    if |b| < 19 then Err(ShortHeader)
    else if b[..16] != MARKER then Err(NoMarker)
    else
      var length := U16(b[16..]);
      if length < 19 || length > 4096 then Err(WrongLength) else Ok(Header(b[18], length - 19))
  }

  /** A written header is read back, whatever follows, exactly when the content fits a message. */
  lemma HeaderRoundTrip(bgptype: byte, size: nat, t: seq<byte>)
    ensures ParsePacketHeader(Encode(bgptype, size) + t) == Ok(Header(bgptype, size)) <==> size <= MAX_CONTENT
  {
    WrappedHeader(bgptype, size, t);
  }

  /** What a written header says when the size may not fit its 16 bits. */
  lemma WrappedHeader(bgptype: byte, size: nat, t: seq<byte>)
    ensures ParsePacketHeader(Encode(bgptype, size) + t) ==
      var length := (19 + size) % 0x1_0000;
      if length < 19 || length > 4096 then Err(WrongLength) else Ok(Header(bgptype, length - 19))
  {
    var b := Encode(bgptype, size) + t;
    var rest := [bgptype] + t;
    var length: u16 := (19 + size) % 0x1_0000;
    assert b == MARKER + (BE16(length) + rest);
    SplitConcat(MARKER, BE16(length) + rest);
    BE16RoundTrip(length, rest);
    assert b[18] == bgptype;
  }
}
