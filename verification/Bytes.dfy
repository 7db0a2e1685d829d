/**
  Octets, fixed-width unsigned integers in network byte order, and the growing
  buffer that every `Write` method of the library appends to.
 */
module Bytes {
  type byte = x: int | 0 <= x < 0x100
  type u16 = x: int | 0 <= x < 0x1_0000
  type u32 = x: int | 0 <= x < 0x1_0000_0000

  datatype Option<+T> = None | Some(value: T)
  datatype Result<+T, +E> = Ok(value: T) | Err(error: E)

  /** Big-endian form of a 16-bit number. */
  function BE16(x: u16): (r: seq<byte>)
    ensures |r| == 2
  {
    [x / 0x100, x % 0x100]
  }

  /** Big-endian form of a 32-bit number. */
  function BE32(x: u32): (r: seq<byte>)
    ensures |r| == 4
  {
    [x / 0x100_0000, x / 0x1_0000 % 0x100, x / 0x100 % 0x100, x % 0x100]
  }

  /** The 16-bit number in the first two octets. */
  function U16(b: seq<byte>): u16
    requires |b| >= 2
  {
    b[0] as int * 0x100 + b[1]
  }

  /** The 32-bit number in the first four octets. */
  function U32(b: seq<byte>): u32
    requires |b| >= 4
  {
    b[0] as int * 0x100_0000 + b[1] as int * 0x1_0000 + b[2] as int * 0x100 + b[3]
  }

  lemma BE16RoundTrip(x: u16, t: seq<byte>)
    ensures U16(BE16(x) + t) == x
  {
    assert (BE16(x) + t)[..2] == BE16(x);
  }

  lemma BE32RoundTrip(x: u32, t: seq<byte>)
    ensures U32(BE32(x) + t) == x
  {
    var b := BE32(x) + t;
    assert b[0] == x / 0x100_0000 && b[1] == x / 0x1_0000 % 0x100;
    assert b[2] == x / 0x100 % 0x100 && b[3] == x % 0x100;
    FourDigits(x);
  }

  /** The number is the sum of its four octets, each in its place. */
  lemma FourDigits(x: u32)
    ensures x == x / 0x100_0000 * 0x100_0000 + x / 0x1_0000 % 0x100 * 0x1_0000 + x / 0x100 % 0x100 * 0x100 + x % 0x100
  {
    var a := x / 0x100;
    var b := a / 0x100;
    var c := b / 0x100;
    assert x == a * 0x100 + x % 0x100 && a == b * 0x100 + a % 0x100 && b == c * 0x100 + b % 0x100;
    assert x / 0x1_0000 == b && x / 0x100_0000 == c;
  }

  lemma U16RoundTrip(b: seq<byte>)
    requires |b| >= 2
    ensures BE16(U16(b)) == b[..2]
  {
  }

  lemma U32RoundTrip(b: seq<byte>)
    requires |b| >= 4
    ensures BE32(U32(b)) == b[..4]
  {
    var x := U32(b);
    assert x / 0x100_0000 == b[0] && x / 0x1_0000 == b[0] as int * 0x100 + b[1];
    assert x / 0x100 == b[0] as int * 0x1_0000 + b[1] as int * 0x100 + b[2];
  }

  function Zeros(n: nat): (r: seq<byte>)
    ensures |r| == n && forall i :: 0 <= i < n ==> r[i] == 0
  {
    seq(n, _ => 0)
  }

  // ---------------------------------------------------------------- addresses, as `net.IP` keeps them

  predicate IsMapped(ip: seq<byte>) {
    |ip| == 16 && ip[..10] == Zeros(10) && ip[10] == 255 && ip[11] == 255
  }

  /** `net.IP.To4`: four octets for an IPv4 or IPv4-mapped address, else nothing. */
  function To4(ip: seq<byte>): (r: seq<byte>)
    ensures |r| == 0 || |r| == 4
  {
    if |ip| == 4 then ip else if IsMapped(ip) then ip[12..] else []
  }

  /** `net.IP.To16`: nothing for octets that are no address. */
  function To16(ip: seq<byte>): (r: seq<byte>)
    ensures |r| == 0 || |r| == 16
  {
    if |ip| == 4 then Zeros(10) + [255, 255] + ip else if |ip| == 16 then ip else []
  }

  predicate IsIPv4(ip: seq<byte>) {
    To4(ip) != []
  }

  // ---------------------------------------------------------------- joining and cutting

  lemma Assoc<T>(a: seq<T>, b: seq<T>, c: seq<T>)
    ensures a + b + c == a + (b + c)
  {
  }

  /** What remains after a known prefix, and the prefix itself. */
  lemma SplitConcat<T>(a: seq<T>, t: seq<T>)
    ensures (a + t)[..|a|] == a && (a + t)[|a|..] == t
  {
  }

  /** A list put before the first of two results. */
  function Prepend<T, R>(l: seq<T>, r: (seq<T>, R)): (seq<T>, R) {
    (l + r.0, r.1)
  }

  lemma PrependNothing<T, R>(r: (seq<T>, R))
    ensures Prepend([], r) == r
  {
    assert [] + r.0 == r.0;
  }

  lemma PrependTwice<T, R>(l: seq<T>, x: T, r: (seq<T>, R))
    ensures Prepend(l, Prepend([x], r)) == Prepend(l + [x], r)
  {
    Assoc(l, [x], r.0);
  }

  lemma Cancel<T>(a: seq<T>, s: seq<T>, t: seq<T>)
    ensures a + s == a + t <==> s == t
  {
    SplitConcat(a, s);
    SplitConcat(a, t);
  }

  /** The pieces of an octet string made of a head, one octet, a body and a rest. */
  lemma Pieces(b: seq<byte>, head: seq<byte>, x: byte, body: seq<byte>, t: seq<byte>, lo: nat, hi: nat)
    requires b == head + [x] + body + t && lo == |head| + 1 && hi == lo + |body|
    ensures |b| == hi + |t| && b[..lo - 1] == head && b[lo - 1] == x && b[lo..hi] == body && b[hi..] == t
  {
  }

  /** Input that follows does not show in a cut that ends before it. */
  lemma SlicePrefix<T>(b: seq<T>, t: seq<T>, lo: nat, hi: nat)
    requires lo <= hi <= |b|
    ensures (b + t)[lo..hi] == b[lo..hi] && (b + t)[lo..] == b[lo..] + t
  {
  }

  /** Cutting what a cursor leaves is cutting the whole input further on. */
  lemma DropThenSlice<T>(b: seq<T>, i: nat, lo: nat, hi: nat)
    requires i <= |b| && lo <= hi <= |b| - i
    ensures b[i..][lo..hi] == b[i + lo..i + hi] && b[i..][hi..] == b[i + hi..]
  {
  }

  /** A growing output buffer (`bytes.Buffer` used as an `io.Writer`). */
  class Buffer {
    var data: seq<byte>

    constructor ()
      ensures data == []
    {
      data := [];
    }

    method PutByte(x: byte)
      modifies this
      ensures data == old(data) + [x]
    {
      data := data + [x];
    }

    method PutBytes(b: seq<byte>)
      modifies this
      ensures data == old(data) + b
    {
      data := data + b;
    }

    method PutU16(x: u16)
      modifies this
      ensures data == old(data) + BE16(x)
    {
      data := data + BE16(x);
    }

    method PutU32(x: u32)
      modifies this
      ensures data == old(data) + BE32(x)
    {
      data := data + BE32(x);
    }
  }
}
