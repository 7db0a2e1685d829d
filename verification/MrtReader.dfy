/** The cursor reader of `mrt/reader.go`, whose first error sticks. */
module MrtReader {
  import opened Bytes

  /** What a reader still has in front of it, and whether a read has failed. */
  datatype Cursor = Cursor(rest: seq<byte>, failed: bool)

  /** Every read: the octets asked for, or zeros once there were too few. */
  function Read(c: Cursor, n: nat): (r: (seq<byte>, Cursor))
    ensures |r.0| == n && |r.1.rest| <= |c.rest|
  {
    if c.failed || n > |c.rest| then (Zeros(n), Cursor(c.rest, true))
    else (c.rest[..n], Cursor(c.rest[n..], false))
  }

  class ByteReader {
    const b: seq<byte>
    var pos: nat
    var err: bool

    constructor (b: seq<byte>)
      ensures Valid() && View() == Cursor(b, false) && this.b == b
    {
      this.b := b;
      this.pos := 0;
      this.err := false;
    }

    ghost predicate Valid()
      reads this
    {
      pos <= |b|
    }

    ghost function View(): Cursor
      requires Valid()
      reads this
    {
      Cursor(b[pos..], err)
    }

    method ReadUint8() returns (v: byte)
      requires Valid()
      modifies this
      ensures Valid() && View() == Read(old(View()), 1).1 && v == Read(old(View()), 1).0[0]
    {
      if err {
        return 0;
      }
      if pos + 1 > |b| {
        err := true;
        return 0;
      }
      v := b[pos];
      pos := pos + 1;
    }

    method ReadUint16() returns (v: u16)
      requires Valid()
      modifies this
      ensures Valid() && View() == Read(old(View()), 2).1 && v == U16(Read(old(View()), 2).0)
    {
      if err {
        return 0;
      }
      if pos + 2 > |b| {
        err := true;
        return 0;
      }
      v := U16(b[pos..]);
      pos := pos + 2;
    }

    method ReadUint32() returns (v: u32)
      requires Valid()
      modifies this
      ensures Valid() && View() == Read(old(View()), 4).1 && v == U32(Read(old(View()), 4).0)
    {
      if err {
        return 0;
      }
      if pos + 4 > |b| {
        err := true;
        return 0;
      }
      v := U32(b[pos..]);
      pos := pos + 4;
    }

    method ReadBytes(n: nat) returns (v: seq<byte>)
      requires Valid()
      modifies this
      ensures Valid() && (v, View()) == Read(old(View()), n)
    {
      v := Zeros(n);
      if err {
        return;
      }
      if pos + n > |b| {
        err := true;
        return;
      }
      var next := pos + n;
      DropThenSlice(b, pos, 0, n);
      v := b[pos..next];
      pos := next;
    }
  }

  // ---------------------------------------------------------------- any sequence of reads

  function ReadMany(c: Cursor, sizes: seq<nat>): (seq<seq<byte>>, Cursor)
    decreases |sizes|
  {
    if sizes == [] then ([], c)
    else
      var (v, d) := Read(c, sizes[0]);
      var (vs, e) := ReadMany(d, sizes[1..]);
      ([v] + vs, e)
  }

  function Joined(l: seq<seq<byte>>): seq<byte> {
    if l == [] then [] else l[0] + Joined(l[1..])
  }

  /** Reads only go forward: what is left is always an end of what was there. */
  lemma {:induction false} ReadsGoForward(c: Cursor, sizes: seq<nat>)
    ensures var d := ReadMany(c, sizes).1;
      |d.rest| <= |c.rest| && d.rest == c.rest[|c.rest| - |d.rest|..] && (c.failed ==> d.failed)
    decreases |sizes|
  {
    if sizes != [] {
      var d := Read(c, sizes[0]).1;
      ReadsGoForward(d, sizes[1..]);
      var e := ReadMany(d, sizes[1..]).1;
      assert d.rest == c.rest[|c.rest| - |d.rest|..];
    }
  }

  /** Without an error the octets returned are, joined, exactly those consumed, each read with the size asked for. */
  lemma {:induction false} GoodReadsReturnInput(c: Cursor, sizes: seq<nat>)
    requires !ReadMany(c, sizes).1.failed
    ensures c.rest == Joined(ReadMany(c, sizes).0) + ReadMany(c, sizes).1.rest
    decreases |sizes|
  {
    if sizes == [] {
      assert [] + c.rest == c.rest;
    } else {
      var (v, d) := Read(c, sizes[0]);
      ReadsGoForward(d, sizes[1..]);
      GoodReadsReturnInput(d, sizes[1..]);
      var (vs, e) := ReadMany(d, sizes[1..]);
      assert ([v] + vs)[1..] == vs;
      Assoc(v, Joined(vs), e.rest);
    }
  }

  /** After the first error nothing moves, and every read returns zeros of the size asked for. */
  lemma {:induction false} ErrorSticks(c: Cursor, sizes: seq<nat>)
    requires c.failed
    ensures ReadMany(c, sizes).1 == c
    ensures |ReadMany(c, sizes).0| == |sizes|
    ensures forall i :: 0 <= i < |sizes| ==> ReadMany(c, sizes).0[i] == Zeros(sizes[i])
    decreases |sizes|
  {
    if sizes != [] {
      ErrorSticks(c, sizes[1..]);
    }
  }

  /** Reading a part that is there. */
  lemma ReadPart(x: seq<byte>, t: seq<byte>)
    ensures Read(Cursor(x + t, false), |x|) == (x, Cursor(t, false))
  {
    SplitConcat(x, t);
  }
}
