/** Bytes, big-endian numbers and UTF-8. */
module Bytes {
  import opened Sequences

  type Byte = n: int | 0 <= n < 256

  function Power256(width: nat): (p: nat)
    ensures p >= 1
  {
    if width == 0 then 1 else 256 * Power256(width - 1)
  }

  /** The low `width` bytes of `n`, most significant first. */
  function BigEndian(n: nat, width: nat): (r: seq<Byte>)
    ensures |r| == width
  {
    if width == 0 then [] else BigEndian(n / 256, width - 1) + [n % 256]
  }

  function Number(bytes: seq<Byte>): nat {
    if bytes == [] then 0 else 256 * Number(bytes[..|bytes| - 1]) + bytes[|bytes| - 1]
  }

  lemma {:induction false} NumberOfBigEndian(n: nat, width: nat)
    requires n < Power256(width)
    ensures Number(BigEndian(n, width)) == n
  {
    if width > 0 {
      NumberOfBigEndian(n / 256, width - 1);
      assert BigEndian(n, width)[..width - 1] == BigEndian(n / 256, width - 1);
    }
  }

  /** `part` stands in `whole` at `at`. */
  predicate Holds(whole: seq<Byte>, at: nat, part: seq<Byte>) {
    at + |part| <= |whole| && forall i :: 0 <= i < |part| ==> whole[at + i] == part[i]
  }

  lemma HoldsParts(whole: seq<Byte>, at: nat, x: seq<Byte>, y: seq<Byte>)
    requires Holds(whole, at, x + y)
    ensures Holds(whole, at, x) && Holds(whole, at + |x|, y)
  {
    forall i | 0 <= i < |x|
      ensures whole[at + i] == x[i]
    {
      assert (x + y)[i] == x[i];
    }
    forall i | 0 <= i < |y|
      ensures whole[at + |x| + i] == y[i]
    {
      assert (x + y)[|x| + i] == y[i];
    }
  }

  lemma HoldsSlice(whole: seq<Byte>, at: nat, part: seq<Byte>)
    requires at + |part| <= |whole|
    ensures Holds(whole, at, part) <==> whole[at..at + |part|] == part
  {
    if whole[at..at + |part|] == part {
      forall i | 0 <= i < |part|
        ensures whole[at + i] == part[i]
      {
        assert whole[at..at + |part|][i] == part[i];
      }
    }
  }

  lemma HoldsMiddle(x: seq<Byte>, y: seq<Byte>, z: seq<Byte>)
    ensures Holds(x + y + z, |x|, y)
  {
    forall i | 0 <= i < |y|
      ensures (x + y + z)[|x| + i] == y[i]
    {
    }
  }

  /** An unsigned 16-bit number, most significant byte first. */
  function ReadU16(data: seq<Byte>, at: nat): (n: nat)
    requires at + 2 <= |data|
    ensures n <= 65535
  {
    var high: int := data[at];
    high * 256 + data[at + 1]
  }

  function WriteU16(n: nat): (r: seq<Byte>)
    ensures |r| == 2
  {
    [n / 256 % 256, n % 256]
  }

  lemma ReadOfWrite(data: seq<Byte>, at: nat, n: nat)
    requires n <= 65535 && Holds(data, at, WriteU16(n))
    ensures ReadU16(data, at) == n
  {
    assert data[at + 0] == WriteU16(n)[0] && data[at + 1] == WriteU16(n)[1];
  }

  lemma WriteOfRead(data: seq<Byte>, at: nat)
    requires at + 2 <= |data|
    ensures WriteU16(ReadU16(data, at)) == data[at..at + 2]
  {
  }

  function Utf8Char(c: char): (r: seq<Byte>)
    ensures 1 <= |r| <= 4
  {
    var n := c as int;
    if n < 0x80 then [n]
    else if n < 0x800 then [0xC0 + n / 64, 0x80 + n % 64]
    else if n < 0x10000 then [0xE0 + n / 4096, 0x80 + n / 64 % 64, 0x80 + n % 64]
    else [0xF0 + n / 262144, 0x80 + n / 4096 % 64, 0x80 + n / 64 % 64, 0x80 + n % 64]
  }

  function Utf8(s: string): (r: seq<Byte>) {
    if s == [] then [] else Utf8Char(s[0]) + Utf8(s[1..])
  }

  lemma Utf8CharLength(c: char)
    ensures var first := Utf8Char(c)[0];
            |Utf8Char(c)| == if first < 0x80 then 1 else if first < 0xE0 then 2 else if first < 0xF0 then 3 else 4
  {
  }

  lemma Utf8CharInjective(a: char, b: char)
    requires Utf8Char(a) == Utf8Char(b)
    ensures a == b
  {
    Utf8CharLength(a);
    Utf8CharLength(b);
    var m, n := a as int, b as int;
    assert m % 64 == n % 64 ==> m == 64 * (m / 64) + m % 64 && n == 64 * (n / 64) + n % 64;
    if 0x800 <= m {
      assert m / 4096 == m / 64 / 64 && n / 4096 == n / 64 / 64;
      assert m / 262144 == m / 4096 / 64 && n / 262144 == n / 4096 / 64;
    }
  }

  lemma {:induction false} Utf8Injective(s: string, t: string)
    requires Utf8(s) == Utf8(t)
    ensures s == t
  {
    if s == [] || t == [] {
      assert s != [] ==> |Utf8(s)| > 0;
      assert t != [] ==> |Utf8(t)| > 0;
    } else {
      var x, y := Utf8Char(s[0]), Utf8Char(t[0]);
      Utf8CharLength(s[0]);
      Utf8CharLength(t[0]);
      assert x[0] == Utf8(s)[0] == Utf8(t)[0] == y[0];
      SameHead(x, Utf8(s[1..]), y, Utf8(t[1..]));
      Utf8CharInjective(s[0], t[0]);
      Utf8Injective(s[1..], t[1..]);
    }
  }
}
