/** Bytes, 32-bit words and the small result types shared by the other modules. */
module Bytes {

  type byte = bv8

  const WORD_LIMIT: int := 0x1_0000_0000

  /** A C `u32` seen as a number. */
  type u32 = x: int | 0 <= x < 0x1_0000_0000

  datatype Option<+T> = None | Some(value: T)

  /** The value an unbounded integer takes once stored in a `u32`. */
  function Wrap(x: int): (r: u32)
    ensures 0 <= x < WORD_LIMIT ==> r == x
  {
    x % WORD_LIMIT
  }

  // ----- little-endian numbers -----

  function U16Le(x: int): (s: seq<byte>)
    requires 0 <= x < 0x1_0000
    ensures |s| == 2
  {
    [(x % 256) as byte, (x / 256) as byte]
  }

  function ReadU16Le(s: seq<byte>): (x: int)
    requires |s| >= 2
    ensures 0 <= x < 0x1_0000
  {
    s[0] as int + 256 * (s[1] as int)
  }

  function U32Le(x: u32): (s: seq<byte>)
    ensures |s| == 4
  {
    [(x % 256) as byte, (x / 256 % 256) as byte, (x / 256 / 256 % 256) as byte, (x / 256 / 256 / 256 % 256) as byte]
  }

  function ReadU32Le(s: seq<byte>): (x: u32)
    requires |s| >= 4
  {
    s[0] as int + 0x100 * (s[1] as int) + 0x1_0000 * (s[2] as int) + 0x100_0000 * (s[3] as int)
  }

  lemma NextByte(b: byte)
    requires b < 255
    ensures (b + 1) as int == b as int + 1
  {
  }

  /** The byte of a given value, counted up from zero. */
  function CountTo(x: int): (b: byte)
    requires 0 <= x < 256
    ensures b as int == x
  {
    if x == 0 then 0 else NextByte(CountTo(x - 1)); CountTo(x - 1) + 1
  }

  lemma ByteThere(b: byte)
    ensures (b as int) as byte == b
  {
  }

  lemma ByteIs(x: int, b: byte)
    requires x == b as int
    ensures 0 <= x < 256 && x as byte == b
  {
  }

  lemma ByteRoundTrip(x: int)
    requires 0 <= x < 256
    ensures (x as byte) as int == x
  {
    ByteThere(CountTo(x));
  }

  lemma U16RoundTrip(x: int, tail: seq<byte>)
    requires 0 <= x < 0x1_0000
    ensures ReadU16Le(U16Le(x) + tail) == x
  {
    ByteRoundTrip(x % 256);
    ByteRoundTrip(x / 256);
  }

  /** The four bytes of a number are its digits in base 256. */
  lemma U32Digits(x: u32)
    ensures var s := U32Le(x);
            x == s[0] as int + 0x100 * (s[1] as int) + 0x1_0000 * (s[2] as int) + 0x100_0000 * (s[3] as int)
  {
    ByteRoundTrip(x % 256);
    ByteRoundTrip(x / 256 % 256);
    ByteRoundTrip(x / 256 / 256 % 256);
    ByteRoundTrip(x / 256 / 256 / 256 % 256);
    Positional(x);
  }

  lemma Positional(x: u32)
    ensures x == x % 256 + 0x100 * (x / 256 % 256) + 0x1_0000 * (x / 256 / 256 % 256)
                 + 0x100_0000 * (x / 256 / 256 / 256 % 256)
  {
    var q1, q2 := x / 256, x / 256 / 256;
    var q3 := q2 / 256;
    assert q3 < 256;
    assert q2 == 256 * q3 + q2 % 256;
  }

  lemma U32RoundTrip(x: u32, tail: seq<byte>)
    ensures ReadU32Le(U32Le(x) + tail) == x
  {
    U32Digits(x);
    assert (U32Le(x) + tail)[..4] == U32Le(x);
  }

  lemma Digits(x: int, a: int, b: int, c: int, d: int)
    requires 0 <= a < 256 && 0 <= b < 256 && 0 <= c < 256 && 0 <= d < 256
    requires x == a + 0x100 * b + 0x1_0000 * c + 0x100_0000 * d
    ensures x % 256 == a && x / 256 % 256 == b && x / 256 / 256 % 256 == c && x / 256 / 256 / 256 % 256 == d
  {
    assert x / 256 == b + 0x100 * c + 0x1_0000 * d;
    assert x / 256 / 256 == c + 0x100 * d;
  }

  /** Writing back a number read gives the bytes it was read from. */
  lemma U32Unread(s: seq<byte>)
    requires |s| == 4
    ensures U32Le(ReadU32Le(s)) == s
  {
    var x := ReadU32Le(s);
    FourBytes(x, s[0], s[1], s[2], s[3], s[0] as int, s[1] as int, s[2] as int, s[3] as int);
  }

  lemma FourBytes(x: u32, p: byte, q: byte, r: byte, t: byte, a: int, b: int, c: int, d: int)
    requires a == p as int && b == q as int && c == r as int && d == t as int
    requires x == a + 0x100 * b + 0x1_0000 * c + 0x100_0000 * d
    ensures U32Le(x) == [p, q, r, t]
  {
    Digits(x, a, b, c, d);
    ByteIs(a, p);
    ByteIs(b, q);
    ByteIs(c, r);
    ByteIs(d, t);
  }
}
