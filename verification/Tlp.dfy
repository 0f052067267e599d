/** TLP224 framing: the ASCII hex codec, the redundancy byte and what makes a message well formed. */
module Tlp {
  import opened Bytes

  const EOT: byte := 0x03
  const ACK: byte := 0x60
  const NACK: byte := 0xE0
  const BUFFER_SIZE := 260

  // ----- hex characters -----

  function NibbleChar(n: byte): (c: byte)
    requires n < 16
    ensures c != EOT
  {
    if n < 10 then n + 0x30 else n + 0x37
  }

  function NibbleOf(c: byte): Option<byte> {
    if c < 0x30 then None else
    var d := if c - 0x30 > 9 then c - 0x30 - 7 else c - 0x30;
    if d > 0xF then None else Some(d)
  }

  function HexPair(b: byte): (s: seq<byte>)
    ensures |s| == 2 && EOT !in s
  {
    [NibbleChar((b >> 4) & 0x0F), NibbleChar(b & 0x0F)]
  }

  function ByteOfPair(hi: byte, lo: byte): Option<byte> {
    if NibbleOf(hi).None? || NibbleOf(lo).None? then None
    else Some((NibbleOf(hi).value << 4) | NibbleOf(lo).value)
  }

  /** The decoder takes one character too many for 3 to 9: ':' to '@' read like '3' to '9'. */
  lemma NibbleReaders(c: byte, n: byte)
    requires n < 16
    ensures NibbleOf(c) == Some(n) <==> c == NibbleChar(n) || (3 <= n <= 9 && c == n + 0x37)
  {
  }

  lemma PairRoundTrip(b: byte)
    ensures ByteOfPair(HexPair(b)[0], HexPair(b)[1]) == Some(b)
  {
  }

  /** Each nibble of a byte comes from its own character. */
  lemma PairInjective(hi: byte, lo: byte, hi': byte, lo': byte)
    requires ByteOfPair(hi, lo).Some? && ByteOfPair(hi', lo').Some?
    ensures ByteOfPair(hi, lo) == ByteOfPair(hi', lo')
            <==> NibbleOf(hi) == NibbleOf(hi') && NibbleOf(lo) == NibbleOf(lo')
  {
  }

  // ----- messages on the wire -----

  function Encode(m: seq<byte>): (s: seq<byte>)
    ensures |s| == 2 * |m| && EOT !in s
  {
    if m == [] then [] else Encode(m[..|m| - 1]) + HexPair(m[|m| - 1])
  }

  function Decode(s: seq<byte>): (m: Option<seq<byte>>)
    ensures m.Some? ==> |s| == 2 * |m.value|
  {
    if s == [] then Some([])
    else if |s| == 1 then None
    else
      var b := ByteOfPair(s[0], s[1]);
      var rest := Decode(s[2..]);
      if b.None? || rest.None? then None else Some([b.value] + rest.value)
  }

  lemma {:induction false} EncodeAt(m: seq<byte>, k: nat)
    requires k < |m|
    ensures Encode(m)[2 * k..2 * k + 2] == HexPair(m[k])
    decreases |m|
  {
    var last := |m| - 1;
    if k < last {
      EncodeAt(m[..last], k);
      assert Encode(m)[2 * k..2 * k + 2] == Encode(m[..last])[2 * k..2 * k + 2];
    }
  }

  /** The characters `s` pair up to the bytes `m`. */
  ghost predicate PairsTo(s: seq<byte>, m: seq<byte>) {
    |s| == 2 * |m| && forall k :: 0 <= k < |m| ==> ByteOfPair(s[2 * k], s[2 * k + 1]) == Some(m[k])
  }

  lemma PairsToCons(s: seq<byte>, m: seq<byte>)
    requires |s| >= 2 && m != []
    ensures PairsTo(s, m) <==> ByteOfPair(s[0], s[1]) == Some(m[0]) && PairsTo(s[2..], m[1..])
  {
    hide ByteOfPair;
    if |s| == 2 * |m| {
      var t, n := s[2..], m[1..];
      assert forall k :: 0 <= k < |n| ==>
          t[2 * k] == s[2 * (k + 1)] && t[2 * k + 1] == s[2 * (k + 1) + 1] && n[k] == m[k + 1];
      if PairsTo(s, m) {
        assert ByteOfPair(s[2 * 0], s[2 * 0 + 1]) == Some(m[0]);
        forall k | 0 <= k < |n|
          ensures ByteOfPair(t[2 * k], t[2 * k + 1]) == Some(n[k])
        {
          assert ByteOfPair(s[2 * (k + 1)], s[2 * (k + 1) + 1]) == Some(m[k + 1]);
        }
      }
      if ByteOfPair(s[0], s[1]) == Some(m[0]) && PairsTo(t, n) {
        forall k | 0 <= k < |m|
          ensures ByteOfPair(s[2 * k], s[2 * k + 1]) == Some(m[k])
        {
          if k > 0 {
            assert ByteOfPair(t[2 * (k - 1)], t[2 * (k - 1) + 1]) == Some(n[k - 1]);
          }
        }
      }
    }
  }

  lemma DecodeShort(s: seq<byte>, m: seq<byte>)
    requires |s| < 2
    ensures Decode(s) == Some(m) <==> PairsTo(s, m)
  {
    hide ByteOfPair;
  }

  lemma DecodeTurn(s: seq<byte>, m: seq<byte>)
    requires |s| >= 2
    ensures Decode(s) == Some(m) <==>
            m != [] && ByteOfPair(s[0], s[1]) == Some(m[0]) && Decode(s[2..]) == Some(m[1..])
  {
    hide ByteOfPair;
    if m != [] {
      assert [m[0]] + m[1..] == m;
    }
  }

  lemma PairsToNothing(s: seq<byte>)
    ensures PairsTo(s, []) <==> s == []
  {
  }

  /** Decoding succeeds exactly when every pair does, byte by byte. */
  lemma {:induction false} DecodeAt(s: seq<byte>, m: seq<byte>)
    ensures Decode(s) == Some(m) <==> PairsTo(s, m)
    decreases |s|
  {
    hide *;
    if |s| < 2 {
      DecodeShort(s, m);
    } else if m == [] {
      DecodeTurn(s, m);
      PairsToNothing(s);
    } else {
      DecodeTurn(s, m);
      PairsToCons(s, m);
      DecodeAt(s[2..], m[1..]);
    }
  }

  lemma DecodeEncode(m: seq<byte>)
    ensures Decode(Encode(m)) == Some(m)
  {
    hide ByteOfPair;
    hide HexPair;
    forall k | 0 <= k < |m|
      ensures ByteOfPair(Encode(m)[2 * k], Encode(m)[2 * k + 1]) == Some(m[k])
    {
      EncodeAt(m, k);
      assert Encode(m)[2 * k] == Encode(m)[2 * k..2 * k + 2][0];
      assert Encode(m)[2 * k + 1] == Encode(m)[2 * k..2 * k + 2][1];
      PairRoundTrip(m[k]);
    }
    DecodeAt(Encode(m), m);
  }

  // ----- redundancy byte -----

  function Lrc(s: seq<byte>): byte {
    if s == [] then 0 else Lrc(s[..|s| - 1]) ^ s[|s| - 1]
  }

  /** Changing one byte changes the redundancy byte by just as much. */
  lemma {:induction false} LrcUpdate(s: seq<byte>, k: nat, b: byte)
    requires k < |s|
    ensures Lrc(s[k := b]) == Lrc(s) ^ s[k] ^ b
    decreases |s|
  {
    var last := |s| - 1;
    if k == last {
      assert s[k := b][..last] == s[..last];
    } else {
      assert s[k := b][..last] == s[..last][k := b];
      LrcUpdate(s[..last], k, b);
    }
  }

  // ----- well-formed messages -----

  function LengthField(m: seq<byte>): int
    requires |m| >= 3
  {
    256 * (m[1] as int) + m[2] as int
  }

  /** [ACK or NACK][length high][length low][length bytes][redundancy byte] */
  predicate WellFormed(m: seq<byte>) {
    4 <= |m| <= BUFFER_SIZE && (m[0] == ACK || m[0] == NACK) && LengthField(m) == |m| - 4 && Lrc(m) == 0
  }

  /** The redundancy byte of a prefix closes it. */
  lemma LrcCloses(s: seq<byte>)
    ensures Lrc(s + [Lrc(s)]) == 0
  {
    assert (s + [Lrc(s)])[..|s|] == s;
  }

  /** A frame whose characters, all before the EOT, carry a well-formed message. */
  ghost predicate Good(frame: seq<byte>) {
    Decode(frame).Some? && WellFormed(Decode(frame).value)
  }

  /**
   * Replacing one character of an encoded well-formed message by another one: what is left is no longer good, unless
   * the new character reads as the same nibble, and then the message is unchanged. An EOT also splits the frame.
   */
  lemma OneWrongCharacter(m: seq<byte>, i: nat, c: byte)
    requires WellFormed(m) && i < 2 * |m|
    ensures var s := Encode(m)[i := c];
            if NibbleOf(c) == NibbleOf(Encode(m)[i]) then Decode(s) == Some(m) else !Good(s)
  {
    hide NibbleOf;
    hide Lrc;
    hide PairsTo;
    hide Decode;
    var f := Encode(m);
    var s := f[i := c];
    DecodeEncode(m);
    DecodeAt(f, m);
    if NibbleOf(c) == NibbleOf(f[i]) {
      SameNibble(f, m, i, c);
      DecodeAt(s, m);
    } else if Decode(s).Some? {
      OneWrongByte(f, m, i, c, Decode(s).value);
    }
  }

  lemma SameNibble(f: seq<byte>, m: seq<byte>, i: nat, c: byte)
    requires PairsTo(f, m) && i < |f| && NibbleOf(c) == NibbleOf(f[i])
    ensures PairsTo(f[i := c], m)
  {
    hide NibbleOf;
    var s := f[i := c];
    forall k | 0 <= k < |m|
      ensures ByteOfPair(s[2 * k], s[2 * k + 1]) == Some(m[k])
    {
      assert ByteOfPair(f[2 * k], f[2 * k + 1]) == Some(m[k]);
    }
  }

  lemma OneWrongByte(f: seq<byte>, m: seq<byte>, i: nat, c: byte, m': seq<byte>)
    requires Lrc(m) == 0 && PairsTo(f, m) && i < |f| && NibbleOf(c) != NibbleOf(f[i])
    requires Decode(f[i := c]) == Some(m')
    ensures Lrc(m') != 0
  {
    hide NibbleOf;
    hide Lrc;
    hide Decode;
    var s, k := f[i := c], i / 2;
    DecodeAt(s, m');
    assert ByteOfPair(f[2 * k], f[2 * k + 1]) == Some(m[k]);
    assert ByteOfPair(s[2 * k], s[2 * k + 1]) == Some(m'[k]);
    PairInjective(f[2 * k], f[2 * k + 1], s[2 * k], s[2 * k + 1]);
    hide ByteOfPair;
    forall j | 0 <= j < |m| && j != k
      ensures m'[j] == m[j]
    {
      assert ByteOfPair(s[2 * j], s[2 * j + 1]) == Some(m'[j]);
      assert ByteOfPair(f[2 * j], f[2 * j + 1]) == Some(m[j]);
    }
    assert m' == m[k := m'[k]];
    LrcUpdate(m, k, m'[k]);
    XorNonZero(m[k], m'[k]);
  }

  lemma XorNonZero(a: byte, b: byte)
    requires a != b
    ensures 0 ^ a ^ b != 0
  {
  }

  // ----- an EOT inside a message -----

  lemma {:induction false} EncodeConcat(x: seq<byte>, y: seq<byte>)
    ensures Encode(x + y) == Encode(x) + Encode(y)
    decreases |y|
  {
    if y == [] {
      assert x + y == x;
    } else {
      var last := |y| - 1;
      assert (x + y)[..|x + y| - 1] == x + y[..last];
      EncodeConcat(x, y[..last]);
    }
  }

  /** The characters before and behind a position of an encoded message; the one at an odd place is a low nibble. */
  lemma EncodeSplits(m: seq<byte>, i: nat)
    requires i < 2 * |m|
    ensures i % 2 == 0 ==> Encode(m)[..i] == Encode(m[..i / 2])
    ensures i % 2 == 1 ==> Encode(m)[i + 1..] == Encode(m[i / 2 + 1..])
  {
    hide Encode;
    var k := (i + 1) / 2;
    var x, y := Encode(m[..k]), Encode(m[k..]);
    assert m[..k] + m[k..] == m;
    EncodeConcat(m[..k], m[k..]);
    assert (x + y)[..2 * k] == x && (x + y)[2 * k..] == y;
  }

  lemma OddIsNotGood(s: seq<byte>)
    requires |s| % 2 == 1
    ensures !Good(s)
  {
  }

  /** A proper beginning of a well-formed message is not well formed: the length field says more. */
  lemma BeginningIsShort(m: seq<byte>, k: nat)
    requires WellFormed(m) && k < |m|
    ensures !WellFormed(m[..k])
  {
    hide Lrc;
    if k >= 4 {
      assert LengthField(m[..k]) == LengthField(m);
    }
  }

  /** What stands before an EOT put inside an encoded well-formed message is never good. */
  lemma FrontIsNotGood(m: seq<byte>, i: nat)
    requires WellFormed(m) && i < 2 * |m|
    ensures !Good(Encode(m)[..i])
  {
    hide WellFormed;
    if i % 2 == 1 {
      OddIsNotGood(Encode(m)[..i]);
    } else {
      EncodeSplits(m, i);
      BeginningIsShort(m, i / 2);
      DecodeEncode(m[..i / 2]);
    }
  }

  /** What stands behind it is good exactly when it starts a byte and those bytes are themselves well formed. */
  lemma BackIsGoodIff(m: seq<byte>, i: nat)
    requires i < 2 * |m|
    ensures Good(Encode(m)[i + 1..]) <==> i % 2 == 1 && WellFormed(m[i / 2 + 1..])
    ensures i % 2 == 1 ==> Decode(Encode(m)[i + 1..]) == Some(m[i / 2 + 1..])
  {
    hide *;
    if i % 2 == 0 {
      OddIsNotGood(Encode(m)[i + 1..]);
    } else {
      EncodeSplits(m, i);
      GoodEncoding(m[i / 2 + 1..]);
    }
  }

  lemma GoodEncoding(m: seq<byte>)
    ensures Decode(Encode(m)) == Some(m) && (Good(Encode(m)) <==> WellFormed(m))
  {
    DecodeEncode(m);
    hide Encode;
    hide Decode;
    hide WellFormed;
  }
}
