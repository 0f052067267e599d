/**
 * The CRC-16 over module metadata, computed bit by bit from the high end, and the proof that it
 * detects every burst of at most 16 bits.
 */
module Crc16 {
  import opened Bytes

  const POLYNOMIAL: bv16 := 0x1021
  const SEED: bv16 := 0xFFFF

  predicate Top(c: bv16) {
    c & 0x8000 != 0
  }

  function Up(c: bv16): bv16 {
    c << 1
  }

  function Mix(a: bv16, b: bv16): bv16 {
    a ^ b
  }

  function Step(c: bv16): bv16 {
    if Top(c) then Mix(Up(c), POLYNOMIAL) else Up(c)
  }

  function Steps(c: bv16, n: nat): bv16
    decreases n
  {
    if n == 0 then c else Steps(Step(c), n - 1)
  }

  function HighByte(b: byte): bv16 {
    (b as bv16) << 8
  }

  /** The register after one more byte. */
  function Update(c: bv16, b: byte): bv16 {
    Steps(Mix(c, HighByte(b)), 8)
  }

  function Register(c: bv16, s: seq<byte>): bv16 {
    if s == [] then c else Update(Register(c, s[..|s| - 1]), s[|s| - 1])
  }

  function Crc(s: seq<byte>): bv16 {
    Register(SEED, s)
  }

  method ShiftByte(before: bv16, b: byte) returns (crc: bv16)
    ensures crc == Update(before, b)
  {
    crc := before ^ HighByte(b);
    for j := 0 to 8
      invariant Update(before, b) == Steps(crc, 8 - j)
    {
      ghost var c := crc;
      if crc & 0x8000 != 0 {
        crc := (crc << 1) ^ POLYNOMIAL;
      } else {
        crc := crc << 1;
      }
      assert crc == Step(c);
    }
  }

  method Calculate(data: seq<byte>) returns (crc: bv16)
    ensures crc == Crc(data)
  {
    hide Update;
    crc := SEED;
    for i := 0 to |data|
      invariant crc == Register(SEED, data[..i])
    {
      crc := ShiftByte(crc, data[i]);
      assert data[..i + 1][..i] == data[..i];
    }
    assert data[..|data|] == data;
  }

  // ----- the register as a machine fed bit by bit -----

  function TopBit(bit: bool): bv16 {
    if bit then 0x8000 else 0
  }

  function FeedBit(c: bv16, bit: bool): bv16 {
    Step(Mix(c, TopBit(bit)))
  }

  function Feed(c: bv16, bits: seq<bool>): bv16
    decreases |bits|
  {
    if bits == [] then c else Feed(FeedBit(c, bits[0]), bits[1..])
  }

  /** The bits of a byte in the order the register takes them: highest first. */
  function BitsOf(b: byte): (s: seq<bool>)
    ensures |s| == 8
  {
    [b & 0x80 != 0, b & 0x40 != 0, b & 0x20 != 0, b & 0x10 != 0,
     b & 0x08 != 0, b & 0x04 != 0, b & 0x02 != 0, b & 0x01 != 0]
  }

  function Bits(s: seq<byte>): (r: seq<bool>)
    ensures |r| == 8 * |s|
  {
    if s == [] then [] else Bits(s[..|s| - 1]) + BitsOf(s[|s| - 1])
  }

  /** A highest bit over a word shifted down by one. */
  function Stack(bit: bool, y: bv16): bv16 {
    Mix(TopBit(bit), y >> 1)
  }

  /** A bit string of at most 16 bits as a word, first bit highest. */
  function Word(bits: seq<bool>): bv16 {
    if bits == [] then 0 else Stack(bits[0], Word(bits[1..]))
  }

  /** The polynomial is odd, so the lowest bit of a step tells whether there was feedback. */
  lemma StepShowsFeedback(c: bv16)
    ensures Step(c) & 1 == 1 <==> Top(c)
  {
  }

  lemma UpInjective(a: bv16, b: bv16)
    requires Top(a) == Top(b) && Up(a) == Up(b)
    ensures a == b
  {
  }

  lemma StepInjective(a: bv16, b: bv16)
    requires Step(a) == Step(b)
    ensures a == b
  {
    hide Top;
    hide Up;
    hide Mix;
    StepShowsFeedback(a);
    StepShowsFeedback(b);
    MixCancel(Up(a), Up(b), POLYNOMIAL);
    UpInjective(a, b);
  }

  lemma {:induction false} StepsInjective(a: bv16, b: bv16, n: nat)
    requires Steps(a, n) == Steps(b, n)
    ensures a == b
    decreases n
  {
    hide Step;
    if n > 0 {
      StepsInjective(Step(a), Step(b), n - 1);
      StepInjective(a, b);
    }
  }

  lemma MixKeepsTop(c: bv16, y: bv16)
    ensures Top(Mix(c, y >> 1)) == Top(c)
  {
  }

  lemma MixShiftsUp(c: bv16, y: bv16)
    requires y & 1 == 0
    ensures Up(Mix(c, y >> 1)) == Mix(Up(c), y)
  {
  }

  lemma MixAssociates(a: bv16, b: bv16, c: bv16)
    ensures Mix(a, Mix(b, c)) == Mix(Mix(a, b), c)
  {
  }

  lemma MixCommutes(a: bv16, b: bv16)
    ensures Mix(a, b) == Mix(b, a)
  {
  }

  lemma MixSwap(a: bv16, b: bv16, c: bv16)
    ensures Mix(Mix(a, b), c) == Mix(Mix(a, c), b)
  {
    hide Mix;
    MixAssociates(a, b, c);
    MixCommutes(b, c);
    MixAssociates(a, c, b);
  }

  /** Bits below the highest reach the next register untouched by the feedback. */
  lemma StepLinear(c: bv16, y: bv16)
    requires y & 1 == 0
    ensures Step(Mix(c, y >> 1)) == Mix(Step(c), y)
  {
    hide Top;
    hide Up;
    hide Mix;
    MixKeepsTop(c, y);
    MixShiftsUp(c, y);
    MixSwap(Up(c), y, POLYNOMIAL);
  }

  lemma StepOfStack(c: bv16, bit: bool, y: bv16)
    requires y & 1 == 0
    ensures Step(Mix(c, Stack(bit, y))) == Mix(FeedBit(c, bit), y)
  {
    hide Step;
    hide Mix;
    hide TopBit;
    MixAssociates(c, TopBit(bit), y >> 1);
    StepLinear(Mix(c, TopBit(bit)), y);
  }

  lemma {:induction false} WordFits(bits: seq<bool>, n: byte)
    requires n as int == |bits| <= 16
    ensures n <= 16 && Word(bits) << n == 0
    decreases |bits|
  {
    hide Stack;
    if bits != [] {
      NextByte(n - 1);
      WordFits(bits[1..], n - 1);
      StackFits(bits[0], Word(bits[1..]), n);
    } else {
      assert n == 0;
    }
  }

  lemma StackFits(bit: bool, y: bv16, n: byte)
    requires 1 <= n <= 16 && n - 1 <= 16 && y << (n - 1) == 0
    ensures Stack(bit, y) << n == 0
  {
  }

  lemma WordAboveBottom(bits: seq<bool>)
    requires |bits| <= 15
    ensures Word(bits) & 1 == 0
  {
    hide Word;
    var n := CountTo(|bits|);
    WordFits(bits, n);
    NarrowAboveBottom(Word(bits), n);
  }

  lemma NarrowAboveBottom(x: bv16, n: byte)
    requires n as int <= 15 && n <= 16 && x << n == 0
    ensures x & 1 == 0
  {
    assert n <= 15;
  }

  lemma MixZero(c: bv16)
    ensures Mix(c, 0) == c
  {
  }

  /** Feeding up to 16 bits one at a time equals mixing them in at once and stepping. */
  lemma {:induction false} FeedIsSteps(c: bv16, bits: seq<bool>)
    requires |bits| <= 16
    ensures Feed(c, bits) == Steps(Mix(c, Word(bits)), |bits|)
    decreases |bits|
  {
    hide Step;
    hide Mix;
    hide Stack;
    hide FeedBit;
    if bits == [] {
      MixZero(c);
    } else {
      FeedIsSteps(FeedBit(c, bits[0]), bits[1..]);
      WordAboveBottom(bits[1..]);
      StepOfStack(c, bits[0], Word(bits[1..]));
    }
  }

  lemma {:induction false} FeedSplit(c: bv16, x: seq<bool>, y: seq<bool>)
    ensures Feed(c, x + y) == Feed(Feed(c, x), y)
    decreases |x|
  {
    hide FeedBit;
    if x == [] {
      assert x + y == y;
    } else {
      assert (x + y)[1..] == x[1..] + y;
      FeedSplit(FeedBit(c, x[0]), x[1..], y);
    }
  }

  lemma ByteWord(b: byte)
    ensures Word(BitsOf(b)) == HighByte(b)
  {
    var s := BitsOf(b);
    WordOfEight(s[0], s[1], s[2], s[3], s[4], s[5], s[6], s[7]);
    assert s == [s[0], s[1], s[2], s[3], s[4], s[5], s[6], s[7]];
    hide Word;
    EightBits(b);
  }

  lemma WordOfEight(b0: bool, b1: bool, b2: bool, b3: bool, b4: bool, b5: bool, b6: bool, b7: bool)
    ensures Word([b0, b1, b2, b3, b4, b5, b6, b7]) ==
            Stack(b0, Stack(b1, Stack(b2, Stack(b3, Stack(b4, Stack(b5, Stack(b6, Stack(b7, 0))))))))
  {
    hide Stack;
    var s7 := [b7] + [];
    var s6 := [b6] + s7;
    var s5 := [b5] + s6;
    var s4 := [b4] + s5;
    var s3 := [b3] + s4;
    var s2 := [b2] + s3;
    var s1 := [b1] + s2;
    WordCons(b7, []);
    WordCons(b6, s7);
    WordCons(b5, s6);
    WordCons(b4, s5);
    WordCons(b3, s4);
    WordCons(b2, s3);
    WordCons(b1, s2);
    WordCons(b0, s1);
    assert [b0, b1, b2, b3, b4, b5, b6, b7] == [b0] + s1;
  }

  lemma WordCons(bit: bool, rest: seq<bool>)
    ensures Word([bit] + rest) == Stack(bit, Word(rest))
  {
    assert ([bit] + rest)[1..] == rest;
  }

  lemma EightBits(b: byte)
    ensures HighByte(b) ==
            Stack(b & 0x80 != 0, Stack(b & 0x40 != 0, Stack(b & 0x20 != 0, Stack(b & 0x10 != 0,
            Stack(b & 0x08 != 0, Stack(b & 0x04 != 0, Stack(b & 0x02 != 0, Stack(b & 0x01 != 0, 0))))))))
  {
  }

  /** The byte-wise register of the program is the bit-wise machine. */
  lemma {:induction false} RegisterIsFeed(c: bv16, s: seq<byte>)
    ensures Register(c, s) == Feed(c, Bits(s))
    decreases |s|
  {
    hide Steps;
    hide Mix;
    hide Word;
    hide BitsOf;
    hide FeedBit;
    if s != [] {
      var b := s[|s| - 1];
      RegisterIsFeed(c, s[..|s| - 1]);
      FeedSplit(c, Bits(s[..|s| - 1]), BitsOf(b));
      FeedIsSteps(Feed(c, Bits(s[..|s| - 1])), BitsOf(b));
      ByteWord(b);
    }
  }

  // ----- bursts -----

  lemma {:induction false} WordInjective(u: seq<bool>, v: seq<bool>)
    requires |u| == |v| <= 16 && Word(u) == Word(v)
    ensures u == v
    decreases |u|
  {
    hide Stack;
    if u != [] {
      WordAboveBottom(u[1..]);
      WordAboveBottom(v[1..]);
      StackInjective(u[0], Word(u[1..]), v[0], Word(v[1..]));
      WordInjective(u[1..], v[1..]);
      assert u == [u[0]] + u[1..] && v == [v[0]] + v[1..];
    }
  }

  lemma StackInjective(a: bool, x: bv16, b: bool, y: bv16)
    requires x & 1 == 0 && y & 1 == 0
    requires Stack(a, x) == Stack(b, y)
    ensures a == b && x == y
  {
    assert Stack(a, x) & 0x8000 == TopBit(a) && Stack(b, y) & 0x8000 == TopBit(b);
  }

  lemma MixCancel(a: bv16, b: bv16, x: bv16)
    ensures Mix(a, x) == Mix(b, x) ==> a == b
    ensures Mix(x, a) == Mix(x, b) ==> a == b
  {
  }

  lemma FeedBitInjective(a: bv16, b: bv16, bit: bool)
    requires FeedBit(a, bit) == FeedBit(b, bit)
    ensures a == b
  {
    hide Step;
    hide Mix;
    StepInjective(Mix(a, TopBit(bit)), Mix(b, TopBit(bit)));
    MixCancel(a, b, TopBit(bit));
  }

  lemma {:induction false} FeedInjective(a: bv16, b: bv16, bits: seq<bool>)
    requires Feed(a, bits) == Feed(b, bits)
    ensures a == b
    decreases |bits|
  {
    hide FeedBit;
    if bits != [] {
      FeedInjective(FeedBit(a, bits[0]), FeedBit(b, bits[0]), bits[1..]);
      FeedBitInjective(a, b, bits[0]);
    }
  }

  /** Bit strings that differ only within 16 consecutive bits leave different registers. */
  lemma BurstMovesRegister(c: bv16, p: seq<bool>, u: seq<bool>, v: seq<bool>, q: seq<bool>)
    requires |u| == |v| <= 16 && u != v
    ensures Feed(c, p + u + q) != Feed(c, p + v + q)
  {
    hide Feed;
    hide Steps;
    hide Word;
    hide Mix;
    var s := Feed(c, p);
    FeedSplit(c, p + u, q);
    FeedSplit(c, p, u);
    FeedSplit(c, p + v, q);
    FeedSplit(c, p, v);
    if Feed(c, p + u + q) == Feed(c, p + v + q) {
      FeedInjective(Feed(s, u), Feed(s, v), q);
      FeedIsSteps(s, u);
      FeedIsSteps(s, v);
      StepsInjective(Mix(s, Word(u)), Mix(s, Word(v)), |u|);
      MixCancel(Word(u), Word(v), s);
      WordInjective(u, v);
    }
  }

  lemma BitsOfInjective(a: byte, b: byte)
    requires BitsOf(a) == BitsOf(b)
    ensures a == b
  {
    var s, t := BitsOf(a), BitsOf(b);
    assert s[0] == t[0] && s[1] == t[1] && s[2] == t[2] && s[3] == t[3];
    assert s[4] == t[4] && s[5] == t[5] && s[6] == t[6] && s[7] == t[7];
  }

  lemma {:induction false} BitsInjective(x: seq<byte>, y: seq<byte>)
    requires |x| == |y| && Bits(x) == Bits(y)
    ensures x == y
    decreases |x|
  {
    hide BitsOf;
    if x != [] {
      var last := |x| - 1;
      assert Bits(x)[..8 * last] == Bits(x[..last]) && Bits(y)[..8 * last] == Bits(y[..last]);
      assert Bits(x)[8 * last..] == BitsOf(x[last]) && Bits(y)[8 * last..] == BitsOf(y[last]);
      BitsInjective(x[..last], y[..last]);
      BitsOfInjective(x[last], y[last]);
      assert x == x[..last] + [x[last]] && y == y[..last] + [y[last]];
    }
  }

  lemma {:induction false} BitsConcat(x: seq<byte>, y: seq<byte>)
    ensures Bits(x + y) == Bits(x) + Bits(y)
    decreases |y|
  {
    hide BitsOf;
    if y == [] {
      assert x + y == x;
    } else {
      assert (x + y)[..|x + y| - 1] == x + y[..|y| - 1];
      BitsConcat(x, y[..|y| - 1]);
    }
  }

  /**
   * The CRC-16 of two byte strings of equal length differs whenever all their differing bits lie
   * within 16 consecutive ones, wherever in the strings and however aligned.
   */
  lemma BurstDetected(x: seq<byte>, y: seq<byte>, at: nat, width: nat)
    requires |x| == |y| && x != y && width <= 16 && at + width <= 8 * |x|
    requires Bits(x)[..at] == Bits(y)[..at] && Bits(x)[at + width..] == Bits(y)[at + width..]
    ensures Crc(x) != Crc(y)
  {
    hide Bits;
    hide Feed;
    hide Register;
    var p, q := Bits(x)[..at], Bits(x)[at + width..];
    var u, v := Bits(x)[at..at + width], Bits(y)[at..at + width];
    assert Bits(x) == p + u + q && Bits(y) == p + v + q;
    if Bits(x) == Bits(y) {
      BitsInjective(x, y);
    }
    BurstMovesRegister(SEED, p, u, v, q);
    RegisterIsFeed(SEED, x);
    RegisterIsFeed(SEED, y);
  }

  /** In particular every change within two consecutive bytes is detected. */
  lemma TwoByteChangeDetected(p: seq<byte>, x: seq<byte>, y: seq<byte>, q: seq<byte>)
    requires |x| == |y| <= 2 && x != y
    ensures Crc(p + x + q) != Crc(p + y + q)
  {
    hide Bits;
    hide Crc;
    BitsConcat(p + x, q);
    BitsConcat(p, x);
    BitsConcat(p + y, q);
    BitsConcat(p, y);
    var at, width := 8 * |p|, 8 * |x|;
    assert Bits(p + x + q)[..at] == Bits(p) == Bits(p + y + q)[..at];
    assert Bits(p + x + q)[at + width..] == Bits(q) == Bits(p + y + q)[at + width..];
    assert (p + x + q)[|p|..|p| + |x|] == x && (p + y + q)[|p|..|p| + |x|] == y;
    BurstDetected(p + x + q, p + y + q, at, width);
  }

  // ----- one byte of a message against one byte of its checksum -----

  lemma TopOfMix(a: bv16, b: bv16)
    ensures Top(Mix(a, b)) <==> Top(a) != Top(b)
  {
  }

  lemma UpOfMix(a: bv16, b: bv16)
    ensures Up(Mix(a, b)) == Mix(Up(a), Up(b))
  {
  }

  lemma MixSelf(a: bv16)
    ensures Mix(a, a) == 0 && Mix(0, a) == a
  {
  }

  lemma MixAgain(a: bv16, d: bv16)
    ensures Mix(a, Mix(a, d)) == d
  {
    hide Mix;
    MixAssociates(a, a, d);
    MixSelf(a);
    MixSelf(d);
  }

  lemma MixTwice(a: bv16, b: bv16, p: bv16)
    ensures Mix(Mix(a, p), Mix(b, p)) == Mix(a, b)
  {
    hide Mix;
    MixCommutes(b, p);
    MixAssociates(a, p, Mix(p, b));
    MixAgain(p, b);
  }

  lemma StepOfMix(a: bv16, b: bv16)
    ensures Step(Mix(a, b)) == Mix(Step(a), Step(b))
  {
    hide Top;
    hide Up;
    hide Mix;
    TopOfMix(a, b);
    UpOfMix(a, b);
    MixTwice(Up(a), Up(b), POLYNOMIAL);
    MixSwap(Up(a), POLYNOMIAL, Up(b));
    MixAssociates(Up(a), Up(b), POLYNOMIAL);
  }

  lemma {:induction false} StepsOfMix(a: bv16, b: bv16, n: nat)
    ensures Steps(Mix(a, b), n) == Mix(Steps(a, n), Steps(b, n))
    decreases n
  {
    hide Step;
    hide Mix;
    if n > 0 {
      StepOfMix(a, b);
      StepsOfMix(Step(a), Step(b), n - 1);
    }
  }

  lemma HighBytesMixed(c: bv16, x: byte, y: byte)
    ensures Mix(Mix(c, HighByte(x)), Mix(c, HighByte(y))) == HighByte(x ^ y)
  {
  }

  /** Two last bytes change the register by what their difference alone gives. */
  lemma UpdateDifference(c: bv16, x: byte, y: byte)
    ensures Mix(Update(c, x), Update(c, y)) == Steps(HighByte(x ^ y), 8)
  {
    HighBytesMixed(c, x, y);
    hide Step;
    hide Mix;
    hide HighByte;
    hide Steps;
    StepsOfMix(Mix(c, HighByte(x)), Mix(c, HighByte(y)), 8);
  }

  /** Eight steps, written out. */
  function Eight(c: bv16): bv16 {
    Step(Step(Step(Step(Step(Step(Step(Step(c))))))))
  }

  lemma EightIs(c: bv16)
    ensures Steps(c, 8) == Eight(c)
  {
    hide Step;
    var c1 := Step(c);
    var c2 := Step(c1);
    var c3 := Step(c2);
    var c4 := Step(c3);
    assert Steps(c, 8) == Steps(c4, 4);
    var c5 := Step(c4);
    var c6 := Step(c5);
    var c7 := Step(c6);
    assert Steps(c4, 4) == Steps(c7, 1);
  }

  /** One step in raw operations. */
  predicate Next(c: bv16, d: bv16) {
    d == if c & 0x8000 != 0 then (c << 1) ^ 0x1021 else c << 1
  }

  lemma NextIs(c: bv16)
    ensures Next(c, Step(c))
  {
  }

  /** Only the byte 0x89 leaves the high byte of the register zero after eight steps, and then the low one is 0xA1. */
  lemma LowOnly(e: byte, c0: bv16, c1: bv16, c2: bv16, c3: bv16, c4: bv16, c5: bv16, c6: bv16, c7: bv16, c8: bv16)
    requires c0 == (e as bv16) << 8
    requires Next(c0, c1) && Next(c1, c2) && Next(c2, c3) && Next(c3, c4)
    requires Next(c4, c5) && Next(c5, c6) && Next(c6, c7) && Next(c7, c8)
    ensures c8 & 0xFF00 == 0 <==> e == 0 || e == 0x89
    ensures e == 0x89 ==> c8 == 0xA1
  {
  }

  lemma EightOfByte(e: byte)
    ensures Steps(HighByte(e), 8) & 0xFF00 == 0 <==> e == 0 || e == 0x89
    ensures e == 0x89 ==> Steps(HighByte(e), 8) == 0xA1
  {
    hide Step;
    hide Next;
    var c0 := HighByte(e);
    var c1 := Step(c0);
    var c2 := Step(c1);
    var c3 := Step(c2);
    var c4 := Step(c3);
    var c5 := Step(c4);
    var c6 := Step(c5);
    var c7 := Step(c6);
    EightIs(c0);
    hide Steps;
    NextIs(c0);
    NextIs(c1);
    NextIs(c2);
    NextIs(c3);
    NextIs(c4);
    NextIs(c5);
    NextIs(c6);
    NextIs(c7);
    LowOnly(e, c0, c1, c2, c3, c4, c5, c6, c7, Step(c7));
  }

  lemma MixSolves(a: bv16, b: bv16, d: bv16)
    ensures b == Mix(a, d) <==> d == Mix(a, b)
  {
    hide Mix;
    MixAgain(a, d);
    MixAgain(a, b);
  }

  lemma ByteDifference(x: byte, y: byte)
    requires x != y
    ensures x ^ y != 0 && (x ^ y == 0x89 <==> y == x ^ 0x89)
  {
  }

  /**
   * Changing the last byte of a message and mixing a low-byte difference into its checksum keeps the two matching
   * for one pair of differences only: 0x89 in the byte and 0xA1 in the checksum.
   */
  lemma StraddleIff(p: seq<byte>, x: byte, y: byte, d: bv16)
    requires x != y && d & 0xFF00 == 0
    ensures Crc(p + [y]) == Mix(Crc(p + [x]), d) <==> y == x ^ 0x89 && d == 0xA1
  {
    assert (p + [x])[..|p|] == p && (p + [y])[..|p|] == p;
    var c := Register(SEED, p);
    hide Register;
    UpdateDifference(c, x, y);
    MixSolves(Update(c, x), Update(c, y), d);
    EightOfByte(x ^ y);
    ByteDifference(x, y);
    hide Update;
    hide Steps;
    hide Mix;
    hide HighByte;
  }
}
