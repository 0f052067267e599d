/**
 * The CRC-32 that seals the saved reference table, computed bit by bit from the low end, and the
 * proof that it detects every burst of at most 32 bits.
 */
module Crc32 {
  import opened Bytes

  const POLYNOMIAL: bv32 := 0xEDB8_8320
  const SEED: bv32 := 0xFFFF_FFFF

  predicate Low(c: bv32) {
    c & 1 == 1
  }

  function Down(c: bv32): bv32 {
    c >> 1
  }

  function Mix(a: bv32, b: bv32): bv32 {
    a ^ b
  }

  function Step(c: bv32): bv32 {
    if Low(c) then Mix(Down(c), POLYNOMIAL) else Down(c)
  }

  function Steps(c: bv32, n: nat): bv32
    decreases n
  {
    if n == 0 then c else Steps(Step(c), n - 1)
  }

  /** The register after one more byte. */
  function Update(c: bv32, b: byte): bv32 {
    Steps(Mix(c, b as bv32), 8)
  }

  function Register(c: bv32, s: seq<byte>): bv32 {
    if s == [] then c else Update(Register(c, s[..|s| - 1]), s[|s| - 1])
  }

  function Crc(s: seq<byte>): bv32 {
    Mix(Register(SEED, s), 0xFFFF_FFFF)
  }

  method ShiftByte(before: bv32, b: byte) returns (crc: bv32)
    ensures crc == Update(before, b)
  {
    crc := before ^ (b as bv32);
    for j := 0 to 8
      invariant Update(before, b) == Steps(crc, 8 - j)
    {
      ghost var c := crc;
      if crc & 1 == 1 {
        crc := (crc >> 1) ^ POLYNOMIAL;
      } else {
        crc := crc >> 1;
      }
      assert crc == Step(c);
    }
  }

  method Calculate(data: seq<byte>) returns (crc: bv32)
    ensures crc == Crc(data)
  {
    hide Update;
    crc := SEED;
    for i := 0 to |data|
      invariant crc == Register(SEED, data[..i])
    {
      crc := ShiftByte(crc, data[i]);
      assert data[..i + 1][..i] == data[..i];
    }
    assert data[..|data|] == data;
    crc := Mix(crc, 0xFFFF_FFFF);
  }

  // ----- the register as a machine fed bit by bit -----

  function BitWord(bit: bool): bv32 {
    if bit then 1 else 0
  }

  function FeedBit(c: bv32, bit: bool): bv32 {
    Step(Mix(c, BitWord(bit)))
  }

  function Feed(c: bv32, bits: seq<bool>): bv32
    decreases |bits|
  {
    if bits == [] then c else Feed(FeedBit(c, bits[0]), bits[1..])
  }

  /** The bits of a byte in the order the register takes them: lowest first. */
  function BitsOf(b: byte): (s: seq<bool>)
    ensures |s| == 8
  {
    [b & 0x01 != 0, b & 0x02 != 0, b & 0x04 != 0, b & 0x08 != 0,
     b & 0x10 != 0, b & 0x20 != 0, b & 0x40 != 0, b & 0x80 != 0]
  }

  function Bits(s: seq<byte>): (r: seq<bool>)
    ensures |r| == 8 * |s|
  {
    if s == [] then [] else Bits(s[..|s| - 1]) + BitsOf(s[|s| - 1])
  }

  /** A lowest bit under a word shifted up by one. */
  function Stack(bit: bool, y: bv32): bv32 {
    Mix(BitWord(bit), y << 1)
  }

  /** A bit string of at most 32 bits as a word, first bit lowest. */
  function Word(bits: seq<bool>): bv32 {
    if bits == [] then 0 else Stack(bits[0], Word(bits[1..]))
  }

  lemma StepInjective(a: bv32, b: bv32)
    requires Step(a) == Step(b)
    ensures a == b
  {
  }

  lemma {:induction false} StepsInjective(a: bv32, b: bv32, n: nat)
    requires Steps(a, n) == Steps(b, n)
    ensures a == b
    decreases n
  {
    hide Step;
    if n > 0 {
      StepsInjective(Step(a), Step(b), n - 1);
      StepInjective(a, b);
    }
  }

  lemma MixKeepsLow(c: bv32, y: bv32)
    ensures Low(Mix(c, y << 1)) == Low(c)
  {
  }

  lemma MixShiftsDown(c: bv32, y: bv32)
    requires y < 0x8000_0000
    ensures Down(Mix(c, y << 1)) == Mix(Down(c), y)
  {
  }

  lemma MixAssociates(a: bv32, b: bv32, c: bv32)
    ensures Mix(a, Mix(b, c)) == Mix(Mix(a, b), c)
  {
  }

  lemma MixCommutes(a: bv32, b: bv32)
    ensures Mix(a, b) == Mix(b, a)
  {
  }

  lemma MixSwap(a: bv32, b: bv32, c: bv32)
    ensures Mix(Mix(a, b), c) == Mix(Mix(a, c), b)
  {
    hide Mix;
    MixAssociates(a, b, c);
    MixCommutes(b, c);
    MixAssociates(a, c, b);
  }

  /** Bits above the lowest reach the next register untouched by the feedback. */
  lemma StepLinear(c: bv32, y: bv32)
    requires y < 0x8000_0000
    ensures Step(Mix(c, y << 1)) == Mix(Step(c), y)
  {
    hide Low;
    hide Down;
    hide Mix;
    MixKeepsLow(c, y);
    MixShiftsDown(c, y);
    MixSwap(Down(c), y, POLYNOMIAL);
  }

  lemma StepOfStack(c: bv32, bit: bool, y: bv32)
    requires y < 0x8000_0000
    ensures Step(Mix(c, Stack(bit, y))) == Mix(FeedBit(c, bit), y)
  {
    hide Step;
    hide Mix;
    hide BitWord;
    MixAssociates(c, BitWord(bit), y << 1);
    StepLinear(Mix(c, BitWord(bit)), y);
  }

  lemma {:induction false} WordFits(bits: seq<bool>, n: byte)
    requires n as int == |bits| <= 32
    ensures n <= 32 && Word(bits) >> n == 0
    decreases |bits|
  {
    hide Stack;
    if bits != [] {
      NextByte(n - 1);
      WordFits(bits[1..], n - 1);
      StackFits(bits[0], Word(bits[1..]), n);
    } else {
      assert n == 0;
    }
  }

  lemma StackFits(bit: bool, y: bv32, n: byte)
    requires 1 <= n <= 32 && n - 1 <= 32 && y >> (n - 1) == 0
    ensures Stack(bit, y) >> n == 0
  {
  }

  lemma WordBelowTop(bits: seq<bool>)
    requires |bits| <= 31
    ensures Word(bits) < 0x8000_0000
  {
    hide Word;
    var n := CountTo(|bits|);
    WordFits(bits, n);
    NarrowBelowTop(Word(bits), n);
  }

  lemma NarrowBelowTop(x: bv32, n: byte)
    requires n as int <= 31 && n <= 32 && x >> n == 0
    ensures x < 0x8000_0000
  {
    assert n <= 31;
  }

  lemma MixZero(c: bv32)
    ensures Mix(c, 0) == c
  {
  }

  /** Feeding up to 32 bits one at a time equals mixing them in at once and stepping. */
  lemma {:induction false} FeedIsSteps(c: bv32, bits: seq<bool>)
    requires |bits| <= 32
    ensures Feed(c, bits) == Steps(Mix(c, Word(bits)), |bits|)
    decreases |bits|
  {
    hide Step;
    hide Mix;
    hide Stack;
    hide FeedBit;
    if bits == [] {
      MixZero(c);
    } else {
      FeedIsSteps(FeedBit(c, bits[0]), bits[1..]);
      WordBelowTop(bits[1..]);
      StepOfStack(c, bits[0], Word(bits[1..]));
    }
  }

  lemma {:induction false} FeedSplit(c: bv32, x: seq<bool>, y: seq<bool>)
    ensures Feed(c, x + y) == Feed(Feed(c, x), y)
    decreases |x|
  {
    hide FeedBit;
    if x == [] {
      assert x + y == y;
    } else {
      assert (x + y)[1..] == x[1..] + y;
      FeedSplit(FeedBit(c, x[0]), x[1..], y);
    }
  }

  lemma ByteWord(b: byte)
    ensures Word(BitsOf(b)) == b as bv32
  {
    var s := BitsOf(b);
    WordOfEight(s[0], s[1], s[2], s[3], s[4], s[5], s[6], s[7]);
    assert s == [s[0], s[1], s[2], s[3], s[4], s[5], s[6], s[7]];
    hide Word;
    EightBits(b);
  }

  lemma WordOfEight(b0: bool, b1: bool, b2: bool, b3: bool, b4: bool, b5: bool, b6: bool, b7: bool)
    ensures Word([b0, b1, b2, b3, b4, b5, b6, b7]) ==
            Stack(b0, Stack(b1, Stack(b2, Stack(b3, Stack(b4, Stack(b5, Stack(b6, Stack(b7, 0))))))))
  {
    hide Stack;
    var s7 := [b7] + [];
    var s6 := [b6] + s7;
    var s5 := [b5] + s6;
    var s4 := [b4] + s5;
    var s3 := [b3] + s4;
    var s2 := [b2] + s3;
    var s1 := [b1] + s2;
    WordCons(b7, []);
    WordCons(b6, s7);
    WordCons(b5, s6);
    WordCons(b4, s5);
    WordCons(b3, s4);
    WordCons(b2, s3);
    WordCons(b1, s2);
    WordCons(b0, s1);
    assert [b0, b1, b2, b3, b4, b5, b6, b7] == [b0] + s1;
  }

  lemma WordCons(bit: bool, rest: seq<bool>)
    ensures Word([bit] + rest) == Stack(bit, Word(rest))
  {
    assert ([bit] + rest)[1..] == rest;
  }

  lemma EightBits(b: byte)
    ensures b as bv32 ==
            Stack(b & 0x01 != 0, Stack(b & 0x02 != 0, Stack(b & 0x04 != 0, Stack(b & 0x08 != 0,
            Stack(b & 0x10 != 0, Stack(b & 0x20 != 0, Stack(b & 0x40 != 0, Stack(b & 0x80 != 0, 0))))))))
  {
  }

  /** The byte-wise register of the program is the bit-wise machine. */
  lemma {:induction false} RegisterIsFeed(c: bv32, s: seq<byte>)
    ensures Register(c, s) == Feed(c, Bits(s))
    decreases |s|
  {
    hide Steps;
    hide Mix;
    hide Word;
    hide BitsOf;
    hide FeedBit;
    if s != [] {
      var b := s[|s| - 1];
      RegisterIsFeed(c, s[..|s| - 1]);
      FeedSplit(c, Bits(s[..|s| - 1]), BitsOf(b));
      FeedIsSteps(Feed(c, Bits(s[..|s| - 1])), BitsOf(b));
      ByteWord(b);
    }
  }

  // ----- bursts -----

  lemma {:induction false} WordInjective(u: seq<bool>, v: seq<bool>)
    requires |u| == |v| <= 32 && Word(u) == Word(v)
    ensures u == v
    decreases |u|
  {
    hide Stack;
    if u != [] {
      WordBelowTop(u[1..]);
      WordBelowTop(v[1..]);
      StackInjective(u[0], Word(u[1..]), v[0], Word(v[1..]));
      WordInjective(u[1..], v[1..]);
      assert u == [u[0]] + u[1..] && v == [v[0]] + v[1..];
    }
  }

  lemma StackInjective(a: bool, x: bv32, b: bool, y: bv32)
    requires x < 0x8000_0000 && y < 0x8000_0000
    requires Stack(a, x) == Stack(b, y)
    ensures a == b && x == y
  {
    assert Stack(a, x) & 1 == BitWord(a) && Stack(b, y) & 1 == BitWord(b);
  }

  lemma FeedBitInjective(a: bv32, b: bv32, bit: bool)
    requires FeedBit(a, bit) == FeedBit(b, bit)
    ensures a == b
  {
    hide Step;
    hide Mix;
    StepInjective(Mix(a, BitWord(bit)), Mix(b, BitWord(bit)));
    MixCancel(a, b, BitWord(bit));
  }

  lemma MixCancel(a: bv32, b: bv32, x: bv32)
    ensures Mix(a, x) == Mix(b, x) ==> a == b
    ensures Mix(x, a) == Mix(x, b) ==> a == b
  {
  }

  lemma {:induction false} FeedInjective(a: bv32, b: bv32, bits: seq<bool>)
    requires Feed(a, bits) == Feed(b, bits)
    ensures a == b
    decreases |bits|
  {
    hide FeedBit;
    if bits != [] {
      FeedInjective(FeedBit(a, bits[0]), FeedBit(b, bits[0]), bits[1..]);
      FeedBitInjective(a, b, bits[0]);
    }
  }

  /** Bit strings that differ only within 32 consecutive bits leave different registers. */
  lemma BurstMovesRegister(c: bv32, p: seq<bool>, u: seq<bool>, v: seq<bool>, q: seq<bool>)
    requires |u| == |v| <= 32 && u != v
    ensures Feed(c, p + u + q) != Feed(c, p + v + q)
  {
    hide Feed;
    hide Steps;
    hide Word;
    hide Mix;
    var s := Feed(c, p);
    FeedSplit(c, p + u, q);
    FeedSplit(c, p, u);
    FeedSplit(c, p + v, q);
    FeedSplit(c, p, v);
    if Feed(c, p + u + q) == Feed(c, p + v + q) {
      FeedInjective(Feed(s, u), Feed(s, v), q);
      FeedIsSteps(s, u);
      FeedIsSteps(s, v);
      StepsInjective(Mix(s, Word(u)), Mix(s, Word(v)), |u|);
      MixCancel(Word(u), Word(v), s);
      WordInjective(u, v);
    }
  }

  /**
   * The CRC-32 of two byte strings of equal length differs whenever all their differing bits lie
   * within 32 consecutive ones, wherever in the strings and however aligned.
   */
  lemma BurstDetected(x: seq<byte>, y: seq<byte>, at: nat, width: nat)
    requires |x| == |y| && x != y && width <= 32 && at + width <= 8 * |x|
    requires Bits(x)[..at] == Bits(y)[..at] && Bits(x)[at + width..] == Bits(y)[at + width..]
    ensures Crc(x) != Crc(y)
  {
    hide Bits;
    hide Feed;
    hide Register;
    hide Mix;
    var p, q := Bits(x)[..at], Bits(x)[at + width..];
    var u, v := Bits(x)[at..at + width], Bits(y)[at..at + width];
    assert Bits(x) == p + u + q && Bits(y) == p + v + q;
    if Bits(x) == Bits(y) {
      BitsInjective(x, y);
    }
    BurstMovesRegister(SEED, p, u, v, q);
    RegisterIsFeed(SEED, x);
    RegisterIsFeed(SEED, y);
    MixCancel(Register(SEED, x), Register(SEED, y), 0xFFFF_FFFF);
  }

  lemma BitsOfInjective(a: byte, b: byte)
    requires BitsOf(a) == BitsOf(b)
    ensures a == b
  {
    var s, t := BitsOf(a), BitsOf(b);
    assert s[0] == t[0] && s[1] == t[1] && s[2] == t[2] && s[3] == t[3];
    assert s[4] == t[4] && s[5] == t[5] && s[6] == t[6] && s[7] == t[7];
  }

  lemma {:induction false} BitsInjective(x: seq<byte>, y: seq<byte>)
    requires |x| == |y| && Bits(x) == Bits(y)
    ensures x == y
    decreases |x|
  {
    hide BitsOf;
    if x != [] {
      var last := |x| - 1;
      assert Bits(x)[..8 * last] == Bits(x[..last]) && Bits(y)[..8 * last] == Bits(y[..last]);
      assert Bits(x)[8 * last..] == BitsOf(x[last]) && Bits(y)[8 * last..] == BitsOf(y[last]);
      BitsInjective(x[..last], y[..last]);
      BitsOfInjective(x[last], y[last]);
      assert x == x[..last] + [x[last]] && y == y[..last] + [y[last]];
    }
  }

  lemma {:induction false} BitsConcat(x: seq<byte>, y: seq<byte>)
    ensures Bits(x + y) == Bits(x) + Bits(y)
    decreases |y|
  {
    hide BitsOf;
    if y == [] {
      assert x + y == x;
    } else {
      assert (x + y)[..|x + y| - 1] == x + y[..|y| - 1];
      BitsConcat(x, y[..|y| - 1]);
    }
  }

  /** In particular every change within four consecutive bytes is detected. */
  lemma FourByteChangeDetected(p: seq<byte>, x: seq<byte>, y: seq<byte>, q: seq<byte>)
    requires |x| == |y| <= 4 && x != y
    ensures Crc(p + x + q) != Crc(p + y + q)
  {
    hide Bits;
    hide Crc;
    BitsConcat(p + x, q);
    BitsConcat(p, x);
    BitsConcat(p + y, q);
    BitsConcat(p, y);
    var at, width := 8 * |p|, 8 * |x|;
    assert Bits(p + x + q)[..at] == Bits(p) == Bits(p + y + q)[..at];
    assert Bits(p + x + q)[at + width..] == Bits(q) == Bits(p + y + q)[at + width..];
    assert (p + x + q)[|p|..|p| + |x|] == x && (p + y + q)[|p|..|p| + |x|] == y;
    BurstDetected(p + x + q, p + y + q, at, width);
  }

  // ----- a message behind its own checksum -----

  /** The lowest byte of a word, and the word without it. */
  function LowByte(w: bv32): byte {
    (w & 0xFF) as byte
  }

  function Rest(w: bv32): bv32 {
    w >> 8
  }

  /** The four bytes of a word, lowest first. */
  function WordLe(w: bv32): (s: seq<byte>)
    ensures |s| == 4
  {
    [LowByte(w), LowByte(Rest(w)), LowByte(Rest(Rest(w))), LowByte(Rest(Rest(Rest(w))))]
  }

  /** A step moves a word above its lowest bit down; eight of them move it down by a byte. */
  lemma EightStepsLinear(c: bv32, y: bv32, y1: bv32, y2: bv32, y3: bv32, y4: bv32, y5: bv32, y6: bv32, y7: bv32)
    requires y1 == y << 1 && y2 == y1 << 1 && y3 == y2 << 1 && y4 == y3 << 1
    requires y5 == y4 << 1 && y6 == y5 << 1 && y7 == y6 << 1
    requires y < 0x8000_0000 && y1 < 0x8000_0000 && y2 < 0x8000_0000 && y3 < 0x8000_0000
    requires y4 < 0x8000_0000 && y5 < 0x8000_0000 && y6 < 0x8000_0000 && y7 < 0x8000_0000
    ensures Eight(Mix(c, y7 << 1)) == Mix(Eight(c), y)
  {
    hide Step;
    hide Mix;
    StepLinear(c, y7);
    StepLinear(Step(c), y6);
    StepLinear(Step(Step(c)), y5);
    StepLinear(Step(Step(Step(c))), y4);
    StepLinear(Step(Step(Step(Step(c)))), y3);
    StepLinear(Step(Step(Step(Step(Step(c))))), y2);
    StepLinear(Step(Step(Step(Step(Step(Step(c)))))), y1);
    StepLinear(Step(Step(Step(Step(Step(Step(Step(c))))))), y);
  }

  /** Eight steps, written out. */
  function Eight(c: bv32): bv32 {
    Step(Step(Step(Step(Step(Step(Step(Step(c))))))))
  }

  lemma EightIs(c: bv32)
    ensures Steps(c, 8) == Eight(c)
  {
    hide Step;
    var c4 := Step(Step(Step(Step(c))));
    assert Steps(c, 8) == Steps(Step(Step(c)), 6) == Steps(c4, 4);
    assert Steps(c4, 4) == Steps(Step(Step(c4)), 2);
  }

  lemma ShiftsFit(y: bv32)
    requires y & 0xFF00_0000 == 0
    ensures y < 0x8000_0000 && y << 1 < 0x8000_0000 && (y << 1) << 1 < 0x8000_0000
            && ((y << 1) << 1) << 1 < 0x8000_0000 && (((y << 1) << 1) << 1) << 1 < 0x8000_0000
            && ((((y << 1) << 1) << 1) << 1) << 1 < 0x8000_0000
            && (((((y << 1) << 1) << 1) << 1) << 1) << 1 < 0x8000_0000
            && ((((((y << 1) << 1) << 1) << 1) << 1) << 1) << 1 < 0x8000_0000
  {
  }

  lemma EightLinear(c: bv32, y: bv32)
    requires y & 0xFF00_0000 == 0
    ensures Eight(Mix(c, (((((((y << 1) << 1) << 1) << 1) << 1) << 1) << 1) << 1)) == Mix(Eight(c), y)
  {
    hide Eight;
    hide Mix;
    ShiftsFit(y);
    var y1 := y << 1;
    var y2 := y1 << 1;
    var y3 := y2 << 1;
    var y4 := y3 << 1;
    var y5 := y4 << 1;
    var y6 := y5 << 1;
    EightStepsLinear(c, y, y1, y2, y3, y4, y5, y6, y6 << 1);
  }

  lemma WordParts(w: bv32)
    ensures var y := Rest(w);
            y & 0xFF00_0000 == 0
            && w == Mix(LowByte(w) as bv32, (((((((y << 1) << 1) << 1) << 1) << 1) << 1) << 1) << 1)
  {
  }

  /** Mixing in a whole word and stepping by a byte is taking its lowest byte and mixing in the rest. */
  lemma ByteOff(c: bv32, w: bv32)
    ensures Eight(Mix(c, w)) == Mix(Update(c, LowByte(w)), Rest(w))
  {
    WordParts(w);
    EightIs(Mix(c, LowByte(w) as bv32));
    hide Eight;
    hide Steps;
    hide Mix;
    hide LowByte;
    hide Rest;
    var y := Rest(w);
    MixAssociates(c, LowByte(w) as bv32, (((((((y << 1) << 1) << 1) << 1) << 1) << 1) << 1) << 1);
    EightLinear(Mix(c, LowByte(w) as bv32), y);
  }

  lemma RestGone(w: bv32)
    ensures Rest(Rest(Rest(Rest(w)))) == 0
  {
  }

  /** Taking the four bytes of a word is mixing it in and stepping 32 times. */
  lemma WordTaken(c: bv32, w: bv32)
    ensures Register(c, WordLe(w)) == Eight(Eight(Eight(Eight(Mix(c, w)))))
  {
    var w1 := Rest(w);
    var w2 := Rest(w1);
    var w3 := Rest(w2);
    RegisterOfFour(c, LowByte(w), LowByte(w1), LowByte(w2), LowByte(w3));
    RestGone(w);
    hide Register;
    hide Eight;
    hide Mix;
    hide Rest;
    hide LowByte;
    hide Update;
    var c1 := Update(c, LowByte(w));
    var c2 := Update(c1, LowByte(w1));
    var c3 := Update(c2, LowByte(w2));
    ByteOff(c, w);
    ByteOff(c1, w1);
    ByteOff(c2, w2);
    ByteOff(c3, w3);
    MixZero(Update(c3, LowByte(w3)));
  }

  lemma RegisterOfOne(c: bv32, b: byte)
    ensures Register(c, [b]) == Update(c, b)
  {
    hide Update;
    assert [b][..0] == [];
  }

  lemma RegisterOfFour(c: bv32, a: byte, b: byte, d: byte, e: byte)
    ensures Register(c, [a, b, d, e]) == Update(Update(Update(Update(c, a), b), d), e)
  {
    hide Update;
    RegisterOfOne(c, a);
    assert [a, b] == [a] + [b] && [a, b, d] == [a, b] + [d] && [a, b, d, e] == [a, b, d] + [e];
    RegisterSplit(c, [a], [b]);
    RegisterSplit(c, [a, b], [d]);
    RegisterSplit(c, [a, b, d], [e]);
    RegisterOfOne(Register(c, [a]), b);
    RegisterOfOne(Register(c, [a, b]), d);
    RegisterOfOne(Register(c, [a, b, d]), e);
    hide Register;
  }

  lemma {:induction false} RegisterSplit(c: bv32, s: seq<byte>, t: seq<byte>)
    ensures Register(c, s + t) == Register(Register(c, s), t)
    decreases |t|
  {
    hide Update;
    if t == [] {
      assert s + t == s;
    } else {
      assert (s + t)[..|s + t| - 1] == s + t[..|t| - 1];
      RegisterSplit(c, s, t[..|t| - 1]);
    }
  }

  /** What the register holds after any message followed by its own checksum. */
  const RESIDUE: bv32 := 0xFFFF_FFFF

  lemma SealedMix(c: bv32)
    ensures Mix(c, Mix(c, 0xFFFF_FFFF)) == 0xFFFF_FFFF
  {
  }

  /** Four bytes behind a message are its checksum exactly when the register ends at one fixed value. */
  lemma SealedIff(s: seq<byte>, w: seq<byte>)
    requires |w| == 4
    ensures Register(SEED, s + w) == Eight(Eight(Eight(Eight(RESIDUE)))) <==> w == WordLe(Crc(s))
  {
    var own := WordLe(Crc(s));
    WordTaken(Register(SEED, s), Crc(s));
    SealedMix(Register(SEED, s));
    RegisterSplit(SEED, s, own);
    if w != own {
      FourByteChangeDetected(s, w, own, []);
      assert s + w + [] == s + w && s + own + [] == s + own;
    }
    hide Register;
    hide WordLe;
    hide Eight;
  }

  /** A message with its checksum behind it, changed within 32 consecutive bits anywhere, no longer matches. */
  lemma SealedBurstDetected(s: seq<byte>, w: seq<byte>, t: seq<byte>, v: seq<byte>, at: nat, width: nat)
    requires |s| == |t| && |w| == |v| == 4 && s + w != t + v && w == WordLe(Crc(s))
    requires width <= 32 && at + width <= 8 * |s + w|
    requires Bits(s + w)[..at] == Bits(t + v)[..at] && Bits(s + w)[at + width..] == Bits(t + v)[at + width..]
    ensures v != WordLe(Crc(t))
  {
    SealedIff(s, w);
    SealedIff(t, v);
    BurstDetected(s + w, t + v, at, width);
    hide Register;
    hide WordLe;
    hide Eight;
    hide Bits;
  }

  // ----- the changes that go unnoticed -----

  /** The exponents of the generator polynomial of CRC-32. */
  predicate Exponent(e: int) {
    e == 32 || e == 26 || e == 23 || e == 22 || e == 16 || e == 12 || e == 11 || e == 10 || e == 8 || e == 7 || e == 5
    || e == 4 || e == 2 || e == 1 || e == 0
  }

  /** Whether the bit that stands for x to the power 32 - i is in it. */
  predicate Coefficient(i: int) {
    Exponent(32 - i)
  }

  function Coefficients(from: nat): (s: seq<bool>)
    requires from <= 33
    ensures |s| == 33 - from && forall i :: 0 <= i < |s| ==> s[i] == Coefficient(from + i)
    decreases 33 - from
  {
    if from == 33 then [] else [Coefficient(from)] + Coefficients(from + 1)
  }

  /** The word of the coefficients from x to the power 31 on. */
  lemma CoefficientsWord()
    ensures Word(Coefficients(1)) == POLYNOMIAL
  {
    LowTail();
    hide Word;
    hide Coefficients;
    hide Stack;
    TailWord(13, 0xE_DB88);
    TailWord(9, 0xED_B883);
    TailWord(5, 0xEDB_8832);
    TailWord(1, 0xEDB8_8320);
  }

  lemma LowTail()
    ensures Word(Coefficients(17)) == 0xEDB8
  {
    assert Word(Coefficients(33)) == 0;
    hide Word;
    hide Coefficients;
    hide Stack;
    TailWord(29, 0xE);
    TailWord(25, 0xED);
    TailWord(21, 0xEDB);
    TailWord(17, 0xEDB8);
  }

  /** Four coefficients as the lowest bits of a word. */
  predicate Nibble(from: nat, w: bv32) {
    && Low(w) == Coefficient(from) && Low(Down(w)) == Coefficient(from + 1)
    && Low(Down(Down(w))) == Coefficient(from + 2) && Low(Down(Down(Down(w)))) == Coefficient(from + 3)
  }

  lemma TailWord(from: nat, w: bv32)
    requires from <= 29
    requires Word(Coefficients(from + 4)) == Down(Down(Down(Down(w)))) && Nibble(from, w)
    ensures Word(Coefficients(from)) == w
  {
    hide Stack;
    hide Coefficient;
    WordCons(Coefficient(from), Coefficients(from + 1));
    WordCons(Coefficient(from + 1), Coefficients(from + 2));
    WordCons(Coefficient(from + 2), Coefficients(from + 3));
    WordCons(Coefficient(from + 3), Coefficients(from + 4));
    hide Word;
    StackFour(Coefficient(from), Coefficient(from + 1), Coefficient(from + 2), Coefficient(from + 3), w);
  }

  lemma StackFour(a: bool, b: bool, c: bool, d: bool, w: bv32)
    requires Low(w) == a && Low(Down(w)) == b && Low(Down(Down(w))) == c && Low(Down(Down(Down(w)))) == d
    ensures Stack(a, Stack(b, Stack(c, Stack(d, Down(Down(Down(Down(w)))))))) == w
  {
    hide Stack;
    hide Low;
    hide Down;
    StackOne(w);
    StackOne(Down(w));
    StackOne(Down(Down(w)));
    StackOne(Down(Down(Down(w))));
  }

  lemma StackOne(w: bv32)
    ensures Stack(Low(w), Down(w)) == w
  {
  }

  lemma MixFour(a: bv32, x: bv32, b: bv32, y: bv32)
    ensures Mix(Mix(a, x), Mix(b, y)) == Mix(Mix(a, b), Mix(x, y))
  {
    hide Mix;
    MixAssociates(Mix(a, x), b, y);
    MixSwap(a, x, b);
    MixAssociates(Mix(a, b), x, y);
  }

  function Twice(y: bv32): bv32 {
    y << 1
  }

  lemma MixTwice(x: bv32, y: bv32)
    ensures Mix(Twice(x), Twice(y)) == Twice(Mix(x, y))
  {
  }

  lemma StackIs(bit: bool, y: bv32)
    ensures Stack(bit, y) == Mix(BitWord(bit), Twice(y))
  {
    hide Mix;
    hide BitWord;
  }

  lemma MixBits(a: bool, b: bool)
    ensures Mix(BitWord(a), BitWord(b)) == BitWord(a != b)
  {
  }

  lemma MixOfStacks(a: bool, x: bv32, b: bool, y: bv32)
    ensures Mix(Stack(a, x), Stack(b, y)) == Stack(a != b, Mix(x, y))
  {
    hide *;
    StackIs(a, x);
    StackIs(b, y);
    StackIs(a != b, Mix(x, y));
    MixFour(BitWord(a), Twice(x), BitWord(b), Twice(y));
    MixBits(a, b);
    MixTwice(x, y);
  }

  /** The places where two bit strings differ. */
  function Differences(u: seq<bool>, v: seq<bool>): (s: seq<bool>)
    requires |u| == |v|
    ensures |s| == |u| && forall i :: 0 <= i < |s| ==> s[i] == (u[i] != v[i])
  {
    if u == [] then [] else [u[0] != v[0]] + Differences(u[1..], v[1..])
  }

  lemma {:induction false} WordOfDifferences(u: seq<bool>, v: seq<bool>)
    requires |u| == |v| <= 32
    ensures Word(Differences(u, v)) == Mix(Word(u), Word(v))
    decreases |u|
  {
    hide Stack;
    hide Mix;
    if u == [] {
      MixZero(0);
    } else {
      WordOfDifferences(u[1..], v[1..]);
      MixOfStacks(u[0], Word(u[1..]), v[0], Word(v[1..]));
      assert Differences(u, v)[1..] == Differences(u[1..], v[1..]);
    }
  }

  lemma FlippedLow(c: bv32)
    ensures Low(Mix(c, 1)) == !Low(c) && Down(Mix(c, 1)) == Down(c)
  {
  }

  lemma FeedBitDiffers(c: bv32)
    ensures Mix(FeedBit(c, false), FeedBit(c, true)) == POLYNOMIAL
  {
    var d := Down(c);
    FlippedLow(c);
    MixZero(c);
    MixSelf(d);
    MixZero(POLYNOMIAL);
    hide Mix;
    hide Low;
    hide Down;
    MixAssociates(d, d, POLYNOMIAL);
    MixCommutes(d, Mix(d, POLYNOMIAL));
    MixCommutes(0, POLYNOMIAL);
  }

  lemma MixSolved(a: bv32, b: bv32, x: bv32, y: bv32)
    ensures Mix(a, x) == Mix(b, y) <==> Mix(a, b) == Mix(x, y)
  {
    hide Mix;
    MixFour(a, x, b, y);
    MixNothing(Mix(a, x), Mix(b, y));
    MixNothing(Mix(a, b), Mix(x, y));
    MixSelf(Mix(a, x));
    MixSelf(Mix(a, b));
  }

  lemma MixSelf(a: bv32)
    ensures Mix(a, a) == 0
  {
  }

  lemma MixNothing(a: bv32, b: bv32)
    ensures Mix(a, b) == 0 ==> a == b
  {
  }

  lemma FeedFirst(c: bv32, u: seq<bool>)
    requires u != []
    ensures Feed(c, u) == Feed(FeedBit(c, u[0]), u[1..])
  {
  }

  lemma FirstBits(c: bv32, a: bool, b: bool)
    ensures Mix(FeedBit(c, a), FeedBit(c, b)) == if a == b then 0 else POLYNOMIAL
  {
    FeedBitDiffers(c);
    MixSelf(FeedBit(c, a));
    MixCommutes(FeedBit(c, a), FeedBit(c, b));
    hide Mix;
    hide FeedBit;
  }

  /** After their first bits, strings of 33 bits leave the same register exactly if their rest makes up for those. */
  lemma Feed33(c: bv32, u: seq<bool>, v: seq<bool>)
    requires |u| == |v| == 33
    ensures Feed(c, u) == Feed(c, v) <==>
            Word(Differences(u[1..], v[1..])) == if u[0] == v[0] then 0 else POLYNOMIAL
  {
    hide *;
    var a, b, s, t := FeedBit(c, u[0]), FeedBit(c, v[0]), u[1..], v[1..];
    FeedFirst(c, u);
    FeedFirst(c, v);
    FeedIsSteps(a, s);
    FeedIsSteps(b, t);
    if Feed(a, s) == Feed(b, t) {
      StepsInjective(Mix(a, Word(s)), Mix(b, Word(t)), 32);
    }
    MixSolved(a, b, Word(s), Word(t));
    FirstBits(c, u[0], v[0]);
    WordOfDifferences(s, t);
  }

  /** Two different strings of 33 bits leave the same register exactly if they differ in the generator's places. */
  lemma Feed33Iff(c: bv32, u: seq<bool>, v: seq<bool>)
    requires |u| == |v| == 33 && u != v
    ensures Feed(c, u) == Feed(c, v) <==> forall i :: 0 <= i < 33 ==> ((u[i] != v[i]) == Coefficient(i))
  {
    hide *;
    var d := Differences(u[1..], v[1..]);
    Feed33(c, u, v);
    FirstCoefficient();
    if u[0] == v[0] {
      assert u == [u[0]] + u[1..] && v == [v[0]] + v[1..];
      SomeDifference(u[1..], v[1..]);
    } else {
      CoefficientsWord();
      if Word(d) == POLYNOMIAL {
        WordInjective(d, Coefficients(1));
      }
      DifferIn(u, v, d);
    }
  }

  lemma FirstCoefficient()
    ensures Coefficient(0)
  {
  }

  lemma SomeDifference(s: seq<bool>, t: seq<bool>)
    requires |s| == |t| == 32 && s != t
    ensures Word(Differences(s, t)) != 0
  {
    hide Mix;
    hide Stack;
    if Word(Differences(s, t)) == 0 {
      WordOfDifferences(s, t);
      MixNothing(Word(s), Word(t));
      WordInjective(s, t);
    }
  }

  lemma DifferIn(u: seq<bool>, v: seq<bool>, d: seq<bool>)
    requires |u| == |v| == 33 && u[0] != v[0] && d == Differences(u[1..], v[1..]) && Coefficient(0)
    ensures d == Coefficients(1) <==> forall i :: 0 <= i < 33 ==> ((u[i] != v[i]) == Coefficient(i))
  {
    hide Coefficient;
    if d == Coefficients(1) {
      forall i | 0 <= i < 33
        ensures (u[i] != v[i]) == Coefficient(i)
      {
        if i > 0 {
          assert d[i - 1] == Coefficients(1)[i - 1];
        }
      }
    }
    if forall i :: 0 <= i < 33 ==> ((u[i] != v[i]) == Coefficient(i)) {
      forall i | 0 <= i < 32
        ensures d[i] == Coefficients(1)[i]
      {
        assert (u[i + 1] != v[i + 1]) == Coefficient(i + 1);
      }
    }
  }

  /** A change within 33 consecutive bits goes unnoticed exactly if it is that of the generator polynomial. */
  lemma UnnoticedIff(x: seq<byte>, y: seq<byte>, at: nat)
    requires |x| == |y| && x != y && at + 33 <= 8 * |x|
    requires Bits(x)[..at] == Bits(y)[..at] && Bits(x)[at + 33..] == Bits(y)[at + 33..]
    ensures Crc(x) == Crc(y) <==>
            forall i :: 0 <= i < 33 ==> ((Bits(x)[at + i] != Bits(y)[at + i]) == Coefficient(i))
  {
    hide Bits;
    hide Feed;
    hide Register;
    hide Mix;
    hide Coefficient;
    var p, q := Bits(x)[..at], Bits(x)[at + 33..];
    var u, v := Bits(x)[at..at + 33], Bits(y)[at..at + 33];
    assert Bits(x) == p + u + q && Bits(y) == p + v + q;
    if Bits(x) == Bits(y) {
      BitsInjective(x, y);
    }
    var s := Feed(SEED, p);
    FeedSplit(SEED, p + u, q);
    FeedSplit(SEED, p, u);
    FeedSplit(SEED, p + v, q);
    FeedSplit(SEED, p, v);
    RegisterIsFeed(SEED, x);
    RegisterIsFeed(SEED, y);
    MixCancel(Register(SEED, x), Register(SEED, y), 0xFFFF_FFFF);
    if Feed(Feed(s, u), q) == Feed(Feed(s, v), q) {
      FeedInjective(Feed(s, u), Feed(s, v), q);
    }
    Feed33Iff(s, u, v);
    assert forall i :: 0 <= i < 33 ==> u[i] == Bits(x)[at + i] && v[i] == Bits(y)[at + i];
  }

  /** Two values: that of no bytes, and that of one zero byte. */
  lemma KnownValues()
    ensures Crc([]) == 0 && Crc([0]) == 0xD202_EF8D
  {
    assert Register(SEED, []) == SEED;
    RegisterOfOne(SEED, 0);
    EightIs(Mix(SEED, 0));
    hide Steps;
    hide Register;
    EightOfSeed();
    hide Eight;
  }

  lemma EightOfSeed()
    ensures Mix(SEED, 0) == 0xFFFF_FFFF && Eight(0xFFFF_FFFF) == 0x2DFD_1072
  {
  }
}
