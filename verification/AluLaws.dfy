/**
 * What the arithmetic instructions do, as laws about numbers: sums, products and quotients, shifts as multiplication
 * and floor division by powers of two, single bits, rotations and orders.
 */
module AluLaws {
  import opened Bytes
  import opened BitVectors
  import opened Words
  import opened Alu

  /** Only the four divisions fail, and they by zero only. */
  lemma OnlyDivisionFails(op: BinOp, a: u32, b: u32)
    ensures Apply(op, a, b).None? <==> b == 0 && (op.DivS? || op.DivU? || op.RemS? || op.RemU?)
  {
    hide Bitwise;
    hide Shift;
    hide Compare;
    hide ToWord;
    hide Num;
  }

  // ----- sums, products, quotients -----

  /** The sum is exact but for a carry out of 32 bits. */
  lemma SumLaw(a: u32, b: u32)
    ensures exists carry :: 0 <= carry <= 1 && Apply(Add, a, b) == Some(a + b - carry * WORD_LIMIT)
  {
    var carry := if a + b < WORD_LIMIT then 0 else 1;
    WrapCarry(a + b, carry);
    assert Apply(Add, a, b) == Some(a + b - carry * WORD_LIMIT);
  }

  lemma WrapCarry(x: int, carry: int)
    requires 0 <= x - carry * WORD_LIMIT < WORD_LIMIT
    ensures Wrap(x) == x - carry * WORD_LIMIT
  {
  }

  /** Adding undoes subtracting, and the other way round. */
  lemma DifferenceLaw(a: u32, b: u32)
    ensures Apply(Sub, a, b).Some? && Apply(Add, Apply(Sub, a, b).value, b) == Some(a)
    ensures Apply(Add, a, b).Some? && Apply(Sub, Apply(Add, a, b).value, b) == Some(a)
  {
    var less, more := if a >= b then 0 else -1, if a + b < WORD_LIMIT then 0 else 1;
    WrapCarry(a - b, less);
    WrapCarry(a + b, more);
    WrapCarry(a - b - less * WORD_LIMIT + b, -less);
    WrapCarry(a + b - more * WORD_LIMIT - b, -more);
  }

  /** Multiplying is repeated adding. */
  lemma ProductLaw(a: u32, b: u32)
    ensures Apply(Mul, a, 0) == Some(0)
    ensures b > 0 ==> Apply(Mul, a, b - 1).Some? && Apply(Mul, a, b) == Apply(Add, Apply(Mul, a, b - 1).value, a)
  {
    if b > 0 {
      assert a * b == a * (b - 1) + a;
      AddWrapped(a * (b - 1), a);
    }
  }

  lemma AddWrapped(x: int, a: int)
    ensures Wrap(Wrap(x) + a) == Wrap(x + a)
  {
    var q, r := x / WORD_LIMIT, x % WORD_LIMIT;
    var s, t := (r + a) / WORD_LIMIT, (r + a) % WORD_LIMIT;
    assert x + a == WORD_LIMIT * (q + s) + t;
    QuotientIs(x + a, WORD_LIMIT, q + s, t);
  }

  /** Unsigned quotient and remainder. */
  lemma QuotientLaw(a: u32, b: u32)
    requires b > 0
    ensures var q, r := Apply(DivU, a, b), Apply(RemU, a, b);
            q.Some? && r.Some? && a == q.value * b + r.value && r.value < b
  {
  }

  // ----- shifts -----

  lemma CountIs(b: u32)
    ensures ShiftCount(b) == Count(b % 32)
  {
    LowFiveRemain(ToWord(b));
    BackAndThere(b);
    CountOfNum(ShiftCount(b));
    hide Num;
    hide ToWord;
    hide Count;
  }

  /** Shifting left multiplies by a power of two, modulo 2^32; shifting right divides by it, rounding down. */
  lemma ShiftLaw(a: u32, b: u32)
    ensures Apply(Shl, a, b) == Some(Wrap(a * Pow2(b % 32)))
    ensures Apply(ShrU, a, b) == Some(a / Pow2(b % 32))
  {
    var w, n := ToWord(a), b % 32;
    CountIs(b);
    BackAndThere(a);
    LeftMultiplies(w, n);
    RightDivides(w, n);
    ApplyShifts(a, b);
    hide Num;
    hide ToWord;
    hide Count;
    hide ShiftLeft;
    hide ShiftRight;
    hide Apply;
    hide ShiftCount;
    hide Pow2;
  }

  lemma ApplyShifts(a: u32, b: u32)
    ensures Apply(Shl, a, b) == Some(Num(ShiftLeft(ToWord(a), ShiftCount(b))))
    ensures Apply(ShrU, a, b) == Some(Num(ShiftRight(ToWord(a), ShiftCount(b))))
    ensures Apply(ShrS, a, b) == Some(Num(ShiftRightSigned(ToWord(a), ShiftCount(b))))
    ensures Apply(RotL, a, b) == Some(Num(RotateLeft(ToWord(a), ShiftCount(b))))
    ensures Apply(RotR, a, b) == Some(Num(RotateRight(ToWord(a), ShiftCount(b))))
  {
    hide ShiftCount;
    ApplyShift(Shl, a, b);
    ApplyShift(ShrU, a, b);
    ApplyShift(ShrS, a, b);
    ApplyShift(RotL, a, b);
    ApplyShift(RotR, a, b);
    ShiftIs(ToWord(a), ShiftCount(b));
    hide *;
  }

  lemma ApplyShift(op: BinOp, a: u32, b: u32)
    requires op.Shl? || op.ShrS? || op.ShrU? || op.RotL? || op.RotR?
    ensures Apply(op, a, b) == Some(Num(Shift(op, ToWord(a), ShiftCount(b))))
  {
    hide Num;
    hide ToWord;
    hide ShiftCount;
    hide Shift;
  }

  lemma ShiftIs(w: bv32, v: bv32)
    requires v < 32
    ensures Shift(Shl, w, v) == ShiftLeft(w, v) && Shift(ShrU, w, v) == ShiftRight(w, v)
    ensures Shift(ShrS, w, v) == ShiftRightSigned(w, v)
    ensures Shift(RotL, w, v) == RotateLeft(w, v) && Shift(RotR, w, v) == RotateRight(w, v)
  {
    hide ShiftRightSigned;
    hide RotateLeft;
    hide RotateRight;
  }

  /** The signed right shift divides the signed operand, rounding down. */
  lemma SignedShiftLaw(a: u32, b: u32)
    ensures Apply(ShrS, a, b).Some? && Signed(Apply(ShrS, a, b).value) == Signed(a) / Pow2(b % 32)
  {
    SignedShiftIs(a, b);
    SignedDivides(ToWord(a), b % 32);
    BackAndThere(a);
    hide *;
  }

  /** The signed value of a word shifted. */
  function ShiftedValue(w: bv32, n: nat): int
    requires n < 32
  {
    SignedNum(ShiftRightSigned(w, Count(n)))
  }

  function SignedNum(w: bv32): int {
    Signed(Num(w))
  }

  lemma SignedShiftIs(a: u32, b: u32)
    ensures Apply(ShrS, a, b).Some? && Signed(Apply(ShrS, a, b).value) == ShiftedValue(ToWord(a), b % 32)
    ensures SignedNum(ToWord(a)) == Signed(a)
  {
    CountIs(b);
    BackAndThere(a);
    ApplyShifts(a, b);
    hide Apply;
    hide Signed;
    hide Num;
    hide ToWord;
    hide Count;
    hide ShiftCount;
    hide ShiftRightSigned;
  }

  lemma {:induction false} SignedDivides(w: bv32, n: nat)
    requires n < 32
    ensures ShiftedValue(w, n) == SignedNum(w) / Pow2(n)
    decreases n
  {
    hide *;
    PowNext(if n == 0 then 0 else n - 1);
    if n == 0 {
      ShiftedByNone(w);
    } else {
      SignedDivides(w, n - 1);
      ShiftedOnce(w, n - 1);
      HalveQuotient(SignedNum(w), Pow2(n - 1));
    }
  }

  lemma ShiftedByNone(w: bv32)
    ensures ShiftedValue(w, 0) == SignedNum(w)
  {
    NoSignedShift(w);
    hide SignedNum;
    hide ShiftRightSigned;
    hide Count;
  }

  lemma ShiftedOnce(w: bv32, n: nat)
    requires n < 31
    ensures ShiftedValue(w, n + 1) == ShiftedValue(w, n) / 2
  {
    OneMoreSignedShift(w, n);
    HalfSigned(ShiftRightSigned(w, Count(n)));
    hide Num;
    hide Signed;
    hide ShiftRightSigned;
    hide Halved;
    hide Count;
  }

  /** One place of a signed shift. */
  function Halved(w: bv32): bv32 {
    if High(w) then WithHigh(Upper(w)) else Upper(w)
  }

  lemma NoSignedShift(w: bv32)
    ensures ShiftRightSigned(w, Count(0)) == w
  {
    NotTwice(w);
    NoShift(w);
    NoShift(Not(w));
    hide High;
    hide Not;
    hide ShiftRight;
    hide Count;
  }

  lemma OneMoreSignedShift(w: bv32, n: nat)
    requires n < 31
    ensures ShiftRightSigned(w, Count(n + 1)) == Halved(ShiftRightSigned(w, Count(n)))
  {
    hide High;
    hide Not;
    hide ShiftRight;
    hide Upper;
    hide WithHigh;
    hide Count;
    if High(w) {
      SignStays(w, Count(n));
      OneMoreShift(Not(w), n);
      SignOnce(ShiftRight(Not(w), Count(n)));
    } else {
      OneMoreShift(w, n);
      StaysLow(w, Count(n));
    }
  }

  lemma StaysLow(w: bv32, v: bv32)
    requires v < 32 && !High(w)
    ensures !High(ShiftRight(w, v))
  {
  }

  lemma HalfSigned(w: bv32)
    ensures Signed(Num(Halved(w))) == Signed(Num(w)) / 2
  {
    HalvedIs(w);
    hide *;
    Half(w);
    HighIs(w);
    Rejoined(w);
    WithHighNum(Upper(w));
    SignedHalf(Num(w), Num(Upper(w)), Num(Halved(w)), High(w), Odd(w));
  }

  lemma HalvedIs(w: bv32)
    ensures Halved(w) == if High(w) then WithHigh(Upper(w)) else Upper(w)
  {
    hide High;
    hide Upper;
    hide WithHigh;
  }

  lemma SignedHalf(x: u32, h: u32, r: u32, high: bool, odd: bool)
    requires x == 2 * h + (if odd then 1 else 0) && (high <==> x >= 0x8000_0000)
    requires r == if high then h + 0x8000_0000 else h
    ensures Signed(r) == Signed(x) / 2
  {
  }

  // ----- single bits -----

  /** AND, OR and XOR work bit by bit. */
  lemma BitwiseLaw(a: u32, b: u32, i: nat)
    requires i < 32
    ensures var x, y, z := Apply(And, a, b), Apply(Or, a, b), Apply(Xor, a, b);
            && x.Some? && y.Some? && z.Some?
            && (Bit(x.value, i) <==> Bit(a, i) && Bit(b, i))
            && (Bit(y.value, i) <==> Bit(a, i) || Bit(b, i))
            && (Bit(z.value, i) <==> Bit(a, i) != Bit(b, i))
  {
    ApplyBits(And, a, b);
    ApplyBits(Or, a, b);
    ApplyBits(Xor, a, b);
    BitsOf(a, b, i);
    hide *;
  }

  lemma ApplyBits(op: BinOp, a: u32, b: u32)
    requires op.And? || op.Or? || op.Xor?
    ensures Apply(op, a, b) == Some(Num(Bitwise(op, ToWord(a), ToWord(b))))
  {
    hide Num;
    hide ToWord;
    hide Bitwise;
  }

  lemma BitsOf(a: u32, b: u32, i: nat)
    requires i < 32
    ensures Bit(Num(Bitwise(And, ToWord(a), ToWord(b))), i) <==> Bit(a, i) && Bit(b, i)
    ensures Bit(Num(Bitwise(Or, ToWord(a), ToWord(b))), i) <==> Bit(a, i) || Bit(b, i)
    ensures Bit(Num(Bitwise(Xor, ToWord(a), ToWord(b))), i) <==> Bit(a, i) != Bit(b, i)
  {
    hide ToWord;
    hide Num;
    hide Both;
    hide Either;
    hide Differing;
    hide At;
    hide Bit;
    hide Count;
    BackAndThere(a);
    BackAndThere(b);
    BitIs(ToWord(a), i);
    BitIs(ToWord(b), i);
    BitsMeet(ToWord(a), ToWord(b), i);
  }

  lemma BitsMeet(v: bv32, w: bv32, i: nat)
    requires i < 32
    ensures Bit(Num(Both(v, w)), i) <==> At(v, Count(i)) && At(w, Count(i))
    ensures Bit(Num(Either(v, w)), i) <==> At(v, Count(i)) || At(w, Count(i))
    ensures Bit(Num(Differing(v, w)), i) <==> At(v, Count(i)) != At(w, Count(i))
  {
    hide *;
    var n := Count(i);
    BitIs(Both(v, w), i);
    BitIs(Either(v, w), i);
    BitIs(Differing(v, w), i);
    AndAt(v, w, n);
    OrAt(v, w, n);
    XorAt(v, w, n);
  }

  lemma RotatedAt(w: bv32, n: nat, i: nat)
    requires n < 32 && i < 32
    ensures At(RotateLeft(w, Count(n)), Count((i + n) % 32)) <==> At(w, Count(i))
  {
    hide *;
    if n == 0 {
      NotRotated(w);
    } else if i + n < 32 {
      PlaceIs(i, n);
      RotatedIntoUpper(w, n, i);
    } else {
      PlaceIs(i, n);
      RotatedIntoLower(w, n, i);
    }
  }

  lemma PlaceIs(i: nat, n: nat)
    requires i < 32 && n < 32
    ensures (i + n) % 32 == if i + n < 32 then i + n else i + n - 32
  {
  }

  lemma NotRotated(w: bv32)
    ensures RotateLeft(w, Count(0)) == w && RotateRight(w, Count(0)) == w
  {
  }

  lemma CountLess(n: nat, m: nat)
    requires m <= n < 32
    ensures Count(m) <= Count(n) && Count(n) - Count(m) == Count(n - m)
  {
    hide *;
    CountOrder(n, m);
    DifferenceNum(Count(n), Count(m));
    SameNumber(Count(n) - Count(m), Count(n - m));
  }

  lemma {:induction false} CountOrder(n: nat, m: nat)
    requires m <= n < 32
    ensures Count(m) <= Count(n)
    decreases n - m
  {
    hide *;
    if m < n {
      CountOrder(n - 1, m);
      CountNext(n);
    }
  }

  lemma CountPositive(n: nat)
    requires 0 < n < 32
    ensures 0 < Count(n) && 32 - Count(n) == Count(32 - n)
  {
    hide *;
    CountNext(n);
    OppositeNum(Count(n));
    SameNumber(32 - Count(n), Count(32 - n));
  }

  lemma RotatedIntoUpper(w: bv32, n: nat, i: nat)
    requires 0 < n && i + n < 32
    ensures At(RotateLeft(w, Count(n)), Count(i + n)) <==> At(w, Count(i))
  {
    hide *;
    CountPositive(n);
    CountLess(i + n, n);
    UpperBits(w, Count(n), Count(i + n), Count(i));
  }

  lemma UpperBits(w: bv32, v: bv32, i: bv32, j: bv32)
    requires 0 < v <= i < 32 && j == i - v && j < 32
    ensures At(RotateLeft(w, v), i) <==> At(w, j)
  {
    RotatedUp(w, v, i, j);
    hide At;
    hide Rotated;
  }

  lemma RotatedIntoLower(w: bv32, n: nat, i: nat)
    requires n < 32 && i < 32 <= i + n
    ensures At(RotateLeft(w, Count(n)), Count(i + n - 32)) <==> At(w, Count(i))
  {
    hide *;
    CountPositive(n);
    CountLess(i, 32 - n);
    ShiftedTwice(w, 32 - n, i - (32 - n));
    AtIs(ShiftRight(w, Count(32 - n)), Count(i + n - 32));
    AtIs(w, Count(i));
    LowerBits(w, Count(n), Count(i), Count(32 - n), Count(i + n - 32));
  }

  lemma LowerBits(w: bv32, v: bv32, i: bv32, u: bv32, j: bv32)
    requires 0 < v < 32 && u == 32 - v && u <= i < 32 && j == i - u && j < 32 && u < 32
    ensures At(RotateLeft(w, v), j) <==> At(ShiftRight(w, u), j)
  {
    RotatedRound(w, v, u, i, j);
    hide At;
    hide Rotated;
    hide ShiftRight;
  }

  lemma RightIsLeft(w: bv32, n: nat)
    requires 0 < n < 32
    ensures RotateRight(w, Count(n)) == RotateLeft(w, Count(32 - n))
  {
    hide *;
    CountPositive(n);
    CountPositive(32 - n);
    RightIsOpposite(w, Count(n), Count(32 - n));
  }

  lemma RightIsOpposite(w: bv32, v: bv32, u: bv32)
    requires 0 < v < 32 && 0 < u < 32 && u == 32 - v
    ensures RotateRight(w, v) == RotateLeft(w, u)
  {
    Opposite(w, v, u);
    hide Rotated;
  }

  /** Rotations of numbers by fewer than 32 places. */
  function RotatedLeft(a: u32, n: nat): u32
    requires n < 32
  {
    Num(RotateLeft(ToWord(a), Count(n)))
  }

  function RotatedRight(a: u32, n: nat): u32
    requires n < 32
  {
    Num(RotateRight(ToWord(a), Count(n)))
  }

  lemma LeftRotationBit(w: bv32, n: nat, i: nat)
    requires n < 32 && i < 32
    ensures Bit(Num(RotateLeft(w, Count(n))), (i + n) % 32) <==> Bit(Num(w), i)
  {
    hide *;
    RotatedAt(w, n, i);
    BitIs(w, i);
    BitIs(RotateLeft(w, Count(n)), (i + n) % 32);
  }

  lemma LeftBit(a: u32, n: nat, i: nat)
    requires n < 32 && i < 32
    ensures Bit(RotatedLeft(a, n), (i + n) % 32) <==> Bit(a, i)
  {
    BackAndThere(a);
    LeftRotationBit(ToWord(a), n, i);
    hide Bit;
    hide Num;
    hide ToWord;
    hide Count;
    hide RotateLeft;
  }

  lemma RightAsLeft(a: u32, n: nat)
    requires n < 32
    ensures RotatedRight(a, n) == RotatedLeft(a, if n == 0 then 0 else 32 - n)
  {
    if n == 0 {
      NotRotated(ToWord(a));
    } else {
      RightIsLeft(ToWord(a), n);
    }
    hide Num;
    hide ToWord;
    hide Count;
    hide RotateLeft;
    hide RotateRight;
  }

  lemma RightBit(a: u32, n: nat, i: nat)
    requires n < 32 && i < 32
    ensures Bit(RotatedRight(a, n), i) <==> Bit(a, (i + n) % 32)
  {
    hide *;
    RightAsLeft(a, n);
    PlaceIs(i, n);
    var j := (i + n) % 32;
    if n == 0 {
      LeftBit(a, 0, i);
    } else {
      PlaceIs(j, 32 - n);
      LeftBit(a, 32 - n, j);
    }
  }

  lemma RotationIs(a: u32, b: u32)
    ensures Apply(RotL, a, b) == Some(RotatedLeft(a, b % 32)) && Apply(RotR, a, b) == Some(RotatedRight(a, b % 32))
  {
    CountIs(b);
    ApplyShifts(a, b);
    hide Apply;
    hide Num;
    hide ToWord;
    hide Count;
    hide ShiftCount;
    hide RotateLeft;
    hide RotateRight;
  }

  /** ROTL moves bit i to place (i + b) mod 32, and ROTR moves it back. */
  lemma RotationLaw(a: u32, b: u32, i: nat)
    requires i < 32
    ensures var x, y := Apply(RotL, a, b), Apply(RotR, a, b);
            && x.Some? && y.Some?
            && (Bit(x.value, (i + b) % 32) <==> Bit(a, i))
            && (Bit(y.value, i) <==> Bit(a, (i + b) % 32))
  {
    hide *;
    SamePlace(i, b);
    RotationIs(a, b);
    LeftBit(a, b % 32, i);
    RightBit(a, b % 32, i);
  }

  lemma SamePlace(i: nat, b: nat)
    requires i < 32
    ensures (i + b) % 32 == (i + b % 32) % 32
  {
  }

  /** So each rotation undoes the other. */
  lemma RotationsUndo(a: u32, b: u32)
    ensures Apply(RotL, a, b).Some? && Apply(RotR, Apply(RotL, a, b).value, b) == Some(a)
    ensures Apply(RotR, a, b).Some? && Apply(RotL, Apply(RotR, a, b).value, b) == Some(a)
  {
    hide *;
    RotationLaw(a, b, 0);
    var x, y := Apply(RotL, a, b).value, Apply(RotR, a, b).value;
    RotationLaw(x, b, 0);
    RotationLaw(y, b, 0);
    var p, q := Apply(RotR, x, b).value, Apply(RotL, y, b).value;
    forall i | 0 <= i < 32
      ensures (Bit(p, i) <==> Bit(a, i)) && (Bit(q, i) <==> Bit(a, i))
    {
      SourceOf(i, b);
      var j := (i + 31 * b) % 32;
      RotationLaw(a, b, i);
      RotationLaw(x, b, i);
      RotationLaw(a, b, j);
      RotationLaw(y, b, j);
    }
    SameWords(p, a);
    SameWords(q, a);
  }

  lemma SameWords(a: u32, b: u32)
    requires forall i :: 0 <= i < 32 ==> (Bit(a, i) <==> Bit(b, i))
    ensures a == b
  {
    FirstPowers();
    hide Bit;
    SameBits(a, b, 32);
  }

  lemma SourceOf(i: nat, b: nat)
    requires i < 32
    ensures ((i + 31 * b) % 32 + b) % 32 == i
  {
  }

  // ----- comparisons -----

  /** Whether a comparison gives 1. */
  predicate Holds(op: BinOp, a: u32, b: u32) {
    Apply(op, a, b) == Some(1)
  }

  predicate Comparison(op: BinOp) {
    op.Eq? || op.Ne? || op.LtS? || op.LtU? || op.GtS? || op.GtU? || op.LeS? || op.LeU? || op.GeS? || op.GeU?
  }

  lemma ComparisonsAnswer(op: BinOp, a: u32, b: u32)
    requires Comparison(op)
    ensures Apply(op, a, b) == Some(0) || Apply(op, a, b) == Some(1)
    ensures Holds(op, a, b) <==> Compare(op, a, b)
  {
    hide Compare;
    hide Num;
    hide ToWord;
  }

  /** Each comparison has its complement and its mirror image, and the strict orders with equality give the others. */
  lemma OrderLaw(a: u32, b: u32)
    ensures Holds(Eq, a, b) != Holds(Ne, a, b)
    ensures Holds(LtS, a, b) != Holds(GeS, a, b) && Holds(LtU, a, b) != Holds(GeU, a, b)
    ensures Holds(GtS, a, b) != Holds(LeS, a, b) && Holds(GtU, a, b) != Holds(LeU, a, b)
    ensures Holds(GtS, a, b) == Holds(LtS, b, a) && Holds(GtU, a, b) == Holds(LtU, b, a)
    ensures Holds(LeS, a, b) == (Holds(LtS, a, b) || Holds(Eq, a, b))
    ensures Holds(LeU, a, b) == (Holds(LtU, a, b) || Holds(Eq, a, b))
    ensures Holds(Eq, a, b) <==> a == b
  {
    Compared(a, b);
    Compared(b, a);
    hide Holds;
  }

  /** The comparisons that hold. */
  lemma Compared(a: u32, b: u32)
    ensures (Holds(Eq, a, b) <==> a == b) && (Holds(Ne, a, b) <==> a != b)
    ensures (Holds(LtU, a, b) <==> a < b) && (Holds(LeU, a, b) <==> a <= b)
    ensures (Holds(GtU, a, b) <==> a > b) && (Holds(GeU, a, b) <==> a >= b)
    ensures (Holds(LtS, a, b) <==> Signed(a) < Signed(b)) && (Holds(LeS, a, b) <==> Signed(a) <= Signed(b))
    ensures (Holds(GtS, a, b) <==> Signed(a) > Signed(b)) && (Holds(GeS, a, b) <==> Signed(a) >= Signed(b))
  {
    hide *;
    ComparedUnsigned(a, b);
    ComparedSigned(a, b);
  }

  lemma ComparedUnsigned(a: u32, b: u32)
    ensures (Holds(Eq, a, b) <==> a == b) && (Holds(Ne, a, b) <==> a != b)
    ensures (Holds(LtU, a, b) <==> a < b) && (Holds(LeU, a, b) <==> a <= b)
    ensures (Holds(GtU, a, b) <==> a > b) && (Holds(GeU, a, b) <==> a >= b)
  {
    hide Holds;
    hide Apply;
    ComparisonsAnswer(Eq, a, b);
    ComparisonsAnswer(Ne, a, b);
    ComparisonsAnswer(LtU, a, b);
    ComparisonsAnswer(GtU, a, b);
    ComparisonsAnswer(LeU, a, b);
    ComparisonsAnswer(GeU, a, b);
  }

  lemma ComparedSigned(a: u32, b: u32)
    ensures (Holds(LtS, a, b) <==> Signed(a) < Signed(b)) && (Holds(LeS, a, b) <==> Signed(a) <= Signed(b))
    ensures (Holds(GtS, a, b) <==> Signed(a) > Signed(b)) && (Holds(GeS, a, b) <==> Signed(a) >= Signed(b))
  {
    hide Holds;
    hide Apply;
    hide Signed;
    hide Wrap;
    ComparisonsAnswer(LtS, a, b);
    ComparisonsAnswer(GtS, a, b);
    ComparisonsAnswer(LeS, a, b);
    ComparisonsAnswer(GeS, a, b);
  }

  /** The unsigned order is that of the numbers, the signed one that of the signed values. */
  lemma LessLaw(a: u32, b: u32)
    ensures Holds(LtU, a, b) <==> a < b
    ensures Holds(LtS, a, b) <==> Signed(a) < Signed(b)
  {
    hide Apply;
    hide Holds;
    ComparisonsAnswer(LtU, a, b);
    ComparisonsAnswer(LtS, a, b);
  }

  /** The signed value counts bit 31 as -2^31, so that the signed order is the unsigned one with that bit flipped. */
  lemma SignLaw(a: u32, b: u32)
    ensures Signed(a) == a - if Bit(a, 31) then WORD_LIMIT else 0
    ensures Holds(LtS, a, b) <==> Holds(LtU, Wrap(a + 0x8000_0000), Wrap(b + 0x8000_0000))
  {
    FirstPowers();
    LessLaw(a, b);
    LessLaw(Wrap(a + 0x8000_0000), Wrap(b + 0x8000_0000));
    hide Holds;
  }
}
