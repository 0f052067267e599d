/** 32-bit words as numbers: their bits, and shifts as multiplication and division. */
module Words {
  import opened Bytes
  import opened BitVectors

  function Pow2(n: nat): (p: nat)
    ensures p > 0
  {
    if n == 0 then 1 else 2 * Pow2(n - 1)
  }

  /** Bit i of a number. */
  predicate Bit(a: nat, i: nat) {
    a / Pow2(i) % 2 == 1
  }

  // ----- numbers -----

  lemma QuotientIs(x: int, d: int, q: int, r: int)
    requires d > 0 && x == d * q + r && 0 <= r < d
    ensures x / d == q && x % d == r
  {
    var p, s := x / d, x % d;
    assert d * (p - q) == r - s;
    if p != q {
      AtLeastOnce(d, p - q);
      assert false;
    }
  }

  lemma AtLeastOnce(d: int, k: int)
    requires d > 0 && k != 0
    ensures d * k >= d || d * k <= -d
  {
    if k > 0 {
      TimesPositive(d, k);
    } else {
      TimesPositive(d, -k);
      assert d * k == -(d * -k);
    }
  }

  lemma TimesPositive(d: int, k: int)
    requires d > 0 && k > 0
    ensures d * k >= d
  {
  }

  lemma HalveQuotient(x: int, p: int)
    requires p > 0
    ensures x / p / 2 == x / (2 * p)
  {
    var q, r := x / p, x % p;
    var s, t := q / 2, q % 2;
    Spread(p, s, t);
    Between(p, t, r);
    QuotientIs(x, 2 * p, s, p * t + r);
  }

  lemma Spread(p: int, s: int, t: int)
    ensures p * (2 * s + t) == 2 * p * s + p * t
  {
  }

  lemma Between(p: int, t: int, r: int)
    requires 0 <= t < 2 && 0 <= r < p
    ensures 0 <= p * t + r < 2 * p
  {
    if t == 1 {
      assert p * t == p;
    } else {
      assert p * t == 0;
    }
  }

  lemma DoubleRemainder(x: int, m: int)
    requires m > 0
    ensures 2 * (x % m) % m == 2 * x % m
  {
    var q, r := x / m, x % m;
    var s, t := 2 * r / m, 2 * r % m;
    assert x == m * q + r && 2 * r == m * s + t;
    assert 2 * x == m * (2 * q + s) + t;
    QuotientIs(2 * x, m, 2 * q + s, t);
  }

  lemma FirstPowers()
    ensures Pow2(31) == 0x8000_0000 && Pow2(32) == WORD_LIMIT
  {
    assert Pow2(4) == 16 && Pow2(8) == 0x100;
    assert Pow2(12) == 0x1000 && Pow2(16) == 0x1_0000;
    assert Pow2(20) == 0x10_0000 && Pow2(24) == 0x100_0000;
    assert Pow2(28) == 0x1000_0000;
  }

  // ----- words -----

  /** A word is twice its upper bits and its lowest one. */
  lemma Half(w: bv32)
    ensures Num(w) == 2 * Num(Upper(w)) + if Odd(w) then 1 else 0
  {
    hide *;
    Rejoined(w);
    if Odd(w) {
      DoubleAndOneNum(Upper(w));
    } else {
      DoubleNum(Upper(w));
    }
  }

  lemma HighIs(w: bv32)
    ensures High(w) <==> Num(w) >= 0x8000_0000
  {
    hide *;
    if High(w) {
      HighRejoined(w);
      HighShiftedOut(w);
      WithHighNum(WithoutHigh(w));
    } else {
      WithHighNum(w);
    }
  }

  /** The word of a number, built bit by bit. */
  function WordOf(x: u32): (w: bv32)
    ensures Num(w) == x
    decreases x
  {
    if x == 0 then NumOfZero(); 0
    else
      var h := WordOf(x / 2);
      HighIs(h);
      if x % 2 == 0 then DoubleNum(h); Double(h) else DoubleAndOneNum(h); DoubleAndOne(h)
  }

  lemma BackAndThere(x: u32)
    ensures Num(ToWord(x)) == x
  {
    hide *;
    ThereAndBack(WordOf(x));
  }

  lemma SameNumber(v: bv32, w: bv32)
    requires Num(v) == Num(w)
    ensures v == w
  {
    hide *;
    ThereAndBack(v);
    ThereAndBack(w);
  }

  /** Shift counts. */
  function Count(n: nat): (w: bv32)
    requires n < 32
    ensures w < 32 && Num(w) == n
  {
    if n == 0 then NumOfZero(); 0 else NextNum(Count(n - 1)); Count(n - 1) + 1
  }

  lemma CountNext(n: nat)
    requires 0 < n < 32
    ensures Count(n) == Count(n - 1) + 1 && Count(n - 1) < 31
  {
    NumBelow(Count(n - 1), 31);
  }

  lemma NumBelow(v: bv32, m: nat)
    requires v < 32 && Num(v) < m == 31
    ensures v < 31
  {
  }

  lemma CountOfNum(w: bv32)
    requires w < 32
    ensures Num(w) < 32 && Count(Num(w)) == w
  {
    SmallNum(w);
    SameNumber(Count(Num(w)), w);
  }

  // ----- shifts -----

  lemma PowNext(n: nat)
    ensures Pow2(0) == 1 && Pow2(n + 1) == 2 * Pow2(n)
  {
  }

  lemma NoShift(w: bv32)
    ensures ShiftRight(w, Count(0)) == w && ShiftLeft(w, Count(0)) == w
  {
    NotShifted(w);
    hide ShiftRight;
    hide ShiftLeft;
  }

  lemma OneMoreShift(w: bv32, n: nat)
    requires n < 31
    ensures ShiftRight(w, Count(n + 1)) == Upper(ShiftRight(w, Count(n)))
    ensures ShiftLeft(w, Count(n + 1)) == Double(ShiftLeft(w, Count(n)))
  {
    CountNext(n + 1);
    ShiftsAgain(w, Count(n));
    hide *;
  }

  lemma ShiftsAgain(w: bv32, v: bv32)
    requires v < 31
    ensures ShiftRight(w, v + 1) == Upper(ShiftRight(w, v)) && ShiftLeft(w, v + 1) == Double(ShiftLeft(w, v))
  {
  }

  /** A right shift divides. */
  lemma {:induction false} RightDivides(w: bv32, n: nat)
    requires n < 32
    ensures Num(ShiftRight(w, Count(n))) == Num(w) / Pow2(n)
    decreases n
  {
    hide *;
    PowNext(if n == 0 then 0 else n - 1);
    if n == 0 {
      NoShift(w);
    } else {
      RightDivides(w, n - 1);
      OneMoreShift(w, n - 1);
      Half(ShiftRight(w, Count(n - 1)));
      HalveQuotient(Num(w), Pow2(n - 1));
    }
  }

  lemma {:induction false} ShiftedTwice(w: bv32, v: nat, k: nat)
    requires v + k < 32
    ensures ShiftRight(ShiftRight(w, Count(v)), Count(k)) == ShiftRight(w, Count(v + k))
    decreases k
  {
    hide *;
    if k == 0 {
      NoShift(ShiftRight(w, Count(v)));
    } else {
      ShiftedTwice(w, v, k - 1);
      OneMoreShift(ShiftRight(w, Count(v)), k - 1);
      OneMoreShift(w, v + k - 1);
    }
  }

  lemma DoubleWraps(w: bv32)
    ensures Num(Double(w)) == 2 * Num(w) % WORD_LIMIT
  {
    HighIs(w);
    HighIs(Double(w));
    hide Num;
    hide High;
    hide Double;
    hide WithHigh;
    hide WithoutHigh;
    HighShiftedOut(w);
    DoubleNum(WithoutHigh(w));
    if High(w) {
      HighRejoined(w);
      WithHighNum(WithoutHigh(w));
    } else {
      LowUnchanged(w);
    }
  }

  /** A left shift multiplies, modulo the size of a word. */
  lemma {:induction false} LeftMultiplies(w: bv32, n: nat)
    requires n < 32
    ensures Num(ShiftLeft(w, Count(n))) == Num(w) * Pow2(n) % WORD_LIMIT
    decreases n
  {
    hide Num;
    hide ShiftLeft;
    hide Double;
    hide Count;
    hide Pow2;
    PowNext(if n == 0 then 0 else n - 1);
    if n == 0 {
      NoShift(w);
    } else {
      LeftMultiplies(w, n - 1);
      OneMoreShift(w, n - 1);
      DoubleWraps(ShiftLeft(w, Count(n - 1)));
      DoubleRemainder(Num(w) * Pow2(n - 1), WORD_LIMIT);
      Twice(Num(w), Pow2(n - 1));
    }
  }

  lemma Twice(x: int, p: int)
    ensures 2 * (x * p) == x * (2 * p)
  {
  }

  // ----- bits -----

  /** Bit n of a word is bit n of its number. */
  lemma BitIs(w: bv32, n: nat)
    requires n < 32
    ensures Bit(Num(w), n) <==> At(w, Count(n))
  {
    var q := ShiftRight(w, Count(n));
    hide *;
    RightDivides(w, n);
    Half(q);
    AtIs(w, Count(n));
    BitFrom(Num(w), n, Num(Upper(q)), Odd(q));
  }

  lemma AtIs(w: bv32, v: bv32)
    requires v < 32
    ensures At(w, v) <==> Odd(ShiftRight(w, v))
  {
    hide Odd;
    hide ShiftRight;
  }

  lemma BitFrom(a: nat, n: nat, u: int, b: bool)
    requires a / Pow2(n) == 2 * u + if b then 1 else 0
    ensures Bit(a, n) <==> b
  {
  }

  /** Numbers with the same bits are equal. */
  lemma {:induction false} SameBits(a: nat, b: nat, n: nat)
    requires a < Pow2(n) && b < Pow2(n)
    requires forall i :: 0 <= i < n ==> (Bit(a, i) <==> Bit(b, i))
    ensures a == b
    decreases n
  {
    if n > 0 {
      forall i | 0 <= i < n - 1
        ensures Bit(a / 2, i) <==> Bit(b / 2, i)
      {
        BitOfHalf(a, i);
        BitOfHalf(b, i);
        assert Bit(a, i + 1) <==> Bit(b, i + 1);
      }
      hide Bit;
      SameBits(a / 2, b / 2, n - 1);
      LowestBit(a);
      LowestBit(b);
    }
  }

  lemma LowestBit(a: nat)
    ensures Bit(a, 0) <==> a % 2 == 1
  {
  }

  lemma BitOfHalf(a: nat, i: nat)
    ensures Bit(a / 2, i) <==> Bit(a, i + 1)
  {
    var p := Pow2(i);
    var q, r := a / 2, a % 2;
    var s, t := q / p, q % p;
    assert q == p * s + t;
    DistributeTwice(p, s, t);
    QuotientIs(a, 2 * p, s, 2 * t + r);
  }

  lemma DistributeTwice(p: int, s: int, t: int)
    ensures 2 * (p * s + t) == 2 * p * s + 2 * t
  {
  }

  /** The low five bits of a word are its remainder by 32. */
  lemma LowFiveRemain(w: bv32)
    ensures w & 0x1F < 32 && Num(w & 0x1F) == Num(w) % 32
  {
    LowFive(w);
    FiveBits(w);
    FiveBits(w & 0x1F);
    NumOfZero();
    hide Num;
    hide Odd;
    hide Upper;
  }

  lemma FiveBits(w: bv32)
    ensures var a, b := Upper(w), Upper(Upper(w));
            var c, d := Upper(b), Upper(Upper(b));
            Num(w) == 32 * Num(Upper(d)) + 16 * One(Odd(d)) + 8 * One(Odd(c)) + 4 * One(Odd(b)) + 2 * One(Odd(a))
                      + One(Odd(w))
  {
    hide Num;
    hide Odd;
    hide Upper;
    var a, b := Upper(w), Upper(Upper(w));
    var c, d := Upper(b), Upper(Upper(b));
    Half(w);
    Half(a);
    Half(b);
    Half(c);
    Half(d);
  }

  function One(b: bool): nat {
    if b then 1 else 0
  }
}
