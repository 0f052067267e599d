/** 32-bit vectors: shifts and conversions under names of their own, and the facts about them that follow by bits. */
module BitVectors {

  /** The number of a word. */
  function Num(w: bv32): (x: int)
    ensures 0 <= x < 0x1_0000_0000
  {
    w as int
  }

  /** The word of a number. */
  function ToWord(x: int): bv32
    requires 0 <= x < 0x1_0000_0000
  {
    x as bv32
  }

  function ShiftRight(w: bv32, n: bv32): bv32
    requires n < 32
  {
    w >> n
  }

  function ShiftLeft(w: bv32, n: bv32): bv32
    requires n < 32
  {
    w << n
  }

  /** A word without its lowest bit, and the ways back. */
  function Upper(w: bv32): bv32 {
    w >> 1
  }

  predicate Odd(w: bv32) {
    w & 1 == 1
  }

  function Double(w: bv32): bv32 {
    w << 1
  }

  function DoubleAndOne(w: bv32): bv32 {
    (w << 1) | 1
  }

  predicate High(w: bv32) {
    w >= 0x8000_0000
  }

  function WithHigh(w: bv32): bv32 {
    w | 0x8000_0000
  }

  function WithoutHigh(w: bv32): bv32 {
    w & 0x7FFF_FFFF
  }

  function Not(w: bv32): bv32 {
    !w
  }

  function Both(v: bv32, w: bv32): bv32 {
    v & w
  }

  function Either(v: bv32, w: bv32): bv32 {
    v | w
  }

  function Differing(v: bv32, w: bv32): bv32 {
    v ^ w
  }

  // ----- one bit -----

  lemma DoubleNum(w: bv32)
    requires !High(w)
    ensures Num(Double(w)) == 2 * Num(w)
  {
  }

  lemma DoubleAndOneNum(w: bv32)
    requires !High(w)
    ensures Num(DoubleAndOne(w)) == 2 * Num(w) + 1
  {
  }

  lemma WithHighNum(w: bv32)
    requires !High(w)
    ensures Num(WithHigh(w)) == Num(w) + 0x8000_0000
  {
  }

  lemma Rejoined(w: bv32)
    ensures !High(Upper(w)) && w == if Odd(w) then DoubleAndOne(Upper(w)) else Double(Upper(w))
  {
  }

  lemma HighRejoined(w: bv32)
    requires High(w)
    ensures w == WithHigh(WithoutHigh(w))
  {
  }

  lemma LowUnchanged(w: bv32)
    requires !High(w)
    ensures w == WithoutHigh(w)
  {
  }

  lemma HighShiftedOut(w: bv32)
    ensures !High(WithoutHigh(w)) && Double(w) == Double(WithoutHigh(w))
  {
  }

  // ----- words and numbers -----

  lemma ThereAndBack(w: bv32)
    ensures ToWord(Num(w)) == w
  {
  }

  lemma NumOfZero()
    ensures Num(0) == 0
  {
  }

  lemma NextNum(v: bv32)
    requires v < 31
    ensures Num(v + 1) == Num(v) + 1 && v + 1 < 32
  {
  }

  lemma PreviousNum(v: bv32)
    requires 0 < v < 32
    ensures Num(v - 1) == Num(v) - 1 && v - 1 < 32
  {
  }

  lemma DifferenceNum(n: bv32, m: bv32)
    requires m <= n < 32
    ensures Num(n - m) == Num(n) - Num(m) && n - m < 32
  {
  }

  lemma SmallNum(v: bv32)
    requires v < 32
    ensures Num(v) < 32
  {
  }

  // ----- shifts -----

  lemma RightAgain(w: bv32, n: bv32)
    requires 0 < n < 32
    ensures ShiftRight(w, n) == Upper(ShiftRight(w, n - 1))
  {
  }

  lemma LeftAgain(w: bv32, n: bv32)
    requires 0 < n < 32
    ensures ShiftLeft(w, n) == Double(ShiftLeft(w, n - 1))
  {
  }

  lemma NotShifted(w: bv32)
    ensures ShiftRight(w, 0) == w && ShiftLeft(w, 0) == w
  {
  }

  // ----- single bits -----

  /** Bit n of a word. */
  predicate At(w: bv32, n: bv32)
    requires n < 32
  {
    Odd(ShiftRight(w, n))
  }

  lemma AndAt(v: bv32, w: bv32, n: bv32)
    requires n < 32
    ensures At(Both(v, w), n) <==> At(v, n) && At(w, n)
  {
  }

  lemma OrAt(v: bv32, w: bv32, n: bv32)
    requires n < 32
    ensures At(Either(v, w), n) <==> At(v, n) || At(w, n)
  {
  }

  lemma XorShifted(v: bv32, w: bv32, n: bv32)
    requires n < 32
    ensures ((v ^ w) >> n) & 1 == ((v >> n) & 1) ^ ((w >> n) & 1)
  {
  }

  lemma XorOdd(v: bv32, w: bv32)
    ensures Odd(v ^ w) <==> Odd(v) != Odd(w)
  {
  }

  lemma XorAt(v: bv32, w: bv32, n: bv32)
    requires n < 32
    ensures At(Differing(v, w), n) <==> At(v, n) != At(w, n)
  {
    hide Odd;
    XorShifted(v, w, n);
    XorOdd(v >> n, w >> n);
  }

  /** The low five bits of a word: a word that has no others, and the rest of which is 32 times something. */
  lemma LowFive(w: bv32)
    ensures w & 0x1F < 32
    ensures var u := Upper(Upper(Upper(Upper(Upper(w & 0x1F))))); u == 0
    ensures Odd(w & 0x1F) == Odd(w)
    ensures Odd(Upper(w & 0x1F)) == Odd(Upper(w))
    ensures Odd(Upper(Upper(w & 0x1F))) == Odd(Upper(Upper(w)))
    ensures Odd(Upper(Upper(Upper(w & 0x1F)))) == Odd(Upper(Upper(Upper(w))))
    ensures Odd(Upper(Upper(Upper(Upper(w & 0x1F))))) == Odd(Upper(Upper(Upper(Upper(w)))))
  {
  }

  // ----- rotations and sign-filling shifts -----

  lemma LeftAt(w: bv32, v: bv32, n: bv32)
    requires v <= n < 32
    ensures At(w << v, n) <==> At(w, n - v)
  {
  }

  lemma LeftNotAt(w: bv32, v: bv32, n: bv32)
    requires n < v < 32
    ensures !At(w << v, n)
  {
  }

  lemma RightNotAt(w: bv32, v: bv32, n: bv32)
    requires v < 32 && n < 32 && n >= 32 - v
    ensures !At(w >> v, n)
  {
  }

  /** Rotation to the left by 0 < v < 32. */
  function Rotated(w: bv32, v: bv32): bv32
    requires 0 < v < 32
  {
    (w << v) | (w >> (32 - v))
  }

  /** It moves a bit up by v, and the highest v bits to the lowest places. */
  lemma RotatedUp(w: bv32, v: bv32, n: bv32, j: bv32)
    requires 0 < v <= n < 32 && j == n - v
    ensures j < 32 && (At(Rotated(w, v), n) <==> At(w, j))
  {
    OppositeFits(v);
    LeftAt(w, v, n);
    RightNotAt(w, 32 - v, n);
    OrAt(w << v, w >> (32 - v), n);
    hide At;
  }

  lemma RotatedRound(w: bv32, v: bv32, u: bv32, i: bv32, j: bv32)
    requires 0 < v < 32 && u == 32 - v && u <= i < 32 && j == i - u
    ensures u < 32 && j < 32 && (At(Rotated(w, v), j) <==> At(ShiftRight(w, u), j))
  {
    OppositeFits(v);
    RoundIsLow(v, i);
    LeftNotAt(w, v, j);
    OrAt(w << v, w >> u, j);
    hide At;
  }

  lemma OppositeFits(v: bv32)
    requires 0 < v < 32
    ensures 0 < 32 - v < 32 && 32 - (32 - v) == v
  {
  }

  lemma RoundIsLow(v: bv32, n: bv32)
    requires 0 < v < 32 && 32 - v <= n < 32
    ensures n - (32 - v) < v
  {
  }

  lemma Opposite(w: bv32, v: bv32, u: bv32)
    requires 0 < v < 32 && u == 32 - v
    ensures 0 < u < 32 && (w >> v) | (w << (32 - v)) == Rotated(w, u)
  {
  }

  lemma OppositeNum(v: bv32)
    requires 0 < v < 32
    ensures Num(32 - v) == 32 - Num(v) && 32 - v < 32
  {
  }

  lemma SignStays(w: bv32, v: bv32)
    requires v < 32 && High(w)
    ensures High(Not(ShiftRight(Not(w), v)))
  {
  }

  lemma SignOnce(x: bv32)
    ensures Not(Upper(x)) == WithHigh(Upper(Not(x))) && !High(Upper(Not(x)))
  {
  }

  lemma NotTwice(w: bv32)
    ensures Not(Not(w)) == w
  {
  }
}
