/**
 * The arithmetic of the instruction set: every two-operand instruction as a function on
 * 32-bit words. Signed instructions read their operands as two's complement.
 */
module Alu {
  import opened Bytes
  import opened BitVectors

  datatype BinOp =
    | Add | Sub | Mul | DivS | DivU | RemS | RemU
    | And | Or | Xor | Shl | ShrS | ShrU | RotL | RotR
    | Eq | Ne | LtS | LtU | GtS | GtU | LeS | LeU | GeS | GeU

  /** The two's complement reading of a word. */
  function Signed(a: u32): (x: int)
    ensures -0x8000_0000 <= x < 0x8000_0000
    ensures Wrap(x) == a
  {
    if a < 0x8000_0000 then a else a - WORD_LIMIT
  }

  function Abs(x: int): nat {
    if x < 0 then -x else x
  }

  /** C division on signed operands: truncation towards zero. */
  function TruncDiv(x: int, y: int): int
    requires y != 0
  {
    if (x < 0) == (y < 0) then Abs(x) / Abs(y) else -(Abs(x) / Abs(y))
  }

  /** C remainder on signed operands: the sign follows the dividend. */
  function TruncRem(x: int, y: int): int
    requires y != 0
  {
    if x < 0 then -(Abs(x) % Abs(y)) else Abs(x) % Abs(y)
  }

  function Flag(b: bool): u32 {
    if b then 1 else 0
  }

  /** The machine masks every shift count with 0x1F. */
  function ShiftCount(b: u32): (n: bv32)
    ensures n < 32
  {
    ToWord(b) & 0x1F
  }

  function ShiftRightSigned(w: bv32, n: bv32): bv32
    requires n < 32
  {
    if High(w) then Not(ShiftRight(Not(w), n)) else ShiftRight(w, n)
  }

  /** Rotation by 0 is the identity; C leaves the shift by 32 undefined there. */
  function RotateLeft(w: bv32, n: bv32): bv32
    requires n < 32
  {
    if n == 0 then w else Rotated(w, n)
  }

  function RotateRight(w: bv32, n: bv32): bv32
    requires n < 32
  {
    if n == 0 then w else (w >> n) | (w << (32 - n))
  }

  function DivideUnsigned(a: u32, b: u32): Option<u32> {
    if b == 0 then None else Some(a / b)
  }

  function DivideSigned(a: u32, b: u32): Option<u32> {
    if b == 0 then None else Some(Wrap(TruncDiv(Signed(a), Signed(b))))
  }

  function RemainderSigned(a: u32, b: u32): Option<u32> {
    if b == 0 then None else Some(Wrap(TruncRem(Signed(a), Signed(b))))
  }

  function Bitwise(op: BinOp, x: bv32, y: bv32): bv32
    requires op.And? || op.Or? || op.Xor?
  {
    if op.And? then Both(x, y) else if op.Or? then Either(x, y) else Differing(x, y)
  }

  function Shift(op: BinOp, x: bv32, n: bv32): bv32
    requires op.Shl? || op.ShrS? || op.ShrU? || op.RotL? || op.RotR?
    requires n < 32
  {
    if op.Shl? then x << n
    else if op.ShrS? then ShiftRightSigned(x, n)
    else if op.ShrU? then x >> n
    else if op.RotL? then RotateLeft(x, n)
    else RotateRight(x, n)
  }

  predicate Compare(op: BinOp, a: u32, b: u32) {
    match op
    case Eq => a == b
    case Ne => a != b
    case LtS => Signed(a) < Signed(b)
    case LtU => a < b
    case GtS => Signed(a) > Signed(b)
    case GtU => a > b
    case LeS => Signed(a) <= Signed(b)
    case LeU => a <= b
    case GeS => Signed(a) >= Signed(b)
    case _ => a >= b
  }

  /** The result of a two-operand instruction; None is the division by zero exception. */
  function Apply(op: BinOp, a: u32, b: u32): Option<u32> {
    match op
    case Add => Some(Wrap(a + b))
    case Sub => Some(Wrap(a - b))
    case Mul => Some(Wrap(a * b))
    case DivS => DivideSigned(a, b)
    case DivU => DivideUnsigned(a, b)
    case RemS => RemainderSigned(a, b)
    case RemU => if b == 0 then None else Some(a % b)
    case And | Or | Xor => Some(Num(Bitwise(op, ToWord(a), ToWord(b))))
    case Shl | ShrS | ShrU | RotL | RotR => Some(Num(Shift(op, ToWord(a), ShiftCount(b))))
    case _ => Some(Flag(Compare(op, a, b)))
  }

  /** Signed quotient and remainder are the unique pair that C promises. */
  lemma TruncationLaw(x: int, y: int)
    requires y != 0
    ensures x == TruncDiv(x, y) * y + TruncRem(x, y)
    ensures Abs(TruncRem(x, y)) < Abs(y)
    ensures TruncRem(x, y) != 0 ==> (TruncRem(x, y) < 0) == (x < 0)
  {
    var q, r := Abs(x) / Abs(y), Abs(x) % Abs(y);
    assert Abs(x) == q * Abs(y) + r;
  }

  /** DIVS and REMS never wrap, but for the one quotient that does not fit 32 bits. */
  lemma SignedDivisionExact(a: u32, b: u32)
    requires b != 0
    ensures Apply(DivS, a, b).Some? && Apply(RemS, a, b).Some?
    ensures Signed(Apply(RemS, a, b).value) == TruncRem(Signed(a), Signed(b))
    ensures Signed(Apply(DivS, a, b).value) == TruncDiv(Signed(a), Signed(b))
            <==> !(a == 0x8000_0000 && b == 0xFFFF_FFFF)
  {
    var x, y := Signed(a), Signed(b);
    TruncationLaw(x, y);
    QuotientRange(x, y);
    SignedOfWrap(TruncDiv(x, y));
    SignedOfWrap(TruncRem(x, y));
  }

  lemma SignedOfWrap(x: int)
    requires -0x8000_0000 <= x <= 0x8000_0000
    ensures Signed(Wrap(x)) == x <==> x < 0x8000_0000
  {
  }

  lemma QuotientRange(x: int, y: int)
    requires -0x8000_0000 <= x < 0x8000_0000 && y != 0
    ensures -0x8000_0000 <= TruncDiv(x, y) <= 0x8000_0000
    ensures TruncDiv(x, y) == 0x8000_0000 <==> x == -0x8000_0000 && y == -1
  {
    QuotientBound(Abs(x), Abs(y));
  }

  lemma QuotientBound(p: nat, q: nat)
    requires q > 0
    ensures p / q <= p
    ensures q == 1 ==> p / q == p
    ensures q > 1 ==> 2 * (p / q) <= p
  {
    var k := p / q;
    assert p == k * q + p % q;
    if q > 1 {
      TimesAtLeast(k, q, 2);
    }
  }

  lemma TimesAtLeast(k: nat, q: nat, m: nat)
    requires m <= q
    ensures k * m <= k * q
  {
  }
}
