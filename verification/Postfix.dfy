/**
 * Expression trees, their postfix bytecode, and the theorem that running the bytecode has
 * exactly the effect of evaluating the tree: the value, the stack overflow or the division by
 * zero that a direct evaluation with the same stack room meets first.
 */
module Postfix {
  import opened Bytes
  import opened Alu
  import opened Machine

  /** `wide` asks for the five-byte constant form even where a one-byte form exists. */
  datatype Expr =
    | Const(value: u32, wide: bool)
    | IsZeroOf(arg: Expr)
    | Binop(op: BinOp, left: Expr, right: Expr)

  datatype Answer = Value(v: u32) | Overflow | DivideByZero

  /** Direct evaluation of a tree when `room` stack cells are free. */
  function Eval(e: Expr, room: int): Answer {
    match e
    case Const(v, _) => if room <= 0 then Overflow else Value(v)
    case IsZeroOf(a) =>
      var x := Eval(a, room);
      if x.Value? then Value(Flag(x.v == 0)) else x
    case Binop(op, l, r) =>
      var x := Eval(l, room);
      if !x.Value? then x else
      var y := Eval(r, room - 1);
      if !y.Value? then y else
      var z := Apply(op, x.v, y.v);
      if z.None? then DivideByZero else Value(z.value)
  }

  /** The deepest the operand stack gets while a tree is evaluated. */
  function Depth(e: Expr): (d: nat)
    ensures d > 0
  {
    match e
    case Const(_, _) => 1
    case IsZeroOf(a) => Depth(a)
    case Binop(_, l, r) => if Depth(l) > 1 + Depth(r) then Depth(l) else 1 + Depth(r)
  }

  // ----- postfix code -----

  function OpcodeOf(op: BinOp): byte {
    match op
    case Add => 0x27 case Sub => 0x28 case Mul => 0x29
    case DivS => 0x2A case DivU => 0x2B case RemS => 0x2C case RemU => 0x2D
    case And => 0x2E case Or => 0x2F case Xor => 0x30
    case Shl => 0x31 case ShrS => 0x32 case ShrU => 0x33 case RotL => 0x34 case RotR => 0x35
    case Eq => 0x39 case Ne => 0x3A
    case LtS => 0x3B case LtU => 0x3C case GtS => 0x3D case GtU => 0x3E
    case LeS => 0x3F case LeU => 0x40 case GeS => 0x41 case GeU => 0x42
  }

  function ConstCode(v: u32, wide: bool): (s: seq<byte>)
    ensures |s| > 0
  {
    if !wide && v <= 8 then [(0x18 + v) as byte]
    else if !wide && v == 0xFFFF_FFFF then [0x22]
    else
      var le := U32Le(v);
      [0x21, le[3], le[2], le[1], le[0]]
  }

  function Compile(e: Expr): (s: seq<byte>)
    ensures |s| > 0
  {
    match e
    case Const(v, wide) => ConstCode(v, wide)
    case IsZeroOf(a) => Compile(a) + [0x38]
    case Binop(op, l, r) => Compile(l) + Compile(r) + [OpcodeOf(op)]
  }

  /** The number of instructions in the postfix code of a tree. */
  function Length(e: Expr): nat {
    match e
    case Const(_, _) => 1
    case IsZeroOf(a) => Length(a) + 1
    case Binop(_, l, r) => Length(l) + Length(r) + 1
  }

  /** The bytes `s` stand in the code window from address `at`. */
  ghost predicate Placed(c: Code, at: int, s: seq<byte>) {
    0 <= at && at + |s| <= c.size &&
    forall i :: 0 <= i < |s| ==> Fetch(c, at + i) == s[i]
  }

  lemma PlacedSplit(c: Code, at: int, s: seq<byte>, t: seq<byte>)
    requires Placed(c, at, s + t)
    ensures Placed(c, at, s) && Placed(c, at + |s|, t)
  {
    forall i | 0 <= i < |s|
      ensures Fetch(c, at + i) == s[i]
    {
      assert (s + t)[i] == s[i];
    }
    forall i | 0 <= i < |t|
      ensures Fetch(c, at + |s| + i) == t[i]
    {
      assert (s + t)[|s| + i] == t[i];
    }
  }

  lemma PlacedFirst(c: Code, at: int, s: seq<byte>)
    requires Placed(c, at, s) && s != []
    ensures 0 <= at < c.size && Fetch(c, at) == s[0]
  {
    assert Fetch(c, at + 0) == s[0];
  }

  lemma DecodeOpcode(op: BinOp)
    ensures Decode(OpcodeOf(op)) == Binary(op)
  {
  }

  // ----- runs -----

  lemma {:induction false} RunSplit(c: Code, m: State, i: nat, j: nat)
    ensures Run(c, m, i + j) ==
            var s := Run(c, m, i); if s.1.Success? then Run(c, s.0, j) else s
    decreases i
  {
    hide Step;
    if i > 0 {
      RunSplit(c, Step(c, m).0, i - 1, j);
    }
  }

  lemma RunOne(c: Code, m: State)
    ensures Run(c, m, 1) == Step(c, m)
  {
    assert Run(c, Step(c, m).0, 0) == (Step(c, m).0, Success);
  }

  /** The state a run over the code of `e` must end in, and its return code. */
  ghost predicate Answers(m: State, size: nat, a: Answer, s: (State, Result)) {
    match a
    case Value(v) =>
      s.1 == Success && m.pc + size < WORD_LIMIT && s.0 == m.(stack := m.stack + [v], pc := m.pc + size)
    case Overflow =>
      s.1 == StackOverflow && s.0.exception == EXCEPTION_STACK_OVERFLOW && s.0.vm == Exception && s.0.frames == m.frames
    case DivideByZero =>
      s.1 == InvalidParam && s.0.exception == EXCEPTION_DIVISION_BY_ZERO && s.0.frames == m.frames
  }

  /** Both encodings of a constant push it. */
  lemma ConstStep(c: Code, m: State, v: u32, long: bool)
    requires m.vm == Running && Placed(c, m.pc, ConstCode(v, long))
    ensures m.pc + |ConstCode(v, long)| < WORD_LIMIT
    ensures Step(c, m) == PushWord(m.(pc := m.pc + |ConstCode(v, long)|), v)
  {
    hide Exec;
    hide Decode;
    hide PushWord;
    PlacedFirst(c, m.pc, ConstCode(v, long));
    DecodeConst(v, long);
    if |ConstCode(v, long)| == 1 {
      LoadShortStep(c, m.(pc := m.pc + 1), v);
    } else {
      WideOperand(c, m, v);
    }
  }

  lemma ConstCorrect(c: Code, m: State, v: u32, wide: bool)
    requires m.vm == Running && Bounded(m)
    requires Placed(c, m.pc, ConstCode(v, wide))
    ensures Answers(m, |ConstCode(v, wide)|, Eval(Const(v, wide), STACK_UNITS - |m.stack|), Step(c, m))
  {
    ConstStep(c, m, v, wide);
    hide Step;
    hide ConstCode;
    hide Placed;
  }

  lemma WideOperand(c: Code, m: State, v: u32)
    requires Placed(c, m.pc, ConstCode(v, true))
    ensures m.pc + 5 <= c.size
    ensures Exec(c, m.(pc := m.pc + 1), LoadWide) == PushWord(m.(pc := m.pc + 5), v)
  {
    hide Exec;
    hide PushWord;
    var s := ConstCode(v, true);
    WideBytes(c, m.pc, v);
    U32Digits(v);
    hide Placed;
    hide ConstCode;
    hide Fetch;
    hide U32Le;
    LoadWideStep(c, m.(pc := m.pc + 1), s[4] as int, s[3] as int, s[2] as int, s[1] as int);
  }

  /** The five bytes of a wide constant in the window. */
  lemma WideBytes(c: Code, at: int, v: u32)
    requires Placed(c, at, ConstCode(v, true))
    ensures var s, le := ConstCode(v, true), U32Le(v);
            && |s| == 5 && 0 <= at && at + 5 <= c.size && s[1..] == [le[3], le[2], le[1], le[0]]
            && Fetch(c, at + 1) == s[1] && Fetch(c, at + 2) == s[2]
            && Fetch(c, at + 3) == s[3] && Fetch(c, at + 4) == s[4]
  {
    hide U32Le;
  }

  lemma DecodeConst(v: u32, wide: bool)
    ensures var s := ConstCode(v, wide);
            Decode(s[0]) == if |s| == 1 then LoadShort(v) else LoadWide
  {
    if v <= 8 && !wide {
      ShortOpcode(v);
      hide Decode;
      assert ConstCode(v, wide) == [(0x18 + v) as byte];
    }
  }

  lemma ShortOpcode(v: u32)
    requires v <= 8
    ensures Decode((0x18 + v) as byte) == LoadShort(v)
  {
    ByteRoundTrip(0x18 + v);
    hide DecodeArithmetic;
    hide DecodeComparison;
  }

  lemma LoadShortStep(c: Code, m: State, v: u32)
    ensures Exec(c, m, LoadShort(v)) == PushWord(m, v)
  {
  }

  lemma ReadU16Value(c: Code, m: State, hi: int, lo: int)
    requires m.pc + 2 <= c.size
    requires Fetch(c, m.pc) as int == hi && Fetch(c, m.pc + 1) as int == lo
    ensures ReadU16(c, m) == Outcome(m.(pc := m.pc + 2), Success, hi * 256 + lo)
  {
  }

  /** Four big-endian operand bytes are read as two halves. */
  lemma LoadWideStep(c: Code, m: State, d0: int, d1: int, d2: int, d3: int)
    requires m.pc + 4 <= c.size
    requires Fetch(c, m.pc) as int == d3 && Fetch(c, m.pc + 1) as int == d2
    requires Fetch(c, m.pc + 2) as int == d1 && Fetch(c, m.pc + 3) as int == d0
    ensures Exec(c, m, LoadWide) ==
            PushWord(m.(pc := m.pc + 4), Wrap(d0 + 0x100 * d1 + 0x1_0000 * d2 + 0x100_0000 * d3))
  {
    hide ReadU16;
    hide PushWord;
    ReadU16Value(c, m, d3, d2);
    ReadU16Value(c, m.(pc := m.pc + 2), d1, d0);
  }

  lemma ConstRun(c: Code, m: State, v: u32, wide: bool)
    requires m.vm == Running && Bounded(m)
    requires Placed(c, m.pc, ConstCode(v, wide))
    ensures Answers(m, |ConstCode(v, wide)|, Eval(Const(v, wide), STACK_UNITS - |m.stack|), Run(c, m, 1))
  {
    hide Step;
    hide Run;
    hide Eval;
    hide Answers;
    hide Placed;
    hide ConstCode;
    RunOne(c, m);
    ConstCorrect(c, m, v, wide);
  }

  /** Running the postfix code of a tree does what evaluating the tree does, on every stack. */
  lemma {:induction false} PostfixCorrect(c: Code, m: State, e: Expr)
    requires m.vm == Running && Bounded(m)
    requires Placed(c, m.pc, Compile(e))
    ensures Answers(m, |Compile(e)|, Eval(e, STACK_UNITS - |m.stack|), Run(c, m, Length(e)))
    decreases e
  {
    hide Run;
    hide Eval;
    hide Answers;
    hide Placed;
    hide ConstCode;
    match e
    case Const(v, wide) =>
      ConstRun(c, m, v, wide);
    case IsZeroOf(a) =>
      IsZeroCorrect(c, m, a);
    case Binop(op, l, r) =>
      BinopCorrect(c, m, op, l, r);
  }

  lemma {:induction false} IsZeroCorrect(c: Code, m: State, a: Expr)
    requires m.vm == Running && Bounded(m)
    requires Placed(c, m.pc, Compile(a) + [0x38])
    ensures Answers(m, |Compile(a)| + 1, Eval(IsZeroOf(a), STACK_UNITS - |m.stack|), Run(c, m, Length(a) + 1))
    decreases IsZeroOf(a), 0
  {
    hide Step;
    hide Apply;
    hide Decode;
    hide Run;
    hide Placed;
    hide Compile;
    hide Length;
    PlacedSplit(c, m.pc, Compile(a), [0x38]);
    PostfixCorrect(c, m, a);
    RunSplit(c, m, Length(a), 1);
    var s := Run(c, m, Length(a));
    RunOne(c, s.0);
    if s.1.Success? {
      PlacedFirst(c, s.0.pc, [0x38]);
      DepthIsExact(a, STACK_UNITS - |m.stack|);
      IsZeroStep(c, s.0, m.stack, s.0.stack[|m.stack|]);
    }
  }

  lemma {:induction false} BinopCorrect(c: Code, m: State, op: BinOp, l: Expr, r: Expr)
    requires m.vm == Running && Bounded(m)
    requires Placed(c, m.pc, Compile(l) + Compile(r) + [OpcodeOf(op)])
    ensures Answers(m, |Compile(l)| + |Compile(r)| + 1, Eval(Binop(op, l, r), STACK_UNITS - |m.stack|),
                    Run(c, m, Length(l) + Length(r) + 1))
    decreases Binop(op, l, r), 0
  {
    hide Step;
    hide Apply;
    hide Decode;
    hide Run;
    hide Placed;
    hide Compile;
    hide Length;
    PlacedSplit(c, m.pc, Compile(l) + Compile(r), [OpcodeOf(op)]);
    PlacedSplit(c, m.pc, Compile(l), Compile(r));
    PostfixCorrect(c, m, l);
    RunSplit(c, m, Length(l), Length(r) + 1);
    var s := Run(c, m, Length(l));
    if s.1.Success? {
      DepthIsExact(l, STACK_UNITS - |m.stack|);
      PostfixCorrect(c, s.0, r);
      RunSplit(c, s.0, Length(r), 1);
      var t := Run(c, s.0, Length(r));
      RunOne(c, t.0);
      if t.1.Success? {
        PlacedFirst(c, t.0.pc, [OpcodeOf(op)]);
        DepthIsExact(r, STACK_UNITS - |m.stack| - 1);
        BinaryStep(c, t.0, m.stack, s.0.stack[|m.stack|], t.0.stack[|m.stack| + 1], op);
      }
    }
  }

  lemma BinaryStep(c: Code, m: State, below: seq<u32>, a: u32, b: u32, op: BinOp)
    requires m.vm == Running && m.stack == below + [a] + [b] && |below| < STACK_UNITS
    requires m.pc < c.size && Fetch(c, m.pc) == OpcodeOf(op)
    ensures var v := Apply(op, a, b);
            Step(c, m) == if v.None? then
              (m.(pc := m.pc + 1, stack := below, exception := EXCEPTION_DIVISION_BY_ZERO), InvalidParam)
            else (m.(pc := m.pc + 1, stack := below + [v.value]), Success)
  {
    DecodeOpcode(op);
    hide Decode;
    hide OpcodeOf;
    hide Apply;
    BinaryExec(m.(pc := m.pc + 1), below, a, b, op);
    hide ExecBinary;
  }

  lemma BinaryExec(m: State, below: seq<u32>, a: u32, b: u32, op: BinOp)
    requires m.stack == below + [a] + [b] && |below| < STACK_UNITS
    ensures var v := Apply(op, a, b);
            ExecBinary(m, op) == if v.None? then
              (m.(stack := below, exception := EXCEPTION_DIVISION_BY_ZERO), InvalidParam)
            else (m.(stack := below + [v.value]), Success)
  {
    hide Apply;
    assert m.stack[..|m.stack| - 1] == below + [a];
    assert (below + [a])[..|below|] == below;
  }

  lemma IsZeroStep(c: Code, m: State, below: seq<u32>, a: u32)
    requires m.vm == Running && m.stack == below + [a] && |below| < STACK_UNITS
    requires m.pc < c.size && Fetch(c, m.pc) == 0x38
    ensures Step(c, m) == (m.(pc := m.pc + 1, stack := below + [Flag(a == 0)]), Success)
  {
    hide Apply;
    assert m.stack[..|m.stack| - 1] == below;
  }

  // ----- how much stack a tree needs -----

  /** Enough room changes nothing; too little is always an overflow unless a division fails first. */
  lemma {:induction false} DepthIsExact(e: Expr, room: int)
    ensures room >= Depth(e) ==> Eval(e, room) == Eval(e, Depth(e)) && !Eval(e, room).Overflow?
    ensures room < Depth(e) ==> !Eval(e, room).Value?
    ensures room < Depth(e) && Eval(e, Depth(e)).Value? ==> Eval(e, room).Overflow?
  {
    hide Apply;
    match e
    case Const(_, _) =>
    case IsZeroOf(a) =>
      DepthIsExact(a, room);
    case Binop(op, l, r) =>
      DepthIsExact(l, room);
      DepthIsExact(l, Depth(e));
      DepthIsExact(r, room - 1);
      DepthIsExact(r, Depth(e) - 1);
  }

  /** With head room for its depth and no zero divisor, a tree's code just pushes its value. */
  lemma PostfixPushesValue(c: Code, m: State, e: Expr)
    requires m.vm == Running && Bounded(m)
    requires Placed(c, m.pc, Compile(e))
    requires |m.stack| + Depth(e) <= STACK_UNITS && Eval(e, Depth(e)).Value?
    ensures m.pc + |Compile(e)| < WORD_LIMIT
    ensures Run(c, m, Length(e)) ==
            (m.(stack := m.stack + [Eval(e, Depth(e)).v], pc := m.pc + |Compile(e)|), Success)
  {
    hide Step;
    hide Eval;
    hide Depth;
    DepthIsExact(e, STACK_UNITS - |m.stack|);
    PostfixCorrect(c, m, e);
  }
}
