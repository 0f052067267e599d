/**
 * One step of the bytecode interpreter as a function on machine states. The code is executed
 * in place from a window of flash; `Vm` is the imperative counterpart.
 */
module Machine {
  import opened Bytes
  import opened Alu

  const STACK_UNITS := 256
  const FRAME_UNITS := 64
  const INDIRECT_UNITS := 64

  const EXCEPTION_STACK_OVERFLOW := 1
  const EXCEPTION_STACK_UNDERFLOW := 2
  const EXCEPTION_DIVISION_BY_ZERO := 3
  const EXCEPTION_INVALID_OPCODE := 5
  const EXCEPTION_ACCESS_VIOLATION := 8

  datatype VmState = Idle | Initializing | Running | Suspended | Exception | Shutdown

  datatype Result =
    | Success | InvalidState | MemoryAccess | StackUnderflow | StackOverflow | InvalidParam | InvalidOpcode

  datatype Frame = Frame(returnAddress: u32, basePointer: u32, frameSize: u32)

  /** The live parts of the runtime context: only the cells below each stack pointer. */
  datatype State = State(stack: seq<u32>, frames: seq<Frame>, indirect: nat, pc: u32, vm: VmState, exception: nat)

  predicate Bounded(m: State) {
    |m.stack| <= STACK_UNITS && |m.frames| <= FRAME_UNITS && m.indirect <= INDIRECT_UNITS
  }

  // ----- code in flash -----

  /** The code window [offset, offset + size) of a flash image. */
  datatype Image = Image(flash: seq<byte>, offset: nat, size: u32)

  predicate InFlash(c: Image) {
    c.offset + c.size <= |c.flash| < WORD_LIMIT
  }

  type Code = c: Image | InFlash(c) witness Image([], 0, 0)

  function Fetch(c: Code, pc: u32): byte
    requires pc < c.size
  {
    c.flash[c.offset + pc]
  }

  // ----- instructions -----

  datatype Instr =
    | Trap | Nop | Pop | PopIs
    | BranchS8 | BranchS16 | BranchZeroS8 | BranchNonZeroS8
    | Ret | Call
    | LoadShort(value: u32) | LoadWide
    | Binary(op: BinOp) | IsZero
    | Unknown

  function Decode(b: byte): Instr {
    if b == 0x00 then Trap
    else if b == 0x01 then Nop
    else if b == 0x02 then Pop
    else if b == 0x03 then PopIs
    else if b == 0x04 then BranchS8
    else if b == 0x05 then BranchS16
    else if b == 0x06 then BranchZeroS8
    else if b == 0x08 then BranchNonZeroS8
    else if b == 0x0A then Ret
    else if b == 0x0C then Call
    else if 0x18 <= b <= 0x20 then LoadShort(b as int - 0x18)
    else if b == 0x21 then LoadWide
    else if b == 0x22 then LoadShort(0xFFFF_FFFF)
    else if 0x27 <= b <= 0x35 then Binary(DecodeArithmetic(b))
    else if b == 0x38 then IsZero
    else if 0x39 <= b <= 0x42 then Binary(DecodeComparison(b))
    else Unknown
  }

  function DecodeArithmetic(b: byte): BinOp {
    if b == 0x27 then Add
    else if b == 0x28 then Sub
    else if b == 0x29 then Mul
    else if b == 0x2A then DivS
    else if b == 0x2B then DivU
    else if b == 0x2C then RemS
    else if b == 0x2D then RemU
    else if b == 0x2E then And
    else if b == 0x2F then Or
    else if b == 0x30 then Xor
    else if b == 0x31 then Shl
    else if b == 0x32 then ShrS
    else if b == 0x33 then ShrU
    else if b == 0x34 then RotL
    else RotR
  }

  function DecodeComparison(b: byte): BinOp {
    if b == 0x39 then Eq
    else if b == 0x3A then Ne
    else if b == 0x3B then LtS
    else if b == 0x3C then LtU
    else if b == 0x3D then GtS
    else if b == 0x3E then GtU
    else if b == 0x3F then LeS
    else if b == 0x40 then LeU
    else if b == 0x41 then GeS
    else GeU
  }

  // ----- stack and operands -----

  /** What an operation leaves behind: the state, its return code and the value it produced. */
  datatype Outcome = Outcome(m: State, result: Result, value: u32)

  function PushWord(m: State, v: u32): (State, Result) {
    if |m.stack| >= STACK_UNITS then (m.(exception := EXCEPTION_STACK_OVERFLOW, vm := Exception), StackOverflow)
    else (m.(stack := m.stack + [v]), Success)
  }

  function PopWord(m: State): Outcome {
    if m.stack == [] then
      Outcome(m.(exception := EXCEPTION_STACK_UNDERFLOW, vm := Exception), StackUnderflow, 0)
    else
      Outcome(m.(stack := m.stack[..|m.stack| - 1]), Success, m.stack[|m.stack| - 1])
  }

  function ReadByte(c: Code, m: State): Outcome {
    if m.pc >= c.size then Outcome(m.(exception := EXCEPTION_ACCESS_VIOLATION), MemoryAccess, 0)
    else Outcome(m.(pc := m.pc + 1), Success, Fetch(c, m.pc) as int)
  }

  /** Operands are big-endian. */
  function ReadU16(c: Code, m: State): Outcome {
    var hi := ReadByte(c, m);
    if !hi.result.Success? then hi else
    var lo := ReadByte(c, hi.m);
    if !lo.result.Success? then lo else
    Outcome(lo.m, Success, Wrap(hi.value * 256 + lo.value))
  }

  function S8(x: u32): int {
    if x < 0x80 then x else x - 0x100
  }

  function S16(x: u32): int {
    if x < 0x8000 then x else x - 0x1_0000
  }

  function Jump(m: State, offset: int): State {
    m.(pc := Wrap(m.pc + offset))
  }

  // ----- execution -----

  function ExecTrap(c: Code, m: State): (State, Result) {
    var code := ReadByte(c, m);
    if !code.result.Success? then (code.m, code.result)
    else (code.m.(exception := code.value, vm := Exception), Success)
  }

  function ExecPopIs(m: State): (State, Result) {
    if m.indirect == 0 then (m.(exception := EXCEPTION_STACK_UNDERFLOW), StackUnderflow)
    else (m.(indirect := m.indirect - 1), Success)
  }

  function ExecBranch(offset: Outcome, distance: int): (State, Result) {
    if !offset.result.Success? then (offset.m, offset.result)
    else (Jump(offset.m, distance), Success)
  }

  function ExecBranchIf(c: Code, m: State, onZero: bool): (State, Result) {
    var offset := ReadByte(c, m);
    if !offset.result.Success? then (offset.m, offset.result) else
    var v := PopWord(offset.m);
    if !v.result.Success? then (v.m, v.result)
    else if (v.value == 0) == onZero then (Jump(v.m, S8(offset.value)), Success)
    else (v.m, Success)
  }

  function ExecRet(m: State): (State, Result) {
    if m.frames == [] then (m.(exception := EXCEPTION_STACK_UNDERFLOW), StackUnderflow)
    else
      var top := |m.frames| - 1;
      (m.(frames := m.frames[..top], pc := m.frames[top].returnAddress), Success)
  }

  function ExecCall(c: Code, m: State): (State, Result) {
    var target := ReadU16(c, m);
    if !target.result.Success? then (target.m, target.result)
    else if |m.frames| >= FRAME_UNITS then (target.m.(exception := EXCEPTION_STACK_OVERFLOW), StackOverflow)
    else
      var frame := Frame(target.m.pc, Wrap(|m.stack|), 0);
      (target.m.(frames := m.frames + [frame], pc := target.value), Success)
  }

  function ExecLoadWide(c: Code, m: State): (State, Result) {
    var hi := ReadU16(c, m);
    if !hi.result.Success? then (hi.m, hi.result) else
    var lo := ReadU16(c, hi.m);
    if !lo.result.Success? then (lo.m, lo.result)
    else PushWord(lo.m, Wrap(hi.value * 0x1_0000 + lo.value))
  }

  /** The right operand is on top of the stack. */
  function ExecBinary(m: State, op: BinOp): (State, Result) {
    var b := PopWord(m);
    if !b.result.Success? then (b.m, b.result) else
    var a := PopWord(b.m);
    if !a.result.Success? then (a.m, a.result) else
    var v := Apply(op, a.value, b.value);
    if v.None? then (a.m.(exception := EXCEPTION_DIVISION_BY_ZERO), InvalidParam)
    else PushWord(a.m, v.value)
  }

  function ExecIsZero(m: State): (State, Result) {
    var a := PopWord(m);
    if !a.result.Success? then (a.m, a.result)
    else PushWord(a.m, Flag(a.value == 0))
  }

  function Exec(c: Code, m: State, i: Instr): (State, Result) {
    match i
    case Trap => ExecTrap(c, m)
    case Nop => (m, Success)
    case Pop => (PopWord(m).m, PopWord(m).result)
    case PopIs => ExecPopIs(m)
    case BranchS8 => ExecBranch(ReadByte(c, m), S8(ReadByte(c, m).value))
    case BranchS16 => ExecBranch(ReadU16(c, m), S16(ReadU16(c, m).value))
    case BranchZeroS8 => ExecBranchIf(c, m, true)
    case BranchNonZeroS8 => ExecBranchIf(c, m, false)
    case Ret => ExecRet(m)
    case Call => ExecCall(c, m)
    case LoadShort(v) => PushWord(m, v)
    case LoadWide => ExecLoadWide(c, m)
    case Binary(op) => ExecBinary(m, op)
    case IsZero => ExecIsZero(m)
    case Unknown => (m.(exception := EXCEPTION_INVALID_OPCODE, vm := Exception), InvalidOpcode)
  }

  /** One call of the interpreter. */
  function Step(c: Code, m: State): (State, Result) {
    if m.vm != Running then (m, InvalidState)
    else if m.pc >= c.size then (m, MemoryAccess)
    else Exec(c, m.(pc := m.pc + 1), Decode(Fetch(c, m.pc)))
  }

  /** Up to n calls, stopping at the first one that does not succeed. */
  function Run(c: Code, m: State, n: nat): (State, Result)
    decreases n
  {
    if n == 0 then (m, Success)
    else
      var s := Step(c, m);
      if s.1.Success? then Run(c, s.0, n - 1) else s
  }

  /** n calls in a row, whatever each of them returns. */
  function After(c: Code, m: State, n: nat): State
    decreases n
  {
    if n == 0 then m else After(c, Step(c, m).0, n - 1)
  }
}
