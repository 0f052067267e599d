/**
 * Structured programs over the operand stack, with conditionals, loops and calls, their bytecode, and the theorem that
 * running the bytecode does what the program means: it ends with the same stack, fails with the same error, or goes on.
 */
module Control {
  import opened Bytes
  import opened Alu
  import opened Machine
  import opened Postfix

  /**
   * A conditional and a loop test take a value off the stack; `onZero` says that zero chooses the first branch, or
   * another turn. `wide` asks for the jump with a 16-bit distance.
   */
  datatype Prog =
    | Push(value: u32, long: bool)
    | Op(op: BinOp)
    | IsZero
    | Drop
    | Skip
    | Trap(code: byte)
    | Seq(first: Prog, second: Prog)
    | If(onZero: bool, yes: Prog, no: Prog, wide: bool)
    | While(test: Prog, onZero: bool, body: Prog, wide: bool)
    | DoWhile(body: Prog, onZero: bool)
    | CallOf(k: nat)

  /** How a program ends: with a stack, with a return code and an exception, or not within the turns and calls given. */
  datatype Ending = Ends(stack: seq<u32>) | Fails(result: Machine.Result, exception: int) | Ongoing

  const OVERFLOWS := Fails(StackOverflow, 1)
  const UNDERFLOWS := Fails(StackUnderflow, 2)
  const DIVIDES := Fails(InvalidParam, 3)

  function Top(s: seq<u32>): u32
    requires s != []
  {
    s[|s| - 1]
  }

  function Below(s: seq<u32>): seq<u32>
    requires s != []
  {
    s[..|s| - 1]
  }

  /**
   * What a program does to a stack, when `depth` calls are open and at most `fuel` turns and calls are nested or follow
   * one another. A program called ends where it was called.
   */
  function Meaning(p: Prog, procs: seq<Prog>, s: seq<u32>, depth: nat, fuel: nat): (e: Ending)
    decreases fuel, p
  {
    match p
    case Push(v, _) => if |s| >= STACK_UNITS then OVERFLOWS else Ends(s + [v])
    case Op(op) =>
      if |s| < 2 then UNDERFLOWS
      else
        var v := Apply(op, Top(Below(s)), Top(s));
        if v.None? then DIVIDES else Ends(Below(Below(s)) + [v.value])
    case IsZero => if s == [] then UNDERFLOWS else Ends(Below(s) + [if Top(s) == 0 then 1 else 0])
    case Drop => if s == [] then UNDERFLOWS else Ends(Below(s))
    case Skip => Ends(s)
    case Trap(code) => Fails(InvalidState, code as int)
    case Seq(a, b) =>
      var e := Meaning(a, procs, s, depth, fuel);
      if e.Ends? then Meaning(b, procs, e.stack, depth, fuel) else e
    case If(onZero, yes, no, _) =>
      if s == [] then UNDERFLOWS
      else if (Top(s) == 0) == onZero then Meaning(yes, procs, Below(s), depth, fuel)
      else Meaning(no, procs, Below(s), depth, fuel)
    case While(test, onZero, body, _) =>
      var e := Meaning(test, procs, s, depth, fuel);
      if !e.Ends? then e
      else if e.stack == [] then UNDERFLOWS
      else if (Top(e.stack) == 0) != onZero then Ends(Below(e.stack))
      else
        var f := Meaning(body, procs, Below(e.stack), depth, fuel);
        if !f.Ends? then f else if fuel == 0 then Ongoing else Meaning(p, procs, f.stack, depth, fuel - 1)
    case DoWhile(body, onZero) =>
      var e := Meaning(body, procs, s, depth, fuel);
      if !e.Ends? then e
      else if e.stack == [] then UNDERFLOWS
      else if (Top(e.stack) == 0) != onZero then Ends(Below(e.stack))
      else if fuel == 0 then Ongoing
      else Meaning(p, procs, Below(e.stack), depth, fuel - 1)
    case CallOf(k) =>
      if k >= |procs| then Ongoing
      else if depth >= FRAME_UNITS then OVERFLOWS
      else if fuel == 0 then Ongoing
      else Meaning(procs[k], procs, s, depth + 1, fuel - 1)
  }

  // ----- bytecode -----

  /** A distance in two's complement. */
  function Near(d: int): byte
    requires -0x80 <= d < 0x80
  {
    (d % 0x100) as byte
  }

  function Far(d: int): (s: seq<byte>)
    requires -0x8000 <= d < 0x1_0000
    ensures |s| == 2
  {
    [(d % 0x1_0000 / 0x100) as byte, (d % 0x100) as byte]
  }

  function JumpSize(wide: bool): nat {
    if wide then 3 else 2
  }

  predicate Reaches(d: int, wide: bool) {
    if wide then -0x8000 <= d < 0x8000 else -0x80 <= d < 0x80
  }

  /** A jump over, or back by, a number of bytes counted from behind itself. */
  function Jump(d: int, wide: bool): (s: seq<byte>)
    requires Reaches(d, wide)
    ensures |s| == JumpSize(wide)
  {
    if wide then [0x05] + Far(d) else [0x04, Near(d)]
  }

  /** The same, if the value on top of the stack is, or is not, zero. */
  function JumpIf(zero: bool, d: int): (s: seq<byte>)
    requires Reaches(d, false)
    ensures |s| == 2
  {
    [if zero then 0x06 else 0x08, Near(d)]
  }

  function CallCode(address: nat): (s: seq<byte>)
    requires address < 0x1_0000
    ensures |s| == 3
  {
    [0x0C] + Far(address)
  }

  /** The number of bytes a program takes. */
  function Size(p: Prog): nat {
    match p
    case Push(v, long) => |ConstCode(v, long)|
    case Op(_) => 1
    case IsZero => 1
    case Drop => 1
    case Skip => 1
    case Trap(_) => 2
    case Seq(a, b) => Size(a) + Size(b)
    case If(_, yes, no, wide) => 2 + Size(yes) + JumpSize(wide) + Size(no)
    case While(test, _, body, wide) => Size(test) + 2 + Size(body) + JumpSize(wide)
    case DoWhile(body, _) => Size(body) + 2
    case CallOf(_) => 3
  }

  /** The distance from behind a program back to its first byte. */
  function Back(p: Prog): int {
    var n: int := Size(p);
    -n
  }

  /** All jumps reach, and the programs called have addresses. */
  predicate Fits(p: Prog, addresses: seq<nat>) {
    match p
    case Seq(a, b) => Fits(a, addresses) && Fits(b, addresses)
    case If(_, yes, no, wide) =>
      Fits(yes, addresses) && Fits(no, addresses)
      && Reaches(Size(yes) + JumpSize(wide), false) && Reaches(Size(no), wide)
    case While(test, _, body, wide) =>
      Fits(test, addresses) && Fits(body, addresses)
      && Reaches(Size(body) + JumpSize(wide), false) && Reaches(Back(p), wide)
    case DoWhile(body, _) => Fits(body, addresses) && Reaches(Back(p), false)
    case CallOf(k) => k < |addresses| && addresses[k] < 0x1_0000
    case _ => true
  }

  /** Pieces of code in a row. */
  function Two(s: seq<byte>, t: seq<byte>): (r: seq<byte>)
    ensures |r| == |s| + |t|
  {
    s + t
  }

  function Four(s: seq<byte>, t: seq<byte>, u: seq<byte>, v: seq<byte>): (r: seq<byte>)
    ensures |r| == |s| + |t| + |u| + |v|
  {
    s + t + (u + v)
  }

  function CodeOf(p: Prog, addresses: seq<nat>): (s: seq<byte>)
    requires Fits(p, addresses)
    ensures |s| == Size(p)
  {
    match p
    case Push(v, long) => ConstCode(v, long)
    case Op(op) => [OpcodeOf(op)]
    case IsZero => [0x38]
    case Drop => [0x02]
    case Skip => [0x01]
    case Trap(code) => [0x00, code]
    case Seq(a, b) => Two(CodeOf(a, addresses), CodeOf(b, addresses))
    case If(onZero, yes, no, wide) =>
      Four(JumpIf(!onZero, Size(yes) + JumpSize(wide)), CodeOf(yes, addresses), Jump(Size(no), wide),
           CodeOf(no, addresses))
    case While(test, onZero, body, wide) =>
      Four(CodeOf(test, addresses), JumpIf(!onZero, Size(body) + JumpSize(wide)), CodeOf(body, addresses),
           Jump(Back(p), wide))
    case DoWhile(body, onZero) => Two(CodeOf(body, addresses), JumpIf(onZero, Back(p)))
    case CallOf(k) => CallCode(addresses[k])
  }

  /** Every program that can be called stands at its address, with a return behind it. */
  ghost predicate Linked(c: Code, procs: seq<Prog>, addresses: seq<nat>) {
    |procs| == |addresses|
    && forall k :: 0 <= k < |procs| ==>
         Fits(procs[k], addresses) && Placed(c, addresses[k], CodeOf(procs[k], addresses) + [0x0A])
  }

  // ----- single instructions -----

  lemma NearValue(d: int)
    requires -0x80 <= d < 0x80
    ensures S8(Near(d) as int) == d
  {
    ByteRoundTrip(d % 0x100);
  }

  lemma FarValue(d: int)
    requires -0x8000 <= d < 0x1_0000
    ensures var s := Far(d); (s[0] as int) * 0x100 + s[1] as int == d % 0x1_0000
    ensures d < 0x8000 ==> S16(d % 0x1_0000) == d
  {
    ByteRoundTrip(d % 0x1_0000 / 0x100);
    ByteRoundTrip(d % 0x100);
  }

  /** The bytes of an instruction, one by one. */
  lemma PlacedBytes(c: Code, at: int, s: seq<byte>)
    requires Placed(c, at, s)
    ensures |s| >= 1 ==> 0 <= at < c.size && Fetch(c, at) == s[0]
    ensures |s| >= 2 ==> at + 1 < c.size && Fetch(c, at + 1) == s[1]
    ensures |s| >= 3 ==> at + 2 < c.size && Fetch(c, at + 2) == s[2]
  {
    assert |s| >= 1 ==> Fetch(c, at + 0) == s[0];
  }

  lemma Unary(c: Code, m: State, b: byte)
    requires m.vm == Running && m.pc < c.size && Fetch(c, m.pc) == b
    ensures Step(c, m) == Exec(c, m.(pc := m.pc + 1), Decode(b))
  {
    hide Exec;
    hide Decode;
  }

  lemma OpFails(c: Code, m: State, op: BinOp)
    requires m.vm == Running && m.pc < c.size && Fetch(c, m.pc) == OpcodeOf(op) && |m.stack| < 2
    ensures Step(c, m).1 == StackUnderflow && Step(c, m).0.exception == 2
  {
    DecodeOpcode(op);
    Unary(c, m, OpcodeOf(op));
    hide Decode;
    hide Step;
    hide Apply;
  }

  lemma SimpleSteps(c: Code, m: State)
    requires m.vm == Running && m.pc < c.size
    ensures Fetch(c, m.pc) == 0x01 ==> Step(c, m) == (m.(pc := m.pc + 1), Success)
    ensures Fetch(c, m.pc) == 0x02 && m.stack != [] ==>
              Step(c, m) == (m.(pc := m.pc + 1, stack := Below(m.stack)), Success)
    ensures (Fetch(c, m.pc) == 0x02 || Fetch(c, m.pc) == 0x38) && m.stack == [] ==>
              Step(c, m).1 == StackUnderflow && Step(c, m).0.exception == 2
  {
    Unary(c, m, Fetch(c, m.pc));
    hide Step;
    hide Apply;
  }

  /** POP.IS lowers the pointer of the indirect stack, and nothing else. */
  lemma PopIsStep(c: Code, m: State)
    requires m.vm == Running && Placed(c, m.pc, [0x03])
    ensures m.indirect > 0 ==>
              m.pc + 1 < WORD_LIMIT && Step(c, m) == (m.(pc := m.pc + 1, indirect := m.indirect - 1), Success)
    ensures m.indirect == 0 ==> Step(c, m).1 == StackUnderflow && Step(c, m).0.exception == 2
  {
    PlacedFirst(c, m.pc, [0x03]);
    Unary(c, m, 0x03);
    hide Placed;
    hide Step;
    hide Apply;
  }

  lemma TrapStep(c: Code, m: State, code: byte)
    requires m.vm == Running && Placed(c, m.pc, [0x00, code])
    ensures Run(c, m, 2).1 == InvalidState && Run(c, m, 2).0.exception == code as int
  {
    PlacedBytes(c, m.pc, [0x00, code]);
    var n := Step(c, m);
    assert n == (m.(pc := m.pc + 2, exception := code as int, vm := Exception), Success);
    assert Step(c, n.0) == (n.0, InvalidState);
    hide Step;
    assert Run(c, m, 2) == Run(c, n.0, 1);
  }

  lemma JumpStep(c: Code, m: State, d: int, wide: bool)
    requires m.vm == Running && Reaches(d, wide) && Placed(c, m.pc, Jump(d, wide))
    requires 0 <= m.pc + JumpSize(wide) + d < WORD_LIMIT
    ensures Step(c, m) == (m.(pc := m.pc + JumpSize(wide) + d), Success)
  {
    hide *;
    PlacedBytes(c, m.pc, Jump(d, wide));
    JumpBytes(d, wide);
    if wide {
      FarJumpStep(c, m, d);
    } else {
      NearJumpStep(c, m, d);
    }
  }

  lemma JumpBytes(d: int, wide: bool)
    requires Reaches(d, wide)
    ensures wide ==> -0x8000 <= d < 0x8000 && JumpSize(wide) == 3
    ensures !wide ==> -0x80 <= d < 0x80 && JumpSize(wide) == 2
    ensures var s := Jump(d, wide);
            if wide then |s| == 3 && s[0] == 0x05 && s[1] == Far(d)[0] && s[2] == Far(d)[1]
            else |s| == 2 && s[0] == 0x04 && s[1] == Near(d)
  {
    hide Near;
    hide Far;
  }

  lemma NearJumpStep(c: Code, m: State, d: int)
    requires m.vm == Running && -0x80 <= d < 0x80 && m.pc + 1 < c.size
    requires Fetch(c, m.pc) == 0x04 && Fetch(c, m.pc + 1) == Near(d)
    requires 0 <= m.pc + 2 + d < WORD_LIMIT
    ensures Step(c, m) == (m.(pc := m.pc + 2 + d), Success)
  {
    NearValue(d);
    Unary(c, m, 0x04);
    hide Near;
    hide Step;
    NearJumpExec(c, m.(pc := m.pc + 1), Near(d));
    hide Exec;
    hide Decode;
    hide S8;
  }

  lemma NearJumpExec(c: Code, m: State, b: byte)
    requires m.pc < c.size && Fetch(c, m.pc) == b && 0 <= m.pc + 1 + S8(b as int) < WORD_LIMIT
    ensures Exec(c, m, Decode(0x04)) == (m.(pc := m.pc + 1 + S8(b as int)), Success)
  {
    hide S8;
  }

  lemma FarJumpStep(c: Code, m: State, d: int)
    requires m.vm == Running && -0x8000 <= d < 0x8000 && m.pc + 2 < c.size
    requires Fetch(c, m.pc) == 0x05 && Fetch(c, m.pc + 1) == Far(d)[0] && Fetch(c, m.pc + 2) == Far(d)[1]
    requires 0 <= m.pc + 3 + d < WORD_LIMIT
    ensures Step(c, m) == (m.(pc := m.pc + 3 + d), Success)
  {
    var m1 := m.(pc := m.pc + 1);
    FarValue(d);
    ReadU16Value(c, m1, Far(d)[0] as int, Far(d)[1] as int);
    hide ReadU16;
    hide Far;
    Unary(c, m, 0x05);
    hide Step;
    FarJumpExec(c, m1, d % 0x1_0000);
    hide Exec;
    hide Decode;
    hide S16;
  }

  lemma FarJumpExec(c: Code, m: State, x: int)
    requires 0 <= x < 0x1_0000 && m.pc + 2 < WORD_LIMIT && 0 <= m.pc + 2 + S16(x) < WORD_LIMIT
    requires ReadU16(c, m) == Outcome(m.(pc := m.pc + 2), Success, x)
    ensures Exec(c, m, Decode(0x05)) == (m.(pc := m.pc + 2 + S16(x)), Success)
  {
    hide ReadU16;
    hide S16;
  }

  /** The conditional jump takes a value, and jumps exactly if it is zero, or is not. */
  lemma JumpIfStep(c: Code, m: State, zero: bool, d: int)
    requires m.vm == Running && Reaches(d, false) && Placed(c, m.pc, JumpIf(zero, d))
    requires 0 <= m.pc + 2 + d < WORD_LIMIT
    ensures m.stack == [] ==> Step(c, m).1 == StackUnderflow && Step(c, m).0.exception == 2
    ensures m.stack != [] && (Top(m.stack) == 0) == zero ==>
              Step(c, m) == (m.(pc := m.pc + 2 + d, stack := Below(m.stack)), Success)
    ensures m.stack != [] && (Top(m.stack) == 0) != zero ==>
              Step(c, m) == (m.(pc := m.pc + 2, stack := Below(m.stack)), Success)
  {
    PlacedBytes(c, m.pc, JumpIf(zero, d));
    NearValue(d);
    Unary(c, m, if zero then 0x06 else 0x08);
    JumpIfExec(c, m.(pc := m.pc + 1), zero, Near(d));
    hide Near;
    hide Step;
    hide Exec;
    hide Decode;
    hide S8;
    hide Top;
    hide Below;
  }

  lemma JumpIfDecodes()
    ensures Decode(0x06) == BranchZeroS8 && Decode(0x08) == BranchNonZeroS8
  {
  }

  lemma JumpIfExec(c: Code, m: State, zero: bool, b: byte)
    requires m.pc < c.size && Fetch(c, m.pc) == b && 0 <= m.pc + 1 + S8(b as int) < WORD_LIMIT
    ensures var r := Exec(c, m, Decode(if zero then 0x06 else 0x08));
            if m.stack == [] then r.1 == StackUnderflow && r.0.exception == 2
            else if (Top(m.stack) == 0) == zero then
              r == (m.(pc := m.pc + 1 + S8(b as int), stack := Below(m.stack)), Success)
            else r == (m.(pc := m.pc + 1, stack := Below(m.stack)), Success)
  {
    JumpIfDecodes();
    hide Decode;
    BranchIfIs(c, m, zero, b);
    hide ExecBranchIf;
    hide S8;
    hide Top;
    hide Below;
  }

  lemma BranchIfIs(c: Code, m: State, zero: bool, b: byte)
    requires m.pc < c.size && Fetch(c, m.pc) == b && 0 <= m.pc + 1 + S8(b as int) < WORD_LIMIT
    ensures var r := ExecBranchIf(c, m, zero);
            if m.stack == [] then r.1 == StackUnderflow && r.0.exception == 2
            else if (Top(m.stack) == 0) == zero then
              r == (m.(pc := m.pc + 1 + S8(b as int), stack := Below(m.stack)), Success)
            else r == (m.(pc := m.pc + 1, stack := Below(m.stack)), Success)
  {
    hide S8;
  }

  lemma CallStep(c: Code, m: State, address: nat)
    requires m.vm == Running && address < 0x1_0000 && Placed(c, m.pc, CallCode(address))
    ensures |m.frames| >= FRAME_UNITS ==> Step(c, m).1 == StackOverflow && Step(c, m).0.exception == 1
    ensures |m.frames| < FRAME_UNITS ==>
              Step(c, m) == (m.(pc := address, frames := m.frames + [Frame(m.pc + 3, Wrap(|m.stack|), 0)]), Success)
  {
    var r := CallReads(c, m, address);
    Unary(c, m, 0x0C);
    CallDecodes(c, m.(pc := m.pc + 1));
    hide Step;
    hide Exec;
    hide Decode;
    CallExec(c, m.(pc := m.pc + 1), address);
    hide ExecCall;
  }

  lemma CallDecodes(c: Code, m: State)
    ensures Exec(c, m, Decode(0x0C)) == ExecCall(c, m)
  {
    hide ExecCall;
  }

  lemma CallReads(c: Code, m: State, address: nat) returns (n: State)
    requires address < 0x1_0000 && Placed(c, m.pc, CallCode(address))
    ensures m.pc + 2 < c.size && Fetch(c, m.pc) == 0x0C && n == m.(pc := m.pc + 1)
    ensures ReadU16(c, n) == Outcome(n.(pc := n.pc + 2), Success, address)
  {
    hide *;
    CallOperand(c, m.pc, address);
    n := m.(pc := m.pc + 1);
    ReadU16Value(c, n, Fetch(c, n.pc) as int, Fetch(c, n.pc + 1) as int);
  }

  lemma CallOperand(c: Code, at: int, address: nat)
    requires address < 0x1_0000 && Placed(c, at, CallCode(address))
    ensures 0 <= at && at + 2 < c.size && Fetch(c, at) == 0x0C && at + 3 < WORD_LIMIT
    ensures (Fetch(c, at + 1) as int) * 256 + Fetch(c, at + 2) as int == address
  {
    hide *;
    PlacedBytes(c, at, CallCode(address));
    FarValue(address);
    CallBytes(address);
    Remains(address);
    InWindow(c, at);
  }

  lemma CallBytes(address: nat)
    requires address < 0x1_0000
    ensures var s, f := CallCode(address), Far(address); s[0] == 0x0C && s[1] == f[0] && s[2] == f[1]
  {
    hide Far;
  }

  lemma InWindow(c: Code, at: int)
    requires at + 2 < c.size
    ensures at + 3 < WORD_LIMIT
  {
  }

  lemma Remains(x: nat)
    requires x < 0x1_0000
    ensures x % 0x1_0000 == x
  {
  }

  lemma CallExec(c: Code, m: State, address: u32)
    requires m.pc + 2 < WORD_LIMIT && ReadU16(c, m) == Outcome(m.(pc := m.pc + 2), Success, address)
    ensures |m.frames| >= FRAME_UNITS ==> ExecCall(c, m).1 == StackOverflow && ExecCall(c, m).0.exception == 1
    ensures |m.frames| < FRAME_UNITS ==>
              ExecCall(c, m) ==
              (m.(pc := address, frames := m.frames + [Frame(m.pc + 2, Wrap(|m.stack|), 0)]), Success)
  {
    hide ReadU16;
  }

  lemma ReturnStep(c: Code, m: State, frames: seq<Frame>, f: Frame)
    requires m.vm == Running && Placed(c, m.pc, [0x0A]) && m.frames == frames + [f]
    ensures Step(c, m) == (m.(pc := f.returnAddress, frames := frames), Success)
  {
    PlacedBytes(c, m.pc, [0x0A]);
  }

  // ----- running a program -----

  /** What n steps from a state must have led to, over a program of a given size that ends in a given way. */
  ghost predicate Matches(m: State, size: nat, e: Ending, fuel: nat, n: nat, s: (State, Machine.Result)) {
    match e
    case Ends(st) =>
      |st| <= STACK_UNITS && m.pc + size < WORD_LIMIT && s == (m.(stack := st, pc := m.pc + size), Success)
    case Fails(r, x) => r != Success && s.1 == r && s.0.exception == x
    case Ongoing => s.1 == Success && n >= fuel
  }

  lemma Chain(c: Code, m: State, i: nat, m1: State, j: nat)
    requires Run(c, m, i) == (m1, Success)
    ensures Run(c, m, i + j) == Run(c, m1, j)
  {
    RunSplit(c, m, i, j);
  }

  lemma SecondPart(c: Code, at: int, s: seq<byte>, t: seq<byte>)
    requires Placed(c, at, s + t)
    ensures Placed(c, at, s) && Placed(c, at + |s|, t) && at + |s| + |t| < WORD_LIMIT
  {
    PlacedSplit(c, at, s, t);
  }

  lemma TwoParts(c: Code, at: int, whole: seq<byte>, s: seq<byte>, t: seq<byte>)
    requires Placed(c, at, whole) && whole == Two(s, t)
    ensures Placed(c, at, s) && Placed(c, at + |s|, t) && at + |s| + |t| < WORD_LIMIT
  {
    SecondPart(c, at, s, t);
    hide Placed;
  }

  lemma FourParts(c: Code, at: int, whole: seq<byte>, s: seq<byte>, t: seq<byte>, u: seq<byte>, v: seq<byte>,
                  i: int, j: int, k: int, n: int)
    requires Placed(c, at, whole) && whole == Four(s, t, u, v)
    requires i == at + |s| && j == i + |t| && k == j + |u| && n == k + |v|
    ensures Placed(c, at, s) && Placed(c, i, t) && Placed(c, j, u) && Placed(c, k, v) && n < WORD_LIMIT
  {
    SecondPart(c, at, s + t, u + v);
    SecondPart(c, at, s, t);
    SecondPart(c, at + |s + t|, u, v);
    hide Placed;
  }

  lemma Lengths(p: Prog, q: Prog, addresses: seq<nat>)
    requires Fits(p, addresses) && Fits(q, addresses)
    ensures |CodeOf(p, addresses)| == Size(p) && |CodeOf(q, addresses)| == Size(q)
  {
  }

  /** Where a run that ends stands. */
  lemma Stands(c: Code, m: State, size: nat, e: Ending, fuel: nat, n: nat) returns (m1: State)
    requires Matches(m, size, e, fuel, n, Run(c, m, n)) && e.Ends? && Bounded(m)
    ensures m.pc + size < WORD_LIMIT && m1 == m.(stack := e.stack, pc := m.pc + size)
    ensures Run(c, m, n) == (m1, Success) && Bounded(m1)
  {
    m1 := Run(c, m, n).0;
    hide Run;
  }

  /** A run that goes on from where one stood. */
  lemma GoesOn(c: Code, m: State, n: nat, m1: State, size: int, k: nat, rest: nat, e: Ending, fuel1: nat, fuel: nat)
    requires Run(c, m, n) == (m1, Success) && 0 <= m.pc + size < WORD_LIMIT && size + rest >= 0
    requires m1 == m.(stack := m1.stack, pc := m.pc + size)
    requires Matches(m1, rest, e, fuel1, k, Run(c, m1, k)) && fuel <= fuel1 + n
    ensures Matches(m, size + rest, e, fuel, n + k, Run(c, m, n + k))
  {
    Chain(c, m, n, m1, k);
    MatchesLater(m, m1, size, rest, e, fuel1, k, Run(c, m1, k), n, fuel);
    hide *;
  }

  lemma MatchesLater(m: State, m1: State, size: int, rest: nat, e: Ending, fuel1: nat, k: nat,
                     s: (State, Machine.Result), n: nat, fuel: nat)
    requires 0 <= m.pc + size < WORD_LIMIT && size + rest >= 0 && fuel <= fuel1 + n
    requires m1 == m.(stack := m1.stack, pc := m.pc + size) && Matches(m1, rest, e, fuel1, k, s)
    ensures Matches(m, size + rest, e, fuel, n + k, s)
  {
  }

  /** One step that fails, or that leads somewhere. */
  lemma StepFails(c: Code, m: State, r: Machine.Result, x: int, size: nat, fuel: nat)
    requires Step(c, m).1 == r != Success && Step(c, m).0.exception == x
    ensures Matches(m, size, Fails(r, x), fuel, 1, Run(c, m, 1))
  {
    RunOne(c, m);
    hide Run;
    hide Step;
  }

  lemma Stops(c: Code, m: State, size: nat, n: nat, m1: State)
    requires Run(c, m, n) == (m1, Success)
    ensures Matches(m, size, Ongoing, 0, n, Run(c, m, n))
  {
  }

  lemma Arrives(c: Code, m: State, n: nat, m1: State, size: nat, fuel: nat)
    requires Run(c, m, n) == (m1, Success) && m.pc + size < WORD_LIMIT && Bounded(m1)
    requires m1 == m.(stack := m1.stack, pc := m.pc + size)
    ensures Matches(m, size, Ends(m1.stack), fuel, n, Run(c, m, n))
  {
    hide Run;
  }

  lemma FailsOn(c: Code, m: State, n: nat, m1: State, rest: nat, k: nat, e: Ending, fuel1: nat, fuel: nat, size: nat)
    requires Run(c, m, n) == (m1, Success) && !e.Ends? && fuel <= fuel1 + n
    requires Matches(m1, rest, e, fuel1, k, Run(c, m1, k))
    ensures Matches(m, size, e, fuel, n + k, Run(c, m, n + k))
  {
    Chain(c, m, n, m1, k);
    hide Run;
  }

  /** One more step. */
  lemma Further(c: Code, m: State, n: nat, m1: State, m2: State)
    requires Run(c, m, n) == (m1, Success) && Step(c, m1) == (m2, Success)
    ensures Run(c, m, n + 1) == (m2, Success)
  {
    Chain(c, m, n, m1, 1);
    RunOne(c, m1);
    hide Run;
    hide Step;
  }

  lemma FailsNext(c: Code, m: State, n: nat, m1: State, r: Machine.Result, x: int, size: nat, fuel: nat)
    requires Run(c, m, n) == (m1, Success) && Step(c, m1).1 == r != Success && Step(c, m1).0.exception == x
    ensures Matches(m, size, Fails(r, x), fuel, n + 1, Run(c, m, n + 1))
  {
    Chain(c, m, n, m1, 1);
    RunOne(c, m1);
    FailedState(m, size, r, x, fuel, n + 1, Step(c, m1));
    hide *;
  }

  lemma FailedState(m: State, size: nat, r: Machine.Result, x: int, fuel: nat, n: nat, s: (State, Machine.Result))
    requires s.1 == r != Success && s.0.exception == x
    ensures Matches(m, size, Fails(r, x), fuel, n, s)
  {
  }

  lemma NoSteps(c: Code, m: State)
    ensures Run(c, m, 0) == (m, Success)
  {
  }

  lemma Popped(m: State)
    requires Bounded(m) && m.stack != []
    ensures forall pc: u32 :: Bounded(m.(pc := pc, stack := Below(m.stack)))
  {
  }

  lemma StaysFailed(m: State, size: nat, size': nat, e: Ending, fuel: nat, n: nat, s: (State, Machine.Result))
    requires Matches(m, size, e, fuel, n, s) && !e.Ends?
    ensures Matches(m, size', e, fuel, n, s)
  {
  }

  /**
   * From any state at its first byte the code of a program does what the program means: after some number of steps the
   * run stands behind it with the stack the program ends with and everything else as before, or has failed as the
   * program fails, or it has taken at least as many steps as turns and calls were allowed.
   */
  lemma {:induction false} ProgramRuns(c: Code, m: State, p: Prog, procs: seq<Prog>, addresses: seq<nat>,
                                       fuel: nat)
    returns (n: nat)
    requires m.vm == Running && Bounded(m) && Linked(c, procs, addresses)
    requires Fits(p, addresses) && Placed(c, m.pc, CodeOf(p, addresses))
    ensures Matches(m, Size(p), Meaning(p, procs, m.stack, |m.frames|, fuel), fuel, n, Run(c, m, n))
    decreases fuel, p, 2
  {
    match p
    case Seq(a, b) => n := SeqRuns(c, m, a, b, procs, addresses, fuel);
    case If(onZero, yes, no, wide) => n := IfRuns(c, m, onZero, yes, no, wide, procs, addresses, fuel);
    case While(test, onZero, body, wide) => n := WhileRuns(c, m, test, onZero, body, wide, procs, addresses, fuel);
    case DoWhile(body, onZero) => n := DoWhileRuns(c, m, body, onZero, procs, addresses, fuel);
    case CallOf(k) => n := CallRuns(c, m, k, procs, addresses, fuel);
    case Trap(code) =>
      TrapStep(c, m, code);
      n := 2;
    case _ =>
      SimpleRuns(c, m, p, procs, addresses, fuel);
      n := 1;
  }

  lemma SimpleRuns(c: Code, m: State, p: Prog, procs: seq<Prog>, addresses: seq<nat>, fuel: nat)
    requires m.vm == Running && Bounded(m) && (p.Push? || p.Op? || p.IsZero? || p.Drop? || p.Skip?)
    requires Placed(c, m.pc, CodeOf(p, addresses))
    ensures Matches(m, Size(p), Meaning(p, procs, m.stack, |m.frames|, fuel), fuel, 1, Run(c, m, 1))
  {
    RunOne(c, m);
    hide Run;
    hide Step;
    hide Placed;
    if p.Push? {
      PushRuns(c, m, p.value, p.long);
      hide ConstCode;
    } else if p.Op? {
      OpRuns(c, m, p.op);
      hide Apply;
    } else if p.IsZero? {
      IsZeroRuns(c, m);
    } else if p.Drop? {
      DropRuns(c, m);
    } else {
      SkipRuns(c, m);
    }
  }

  lemma PushRuns(c: Code, m: State, v: u32, long: bool)
    requires m.vm == Running && Bounded(m) && Placed(c, m.pc, ConstCode(v, long))
    ensures m.pc + |ConstCode(v, long)| < WORD_LIMIT
    ensures if |m.stack| >= STACK_UNITS then Step(c, m).1 == StackOverflow && Step(c, m).0.exception == 1
            else Step(c, m) == (m.(pc := m.pc + |ConstCode(v, long)|, stack := m.stack + [v]), Success)
  {
    hide ConstCode;
    hide Placed;
    hide Step;
    hide PushWord;
    ConstStep(c, m, v, long);
    PushWordIs(m.(pc := m.pc + |ConstCode(v, long)|), v);
  }

  lemma PushWordIs(m: State, v: u32)
    ensures if |m.stack| >= STACK_UNITS then PushWord(m, v).1 == StackOverflow && PushWord(m, v).0.exception == 1
            else PushWord(m, v) == (m.(stack := m.stack + [v]), Success)
  {
  }

  lemma IsZeroRuns(c: Code, m: State)
    requires m.vm == Running && Bounded(m) && Placed(c, m.pc, [0x38])
    ensures m.pc + 1 < WORD_LIMIT
    ensures if m.stack == [] then Step(c, m).1 == StackUnderflow && Step(c, m).0.exception == 2
            else Step(c, m) ==
                 (m.(pc := m.pc + 1, stack := Below(m.stack) + [if Top(m.stack) == 0 then 1 else 0]), Success)
  {
    PlacedFirst(c, m.pc, [0x38]);
    SimpleSteps(c, m);
    hide Placed;
    hide Step;
    if m.stack != [] {
      assert m.stack == Below(m.stack) + [Top(m.stack)];
      IsZeroStep(c, m, Below(m.stack), Top(m.stack));
    }
  }

  lemma DropRuns(c: Code, m: State)
    requires m.vm == Running && Bounded(m) && Placed(c, m.pc, [0x02])
    ensures m.pc + 1 < WORD_LIMIT
    ensures if m.stack == [] then Step(c, m).1 == StackUnderflow && Step(c, m).0.exception == 2
            else Step(c, m) == (m.(pc := m.pc + 1, stack := Below(m.stack)), Success)
  {
    PlacedFirst(c, m.pc, [0x02]);
    SimpleSteps(c, m);
    hide Placed;
    hide Step;
  }

  lemma SkipRuns(c: Code, m: State)
    requires m.vm == Running && Placed(c, m.pc, [0x01])
    ensures m.pc + 1 < WORD_LIMIT && Step(c, m) == (m.(pc := m.pc + 1), Success)
  {
    PlacedFirst(c, m.pc, [0x01]);
    SimpleSteps(c, m);
    hide Placed;
    hide Step;
  }

  lemma OpRuns(c: Code, m: State, op: BinOp)
    requires m.vm == Running && Bounded(m) && Placed(c, m.pc, [OpcodeOf(op)])
    ensures m.pc + 1 < WORD_LIMIT
    ensures var s := m.stack;
            if |s| < 2 then Step(c, m).1 == StackUnderflow && Step(c, m).0.exception == 2
            else
              var v := Apply(op, Top(Below(s)), Top(s));
              if v.None? then Step(c, m).1 == InvalidParam && Step(c, m).0.exception == 3
              else Step(c, m) == (m.(pc := m.pc + 1, stack := Below(Below(s)) + [v.value]), Success)
  {
    PlacedFirst(c, m.pc, [OpcodeOf(op)]);
    hide Placed;
    hide OpcodeOf;
    hide Step;
    hide Apply;
    var s := m.stack;
    if |s| < 2 {
      OpFails(c, m, op);
    } else {
      assert s == Below(Below(s)) + [Top(Below(s))] + [Top(s)];
      BinaryStep(c, m, Below(Below(s)), Top(Below(s)), Top(s), op);
    }
  }

  // ----- sequences -----

  lemma SeqParts(c: Code, at: int, a: Prog, b: Prog, addresses: seq<nat>)
    requires Fits(Seq(a, b), addresses) && Placed(c, at, CodeOf(Seq(a, b), addresses))
    ensures Fits(a, addresses) && Fits(b, addresses) && Size(Seq(a, b)) == Size(a) + Size(b)
    ensures Placed(c, at, CodeOf(a, addresses)) && Placed(c, at + Size(a), CodeOf(b, addresses))
  {
    hide *;
    SeqShape(a, b, addresses);
    Lengths(a, b, addresses);
    TwoParts(c, at, CodeOf(Seq(a, b), addresses), CodeOf(a, addresses), CodeOf(b, addresses));
  }

  lemma SeqShape(a: Prog, b: Prog, addresses: seq<nat>)
    requires Fits(Seq(a, b), addresses)
    ensures Fits(a, addresses) && Fits(b, addresses) && Size(Seq(a, b)) == Size(a) + Size(b)
    ensures CodeOf(Seq(a, b), addresses) == Two(CodeOf(a, addresses), CodeOf(b, addresses))
  {
  }

  lemma SeqMeans(a: Prog, b: Prog, procs: seq<Prog>, s: seq<u32>, depth: nat, fuel: nat)
    ensures var e := Meaning(a, procs, s, depth, fuel);
            Meaning(Seq(a, b), procs, s, depth, fuel) == if e.Ends? then Meaning(b, procs, e.stack, depth, fuel) else e
  {
    hide Apply;
  }

  lemma {:induction false} SeqRuns(c: Code, m: State, a: Prog, b: Prog, procs: seq<Prog>, addresses: seq<nat>,
                                   fuel: nat)
    returns (n: nat)
    requires m.vm == Running && Bounded(m) && Linked(c, procs, addresses)
    requires Fits(Seq(a, b), addresses) && Placed(c, m.pc, CodeOf(Seq(a, b), addresses))
    ensures Matches(m, Size(Seq(a, b)), Meaning(Seq(a, b), procs, m.stack, |m.frames|, fuel), fuel, n, Run(c, m, n))
    decreases fuel, Seq(a, b), 1
  {
    hide *;
    SeqParts(c, m.pc, a, b, addresses);
    SeqMeans(a, b, procs, m.stack, |m.frames|, fuel);
    n := ProgramRuns(c, m, a, procs, addresses, fuel);
    var e := Meaning(a, procs, m.stack, |m.frames|, fuel);
    if e.Ends? {
      var m1 := Stands(c, m, Size(a), e, fuel, n);
      var k := ProgramRuns(c, m1, b, procs, addresses, fuel);
      GoesOn(c, m, n, m1, Size(a), k, Size(b), Meaning(b, procs, e.stack, |m.frames|, fuel), fuel, fuel);
      n := n + k;
    } else {
      StaysFailed(m, Size(a), Size(Seq(a, b)), e, fuel, n, Run(c, m, n));
    }
  }

  // ----- conditionals -----

  lemma IfParts(c: Code, at: int, onZero: bool, yes: Prog, no: Prog, wide: bool, addresses: seq<nat>, j: nat)
    requires Fits(If(onZero, yes, no, wide), addresses) && Placed(c, at, CodeOf(If(onZero, yes, no, wide), addresses))
    requires Fits(yes, addresses) && Fits(no, addresses) && Reaches(Size(yes) + j, false) && Reaches(Size(no), wide)
    requires j == JumpSize(wide)
    requires CodeOf(If(onZero, yes, no, wide), addresses) ==
             Four(JumpIf(!onZero, Size(yes) + j), CodeOf(yes, addresses), Jump(Size(no), wide), CodeOf(no, addresses))
    ensures Placed(c, at, JumpIf(!onZero, Size(yes) + j)) && Placed(c, at + 2, CodeOf(yes, addresses))
    ensures Placed(c, at + 2 + Size(yes), Jump(Size(no), wide))
    ensures Placed(c, at + 2 + Size(yes) + j, CodeOf(no, addresses))
    ensures at + 2 + Size(yes) + j + Size(no) < WORD_LIMIT
  {
    hide *;
    Lengths(yes, no, addresses);
    FourParts(c, at, CodeOf(If(onZero, yes, no, wide), addresses),
              JumpIf(!onZero, Size(yes) + j), CodeOf(yes, addresses), Jump(Size(no), wide), CodeOf(no, addresses),
              at + 2, at + 2 + Size(yes), at + 2 + Size(yes) + j, at + 2 + Size(yes) + j + Size(no));
  }

  lemma IfShape(onZero: bool, yes: Prog, no: Prog, wide: bool, addresses: seq<nat>)
    requires Fits(If(onZero, yes, no, wide), addresses)
    ensures Fits(yes, addresses) && Fits(no, addresses)
    ensures Reaches(Size(yes) + JumpSize(wide), false) && Reaches(Size(no), wide)
    ensures Size(If(onZero, yes, no, wide)) == 2 + Size(yes) + JumpSize(wide) + Size(no)
    ensures CodeOf(If(onZero, yes, no, wide), addresses) ==
            Four(JumpIf(!onZero, Size(yes) + JumpSize(wide)), CodeOf(yes, addresses), Jump(Size(no), wide),
                 CodeOf(no, addresses))
  {
    hide *;
    IfFits(onZero, yes, no, wide, addresses);
    IfCode(onZero, yes, no, wide, addresses);
  }

  lemma IfCode(onZero: bool, yes: Prog, no: Prog, wide: bool, addresses: seq<nat>)
    requires Fits(If(onZero, yes, no, wide), addresses) && Fits(yes, addresses) && Fits(no, addresses)
    requires Reaches(Size(yes) + JumpSize(wide), false) && Reaches(Size(no), wide)
    ensures CodeOf(If(onZero, yes, no, wide), addresses) ==
            Four(JumpIf(!onZero, Size(yes) + JumpSize(wide)), CodeOf(yes, addresses), Jump(Size(no), wide),
                 CodeOf(no, addresses))
  {
    hide Four;
    hide Two;
    hide ConstCode;
    hide CallCode;
    hide OpcodeOf;
    hide Jump;
    hide JumpIf;
    hide Fits;
    hide Reaches;
    hide JumpSize;
    hide Size;
  }

  lemma IfFits(onZero: bool, yes: Prog, no: Prog, wide: bool, addresses: seq<nat>)
    requires Fits(If(onZero, yes, no, wide), addresses)
    ensures Fits(yes, addresses) && Fits(no, addresses)
    ensures Reaches(Size(yes) + JumpSize(wide), false) && Reaches(Size(no), wide)
    ensures Size(If(onZero, yes, no, wide)) == 2 + Size(yes) + JumpSize(wide) + Size(no)
  {
    hide Reaches;
    hide JumpSize;
  }

  lemma IfMeans(onZero: bool, yes: Prog, no: Prog, wide: bool, procs: seq<Prog>, s: seq<u32>, depth: nat, fuel: nat)
    ensures Meaning(If(onZero, yes, no, wide), procs, s, depth, fuel) ==
            if s == [] then Fails(StackUnderflow, 2)
            else Meaning(if (Top(s) == 0) == onZero then yes else no, procs, Below(s), depth, fuel)
  {
    hide Apply;
  }

  lemma {:induction false} IfRuns(c: Code, m: State, onZero: bool, yes: Prog, no: Prog, wide: bool,
                                  procs: seq<Prog>, addresses: seq<nat>, fuel: nat)
    returns (n: nat)
    requires m.vm == Running && Bounded(m) && Linked(c, procs, addresses)
    requires Fits(If(onZero, yes, no, wide), addresses)
    requires Placed(c, m.pc, CodeOf(If(onZero, yes, no, wide), addresses))
    ensures var p := If(onZero, yes, no, wide);
            Matches(m, Size(p), Meaning(p, procs, m.stack, |m.frames|, fuel), fuel, n, Run(c, m, n))
    decreases fuel, If(onZero, yes, no, wide), 1
  {
    hide *;
    var p := If(onZero, yes, no, wide);
    IfShape(onZero, yes, no, wide, addresses);
    IfParts(c, m.pc, onZero, yes, no, wide, addresses, JumpSize(wide));
    IfMeans(onZero, yes, no, wide, procs, m.stack, |m.frames|, fuel);
    JumpIfStep(c, m, !onZero, Size(yes) + JumpSize(wide));
    if m.stack == [] {
      StepFails(c, m, StackUnderflow, 2, Size(p), fuel);
      n := 1;
    } else {
      var m1 := Step(c, m).0;
      NoSteps(c, m);
      Further(c, m, 0, m, m1);
      Popped(m);
      if (Top(m.stack) == 0) == onZero {
        n := ProgramRuns(c, m1, yes, procs, addresses, fuel);
        var e := Meaning(yes, procs, m1.stack, |m.frames|, fuel);
        if e.Ends? {
          var m2 := Stands(c, m1, Size(yes), e, fuel, n);
          Chain(c, m, 1, m1, n);
          JumpStep(c, m2, Size(no), wide);
          Further(c, m, 1 + n, m2, Step(c, m2).0);
          Jumped(m2, Step(c, m2).0);
          n := n + 2;
          Arrives(c, m, n, Step(c, m2).0, Size(p), fuel);
        } else {
          FailsOn(c, m, 1, m1, Size(yes), n, e, fuel, fuel, Size(p));
          n := 1 + n;
        }
      } else {
        n := ProgramRuns(c, m1, no, procs, addresses, fuel);
        var e := Meaning(no, procs, m1.stack, |m.frames|, fuel);
        GoesOn(c, m, 1, m1, 2 + Size(yes) + JumpSize(wide), n, Size(no), e, fuel, fuel);
        n := 1 + n;
      }
    }
  }

  lemma Jumped(m: State, n: State)
    requires Bounded(m) && n == m.(pc := n.pc)
    ensures Bounded(n)
  {
  }

  // ----- loops -----

  lemma DoWhileParts(c: Code, at: int, p: Prog, body: Prog, j: seq<byte>, addresses: seq<nat>)
    requires Fits(p, addresses) && Fits(body, addresses) && Placed(c, at, CodeOf(p, addresses)) && |j| == 2
    requires CodeOf(p, addresses) == Two(CodeOf(body, addresses), j)
    ensures Placed(c, at, CodeOf(body, addresses)) && Placed(c, at + Size(body), j) && at + Size(body) + 2 < WORD_LIMIT
  {
    hide *;
    Lengths(body, body, addresses);
    TwoParts(c, at, CodeOf(p, addresses), CodeOf(body, addresses), j);
  }

  lemma DoWhileShape(body: Prog, onZero: bool, addresses: seq<nat>)
    requires Fits(DoWhile(body, onZero), addresses)
    ensures Fits(body, addresses) && Reaches(Back(DoWhile(body, onZero)), false)
    ensures Size(DoWhile(body, onZero)) == Size(body) + 2 == -Back(DoWhile(body, onZero))
    ensures CodeOf(DoWhile(body, onZero), addresses) ==
            Two(CodeOf(body, addresses), JumpIf(onZero, Back(DoWhile(body, onZero))))
  {
    hide JumpIf;
  }

  lemma DoWhileMeans(body: Prog, onZero: bool, procs: seq<Prog>, s: seq<u32>, depth: nat, fuel: nat)
    ensures var p, e := DoWhile(body, onZero), Meaning(body, procs, s, depth, fuel);
            Meaning(p, procs, s, depth, fuel) ==
            if !e.Ends? then e
            else if e.stack == [] then Fails(StackUnderflow, 2)
            else if (Top(e.stack) == 0) != onZero then Ends(Below(e.stack))
            else if fuel == 0 then Ongoing
            else Meaning(p, procs, Below(e.stack), depth, fuel - 1)
  {
    hide Apply;
  }

  lemma {:induction false} DoWhileRuns(c: Code, m: State, body: Prog, onZero: bool, procs: seq<Prog>,
                                       addresses: seq<nat>, fuel: nat)
    returns (n: nat)
    requires m.vm == Running && Bounded(m) && Linked(c, procs, addresses)
    requires Fits(DoWhile(body, onZero), addresses) && Placed(c, m.pc, CodeOf(DoWhile(body, onZero), addresses))
    ensures var p := DoWhile(body, onZero);
            Matches(m, Size(p), Meaning(p, procs, m.stack, |m.frames|, fuel), fuel, n, Run(c, m, n))
    decreases fuel, DoWhile(body, onZero), 1
  {
    hide *;
    var p := DoWhile(body, onZero);
    DoWhileShape(body, onZero, addresses);
    DoWhileParts(c, m.pc, p, body, JumpIf(onZero, Back(p)), addresses);
    DoWhileMeans(body, onZero, procs, m.stack, |m.frames|, fuel);
    n := ProgramRuns(c, m, body, procs, addresses, fuel);
    var e := Meaning(body, procs, m.stack, |m.frames|, fuel);
    if !e.Ends? {
      StaysFailed(m, Size(body), Size(p), e, fuel, n, Run(c, m, n));
    } else {
      var m1 := Stands(c, m, Size(body), e, fuel, n);
      JumpIfStep(c, m1, onZero, Back(p));
      if e.stack == [] {
        FailsNext(c, m, n, m1, StackUnderflow, 2, Size(p), fuel);
        n := n + 1;
      } else {
        var m2 := Step(c, m1).0;
        Popped(m1);
        Further(c, m, n, m1, m2);
        n := n + 1;
        if (Top(e.stack) == 0) != onZero {
          Arrives(c, m, n, m2, Size(p), fuel);
        } else if fuel == 0 {
          Stops(c, m, Size(p), n, m2);
        } else {
          var k := ProgramRuns(c, m2, p, procs, addresses, fuel - 1);
          var f := Meaning(p, procs, m2.stack, |m.frames|, fuel - 1);
          GoesOn(c, m, n, m2, 0, k, Size(p), f, fuel - 1, fuel);
          n := n + k;
        }
      }
    }
  }

  lemma WhileParts(c: Code, at: int, p: Prog, test: Prog, t: seq<byte>, body: Prog, j: seq<byte>,
                   addresses: seq<nat>)
    requires Fits(p, addresses) && Fits(test, addresses) && Fits(body, addresses) && |t| == 2
    requires Placed(c, at, CodeOf(p, addresses))
    requires CodeOf(p, addresses) == Four(CodeOf(test, addresses), t, CodeOf(body, addresses), j)
    ensures Placed(c, at, CodeOf(test, addresses)) && Placed(c, at + Size(test), t)
    ensures Placed(c, at + Size(test) + 2, CodeOf(body, addresses)) && Placed(c, at + Size(test) + 2 + Size(body), j)
    ensures at + Size(test) + 2 + Size(body) + |j| < WORD_LIMIT
  {
    hide *;
    Lengths(test, body, addresses);
    FourParts(c, at, CodeOf(p, addresses), CodeOf(test, addresses), t, CodeOf(body, addresses), j,
              at + Size(test), at + Size(test) + 2, at + Size(test) + 2 + Size(body),
              at + Size(test) + 2 + Size(body) + |j|);
  }

  lemma WhileShape(test: Prog, onZero: bool, body: Prog, wide: bool, addresses: seq<nat>)
    requires Fits(While(test, onZero, body, wide), addresses)
    ensures Fits(test, addresses) && Fits(body, addresses)
    ensures Reaches(Size(body) + JumpSize(wide), false) && Reaches(Back(While(test, onZero, body, wide)), wide)
    ensures Size(While(test, onZero, body, wide)) == Size(test) + 2 + Size(body) + JumpSize(wide)
            == -Back(While(test, onZero, body, wide))
    ensures CodeOf(While(test, onZero, body, wide), addresses) ==
            Four(CodeOf(test, addresses), JumpIf(!onZero, Size(body) + JumpSize(wide)), CodeOf(body, addresses),
                 Jump(Back(While(test, onZero, body, wide)), wide))
  {
    hide *;
    WhileFits(test, onZero, body, wide, addresses);
    WhileCode(test, onZero, body, wide, addresses);
  }

  lemma WhileCode(test: Prog, onZero: bool, body: Prog, wide: bool, addresses: seq<nat>)
    requires Fits(While(test, onZero, body, wide), addresses) && Fits(test, addresses) && Fits(body, addresses)
    requires Reaches(Size(body) + JumpSize(wide), false) && Reaches(Back(While(test, onZero, body, wide)), wide)
    ensures CodeOf(While(test, onZero, body, wide), addresses) ==
            Four(CodeOf(test, addresses), JumpIf(!onZero, Size(body) + JumpSize(wide)), CodeOf(body, addresses),
                 Jump(Back(While(test, onZero, body, wide)), wide))
  {
    hide Four;
    hide Two;
    hide ConstCode;
    hide CallCode;
    hide OpcodeOf;
    hide Jump;
    hide JumpIf;
    hide Fits;
    hide Reaches;
    hide JumpSize;
    hide Size;
    hide Back;
  }

  lemma WhileFits(test: Prog, onZero: bool, body: Prog, wide: bool, addresses: seq<nat>)
    requires Fits(While(test, onZero, body, wide), addresses)
    ensures Fits(test, addresses) && Fits(body, addresses)
    ensures Reaches(Size(body) + JumpSize(wide), false) && Reaches(Back(While(test, onZero, body, wide)), wide)
    ensures Size(While(test, onZero, body, wide)) == Size(test) + 2 + Size(body) + JumpSize(wide)
            == -Back(While(test, onZero, body, wide))
  {
    hide Reaches;
    hide JumpSize;
  }

  lemma WhileMeans(test: Prog, onZero: bool, body: Prog, wide: bool, procs: seq<Prog>, s: seq<u32>, depth: nat,
                   fuel: nat)
    ensures var p, e := While(test, onZero, body, wide), Meaning(test, procs, s, depth, fuel);
            Meaning(p, procs, s, depth, fuel) ==
            if !e.Ends? then e
            else if e.stack == [] then Fails(StackUnderflow, 2)
            else if (Top(e.stack) == 0) != onZero then Ends(Below(e.stack))
            else
              var f := Meaning(body, procs, Below(e.stack), depth, fuel);
              if !f.Ends? then f else if fuel == 0 then Ongoing else Meaning(p, procs, f.stack, depth, fuel - 1)
  {
    hide Apply;
  }

  lemma {:induction false} WhileRuns(c: Code, m: State, test: Prog, onZero: bool, body: Prog, wide: bool,
                                     procs: seq<Prog>, addresses: seq<nat>, fuel: nat)
    returns (n: nat)
    requires m.vm == Running && Bounded(m) && Linked(c, procs, addresses)
    requires Fits(While(test, onZero, body, wide), addresses)
    requires Placed(c, m.pc, CodeOf(While(test, onZero, body, wide), addresses))
    ensures var p := While(test, onZero, body, wide);
            Matches(m, Size(p), Meaning(p, procs, m.stack, |m.frames|, fuel), fuel, n, Run(c, m, n))
    decreases fuel, While(test, onZero, body, wide), 1
  {
    hide *;
    var p := While(test, onZero, body, wide);
    var over := Size(body) + JumpSize(wide);
    WhileShape(test, onZero, body, wide, addresses);
    WhileParts(c, m.pc, p, test, JumpIf(!onZero, Size(body) + JumpSize(wide)), body, Jump(Back(p), wide), addresses);
    WhileMeans(test, onZero, body, wide, procs, m.stack, |m.frames|, fuel);
    n := ProgramRuns(c, m, test, procs, addresses, fuel);
    var e := Meaning(test, procs, m.stack, |m.frames|, fuel);
    if !e.Ends? {
      StaysFailed(m, Size(test), Size(p), e, fuel, n, Run(c, m, n));
    } else {
      var m1 := Stands(c, m, Size(test), e, fuel, n);
      JumpIfStep(c, m1, !onZero, over);
      if e.stack == [] {
        FailsNext(c, m, n, m1, StackUnderflow, 2, Size(p), fuel);
        n := n + 1;
      } else {
        var m2 := Step(c, m1).0;
        Popped(m1);
        Further(c, m, n, m1, m2);
        n := n + 1;
        if (Top(e.stack) == 0) != onZero {
          Arrives(c, m, n, m2, Size(p), fuel);
        } else {
          var k := BodyRuns(c, m, n, m2, test, onZero, body, wide, procs, addresses, fuel);
          n := n + k;
        }
      }
    }
  }

  /** The body of a turn, the jump back and the turns after it. */
  lemma {:induction false} BodyRuns(c: Code, m: State, n: nat, m2: State, test: Prog, onZero: bool, body: Prog,
                                    wide: bool, procs: seq<Prog>, addresses: seq<nat>, fuel: nat)
    returns (k: nat)
    requires m.vm == Running && Bounded(m2) && Linked(c, procs, addresses) && n > 0
    requires Fits(While(test, onZero, body, wide), addresses)
    requires Placed(c, m.pc, CodeOf(While(test, onZero, body, wide), addresses))
    requires Run(c, m, n) == (m2, Success) && m.pc + Size(test) + 2 < WORD_LIMIT
    requires m2 == m.(pc := m.pc + Size(test) + 2, stack := m2.stack)
    ensures var p, f := While(test, onZero, body, wide), Meaning(body, procs, m2.stack, |m.frames|, fuel);
            var e := if !f.Ends? then f else if fuel == 0 then Ongoing
                     else Meaning(p, procs, f.stack, |m.frames|, fuel - 1);
            Matches(m, Size(p), e, fuel, n + k, Run(c, m, n + k))
    decreases fuel, While(test, onZero, body, wide), 0
  {
    hide *;
    var p := While(test, onZero, body, wide);
    WhileShape(test, onZero, body, wide, addresses);
    WhileParts(c, m.pc, p, test, JumpIf(!onZero, Size(body) + JumpSize(wide)), body, Jump(Back(p), wide), addresses);
    k := ProgramRuns(c, m2, body, procs, addresses, fuel);
    var f := Meaning(body, procs, m2.stack, |m.frames|, fuel);
    if !f.Ends? {
      FailsOn(c, m, n, m2, Size(body), k, f, fuel, fuel, Size(p));
    } else {
      var m3 := Stands(c, m2, Size(body), f, fuel, k);
      Chain(c, m, n, m2, k);
      JumpStep(c, m3, Back(p), wide);
      var m4 := Step(c, m3).0;
      Further(c, m, n + k, m3, m4);
      Jumped(m3, m4);
      k := k + 1;
      if fuel == 0 {
        Stops(c, m, Size(p), n + k, m4);
      } else {
        var l := ProgramRuns(c, m4, p, procs, addresses, fuel - 1);
        GoesOn(c, m, n + k, m4, 0, l, Size(p), Meaning(p, procs, f.stack, |m.frames|, fuel - 1), fuel - 1, fuel);
        k := k + l;
      }
    }
  }

  // ----- calls -----

  lemma CallParts(c: Code, at: int, k: nat, procs: seq<Prog>, addresses: seq<nat>)
    requires Linked(c, procs, addresses) && Fits(CallOf(k), addresses) && Placed(c, at, CodeOf(CallOf(k), addresses))
    ensures k < |procs| == |addresses| && addresses[k] < 0x1_0000 && Fits(procs[k], addresses)
    ensures Placed(c, at, CallCode(addresses[k])) && Placed(c, addresses[k], CodeOf(procs[k], addresses))
    ensures Placed(c, addresses[k] + Size(procs[k]), [0x0A]) && Size(CallOf(k)) == 3 && at + 3 < WORD_LIMIT
  {
    hide *;
    CallShape(k, addresses);
    LinkedAt(c, k, procs, addresses);
    CallOperand(c, at, addresses[k]);
    CalleeParts(c, addresses[k], procs[k], addresses);
  }

  lemma CalleeParts(c: Code, at: int, q: Prog, addresses: seq<nat>)
    requires Fits(q, addresses) && Placed(c, at, CodeOf(q, addresses) + [0x0A])
    ensures Placed(c, at, CodeOf(q, addresses)) && Placed(c, at + Size(q), [0x0A])
  {
    hide *;
    Lengths(q, q, addresses);
    SecondPart(c, at, CodeOf(q, addresses), [0x0A]);
  }

  lemma CallShape(k: nat, addresses: seq<nat>)
    requires Fits(CallOf(k), addresses)
    ensures k < |addresses| && addresses[k] < 0x1_0000 && Size(CallOf(k)) == 3
    ensures CodeOf(CallOf(k), addresses) == CallCode(addresses[k])
  {
    hide Far;
  }

  lemma LinkedAt(c: Code, k: nat, procs: seq<Prog>, addresses: seq<nat>)
    requires Linked(c, procs, addresses) && k < |addresses|
    ensures |procs| == |addresses| && Fits(procs[k], addresses)
    ensures Placed(c, addresses[k], CodeOf(procs[k], addresses) + [0x0A])
  {
    hide Placed;
    hide CodeOf;
    hide Fits;
  }

  lemma CallMeans(k: nat, procs: seq<Prog>, s: seq<u32>, depth: nat, fuel: nat)
    requires k < |procs|
    ensures Meaning(CallOf(k), procs, s, depth, fuel) ==
            if depth >= FRAME_UNITS then Fails(StackOverflow, 1)
            else if fuel == 0 then Ongoing
            else Meaning(procs[k], procs, s, depth + 1, fuel - 1)
  {
    hide Apply;
  }

  lemma Called(m: State, n: State, f: Frame)
    requires Bounded(m) && |m.frames| < FRAME_UNITS && n == m.(pc := n.pc, frames := m.frames + [f])
    ensures Bounded(n)
  {
  }

  lemma Returned(m: State, n: State, st: State)
    requires Bounded(m) && Bounded(st) && n == m.(pc := n.pc, stack := st.stack)
    ensures Bounded(n)
  {
  }

  lemma {:induction false} CallRuns(c: Code, m: State, k: nat, procs: seq<Prog>, addresses: seq<nat>, fuel: nat)
    returns (n: nat)
    requires m.vm == Running && Bounded(m) && Linked(c, procs, addresses)
    requires Fits(CallOf(k), addresses) && Placed(c, m.pc, CodeOf(CallOf(k), addresses))
    ensures Matches(m, Size(CallOf(k)), Meaning(CallOf(k), procs, m.stack, |m.frames|, fuel), fuel, n, Run(c, m, n))
    decreases fuel, CallOf(k), 1
  {
    hide *;
    CallParts(c, m.pc, k, procs, addresses);
    CallMeans(k, procs, m.stack, |m.frames|, fuel);
    CallStep(c, m, addresses[k]);
    NoSteps(c, m);
    if |m.frames| >= FRAME_UNITS {
      StepFails(c, m, StackOverflow, 1, 3, fuel);
      n := 1;
    } else {
      var m1 := Step(c, m).0;
      Further(c, m, 0, m, m1);
      n := 1;
      if fuel == 0 {
        Stops(c, m, 3, 1, m1);
      } else {
        var q, frame := procs[k], m1.frames[|m.frames|];
        Called(m, m1, frame);
        var i := ProgramRuns(c, m1, q, procs, addresses, fuel - 1);
        var e := Meaning(q, procs, m.stack, |m.frames| + 1, fuel - 1);
        if !e.Ends? {
          FailsOn(c, m, 1, m1, Size(q), i, e, fuel - 1, fuel, 3);
          n := 1 + i;
        } else {
          var m2 := Stands(c, m1, Size(q), e, fuel - 1, i);
          Chain(c, m, 1, m1, i);
          ReturnStep(c, m2, m.frames, frame);
          var m3 := Step(c, m2).0;
          Further(c, m, 1 + i, m2, m3);
          Returned(m, m3, m2);
          n := 1 + i + 1;
          Arrives(c, m, n, m3, 3, fuel);
        }
      }
    }
  }
}
