/** The interpreter as the program runs it: fixed arrays with stack pointers, updated in place. */
module Vm {
  import opened Bytes
  import opened Alu
  import opened Machine

  class VirtualMachine {
    const code: Code
    const executorStack: array<u32>
    const frameStack: array<Frame>
    var stackPointer: nat
    var frameTop: nat
    var indirectPointer: nat
    var programCounter: u32
    var state: VmState
    var exception: nat

    ghost predicate Valid()
      reads this
    {
      executorStack.Length == STACK_UNITS && frameStack.Length == FRAME_UNITS &&
      stackPointer <= STACK_UNITS && frameTop <= FRAME_UNITS && indirectPointer <= INDIRECT_UNITS
    }

    /** The state seen through the stack pointers; cells above them are stale. */
    ghost function Model(): (m: State)
      requires Valid()
      reads this, executorStack, frameStack
      ensures Bounded(m)
    {
      State(executorStack[..stackPointer], frameStack[..frameTop], indirectPointer, programCounter, state, exception)
    }

    constructor (c: Code)
      ensures Valid() && Model() == State([], [], 0, 0, Idle, 0) && code == c
      ensures fresh(executorStack) && fresh(frameStack)
    {
      code := c;
      executorStack := new u32[STACK_UNITS](_ => 0);
      frameStack := new Frame[FRAME_UNITS](_ => Frame(0, 0, 0));
      stackPointer, frameTop, indirectPointer, programCounter := 0, 0, 0, 0;
      state, exception := Idle, 0;
    }

    method Push(v: u32) returns (r: Result)
      requires Valid()
      modifies this, executorStack
      ensures Valid() && (Model(), r) == PushWord(old(Model()), v)
    {
      if stackPointer >= STACK_UNITS {
        exception, state := EXCEPTION_STACK_OVERFLOW, Exception;
        return StackOverflow;
      }
      executorStack[stackPointer] := v;
      stackPointer := stackPointer + 1;
      assert executorStack[..stackPointer] == old(executorStack[..stackPointer]) + [v];
      return Success;
    }

    method PopTop() returns (r: Result, v: u32)
      requires Valid()
      modifies this
      ensures Valid() && Outcome(Model(), r, v) == PopWord(old(Model()))
    {
      if stackPointer == 0 {
        exception, state := EXCEPTION_STACK_UNDERFLOW, Exception;
        return StackUnderflow, 0;
      }
      stackPointer := stackPointer - 1;
      return Success, executorStack[stackPointer];
    }

    method NextByte() returns (r: Result, v: u32)
      requires Valid()
      modifies this
      ensures Valid() && Outcome(Model(), r, v) == ReadByte(code, old(Model()))
    {
      if programCounter >= code.size {
        exception := EXCEPTION_ACCESS_VIOLATION;
        return MemoryAccess, 0;
      }
      v := code.flash[code.offset + programCounter] as int;
      programCounter := programCounter + 1;
      return Success, v;
    }

    method NextU16() returns (r: Result, v: u32)
      requires Valid()
      modifies this
      ensures Valid() && Outcome(Model(), r, v) == ReadU16(code, old(Model()))
    {
      var hi, lo;
      r, hi := NextByte();
      if !r.Success? {
        return r, hi;
      }
      r, lo := NextByte();
      if !r.Success? {
        return r, lo;
      }
      return r, Wrap(hi * 256 + lo);
    }

    method DoTrap() returns (r: Result)
      requires Valid()
      modifies this
      ensures Valid() && (Model(), r) == ExecTrap(code, old(Model()))
    {
      var trapCode;
      r, trapCode := NextByte();
      if r.Success? {
        exception, state := trapCode, Exception;
      }
    }

    method DoBranch(wide: bool) returns (r: Result)
      requires Valid()
      modifies this
      ensures Valid() && (Model(), r) == Exec(code, old(Model()), if wide then BranchS16 else BranchS8)
    {
      hide ReadByte;
      hide ReadU16;
      hide PushWord;
      hide ExecBinary;
      hide ExecCall;
      var offset;
      if wide {
        r, offset := NextU16();
      } else {
        r, offset := NextByte();
      }
      if r.Success? {
        programCounter := Wrap(programCounter + if wide then S16(offset) else S8(offset));
      }
    }

    method DoBranchIf(onZero: bool) returns (r: Result)
      requires Valid()
      modifies this
      ensures Valid() && (Model(), r) == ExecBranchIf(code, old(Model()), onZero)
    {
      var offset, v;
      r, offset := NextByte();
      if !r.Success? {
        return;
      }
      r, v := PopTop();
      if r.Success? && (v == 0) == onZero {
        programCounter := Wrap(programCounter + S8(offset));
      }
    }

    method DoRet() returns (r: Result)
      requires Valid()
      modifies this
      ensures Valid() && (Model(), r) == ExecRet(old(Model()))
    {
      if frameTop == 0 {
        exception := EXCEPTION_STACK_UNDERFLOW;
        return StackUnderflow;
      }
      frameTop := frameTop - 1;
      assert frameStack[..frameTop] == old(frameStack[..frameTop])[..frameTop];
      programCounter := frameStack[frameTop].returnAddress;
      return Success;
    }

    method DoCall() returns (r: Result)
      requires Valid()
      modifies this, frameStack
      ensures Valid() && (Model(), r) == ExecCall(code, old(Model()))
    {
      var target;
      r, target := NextU16();
      if !r.Success? {
        return;
      }
      if frameTop >= FRAME_UNITS {
        exception := EXCEPTION_STACK_OVERFLOW;
        return StackOverflow;
      }
      frameStack[frameTop] := Frame(programCounter, stackPointer, 0);
      frameTop := frameTop + 1;
      assert frameStack[..frameTop] == old(frameStack[..frameTop]) + [frameStack[frameTop - 1]];
      programCounter := target;
    }

    method DoLoadWide() returns (r: Result)
      requires Valid()
      modifies this, executorStack
      ensures Valid() && (Model(), r) == ExecLoadWide(code, old(Model()))
    {
      hide ReadU16;
      hide PushWord;
      hide Wrap;
      var hi, lo;
      r, hi := NextU16();
      if !r.Success? {
        return;
      }
      r, lo := NextU16();
      if !r.Success? {
        return;
      }
      var high: int := hi;
      r := Push(Wrap(high * 0x1_0000 + lo));
    }

    method DoBinary(op: BinOp) returns (r: Result)
      requires Valid()
      modifies this, executorStack
      ensures Valid() && (Model(), r) == ExecBinary(old(Model()), op)
    {
      var a, b;
      r, b := PopTop();
      if !r.Success? {
        return;
      }
      r, a := PopTop();
      if !r.Success? {
        return;
      }
      var v := Apply(op, a, b);
      if v.None? {
        exception := EXCEPTION_DIVISION_BY_ZERO;
        return InvalidParam;
      }
      r := Push(v.value);
    }

    method DoIsZero() returns (r: Result)
      requires Valid()
      modifies this, executorStack
      ensures Valid() && (Model(), r) == ExecIsZero(old(Model()))
    {
      var a;
      r, a := PopTop();
      if r.Success? {
        r := Push(Flag(a == 0));
      }
    }

    method Dispatch(i: Instr) returns (r: Result)
      requires Valid()
      modifies this, executorStack, frameStack
      ensures Valid() && (Model(), r) == Exec(code, old(Model()), i)
    {
      r := Success;
      match i
      case Trap => r := DoTrap();
      case Nop =>
      case Pop => var v; r, v := PopTop();
      case PopIs =>
        if indirectPointer == 0 {
          exception, r := EXCEPTION_STACK_UNDERFLOW, StackUnderflow;
        } else {
          indirectPointer := indirectPointer - 1;
        }
      case BranchS8 => r := DoBranch(false);
      case BranchS16 => r := DoBranch(true);
      case BranchZeroS8 => r := DoBranchIf(true);
      case BranchNonZeroS8 => r := DoBranchIf(false);
      case Ret => r := DoRet();
      case Call => r := DoCall();
      case LoadShort(v) => r := Push(v);
      case LoadWide => r := DoLoadWide();
      case Binary(op) => r := DoBinary(op);
      case IsZero => r := DoIsZero();
      case Unknown => exception, state, r := EXCEPTION_INVALID_OPCODE, Exception, InvalidOpcode;
    }

    /** Executes a single instruction. */
    method Execute() returns (r: Result)
      requires Valid()
      modifies this, executorStack, frameStack
      ensures Valid() && (Model(), r) == Step(code, old(Model()))
    {
      if state != Running {
        return InvalidState;
      }
      if programCounter >= code.size {
        return MemoryAccess;
      }
      var opcode := code.flash[code.offset + programCounter];
      programCounter := programCounter + 1;
      r := Dispatch(Decode(opcode));
    }
  }
}
