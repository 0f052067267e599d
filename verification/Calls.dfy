/**
 * Control discipline over whole runs of arbitrary code: the stack pointers stay in range, only
 * the code window is ever read, and a return resumes right after the call it matches.
 */
module Calls {
  import opened Bytes
  import opened Alu
  import opened Machine

  lemma ReadsKeepStacks(c: Code, m: State)
    ensures var b := ReadByte(c, m).m; b.stack == m.stack && b.frames == m.frames && b.indirect == m.indirect
    ensures var w := ReadU16(c, m).m; w.stack == m.stack && w.frames == m.frames && w.indirect == m.indirect
  {
  }

  lemma ExecBounded(c: Code, m: State, i: Instr)
    requires Bounded(m)
    ensures Bounded(Exec(c, m, i).0)
  {
    hide Apply;
    hide ReadByte;
    hide ReadU16;
    ReadsKeepStacks(c, m);
    ReadsKeepStacks(c, ReadU16(c, m).m);
  }

  lemma StepBounded(c: Code, m: State)
    requires Bounded(m)
    ensures Bounded(Step(c, m).0)
  {
    hide Exec;
    hide Decode;
    if m.vm == Running && m.pc < c.size {
      ExecBounded(c, m.(pc := m.pc + 1), Decode(Fetch(c, m.pc)));
    }
  }

  /** No sequence of instructions moves a stack pointer out of its array. */
  lemma {:induction false} AlwaysBounded(c: Code, m: State, n: nat)
    requires Bounded(m)
    ensures Bounded(After(c, m, n))
    decreases n
  {
    hide Step;
    if n > 0 {
      StepBounded(c, m);
      AlwaysBounded(c, Step(c, m).0, n - 1);
    }
  }

  // ----- only the code window is read -----

  /** Two flash images, anywhere, with the same bytes in their code windows. */
  ghost predicate SameWindow(c: Code, d: Code) {
    c.size == d.size && forall pc :: 0 <= pc < c.size ==> Fetch(c, pc) == Fetch(d, pc)
  }

  lemma ReadSameWindow(c: Code, d: Code, m: State)
    requires SameWindow(c, d)
    ensures ReadByte(c, m) == ReadByte(d, m) && ReadU16(c, m) == ReadU16(d, m)
  {
  }

  lemma ExecSameWindow(c: Code, d: Code, m: State, i: Instr)
    requires SameWindow(c, d)
    ensures Exec(c, m, i) == Exec(d, m, i)
  {
    hide Apply;
    hide ReadByte;
    hide ReadU16;
    hide ExecBinary;
    hide PushWord;
    hide PopWord;
    ReadSameWindow(c, d, m);
    ReadSameWindow(c, d, ReadU16(c, m).m);
  }

  lemma StepSameWindow(c: Code, d: Code, m: State)
    requires SameWindow(c, d)
    ensures Step(c, m) == Step(d, m)
  {
    hide Exec;
    hide Decode;
    if m.vm == Running && m.pc < c.size {
      ExecSameWindow(c, d, m.(pc := m.pc + 1), Decode(Fetch(c, m.pc)));
    }
  }

  /** What a run does depends on no flash byte outside the window, wild branches included. */
  lemma {:induction false} RunsReadOnlyTheWindow(c: Code, d: Code, m: State, n: nat)
    requires SameWindow(c, d)
    ensures After(c, m, n) == After(d, m, n)
    decreases n
  {
    hide Step;
    if n > 0 {
      StepSameWindow(c, d, m);
      RunsReadOnlyTheWindow(c, d, Step(c, m).0, n - 1);
    }
  }

  // ----- calls and returns -----

  /** How an instruction moves the frame stack: it pushes one frame, pops one, or leaves it alone. */
  ghost predicate FramesFollow(m: State, next: State) {
    next.frames == m.frames
    || (|next.frames| == |m.frames| + 1 && next.frames[..|m.frames|] == m.frames)
    || (m.frames != [] && next.frames == m.frames[..|m.frames| - 1]
        && next.pc == m.frames[|m.frames| - 1].returnAddress)
  }

  lemma ExecFrames(c: Code, m: State, i: Instr)
    ensures FramesFollow(m, Exec(c, m, i).0)
  {
    hide Apply;
    hide ReadByte;
    hide ReadU16;
    ReadsKeepStacks(c, m);
    ReadsKeepStacks(c, ReadU16(c, m).m);
  }

  lemma StepFrames(c: Code, m: State)
    ensures FramesFollow(m, Step(c, m).0)
  {
    hide Exec;
    hide Decode;
    if m.vm == Running && m.pc < c.size {
      ExecFrames(c, m.(pc := m.pc + 1), Decode(Fetch(c, m.pc)));
    }
  }

  /** Every state of the run from m, up to the n-th, has at least d frames. */
  ghost predicate StaysAbove(c: Code, m: State, n: nat, d: nat)
    decreases n
  {
    |m.frames| >= d && (n > 0 ==> StaysAbove(c, Step(c, m).0, n - 1, d))
  }

  lemma {:induction false} LowerFramesUntouched(c: Code, m: State, n: nat, d: nat)
    requires StaysAbove(c, m, n, d)
    ensures |After(c, m, n).frames| >= d && After(c, m, n).frames[..d] == m.frames[..d]
    decreases n
  {
    hide Step;
    if n > 0 {
      var m' := Step(c, m).0;
      StepFrames(c, m);
      LowerFramesUntouched(c, m', n - 1, d);
      assert m'.frames[..d] == m.frames[..d];
    }
  }

  /** The step from m is a call that succeeds. */
  predicate Calls(c: Code, m: State) {
    m.vm == Running && m.pc < c.size && Decode(Fetch(c, m.pc)) == Call && Step(c, m).1 == Success
  }

  /**
   * A call, n steps that never return below the called frame, and the step that first does:
   * execution resumes right after the three bytes of the call with the caller's frames.
   */
  lemma ReturnMatchesCall(c: Code, m: State, n: nat)
    requires Calls(c, m)
    requires StaysAbove(c, Step(c, m).0, n, |m.frames| + 1)
    requires |After(c, m, n + 2).frames| <= |m.frames|
    ensures After(c, m, n + 2).frames == m.frames
    ensures After(c, m, n + 2).pc == m.pc + 3
  {
    CallPushes(c, m);
    hide Step;
    var called := Step(c, m).0;
    var last := After(c, called, n);
    LowerFramesUntouched(c, called, n, |m.frames| + 1);
    AfterSplit(c, called, n);
    StepFrames(c, last);
    assert called.frames[..|m.frames| + 1] == called.frames;
    assert last.frames == called.frames;
    assert last.frames[..|m.frames|] == m.frames;
  }

  lemma CallPushes(c: Code, m: State)
    requires Calls(c, m)
    ensures Step(c, m).0.frames == m.frames + [Frame(m.pc + 3, Wrap(|m.stack|), 0)]
  {
    hide Apply;
  }

  lemma {:induction false} AfterSplit(c: Code, m: State, n: nat)
    ensures After(c, m, n + 1) == Step(c, After(c, m, n)).0
    decreases n
  {
    hide Step;
    if n > 0 {
      AfterSplit(c, Step(c, m).0, n - 1);
    }
  }
}
