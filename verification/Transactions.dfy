/**
 * Nested transactions over the heap and the global data area: a stack of at most four backups,
 * a bump allocator and bounded writes, over arbitrary runs.
 *
 * The bounds checks add in 32 bits. An operation that passes its check although its true range lies outside
 * sets `overrun`: the program then writes outside its arrays, and from there on the model says nothing about it.
 */
module Transactions {
  import opened Bytes

  const HEAP_SIZE := 8192
  const GLOBAL_SIZE := 4096
  const MAX_DEPTH := 4
  const EXCEPTION_ACCESS_VIOLATION := 8
  const EXCEPTION_TRANSACTION_OVERFLOW := 15

  /** Everything a transaction can undo. */
  datatype Data = Data(heap: seq<byte>, global: seq<byte>, heapUsed: nat, globalUsed: nat)

  /** `backups` is the backup array: None is a cleared record. `inException` is the machine's exception state. */
  datatype Memory = Memory(data: Data, backups: seq<Option<Data>>, depth: nat, inTransaction: bool,
                           inException: bool, exception: nat, overrun: bool)

  predicate SizedData(d: Data) {
    |d.heap| == HEAP_SIZE && |d.global| == GLOBAL_SIZE && d.heapUsed <= HEAP_SIZE && d.globalUsed <= GLOBAL_SIZE
  }

  predicate Sized(m: Memory) {
    SizedData(m.data) && |m.backups| == MAX_DEPTH && m.depth <= MAX_DEPTH
    && forall i :: 0 <= i < MAX_DEPTH && m.backups[i].Some? ==> SizedData(m.backups[i].value)
  }

  // ----- transactions -----

  function Begin(m: Memory): (Memory, bool)
    requires Sized(m)
  {
    if m.depth >= MAX_DEPTH then (m.(exception := EXCEPTION_TRANSACTION_OVERFLOW), false)
    else if m.inException then (m, false)
    else (m.(backups := m.backups[m.depth := Some(m.data)], depth := m.depth + 1, inTransaction := true), true)
  }

  function Commit(m: Memory): (Memory, bool)
    requires Sized(m)
  {
    if !m.inTransaction || m.depth == 0 then (m, false)
    else
      var depth := m.depth - 1;
      (m.(depth := depth, backups := m.backups[depth := None],
          inTransaction := if depth == 0 then false else m.inTransaction), true)
  }

  function Cleared(backups: seq<Option<Data>>, n: nat): (r: seq<Option<Data>>)
    requires n <= |backups|
    ensures |r| == |backups| && forall i :: 0 <= i < |r| ==> r[i] == if i < n then None else backups[i]
    decreases n
  {
    if n == 0 then backups else Cleared(backups[n - 1 := None], n - 1)
  }

  lemma ClearedIs(backups: seq<Option<Data>>, n: nat, r: seq<Option<Data>>)
    requires n <= |backups| == |r| && forall i :: 0 <= i < |r| ==> r[i] == if i < n then None else backups[i]
    ensures r == Cleared(backups, n)
  {
  }

  function Abort(m: Memory): (Memory, bool)
    requires Sized(m)
  {
    if !m.inTransaction || m.depth == 0 then (m, false)
    else
      var top := m.backups[m.depth - 1];
      (m.(data := if top.Some? then top.value else m.data,
          backups := Cleared(m.backups, m.depth), depth := 0, inTransaction := false), true)
  }

  // ----- memory -----

  /** (size + 3) & ~3 on 32 bits. */
  function Align(size: u32): u32 {
    Wrap(size + 3) / 4 * 4
  }

  /** The size really needed for a block. */
  function RoundUp(size: nat): nat {
    (size + 3) / 4 * 4
  }

  /** The 32-bit bounds check of the allocator. */
  predicate AllocCheck(used: nat, size: u32) {
    Wrap(used + Align(size)) <= HEAP_SIZE
  }

  /** The check is right exactly while the end of the block fits 32 bits; beyond that it always passes. */
  lemma AllocCheckExactIff(used: nat, size: u32)
    requires used <= HEAP_SIZE
    ensures (AllocCheck(used, size) <==> used + RoundUp(size) <= HEAP_SIZE) <==> used + RoundUp(size) < WORD_LIMIT
  {
    if size + 3 < WORD_LIMIT {
      assert Align(size) == RoundUp(size);
    } else {
      assert Align(size) == 0;
    }
  }

  /** The bounds check of a write, computed in 32 bits. */
  predicate WriteCheck(at: u32, size: u32, limit: u32) {
    Wrap(at + size) <= limit
  }

  /** It is right exactly when the sum fits 32 bits, or wraps to something still too large. */
  lemma WriteCheckExactIff(at: u32, size: u32, limit: u32)
    ensures (WriteCheck(at, size, limit) <==> at + size <= limit)
            <==> at + size < WORD_LIMIT || at + size - WORD_LIMIT > limit
  {
    if at + size >= WORD_LIMIT {
      assert Wrap(at + size) == at + size - WORD_LIMIT;
    }
  }

  function Zeroed(s: seq<byte>, at: nat, n: nat): (r: seq<byte>)
    requires at + n <= |s|
    ensures |r| == |s|
  {
    s[..at] + seq(n, i => 0) + s[at + n..]
  }

  function Overwritten(s: seq<byte>, at: nat, b: seq<byte>): (r: seq<byte>)
    requires at + |b| <= |s|
    ensures |r| == |s|
  {
    s[..at] + b + s[at + |b|..]
  }

  function Overrun(m: Memory): Memory {
    m.(overrun := true)
  }

  /** A zeroed block; the result is its offset plus one, and 0 is failure. */
  function HeapAlloc(m: Memory, size: u32): (Memory, nat)
    requires Sized(m)
  {
    var used, n := m.data.heapUsed, Align(size);
    if size == 0 || !AllocCheck(used, size) then (m, 0)
    else if used + n > HEAP_SIZE then (Overrun(m), used + 1)
    else (m.(data := m.data.(heap := Zeroed(m.data.heap, used, n), heapUsed := used + n)), used + 1)
  }

  function HeapWrite(m: Memory, address: u32, b: seq<byte>): (Memory, bool)
    requires Sized(m) && |b| < WORD_LIMIT
  {
    if address == 0 || !WriteCheck(address - 1, |b|, HEAP_SIZE) then (m, false)
    else if address - 1 + |b| > HEAP_SIZE then (Overrun(m), true)
    else (m.(data := m.data.(heap := Overwritten(m.data.heap, address - 1, b))), true)
  }

  function GlobalWrite(m: Memory, at: u32, b: seq<byte>): (Memory, bool)
    requires Sized(m) && |b| < WORD_LIMIT
  {
    if !WriteCheck(at, |b|, GLOBAL_SIZE) then (m.(exception := EXCEPTION_ACCESS_VIOLATION), false)
    else if at + |b| > GLOBAL_SIZE then (Overrun(m), true)
    else
      var used := if at + |b| > m.data.globalUsed then at + |b| else m.data.globalUsed;
      (m.(data := m.data.(global := Overwritten(m.data.global, at, b), globalUsed := used)), true)
  }

  function ClearGlobal(m: Memory): Memory
    requires Sized(m)
  {
    m.(data := m.data.(global := Zeroed(m.data.global, 0, GLOBAL_SIZE), globalUsed := 0))
  }

  // ----- operations and runs -----

  datatype Op =
    | BeginOp | CommitOp | AbortOp
    | AllocOp(size: u32)
    | HeapWriteOp(address: u32, bytes: seq<byte>)
    | GlobalWriteOp(at: u32, bytes: seq<byte>)
    | ClearGlobalOp

  /** Sizes are 32-bit numbers. */
  predicate Proper(op: Op) {
    match op
    case HeapWriteOp(_, b) => |b| < WORD_LIMIT
    case GlobalWriteOp(_, b) => |b| < WORD_LIMIT
    case _ => true
  }

  predicate AllProper(ops: seq<Op>) {
    forall op :: op in ops ==> Proper(op)
  }

  function Step(m: Memory, op: Op): Memory
    requires Sized(m) && Proper(op)
  {
    match op
    case BeginOp => Begin(m).0
    case CommitOp => Commit(m).0
    case AbortOp => Abort(m).0
    case AllocOp(size) => HeapAlloc(m, size).0
    case HeapWriteOp(a, b) => HeapWrite(m, a, b).0
    case GlobalWriteOp(a, b) => GlobalWrite(m, a, b).0
    case ClearGlobalOp => ClearGlobal(m)
  }

  /** An operation overruns exactly when the true end of its range does not fit 32 bits and wraps to below the limit. */
  lemma OverrunsIff(m: Memory, op: Op)
    requires Sized(m) && Proper(op) && !m.overrun
    ensures Step(m, op).overrun <==>
            (op.AllocOp? && m.data.heapUsed + Align(op.size) >= WORD_LIMIT)
            || (op.HeapWriteOp? && op.address != 0
                && WORD_LIMIT <= op.address - 1 + |op.bytes| <= WORD_LIMIT + HEAP_SIZE)
            || (op.GlobalWriteOp? && WORD_LIMIT <= op.at + |op.bytes| <= WORD_LIMIT + GLOBAL_SIZE)
  {
  }

  /** A block is as large as was asked for, unless its size rounds up past 32 bits: then it is empty. */
  lemma BlockHoldsIff(size: u32)
    ensures Align(size) >= size <==> size + 3 < WORD_LIMIT
    ensures size + 3 >= WORD_LIMIT ==> Align(size) == 0
  {
  }

  /** Heap usage at the i-th open begin, and now for the level above all of them. */
  function UsedAt(m: Memory, i: nat): nat
    requires Sized(m) && i <= m.depth
  {
    if i == m.depth || m.backups[i].None? then m.data.heapUsed else m.backups[i].value.heapUsed
  }

  /** The records below the depth are exactly the taken ones, and heap usage never falls from one to the next. */
  ghost predicate Inv(m: Memory) {
    Sized(m) && (m.inTransaction <==> m.depth > 0)
    && (forall i :: 0 <= i < MAX_DEPTH ==> (m.backups[i].Some? <==> i < m.depth))
    && (forall i, j :: 0 <= i < j <= m.depth ==> UsedAt(m, i) <= UsedAt(m, j))
  }

  lemma StepKeepsInv(m: Memory, op: Op)
    requires Inv(m) && Proper(op)
    ensures Inv(Step(m, op))
  {
    match op
    case BeginOp => BeginKeepsInv(m);
    case CommitOp => CommitKeepsInv(m);
    case AbortOp =>
    case AllocOp(size) => AllocKeepsInv(m, size);
    case HeapWriteOp(a, b) => SameUsage(m, HeapWrite(m, a, b).0);
    case GlobalWriteOp(a, b) => SameUsage(m, GlobalWrite(m, a, b).0);
    case ClearGlobalOp => SameUsage(m, ClearGlobal(m));
  }

  lemma BeginKeepsInv(m: Memory)
    requires Inv(m)
    ensures Inv(Begin(m).0)
  {
    var n := Begin(m).0;
    assert forall i :: 0 <= i <= m.depth ==> UsedAt(n, i) == UsedAt(m, i);
    assert UsedAt(n, n.depth) == UsedAt(m, m.depth);
  }

  lemma CommitKeepsInv(m: Memory)
    requires Inv(m)
    ensures Inv(Commit(m).0)
  {
    var n := Commit(m).0;
    if m.depth > 0 {
      assert UsedAt(n, n.depth) == UsedAt(m, m.depth);
      forall i, j | 0 <= i < j <= n.depth
        ensures UsedAt(n, i) <= UsedAt(n, j)
      {
        assert UsedAt(n, i) == UsedAt(m, i);
        if j < n.depth {
          assert UsedAt(n, j) == UsedAt(m, j);
        } else {
          assert UsedAt(m, i) <= UsedAt(m, m.depth);
        }
      }
    }
  }

  lemma AllocKeepsInv(m: Memory, size: u32)
    requires Inv(m)
    ensures Inv(HeapAlloc(m, size).0)
  {
    var n := HeapAlloc(m, size).0;
    assert forall i :: 0 <= i < m.depth ==> UsedAt(n, i) == UsedAt(m, i);
    assert UsedAt(n, m.depth) >= UsedAt(m, m.depth);
  }

  lemma SameUsage(m: Memory, n: Memory)
    requires Inv(m) && Sized(n)
    requires n.backups == m.backups && n.depth == m.depth && n.inTransaction == m.inTransaction
    requires n.data.heapUsed == m.data.heapUsed
    ensures Inv(n)
  {
    assert forall i :: 0 <= i <= m.depth ==> UsedAt(n, i) == UsedAt(m, i);
  }

  ghost function Run(m: Memory, ops: seq<Op>): (r: Memory)
    requires Inv(m) && AllProper(ops)
    ensures Inv(r)
    decreases |ops|
  {
    if ops == [] then m
    else
      assert ops[0] in ops;
      StepKeepsInv(m, ops[0]);
      Run(Step(m, ops[0]), ops[1..])
  }

  /** An overrun is never taken back: a run that ends without one had none. */
  lemma {:induction false} OverrunStays(m: Memory, ops: seq<Op>)
    requires Inv(m) && AllProper(ops) && m.overrun
    ensures Run(m, ops).overrun
    decreases |ops|
  {
    if ops != [] {
      assert ops[0] in ops;
      StepKeepsInv(m, ops[0]);
      hide Inv;
      OverrunStays(Step(m, ops[0]), ops[1..]);
    }
  }

  // ----- what abort restores -----

  /** At least d transactions stay open all through the run. */
  ghost predicate StaysOpen(m: Memory, ops: seq<Op>, d: nat)
    requires Inv(m) && AllProper(ops)
    decreases |ops|
  {
    m.depth >= d
    && (ops != [] ==>
          (assert ops[0] in ops;
          StepKeepsInv(m, ops[0]);
          StaysOpen(Step(m, ops[0]), ops[1..], d)))
  }

  lemma StepKeepsLowerBackups(m: Memory, op: Op, d: nat)
    requires Inv(m) && Proper(op) && d <= m.depth && d <= Step(m, op).depth
    ensures Step(m, op).backups[..d] == m.backups[..d]
  {
    var n := Step(m, op);
    assert forall i :: 0 <= i < d ==> n.backups[i] == m.backups[i];
  }

  lemma {:induction false} LowerBackupsUntouched(m: Memory, ops: seq<Op>, d: nat)
    requires Inv(m) && AllProper(ops) && StaysOpen(m, ops, d)
    ensures Run(m, ops).depth >= d && Run(m, ops).backups[..d] == m.backups[..d]
    decreases |ops|
  {
    hide Step;
    if ops != [] {
      assert ops[0] in ops;
      StepKeepsInv(m, ops[0]);
      var n := Step(m, ops[0]);
      LowerBackupsUntouched(n, ops[1..], d);
      assert n.depth >= d;
      StepKeepsLowerBackups(m, ops[0], d);
    }
  }

  /**
   * A begin, any operations that leave its transaction open and the inner ones closed, and an
   * abort: heap, globals and both usage counters are back to what they were at the begin.
   */
  lemma AbortRestoresBegin(m: Memory, ops: seq<Op>)
    requires Inv(m) && Begin(m).1 && AllProper(ops)
    ensures Inv(Begin(m).0)
    ensures var b := Begin(m).0;
            StaysOpen(b, ops, m.depth + 1) && Run(b, ops).depth == m.depth + 1 ==>
              var a := Abort(Run(b, ops));
              a.1 && a.0.data == m.data && a.0.depth == 0
  {
    StepKeepsInv(m, BeginOp);
    var b := Begin(m).0;
    if StaysOpen(b, ops, m.depth + 1) && Run(b, ops).depth == m.depth + 1 {
      LowerBackupsUntouched(b, ops, m.depth + 1);
      var r := Run(b, ops);
      assert r.backups[m.depth] == r.backups[..m.depth + 1][m.depth]
             == b.backups[..m.depth + 1][m.depth] == Some(m.data);
    }
  }

  /** Opening and closing transactions changes no data. */
  lemma BeginAndCommitChangeNoData(m: Memory)
    requires Inv(m)
    ensures Begin(m).0.data == m.data && Commit(m).0.data == m.data
    ensures Begin(m).1 ==> Sized(Begin(m).0) && Commit(Begin(m).0) == (m, true)
  {
    if Begin(m).1 {
      assert m.backups[m.depth := Some(m.data)][m.depth := None] == m.backups;
    }
  }

  /**
   * An abort ends every level: aborting an inner transaction undoes only what came after its own
   * begin, and the outer transaction can no longer be undone.
   */
  lemma InnerAbortEndsOuter(m: Memory)
    requires Inv(m) && m.depth > 0 && Begin(m).1
    ensures Sized(Begin(m).0)
    ensures var a := Abort(Begin(m).0);
            a.1 && a.0.data == m.data && a.0.depth == 0 && Sized(a.0) && Abort(a.0) == (a.0, false)
  {
    AbortRestoresBegin(m, []);
  }

  // ----- heap blocks -----

  /** Below this offset nothing can be handed out again: usage at the outermost open begin. */
  function Floor(m: Memory): nat
    requires Sized(m)
  {
    UsedAt(m, 0)
  }

  lemma StepRaisesFloor(m: Memory, op: Op)
    requires Inv(m) && Proper(op)
    ensures Inv(Step(m, op)) && Floor(m) <= Floor(Step(m, op))
  {
    StepKeepsInv(m, op);
    FloorIsLowest(m);
    hide Inv;
    match op
    case BeginOp =>
    case CommitOp =>
    case AbortOp =>
    case AllocOp(size) =>
    case HeapWriteOp(a, b) => assert HeapWrite(m, a, b).0.data.heapUsed == m.data.heapUsed;
    case GlobalWriteOp(a, b) => assert GlobalWrite(m, a, b).0.data.heapUsed == m.data.heapUsed;
    case ClearGlobalOp =>
  }

  lemma FloorIsLowest(m: Memory)
    requires Inv(m)
    ensures forall i :: 0 <= i <= m.depth ==> Floor(m) <= UsedAt(m, i)
    ensures Floor(m) <= m.data.heapUsed && (m.depth > 0 ==> Floor(m) <= UsedAt(m, m.depth - 1))
  {
    assert UsedAt(m, m.depth) == m.data.heapUsed;
  }

  lemma {:induction false} RunRaisesFloor(m: Memory, ops: seq<Op>)
    requires Inv(m) && AllProper(ops)
    ensures Floor(m) <= Floor(Run(m, ops))
    decreases |ops|
  {
    hide Step;
    hide Floor;
    if ops != [] {
      assert ops[0] in ops;
      StepRaisesFloor(m, ops[0]);
      RunRaisesFloor(Step(m, ops[0]), ops[1..]);
    }
  }

  /**
   * A block that lies below the floor is never handed out again: whatever is begun, committed,
   * aborted, written or allocated in between, a later block starts behind it and ends inside the heap.
   */
  lemma BlocksNeverOverlap(m: Memory, ops: seq<Op>, size: u32, end: nat)
    requires Inv(m) && AllProper(ops) && end <= Floor(m)
    ensures var r := Run(m, ops);
            var (n, address) := HeapAlloc(r, size);
            address != 0 && !n.overrun ==>
              address - 1 >= end && n.data.heapUsed == address - 1 + Align(size) <= HEAP_SIZE
  {
    RunRaisesFloor(m, ops);
    var r := Run(m, ops);
    assert UsedAt(r, 0) <= UsedAt(r, r.depth);
  }

  /** The same of a block allocated before any open begin, for as long as that one stays open. */
  lemma LevelBlocksNeverOverlap(m: Memory, ops: seq<Op>, size: u32, i: nat, end: nat)
    requires Inv(m) && AllProper(ops) && i < m.depth && end <= UsedAt(m, i) && StaysOpen(m, ops, i + 1)
    ensures var r := Run(m, ops);
            var (n, address) := HeapAlloc(r, size);
            address != 0 && !n.overrun ==>
              address - 1 >= end && n.data.heapUsed == address - 1 + Align(size) <= HEAP_SIZE
  {
    LowerBackupsUntouched(m, ops, i + 1);
    var r := Run(m, ops);
    assert r.backups[i] == r.backups[..i + 1][i] == m.backups[..i + 1][i] == m.backups[i];
    assert UsedAt(r, i) == UsedAt(m, i) && UsedAt(r, i) <= UsedAt(r, r.depth);
  }

  // ----- open begins and live blocks over whole runs -----

  /** Heap offsets from the first on, up to but not including the second. */
  datatype Block = Block(start: nat, end: nat)

  /**
   * What a run has left open and alive: the blocks allocated and not rolled back, oldest first, and for each open
   * begin how many of them there were and what the data was.
   */
  datatype Trace = Trace(blocks: seq<Block>, marks: seq<nat>, begins: seq<Data>)

  ghost predicate Followed(m: Memory, t: Trace) {
    && Inv(m) && |t.marks| == |t.begins| == m.depth
    && (forall i :: 0 <= i < m.depth ==> m.backups[i] == Some(t.begins[i]) && t.marks[i] <= |t.blocks|)
    && (forall i, j :: 0 <= i < j < m.depth ==> t.marks[i] <= t.marks[j])
    && (forall k :: 0 <= k < |t.blocks| ==> t.blocks[k].start <= t.blocks[k].end <= m.data.heapUsed)
    && (forall j, k :: 0 <= j < k < |t.blocks| ==> t.blocks[j].end <= t.blocks[k].start)
    && (forall i, k :: 0 <= i < m.depth && 0 <= k < t.marks[i] ==> t.blocks[k].end <= t.begins[i].heapUsed)
    && (forall i, k :: 0 <= i < m.depth && t.marks[i] <= k < |t.blocks| ==> t.begins[i].heapUsed <= t.blocks[k].start)
  }

  ghost function Follow(t: Trace, m: Memory, op: Op): Trace
    requires Followed(m, t) && Proper(op)
  {
    match op
    case BeginOp =>
      if Begin(m).1 then t.(marks := t.marks + [|t.blocks|], begins := t.begins + [m.data]) else t
    case CommitOp =>
      if Commit(m).1 then t.(marks := t.marks[..m.depth - 1], begins := t.begins[..m.depth - 1]) else t
    case AbortOp =>
      if Abort(m).1 then Trace(t.blocks[..t.marks[m.depth - 1]], [], []) else t
    case AllocOp(size) =>
      var (n, address) := HeapAlloc(m, size);
      if address != 0 && !n.overrun then t.(blocks := t.blocks + [Block(m.data.heapUsed, n.data.heapUsed)]) else t
    case _ => t
  }

  lemma StepFollowed(m: Memory, t: Trace, op: Op)
    requires Followed(m, t) && Proper(op)
    ensures Followed(Step(m, op), Follow(t, m, op))
  {
    StepKeepsInv(m, op);
    match op
    case BeginOp => BeginFollowed(m, t);
    case CommitOp => CommitFollowed(m, t);
    case AbortOp => AbortFollowed(m, t);
    case AllocOp(size) => AllocFollowed(m, t, size);
    case _ => SameFollowed(m, t, Step(m, op));
  }

  lemma BeginFollowed(m: Memory, t: Trace)
    requires Followed(m, t) && Inv(Begin(m).0)
    ensures Followed(Begin(m).0, Follow(t, m, BeginOp))
  {
  }

  lemma CommitFollowed(m: Memory, t: Trace)
    requires Followed(m, t) && Inv(Commit(m).0)
    ensures Followed(Commit(m).0, Follow(t, m, CommitOp))
  {
  }

  lemma AllocFollowed(m: Memory, t: Trace, size: u32)
    requires Followed(m, t) && Inv(HeapAlloc(m, size).0)
    ensures Followed(HeapAlloc(m, size).0, Follow(t, m, AllocOp(size)))
  {
    BeginsBelow(m, t);
    hide Inv;
  }

  /** Usage at an open begin is at most usage now. */
  lemma BeginsBelow(m: Memory, t: Trace)
    requires Followed(m, t)
    ensures forall i :: 0 <= i < m.depth ==> t.begins[i].heapUsed <= m.data.heapUsed
  {
    forall i | 0 <= i < m.depth
      ensures t.begins[i].heapUsed <= m.data.heapUsed
    {
      assert UsedAt(m, i) <= UsedAt(m, m.depth);
    }
  }

  lemma SameFollowed(m: Memory, t: Trace, n: Memory)
    requires Followed(m, t) && Inv(n)
    requires n.backups == m.backups && n.depth == m.depth && n.data.heapUsed == m.data.heapUsed
    ensures Followed(n, t)
  {
    hide Inv;
  }

  lemma AbortFollowed(m: Memory, t: Trace)
    requires Followed(m, t) && Inv(Abort(m).0)
    ensures Followed(Abort(m).0, Follow(t, m, AbortOp))
  {
  }

  ghost function FollowAll(t: Trace, m: Memory, ops: seq<Op>): Trace
    requires Followed(m, t) && AllProper(ops)
    decreases |ops|
  {
    if ops == [] then t
    else
      assert ops[0] in ops;
      StepFollowed(m, t, ops[0]);
      FollowAll(Follow(t, m, ops[0]), Step(m, ops[0]), ops[1..])
  }

  /**
   * Over every run the backup array mirrors the stack of data at the open begins, and the blocks allocated and not
   * rolled back are pairwise disjoint and inside the used heap, those older than an open begin below its usage.
   */
  lemma {:induction false} RunFollowed(m: Memory, t: Trace, ops: seq<Op>)
    requires Followed(m, t) && AllProper(ops)
    ensures Followed(Run(m, ops), FollowAll(t, m, ops))
    decreases |ops|
  {
    if ops != [] {
      assert ops[0] in ops;
      StepFollowed(m, t, ops[0]);
      hide Followed;
      hide Follow;
      hide Step;
      RunFollowed(Step(m, ops[0]), Follow(t, m, ops[0]), ops[1..]);
    }
  }

  /** A block allocated now is disjoint from every live one, whichever transaction that belongs to. */
  lemma NewBlockDisjoint(m: Memory, t: Trace, size: u32, k: nat)
    requires Followed(m, t) && k < |t.blocks|
    ensures var (n, address) := HeapAlloc(m, size);
            address != 0 && !n.overrun ==>
              t.blocks[k].end <= address - 1 && address - 1 + Align(size) == n.data.heapUsed <= HEAP_SIZE
  {
  }

  /** Memory after initialization. */
  ghost function Blank(): (m: Memory)
    ensures Followed(m, Trace([], [], []))
  {
    Memory(Data(seq(HEAP_SIZE, i => 0), seq(GLOBAL_SIZE, i => 0), 0, 0), [None, None, None, None], 0, false, false, 0,
           false)
  }

  /** Memory overruns: after a block of four bytes, one whose end wraps to zero looks as if it fitted. */
  lemma OverrunReached()
    ensures var ops := [BeginOp, AllocOp(4), AllocOp(0xFFFF_FFFC)];
            AllProper(ops) && Run(Blank(), ops).overrun
  {
    var ops := [BeginOp, AllocOp(4), AllocOp(0xFFFF_FFFC)];
    var m1 := Step(Blank(), ops[0]);
    StepKeepsInv(Blank(), ops[0]);
    StepKeepsInv(m1, ops[1]);
    var m2 := Step(m1, ops[1]);
    StepKeepsInv(m2, ops[2]);
    var m3 := Step(m2, ops[2]);
    hide Inv;
    assert m2.data.heapUsed == 4;
    assert m3.overrun;
    assert ops[1..] == [AllocOp(4), AllocOp(0xFFFF_FFFC)] && ops[1..][1..] == [AllocOp(0xFFFF_FFFC)];
    hide Step;
    assert Run(m2, [AllocOp(0xFFFF_FFFC)]) == m3;
  }
}
