/**
 * What every byte of heap and global data holds over whole runs: what was last written there, zero in a new block or
 * after clearing, or what it held when the transaction began that an abort took back.
 */
module MemoryContents {
  import opened Bytes
  import opened Transactions

  // ----- memory as a map from addresses to bytes -----

  /** An area as a map, with the number of bytes in use. */
  datatype Area = Area(bytes: map<int, byte>, used: int)

  /** Both areas, and how they were at each open begin. */
  datatype Flat = Flat(heap: Area, global: Area, open: seq<(Area, Area)>)

  datatype Answer = Yes | No | At(address: int)

  /** The bytes of a map from an address on take given values. */
  function Put(a: map<int, byte>, at: int, b: seq<byte>): map<int, byte> {
    map k | k in a :: if at <= k < at + |b| then b[k - at] else a[k]
  }

  function PutZeros(a: map<int, byte>, at: int, n: int): map<int, byte> {
    map k | k in a :: if at <= k < at + n then 0 else a[k]
  }

  function Max(x: int, y: int): int {
    if x < y then y else x
  }

  /** The size of a block: the next multiple of four, or nothing for sizes that have none below 2^32. */
  function BlockSize(size: u32): int {
    var n := if size % 4 == 0 then size else size + 4 - size % 4;
    if n >= WORD_LIMIT then 0 else n
  }

  /** One operation and its answer; `locked` is a machine in its exception state, which begins nothing. */
  function FlatStep(f: Flat, op: Op, locked: bool): (Flat, Answer)
    requires Proper(op)
  {
    match op
    case BeginOp =>
      if |f.open| == 4 || locked then (f, No) else (f.(open := f.open + [(f.heap, f.global)]), Yes)
    case CommitOp => if f.open == [] then (f, No) else (f.(open := f.open[..|f.open| - 1]), Yes)
    case AbortOp =>
      if f.open == [] then (f, No)
      else (Flat(f.open[|f.open| - 1].0, f.open[|f.open| - 1].1, []), Yes)
    case AllocOp(size) =>
      var n, used := BlockSize(size), f.heap.used;
      if size == 0 || used + n > 8192 then (f, At(0))
      else (f.(heap := Area(PutZeros(f.heap.bytes, used, n), used + n)), At(used + 1))
    case HeapWriteOp(address, b) =>
      if address == 0 || address - 1 + |b| > 8192 then (f, No)
      else (f.(heap := f.heap.(bytes := Put(f.heap.bytes, address - 1, b))), Yes)
    case GlobalWriteOp(at, b) =>
      if at + |b| > 4096 then (f, No)
      else (f.(global := Area(Put(f.global.bytes, at, b), Max(f.global.used, at + |b|))), Yes)
    case ClearGlobalOp => (f.(global := Area(PutZeros(f.global.bytes, 0, 4096), 0)), Yes)
  }

  // ----- the memory as it is -----

  function AnswerOf(m: Memory, op: Op): Answer
    requires Sized(m) && Proper(op)
  {
    match op
    case BeginOp => if Begin(m).1 then Yes else No
    case CommitOp => if Commit(m).1 then Yes else No
    case AbortOp => if Abort(m).1 then Yes else No
    case AllocOp(size) => At(HeapAlloc(m, size).1)
    case HeapWriteOp(a, b) => if HeapWrite(m, a, b).1 then Yes else No
    case GlobalWriteOp(a, b) => if GlobalWrite(m, a, b).1 then Yes else No
    case ClearGlobalOp => Yes
  }

  /** The bytes of an array are those of a map. */
  ghost predicate Holds(s: seq<byte>, a: map<int, byte>) {
    (forall k :: k in a <==> 0 <= k < |s|) && forall k :: 0 <= k < |s| ==> a[k] == s[k]
  }

  ghost predicate Agrees(d: Data, heap: Area, global: Area) {
    Holds(d.heap, heap.bytes) && Holds(d.global, global.bytes)
    && heap.used == d.heapUsed && global.used == d.globalUsed
  }

  ghost predicate Shows(m: Memory, f: Flat) {
    && Inv(m) && Agrees(m.data, f.heap, f.global) && |f.open| == m.depth
    && forall i :: 0 <= i < m.depth ==> Agrees(m.backups[i].value, f.open[i].0, f.open[i].1)
  }

  lemma BlockSizeIs(size: u32)
    ensures BlockSize(size) == Align(size)
  {
  }

  lemma HoldsPut(s: seq<byte>, a: map<int, byte>, at: nat, b: seq<byte>)
    requires Holds(s, a) && at + |b| <= |s|
    ensures Holds(Overwritten(s, at, b), Put(a, at, b))
  {
  }

  lemma HoldsCleared(s: seq<byte>, a: map<int, byte>, at: nat, n: nat)
    requires Holds(s, a) && at + n <= |s|
    ensures Holds(Zeroed(s, at, n), PutZeros(a, at, n))
  {
  }

  /** One operation that does not overrun: the same answer, and the same bytes after it. */
  lemma StepShows(m: Memory, f: Flat, op: Op)
    requires Shows(m, f) && Proper(op) && !Step(m, op).overrun
    ensures Shows(Step(m, op), FlatStep(f, op, m.inException).0)
    ensures AnswerOf(m, op) == FlatStep(f, op, m.inException).1
    ensures Step(m, op).inException == m.inException
  {
    StepKeepsInv(m, op);
    hide Inv;
    hide Holds;
    match op
    case BeginOp => TransactionShows(m, f, op);
    case CommitOp => TransactionShows(m, f, op);
    case AbortOp => TransactionShows(m, f, op);
    case AllocOp(size) => AllocShows(m, f, size);
    case HeapWriteOp(address, b) => HeapWriteShows(m, f, address, b);
    case GlobalWriteOp(at, b) => GlobalWriteShows(m, f, at, b);
    case ClearGlobalOp => HoldsCleared(m.data.global, f.global.bytes, 0, GLOBAL_SIZE);
  }

  lemma TransactionShows(m: Memory, f: Flat, op: Op)
    requires Shows(m, f) && (op.BeginOp? || op.CommitOp? || op.AbortOp?) && Inv(Step(m, op))
    ensures Shows(Step(m, op), FlatStep(f, op, m.inException).0)
    ensures AnswerOf(m, op) == FlatStep(f, op, m.inException).1
    ensures Step(m, op).inException == m.inException
  {
    hide Agrees;
  }

  lemma AllocShows(m: Memory, f: Flat, size: u32)
    requires Shows(m, f) && !HeapAlloc(m, size).0.overrun && Inv(HeapAlloc(m, size).0)
    ensures Shows(HeapAlloc(m, size).0, FlatStep(f, AllocOp(size), m.inException).0)
    ensures At(HeapAlloc(m, size).1) == FlatStep(f, AllocOp(size), m.inException).1
    ensures HeapAlloc(m, size).0.inException == m.inException
  {
    BlockSizeIs(size);
    hide Holds;
    if size != 0 && m.data.heapUsed + Align(size) <= HEAP_SIZE {
      HoldsCleared(m.data.heap, f.heap.bytes, m.data.heapUsed, Align(size));
    }
    hide Align;
    hide BlockSize;
    hide PutZeros;
    hide Zeroed;
  }

  lemma HeapWriteShows(m: Memory, f: Flat, address: u32, b: seq<byte>)
    requires Shows(m, f) && |b| < WORD_LIMIT
    requires !HeapWrite(m, address, b).0.overrun && Inv(HeapWrite(m, address, b).0)
    ensures var op := HeapWriteOp(address, b);
            Shows(HeapWrite(m, address, b).0, FlatStep(f, op, m.inException).0)
            && AnswerOf(m, op) == FlatStep(f, op, m.inException).1
            && HeapWrite(m, address, b).0.inException == m.inException
  {
    hide Holds;
    if address != 0 && address - 1 + |b| <= HEAP_SIZE {
      HoldsPut(m.data.heap, f.heap.bytes, address - 1, b);
    }
    hide Put;
    hide Overwritten;
  }

  lemma GlobalWriteShows(m: Memory, f: Flat, at: u32, b: seq<byte>)
    requires Shows(m, f) && |b| < WORD_LIMIT
    requires !GlobalWrite(m, at, b).0.overrun && Inv(GlobalWrite(m, at, b).0)
    ensures var op := GlobalWriteOp(at, b);
            Shows(GlobalWrite(m, at, b).0, FlatStep(f, op, m.inException).0)
            && AnswerOf(m, op) == FlatStep(f, op, m.inException).1
            && GlobalWrite(m, at, b).0.inException == m.inException
  {
    hide Holds;
    if at + |b| <= GLOBAL_SIZE {
      HoldsPut(m.data.global, f.global.bytes, at, b);
    }
    hide Put;
    hide Overwritten;
  }

  // ----- runs -----

  function FlatRun(f: Flat, ops: seq<Op>, locked: bool): (Flat, seq<Answer>)
    requires AllProper(ops)
    decreases |ops|
  {
    if ops == [] then (f, [])
    else
      assert ops[0] in ops;
      var (g, a) := FlatStep(f, ops[0], locked);
      var (h, more) := FlatRun(g, ops[1..], locked);
      (h, [a] + more)
  }

  ghost function Answers(m: Memory, ops: seq<Op>): seq<Answer>
    requires Inv(m) && AllProper(ops)
    decreases |ops|
  {
    if ops == [] then []
    else
      assert ops[0] in ops;
      StepKeepsInv(m, ops[0]);
      [AnswerOf(m, ops[0])] + Answers(Step(m, ops[0]), ops[1..])
  }

  lemma NoOverrunBefore(m: Memory, ops: seq<Op>)
    requires Inv(m) && AllProper(ops) && ops != [] && !Run(m, ops).overrun
    ensures Proper(ops[0]) && Inv(Step(m, ops[0])) && AllProper(ops[1..]) && !Step(m, ops[0]).overrun
    ensures Run(m, ops) == Run(Step(m, ops[0]), ops[1..])
  {
    assert ops[0] in ops;
    StepKeepsInv(m, ops[0]);
    hide Step;
    hide Inv;
    if Step(m, ops[0]).overrun {
      OverrunStays(Step(m, ops[0]), ops[1..]);
    }
  }

  /** Over every run that ends without an overrun, all answers and all bytes are those of the map. */
  lemma {:induction false} RunShows(m: Memory, f: Flat, ops: seq<Op>)
    requires Shows(m, f) && AllProper(ops) && !Run(m, ops).overrun
    ensures Shows(Run(m, ops), FlatRun(f, ops, m.inException).0)
    ensures Answers(m, ops) == FlatRun(f, ops, m.inException).1
    decreases |ops|
  {
    if ops != [] {
      NoOverrunBefore(m, ops);
      StepShows(m, f, ops[0]);
      hide Step;
      hide FlatStep;
      hide AnswerOf;
      hide Shows;
      RunShows(Step(m, ops[0]), FlatStep(f, ops[0], m.inException).0, ops[1..]);
    }
  }

  function Zeros(n: nat): (a: map<int, byte>)
    ensures forall k :: k in a <==> 0 <= k < n
    ensures forall k :: k in a ==> a[k] == 0
  {
    if n == 0 then map[] else Zeros(n - 1)[n - 1 := 0]
  }

  function NewFlat(): Flat {
    Flat(Area(Zeros(8192), 0), Area(Zeros(4096), 0), [])
  }

  /** New memory holds zeros. */
  lemma NewShows()
    ensures Shows(Blank(), NewFlat())
  {
  }

  // ----- the last write -----

  function MapOf(s: seq<byte>): map<int, byte> {
    map k | 0 <= k < |s| :: s[k]
  }

  function AreasOf(d: Data): (Area, Area) {
    (Area(MapOf(d.heap), d.heapUsed), Area(MapOf(d.global), d.globalUsed))
  }

  ghost function FlatOf(m: Memory): (f: Flat)
    requires Inv(m)
    ensures Shows(m, f)
  {
    Flat(AreasOf(m.data).0, AreasOf(m.data).1, seq(m.depth, i requires 0 <= i < m.depth => AreasOf(m.backups[i].value)))
  }

  /** No operation writes a heap byte or aborts. */
  predicate LeavesHeapByte(ops: seq<Op>, k: int) {
    forall op :: op in ops ==>
      !op.AbortOp? && !(op.HeapWriteOp? && op.address - 1 <= k < op.address - 1 + |op.bytes|)
  }

  lemma {:induction false} FlatKeepsByte(f: Flat, ops: seq<Op>, locked: bool, k: int)
    requires AllProper(ops) && LeavesHeapByte(ops, k) && k in f.heap.bytes && k < f.heap.used
    ensures var r := FlatRun(f, ops, locked).0.heap; k in r.bytes && r.bytes[k] == f.heap.bytes[k]
    decreases |ops|
  {
    if ops != [] {
      assert ops[0] in ops;
      FlatKeepsByte(FlatStep(f, ops[0], locked).0, ops[1..], locked, k);
    }
  }

  /**
   * A byte of a block keeps what the last write that reached it wrote, through allocations, writes elsewhere, begins
   * and commits; only an abort takes it back.
   */
  lemma LastWriteWins(m: Memory, address: u32, b: seq<byte>, i: nat, ops: seq<Op>)
    requires Inv(m) && |b| < WORD_LIMIT && AllProper(ops) && HeapWrite(m, address, b).1 && i < |b|
    requires address - 1 + i < m.data.heapUsed && LeavesHeapByte(ops, address - 1 + i)
    requires !HeapWrite(m, address, b).0.overrun
    ensures var w := HeapWrite(m, address, b).0;
            Inv(w) && (!Run(w, ops).overrun ==> Run(w, ops).data.heap[address - 1 + i] == b[i])
  {
    var op, k := HeapWriteOp(address, b), address - 1 + i;
    var f := FlatOf(m);
    StepShows(m, f, op);
    var w, g := Step(m, op), FlatStep(f, op, m.inException).0;
    hide Step;
    hide FlatOf;
    if !Run(w, ops).overrun {
      RunShows(w, g, ops);
      FlatKeepsByte(g, ops, w.inException, k);
      hide FlatRun;
    }
  }
}
