/** Heap, globals and the backup array as the program keeps them, updated and restored in place. */
module TransactionStore {
  import opened Bytes
  import opened Transactions

  class VmMemory {
    const heap: array<byte>
    const global: array<byte>
    const backups: array<Option<Data>>
    var heapUsed: nat
    var globalUsed: nat
    var depth: nat
    var inTransaction: bool
    var inException: bool
    var exception: nat
    ghost var overrun: bool

    ghost predicate Valid()
      reads this, heap, global, backups
    {
      heap != global && heap.Length == HEAP_SIZE && global.Length == GLOBAL_SIZE && backups.Length == MAX_DEPTH
      && Sized(Model())
    }

    ghost function Snapshot(): Data
      reads this, heap, global
    {
      Data(heap[..], global[..], heapUsed, globalUsed)
    }

    ghost function Model(): Memory
      reads this, heap, global, backups
    {
      Memory(Snapshot(), backups[..], depth, inTransaction, inException, exception, overrun)
    }

    constructor ()
      ensures Valid() && Model() == Blank()
      ensures fresh(heap) && fresh(global) && fresh(backups)
    {
      heap := new byte[HEAP_SIZE](_ => 0);
      global := new byte[GLOBAL_SIZE](_ => 0);
      backups := new Option<Data>[MAX_DEPTH](_ => None);
      heapUsed, globalUsed, depth := 0, 0, 0;
      inTransaction, inException, exception, overrun := false, false, 0, false;
    }

    method BeginTransaction() returns (ok: bool)
      requires Valid()
      modifies this, backups
      ensures Valid() && (Model(), ok) == Begin(old(Model()))
    {
      if depth >= MAX_DEPTH {
        exception := EXCEPTION_TRANSACTION_OVERFLOW;
        return false;
      }
      if inException {
        return false;
      }
      backups[depth] := Some(Data(heap[..], global[..], heapUsed, globalUsed));
      depth := depth + 1;
      inTransaction := true;
      return true;
    }

    method CommitTransaction() returns (ok: bool)
      requires Valid()
      modifies this, backups
      ensures Valid() && (Model(), ok) == Commit(old(Model()))
    {
      if !inTransaction || depth == 0 {
        return false;
      }
      depth := depth - 1;
      backups[depth] := None;
      if depth == 0 {
        inTransaction := false;
      }
      return true;
    }

    method RestoreBackup(d: Data)
      requires Valid() && SizedData(d)
      modifies this`heapUsed, this`globalUsed, heap, global
      ensures Valid() && Snapshot() == d
    {
      CopyBytes(heap, 0, d.heap);
      assert heap[..] == d.heap;
      heapUsed := d.heapUsed;
      CopyBytes(global, 0, d.global);
      assert global[..] == d.global;
      globalUsed := d.globalUsed;
    }

    method ClearBackups()
      requires Valid()
      modifies backups
      ensures backups[..] == Cleared(old(backups[..]), depth)
    {
      for i := 0 to depth
        invariant forall k :: 0 <= k < MAX_DEPTH ==> backups[k] == if k < i then None else old(backups[k])
      {
        backups[i] := None;
      }
      ClearedIs(old(backups[..]), depth, backups[..]);
    }

    method AbortTransaction() returns (ok: bool)
      requires Valid()
      modifies this, heap, global, backups
      ensures Valid() && (Model(), ok) == Abort(old(Model()))
    {
      if !inTransaction || depth == 0 {
        return false;
      }
      var top := backups[depth - 1];
      if top.Some? {
        RestoreBackup(top.value);
      }
      assert backups[..] == old(backups[..]);
      assert Snapshot() == if top.Some? then top.value else old(Snapshot());
      ClearBackups();
      depth := 0;
      inTransaction := false;
      assert Model() == Abort(old(Model())).0;
      return true;
    }

    method Allocate(size: u32) returns (address: nat)
      requires Valid()
      modifies this`heapUsed, this`overrun, heap
      ensures Valid() && (Model(), address) == HeapAlloc(old(Model()), size)
    {
      if size == 0 {
        return 0;
      }
      var aligned := Wrap(size + 3) / 4 * 4;
      if Wrap(heapUsed + aligned) > HEAP_SIZE {
        return 0;
      }
      var offset := heapUsed;
      if offset + aligned > HEAP_SIZE {
        overrun := true;
        return offset + 1;
      }
      heapUsed := heapUsed + aligned;
      var zeros := seq(aligned, i => 0);
      CopyBytes(heap, offset, zeros);
      return offset + 1;
    }

    method WriteHeap(address: u32, b: seq<byte>) returns (ok: bool)
      requires Valid() && |b| < WORD_LIMIT
      modifies this`overrun, heap
      ensures Valid() && (Model(), ok) == HeapWrite(old(Model()), address, b)
    {
      if address == 0 {
        return false;
      }
      var offset := address - 1;
      if Wrap(offset + |b|) > HEAP_SIZE {
        return false;
      }
      if offset + |b| > HEAP_SIZE {
        overrun := true;
        return true;
      }
      CopyBytes(heap, offset, b);
      return true;
    }

    method WriteGlobal(at: u32, b: seq<byte>) returns (ok: bool)
      requires Valid() && |b| < WORD_LIMIT
      modifies this`globalUsed, this`exception, this`overrun, global
      ensures Valid() && (Model(), ok) == GlobalWrite(old(Model()), at, b)
    {
      if Wrap(at + |b|) > GLOBAL_SIZE {
        exception := EXCEPTION_ACCESS_VIOLATION;
        return false;
      }
      if at + |b| > GLOBAL_SIZE {
        overrun := true;
        return true;
      }
      CopyBytes(global, at, b);
      if at + |b| > globalUsed {
        globalUsed := at + |b|;
      }
      return true;
    }

    method ClearGlobalData()
      requires Valid()
      modifies this`globalUsed, global
      ensures Valid() && Model() == ClearGlobal(old(Model()))
    {
      var zeros := seq(GLOBAL_SIZE, i => 0);
      CopyBytes(global, 0, zeros);
      globalUsed := 0;
    }
  }

  method CopyBytes(a: array<byte>, at: nat, b: seq<byte>)
    requires at + |b| <= a.Length
    modifies a
    ensures a[..] == Overwritten(old(a[..]), at, b)
  {
    for i := 0 to |b|
      invariant forall k :: 0 <= k < i ==> a[at + k] == b[k]
      invariant forall k :: 0 <= k < at || at + i <= k < a.Length ==> a[k] == old(a[k])
    {
      a[at + i] := b[i];
    }
  }
}
