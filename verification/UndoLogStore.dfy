/** The transaction context of a LOAD command as the program keeps it: a fixed log array, a count and a flag. */
module UndoLogStore {
  import opened Bytes
  import opened UndoLog

  class LoadTransaction<R(0)> {
    const registry: array<R>
    var moduleCount: int
    var appCount: int
    const logs: array<LogEntry<R>>
    var logCount: nat
    var inTransaction: bool
    ghost var freed: seq<u32>

    ghost predicate Valid()
      reads this, registry, logs
    {
      && registry as object != logs && logs.Length == MAX_ENTRIES && logCount <= MAX_ENTRIES
      && Fits(Tables(registry[..], moduleCount, appCount), logs[..logCount])
    }

    /** The state the methods are specified by. */
    ghost function Model(): (s: State<R>)
      requires Valid()
      reads this, registry, logs
      ensures Fits(s.tables, s.entries)
    {
      State(Tables(registry[..], moduleCount, appCount), inTransaction, logs[..logCount], freed)
    }

    constructor (size: nat, blank: R)
      ensures Valid() && fresh(registry) && fresh(logs) && registry.Length == size
      ensures Model() == State(Tables(seq(size, _ => blank), 0, 0), false, [], [])
    {
      registry := new R[size](_ => blank);
      logs := new LogEntry<R>[MAX_ENTRIES](_ => PersistenceSave(0));
      moduleCount, appCount, logCount, inTransaction, freed := 0, 0, 0, false, [];
    }

    method Begin()
      requires Valid()
      modifies this`logCount, this`inTransaction
      ensures Valid() && Model() == UndoLog.Begin(old(Model()))
    {
      logCount := 0;
      inTransaction := true;
    }

    method Append(e: LogEntry<R>) returns (ok: bool)
      requires Valid() && (e.RegistryUpdate? ==> e.id < registry.Length)
      modifies this`logCount, logs
      ensures Valid() && ok == Logs(old(Model())) && Model() == Log(old(Model()), e)
    {
      if !inTransaction || logCount >= MAX_ENTRIES {
        return false;
      }
      ghost var entries := logs[..logCount];
      logs[logCount] := e;
      logCount := logCount + 1;
      assert logs[..logCount] == entries + [e];
      ok := true;
    }

    method LogFlashAlloc(offset: u32) returns (ok: bool)
      requires Valid()
      modifies this`logCount, logs
      ensures Valid() && ok == Logs(old(Model())) && Model() == Step(old(Model()), LogFlash(offset))
    {
      ok := Append(FlashAlloc(offset));
    }

    method LogRegistryUpdate(id: nat) returns (ok: bool)
      requires Valid() && id < registry.Length
      modifies this`logCount, logs
      ensures Valid() && ok == Logs(old(Model())) && Model() == Step(old(Model()), LogRegistry(id))
    {
      ok := Append(RegistryUpdate(id, registry[id]));
    }

    method LogState() returns (ok: bool)
      requires Valid()
      modifies this`logCount, logs
      ensures Valid() && ok == Logs(old(Model())) && Model() == Step(old(Model()), LogVmState)
    {
      ok := Append(VmState(moduleCount, appCount));
    }

    method LogPersistence(id: nat) returns (ok: bool)
      requires Valid()
      modifies this`logCount, logs
      ensures Valid() && ok == Logs(old(Model())) && Model() == Step(old(Model()), LogSave(id))
    {
      ok := Append(PersistenceSave(id));
    }

    /** Undoes one entry of the log. */
    method UndoEntry(i: nat)
      requires Valid() && i < logCount
      modifies this`moduleCount, this`appCount, this`freed, registry
      ensures Valid() && Model().tables == UndoOne(old(Model().tables), logs[i])
      ensures freed == old(freed) + if logs[i].FlashAlloc? then [logs[i].offset] else []
    {
      var e := logs[i];
      match e {
        case FlashAlloc(offset) => freed := freed + [offset];
        case RegistryUpdate(id, before) => registry[id] := before;
        case VmState(modules, apps) => moduleCount, appCount := modules, apps;
        case PersistenceSave(_) =>
      }
    }

    /** Undoes the log from its last entry to its first. */
    method UndoAll()
      requires Valid()
      modifies this`moduleCount, this`appCount, this`freed, registry
      ensures Valid() && Model().tables == Undo(old(Model().tables), logs[..logCount])
      ensures freed == old(freed) + Frees(logs[..logCount])
    {
      hide Undo;
      hide Frees;
      ghost var entries := logs[..logCount];
      ghost var start := Model().tables;
      var i := logCount;
      assert entries[..i] == entries;
      while i > 0
        invariant Valid() && 0 <= i <= logCount == |entries|
        invariant Fits(Model().tables, entries[..i])
        invariant Undo(Model().tables, entries[..i]) == Undo(start, entries)
        invariant freed + Frees(entries[..i]) == old(freed) + Frees(entries)
      {
        i := i - 1;
        UndoLast(Model().tables, entries, i);
        assert entries[i] == logs[i];
        UndoEntry(i);
      }
      NothingToUndo(Model().tables, entries[..i]);
    }

    /** Undoes the log and ends the transaction. */
    method Rollback()
      requires Valid()
      modifies this`moduleCount, this`appCount, this`logCount, this`inTransaction, this`freed, registry
      ensures Valid() && Model() == UndoLog.Rollback(old(Model()))
    {
      if !inTransaction {
        return;
      }
      UndoAll();
      logCount := 0;
      inTransaction := false;
    }

    static lemma NothingToUndo(t: Tables<R>, entries: seq<LogEntry<R>>)
      requires |entries| == 0
      ensures Fits(t, entries) && Undo(t, entries) == t && Frees(entries) == []
    {
    }

    static lemma UndoLast(t: Tables<R>, entries: seq<LogEntry<R>>, i: nat)
      requires i < |entries| && Fits(t, entries)
      ensures Fits(t, entries[..i]) && Fits(t, entries[..i + 1])
      ensures Undo(t, entries[..i + 1]) == Undo(UndoOne(t, entries[i]), entries[..i])
      ensures Frees(entries[..i + 1]) ==
              (if entries[i].FlashAlloc? then [entries[i].offset] else []) + Frees(entries[..i])
    {
      assert entries[..i + 1][..i] == entries[..i];
    }

    method Commit()
      requires Valid()
      modifies this`logCount, this`inTransaction
      ensures Valid() && Model() == UndoLog.Commit(old(Model()))
    {
      if !inTransaction {
        return;
      }
      logCount := 0;
      inTransaction := false;
    }
  }
}
