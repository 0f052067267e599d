/**
 * The undo log of a LOAD command: old values are logged before they are changed and put back in
 * reverse order. The registry entries are of any type R.
 */
module UndoLog {
  import opened Bytes

  const MAX_ENTRIES := 16

  /** What a transaction may change: the module registry and the two counters. */
  datatype Tables<R> = Tables(registry: seq<R>, modules: int, apps: int)

  datatype LogEntry<R> =
    | FlashAlloc(offset: u32)
    | RegistryUpdate(id: nat, before: R)
    | VmState(modules: int, apps: int)
    | PersistenceSave(id: nat)

  /** The tables, the log of the transaction and the flash spaces freed so far. */
  datatype State<R> = State(tables: Tables<R>, active: bool, entries: seq<LogEntry<R>>, freed: seq<u32>)

  predicate Fits<R>(t: Tables<R>, entries: seq<LogEntry<R>>) {
    forall k :: 0 <= k < |entries| && entries[k].RegistryUpdate? ==> entries[k].id < |t.registry|
  }

  // ----- operations -----

  function Begin<R>(s: State<R>): State<R> {
    s.(active := true, entries := [])
  }

  predicate Logs<R>(s: State<R>) {
    s.active && |s.entries| < MAX_ENTRIES
  }

  /** Appends an entry, unless no transaction is active or the log is full. */
  function Log<R>(s: State<R>, e: LogEntry<R>): State<R> {
    if Logs(s) then s.(entries := s.entries + [e]) else s
  }

  function UndoOne<R>(t: Tables<R>, e: LogEntry<R>): (r: Tables<R>)
    requires e.RegistryUpdate? ==> e.id < |t.registry|
    ensures |r.registry| == |t.registry|
  {
    match e
    case RegistryUpdate(id, before) => t.(registry := t.registry[id := before])
    case VmState(modules, apps) => t.(modules := modules, apps := apps)
    case _ => t
  }

  /** Puts the logged values back, last entry first. */
  function Undo<R>(t: Tables<R>, entries: seq<LogEntry<R>>): (r: Tables<R>)
    requires Fits(t, entries)
    ensures |r.registry| == |t.registry|
    decreases |entries|
  {
    if entries == [] then t
    else
      var n := |entries| - 1;
      Undo(UndoOne(t, entries[n]), entries[..n])
  }

  /** The flash spaces an undo frees, in the order it frees them. */
  function Frees<R>(entries: seq<LogEntry<R>>): seq<u32>
    decreases |entries|
  {
    if entries == [] then []
    else
      var n := |entries| - 1;
      (if entries[n].FlashAlloc? then [entries[n].offset] else []) + Frees(entries[..n])
  }

  function Rollback<R>(s: State<R>): State<R>
    requires Fits(s.tables, s.entries)
  {
    if s.active then State(Undo(s.tables, s.entries), false, [], s.freed + Frees(s.entries)) else s
  }

  function Commit<R>(s: State<R>): State<R> {
    if s.active then s.(active := false, entries := []) else s
  }

  // ----- what an undo gives -----

  /** Whether a registry entry has a logged value. */
  predicate Covers<R>(entries: seq<LogEntry<R>>, id: nat) {
    exists k :: 0 <= k < |entries| && entries[k].RegistryUpdate? && entries[k].id == id
  }

  predicate CoversCounts<R>(entries: seq<LogEntry<R>>) {
    exists k :: 0 <= k < |entries| && entries[k].VmState?
  }

  /** The entry that logged a registry value first is the one that counts. */
  predicate FirstLog<R>(entries: seq<LogEntry<R>>, id: nat, k: nat) {
    k < |entries| && entries[k].RegistryUpdate? && entries[k].id == id && !Covers(entries[..k], id)
  }

  /** An undo leaves in every registry entry the value logged first, and what was never logged alone. */
  lemma {:induction false} UndoGivesFirst<R>(t: Tables<R>, entries: seq<LogEntry<R>>, id: nat)
    requires Fits(t, entries) && id < |t.registry|
    ensures forall k: nat :: FirstLog(entries, id, k) ==> Undo(t, entries).registry[id] == entries[k].before
    ensures !Covers(entries, id) ==> Undo(t, entries).registry[id] == t.registry[id]
    decreases |entries|
  {
    if entries != [] {
      var n := |entries| - 1;
      var init := entries[..n];
      UndoGivesFirst(UndoOne(t, entries[n]), init, id);
      assert Covers(init, id) ==> Covers(entries, id);
      forall k: nat | FirstLog(entries, id, k)
        ensures Undo(t, entries).registry[id] == entries[k].before
      {
        if k < n {
          assert init[..k] == entries[..k];
          assert FirstLog(init, id, k);
        }
      }
    }
  }

  // ----- runs -----

  /** Log calls, which record the current value, and plain writes to what the log protects. */
  datatype Op<R> =
    | LogRegistry(id: nat)
    | LogVmState
    | LogFlash(offset: u32)
    | LogSave(id: nat)
    | SetEntry(id: nat, value: R)
    | SetCounts(modules: int, apps: int)

  predicate InRange<R>(s: State<R>, op: Op<R>) {
    op.LogRegistry? || op.SetEntry? ==> op.id < |s.tables.registry|
  }

  predicate AllInRange<R>(size: nat, ops: seq<Op<R>>) {
    forall k :: 0 <= k < |ops| && (ops[k].LogRegistry? || ops[k].SetEntry?) ==> ops[k].id < size
  }

  function Step<R>(s: State<R>, op: Op<R>): (r: State<R>)
    requires InRange(s, op)
    ensures |r.tables.registry| == |s.tables.registry|
  {
    match op
    case LogRegistry(id) => Log(s, RegistryUpdate(id, s.tables.registry[id]))
    case LogVmState => Log(s, VmState(s.tables.modules, s.tables.apps))
    case LogFlash(offset) => Log(s, FlashAlloc(offset))
    case LogSave(id) => Log(s, PersistenceSave(id))
    case SetEntry(id, value) => s.(tables := s.tables.(registry := s.tables.registry[id := value]))
    case SetCounts(modules, apps) => s.(tables := s.tables.(modules := modules, apps := apps))
  }

  /** A write is protected when a value of the same thing has been logged since begin, however long ago. */
  predicate Protected<R>(s: State<R>, op: Op<R>) {
    match op
    case SetEntry(id, _) => Covers(s.entries, id)
    case SetCounts(_, _) => CoversCounts(s.entries)
    case _ => true
  }

  function Run<R>(s: State<R>, ops: seq<Op<R>>): (r: State<R>)
    requires AllInRange(|s.tables.registry|, ops)
    ensures |r.tables.registry| == |s.tables.registry|
    decreases |ops|
  {
    if ops == [] then s
    else Run(Step(s, ops[0]), ops[1..])
  }

  predicate Disciplined<R>(s: State<R>, ops: seq<Op<R>>)
    requires AllInRange(|s.tables.registry|, ops)
    decreases |ops|
  {
    ops == [] ||
    (Protected(s, ops[0]) && Disciplined(Step(s, ops[0]), ops[1..]))
  }

  /** Undoing a write is undoing without it: for a registry entry exactly when it is covered or nothing changes. */
  lemma {:induction false} WriteUndoneIff<R>(t: Tables<R>, entries: seq<LogEntry<R>>, id: nat, value: R)
    requires Fits(t, entries) && id < |t.registry|
    ensures Undo(t.(registry := t.registry[id := value]), entries) == Undo(t, entries)
            <==> Covers(entries, id) || t.registry[id] == value
    decreases |entries|
  {
    var w := t.(registry := t.registry[id := value]);
    if entries == [] {
      if t.registry[id] == value {
        assert w.registry == t.registry;
      } else {
        assert w.registry[id] != t.registry[id];
      }
    } else {
      var n := |entries| - 1;
      var e, init := entries[n], entries[..n];
      if e.RegistryUpdate? && e.id == id {
        assert t.registry[id := value][id := e.before] == t.registry[id := e.before];
        assert UndoOne(w, e) == UndoOne(t, e);
      } else {
        WriteUndoneIff(UndoOne(t, e), init, id, value);
        assert e.RegistryUpdate? ==>
            t.registry[id := value][e.id := e.before] == t.registry[e.id := e.before][id := value];
        assert Covers(entries, id) <==> Covers(init, id);
      }
    }
  }

  lemma {:induction false} CountsUndone<R>(t: Tables<R>, entries: seq<LogEntry<R>>, modules: int, apps: int)
    requires Fits(t, entries) && CoversCounts(entries)
    ensures Undo(t.(modules := modules, apps := apps), entries) == Undo(t, entries)
    decreases |entries|
  {
    var n := |entries| - 1;
    var e, init := entries[n], entries[..n];
    if !e.VmState? {
      CountsUndone(UndoOne(t, e), init, modules, apps);
    }
  }

  /** Logging a current value changes nothing an undo gives. */
  lemma LogUndone<R>(t: Tables<R>, entries: seq<LogEntry<R>>, e: LogEntry<R>)
    requires Fits(t, entries)
    requires e.RegistryUpdate? ==> e.id < |t.registry| && e.before == t.registry[e.id]
    requires e.VmState? ==> e.modules == t.modules && e.apps == t.apps
    ensures Fits(t, entries + [e]) && Undo(t, entries + [e]) == Undo(t, entries)
  {
    assert (entries + [e])[..|entries|] == entries;
    assert e.RegistryUpdate? ==> t.registry[e.id := e.before] == t.registry;
  }

  lemma StepUndone<R>(s: State<R>, op: Op<R>)
    requires Fits(s.tables, s.entries) && InRange(s, op) && Protected(s, op)
    ensures var r := Step(s, op);
            Fits(r.tables, r.entries) && r.active == s.active && r.freed == s.freed
            && Undo(r.tables, r.entries) == Undo(s.tables, s.entries)
  {
    match op
    case LogRegistry(id) => LogUndone(s.tables, s.entries, RegistryUpdate(id, s.tables.registry[id]));
    case LogVmState => LogUndone(s.tables, s.entries, VmState(s.tables.modules, s.tables.apps));
    case LogFlash(offset) => LogUndone(s.tables, s.entries, FlashAlloc(offset));
    case LogSave(id) => LogUndone(s.tables, s.entries, PersistenceSave(id));
    case SetEntry(id, value) => WriteUndoneIff(s.tables, s.entries, id, value);
    case SetCounts(modules, apps) => CountsUndone(s.tables, s.entries, modules, apps);
  }

  lemma {:induction false} RunUndone<R>(s: State<R>, ops: seq<Op<R>>)
    requires AllInRange(|s.tables.registry|, ops)
    requires Fits(s.tables, s.entries) && Disciplined(s, ops)
    ensures var r := Run(s, ops);
            Fits(r.tables, r.entries) && r.active == s.active && r.freed == s.freed
            && Undo(r.tables, r.entries) == Undo(s.tables, s.entries)
    decreases |ops|
  {
    if ops != [] {
      hide Undo;
      StepUndone(s, ops[0]);
      RunUndone(Step(s, ops[0]), ops[1..]);
    }
  }

  /**
   * After any run since begin in which every written thing had been logged, in any order, any number of times and
   * with the log full or not, a rollback restores all the tables of begin and ends the transaction.
   */
  lemma RollbackRestoresBegin<R>(s: State<R>, ops: seq<Op<R>>)
    requires AllInRange(|s.tables.registry|, ops)
    requires Disciplined(Begin(s), ops)
    ensures var end := Run(Begin(s), ops);
            Fits(end.tables, end.entries)
            && Rollback(end) == State(s.tables, false, [], s.freed + Frees(end.entries))
  {
    RunUndone(Begin(s), ops);
  }

  // ----- changes logged just before they are made -----

  /** A change as the program makes it: first its log call, then, if that succeeds, the write. */
  datatype Change<R> = Entry(id: nat, value: R) | Counts(modules: int, apps: int)

  function Make<R>(s: State<R>, c: Change<R>): (r: State<R>)
    requires c.Entry? ==> c.id < |s.tables.registry|
    ensures |r.tables.registry| == |s.tables.registry|
  {
    if !Logs(s) then s
    else
      match c
      case Entry(id, value) => Step(Step(s, LogRegistry(id)), SetEntry(id, value))
      case Counts(modules, apps) => Step(Step(s, LogVmState), SetCounts(modules, apps))
  }

  function MakeAll<R>(s: State<R>, changes: seq<Change<R>>): (r: State<R>)
    requires forall k :: 0 <= k < |changes| && changes[k].Entry? ==> changes[k].id < |s.tables.registry|
    decreases |changes|
  {
    if changes == [] then s else MakeAll(Make(s, changes[0]), changes[1..])
  }

  lemma MakeUndone<R>(s: State<R>, c: Change<R>)
    requires Fits(s.tables, s.entries) && (c.Entry? ==> c.id < |s.tables.registry|)
    ensures var r := Make(s, c);
            Fits(r.tables, r.entries) && r.active == s.active && r.freed == s.freed
            && Undo(r.tables, r.entries) == Undo(s.tables, s.entries)
            && |r.entries| == |s.entries| + if Logs(s) then 1 else 0
  {
    if Logs(s) {
      hide Undo;
      var log: Op<R> := match c case Entry(id, _) => LogRegistry(id) case Counts(_, _) => LogVmState;
      var write := match c case Entry(id, v) => SetEntry(id, v) case Counts(m, a) => SetCounts(m, a);
      var logged := Step(s, log);
      assert match c
             case Entry(id, _) => logged.entries[|s.entries|].id == id
             case Counts(_, _) => logged.entries[|s.entries|].VmState?;
      StepUndone(s, log);
      StepUndone(logged, write);
    }
  }

  /** Any changes of entries and counters after begin, repeated or not: rollback restores the tables of begin. */
  lemma {:induction false} LoggedChangesUndone<R>(s: State<R>, changes: seq<Change<R>>)
    requires forall k :: 0 <= k < |changes| && changes[k].Entry? ==> changes[k].id < |s.tables.registry|
    requires Fits(s.tables, s.entries) && s.active && |s.entries| <= MAX_ENTRIES
    ensures var end := MakeAll(s, changes);
            Fits(end.tables, end.entries) && end.active && Rollback(end).tables == Undo(s.tables, s.entries)
            && |end.entries| == if |s.entries| + |changes| <= MAX_ENTRIES then |s.entries| + |changes| else MAX_ENTRIES
    decreases |changes|
  {
    if changes != [] {
      hide Undo;
      MakeUndone(s, changes[0]);
      LoggedChangesUndone(Make(s, changes[0]), changes[1..]);
    }
  }

  // ----- the flash spaces -----

  function FlashSpaces<R>(entries: seq<LogEntry<R>>): seq<u32> {
    if entries == [] then []
    else (if entries[0].FlashAlloc? then [entries[0].offset] else []) + FlashSpaces(entries[1..])
  }

  function Reversed(s: seq<u32>): seq<u32> {
    if s == [] then [] else Reversed(s[1..]) + [s[0]]
  }

  /** A rollback frees every logged flash space once, the last one first. */
  lemma {:induction false} FreesInReverse<R>(entries: seq<LogEntry<R>>)
    ensures Frees(entries) == Reversed(FlashSpaces(entries))
    decreases |entries|
  {
    if entries != [] {
      var n := |entries| - 1;
      FreesInReverse(entries[..n]);
      SpacesOfLast(entries);
    }
  }

  lemma {:induction false} SpacesOfLast<R>(entries: seq<LogEntry<R>>)
    requires entries != []
    ensures var n := |entries| - 1;
            Reversed(FlashSpaces(entries)) ==
            (if entries[n].FlashAlloc? then [entries[n].offset] else []) + Reversed(FlashSpaces(entries[..n]))
    decreases |entries|
  {
    var n := |entries| - 1;
    if n > 0 {
      SpacesOfLast(entries[1..]);
      assert entries[1..][..n - 1] == entries[..n][1..];
      var rest := FlashSpaces(entries[1..]);
      assert entries[0].FlashAlloc? ==> ([entries[0].offset] + rest)[1..] == rest;
      assert !entries[0].FlashAlloc? ==> [] + rest == rest;
      var inner := FlashSpaces(entries[..n][1..]);
      assert entries[0].FlashAlloc? ==> ([entries[0].offset] + inner)[1..] == inner;
      assert !entries[0].FlashAlloc? ==> [] + inner == inner;
    }
  }
}
