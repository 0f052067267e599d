/**
 * The global reference table: packed entries in a base table and an extension, slot reuse,
 * growth and recycling by module.
 *
 * Creating a reference in a free slot leaves the reference count alone, so the count is not a
 * high-water mark. The lemmas say exactly when that matters, and what holds of a table whose count
 * is raised past each slot that is handed out.
 */
module GlobalRefs {
  import opened Bytes
  import opened BitVectors
  import opened Words

  const BASE_REFS := 64
  const MAX_REFS := 256
  const GROWTH_STEP := 32
  const NO_OWNER: byte := 0xFF
  const INVALID_ENTRY: bv32 := 0xFF00_0000

  // ----- packed entries -----

  function Owner(e: bv32): byte {
    (e >> 24) as byte
  }

  function Address(e: bv32): bv32 {
    e & 0x00FF_FFFF
  }

  function Pack(address: bv32, owner: byte): bv32 {
    ((owner as bv32) << 24) | (address & 0x00FF_FFFF)
  }

  predicate Live(e: bv32) {
    Owner(e) != NO_OWNER
  }

  lemma Packed(address: bv32, owner: byte)
    ensures Owner(Pack(address, owner)) == owner && Address(Pack(address, owner)) == address & 0x00FF_FFFF
  {
  }

  lemma InvalidIsDead()
    ensures !Live(INVALID_ENTRY)
  {
  }

  // ----- the table -----

  /** `ext` is the extension table, allocated when the table first grows. */
  datatype Table = Table(base: seq<bv32>, ext: Option<seq<bv32>>, capacity: nat, count: nat)

  predicate Sized(t: Table) {
    |t.base| == BASE_REFS && (t.ext.Some? ==> |t.ext.value| == MAX_REFS - BASE_REFS)
  }

  /** What initialisation and every operation but loading establish. */
  predicate Shaped(t: Table) {
    Sized(t) && BASE_REFS <= t.capacity <= MAX_REFS && t.count <= t.capacity
    && (t.ext.None? ==> t.capacity == BASE_REFS)
  }

  /** What holds of loaded tables too: the extension may be missing as long as the count does not reach into it. */
  predicate Operable(t: Table) {
    Sized(t) && BASE_REFS <= t.capacity <= MAX_REFS && t.count <= t.capacity
    && (t.ext.None? ==> t.count <= BASE_REFS)
  }

  /** Entries past the capacity have never been handed out. */
  ghost predicate FreshBeyond(t: Table)
    requires Shaped(t)
  {
    t.ext.Some? ==> forall i :: t.capacity <= i < MAX_REFS ==> !Live(Entry(t, i))
  }

  predicate Present(t: Table, i: int) {
    0 <= i < (if t.ext.Some? then MAX_REFS else BASE_REFS)
  }

  function Entry(t: Table, i: int): bv32
    requires Sized(t) && Present(t, i)
  {
    if i < BASE_REFS then t.base[i] else t.ext.value[i - BASE_REFS]
  }

  function SetEntry(t: Table, i: int, e: bv32): (r: Table)
    requires Sized(t) && Present(t, i)
    ensures Sized(r) && r.capacity == t.capacity && r.count == t.count && r.ext.Some? == t.ext.Some?
    ensures forall k :: Present(t, k) ==> Entry(r, k) == if k == i then e else Entry(t, k)
  {
    if i < BASE_REFS then t.(base := t.base[i := e])
    else t.(ext := Some(t.ext.value[i - BASE_REFS := e]))
  }

  function Blank(n: nat): (s: seq<bv32>)
    ensures |s| == n && forall i :: 0 <= i < n ==> s[i] == INVALID_ENTRY
  {
    if n == 0 then [] else Blank(n - 1) + [INVALID_ENTRY]
  }

  function Initial(): (t: Table)
    ensures Shaped(t)
  {
    Table(Blank(BASE_REFS), None, BASE_REFS, 0)
  }

  /** The first slot below the capacity that is not live, or -1; a missing extension ends the search. */
  function FirstFree(t: Table, i: nat): (r: int)
    requires Sized(t)
    ensures r == -1 || (i <= r < t.capacity && Present(t, r) && !Live(Entry(t, r)))
    ensures forall k :: i <= k < t.capacity && Present(t, k) && (r < 0 || k < r) ==> Live(Entry(t, k))
    decreases t.capacity - i
  {
    if i >= t.capacity || !Present(t, i) then -1
    else if !Live(Entry(t, i)) then i
    else FirstFree(t, i + 1)
  }

  /** Growing by one step; the outcome is that of saving the table, which comes last. */
  function Expand(t: Table, saved: bool): (Table, bool)
    requires Operable(t)
  {
    if t.capacity >= MAX_REFS then (t, false)
    else
      var capacity := if t.capacity + GROWTH_STEP > MAX_REFS then MAX_REFS else t.capacity + GROWTH_STEP;
      var ext := if t.ext.None? then Some(Blank(MAX_REFS - BASE_REFS)) else t.ext;
      (t.(capacity := capacity, ext := ext), saved)
  }

  /** A reference in the slot at the count, which moves up. */
  function Append(t: Table, address: bv32, owner: byte): (Table, Option<int>)
    requires Sized(t) && Present(t, t.count)
  {
    (SetEntry(t, t.count, Pack(address, owner)).(count := t.count + 1), Some(t.count))
  }

  /** A creation that takes the slot at the count, and would find it in an extension that is missing. */
  predicate FollowsNull(t: Table)
    requires Sized(t)
  {
    FirstFree(t, 0) < 0 && t.count < t.capacity && !Present(t, t.count)
  }

  /** The index of a new reference to an address, or None when the table cannot hold it. */
  function Create(t: Table, address: bv32, owner: byte, saved: bool): (Table, Option<int>)
    requires Operable(t) && !FollowsNull(t)
  {
    var free := FirstFree(t, 0);
    if free >= 0 then (SetEntry(t, free, Pack(address, owner)), Some(free))
    else if t.count < t.capacity then Append(t, address, owner)
    else
      var grown := Expand(t, saved);
      if !grown.1 then (grown.0, None) else
      var again := FirstFree(grown.0, 0);
      if again >= 0 then (SetEntry(grown.0, again, Pack(address, owner)), Some(again))
      else Append(grown.0, address, owner)
  }

  /** Following a compact 16-bit address: bit 15 tells a table index from a local address. */
  function Resolve(t: Table, compact: int): Option<bv32>
    requires Sized(t) && 0 <= compact < 0x1_0000
  {
    if compact < 0x8000 then Some(compact as bv32)
    else
      var i := compact - 0x8000;
      if i >= t.count || !Present(t, i) || !Live(Entry(t, i)) then None
      else Some(Address(Entry(t, i)))
  }

  function GlobalAddress(index: int): int {
    index % 0x8000 + 0x8000
  }

  function Recycled(s: seq<bv32>, owner: byte, n: int): (r: seq<bv32>)
    requires n <= |s|
    ensures |r| == |s|
    ensures forall i :: 0 <= i < |s| ==>
              r[i] == if i < n && Live(s[i]) && Owner(s[i]) == owner then INVALID_ENTRY else s[i]
  {
    seq(|s|, i requires 0 <= i < |s| => if i < n && Live(s[i]) && Owner(s[i]) == owner then INVALID_ENTRY else s[i])
  }

  /** Invalidates every entry of a module, in the base table and in the extension up to the capacity. */
  function DeleteModule(t: Table, owner: byte): (r: Table)
    requires Operable(t)
    ensures Operable(r) && (Shaped(t) ==> Shaped(r))
  {
    t.(base := Recycled(t.base, owner, BASE_REFS),
       ext := if t.ext.None? then None else Some(Recycled(t.ext.value, owner, t.capacity - BASE_REFS)))
  }

  // ----- what holds of the table as it is -----

  /** A reference that resolves, to this address and for this owner. */
  ghost predicate Good(t: Table, i: int, address: bv32, owner: byte)
    requires Sized(t)
  {
    0 <= i < t.count && Present(t, i) && owner != NO_OWNER
    && Owner(Entry(t, i)) == owner && Address(Entry(t, i)) == address
  }

  lemma GoodResolves(t: Table, i: int, address: bv32, owner: byte)
    requires Shaped(t) && Good(t, i, address, owner)
    ensures Resolve(t, GlobalAddress(i)) == Some(address)
  {
  }

  /** A compact address below 0x8000 is local: it resolves to the same number, whatever the table holds. */
  lemma LocalResolves(t: Table, compact: int)
    requires Sized(t) && 0 <= compact < 0x8000
    ensures Resolve(t, compact).Some? && Resolve(t, compact).value as int == compact
  {
    BackAndThere(compact);
  }

  datatype Op = CreateOp(address: bv32, owner: byte, saved: bool) | ExpandOp(saved: bool) | DeleteOp(owner: byte)

  function Step(t: Table, op: Op): (Table, Option<int>)
    requires Shaped(t)
  {
    match op
    case CreateOp(a, o, saved) => Create(t, a, o, saved)
    case ExpandOp(saved) => (Expand(t, saved).0, None)
    case DeleteOp(o) => (DeleteModule(t, o), None)
  }

  lemma ExpandKeeps(t: Table, saved: bool)
    requires Shaped(t)
    ensures var g := Expand(t, saved).0;
            Shaped(g) && g.count == t.count && g.base == t.base
            && (FreshBeyond(t) ==> FreshBeyond(g))
            && (forall i :: Present(t, i) ==> Present(g, i) && Entry(g, i) == Entry(t, i))
            && (FreshBeyond(t) && t.capacity < MAX_REFS ==>
                  forall i :: t.capacity <= i < MAX_REFS ==> !Live(Entry(g, i)))
  {
    InvalidIsDead();
    hide Live;
    var g := Expand(t, saved).0;
    if FreshBeyond(t) && t.capacity < MAX_REFS {
      forall i | t.capacity <= i < MAX_REFS
        ensures !Live(Entry(g, i))
      {
        if t.ext.Some? {
          assert Entry(g, i) == Entry(t, i);
        } else {
          assert Entry(g, i) == INVALID_ENTRY;
        }
      }
    }
  }

  /** A growing table gets its next reference in the slot at the old capacity. */
  lemma GrowthGivesFirstNew(t: Table, saved: bool)
    requires Shaped(t) && FreshBeyond(t) && FirstFree(t, 0) < 0 && t.capacity < MAX_REFS
    ensures FirstFree(Expand(t, saved).0, 0) == t.capacity
  {
    var g := Expand(t, saved).0;
    ExpandKeeps(t, saved);
    assert !Live(Entry(g, t.capacity));
    assert forall k :: 0 <= k < t.capacity ==> Present(t, k) && Live(Entry(t, k)) && Entry(g, k) == Entry(t, k);
    FirstFreeIs(g, 0, t.capacity);
  }

  lemma {:induction false} FirstFreeIs(t: Table, i: nat, r: nat)
    requires Sized(t) && i <= r < t.capacity && Present(t, r) && !Live(Entry(t, r))
    requires forall k :: i <= k < r ==> Live(Entry(t, k))
    ensures FirstFree(t, i) == r
    decreases r - i
  {
    hide Live;
    if i < r {
      FirstFreeIs(t, i + 1, r);
    }
  }

  /** Where a created reference goes. */
  ghost function Target(t: Table): int
    requires Shaped(t)
  {
    if FirstFree(t, 0) >= 0 then FirstFree(t, 0) else if t.count < t.capacity then t.count else t.capacity
  }

  /** Entries but one are kept, and a new extension brings in no live ones. */
  ghost predicate SameEntries(t: Table, u: Table, but: int)
    requires Sized(t) && Sized(u)
  {
    (forall i :: Present(t, i) ==> Present(u, i) && (i != but ==> Entry(u, i) == Entry(t, i)))
    && (forall i :: Present(u, i) && !Present(t, i) && i != but ==> !Live(Entry(u, i)))
  }

  /** The new table of a creation, entry by entry. */
  ghost predicate Written(t: Table, e: bv32, saved: bool, u: Table, r: Option<int>)
    requires Shaped(t)
  {
    var free := FirstFree(t, 0);
    Shaped(u) && FreshBeyond(u)
    && (r.None? <==> free < 0 && t.count >= t.capacity && (t.capacity >= MAX_REFS || !saved))
    && u.count == (if free < 0 && t.count < t.capacity then t.count + 1 else t.count)
    && (r.None? ==> SameEntries(t, u, -1))
    && (r.Some? ==> r.value == Target(t) < u.capacity && Present(u, r.value)
                     && SameEntries(t, u, r.value) && Entry(u, r.value) == e)
  }

  lemma CreateWrites(t: Table, address: bv32, owner: byte, saved: bool)
    requires Shaped(t) && FreshBeyond(t)
    ensures var (u, r) := Create(t, address, owner, saved);
            Written(t, Pack(address, owner), saved, u, r)
  {
    hide Pack;
    hide Live;
    hide Entry;
    var free, e := FirstFree(t, 0), Pack(address, owner);
    if free >= 0 {
      SetShows(t, free, e);
    } else if t.count < t.capacity {
      SetShows(t, t.count, e);
      CountChangesNoEntry(SetEntry(t, t.count, e), t.count + 1);
    } else {
      CreateGrowing(t, address, owner, saved);
    }
  }

  lemma CreateGrowing(t: Table, address: bv32, owner: byte, saved: bool)
    requires Shaped(t) && FreshBeyond(t) && FirstFree(t, 0) < 0 && t.count >= t.capacity
    ensures var (u, r) := Create(t, address, owner, saved);
            Written(t, Pack(address, owner), saved, u, r)
  {
    hide Pack;
    hide Live;
    hide Entry;
    var g, e := Expand(t, saved).0, Pack(address, owner);
    ExpandKeeps(t, saved);
    assert SameEntries(t, g, -1);
    if t.capacity < MAX_REFS {
      GrowthGivesFirstNew(t, saved);
      SetShows(g, t.capacity, e);
      hide SetEntry;
      assert SameEntries(t, SetEntry(g, t.capacity, e), t.capacity);
    }
  }

  lemma CountChangesNoEntry(t: Table, count: nat)
    requires Sized(t)
    ensures forall i :: Present(t, i) ==> Entry(t.(count := count), i) == Entry(t, i)
  {
  }

  lemma SetShows(t: Table, i: nat, e: bv32)
    requires Shaped(t) && FreshBeyond(t) && i < t.capacity
    ensures var u := SetEntry(t, i, e);
            Shaped(u) && FreshBeyond(u) && Present(u, i) && Entry(u, i) == e && SameEntries(t, u, i)
  {
    hide Live;
    hide Entry;
  }

  /**
   * When a fresh reference resolves: its owner is a real one, and its slot lies below the count,
   * which a free slot need not and a slot gained by growth never does.
   */
  lemma FreshReferenceResolvesIff(t: Table, address: bv32, owner: byte, saved: bool)
    requires Shaped(t) && FreshBeyond(t) && Create(t, address, owner, saved).1.Some?
    ensures var (u, r) := Create(t, address, owner, saved);
            var free := FirstFree(t, 0);
            Shaped(u) && Resolve(u, GlobalAddress(r.value)) ==
            if owner != NO_OWNER && (if free >= 0 then free < t.count else t.count < t.capacity)
            then Some(address & 0x00FF_FFFF) else None
  {
    hide Pack;
    hide Owner;
    hide Address;
    hide Create;
    hide FirstFree;
    CreateWrites(t, address, owner, saved);
    Packed(address, owner);
  }

  /** When a slot is handed out although it is live: no slot is free and the count is short of the capacity. */
  lemma LiveSlotReissuedIff(t: Table, address: bv32, owner: byte, saved: bool)
    requires Shaped(t) && FreshBeyond(t) && Create(t, address, owner, saved).1.Some?
    ensures var r := Create(t, address, owner, saved).1.value;
            Present(t, r) && Live(Entry(t, r)) <==> FirstFree(t, 0) < 0 && t.count < t.capacity
  {
    CreateWrites(t, address, owner, saved);
    hide Pack;
    hide Live;
    hide Create;
  }

  /** On a new table the very first reference does not resolve. */
  lemma FirstReferenceDoesNotResolve(address: bv32, owner: byte)
    ensures var (u, r) := Create(Initial(), address, owner, true);
            r == Some(0) && Sized(u) && Resolve(u, GlobalAddress(0)) == None
  {
    var t := Initial();
    InvalidIsDead();
    assert !Live(Entry(t, 0));
    assert FirstFree(t, 0) == 0;
  }

  /** A reference whose module is deleted no longer resolves. */
  lemma DeletedDoesNotResolve(t: Table, i: int, address: bv32, owner: byte)
    requires Shaped(t) && FreshBeyond(t) && Good(t, i, address, owner)
    ensures Resolve(t, GlobalAddress(i)) == Some(address)
    ensures Resolve(DeleteModule(t, owner), GlobalAddress(i)) == None
  {
    GoodResolves(t, i, address, owner);
    RecycledEntries(t, owner);
    InvalidIsDead();
    hide DeleteModule;
    hide Address;
  }

  function Grown(t: Table, k: nat): (r: Table)
    requires Operable(t)
    ensures Operable(r)
  {
    if k == 0 then t else Expand(Grown(t, k - 1), true).0
  }

  /** A new table grows from 64 slots by 32 at a time up to 256, where growing fails. */
  lemma {:induction false} GrowthSteps(k: nat)
    ensures var t := Grown(Initial(), k);
            && t.capacity == (if k <= 6 then 64 + 32 * k else 256) && t.count == 0
            && (Expand(t, true).1 <==> k < 6)
    decreases k
  {
    if k > 0 {
      GrowthSteps(k - 1);
    }
  }

  // ----- references over runs -----

  lemma {:induction false} RecycledEntries(t: Table, owner: byte)
    requires Shaped(t) && FreshBeyond(t)
    ensures var u := DeleteModule(t, owner);
            FreshBeyond(u) && u.count == t.count
            && (forall i :: Present(t, i) ==> Present(u, i))
            && (forall i :: Present(t, i) ==>
              Entry(u, i) == if Live(Entry(t, i)) && Owner(Entry(t, i)) == owner then INVALID_ENTRY else Entry(t, i))
  {
    InvalidIsDead();
    hide Live;
    hide Owner;
    var u := DeleteModule(t, owner);
    if t.ext.Some? {
      forall i | t.capacity <= i < MAX_REFS
        ensures !Live(Entry(u, i)) && !Live(Entry(t, i)) && Entry(u, i) == Entry(t, i)
      {
        assert !Live(Entry(t, i));
      }
    }
  }

  /** No step disturbs a reference that resolves, unless it deletes the reference's own module. */
  lemma GoodStays(t: Table, op: Op, i: int, address: bv32, owner: byte)
    requires Shaped(t) && FreshBeyond(t) && Good(t, i, address, owner) && op != DeleteOp(owner)
    ensures var u := Step(t, op).0;
            Shaped(u) && FreshBeyond(u) && Good(u, i, address, owner)
  {
    hide Address;
    match op
    case CreateOp(a, o, saved) =>
      hide Pack;
      CreateWrites(t, a, o, saved);
    case ExpandOp(saved) =>
      ExpandKeeps(t, saved);
    case DeleteOp(o) =>
      RecycledEntries(t, o);
  }

  ghost function Run(t: Table, ops: seq<Op>): (u: Table)
    requires Shaped(t) && FreshBeyond(t)
    ensures Shaped(u) && FreshBeyond(u)
    decreases |ops|
  {
    if ops == [] then t else StepKeepsShape(t, ops[0]); Run(Step(t, ops[0]).0, ops[1..])
  }

  lemma StepKeepsShape(t: Table, op: Op)
    requires Shaped(t) && FreshBeyond(t)
    ensures Shaped(Step(t, op).0) && FreshBeyond(Step(t, op).0)
  {
    match op
    case CreateOp(a, o, saved) => CreateWrites(t, a, o, saved);
    case ExpandOp(saved) => ExpandKeeps(t, saved);
    case DeleteOp(o) => RecycledEntries(t, o);
  }

  /** As it is, the table never loses a reference that once resolved, over any run that spares its module. */
  lemma {:induction false} GoodStaysOverRuns(t: Table, ops: seq<Op>, i: int, address: bv32, owner: byte)
    requires Shaped(t) && FreshBeyond(t) && Good(t, i, address, owner) && DeleteOp(owner) !in ops
    ensures Good(Run(t, ops), i, address, owner)
    decreases |ops|
  {
    hide Step;
    hide Good;
    if ops != [] {
      StepKeepsShape(t, ops[0]);
      GoodStays(t, ops[0], i, address, owner);
      GoodStaysOverRuns(Step(t, ops[0]).0, ops[1..], i, address, owner);
    }
  }

  // ----- a live slot handed out again, from a new table on -----

  /** Creations with real owners. */
  predicate Creations(ops: seq<Op>) {
    forall op :: op in ops ==> op.CreateOp? && op.owner != NO_OWNER
  }

  /** A table of the initial capacity whose first n slots are live and the others free, and whose count is zero. */
  ghost predicate FilledTo(t: Table, n: nat) {
    Shaped(t) && FreshBeyond(t) && t.count == 0 && t.capacity == BASE_REFS && t.ext.None?
    && forall i :: 0 <= i < BASE_REFS ==> (Live(Entry(t, i)) <==> i < n)
  }

  lemma OneMoreFilled(t: Table, n: nat, address: bv32, owner: byte, saved: bool)
    requires FilledTo(t, n) && n < BASE_REFS && owner != NO_OWNER
    ensures FilledTo(Create(t, address, owner, saved).0, n + 1)
  {
    hide Live;
    FirstFreeIs(t, 0, n);
    CreateWrites(t, address, owner, saved);
    PackedLive(address, owner);
    var u := Create(t, address, owner, saved).0;
    assert u == SetEntry(t, n, Pack(address, owner));
    hide Create;
    hide FirstFree;
    hide Pack;
    hide SetEntry;
  }

  lemma PackedLive(address: bv32, owner: byte)
    ensures Live(Pack(address, owner)) <==> owner != NO_OWNER
  {
    Packed(address, owner);
  }

  lemma {:induction false} CreationsFill(t: Table, n: nat, ops: seq<Op>)
    requires FilledTo(t, n) && Creations(ops) && n + |ops| <= BASE_REFS
    ensures FilledTo(Run(t, ops), n + |ops|)
    decreases |ops|
  {
    if ops != [] {
      var op := ops[0];
      assert op in ops;
      OneMoreFilled(t, n, op.address, op.owner, op.saved);
      hide FilledTo;
      hide Create;
      CreationsFill(Step(t, op).0, n + 1, ops[1..]);
    }
  }

  lemma AllLiveNoneFree(t: Table)
    requires FilledTo(t, BASE_REFS)
    ensures FirstFree(t, 0) == -1
  {
    hide Live;
    assert forall i :: 0 <= i < t.capacity ==> Present(t, i) && Live(Entry(t, i));
  }

  /** From a new table, any 64 creations leave every slot live and the count zero; the next one returns slot 0 again. */
  lemma LiveSlotReissuedReached(ops: seq<Op>, address: bv32, owner: byte, saved: bool)
    requires Creations(ops) && |ops| == BASE_REFS
    ensures FreshBeyond(Initial())
    ensures var t := Run(Initial(), ops);
            (forall i :: 0 <= i < BASE_REFS ==> Live(Entry(t, i))) && Create(t, address, owner, saved).1 == Some(0)
  {
    InvalidIsDead();
    CreationsFill(Initial(), 0, ops);
    var t := Run(Initial(), ops);
    AllLiveNoneFree(t);
    CreateWrites(t, address, owner, saved);
    hide Live;
    hide Run;
  }

  // ----- tables whose extension is missing -----

  /** When a creation follows a null pointer; never on a table that was not loaded. */
  lemma FollowsNullIff(t: Table)
    requires Operable(t)
    ensures FollowsNull(t) <==> t.ext.None? && t.count == BASE_REFS < t.capacity && FirstFree(t, 0) < 0
    ensures Shaped(t) ==> !FollowsNull(t)
  {
    hide Live;
  }

  /** Every operation that does not keeps the table fit for the next. */
  lemma OperableKept(t: Table, address: bv32, owner: byte, saved: bool)
    requires Operable(t)
    ensures Operable(Expand(t, saved).0) && Operable(DeleteModule(t, owner))
    ensures !FollowsNull(t) ==> Operable(Create(t, address, owner, saved).0)
  {
    hide Live;
    hide Pack;
  }

  /** A table of the initial capacity with all slots live, and some count. */
  ghost predicate FullAt(t: Table, n: nat) {
    Shaped(t) && FreshBeyond(t) && t.count == n && t.capacity == BASE_REFS && t.ext.None?
    && forall i :: 0 <= i < BASE_REFS ==> Live(Entry(t, i))
  }

  /** On a full table a creation overwrites the slot at the count. */
  lemma OneMoreCounted(t: Table, n: nat, address: bv32, owner: byte, saved: bool)
    requires FullAt(t, n) && n < BASE_REFS && owner != NO_OWNER
    ensures FullAt(Create(t, address, owner, saved).0, n + 1)
  {
    PackedLive(address, owner);
    CreateWrites(t, address, owner, saved);
    hide Live;
    hide Pack;
    assert forall i :: 0 <= i < t.capacity ==> Present(t, i) && Live(Entry(t, i));
    assert FirstFree(t, 0) == -1 && Create(t, address, owner, saved).0.ext.None?;
    hide Create;
  }

  lemma {:induction false} CreationsCount(t: Table, n: nat, ops: seq<Op>)
    requires FullAt(t, n) && Creations(ops) && n + |ops| <= BASE_REFS
    ensures FullAt(Run(t, ops), n + |ops|)
    decreases |ops|
  {
    if ops != [] {
      var op := ops[0];
      assert op in ops;
      OneMoreCounted(t, n, op.address, op.owner, op.saved);
      hide FullAt;
      hide Create;
      CreationsCount(Step(t, op).0, n + 1, ops[1..]);
    }
  }

  lemma {:induction false} RunSplits(t: Table, x: seq<Op>, y: seq<Op>)
    requires Shaped(t) && FreshBeyond(t)
    ensures Run(t, x + y) == Run(Run(t, x), y)
    decreases |x|
  {
    hide Step;
    if x == [] {
      assert x + y == y;
    } else {
      StepKeepsShape(t, x[0]);
      assert (x + y)[1..] == x[1..] + y;
      RunSplits(Step(t, x[0]).0, x[1..], y);
    }
  }

  /** After 128 creations on a new table its 64 slots are live and all counted, and the next creation has to grow it. */
  lemma FullReached(ops: seq<Op>)
    requires Creations(ops) && |ops| == 2 * BASE_REFS
    ensures FreshBeyond(Initial()) && FullAt(Run(Initial(), ops), BASE_REFS)
  {
    InvalidIsDead();
    var x, y := ops[..BASE_REFS], ops[BASE_REFS..];
    assert x + y == ops;
    CreationsFill(Initial(), 0, x);
    RunSplits(Initial(), x, y);
    hide Run;
    hide Live;
    CreationsCount(Run(Initial(), x), 0, y);
  }

  // ----- with the count as a high-water mark -----

  /** The table after a step, with the count raised past the slot just handed out. */
  function Raised(s: (Table, Option<int>)): Table {
    if s.1.Some? && s.1.value >= s.0.count then s.0.(count := s.1.value + 1) else s.0
  }

  datatype Issue = Issue(address: bv32, owner: byte)

  /** The references issued and not recycled, by index. */
  function Issued(live: map<int, Issue>, op: Op, r: Option<int>): map<int, Issue> {
    match op
    case CreateOp(a, o, _) => if r.Some? then live[r.value := Issue(a & 0x00FF_FFFF, o)] else live
    case ExpandOp(_) => live
    case DeleteOp(o) => map i | i in live && live[i].owner != o :: live[i]
  }

  /** The live entries are exactly the issued references, and each of them resolves. */
  ghost predicate Tracks(t: Table, live: map<int, Issue>)
    requires Sized(t)
  {
    (forall i :: i in live ==> Good(t, i, live[i].address, live[i].owner))
    && (forall i :: Present(t, i) && Live(Entry(t, i)) ==> i in live)
  }

  /** With every live slot below the count, a slot that is handed out is never a live one. */
  lemma TargetIsDead(t: Table, live: map<int, Issue>)
    requires Shaped(t) && FreshBeyond(t) && Tracks(t, live) && Target(t) < MAX_REFS
    ensures Target(t) !in live
  {
    hide Owner;
    assert forall i :: i in live ==> Good(t, i, live[i].address, live[i].owner) && i < t.count;
    assert t.count !in live;
    assert FirstFree(t, 0) < 0 ==> t.count >= t.capacity;
    assert FirstFree(t, 0) >= 0 ==> !Live(Entry(t, FirstFree(t, 0)));
  }

  lemma TrackedStep(t: Table, live: map<int, Issue>, op: Op)
    requires Shaped(t) && FreshBeyond(t) && Tracks(t, live) && (op.CreateOp? ==> op.owner != NO_OWNER)
    ensures var (u, r) := Step(t, op);
            Shaped(Raised((u, r))) && FreshBeyond(Raised((u, r)))
            && Tracks(Raised((u, r)), Issued(live, op, r))
            && (r.Some? ==> r.value !in live)
  {
    match op
    case CreateOp(a, o, saved) =>
      TrackedCreate(t, live, a, o, saved);
    case ExpandOp(saved) =>
      TrackedExpand(t, live, saved);
    case DeleteOp(o) =>
      TrackedDelete(t, live, o);
  }

  lemma TrackedCreate(t: Table, live: map<int, Issue>, a: bv32, o: byte, saved: bool)
    requires Shaped(t) && FreshBeyond(t) && Tracks(t, live) && o != NO_OWNER
    ensures var (u, r) := Create(t, a, o, saved);
            Shaped(Raised((u, r))) && FreshBeyond(Raised((u, r)))
            && Tracks(Raised((u, r)), Issued(live, CreateOp(a, o, saved), r))
            && (r.Some? ==> r.value !in live)
  {
    hide Owner;
    hide Address;
    hide Create;
    hide Tracks;
    var (u, r) := Create(t, a, o, saved);
    CreateWrites(t, a, o, saved);
    Packed(a, o);
    hide Pack;
    if r.Some? {
      TargetIsDead(t, live);
      CountChangesNoEntry(u, r.value + 1);
      TrackedWritten(t, live, u, r.value, Issue(a & 0x00FF_FFFF, o));
    } else {
      TrackedUnchanged(t, live, u);
    }
  }

  lemma TrackedUnchanged(t: Table, live: map<int, Issue>, u: Table)
    requires Sized(t) && Sized(u) && Tracks(t, live) && SameEntries(t, u, -1) && u.count >= t.count
    ensures Tracks(u, live)
  {
    hide Owner;
    hide Address;
    hide Entry;
  }

  lemma TrackedWritten(t: Table, live: map<int, Issue>, u: Table, r: nat, issue: Issue)
    requires Sized(t) && Sized(u) && Tracks(t, live) && Present(u, r) && SameEntries(t, u, r) && u.count >= t.count
    requires Owner(Entry(u, r)) == issue.owner != NO_OWNER && Address(Entry(u, r)) == issue.address
    ensures Tracks(Raised((u, Some(r))), live[r := issue])
  {
    var w := Raised((u, Some(r)));
    CountChangesNoEntry(u, w.count);
    hide Owner;
    hide Address;
    hide Entry;
    var live' := live[r := issue];
    forall i | i in live'
      ensures Good(w, i, live'[i].address, live'[i].owner)
    {
      if i != r {
        assert Good(t, i, live[i].address, live[i].owner);
      }
    }
    forall i | Present(w, i) && Live(Entry(w, i))
      ensures i in live'
    {
      if i != r {
        assert Present(u, i) && Live(Entry(u, i));
        assert Present(t, i) && Live(Entry(t, i));
      }
    }
  }

  lemma TrackedExpand(t: Table, live: map<int, Issue>, saved: bool)
    requires Shaped(t) && FreshBeyond(t) && Tracks(t, live)
    ensures Shaped(Expand(t, saved).0) && Tracks(Expand(t, saved).0, live)
  {
    hide Owner;
    hide Address;
    ExpandKeeps(t, saved);
  }

  lemma TrackedDelete(t: Table, live: map<int, Issue>, o: byte)
    requires Shaped(t) && FreshBeyond(t) && Tracks(t, live)
    ensures FreshBeyond(DeleteModule(t, o)) && Tracks(DeleteModule(t, o), Issued(live, DeleteOp(o), None))
  {
    hide Address;
    RecycledEntries(t, o);
    InvalidIsDead();
    hide Owner;
  }

  /** A run of the table with the raised count, beside the references issued and not recycled. */
  ghost function RaisedRun(t: Table, live: map<int, Issue>, ops: seq<Op>): (r: (Table, map<int, Issue>))
    requires Shaped(t) && FreshBeyond(t) && Tracks(t, live)
    requires forall op :: op in ops && op.CreateOp? ==> op.owner != NO_OWNER
    ensures Sized(r.0)
    decreases |ops|
  {
    if ops == [] then (t, live)
    else
      assert ops[0] in ops;
      TrackedStep(t, live, ops[0]);
      var s := Step(t, ops[0]);
      RaisedRun(Raised(s), Issued(live, ops[0], s.1), ops[1..])
  }

  /**
   * With the count raised, over every run from a new table: each reference issued and not recycled
   * resolves to its own address, no live entry is anything else, and no slot has two of them.
   */
  lemma {:induction false} IssuedReferencesStayGood(t: Table, live: map<int, Issue>, ops: seq<Op>)
    requires Shaped(t) && FreshBeyond(t) && Tracks(t, live)
    requires forall op :: op in ops && op.CreateOp? ==> op.owner != NO_OWNER
    ensures var (u, l) := RaisedRun(t, live, ops);
            Tracks(u, l) && forall i :: i in l ==> 0 <= i && Resolve(u, GlobalAddress(i)) == Some(l[i].address)
    decreases |ops|
  {
    hide Step;
    hide Issued;
    hide Tracks;
    if ops == [] {
      TrackedResolve(t, live);
    } else {
      assert ops[0] in ops;
      TrackedStep(t, live, ops[0]);
      var s := Step(t, ops[0]);
      IssuedReferencesStayGood(Raised(s), Issued(live, ops[0], s.1), ops[1..]);
    }
  }

  lemma TrackedResolve(t: Table, live: map<int, Issue>)
    requires Shaped(t) && Tracks(t, live)
    ensures forall i :: i in live ==> 0 <= i && Resolve(t, GlobalAddress(i)) == Some(live[i].address)
  {
    forall i | i in live
      ensures 0 <= i && Resolve(t, GlobalAddress(i)) == Some(live[i].address)
    {
      GoodResolves(t, i, live[i].address, live[i].owner);
    }
  }

  /** A new table has issued nothing. */
  lemma InitialTracks()
    ensures FreshBeyond(Initial()) && Tracks(Initial(), map[])
  {
    InvalidIsDead();
  }
}
