/**
 * The four-slot write-back page cache in front of flash, and the proof that it refines a flat
 * store: what is read is what was last written, whatever is evicted and whatever fails.
 */
module PageCache {
  import opened Bytes

  const PAGE_SIZE := 464
  const SLOTS := 4
  const NO_PAGE: u32 := 0xFFFF_FFFF

  // ----- flash -----

  /** Flash contents and the outcomes of the calls to come: true makes a call fail, none left succeed. */
  datatype Ftl = Ftl(flash: seq<byte>, faults: seq<bool>)

  predicate Faulty(f: Ftl) {
    f.faults != [] && f.faults[0]
  }

  function Called(f: Ftl): Ftl {
    if f.faults == [] then f else f.(faults := f.faults[1..])
  }

  predicate InFlash(f: Ftl, at: int) {
    0 <= at && at + PAGE_SIZE <= |f.flash|
  }

  function Window(flash: seq<byte>, at: int): (p: seq<byte>)
    requires 0 <= at && at + PAGE_SIZE <= |flash|
    ensures |p| == PAGE_SIZE
  {
    flash[at..at + PAGE_SIZE]
  }

  function Programmed(flash: seq<byte>, at: int, data: seq<byte>): (r: seq<byte>)
    requires |data| == PAGE_SIZE && 0 <= at && at + PAGE_SIZE <= |flash|
    ensures |r| == |flash|
  {
    flash[..at] + data + flash[at + PAGE_SIZE..]
  }

  function FtlRead(f: Ftl, at: int): (Ftl, Option<seq<byte>>) {
    if Faulty(f) || !InFlash(f, at) then (Called(f), None) else (Called(f), Some(Window(f.flash, at)))
  }

  function FtlWrite(f: Ftl, at: int, data: seq<byte>): (Ftl, bool)
    requires |data| == PAGE_SIZE
  {
    if Faulty(f) || !InFlash(f, at) then (Called(f), false)
    else (Called(f).(flash := Programmed(f.flash, at, data)), true)
  }

  // ----- cache -----

  datatype Slot = Slot(lpn: u32, data: seq<byte>, dirty: bool, valid: bool)

  function Zeros(n: nat): (s: seq<byte>)
    ensures |s| == n
  {
    if n == 0 then [] else [0] + Zeros(n - 1)
  }

  const EMPTY: Slot := Slot(NO_PAGE, Zeros(PAGE_SIZE), false, false)

  datatype Cache = Cache(slots: seq<Slot>, ftl: Ftl)

  predicate Shaped(c: Cache) {
    |c.slots| == SLOTS && forall i :: 0 <= i < SLOTS ==> |c.slots[i].data| == PAGE_SIZE
  }

  predicate Holds(s: Slot, lpn: u32) {
    s.valid && s.lpn == lpn
  }

  /** The first slot from i on that holds a page, or -1. */
  function Cached(slots: seq<Slot>, lpn: u32, i: nat): (r: int)
    requires i <= |slots|
    ensures r == -1 || (i <= r < |slots| && Holds(slots[r], lpn))
    ensures r == -1 ==> forall k :: i <= k < |slots| ==> !Holds(slots[k], lpn)
    decreases |slots| - i
  {
    if i == |slots| then -1 else if Holds(slots[i], lpn) then i else Cached(slots, lpn, i + 1)
  }

  function Empty(slots: seq<Slot>, i: nat): (r: int)
    requires i <= |slots|
    ensures r == -1 || (i <= r < |slots| && !slots[r].valid)
    ensures r == -1 ==> forall k :: i <= k < |slots| ==> slots[k].valid
    decreases |slots| - i
  {
    if i == |slots| then -1 else if !slots[i].valid then i else Empty(slots, i + 1)
  }

  /** The first clean slot, or slot 0 when all are dirty. */
  function Victim(slots: seq<Slot>, i: nat): (r: nat)
    requires i <= |slots| && |slots| > 0
    ensures r < |slots| && (r == 0 || (slots[r].valid && !slots[r].dirty))
    decreases |slots| - i
  {
    if i == |slots| then 0 else if slots[i].valid && !slots[i].dirty then i else Victim(slots, i + 1)
  }

  /** A slot to load a page into; evicting a dirty page writes it back first, and that may fail. */
  function MakeRoom(c: Cache): (Cache, int)
    requires Shaped(c)
  {
    var e := Empty(c.slots, 0);
    if e >= 0 then (c, e) else
    var v := Victim(c.slots, 0);
    var s := c.slots[v];
    if !s.dirty then (c, v) else
    var w := FtlWrite(c.ftl, s.lpn, s.data);
    (c.(ftl := w.0), if w.1 then v else -1)
  }

  function Fill(c: Cache, i: int, s: Slot): Cache
    requires 0 <= i < |c.slots|
  {
    c.(slots := c.slots[i := s])
  }

  function Read(c: Cache, lpn: u32): (Cache, Option<seq<byte>>)
    requires Shaped(c)
  {
    var hit := Cached(c.slots, lpn, 0);
    if hit >= 0 then (c, Some(c.slots[hit].data)) else
    var r := FtlRead(c.ftl, lpn);
    if r.1.None? then (c.(ftl := r.0), None) else
    var room := MakeRoom(c.(ftl := r.0));
    if room.1 < 0 then (room.0, None)
    else (Fill(room.0, room.1, Slot(lpn, r.1.value, false, true)), r.1)
  }

  function Write(c: Cache, lpn: u32, data: seq<byte>): (Cache, bool)
    requires Shaped(c) && |data| == PAGE_SIZE
  {
    var hit := Cached(c.slots, lpn, 0);
    var room := if hit >= 0 then (c, hit) else MakeRoom(c);
    if room.1 < 0 then (room.0, false)
    else (Fill(room.0, room.1, Slot(lpn, data, true, true)), true)
  }

  function Invalidate(c: Cache, lpn: u32): Cache
    requires Shaped(c)
  {
    var hit := Cached(c.slots, lpn, 0);
    if hit < 0 then c else Fill(c, hit, EMPTY)
  }

  /** Writes back dirty slots from i on, stopping at the first failure. */
  function Flush(c: Cache, i: nat): (Cache, bool)
    requires Shaped(c) && i <= SLOTS
    decreases SLOTS - i
  {
    if i == SLOTS then (c, true) else
    var s := c.slots[i];
    if !(s.valid && s.dirty) then Flush(c, i + 1) else
    var w := FtlWrite(c.ftl, s.lpn, s.data);
    if !w.1 then (c.(ftl := w.0), false)
    else Flush(Fill(c.(ftl := w.0), i, s.(dirty := false)), i + 1)
  }

  // ----- operations and runs -----

  datatype Op = ReadOp(lpn: u32) | WriteOp(lpn: u32, data: seq<byte>) | InvalidateOp(lpn: u32) | FlushOp

  datatype Reply = Page(page: seq<byte>) | Done | Failed

  predicate Allowed(op: Op, pages: set<u32>) {
    match op
    case ReadOp(p) => p in pages
    case WriteOp(p, d) => p in pages && |d| == PAGE_SIZE
    case InvalidateOp(p) => p in pages
    case FlushOp => true
  }

  function Step(c: Cache, op: Op): (Cache, Reply)
    requires Shaped(c) && (op.WriteOp? ==> |op.data| == PAGE_SIZE)
  {
    match op
    case ReadOp(p) =>
      var r := Read(c, p);
      (r.0, if r.1.Some? then Page(r.1.value) else Failed)
    case WriteOp(p, d) =>
      var r := Write(c, p, d);
      (r.0, if r.1 then Done else Failed)
    case InvalidateOp(p) => (Invalidate(c, p), Done)
    case FlushOp =>
      var r := Flush(c, 0);
      (r.0, if r.1 then Done else Failed)
  }

  // ----- the invariant -----

  /** Page addresses whose windows fit flash and do not overlap. */
  ghost predicate Spaced(pages: set<u32>, size: nat) {
    (forall p :: p in pages ==> p + PAGE_SIZE <= size)
    && (forall p, q :: p in pages && q in pages && p < q ==> p + PAGE_SIZE <= q)
  }

  ghost predicate Distinct(slots: seq<Slot>) {
    forall i, j :: 0 <= i < j < |slots| && slots[i].valid && slots[j].valid ==> slots[i].lpn != slots[j].lpn
  }

  /** One slot: its page is one of the pages, and a clean slot equals flash. */
  ghost predicate SlotOk(s: Slot, flash: seq<byte>, pages: set<u32>)
    requires Spaced(pages, |flash|)
  {
    |s.data| == PAGE_SIZE && (s.valid ==> s.lpn in pages && (!s.dirty ==> s.data == Window(flash, s.lpn)))
  }

  ghost predicate Inv(c: Cache, pages: set<u32>) {
    Spaced(pages, |c.ftl.flash|) && |c.slots| == SLOTS && Distinct(c.slots)
    && forall i :: 0 <= i < SLOTS ==> SlotOk(c.slots[i], c.ftl.flash, pages)
  }

  /** What a page holds as far as users of the cache can tell. */
  ghost function View(c: Cache, p: u32): seq<byte>
    requires p + PAGE_SIZE <= |c.ftl.flash|
  {
    var hit := Cached(c.slots, p, 0);
    if hit >= 0 then c.slots[hit].data else Window(c.ftl.flash, p)
  }

  ghost function Logical(c: Cache, pages: set<u32>): map<u32, seq<byte>>
    requires Spaced(pages, |c.ftl.flash|)
  {
    map p | p in pages :: View(c, p)
  }

  ghost function Stored(c: Cache, pages: set<u32>): map<u32, seq<byte>>
    requires Spaced(pages, |c.ftl.flash|)
  {
    map p | p in pages :: Window(c.ftl.flash, p)
  }

  /** With distinct pages, the slot that holds a page is the one that is found. */
  lemma ViewOfSlot(c: Cache, i: nat)
    requires i < |c.slots| && Distinct(c.slots) && c.slots[i].valid && c.slots[i].lpn + PAGE_SIZE <= |c.ftl.flash|
    ensures View(c, c.slots[i].lpn) == c.slots[i].data
  {
    var hit := Cached(c.slots, c.slots[i].lpn, 0);
    assert Holds(c.slots[i], c.slots[i].lpn);
    assert hit == i;
  }

  lemma WindowOfProgrammed(flash: seq<byte>, at: int, data: seq<byte>, p: int)
    requires |data| == PAGE_SIZE && 0 <= at && at + PAGE_SIZE <= |flash|
    requires 0 <= p && p + PAGE_SIZE <= |flash| && (p == at || p + PAGE_SIZE <= at || at + PAGE_SIZE <= p)
    ensures Window(Programmed(flash, at, data), p) == if p == at then data else Window(flash, p)
  {
    var r := Programmed(flash, at, data);
    assert p == at ==> r[p..p + PAGE_SIZE] == data;
    assert p + PAGE_SIZE <= at ==> r[p..p + PAGE_SIZE] == flash[p..p + PAGE_SIZE];
    assert at + PAGE_SIZE <= p ==> r[p..p + PAGE_SIZE] == flash[p..p + PAGE_SIZE];
  }

  // ----- the flat store -----

  /** Pages of `stored` may have been brought up to date with `logical`, none otherwise changed. */
  ghost predicate WrittenBack(stored: map<u32, seq<byte>>, stored': map<u32, seq<byte>>, logical: map<u32, seq<byte>>) {
    stored'.Keys == stored.Keys == logical.Keys
    && forall p :: p in stored ==> stored'[p] == stored[p] || stored'[p] == logical[p]
  }

  /**
   * The flat store: logical contents and stored contents. Reads return the logical contents,
   * writes change them, invalidation drops what was not stored, a successful flush stores
   * everything, and a failure changes no logical contents.
   */
  ghost predicate FlatEffect(l: map<u32, seq<byte>>, s: map<u32, seq<byte>>, op: Op, r: Reply,
                           l': map<u32, seq<byte>>, s': map<u32, seq<byte>>) {
    WrittenBack(s, s', l)
    && match op
       case ReadOp(p) => l' == l && (r == Failed || (p in l && r == Page(l[p])))
       case WriteOp(p, d) => (r == Done && p in l && l' == l[p := d]) || (r == Failed && l' == l)
       case InvalidateOp(p) => r == Done && s' == s && p in s && l' == l[p := s[p]]
       case FlushOp => l' == l && ((r == Done && s' == l) || r == Failed)
  }

  /** A step of the flat store: it fails exactly when a flash call made for it fails. */
  ghost predicate FlatStep(l: map<u32, seq<byte>>, s: map<u32, seq<byte>>, op: Op, r: Reply, struck: bool,
                           l': map<u32, seq<byte>>, s': map<u32, seq<byte>>) {
    FlatEffect(l, s, op, r, l', s') && (r == Failed <==> struck)
  }

  // ----- flash calls that fail -----

  /** Between the first state and the second some flash calls were made, as many as outcomes are gone. */
  predicate Later(f: Ftl, g: Ftl) {
    |g.flash| == |f.flash| && |g.faults| <= |f.faults| && g.faults == f.faults[|f.faults| - |g.faults|..]
  }

  /** One of those calls failed. */
  predicate Struck(f: Ftl, g: Ftl)
    requires Later(f, g)
  {
    true in f.faults[..|f.faults| - |g.faults|]
  }

  lemma NoCall(f: Ftl)
    ensures Later(f, f) && !Struck(f, f)
  {
  }

  lemma StruckEither(f: Ftl, g: Ftl, h: Ftl)
    requires Later(f, g) && Later(g, h)
    ensures Later(f, h) && (Struck(f, h) <==> Struck(f, g) || Struck(g, h))
  {
    var i, j := |f.faults| - |g.faults|, |g.faults| - |h.faults|;
    assert g.faults[..j] == f.faults[i..][..j] == f.faults[i..i + j];
    assert f.faults[..i + j] == f.faults[..i] + f.faults[i..i + j];
    assert h.faults == f.faults[i + j..];
  }

  lemma ReadStrikes(f: Ftl, at: int)
    requires InFlash(f, at)
    ensures var r := FtlRead(f, at); Later(f, r.0) && (r.1.None? <==> Struck(f, r.0))
  {
  }

  lemma WriteStrikes(f: Ftl, at: int, data: seq<byte>)
    requires InFlash(f, at) && |data| == PAGE_SIZE
    ensures var w := FtlWrite(f, at, data); Later(f, w.0) && (!w.1 <==> Struck(f, w.0))
  {
  }

  predicate SlotsInFlash(c: Cache)
    requires Shaped(c)
  {
    forall i :: 0 <= i < SLOTS && c.slots[i].valid ==> InFlash(c.ftl, c.slots[i].lpn)
  }

  lemma RoomStrikes(c: Cache)
    requires Shaped(c) && SlotsInFlash(c)
    ensures var (d, i) := MakeRoom(c); Later(c.ftl, d.ftl) && (i < 0 <==> Struck(c.ftl, d.ftl))
  {
    NoCall(c.ftl);
    var s := c.slots[Victim(c.slots, 0)];
    if Empty(c.slots, 0) < 0 {
      WriteStrikes(c.ftl, s.lpn, s.data);
    }
    hide FtlWrite;
    hide Struck;
    hide Later;
  }

  lemma {:induction false} FlushStrikes(c: Cache, i: nat)
    requires Shaped(c) && SlotsInFlash(c) && i <= SLOTS
    ensures var (d, ok) := Flush(c, i); Later(c.ftl, d.ftl) && (!ok <==> Struck(c.ftl, d.ftl))
    decreases SLOTS - i
  {
    NoCall(c.ftl);
    if i < SLOTS {
      var s := c.slots[i];
      if s.valid && s.dirty {
        WriteStrikes(c.ftl, s.lpn, s.data);
        var w := FtlWrite(c.ftl, s.lpn, s.data);
        hide FtlWrite;
        hide Struck;
        if w.1 {
          var d := Fill(c.(ftl := w.0), i, s.(dirty := false));
          FlushStrikes(d, i + 1);
          StruckEither(c.ftl, w.0, Flush(d, i + 1).0.ftl);
        }
      } else {
        FlushStrikes(c, i + 1);
      }
    }
  }

  lemma ReadFailsIff(c: Cache, p: u32)
    requires Shaped(c) && SlotsInFlash(c) && InFlash(c.ftl, p)
    ensures var (d, r) := Read(c, p); Later(c.ftl, d.ftl) && (r.None? <==> Struck(c.ftl, d.ftl))
  {
    NoCall(c.ftl);
    ReadStrikes(c.ftl, p);
    var c1 := c.(ftl := FtlRead(c.ftl, p).0);
    RoomStrikes(c1);
    StruckEither(c.ftl, c1.ftl, MakeRoom(c1).0.ftl);
    hide FtlRead;
    hide MakeRoom;
    hide Later;
    hide Struck;
  }

  lemma WriteFailsIff(c: Cache, p: u32, data: seq<byte>)
    requires Shaped(c) && SlotsInFlash(c) && |data| == PAGE_SIZE
    ensures var (d, ok) := Write(c, p, data); Later(c.ftl, d.ftl) && (!ok <==> Struck(c.ftl, d.ftl))
  {
    NoCall(c.ftl);
    RoomStrikes(c);
    hide MakeRoom;
    hide Later;
    hide Struck;
  }

  lemma InvShaped(c: Cache, pages: set<u32>)
    requires Inv(c, pages)
    ensures Shaped(c) && SlotsInFlash(c) && forall p :: p in pages ==> InFlash(c.ftl, p)
  {
  }

  /** An operation fails exactly when a flash call it makes fails. */
  lemma FailsIffStruck(c: Cache, pages: set<u32>, op: Op)
    requires Inv(c, pages) && Allowed(op, pages)
    ensures var (d, r) := Step(c, op); Later(c.ftl, d.ftl) && (r == Failed <==> Struck(c.ftl, d.ftl))
  {
    InvShaped(c, pages);
    NoCall(c.ftl);
    hide Inv;
    hide Later;
    hide Struck;
    hide Read;
    hide Write;
    match op
    case ReadOp(p) => ReadFailsIff(c, p);
    case WriteOp(p, data) => WriteFailsIff(c, p, data);
    case InvalidateOp(p) =>
    case FlushOp => FlushStrikes(c, 0);
  }

  // ----- one step refines the flat store -----

  /** A slot whose loss changes no contents: unused, or equal to flash. */
  ghost predicate Expendable(c: Cache, i: nat, pages: set<u32>)
    requires Inv(c, pages) && i < SLOTS
  {
    var s := c.slots[i];
    s.valid ==> s.data == Window(c.ftl.flash, s.lpn)
  }

  /** The page stands in one slot with these bytes, or in none and these bytes are in flash. */
  ghost predicate Shows(c: Cache, p: u32, data: seq<byte>)
    requires p + PAGE_SIZE <= |c.ftl.flash|
  {
    (exists i :: 0 <= i < |c.slots| && Holds(c.slots[i], p) && c.slots[i].data == data)
    || ((forall i :: 0 <= i < |c.slots| ==> !Holds(c.slots[i], p)) && data == Window(c.ftl.flash, p))
  }

  lemma ViewShows(c: Cache, p: u32, data: seq<byte>)
    requires p + PAGE_SIZE <= |c.ftl.flash| && Distinct(c.slots)
    ensures Shows(c, p, data) <==> View(c, p) == data
  {
    var hit := Cached(c.slots, p, 0);
    if i :| 0 <= i < |c.slots| && Holds(c.slots[i], p) {
      assert hit == i;
    }
  }

  /** Putting page p into a slot: its contents become the data, every other page keeps its own. */
  lemma FillShows(c: Cache, pages: set<u32>, i: nat, s: Slot)
    requires Inv(c, pages) && i < SLOTS && s.valid && s.lpn in pages && SlotOk(s, c.ftl.flash, pages)
    requires Holds(c.slots[i], s.lpn) || (Expendable(c, i, pages) && Cached(c.slots, s.lpn, 0) == -1)
    ensures Inv(Fill(c, i, s), pages)
    ensures Logical(Fill(c, i, s), pages) == Logical(c, pages)[s.lpn := s.data]
  {
    var d := Fill(c, i, s);
    assert Distinct(d.slots);
    forall q | q in pages
      ensures View(d, q) == if q == s.lpn then s.data else View(c, q)
    {
      ViewShows(c, q, View(c, q));
      if q == s.lpn {
        assert Holds(d.slots[i], q);
        ViewShows(d, q, s.data);
      } else {
        if k :| 0 <= k < SLOTS && Holds(c.slots[k], q) && c.slots[k].data == View(c, q) && k != i {
          assert Holds(d.slots[k], q);
        }
        ViewShows(d, q, View(c, q));
      }
    }
  }

  /** Dropping a page makes it show what is in flash. */
  lemma DropShows(c: Cache, pages: set<u32>, i: nat)
    requires Inv(c, pages) && i < SLOTS && c.slots[i].valid
    ensures Inv(Fill(c, i, EMPTY), pages)
    ensures Logical(Fill(c, i, EMPTY), pages)
            == Logical(c, pages)[c.slots[i].lpn := Window(c.ftl.flash, c.slots[i].lpn)]
  {
    var d, p := Fill(c, i, EMPTY), c.slots[i].lpn;
    forall q | q in pages
      ensures View(d, q) == if q == p then Window(c.ftl.flash, q) else View(c, q)
    {
      ViewShows(c, q, View(c, q));
      if q == p {
        ViewShows(d, q, Window(c.ftl.flash, q));
      } else {
        if k :| 0 <= k < SLOTS && Holds(c.slots[k], q) && c.slots[k].data == View(c, q) {
          assert Holds(d.slots[k], q);
        }
        ViewShows(d, q, View(c, q));
      }
    }
  }

  lemma WriteBackWindows(c: Cache, pages: set<u32>, i: nat, q: u32)
    requires Inv(c, pages) && i < SLOTS && c.slots[i].valid && q in pages
    ensures var s := c.slots[i];
            var w := FtlWrite(c.ftl, s.lpn, s.data);
            |w.0.flash| == |c.ftl.flash|
            && Window(w.0.flash, q) == if w.1 && q == s.lpn then s.data else Window(c.ftl.flash, q)
  {
    var s := c.slots[i];
    if FtlWrite(c.ftl, s.lpn, s.data).1 {
      WindowOfProgrammed(c.ftl.flash, s.lpn, s.data, q);
    }
  }

  /** Writing a slot back changes flash at its page only, and no logical contents. */
  lemma WriteBackShows(c: Cache, pages: set<u32>, i: nat)
    requires Inv(c, pages) && i < SLOTS && c.slots[i].valid
    ensures var s := c.slots[i];
            var w := FtlWrite(c.ftl, s.lpn, s.data);
            var d := c.(ftl := w.0);
            Inv(d, pages) && Logical(d, pages) == Logical(c, pages)
            && Stored(d, pages) == if w.1 then Stored(c, pages)[s.lpn := s.data] else Stored(c, pages)
  {
    hide FtlWrite;
    hide Window;
    var s := c.slots[i];
    var w := FtlWrite(c.ftl, s.lpn, s.data);
    var d := c.(ftl := w.0);
    WriteBackWindows(c, pages, i, s.lpn);
    forall q | q in pages
      ensures Window(d.ftl.flash, q) == if w.1 && q == s.lpn then s.data else Window(c.ftl.flash, q)
    {
      WriteBackWindows(c, pages, i, q);
    }
    forall q | q in pages
      ensures View(d, q) == View(c, q)
    {
      assert Holds(c.slots[i], s.lpn);
    }
  }

  lemma MakeRoomShows(c: Cache, pages: set<u32>)
    requires Inv(c, pages)
    ensures var (d, i) := MakeRoom(c);
            Inv(d, pages) && d.slots == c.slots && Logical(d, pages) == Logical(c, pages)
            && WrittenBack(Stored(c, pages), Stored(d, pages), Logical(c, pages))
            && -1 <= i < SLOTS && (i >= 0 ==> Expendable(d, i, pages))
  {
    var e := Empty(c.slots, 0);
    if e < 0 {
      var v := Victim(c.slots, 0);
      WriteBackShows(c, pages, v);
      ViewOfSlot(c, v);
    }
  }

  lemma FaultsIgnored(c: Cache, f: Ftl, pages: set<u32>)
    requires Inv(c, pages) && f.flash == c.ftl.flash
    ensures var d := c.(ftl := f);
            Inv(d, pages) && Logical(d, pages) == Logical(c, pages) && Stored(d, pages) == Stored(c, pages)
  {
  }

  lemma ReadRefines(c: Cache, pages: set<u32>, p: u32)
    requires Inv(c, pages) && p in pages
    ensures var (d, r) := Step(c, ReadOp(p));
            Inv(d, pages)
            && FlatEffect(Logical(c, pages), Stored(c, pages), ReadOp(p), r, Logical(d, pages), Stored(d, pages))
  {
    var l := Logical(c, pages);
    var hit := Cached(c.slots, p, 0);
    if hit < 0 {
      var r := FtlRead(c.ftl, p);
      var c1 := c.(ftl := r.0);
      FaultsIgnored(c, r.0, pages);
      if r.1.Some? {
        MakeRoomShows(c1, pages);
        var (c2, i) := MakeRoom(c1);
        if i >= 0 {
          FillShows(c2, pages, i, Slot(p, Window(c2.ftl.flash, p), false, true));
          assert View(c2, p) == l[p];
          assert l[p := l[p]] == l;
        }
      }
    }
  }

  lemma WriteRefines(c: Cache, pages: set<u32>, p: u32, data: seq<byte>)
    requires Inv(c, pages) && p in pages && |data| == PAGE_SIZE
    ensures var (d, r) := Step(c, WriteOp(p, data));
            Inv(d, pages)
            && FlatEffect(Logical(c, pages), Stored(c, pages), WriteOp(p, data), r, Logical(d, pages), Stored(d, pages))
  {
    var hit := Cached(c.slots, p, 0);
    if hit >= 0 {
      FillShows(c, pages, hit, Slot(p, data, true, true));
    } else {
      MakeRoomShows(c, pages);
      var (d, i) := MakeRoom(c);
      if i >= 0 {
        FillShows(d, pages, i, Slot(p, data, true, true));
      }
    }
  }

  lemma InvalidateRefines(c: Cache, pages: set<u32>, p: u32)
    requires Inv(c, pages) && p in pages
    ensures var (d, r) := Step(c, InvalidateOp(p));
            Inv(d, pages)
            && FlatEffect(Logical(c, pages), Stored(c, pages), InvalidateOp(p), r, Logical(d, pages), Stored(d, pages))
  {
    var hit := Cached(c.slots, p, 0);
    if hit >= 0 {
      DropShows(c, pages, hit);
    } else {
      assert Logical(c, pages)[p := Stored(c, pages)[p]] == Logical(c, pages);
    }
  }

  /** No slot before the i-th is dirty. */
  ghost predicate CleanBelow(c: Cache, i: nat)
    requires i <= |c.slots|
  {
    forall k :: 0 <= k < i && c.slots[k].valid ==> !c.slots[k].dirty
  }

  /** One slot written back and marked clean. */
  lemma FlushOne(c: Cache, pages: set<u32>, i: nat)
    requires Inv(c, pages) && i < SLOTS && c.slots[i].valid && CleanBelow(c, i)
    requires FtlWrite(c.ftl, c.slots[i].lpn, c.slots[i].data).1
    ensures var s := c.slots[i];
            var d := Fill(c.(ftl := FtlWrite(c.ftl, s.lpn, s.data).0), i, s.(dirty := false));
            Inv(d, pages) && CleanBelow(d, i + 1) && Logical(d, pages) == Logical(c, pages)
            && WrittenBack(Stored(c, pages), Stored(d, pages), Logical(c, pages))
  {
    var s := c.slots[i];
    var e := c.(ftl := FtlWrite(c.ftl, s.lpn, s.data).0);
    WriteBackShows(c, pages, i);
    ViewOfSlot(c, i);
    assert Stored(e, pages)[s.lpn] == s.data;
    FillShows(e, pages, i, s.(dirty := false));
    assert Logical(e, pages)[s.lpn] == s.data;
    assert Logical(e, pages)[s.lpn := s.data] == Logical(e, pages);
  }

  lemma {:induction false} FlushFrom(c: Cache, pages: set<u32>, i: nat)
    requires Inv(c, pages) && i <= SLOTS && CleanBelow(c, i)
    ensures var (d, ok) := Flush(c, i);
            Inv(d, pages) && Logical(d, pages) == Logical(c, pages) && (ok ==> CleanBelow(d, SLOTS))
            && WrittenBack(Stored(c, pages), Stored(d, pages), Logical(c, pages))
    decreases SLOTS - i
  {
    if i < SLOTS {
      var s := c.slots[i];
      if s.valid && s.dirty {
        var w := FtlWrite(c.ftl, s.lpn, s.data);
        WriteBackShows(c, pages, i);
        hide FtlWrite;
        hide Fill;
        if w.1 {
          FlushOne(c, pages, i);
          var d := Fill(c.(ftl := w.0), i, s.(dirty := false));
          FlushFrom(d, pages, i + 1);
          WrittenBackTwice(Stored(c, pages), Stored(d, pages), Stored(Flush(d, i + 1).0, pages), Logical(c, pages));
        }
      } else {
        FlushFrom(c, pages, i + 1);
      }
    }
  }

  lemma WrittenBackTwice(s0: map<u32, seq<byte>>, s1: map<u32, seq<byte>>, s2: map<u32, seq<byte>>,
                         l: map<u32, seq<byte>>)
    requires WrittenBack(s0, s1, l) && WrittenBack(s1, s2, l)
    ensures WrittenBack(s0, s2, l)
  {
  }

  /** With every slot clean, what pages show is what flash holds. */
  lemma CleanMeansStored(c: Cache, pages: set<u32>)
    requires Inv(c, pages) && CleanBelow(c, SLOTS)
    ensures Logical(c, pages) == Stored(c, pages)
  {
  }

  lemma FlushRefines(c: Cache, pages: set<u32>)
    requires Inv(c, pages)
    ensures var (d, r) := Step(c, FlushOp);
            Inv(d, pages)
            && FlatEffect(Logical(c, pages), Stored(c, pages), FlushOp, r, Logical(d, pages), Stored(d, pages))
  {
    FlushFrom(c, pages, 0);
    var (d, ok) := Flush(c, 0);
    if ok {
      CleanMeansStored(d, pages);
    }
  }

  lemma StepHasEffect(c: Cache, pages: set<u32>, op: Op)
    requires Inv(c, pages) && Allowed(op, pages)
    ensures var (d, r) := Step(c, op);
            Inv(d, pages)
            && FlatEffect(Logical(c, pages), Stored(c, pages), op, r, Logical(d, pages), Stored(d, pages))
  {
    match op
    case ReadOp(p) => ReadRefines(c, pages, p);
    case WriteOp(p, data) => WriteRefines(c, pages, p, data);
    case InvalidateOp(p) => InvalidateRefines(c, pages, p);
    case FlushOp => FlushRefines(c, pages);
  }

  /** Every step of the cache is one of the flat store, and fails exactly when a flash call made in it fails. */
  lemma StepRefines(c: Cache, pages: set<u32>, op: Op)
    requires Inv(c, pages) && Allowed(op, pages)
    ensures var (d, r) := Step(c, op);
            Inv(d, pages) && Later(c.ftl, d.ftl)
            && FlatStep(Logical(c, pages), Stored(c, pages), op, r, Struck(c.ftl, d.ftl),
                        Logical(d, pages), Stored(d, pages))
  {
    StepHasEffect(c, pages, op);
    FailsIffStruck(c, pages, op);
    hide FlatEffect;
    hide Inv;
    hide Step;
    hide Struck;
    hide Logical;
    hide Stored;
  }

  // ----- whole runs -----

  function Run(c: Cache, ops: seq<Op>): (Cache, seq<Reply>)
    requires Shaped(c) && forall op :: op in ops && op.WriteOp? ==> |op.data| == PAGE_SIZE
    decreases |ops|
  {
    if ops == [] then (c, [])
    else
      StepShaped(c, ops[0]);
      var s := Step(c, ops[0]);
      var rest := Run(s.0, ops[1..]);
      (rest.0, [s.1] + rest.1)
  }

  lemma StepShaped(c: Cache, op: Op)
    requires Shaped(c) && (op.WriteOp? ==> |op.data| == PAGE_SIZE)
    ensures Shaped(Step(c, op).0)
  {
    if op.FlushOp? {
      FlushShaped(c, 0);
    }
  }

  lemma {:induction false} FlushShaped(c: Cache, i: nat)
    requires Shaped(c) && i <= SLOTS
    ensures Shaped(Flush(c, i).0)
    decreases SLOTS - i
  {
    if i < SLOTS {
      var s := c.slots[i];
      FlushShaped(c, i + 1);
      FlushShaped(Fill(c.(ftl := FtlWrite(c.ftl, s.lpn, s.data).0), i, s.(dirty := false)), i + 1);
    }
  }

  /** The flat store can give these replies to these operations, these steps struck, and end with these contents. */
  ghost predicate FlatRun(l: map<u32, seq<byte>>, s: map<u32, seq<byte>>, ops: seq<Op>, rs: seq<Reply>,
                          struck: seq<bool>, l': map<u32, seq<byte>>, s': map<u32, seq<byte>>)
    decreases |ops|
  {
    |rs| == |struck| == |ops|
    && if ops == [] then l' == l && s' == s
       else exists l1, s1 :: FlatStep(l, s, ops[0], rs[0], struck[0], l1, s1)
                             && FlatRun(l1, s1, ops[1..], rs[1..], struck[1..], l', s')
  }

  /** Which steps of a run are struck by a failing flash call. */
  ghost function Strikes(c: Cache, pages: set<u32>, ops: seq<Op>): (r: seq<bool>)
    requires Inv(c, pages) && AllAllowed(ops, pages)
    ensures |r| == |ops|
    decreases |ops|
  {
    if ops == [] then []
    else
      assert ops[0] in ops;
      StepRefines(c, pages, ops[0]);
      var d := Step(c, ops[0]).0;
      [Struck(c.ftl, d.ftl)] + Strikes(d, pages, ops[1..])
  }

  ghost predicate AllAllowed(ops: seq<Op>, pages: set<u32>) {
    forall op :: op in ops ==> Allowed(op, pages)
  }

  /** Every run of the cache, whatever faults strike, is a run of the flat store that fails just where they do. */
  lemma {:induction false} RunRefines(c: Cache, pages: set<u32>, ops: seq<Op>)
    requires Inv(c, pages) && AllAllowed(ops, pages)
    ensures var (d, rs) := Run(c, ops);
            Inv(d, pages)
            && FlatRun(Logical(c, pages), Stored(c, pages), ops, rs, Strikes(c, pages, ops),
                       Logical(d, pages), Stored(d, pages))
    decreases |ops|
  {
    if ops != [] {
      assert ops[0] in ops;
      var (c1, r1) := Step(c, ops[0]);
      StepRefines(c, pages, ops[0]);
      StepShaped(c, ops[0]);
      RunRefines(c1, pages, ops[1..]);
      var (d, rs) := Run(c1, ops[1..]);
      var struck := Strikes(c, pages, ops);
      assert ([r1] + rs)[1..] == rs && struck[1..] == Strikes(c1, pages, ops[1..]);
      hide FlatStep;
      hide Inv;
      hide Step;
      hide Logical;
      hide Stored;
      assert FlatStep(Logical(c, pages), Stored(c, pages), ops[0], r1, struck[0],
                      Logical(c1, pages), Stored(c1, pages));
    }
  }

  ghost predicate LeavesAlone(ops: seq<Op>, p: u32) {
    forall op :: op in ops ==> !(op.WriteOp? && op.lpn == p) && !(op.InvalidateOp? && op.lpn == p)
  }

  /** In the flat store a page keeps its contents while no operation writes or invalidates it. */
  lemma {:induction false} FlatKeeps(l: map<u32, seq<byte>>, s: map<u32, seq<byte>>, ops: seq<Op>, rs: seq<Reply>,
                                     struck: seq<bool>, l': map<u32, seq<byte>>, s': map<u32, seq<byte>>, p: u32)
    requires FlatRun(l, s, ops, rs, struck, l', s') && LeavesAlone(ops, p) && p in l && l.Keys == s.Keys
    ensures p in l' && l'[p] == l[p] && l'.Keys == s'.Keys
    ensures s[p] == l[p] ==> s'[p] == l[p]
    decreases |ops|
  {
    if ops != [] {
      var l1, s1 :| FlatStep(l, s, ops[0], rs[0], struck[0], l1, s1)
                    && FlatRun(l1, s1, ops[1..], rs[1..], struck[1..], l', s');
      assert ops[0] in ops;
      FlatKeeps(l1, s1, ops[1..], rs[1..], struck[1..], l', s', p);
    }
  }

  /**
   * A read returns what the last successful write of its page wrote, however many operations and faults lie between,
   * and fails exactly when a flash call made for it does.
   */
  lemma ReadsLastWritten(c: Cache, pages: set<u32>, p: u32, data: seq<byte>, ops: seq<Op>)
    requires Inv(c, pages) && p in pages && |data| == PAGE_SIZE && AllAllowed(ops, pages) && LeavesAlone(ops, p)
    requires Step(c, WriteOp(p, data)).1 == Done
    ensures Shaped(Step(c, WriteOp(p, data)).0)
    ensures var (d, _) := Run(Step(c, WriteOp(p, data)).0, ops);
            Shaped(d) && Later(d.ftl, Step(d, ReadOp(p)).0.ftl)
            && Step(d, ReadOp(p)).1 == if Struck(d.ftl, Step(d, ReadOp(p)).0.ftl) then Failed else Page(data)
  {
    StepShaped(c, WriteOp(p, data));
    StepRefines(c, pages, WriteOp(p, data));
    var c1 := Step(c, WriteOp(p, data)).0;
    RunRefines(c1, pages, ops);
    var (d, rs) := Run(c1, ops);
    FlatKeeps(Logical(c1, pages), Stored(c1, pages), ops, rs, Strikes(c1, pages, ops),
              Logical(d, pages), Stored(d, pages), p);
    StepRefines(d, pages, ReadOp(p));
  }

  /** After a successful flush the contents of a page stay in flash until the page is next written. */
  lemma FlushedStays(c: Cache, pages: set<u32>, p: u32, ops: seq<Op>)
    requires Inv(c, pages) && p in pages && AllAllowed(ops, pages) && LeavesAlone(ops, p)
    requires Step(c, FlushOp).1 == Done
    ensures Shaped(Step(c, FlushOp).0)
    ensures var (d, _) := Run(Step(c, FlushOp).0, ops);
            p + PAGE_SIZE <= |d.ftl.flash| && Window(d.ftl.flash, p) == View(c, p)
  {
    StepShaped(c, FlushOp);
    StepRefines(c, pages, FlushOp);
    var c1 := Step(c, FlushOp).0;
    RunRefines(c1, pages, ops);
    var (d, rs) := Run(c1, ops);
    FlatKeeps(Logical(c1, pages), Stored(c1, pages), ops, rs, Strikes(c1, pages, ops),
              Logical(d, pages), Stored(d, pages), p);
    assert Stored(d, pages)[p] == Logical(c, pages)[p];
  }

  // ----- runs without faults -----

  type Contents = map<u32, seq<byte>>
  type Possible = map<u32, set<seq<byte>>>

  /**
   * What is known of the contents of pages after an answer. A read or a write makes its page known; after an
   * invalidation it is one of the contents that flash can hold.
   */
  ghost function KnownAfter(known: Contents, op: Op, r: Reply): Contents {
    match op
    case ReadOp(p) => if r.Page? then known[p := r.page] else known
    case WriteOp(p, d) => known[p := d]
    case InvalidateOp(p) => known - {p}
    case FlushOp => known
  }

  /** What flash can hold of each page: contents that were written, since the last flush. */
  ghost function PossibleAfter(known: Contents, past: Possible, op: Op, r: Reply): Possible {
    match op
    case ReadOp(p) => if p in known || !r.Page? then past else past[p := {r.page}]
    case WriteOp(p, d) => if p in past then past[p := past[p] + {d}] else past
    case InvalidateOp(p) => past
    case FlushOp => map p | p in past :: if p in known then {known[p]} else past[p]
  }

  /** The right answer when nothing fails. */
  ghost predicate Right(known: Contents, past: Possible, op: Op, r: Reply) {
    match op
    case ReadOp(p) => r.Page? && p in past && (if p in known then r.page == known[p] else r.page in past[p])
    case _ => r == Done
  }

  ghost predicate Answers(known: Contents, past: Possible, ops: seq<Op>, rs: seq<Reply>)
    decreases |ops|
  {
    |rs| == |ops|
    && (ops != [] ==>
          Right(known, past, ops[0], rs[0])
          && Answers(KnownAfter(known, ops[0], rs[0]), PossibleAfter(known, past, ops[0], rs[0]), ops[1..], rs[1..]))
  }

  lemma {:induction false} NoFaultsNoStrikes(c: Cache, pages: set<u32>, ops: seq<Op>)
    requires Inv(c, pages) && AllAllowed(ops, pages) && c.ftl.faults == []
    ensures forall k :: 0 <= k < |ops| ==> !Strikes(c, pages, ops)[k]
    decreases |ops|
  {
    if ops != [] {
      assert ops[0] in ops;
      StepRefines(c, pages, ops[0]);
      hide Inv;
      hide Step;
      hide FlatStep;
      NoFaultsNoStrikes(Step(c, ops[0]).0, pages, ops[1..]);
    }
  }

  /** Logical and stored contents that agree with what is known and possible. */
  ghost predicate Agrees(l: Contents, s: Contents, known: Contents, past: Possible) {
    l.Keys == s.Keys == past.Keys
    && (forall p :: p in past ==> l[p] in past[p] && s[p] in past[p])
    && (forall p :: p in past ==> if p in known then l[p] == known[p] else l[p] == s[p])
  }

  lemma FlatStepAnswers(l: Contents, s: Contents, op: Op, r: Reply, l': Contents, s': Contents, known: Contents,
                        past: Possible)
    requires FlatStep(l, s, op, r, false, l', s') && Agrees(l, s, known, past)
    ensures Right(known, past, op, r)
    ensures Agrees(l', s', KnownAfter(known, op, r), PossibleAfter(known, past, op, r))
  {
  }

  lemma {:induction false} FlatAnswers(l: Contents, s: Contents, ops: seq<Op>, rs: seq<Reply>, struck: seq<bool>,
                                       l': Contents, s': Contents, known: Contents, past: Possible)
    requires FlatRun(l, s, ops, rs, struck, l', s') && forall k :: 0 <= k < |ops| ==> !struck[k]
    requires Agrees(l, s, known, past)
    ensures Answers(known, past, ops, rs)
    decreases |ops|
  {
    hide FlatStep;
    hide Agrees;
    hide Right;
    hide KnownAfter;
    hide PossibleAfter;
    if ops != [] {
      var op, r := ops[0], rs[0];
      var l1, s1 :| FlatStep(l, s, op, r, struck[0], l1, s1) && FlatRun(l1, s1, ops[1..], rs[1..], struck[1..], l', s');
      assert !struck[0];
      FlatStepAnswers(l, s, op, r, l1, s1, known, past);
      FlatAnswers(l1, s1, ops[1..], rs[1..], struck[1..], l', s',
                  KnownAfter(known, op, r), PossibleAfter(known, past, op, r));
    }
  }

  /**
   * While no flash call fails nothing fails: every read returns the page last written or read, and after an
   * invalidation what flash then held.
   */
  lemma FaultFreeRun(c: Cache, pages: set<u32>, ops: seq<Op>)
    requires Inv(c, pages) && AllAllowed(ops, pages) && c.ftl.faults == []
    ensures var l, s := Logical(c, pages), Stored(c, pages);
            Answers(l, map p | p in pages :: {l[p], s[p]}, ops, Run(c, ops).1)
  {
    RunRefines(c, pages, ops);
    NoFaultsNoStrikes(c, pages, ops);
    var (d, rs) := Run(c, ops);
    var l, s := Logical(c, pages), Stored(c, pages);
    hide Run;
    hide FlatRun;
    hide Inv;
    FlatAnswers(l, s, ops, rs, Strikes(c, pages, ops), Logical(d, pages), Stored(d, pages),
                l, map p | p in pages :: {l[p], s[p]});
  }

  // ----- what the cache saves -----

  /** The slot given up is the first clean one, so that flash is written only when all are dirty. */
  lemma {:induction false} VictimIsFirstClean(slots: seq<Slot>, i: nat)
    requires i <= |slots| && slots != []
    ensures var v := Victim(slots, i);
            if forall k :: i <= k < |slots| ==> !slots[k].valid || slots[k].dirty then v == 0
            else i <= v && slots[v].valid && !slots[v].dirty
                 && forall k :: i <= k < v ==> !slots[k].valid || slots[k].dirty
    decreases |slots| - i
  {
    if i < |slots| {
      VictimIsFirstClean(slots, i + 1);
    }
  }

  /** A page in the cache is read and written without any flash call. */
  lemma HitsMakeNoCall(c: Cache, p: u32, data: seq<byte>)
    requires Shaped(c) && |data| == PAGE_SIZE && exists i :: 0 <= i < SLOTS && Holds(c.slots[i], p)
    ensures Read(c, p).0 == c && Read(c, p).1.Some?
    ensures Write(c, p, data).0.ftl == c.ftl && Write(c, p, data).1
  {
    var hit := Cached(c.slots, p, 0);
    assert hit >= 0;
  }

  /** With an empty or a clean slot a page not in the cache costs one flash read, and no write. */
  lemma MissReadsOnce(c: Cache, p: u32)
    requires Shaped(c) && forall i :: 0 <= i < SLOTS ==> !Holds(c.slots[i], p)
    requires exists i :: 0 <= i < SLOTS && (!c.slots[i].valid || !c.slots[i].dirty)
    ensures Read(c, p).0.ftl == Called(c.ftl)
  {
    VictimIsFirstClean(c.slots, 0);
    assert Cached(c.slots, p, 0) == -1;
  }

  // ----- a new cache -----

  function NewCache(f: Ftl): Cache {
    Cache([EMPTY, EMPTY, EMPTY, EMPTY], f)
  }

  /** A new cache keeps the invariant and shows what is in flash, which is all it can then lose. */
  lemma NewCacheShowsFlash(f: Ftl, pages: set<u32>)
    requires Spaced(pages, |f.flash|)
    ensures Inv(NewCache(f), pages)
    ensures Logical(NewCache(f), pages) == Stored(NewCache(f), pages) == map p | p in pages :: Window(f.flash, p)
  {
    var c := NewCache(f);
    forall p | p in pages
      ensures View(c, p) == Window(f.flash, p)
    {
      assert forall i :: 0 <= i < SLOTS ==> !Holds(c.slots[i], p);
    }
  }
}
