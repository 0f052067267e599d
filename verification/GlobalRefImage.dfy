/**
 * The flash image of the reference table: magic number, count, capacity, the first `count`
 * entries and a CRC-32 over all of that. Loading inverts saving and refuses damaged images.
 */
module GlobalRefImage {
  import opened Bytes
  import opened GlobalRefs
  import Crc32

  /** 0x47524546 as stored. */
  const MAGIC: seq<byte> := [0x46, 0x45, 0x52, 0x47]
  const HEADER := 8

  function ReadWord(s: seq<byte>): bv32
    requires |s| == 4
  {
    (s[0] as bv32) | ((s[1] as bv32) << 8) | ((s[2] as bv32) << 16) | ((s[3] as bv32) << 24)
  }

  lemma WordRoundTrip(w: bv32)
    ensures ReadWord(Crc32.WordLe(w)) == w
  {
  }

  lemma WordUnread(s: seq<byte>)
    requires |s| == 4
    ensures Crc32.WordLe(ReadWord(s)) == s
  {
    hide Crc32.WordLe;
    FourBack(s[0], s[1], s[2], s[3], ReadWord(s));
    assert s == [s[0], s[1], s[2], s[3]];
  }

  lemma FourBack(a: byte, b: byte, c: byte, d: byte, w: bv32)
    requires w == (a as bv32) | ((b as bv32) << 8) | ((c as bv32) << 16) | ((d as bv32) << 24)
    ensures Crc32.WordLe(w) == [a, b, c, d]
  {
  }

  function EncodeEntries(es: seq<bv32>): (s: seq<byte>)
    ensures |s| == 4 * |es|
  {
    if es == [] then [] else EncodeEntries(es[..|es| - 1]) + Crc32.WordLe(es[|es| - 1])
  }

  function DecodeEntries(s: seq<byte>, n: nat): (es: seq<bv32>)
    requires |s| == 4 * n
    ensures |es| == n
  {
    if n == 0 then [] else DecodeEntries(s[..4 * (n - 1)], n - 1) + [ReadWord(s[4 * (n - 1)..])]
  }

  lemma {:induction false} EntriesRoundTrip(es: seq<bv32>)
    ensures DecodeEntries(EncodeEntries(es), |es|) == es
    decreases |es|
  {
    hide Crc32.WordLe;
    hide ReadWord;
    if es != [] {
      var init, last := es[..|es| - 1], es[|es| - 1];
      EntriesRoundTrip(init);
      WordRoundTrip(last);
      assert |EncodeEntries(es)| == 4 * |init| + 4;
      assert EncodeEntries(es)[..4 * |init|] == EncodeEntries(init);
      assert EncodeEntries(es)[4 * |init|..] == Crc32.WordLe(last);
      assert es == init + [last];
    }
  }

  // ----- saving -----

  /** The entries below n, across the base table and the extension. */
  function Entries(t: Table, n: nat): (es: seq<bv32>)
    requires Sized(t) && n <= MAX_REFS && (n > BASE_REFS ==> t.ext.Some?)
    ensures |es| == n && forall i :: 0 <= i < n ==> es[i] == Entry(t, i)
  {
    if n <= BASE_REFS then t.base[..n] else t.base + t.ext.value[..n - BASE_REFS]
  }

  predicate Saveable(t: Table) {
    Sized(t) && t.count <= MAX_REFS && t.capacity < 0x1_0000 && (t.count > BASE_REFS ==> t.ext.Some?)
  }

  function Payload(t: Table): seq<byte>
    requires Saveable(t)
  {
    MAGIC + U16Le(t.count) + U16Le(t.capacity) + EncodeEntries(Entries(t, t.count))
  }

  function Sealed(payload: seq<byte>): (s: seq<byte>)
    ensures |s| == |payload| + 4
  {
    payload + Crc32.WordLe(Crc32.Crc(payload))
  }

  function Save(t: Table): seq<byte>
    requires Saveable(t)
  {
    Sealed(Payload(t))
  }

  // ----- loading -----

  function Count(image: seq<byte>): int
    requires |image| >= HEADER
  {
    ReadU16Le(image[4..])
  }

  function Size(count: int): int {
    HEADER + 4 * count + 4
  }

  /** Everything that is checked before a single field of the table is touched. */
  predicate Accepted(image: seq<byte>) {
    |image| >= HEADER && image[..4] == MAGIC && Count(image) <= MAX_REFS && |image| >= Size(Count(image))
    && var n := HEADER + 4 * Count(image);
       ReadWord(image[n..n + 4]) == Crc32.Crc(image[..n])
  }

  /** The extension after loading: allocated if missing, but only for an image that reaches into it. */
  function LoadedExt(ext: Option<seq<bv32>>, es: seq<bv32>): (r: Option<seq<bv32>>)
    requires |es| <= MAX_REFS && (ext.Some? ==> |ext.value| == MAX_REFS - BASE_REFS)
    ensures r.Some? ==> |r.value| == MAX_REFS - BASE_REFS
  {
    if |es| <= BASE_REFS then ext
    else
      var filled := if ext.Some? then ext.value else Blank(MAX_REFS - BASE_REFS);
      Some(es[BASE_REFS..] + filled[|es| - BASE_REFS..])
  }

  /** The table with these entries put first. */
  function Restore(t: Table, es: seq<bv32>, capacity: nat): (r: Table)
    requires Sized(t) && |es| <= MAX_REFS
    ensures Sized(r) && r.count == |es| && r.capacity == capacity
  {
    var base := if |es| <= BASE_REFS then es + t.base[|es|..] else es[..BASE_REFS];
    Table(base, LoadedExt(t.ext, es), capacity, |es|)
  }

  /** The table after loading from flash that starts with these bytes, and whether it succeeded. */
  function Load(t: Table, image: seq<byte>): (r: (Table, bool))
    requires Sized(t)
    ensures Sized(r.0)
  {
    if !Accepted(image) then (t, false)
    else
      var n := Count(image);
      (Restore(t, DecodeEntries(image[HEADER..HEADER + 4 * n], n), ReadU16Le(image[6..])), true)
  }

  lemma RestoreEntries(t: Table, es: seq<bv32>, capacity: nat)
    requires Sized(t) && |es| <= MAX_REFS
    ensures var u := Restore(t, es, capacity);
            (forall i :: 0 <= i < |es| ==> Present(u, i) && Entry(u, i) == es[i])
            && (forall i :: |es| <= i && Present(t, i) ==> Present(u, i) && Entry(u, i) == Entry(t, i))
            && (u.ext.Some? <==> |es| > BASE_REFS || t.ext.Some?)
  {
  }

  /** The parts of five pieces in a row. */
  lemma Pieces(m: seq<byte>, a: seq<byte>, b: seq<byte>, es: seq<byte>, crc: seq<byte>, tail: seq<byte>)
    requires |m| == |crc| == 4 && |a| == |b| == 2
    ensures var image, n := m + a + b + es + crc + tail, 8 + |es|;
            |image| >= n + 4 && image[..4] == m && image[4..] == a + (b + es + crc + tail)
            && image[6..] == b + (es + crc + tail) && image[8..n] == es
            && image[..n] == m + a + b + es && image[n..n + 4] == crc
  {
    var image, n := m + a + b + es + crc + tail, 8 + |es|;
    assert image[4..] == a + (b + es + crc + tail);
    assert image[6..] == image[4..][2..];
    assert image[8..n] == es;
  }

  /** The parts of a saved image. */
  lemma SaveParts(t: Table, tail: seq<byte>)
    requires Saveable(t)
    ensures var image, n := Save(t) + tail, HEADER + 4 * t.count;
            |image| >= n + 4
            && image[..4] == MAGIC && Count(image) == t.count && ReadU16Le(image[6..]) == t.capacity
            && image[HEADER..n] == EncodeEntries(Entries(t, t.count))
            && image[..n] == Payload(t) && image[n..n + 4] == Crc32.WordLe(Crc32.Crc(Payload(t)))
  {
    hide U16Le;
    hide ReadU16Le;
    hide EncodeEntries;
    hide Crc32.WordLe;
    hide Crc32.Crc;
    hide Entries;
    var es, crc := EncodeEntries(Entries(t, t.count)), Crc32.WordLe(Crc32.Crc(Payload(t)));
    var a, b := U16Le(t.count), U16Le(t.capacity);
    assert Save(t) + tail == MAGIC + a + b + es + crc + tail;
    Pieces(MAGIC, a, b, es, crc, tail);
    U16RoundTrip(t.count, b + es + crc + tail);
    U16RoundTrip(t.capacity, es + crc + tail);
    hide Save;
    hide Payload;
  }

  lemma SavedAccepted(t: Table, tail: seq<byte>)
    requires Saveable(t)
    ensures Accepted(Save(t) + tail)
  {
    SaveParts(t, tail);
    WordRoundTrip(Crc32.Crc(Payload(t)));
    hide Save;
    hide Payload;
    hide EncodeEntries;
    hide ReadWord;
    hide Crc32.WordLe;
    hide Entries;
    hide ReadU16Le;
  }

  lemma LoadOfSave(t: Table, target: Table, tail: seq<byte>)
    requires Saveable(t) && Sized(target)
    ensures Load(target, Save(t) + tail) == (Restore(target, Entries(t, t.count), t.capacity), true)
  {
    hide Accepted;
    hide Save;
    hide Payload;
    hide EncodeEntries;
    hide DecodeEntries;
    hide Entries;
    hide Restore;
    hide ReadU16Le;
    SaveParts(t, tail);
    SavedAccepted(t, tail);
    EntriesRoundTrip(Entries(t, t.count));
  }

  /** Loading what was saved restores count, capacity and the first `count` entries, and nothing else. */
  lemma LoadInvertsSave(t: Table, target: Table, tail: seq<byte>)
    requires Saveable(t) && Sized(target)
    ensures var (u, ok) := Load(target, Save(t) + tail);
            ok && u.count == t.count && u.capacity == t.capacity
            && (forall i :: 0 <= i < t.count ==> Present(u, i) && Entry(u, i) == Entry(t, i))
            && (forall i :: t.count <= i && Present(target, i) ==> Present(u, i) && Entry(u, i) == Entry(target, i))
  {
    hide Load;
    hide Save;
    hide Restore;
    LoadOfSave(t, target, tail);
    RestoreEntries(target, Entries(t, t.count), t.capacity);
  }

  /** When the loaded table has its extension: if the image reaches into it, or there was one already. */
  lemma LoadedShapeIff(t: Table, target: Table, tail: seq<byte>)
    requires Shaped(t) && Saveable(t) && Shaped(target)
    ensures Shaped(Load(target, Save(t) + tail).0)
            <==> t.count > BASE_REFS || target.ext.Some? || t.capacity == BASE_REFS
  {
    hide Load;
    hide Save;
    hide Restore;
    LoadOfSave(t, target, tail);
    RestoreEntries(target, Entries(t, t.count), t.capacity);
  }

  /** The image of a new table: the magic number, low byte first, no entries, a capacity of 64, and the CRC. */
  lemma NewTableImage()
    ensures Save(Initial()) ==
            [0x46, 0x45, 0x52, 0x47, 0, 0, 64, 0] + Crc32.WordLe(Crc32.Crc([0x46, 0x45, 0x52, 0x47, 0, 0, 64, 0]))
  {
    hide Crc32.Crc;
    hide Crc32.WordLe;
    SmallWords();
    hide U16Le;
    assert Entries(Initial(), 0) == [];
    assert Payload(Initial()) == [0x46, 0x45, 0x52, 0x47, 0, 0, 64, 0];
  }

  lemma SmallWords()
    ensures U16Le(0) == [0, 0] && U16Le(64) == [64, 0]
  {
    ByteIs(0, 0);
    ByteIs(64, 64);
  }

  // ----- over a restart -----

  /** The table after a restart: what was saved last, loaded into a new table. */
  function Restarted(t: Table, tail: seq<byte>): (u: Table)
    requires Saveable(t)
    ensures Sized(u)
  {
    Load(Initial(), Save(t) + tail).0
  }

  /** Over a restart the entries below the count are kept, and all others are lost. */
  lemma RestartKeeps(t: Table, tail: seq<byte>)
    requires Operable(t)
    ensures var u := Restarted(t, tail);
            && Operable(u) && u.count == t.count && u.capacity == t.capacity
            && (u.ext.Some? <==> t.count > BASE_REFS)
            && (forall i :: 0 <= i < t.count ==> Present(t, i) && Present(u, i) && Entry(u, i) == Entry(t, i))
            && (forall i :: t.count <= i && Present(u, i) ==> !Live(Entry(u, i)))
  {
    hide Load;
    hide Save;
    hide Restore;
    hide Live;
    InvalidIsDead();
    LoadOfSave(t, Initial(), tail);
    var es := Entries(t, t.count);
    RestoreEntries(Initial(), es, t.capacity);
    RestoredRest(es, t.capacity);
  }

  lemma RestoredRest(es: seq<bv32>, capacity: nat)
    requires |es| <= MAX_REFS
    ensures var u := Restore(Initial(), es, capacity);
            forall i :: |es| <= i && Present(u, i) ==> Entry(u, i) == INVALID_ENTRY
  {
  }

  /** As coded, a live reference survives a restart exactly when its slot lies below the count. */
  lemma ReferenceSurvivesIff(t: Table, tail: seq<byte>, i: int)
    requires Operable(t) && Present(t, i) && Live(Entry(t, i))
    ensures var u := Restarted(t, tail);
            Present(u, i) && Entry(u, i) == Entry(t, i) <==> i < t.count
  {
    RestartKeeps(t, tail);
    hide Restarted;
    hide Live;
  }

  /** So on a new table the first reference does not. */
  lemma FirstReferenceIsLost(address: bv32, owner: byte, tail: seq<byte>)
    requires owner != NO_OWNER
    ensures var t := Create(Initial(), address, owner, true).0;
            Operable(t) && Live(Entry(t, 0)) && !Live(Entry(Restarted(t, tail), 0))
  {
    InvalidIsDead();
    CreateWrites(Initial(), address, owner, true);
    PackedLive(address, owner);
    FirstReferenceDoesNotResolve(address, owner);
    var t := Create(Initial(), address, owner, true).0;
    hide Create;
    hide Live;
    hide Pack;
    hide Restarted;
    RestartKeeps(t, tail);
  }

  /** With the count raised past each slot handed out, all references issued and not recycled survive. */
  lemma TrackedSurvive(t: Table, live: map<int, Issue>, tail: seq<byte>)
    requires Shaped(t) && FreshBeyond(t) && Tracks(t, live)
    ensures Tracks(Restarted(t, tail), live)
  {
    RestartKeeps(t, tail);
    hide Restarted;
    hide Live;
    hide Owner;
    hide Address;
    var u := Restarted(t, tail);
    forall i | i in live
      ensures Good(u, i, live[i].address, live[i].owner)
    {
      assert Good(t, i, live[i].address, live[i].owner);
    }
    forall i | Present(u, i) && Live(Entry(u, i))
      ensures i in live
    {
      assert i < t.count && Present(t, i) && Live(Entry(t, i));
    }
  }

  /** A new table that has grown once comes back from a restart without its extension. */
  lemma MissingExtensionReached(tail: seq<byte>)
    ensures var t := Expand(Initial(), true).0;
            Shaped(t) && !Shaped(Restarted(t, tail))
  {
    RestartKeeps(Expand(Initial(), true).0, tail);
    hide Restarted;
  }

  /**
   * 128 creations on a new table, the growth with which the next one begins and which saves the table, and a restart:
   * then the next creation follows a null pointer.
   */
  lemma NullFollowed(ops: seq<Op>, tail: seq<byte>)
    requires Creations(ops) && |ops| == 2 * BASE_REFS
    ensures FreshBeyond(Initial())
    ensures var t := Expand(Run(Initial(), ops), true).0;
            Operable(t) && FollowsNull(Restarted(t, tail))
  {
    FullReached(ops);
    var f := Run(Initial(), ops);
    var t := Expand(f, true).0;
    ExpandKeeps(f, true);
    RestartKeeps(t, tail);
    hide Restarted;
    hide Run;
    hide Live;
    var u := Restarted(t, tail);
    assert forall i :: 0 <= i < BASE_REFS ==> Entry(u, i) == Entry(t, i) == Entry(f, i);
    FollowsNullIff(u);
  }

  // ----- damage -----

  /** An image of the same length that differs, and differs only in a burst of at most 32 bits. */
  ghost predicate Damaged(image: seq<byte>, other: seq<byte>, at: nat, width: nat) {
    |other| == |image| && other != image && width <= 32 && at + width <= 8 * |image|
    && Crc32.Bits(other)[..at] == Crc32.Bits(image)[..at]
    && Crc32.Bits(other)[at + width..] == Crc32.Bits(image)[at + width..]
  }

  /**
   * A saved image so damaged, in its entries, its capacity, its magic number or its checksum, or across two of them, is
   * refused and leaves the table alone, provided the count field reads as before.
   */
  lemma DamagedImageRefused(t: Table, target: Table, other: seq<byte>, tail: seq<byte>, at: nat, width: nat)
    requires Saveable(t) && Sized(target) && Damaged(Save(t), other, at, width)
    requires |other| >= HEADER && Count(other + tail) == t.count
    ensures Load(target, other + tail) == (target, false)
  {
    hide Crc32.Crc;
    hide Crc32.Bits;
    hide Crc32.WordLe;
    hide ReadWord;
    hide Entries;
    hide EncodeEntries;
    hide Restore;
    hide Count;
    var n, image := HEADER + 4 * t.count, Save(t);
    var s, w := Payload(t), Crc32.WordLe(Crc32.Crc(Payload(t)));
    var u, v := other[..n], other[n..];
    assert |s| == n && image == s + w && other == u + v;
    hide Save;
    hide Payload;
    Crc32.SealedBurstDetected(s, w, u, v, at, width);
    WordUnread(v);
    assert (other + tail)[..n] == u && (other + tail)[n..n + 4] == v;
  }
}
