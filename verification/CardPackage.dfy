/** What FINALIZE reads in a package: its big-endian header, its section headers and its imports. */
module CardPackage {
  import opened Bytes
  import opened Tlv
  import opened CardModel
  import opened CardInvariant
  import SefLoader

  // ----- big-endian words -----

  function U32Be(x: u32): (s: seq<byte>)
    ensures |s| == 4
  {
    var le := U32Le(x);
    [le[3], le[2], le[1], le[0]]
  }

  lemma BeRoundTrip(x: u32, data: seq<byte>, at: nat)
    requires at + 4 <= |data| && data[at..at + 4] == U32Be(x)
    ensures ReadU32Be(data, at) == x
  {
    U32Digits(x);
    var s := data[at..at + 4];
    assert data[at] == s[0] && data[at + 1] == s[1] && data[at + 2] == s[2] && data[at + 3] == s[3];
    hide U32Le;
  }

  // ----- sections -----

  type Section = SefLoader.Section

  predicate Sized(sections: seq<Section>) {
    SefLoader.Sized(sections)
  }

  function EncodeSection(s: Section): (r: seq<byte>)
    requires |s.content| < WORD_LIMIT
    ensures |r| == 5 + |s.content|
  {
    [s.id] + U32Be(|s.content|) + s.content
  }

  function EncodeSections(sections: seq<Section>): seq<byte>
    requires Sized(sections)
  {
    if sections == [] then [] else EncodeSection(sections[0]) + EncodeSections(sections[1..])
  }

  lemma SectionAt(data: seq<byte>, offset: nat, s: Section, rest: seq<byte>)
    requires |s.content| < WORD_LIMIT && offset <= |data| && data[offset..] == EncodeSection(s) + rest
    ensures var next := offset + 5 + |s.content|;
            next <= |data| && ReadU32Be(data, offset + 1) == |s.content| && data[next..] == rest
  {
    var n, from := U32Be(|s.content|), data[offset..];
    assert from == [s.id] + n + s.content + rest;
    hide EncodeSection;
    hide U32Be;
    hide ReadU32Be;
    assert data[offset + 1..offset + 5] == from[1..5] == n;
    assert data[offset + 5 + |s.content|..] == from[5 + |s.content|..] == rest;
    BeRoundTrip(|s.content|, data, offset + 1);
  }

  lemma MoreSections(sections: seq<Section>)
    requires Sized(sections) && sections != []
    ensures Sized(sections[1..]) && |sections[0].content| < WORD_LIMIT
    ensures EncodeSections(sections) == EncodeSection(sections[0]) + EncodeSections(sections[1..])
  {
    hide EncodeSection;
  }

  /** The headers of written sections, as many as were written, always fit their data. */
  lemma {:induction false} WrittenSectionsFit(data: seq<byte>, offset: nat, sections: seq<Section>, tail: seq<byte>)
    requires Sized(sections) && offset <= |data| < WORD_LIMIT && data[offset..] == EncodeSections(sections) + tail
    ensures SectionsFit(data, offset, |sections|)
    decreases |sections|
  {
    hide *;
    if sections == [] || offset + 8 > |data| {
      SectionsDone(data, offset, |sections|);
    } else {
      MoreSections(sections);
      var s, rest := sections[0], EncodeSections(sections[1..]) + tail;
      assert data[offset..] == EncodeSection(s) + rest;
      SectionAt(data, offset, s, rest);
      WrittenSectionsFit(data, offset + 5 + |s.content|, sections[1..], tail);
      SectionsTurn(data, offset, |sections|, |s.content|);
    }
  }

  lemma SectionsDone(data: seq<byte>, offset: nat, left: nat)
    requires left == 0 || offset + 8 > |data|
    ensures SectionsFit(data, offset, left)
  {
    hide ReadU32Be;
  }

  /** One turn of the walk over section headers. */
  lemma SectionsTurn(data: seq<byte>, offset: nat, left: nat, size: u32)
    requires left > 0 && offset + 8 <= |data| && ReadU32Be(data, offset + 1) == size
    requires offset + 5 + size <= |data| < WORD_LIMIT && SectionsFit(data, offset + 5 + size, left - 1)
    ensures SectionsFit(data, offset, left)
  {
    hide ReadU32Be;
  }

  /** A package: magic number, version, number of sections, sections. */
  function Package(version: u32, sections: seq<Section>): seq<byte>
    requires Sized(sections) && |sections| < WORD_LIMIT
  {
    U32Be(0x0073_6566) + (U32Be(version) + (U32Be(|sections|) + EncodeSections(sections)))
  }

  /** The header of a written package is in order, and its version read, iff it has 1 to 16 sections and 20 bytes. */
  lemma HeaderOfWritten(version: u32, sections: seq<Section>, tail: seq<byte>)
    requires Sized(sections) && |sections| < WORD_LIMIT && |Package(version, sections) + tail| < WORD_LIMIT
    ensures var data := Package(version, sections) + tail;
            ParseHeader(data) == if |data| >= 20 && 1 <= |sections| <= 16 then Some(version) else None
  {
    hide Package;
    hide EncodeSections;
    hide SectionsFit;
    hide ReadU32Be;
    hide U32Be;
    hide ParseHeader;
    hide Sized;
    var data := Package(version, sections) + tail;
    PackageParts(version, sections, tail);
    ParseHeaderIs(data);
    if |data| >= 20 {
      BeRoundTrip(0x0073_6566, data, 0);
      BeRoundTrip(version, data, 4);
      BeRoundTrip(|sections|, data, 8);
      WrittenSectionsFit(data, 12, sections, tail);
    }
  }

  lemma PackageParts(version: u32, sections: seq<Section>, tail: seq<byte>)
    requires Sized(sections) && |sections| < WORD_LIMIT
    ensures var data := Package(version, sections) + tail;
            |data| >= 12 && data[0..4] == U32Be(0x0073_6566) && data[4..8] == U32Be(version)
            && data[8..12] == U32Be(|sections|) && data[12..] == EncodeSections(sections) + tail
  {
    hide U32Be;
    hide EncodeSections;
    ThreeWords(U32Be(0x0073_6566), U32Be(version), U32Be(|sections|), EncodeSections(sections), tail);
  }

  lemma ThreeWords(a: seq<byte>, b: seq<byte>, c: seq<byte>, body: seq<byte>, tail: seq<byte>)
    requires |a| == |b| == |c| == 4
    ensures var data := a + (b + (c + body)) + tail;
            data[0..4] == a && data[4..8] == b && data[8..12] == c && data[12..] == body + tail
  {
    var data := a + (b + (c + body)) + tail;
    assert data[4..] == b + (c + body) + tail && data[8..] == c + body + tail;
    assert data[4..8] == data[4..][..4] && data[8..12] == data[8..][..4];
    assert data[12..] == data[8..][4..];
  }

  lemma ParseHeaderIs(data: seq<byte>)
    ensures ParseHeader(data) ==
            if |data| < 20 || ReadU32Be(data, 0) != 0x0073_6566 then None
            else if 1 <= ReadU32Be(data, 8) <= 16 && SectionsFit(data, 12, ReadU32Be(data, 8)) then
              Some(ReadU32Be(data, 4))
            else None
  {
    hide ReadU32Be;
    hide SectionsFit;
  }

  /** Conversely a header in order is magic number, version and a number of 1 to 16 sections, as written. */
  lemma HeaderThere(data: seq<byte>)
    requires ParseHeader(data).Some?
    ensures |data| >= 20 && 1 <= ReadU32Be(data, 8) <= 16 && SectionsFit(data, 12, ReadU32Be(data, 8))
    ensures data[..12] == U32Be(0x0073_6566) + U32Be(ParseHeader(data).value) + U32Be(ReadU32Be(data, 8))
  {
    hide U32Be;
    hide ReadU32Be;
    hide SectionsFit;
    BeUnread(data, 0);
    BeUnread(data, 4);
    BeUnread(data, 8);
    assert data[..12] == data[0..4] + data[4..8] + data[8..12];
  }

  /** A section header whose 32-bit sum wraps. */
  predicate WrapsAt(data: seq<byte>, at: nat) {
    at + 8 <= |data| && at + 5 + ReadU32Be(data, at + 1) >= WORD_LIMIT
  }

  /**
   * What the walk over section headers accepts is written sections: all that are announced, or as many as end within
   * eight bytes of the end, or those before a header whose sum wraps.
   */
  lemma {:induction false} FittingIsWritten(data: seq<byte>, offset: nat, left: nat)
    returns (sections: seq<Section>, tail: seq<byte>)
    requires offset <= |data| && SectionsFit(data, offset, left)
    ensures Sized(sections) && |sections| <= left && data[offset..] == EncodeSections(sections) + tail
    ensures |sections| == left || |tail| < 8 || WrapsAt(data, |data| - |tail|)
    decreases left
  {
    hide *;
    if left == 0 || offset + 8 > |data| {
      sections, tail := [], data[offset..];
      NoSections(tail);
    } else if WrapsAt(data, offset) {
      sections, tail := [], data[offset..];
      NoSections(tail);
    } else {
      var s, next := SectionThere(data, offset, left);
      var more;
      more, tail := FittingIsWritten(data, next, left - 1);
      sections := [s] + more;
      assert sections[0] == s && sections[1..] == more;
      OneMoreSection(sections);
      assert EncodeSection(s) + (EncodeSections(more) + tail) == EncodeSection(s) + EncodeSections(more) + tail;
    }
  }

  lemma NoSections(tail: seq<byte>)
    ensures Sized([]) && EncodeSections([]) + tail == tail
  {
  }

  lemma OneMoreSection(sections: seq<Section>)
    requires sections != [] && |sections[0].content| < WORD_LIMIT && Sized(sections[1..])
    ensures Sized(sections) && EncodeSections(sections) == EncodeSection(sections[0]) + EncodeSections(sections[1..])
  {
    assert sections == [sections[0]] + sections[1..];
    hide EncodeSection;
  }

  lemma SectionThere(data: seq<byte>, offset: nat, left: nat) returns (s: Section, next: nat)
    requires left > 0 && offset + 8 <= |data| && SectionsFit(data, offset, left) && !WrapsAt(data, offset)
    ensures |s.content| < WORD_LIMIT && next <= |data| && SectionsFit(data, next, left - 1)
    ensures data[offset..] == EncodeSection(s) + data[next..]
  {
    next := SectionGoesOn(data, offset, left);
    hide *;
    s := SefLoader.Section(data[offset], data[offset + 5..next]);
    BeUnread(data, offset + 1);
    EncodedSection(s);
    FourPieces(data, offset, next);
  }

  lemma EncodedSection(s: Section)
    requires |s.content| < WORD_LIMIT
    ensures EncodeSection(s) == [s.id] + U32Be(|s.content|) + s.content
  {
    hide U32Be;
  }

  lemma SectionGoesOn(data: seq<byte>, offset: nat, left: nat) returns (next: nat)
    requires left > 0 && offset + 8 <= |data| && SectionsFit(data, offset, left) && !WrapsAt(data, offset)
    ensures next == offset + 5 + ReadU32Be(data, offset + 1) <= |data| && next < offset + 5 + WORD_LIMIT
    ensures SectionsFit(data, next, left - 1)
  {
    hide ReadU32Be;
    next := offset + 5 + ReadU32Be(data, offset + 1);
  }

  lemma FourPieces(s: seq<byte>, from: nat, next: nat)
    requires from + 5 <= next <= |s|
    ensures s[from + 1..from + 1 + 4] == s[from + 1..from + 5]
    ensures s[from..] == [s[from]] + s[from + 1..from + 5] + s[from + 5..next] + s[next..]
  {
  }

  // ----- imports -----

  datatype Need = Need(aid: Aid, version: u32)

  predicate Readable(needs: seq<Need>) {
    forall n :: n in needs ==> AidLength(|n.aid|)
  }

  function EncodeNeed(n: Need): (r: seq<byte>)
    requires AidLength(|n.aid|)
    ensures |r| == 5 + |n.aid|
  {
    U32Be(n.version) + [|n.aid| as byte] + n.aid
  }

  function EncodeNeeds(needs: seq<Need>): seq<byte>
    requires Readable(needs)
  {
    if needs == [] then [] else EncodeNeed(needs[0]) + EncodeNeeds(needs[1..])
  }

  /** The first loaded module of that AID is there and new enough. */
  predicate Met(ms: Registry, n: Need) {
    FindModule(ms, n.aid, 0).Some? && ms[FindModule(ms, n.aid, 0).value].version >= n.version
  }

  predicate AllMet(ms: Registry, needs: seq<Need>) {
    forall n :: n in needs ==> Met(ms, n)
  }

  function Resolved(ms: Registry, needs: seq<Need>): seq<Import>
    requires AllMet(ms, needs)
  {
    if needs == [] then []
    else
      assert needs[0] in needs;
      [Import(needs[0].aid, needs[0].version, FindModule(ms, needs[0].aid, 0).value)] + Resolved(ms, needs[1..])
  }

  lemma NeedAt(data: seq<byte>, offset: nat, n: Need, rest: seq<byte>)
    requires AidLength(|n.aid|) && offset <= |data| && data[offset..] == EncodeNeed(n) + rest
    ensures var next := offset + 5 + |n.aid|;
            next <= |data| && ReadU32Be(data, offset) == n.version && data[offset + 4] as int == |n.aid|
            && data[offset + 5..next] == n.aid && data[next..] == rest
  {
    ByteRoundTrip(|n.aid|);
    var v, l := U32Be(n.version), |n.aid| as byte;
    assert data[offset..] == v + [l] + n.aid + rest;
    hide *;
    NeedPieces(data, offset, v, l, n.aid, rest);
    BeRoundTrip(n.version, data, offset);
  }

  lemma NeedPieces(data: seq<byte>, offset: nat, v: seq<byte>, l: byte, aid: seq<byte>, rest: seq<byte>)
    requires offset <= |data| && |v| == 4 && data[offset..] == v + [l] + aid + rest
    ensures var next := offset + 5 + |aid|;
            next <= |data| && data[offset..offset + 4] == v && data[offset + 4] == l
            && data[offset + 5..next] == aid && data[next..] == rest
  {
    var from, n := data[offset..], 5 + |aid|;
    assert from[..4] == v && from[4] == l && from[5..n] == aid && from[n..] == rest;
    assert data[offset..offset + 4] == from[..4] && data[offset + 4] == from[4];
    assert data[offset + 5..offset + n] == from[5..n] && data[offset + n..] == from[n..];
  }

  lemma MoreNeeds(needs: seq<Need>)
    requires Readable(needs) && needs != []
    ensures Readable(needs[1..]) && AidLength(|needs[0].aid|)
    ensures EncodeNeeds(needs) == EncodeNeed(needs[0]) + EncodeNeeds(needs[1..])
  {
    hide EncodeNeed;
  }

  lemma MetSplits(ms: Registry, needs: seq<Need>)
    requires needs != []
    ensures AllMet(ms, needs) <==> Met(ms, needs[0]) && AllMet(ms, needs[1..])
  {
    hide Met;
    assert needs == [needs[0]] + needs[1..];
  }

  lemma ImportTurn(ms: Registry, data: seq<byte>, offset: nat, left: nat, n: Need, rest: seq<byte>)
    requires AidLength(|n.aid|) && offset <= |data| && data[offset..] == EncodeNeed(n) + rest && left > 0
    ensures var next := offset + 5 + |n.aid|;
            next <= |data| && data[next..] == rest
            && ParseImports(ms, data, offset, left) ==
               if !Met(ms, n) || ParseImports(ms, data, next, left - 1).None? then None
               else Some([Import(n.aid, n.version, FindModule(ms, n.aid, 0).value)]
                         + ParseImports(ms, data, next, left - 1).value)
  {
    NeedAt(data, offset, n, rest);
    hide EncodeNeed;
    hide ReadU32Be;
    hide FindModule;
  }

  /** Imports are read as written, each bound to the first loaded module of its AID, iff all of those are new enough. */
  lemma {:induction false} ImportsOfWritten(ms: Registry, data: seq<byte>, offset: nat, needs: seq<Need>,
                                            tail: seq<byte>)
    requires Readable(needs) && offset <= |data| && data[offset..] == EncodeNeeds(needs) + tail
    ensures ParseImports(ms, data, offset, |needs|) ==
            if AllMet(ms, needs) then Some(Resolved(ms, needs)) else None
    decreases |needs|
  {
    hide *;
    if needs == [] {
      NoNeeds(ms, data, offset);
    } else {
      MoreNeeds(needs);
      MetSplits(ms, needs);
      var n, rest := needs[0], EncodeNeeds(needs[1..]) + tail;
      assert data[offset..] == EncodeNeed(n) + rest;
      ImportTurn(ms, data, offset, |needs|, n, rest);
      ImportsOfWritten(ms, data, offset + 5 + |n.aid|, needs[1..], tail);
      if AllMet(ms, needs) {
        ResolvedFirst(ms, needs);
      }
    }
  }

  lemma NoNeeds(ms: Registry, data: seq<byte>, offset: nat)
    ensures AllMet(ms, []) && ParseImports(ms, data, offset, 0) == Some(Resolved(ms, []))
  {
  }

  lemma ResolvedFirst(ms: Registry, needs: seq<Need>)
    requires needs != [] && AllMet(ms, needs)
    ensures Met(ms, needs[0]) && AllMet(ms, needs[1..]) && FindModule(ms, needs[0].aid, 0).Some?
    ensures Resolved(ms, needs) ==
            [Import(needs[0].aid, needs[0].version, FindModule(ms, needs[0].aid, 0).value)] + Resolved(ms, needs[1..])
  {
    assert needs[0] in needs;
    hide FindModule;
  }

  /** An import bound to a loaded module of its AID that is new enough. */
  predicate Bound(ms: Registry, i: Import) {
    ms[i.id].loaded && ms[i.id].aid == i.aid && ms[i.id].version >= i.version && AidLength(|i.aid|)
  }

  predicate AllBound(ms: Registry, imports: seq<Import>) {
    forall i :: i in imports ==> Bound(ms, i)
  }

  lemma BoundTurn(ms: Registry, data: seq<byte>, offset: nat, left: nat) returns (i: Import, next: nat)
    requires left > 0 && ParseImports(ms, data, offset, left).Some?
    ensures Bound(ms, i) && ParseImports(ms, data, next, left - 1).Some?
    ensures ParseImports(ms, data, offset, left) == Some([i] + ParseImports(ms, data, next, left - 1).value)
  {
    hide ReadU32Be;
    hide FindModule;
    next := offset + 5 + data[offset + 4] as int;
    i := ParseImports(ms, data, offset, left).value[0];
    FindModuleFirst(ms, data[offset + 5..next], 0);
  }

  /** On any bytes, each import recorded is bound to a loaded module of its AID that is new enough. */
  lemma {:induction false} ImportsBound(ms: Registry, data: seq<byte>, offset: nat, left: nat)
    requires ParseImports(ms, data, offset, left).Some?
    ensures var r := ParseImports(ms, data, offset, left).value; |r| == left && AllBound(ms, r)
    decreases left
  {
    hide Bound;
    if left > 0 {
      var i, next := BoundTurn(ms, data, offset, left);
      hide ParseImports;
      ImportsBound(ms, data, next, left - 1);
    }
  }

  /**
   * A module that FINALIZE registers has as many imports as its package says, at most eight, each bound to a loaded
   * module that is new enough.
   */
  lemma FinalizedImportsBound(c: Card)
    requires FinishLoad(c).1 == OK
    ensures var imports, data := FinishLoad(c).0.modules[c.session.target].imports, c.session.buffer;
            && |imports| == (if |data| < IMPORT_OFFSET + 3 then 0 else data[IMPORT_OFFSET] as int) <= MAX_IMPORTS
            && AllBound(c.modules, imports)
  {
    hide ParseHeader;
    hide Bound;
    hide ParseImports;
    var data := c.session.buffer;
    if |data| >= IMPORT_OFFSET + 3 {
      ImportsBound(c.modules, data[IMPORT_OFFSET..], 3, data[IMPORT_OFFSET] as int);
    }
  }

  // ----- the import check of FINALIZE -----

  /** The import section: the number of modules, two bytes that are not read, and the needs. */
  function ImportSection(needs: seq<Need>, x: byte, y: byte): seq<byte>
    requires Readable(needs) && |needs| <= MAX_IMPORTS
  {
    [|needs| as byte, x, y] + EncodeNeeds(needs)
  }

  /** What is recorded of needs that are met: name and version as written, and the first loaded module of the name. */
  ghost predicate Recorded(ms: Registry, needs: seq<Need>, imports: seq<Import>) {
    |imports| == |needs| &&
    forall i :: 0 <= i < |needs| ==>
      && imports[i].aid == needs[i].aid && imports[i].version == needs[i].version
      && ms[imports[i].id].loaded && ms[imports[i].id].aid == needs[i].aid
      && (forall j :: 0 <= j < imports[i].id ==> !(ms[j].loaded && ms[j].aid == needs[i].aid))
  }

  lemma {:induction false} ResolvedIsRecorded(ms: Registry, needs: seq<Need>)
    requires AllMet(ms, needs)
    ensures Recorded(ms, needs, Resolved(ms, needs))
    decreases |needs|
  {
    if needs != [] {
      ResolvedFirst(ms, needs);
      FindModuleFirst(ms, needs[0].aid, 0);
      ResolvedIsRecorded(ms, needs[1..]);
      hide Met;
      hide FindModule;
    }
  }

  /** The first loaded module of the name is there and new enough, for every need. */
  ghost predicate Available(ms: Registry, n: Need) {
    exists k :: 0 <= k < 32 && ms[k].loaded && ms[k].aid == n.aid && ms[k].version >= n.version
                && forall j :: 0 <= j < k ==> !(ms[j].loaded && ms[j].aid == n.aid)
  }

  lemma MetIffAvailable(ms: Registry, n: Need)
    ensures Met(ms, n) <==> Available(ms, n)
  {
    FindModuleFirst(ms, n.aid, 0);
    hide FindModule;
    if Available(ms, n) {
      var k :| 0 <= k < 32 && ms[k].loaded && ms[k].aid == n.aid && ms[k].version >= n.version
               && forall j :: 0 <= j < k ==> !(ms[j].loaded && ms[j].aid == n.aid);
      assert FindModule(ms, n.aid, 0) == Some(k);
    }
  }

  lemma ImportsOfSection(ms: Registry, data: seq<byte>, needs: seq<Need>, x: byte, y: byte, tail: seq<byte>)
    requires Readable(needs) && |needs| <= MAX_IMPORTS && |data| >= IMPORT_OFFSET
    requires data[IMPORT_OFFSET..] == ImportSection(needs, x, y) + tail
    ensures ImportsOf(ms, data) == if AllMet(ms, needs) then Some(Resolved(ms, needs)) else None
  {
    var from, n := data[IMPORT_OFFSET..], |needs| as byte;
    ByteRoundTrip(|needs|);
    assert from == [n, x, y] + (EncodeNeeds(needs) + tail);
    hide EncodeNeeds;
    hide ParseImports;
    assert data[IMPORT_OFFSET] == from[0] == n;
    assert from[3..] == EncodeNeeds(needs) + tail;
    ImportsOfWritten(ms, from, 3, needs, tail);
    hide AllMet;
    hide Resolved;
  }

  /** The module of a session, with imports. */
  function NewModule(s: Session, version: u32, imports: seq<Import>): Module {
    Module(s.target, true, s.aid, version, imports, NO_IDS, 0)
  }

  function Registered(c: Card, m: Module): Card {
    c.(modules := c.modules[c.session.target := m], moduleCount := c.moduleCount + 1, session := NO_SESSION)
  }

  /** What FINALIZE makes of needs: all available and recorded in a new module, or a refusal that changes no table. */
  ghost predicate Finalized(c: Card, version: u32, needs: seq<Need>, r: Card, sw: int) {
    if forall n :: n in needs ==> Available(c.modules, n) then
      sw == 0x9000 && exists imports ::
        Recorded(c.modules, needs, imports) && r == Registered(c, NewModule(c.session, version, imports))
    else sw == 0x6A88 && r == c.(session := NO_SESSION)
  }

  /**
   * FINALIZE of a package whose header is in order and whose bytes from 20 on are the written form of at most eight
   * needs: it answers 9000 exactly if each need is available, and registers a module with exactly those imports;
   * otherwise it answers 6A88 and leaves the tables alone.
   */
  lemma FinalizeChecksImports(c: Card, version: u32, needs: seq<Need>, x: byte, y: byte, tail: seq<byte>)
    requires c.session.state == LoadingBlocks && c.moduleCount < 255 && ParseHeader(c.session.buffer) == Some(version)
    requires |c.session.buffer| >= IMPORT_OFFSET && Readable(needs) && |needs| <= MAX_IMPORTS
    requires c.session.buffer[IMPORT_OFFSET..] == ImportSection(needs, x, y) + tail
    ensures Finalized(c, version, needs, FinishLoad(c).0, FinishLoad(c).1)
  {
    ImportsOfSection(c.modules, c.session.buffer, needs, x, y, tail);
    var imports := ImportsOf(c.modules, c.session.buffer);
    FinishIsImports(c, version, imports);
    AllMetIff(c.modules, needs);
    if AllMet(c.modules, needs) {
      ResolvedIsRecorded(c.modules, needs);
    }
    hide FinishLoad;
    hide ImportsOf;
    hide ParseHeader;
    hide AllMet;
    hide Available;
    hide Recorded;
    hide Resolved;
    hide Registered;
    hide NewModule;
    hide ImportSection;
  }

  lemma AllMetIff(ms: Registry, needs: seq<Need>)
    ensures AllMet(ms, needs) <==> forall n :: n in needs ==> Available(ms, n)
  {
    hide Met;
    hide Available;
    forall n | n in needs
      ensures Met(ms, n) <==> Available(ms, n)
    {
      MetIffAvailable(ms, n);
    }
  }

  lemma FinishIsImports(c: Card, version: u32, imports: Option<seq<Import>>)
    requires c.session.state == LoadingBlocks && c.moduleCount < 255
    requires ParseHeader(c.session.buffer) == Some(version) && |c.session.buffer| >= IMPORT_OFFSET
    requires imports == ImportsOf(c.modules, c.session.buffer)
    ensures FinishLoad(c) ==
            if imports.None? then (c.(session := NO_SESSION), 0x6A88)
            else (Registered(c, NewModule(c.session, version, imports.value)), 0x9000)
  {
    hide ParseHeader;
    hide ImportsOf;
  }

  /** The LOAD command with P1 = 2 is FINALIZE. */
  lemma FinalizeDispatches(c: Card, cmd: Command)
    requires Ins(cmd) == 0xE4 && P1(cmd) == 2
    ensures Process(c, cmd) == FinishLoad(c)
  {
    hide FinishLoad;
    hide OpenLoad;
    hide LoadBlock;
    hide Ins;
    hide P1;
  }

  lemma BeUnread(data: seq<byte>, at: nat)
    requires at + 4 <= |data|
    ensures U32Be(ReadU32Be(data, at)) == data[at..at + 4]
  {
    var s := data[at..at + 4];
    var le := [s[3], s[2], s[1], s[0]];
    U32Unread(le);
    hide U32Le;
    assert ReadU32Be(data, at) == ReadU32Le(le);
  }

  lemma NeedThere(ms: Registry, data: seq<byte>, offset: nat, left: nat) returns (n: Need, next: nat)
    requires left > 0 && offset <= |data| && ParseImports(ms, data, offset, left).Some?
    ensures AidLength(|n.aid|) && Met(ms, n) && offset < next <= |data|
    ensures data[offset..] == EncodeNeed(n) + data[next..] && ParseImports(ms, data, next, left - 1).Some?
  {
    hide ReadU32Be;
    hide FindModule;
    hide U32Be;
    var len, at := data[offset + 4], offset + 5;
    next := at + len as int;
    n := Need(data[at..next], ReadU32Be(data, offset));
    BeUnread(data, offset);
    ByteThere(len);
    assert EncodeNeed(n) == data[offset..offset + 4] + [len] + data[at..next];
    assert data[offset..] == data[offset..offset + 4] + [len] + data[at..next] + data[next..];
  }

  /** Conversely, imports that can be read are the written form of as many needs, all available. */
  lemma {:induction false} ImportsWereWritten(ms: Registry, data: seq<byte>, offset: nat, left: nat)
    returns (needs: seq<Need>, tail: seq<byte>)
    requires offset <= |data| && ParseImports(ms, data, offset, left).Some?
    ensures Readable(needs) && |needs| == left && AllMet(ms, needs) && data[offset..] == EncodeNeeds(needs) + tail
    decreases left
  {
    hide *;
    if left == 0 {
      needs, tail := [], data[offset..];
      NothingNeeded(ms, tail);
    } else {
      var n, next := NeedThere(ms, data, offset, left);
      var more;
      more, tail := ImportsWereWritten(ms, data, next, left - 1);
      needs := [n] + more;
      assert needs[0] == n && needs[1..] == more;
      MoreMet(ms, needs);
      MoreNeeds(needs);
      assert EncodeNeed(n) + (EncodeNeeds(more) + tail) == EncodeNeed(n) + EncodeNeeds(more) + tail;
    }
  }

  lemma NothingNeeded(ms: Registry, tail: seq<byte>)
    ensures Readable([]) && AllMet(ms, []) && EncodeNeeds([]) + tail == tail
  {
  }

  lemma MoreMet(ms: Registry, needs: seq<Need>)
    requires needs != [] && Readable(needs[1..]) && AidLength(|needs[0].aid|) && Met(ms, needs[0])
    requires AllMet(ms, needs[1..])
    ensures Readable(needs) && AllMet(ms, needs)
  {
    hide Met;
    assert needs == [needs[0]] + needs[1..];
  }

  /** FINALIZE of a package of 23 bytes or more succeeds only if those from 20 on are the written form of such needs. */
  lemma FinalizedWasWritten(c: Card) returns (needs: seq<Need>, x: byte, y: byte, tail: seq<byte>)
    requires FinishLoad(c).1 == OK && |c.session.buffer| >= IMPORT_OFFSET + 3
    ensures Readable(needs) && |needs| <= MAX_IMPORTS && forall n :: n in needs ==> Available(c.modules, n)
    ensures c.session.buffer[IMPORT_OFFSET..] == ImportSection(needs, x, y) + tail
  {
    hide ParseHeader;
    hide ParseImports;
    var from := c.session.buffer[IMPORT_OFFSET..];
    x, y := from[1], from[2];
    needs, tail := ImportsWereWritten(c.modules, from, 3, from[0] as int);
    ByteThere(from[0]);
    forall n | n in needs
      ensures Available(c.modules, n)
    {
      MetIffAvailable(c.modules, n);
    }
    hide EncodeNeeds;
    assert from == [from[0], x, y] + from[3..];
    assert from == [from[0], x, y] + EncodeNeeds(needs) + tail;
  }
}
