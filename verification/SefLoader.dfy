/**
 * Loading a SEF file: the header, the walk over its sections and the checks each section passes.
 * The walk is the inverse of writing sections one after the other.
 */
module SefLoader {
  import opened Bytes

  const MAGIC: u32 := 0x0073_6566
  const MAJOR := 1
  const HEADER_SIZE := 8
  const SECTION_HEADER := 5
  const MAX_AID := 16

  const FIRST: byte := 1
  const IMPORT: byte := 2
  const FUNCTION: byte := 3
  const APP: byte := 4
  const GLOBAL: byte := 5
  const CODE: byte := 9

  datatype Section = Section(id: byte, content: seq<byte>)

  /** Wraps: the 32-bit sum behind a bounds check overflows at this section header. */
  datatype Outcome = Loaded(sections: seq<Section>) | Refused | Wraps(at: nat)

  /** The major version, in the most significant byte. */
  function MajorOf(version: u32): int {
    version / 0x100_0000
  }

  predicate Supported(magic: u32, version: u32) {
    magic == MAGIC && MajorOf(version) <= MAJOR
  }

  predicate HeaderOk(file: seq<byte>) {
    |file| >= HEADER_SIZE && Supported(ReadU32Le(file), ReadU32Le(file[4..]))
  }

  /** The descriptors of an application section: a length, an AID and a two-byte installer index each. */
  predicate AppsOk(content: seq<byte>, offset: nat, count: nat)
    decreases count
  {
    count == 0 ||
    (offset < |content| &&
     var len := content[offset] as int;
     offset + 1 + len + 2 <= |content| && len <= MAX_AID && AppsOk(content, offset + 1 + len + 2, count - 1))
  }

  /** Whether the loader of a section takes its content; unknown sections are skipped. */
  predicate Accepts(s: Section) {
    var c := s.content;
    if s.id == FIRST then |c| >= 10 && |c| >= 5 + c[4] as int
    else if s.id == APP then |c| >= 1 && AppsOk(c, 1, c[0] as int)
    else if s.id == GLOBAL then |c| >= 12
    else if s.id == IMPORT || s.id == FUNCTION || s.id == CODE then |c| > 0
    else true
  }

  predicate Has(sections: seq<Section>, id: byte) {
    exists i :: 0 <= i < |sections| && sections[i].id == id
  }

  /** The first, function and code sections must be there; a missing global section only draws a warning. */
  predicate Complete(sections: seq<Section>) {
    Has(sections, FIRST) && Has(sections, FUNCTION) && Has(sections, CODE)
  }

  function Finish(sections: seq<Section>): Outcome {
    if Complete(sections) then Loaded(sections) else Refused
  }

  /** The walk from an offset on, after some sections. */
  function Walk(file: seq<byte>, offset: nat, seen: seq<Section>): Outcome
    decreases |file| - offset
  {
    if offset >= |file| then Finish(seen)
    else if offset + SECTION_HEADER >= WORD_LIMIT then Wraps(offset)
    else if offset + SECTION_HEADER > |file| then Finish(seen)
    else
      var size, at := ReadU32Le(file[offset + 1..]), offset + SECTION_HEADER;
      if at + size >= WORD_LIMIT then Wraps(offset)
      else if at + size > |file| then Refused
      else
        var s := Section(file[offset], file[at..at + size]);
        if Accepts(s) then Walk(file, at + size, seen + [s]) else Refused
  }

  function Load(file: seq<byte>): Outcome {
    if HeaderOk(file) then Walk(file, HEADER_SIZE, []) else Refused
  }

  // ----- the application section -----

  /** A descriptor: an AID and the two bytes of an installer index. */
  datatype Descriptor = Descriptor(aid: seq<byte>, high: byte, low: byte)

  predicate Describable(ds: seq<Descriptor>) {
    forall d :: d in ds ==> |d.aid| <= MAX_AID
  }

  function EncodeDescriptor(d: Descriptor): (r: seq<byte>)
    requires |d.aid| <= MAX_AID
    ensures |r| == 3 + |d.aid|
  {
    [|d.aid| as byte] + d.aid + [d.high, d.low]
  }

  function EncodeDescriptors(ds: seq<Descriptor>): seq<byte>
    requires Describable(ds)
  {
    if ds == [] then [] else EncodeDescriptor(ds[0]) + EncodeDescriptors(ds[1..])
  }

  lemma DescriptorAt(content: seq<byte>, offset: nat, d: Descriptor, rest: seq<byte>)
    requires |d.aid| <= MAX_AID && offset <= |content| && content[offset..] == EncodeDescriptor(d) + rest
    ensures var next := offset + 3 + |d.aid|;
            offset < next <= |content| && content[offset] as int == |d.aid| && content[next..] == rest
  {
    ByteRoundTrip(|d.aid|);
    var from, n := content[offset..], |d.aid| as byte;
    assert from == [n] + (d.aid + [d.high, d.low] + rest);
    assert content[offset] == from[0] == n;
    hide EncodeDescriptor;
    assert content[offset + 3 + |d.aid|..] == from[3 + |d.aid|..] == rest;
  }

  /** Written descriptors are taken, as many as were written. */
  lemma {:induction false} WrittenAppsOk(content: seq<byte>, offset: nat, ds: seq<Descriptor>, tail: seq<byte>)
    requires Describable(ds) && offset <= |content| && content[offset..] == EncodeDescriptors(ds) + tail
    ensures AppsOk(content, offset, |ds|)
    decreases |ds|
  {
    if ds != [] {
      var d, rest := ds[0], EncodeDescriptors(ds[1..]) + tail;
      assert d in ds;
      assert content[offset..] == EncodeDescriptor(d) + rest;
      DescriptorAt(content, offset, d, rest);
      hide EncodeDescriptor;
      WrittenAppsOk(content, offset + 3 + |d.aid|, ds[1..], tail);
    }
  }

  lemma DescriptorThere(content: seq<byte>, offset: nat, count: nat) returns (d: Descriptor, next: nat)
    requires count > 0 && offset <= |content| && AppsOk(content, offset, count)
    ensures |d.aid| <= MAX_AID && next <= |content| && content[offset..] == EncodeDescriptor(d) + content[next..]
    ensures AppsOk(content, next, count - 1)
  {
    var n := content[offset];
    next := offset + 3 + n as int;
    d := Descriptor(content[offset + 1..next - 2], content[next - 2], content[next - 1]);
    ByteThere(n);
    hide AppsOk;
    ThreePieces(content, offset, next);
  }

  lemma ThreePieces(s: seq<byte>, from: nat, next: nat)
    requires from + 3 <= next <= |s|
    ensures s[from..] == [s[from]] + s[from + 1..next - 2] + [s[next - 2], s[next - 1]] + s[next..]
  {
  }

  /** And only those: what is taken is the written form of as many descriptors, each AID of at most 16 bytes. */
  lemma {:induction false} AppsWereWritten(content: seq<byte>, offset: nat, count: nat)
    returns (ds: seq<Descriptor>, tail: seq<byte>)
    requires offset <= |content| && AppsOk(content, offset, count)
    ensures Describable(ds) && |ds| == count && content[offset..] == EncodeDescriptors(ds) + tail
    decreases count
  {
    if count == 0 {
      ds, tail := [], content[offset..];
      assert [] + tail == tail;
    } else {
      var d, next := DescriptorThere(content, offset, count);
      hide AppsOk;
      hide EncodeDescriptor;
      var more;
      more, tail := AppsWereWritten(content, next, count - 1);
      ds := [d] + more;
      assert ds[0] == d && ds[1..] == more;
      var head, rest := EncodeDescriptor(d), EncodeDescriptors(more);
      assert head + (rest + tail) == head + rest + tail;
    }
  }

  // ----- the first section -----

  /** Four bytes, an AID behind its length, and the rest. */
  function FirstContent(four: seq<byte>, aid: seq<byte>, rest: seq<byte>): (c: seq<byte>)
    requires |four| == 4 && |aid| < 256
    ensures |c| == 5 + |aid| + |rest| && c[4] == |aid| as byte
  {
    four + [|aid| as byte] + aid + rest
  }

  /** A first section so written is taken if it has ten bytes at least. */
  lemma FirstSectionIff(four: seq<byte>, aid: seq<byte>, rest: seq<byte>)
    requires |four| == 4 && |aid| < 256
    ensures Accepts(Section(FIRST, FirstContent(four, aid, rest))) <==> 5 + |aid| + |rest| >= 10
  {
    ByteRoundTrip(|aid|);
    hide FirstContent;
  }

  /** And only a section so written is. */
  lemma FirstSectionThere(c: seq<byte>) returns (four: seq<byte>, aid: seq<byte>, rest: seq<byte>)
    requires Accepts(Section(FIRST, c))
    ensures |four| == 4 && |aid| < 256 && c == FirstContent(four, aid, rest)
  {
    var n := c[4];
    ByteThere(n);
    four, aid, rest := c[..4], c[5..5 + n as int], c[5 + n as int..];
    hide Accepts;
    assert c == c[..4] + [c[4]] + c[5..5 + n as int] + c[5 + n as int..];
  }

  // ----- writing a file -----

  predicate Sized(sections: seq<Section>) {
    forall s :: s in sections ==> |s.content| < WORD_LIMIT
  }

  function EncodeSection(s: Section): (r: seq<byte>)
    requires |s.content| < WORD_LIMIT
    ensures |r| == SECTION_HEADER + |s.content|
  {
    [s.id] + U32Le(|s.content|) + s.content
  }

  function Encode(sections: seq<Section>): seq<byte>
    requires Sized(sections)
  {
    if sections == [] then [] else EncodeSection(sections[0]) + Encode(sections[1..])
  }

  function Header(version: u32): (r: seq<byte>)
    ensures |r| == HEADER_SIZE
  {
    U32Le(MAGIC) + U32Le(version)
  }

  // ----- the walk reads what the writer wrote -----

  /** What the walk finds where a section was written. */
  lemma SectionAt(file: seq<byte>, offset: nat, s: Section, rest: seq<byte>)
    requires |s.content| < WORD_LIMIT && offset <= |file| && file[offset..] == EncodeSection(s) + rest
    ensures var at, n := offset + SECTION_HEADER, |s.content|;
            at + n <= |file| && file[offset] == s.id && ReadU32Le(file[offset + 1..]) == n
            && file[at..at + n] == s.content && file[at + n..] == rest
  {
    hide U32Le;
    hide ReadU32Le;
    var n, c := U32Le(|s.content|), s.content;
    assert file[offset..] == [s.id] + n + c + rest;
    hide EncodeSection;
    Slices(file, offset, [s.id] + n, c, rest);
    assert file[offset] == file[offset..][0];
    assert file[offset + 1..] == file[offset..][1..] == n + (c + rest);
    U32RoundTrip(|c|, c + rest);
  }

  lemma Slices(file: seq<byte>, offset: nat, head: seq<byte>, c: seq<byte>, rest: seq<byte>)
    requires offset <= |file| && file[offset..] == head + c + rest
    ensures var at, n := offset + |head|, |c|;
            at + n <= |file| && file[at..at + n] == c && file[at + n..] == rest
  {
    var at, n := offset + |head|, |c|;
    assert file[at..] == file[offset..][|head|..] == c + rest;
    assert file[at..at + n] == file[at..][..n];
    assert file[at + n..] == file[at..][n..];
  }

  /** One turn of the walk over a section that was written at an offset. */
  lemma WalkTurn(file: seq<byte>, offset: nat, s: Section, rest: seq<byte>, seen: seq<Section>)
    requires |s.content| < WORD_LIMIT && offset <= |file| < WORD_LIMIT && file[offset..] == EncodeSection(s) + rest
    ensures var next := offset + SECTION_HEADER + |s.content|;
            next <= |file| && file[next..] == rest
            && Walk(file, offset, seen) == if Accepts(s) then Walk(file, next, seen + [s]) else Refused
  {
    SectionAt(file, offset, s, rest);
    hide EncodeSection;
    hide Accepts;
    hide ReadU32Le;
  }

  lemma WalkEnds(file: seq<byte>, offset: nat, seen: seq<Section>)
    requires offset <= |file| < offset + SECTION_HEADER
    requires offset == |file| || offset + SECTION_HEADER < WORD_LIMIT
    ensures Walk(file, offset, seen) == Finish(seen)
  {
    hide Accepts;
    hide Finish;
    hide ReadU32Le;
  }

  predicate AllAccepted(sections: seq<Section>) {
    forall s :: s in sections ==> Accepts(s)
  }

  lemma NoSections()
    ensures Sized([]) && Encode([]) == [] && AllAccepted([])
  {
    hide Walk;
    hide Accepts;
  }

  lemma MoreSections(sections: seq<Section>)
    requires Sized(sections) && sections != []
    ensures Sized(sections[1..]) && |sections[0].content| < WORD_LIMIT
    ensures Encode(sections) == EncodeSection(sections[0]) + Encode(sections[1..])
  {
    hide EncodeSection;
    hide Accepts;
  }

  lemma AcceptedSplits(sections: seq<Section>)
    requires sections != []
    ensures AllAccepted(sections) <==> Accepts(sections[0]) && AllAccepted(sections[1..])
  {
    hide Accepts;
    assert sections == [sections[0]] + sections[1..];
  }

  /** A walk over written sections, then fewer than five bytes, visits them all in order and ends as they deserve. */
  lemma {:induction false} WalkInvertsEncode(file: seq<byte>, offset: nat, sections: seq<Section>, tail: seq<byte>,
                                             seen: seq<Section>)
    requires Sized(sections) && |tail| < SECTION_HEADER
    requires offset <= |file| < WORD_LIMIT && file[offset..] == Encode(sections) + tail
    requires tail == [] || |file| + SECTION_HEADER <= WORD_LIMIT
    ensures Walk(file, offset, seen) == if AllAccepted(sections) then Finish(seen + sections) else Refused
    decreases |sections|
  {
    hide *;
    if sections == [] {
      NoSections();
      assert file[offset..] == tail && seen + sections == seen;
      WalkEnds(file, offset, seen);
    } else {
      var s, more := sections[0], sections[1..];
      MoreSections(sections);
      AcceptedSplits(sections);
      var rest := Encode(more) + tail;
      assert file[offset..] == EncodeSection(s) + rest;
      WalkTurn(file, offset, s, rest, seen);
      WalkInvertsEncode(file, offset + SECTION_HEADER + |s.content|, more, tail, seen + [s]);
      assert (seen + [s]) + more == seen + sections;
    }
  }

  lemma HeaderReads(version: u32, rest: seq<byte>)
    ensures HeaderOk(Header(version) + rest) <==> version < 0x200_0000
  {
    var h := U32Le(version) + rest;
    U32RoundTrip(MAGIC, h);
    U32RoundTrip(version, rest);
    var file := Header(version) + rest;
    hide U32Le;
    hide ReadU32Le;
    assert file == U32Le(MAGIC) + h && file[4..] == h;
  }

  /** A file in the shape the writer produces, up to four stray bytes at its end. */
  predicate Written(file: seq<byte>, version: u32, sections: seq<Section>, tail: seq<byte>) {
    Sized(sections) && |tail| < SECTION_HEADER && file == Header(version) + (Encode(sections) + tail)
  }

  lemma LoadUnfolds(file: seq<byte>, sections: seq<Section>)
    ensures Load(file) == if HeaderOk(file) then Walk(file, HEADER_SIZE, []) else Refused
    ensures Finish(sections) == if Complete(sections) then Loaded(sections) else Refused
  {
    hide Walk;
    hide HeaderOk;
    hide Complete;
  }

  /** A written file loads iff its version is supported, every section is taken and the required ones are there. */
  lemma LoadOfWritten(file: seq<byte>, version: u32, sections: seq<Section>, tail: seq<byte>)
    requires Written(file, version, sections, tail)
    requires |file| < WORD_LIMIT && (tail == [] || |file| + SECTION_HEADER <= WORD_LIMIT)
    ensures Load(file) ==
            if version < 0x200_0000 && AllAccepted(sections) && Complete(sections)
            then Loaded(sections) else Refused
  {
    var body := Encode(sections) + tail;
    assert file == Header(version) + body;
    hide *;
    LoadUnfolds(file, sections);
    HeaderReads(version, body);
    assert file[HEADER_SIZE..] == body && [] + sections == sections;
    WalkInvertsEncode(file, HEADER_SIZE, sections, tail, []);
  }

  // ----- and only that -----

  /** The section a header at an offset announces. */
  function SectionFound(file: seq<byte>, offset: nat): (s: Section)
    requires offset + SECTION_HEADER <= |file|
    requires offset + SECTION_HEADER + ReadU32Le(file[offset + 1..]) <= |file|
    ensures |s.content| == ReadU32Le(file[offset + 1..])
  {
    var size, at := ReadU32Le(file[offset + 1..]), offset + SECTION_HEADER;
    Section(file[offset], file[at..at + size])
  }

  lemma FoundIsWritten(file: seq<byte>, offset: nat)
    requires offset + SECTION_HEADER <= |file|
    requires offset + SECTION_HEADER + ReadU32Le(file[offset + 1..]) <= |file|
    ensures var s := SectionFound(file, offset);
            file[offset..] == EncodeSection(s) + file[offset + SECTION_HEADER + |s.content|..]
  {
    hide ReadU32Le;
    hide U32Le;
    var s, header := SectionFound(file, offset), file[offset + 1..][..4];
    FirstFour(file[offset + 1..]);
    U32Unread(header);
    assert EncodeSection(s) == [file[offset]] + header + s.content;
    hide EncodeSection;
    var from, n := file[offset..], SECTION_HEADER + |s.content|;
    assert from == from[..1] + from[1..5] + from[5..n] + from[n..];
    assert from[1..5] == header;
    assert s.content == file[offset + SECTION_HEADER..offset + n] == from[SECTION_HEADER..n];
    assert from[n..] == file[offset + n..];
  }

  lemma LoadingGoesOn(file: seq<byte>, offset: nat, seen: seq<Section>)
    requires offset + SECTION_HEADER <= |file| < WORD_LIMIT && Walk(file, offset, seen).Loaded?
    ensures var next := offset + SECTION_HEADER + ReadU32Le(file[offset + 1..]);
            offset < next <= |file| && Accepts(SectionFound(file, offset))
            && Walk(file, offset, seen) == Walk(file, next, seen + [SectionFound(file, offset)])
  {
    hide Accepts;
    hide Complete;
    hide ReadU32Le;
  }

  lemma LoadingStops(file: seq<byte>, offset: nat, seen: seq<Section>)
    requires offset <= |file| < offset + SECTION_HEADER && |file| < WORD_LIMIT && Walk(file, offset, seen).Loaded?
    ensures Walk(file, offset, seen) == Loaded(seen) && Complete(seen)
  {
    hide Accepts;
    hide Complete;
    hide ReadU32Le;
  }

  /** What a walk that loads has visited is exactly what is written there, but for fewer than five bytes. */
  lemma {:induction false} LoadedWasWritten(file: seq<byte>, offset: nat, seen: seq<Section>)
      returns (sections: seq<Section>, tail: seq<byte>)
    requires offset <= |file| < WORD_LIMIT && Walk(file, offset, seen).Loaded?
    ensures Sized(sections) && |tail| < SECTION_HEADER && AllAccepted(sections) && Complete(seen + sections)
    ensures Walk(file, offset, seen) == Loaded(seen + sections)
    ensures file[offset..] == Encode(sections) + tail
    decreases |file| - offset
  {
    hide *;
    if offset + SECTION_HEADER > |file| {
      sections, tail := [], file[offset..];
      NoSections();
      LoadingStops(file, offset, seen);
      assert seen + [] == seen && [] + tail == tail;
    } else {
      LoadingGoesOn(file, offset, seen);
      FoundIsWritten(file, offset);
      var s := SectionFound(file, offset);
      var more;
      more, tail := LoadedWasWritten(file, offset + SECTION_HEADER + |s.content|, seen + [s]);
      sections := [s] + more;
      assert sections[1..] == more && (seen + [s]) + more == seen + sections;
      OneMore(sections);
      assert EncodeSection(s) + (Encode(more) + tail) == EncodeSection(s) + Encode(more) + tail;
    }
  }

  lemma OneMore(sections: seq<Section>)
    requires sections != [] && |sections[0].content| < WORD_LIMIT && Sized(sections[1..])
    ensures Sized(sections) && Encode(sections) == EncodeSection(sections[0]) + Encode(sections[1..])
    ensures AllAccepted(sections) <==> Accepts(sections[0]) && AllAccepted(sections[1..])
  {
    assert sections == [sections[0]] + sections[1..];
    hide EncodeSection;
    hide Accepts;
  }

  /** A file that loads is the written form of the sections it loads. */
  lemma LoadReadsOnlyWritten(file: seq<byte>) returns (version: u32, sections: seq<Section>, tail: seq<byte>)
    requires |file| < WORD_LIMIT && Load(file).Loaded?
    ensures Written(file, version, sections, tail) && Load(file) == Loaded(sections)
    ensures version < 0x200_0000 && AllAccepted(sections) && Complete(sections)
  {
    LoadUnfolds(file, []);
    HeaderLong(file);
    HeaderWritten(file);
    hide *;
    version := ReadU32Le(file[4..]);
    sections, tail := LoadedWasWritten(file, HEADER_SIZE, []);
    assert [] + sections == sections;
    assert file == file[..HEADER_SIZE] + file[HEADER_SIZE..];
    WrittenIs(file, version, sections, tail);
  }

  lemma WrittenIs(file: seq<byte>, version: u32, sections: seq<Section>, tail: seq<byte>)
    requires Sized(sections) && |tail| < SECTION_HEADER && file == Header(version) + (Encode(sections) + tail)
    ensures Written(file, version, sections, tail)
  {
  }

  lemma HeaderWritten(file: seq<byte>)
    requires HeaderOk(file)
    ensures file[..HEADER_SIZE] == Header(ReadU32Le(file[4..])) && ReadU32Le(file[4..]) < 0x200_0000
  {
    hide ReadU32Le;
    hide U32Le;
    FirstFour(file);
    FirstFour(file[4..]);
    U32Unread(file[..4]);
    U32Unread(file[4..][..4]);
    assert file[..HEADER_SIZE] == file[..4] + file[4..][..4];
  }

  lemma FirstFour(s: seq<byte>)
    requires |s| >= 4
    ensures ReadU32Le(s[..4]) == ReadU32Le(s)
  {
    var t := s[..4];
    assert t[0] == s[0] && t[1] == s[1] && t[2] == s[2] && t[3] == s[3];
  }

  // ----- the 32-bit cursor -----

  /** The bounds check and the next offset as computed in 32 bits. */
  predicate WithinBounds(offset: nat, size: u32, fileSize: u32) {
    Wrap(offset + SECTION_HEADER + size) <= fileSize
  }

  function NextOffset(offset: nat, size: u32): u32 {
    Wrap(offset + SECTION_HEADER + size)
  }

  /** The bounds check keeps a section inside its file, and the walk moves on, exactly when the sum does not wrap. */
  lemma CursorMovesIff(offset: nat, size: u32, fileSize: u32)
    requires offset + SECTION_HEADER <= fileSize && WithinBounds(offset, size, fileSize)
    ensures NextOffset(offset, size) > offset + SECTION_HEADER - 1 <==> offset + SECTION_HEADER + size < WORD_LIMIT
    ensures offset + SECTION_HEADER + size <= fileSize <==> offset + SECTION_HEADER + size < WORD_LIMIT
    ensures NextOffset(offset, size) == offset <==> size == WORD_LIMIT - SECTION_HEADER
  {
    var sum := offset + SECTION_HEADER + size;
    if sum >= WORD_LIMIT {
      assert Wrap(sum) == sum - WORD_LIMIT;
    }
  }

  const RETURNING: u32 := 0xFFFF_FFFB

  /** A section of an unknown kind that announces so many bytes that the cursor comes back to its own header. */
  function ReturningFile(version: u32): (file: seq<byte>)
    ensures |file| == HEADER_SIZE + SECTION_HEADER
  {
    Header(version) + ([0] + U32Le(RETURNING))
  }

  /** That file passes every check, and the walk is at the same header again. */
  lemma WalkReturns(version: u32)
    requires version < 0x200_0000
    ensures var file, at := ReturningFile(version), HEADER_SIZE;
            && Load(file) == Wraps(at) && ReadU32Le(file[at + 1..]) == RETURNING
            && WithinBounds(at, RETURNING, |file|) && Accepts(Section(file[at], [])) && NextOffset(at, RETURNING) == at
  {
    var file, size := ReturningFile(version), U32Le(RETURNING);
    hide U32Le;
    hide ReadU32Le;
    HeaderReads(version, [0] + size);
    assert file[HEADER_SIZE + 1..] == size + [];
    U32RoundTrip(RETURNING, []);
    hide Header;
    LoadUnfolds(file, []);
    hide HeaderOk;
    hide Load;
    WalkWraps(file, HEADER_SIZE);
    hide Walk;
  }

  lemma WalkWraps(file: seq<byte>, offset: nat)
    requires offset + SECTION_HEADER <= |file| < WORD_LIMIT
    requires offset + SECTION_HEADER + ReadU32Le(file[offset + 1..]) >= WORD_LIMIT
    ensures Walk(file, offset, []) == Wraps(offset)
  {
    hide ReadU32Le;
    hide Accepts;
    hide Finish;
  }

  // ----- the walk as a loop -----

  /** The application section's check as a loop. */
  method CheckApps(content: seq<byte>) returns (ok: bool)
    requires |content| >= 1
    ensures ok == AppsOk(content, 1, content[0] as int)
  {
    var offset, i, count := 1, 0, content[0] as int;
    while i < count
      invariant 0 <= i <= count && offset >= 1
      invariant AppsOk(content, 1, count) == AppsOk(content, offset, count - i)
    {
      if offset >= |content| {
        return false;
      }
      var len := content[offset] as int;
      offset := offset + 1;
      if offset + len + 2 > |content| {
        return false;
      }
      offset := offset + len + 2;
      if len > MAX_AID {
        return false;
      }
      i := i + 1;
    }
    ok := true;
  }

  method CheckSection(s: Section) returns (ok: bool)
    ensures ok == Accepts(s)
  {
    var c := s.content;
    match s.id {
      case 1 => ok := |c| >= 10 && |c| >= 5 + c[4] as int;
      case 2 => ok := |c| > 0;
      case 3 => ok := |c| > 0;
      case 4 =>
        if |c| < 1 {
          ok := false;
        } else {
          ok := CheckApps(c);
        }
      case 5 => ok := |c| >= 12;
      case 9 => ok := |c| > 0;
      case _ => ok := true;
    }
  }

  lemma HasMore(seen: seq<Section>, s: Section, id: byte)
    ensures Has(seen + [s], id) <==> Has(seen, id) || s.id == id
  {
    if Has(seen, id) {
      var i :| 0 <= i < |seen| && seen[i].id == id;
      assert (seen + [s])[i].id == id;
    }
    if s.id == id {
      assert (seen + [s])[|seen|].id == id;
    }
  }

  lemma RequiredMore(seen: seq<Section>, s: Section)
    ensures Has(seen + [s], FIRST) <==> Has(seen, FIRST) || s.id == FIRST
    ensures Has(seen + [s], FUNCTION) <==> Has(seen, FUNCTION) || s.id == FUNCTION
    ensures Has(seen + [s], CODE) <==> Has(seen, CODE) || s.id == CODE
  {
    HasMore(seen, s, FIRST);
    HasMore(seen, s, FUNCTION);
    HasMore(seen, s, CODE);
  }

  lemma HeaderLong(file: seq<byte>)
    ensures HeaderOk(file) ==> |file| >= HEADER_SIZE
  {
  }

  lemma FinishIs(seen: seq<Section>)
    ensures Finish(seen) ==
            if Has(seen, FIRST) && Has(seen, FUNCTION) && Has(seen, CODE) then Loaded(seen) else Refused
  {
    hide Has;
  }

  /** One turn of the walk. */
  lemma WalkOnce(file: seq<byte>, offset: nat, seen: seq<Section>)
    ensures Walk(file, offset, seen) ==
            if offset >= |file| then Finish(seen)
            else if offset + SECTION_HEADER >= WORD_LIMIT then Wraps(offset)
            else if offset + SECTION_HEADER > |file| then Finish(seen)
            else
              var size, at := ReadU32Le(file[offset + 1..]), offset + SECTION_HEADER;
              if at + size >= WORD_LIMIT then Wraps(offset)
              else if at + size > |file| then Refused
              else
                var s := Section(file[offset], file[at..at + size]);
                if Accepts(s) then Walk(file, at + size, seen + [s]) else Refused
  {
    hide Accepts;
    hide Finish;
    hide ReadU32Le;
  }

  method LoadSef(file: seq<byte>) returns (outcome: Outcome)
    ensures outcome == Load(file)
  {
    HeaderLong(file);
    hide HeaderOk;
    hide Accepts;
    hide Complete;
    assert !Has([], FIRST) && !Has([], FUNCTION) && !Has([], CODE);
    hide Has;
    hide ReadU32Le;
    hide Walk;
    hide Finish;
    if !HeaderOk(file) {
      return Refused;
    }
    var offset, seen: seq<Section> := HEADER_SIZE, [];
    var hasFirst, hasFunction, hasCode := false, false, false;
    while offset < |file|
      invariant HEADER_SIZE <= offset <= |file|
      invariant Walk(file, HEADER_SIZE, []) == Walk(file, offset, seen)
      invariant hasFirst == Has(seen, FIRST) && hasFunction == Has(seen, FUNCTION) && hasCode == Has(seen, CODE)
    {
      WalkOnce(file, offset, seen);
      if offset + SECTION_HEADER >= WORD_LIMIT {
        return Wraps(offset);
      }
      if offset + SECTION_HEADER > |file| {
        break;
      }
      var size, at := ReadU32Le(file[offset + 1..]), offset + SECTION_HEADER;
      if at + size >= WORD_LIMIT {
        return Wraps(offset);
      }
      if at + size > |file| {
        return Refused;
      }
      var s := Section(file[offset], file[at..at + size]);
      var ok := CheckSection(s);
      if !ok {
        return Refused;
      }
      RequiredMore(seen, s);
      hasFirst := hasFirst || s.id == FIRST;
      hasFunction := hasFunction || s.id == FUNCTION;
      hasCode := hasCode || s.id == CODE;
      seen := seen + [s];
      offset := at + size;
    }
    WalkOnce(file, offset, seen);
    FinishIs(seen);
    if !hasFirst || !hasFunction || !hasCode {
      return Refused;
    }
    outcome := Loaded(seen);
  }
}
