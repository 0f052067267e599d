/**
 * The tag-length-value data of the DELETE, INSTALL and LOAD commands: the parsers as the program
 * has them, and their meaning on encoded sequences of values.
 */
module Tlv {
  import opened Bytes

  const TAG_AID: byte := 0x4F
  const TAG_MODULE: byte := 0xCB
  const TAG_PARAMETERS: byte := 0xC4
  const MAX_AIDS := 16

  type Aid = seq<byte>

  predicate AidLength(n: int) {
    5 <= n <= 16
  }

  // ----- parsers -----

  /** The AIDs of a DELETE command from an offset on; other tags are skipped, and 16 AIDs end the search. */
  function ParseDelete(data: seq<byte>, offset: nat, aids: seq<Aid>): Option<seq<Aid>>
    decreases |data| - offset
  {
    if offset >= |data| || |aids| >= MAX_AIDS then if aids == [] then None else Some(aids)
    else if offset + 2 > |data| then None
    else
      var tag, len, at := data[offset], data[offset + 1] as int, offset + 2;
      if tag != TAG_AID then ParseDelete(data, at + len, aids)
      else if !AidLength(len) || at + len > |data| then None
      else ParseDelete(data, at + len, aids + [data[at..at + len]])
  }

  /** What an INSTALL command names; an AID not given yet is empty. */
  datatype Install = Install(app: Aid, mod: Aid, parameters: Option<seq<byte>>)

  /** What an INSTALL command names after one more value. */
  function Taken(i: Install, tag: byte, v: seq<byte>): Install {
    if tag == TAG_AID then i.(app := v)
    else if tag == TAG_MODULE then i.(mod := v)
    else if tag == TAG_PARAMETERS then i.(parameters := Some(v))
    else i
  }

  function ParseInstall(data: seq<byte>, offset: nat, i: Install): Option<Install>
    decreases |data| - offset
  {
    if offset >= |data| then if i.app == [] || i.mod == [] then None else Some(i)
    else if offset + 2 > |data| then None
    else
      var tag, len, at := data[offset], data[offset + 1] as int, offset + 2;
      if at + len > |data| then None
      else if (tag == TAG_AID || tag == TAG_MODULE) && !AidLength(len) then None
      else
        ParseInstall(data, at + len, Taken(i, tag, data[at..at + len]))
  }

  /** The package AID of an INSTALL FOR LOAD command; only AIDs and parameters may be there. */
  function ParseLoad(data: seq<byte>, offset: nat, aid: Aid): Option<Aid>
    decreases |data| - offset
  {
    if offset >= |data| then if aid == [] then None else Some(aid)
    else
      var tag, at := data[offset], offset + 2;
      if tag == TAG_AID then
        if offset + 1 >= |data| then None
        else
          var len := data[offset + 1] as int;
          if !AidLength(len) || at + len > |data| then None
          else ParseLoad(data, at + len, data[at..at + len])
      else if tag == TAG_PARAMETERS then
        ParseLoad(data, if offset + 1 < |data| then at + data[offset + 1] as int else at, aid)
      else None
  }

  // ----- encoded sequences -----

  datatype Item = Item(tag: byte, value: seq<byte>)

  predicate Fits(items: seq<Item>) {
    forall t :: t in items ==> |t.value| < 256
  }

  function EncodeItem(t: Item): seq<byte>
    requires |t.value| < 256
  {
    [t.tag, |t.value| as byte] + t.value
  }

  function Encode(items: seq<Item>): seq<byte>
    requires Fits(items)
  {
    if items == [] then [] else EncodeItem(items[0]) + Encode(items[1..])
  }

  /** What the AIDs of a list of items are to DELETE. */
  function DeleteMeaning(items: seq<Item>, aids: seq<Aid>): Option<seq<Aid>> {
    if items == [] || |aids| >= MAX_AIDS then if aids == [] then None else Some(aids)
    else if items[0].tag != TAG_AID then DeleteMeaning(items[1..], aids)
    else if !AidLength(|items[0].value|) then None
    else DeleteMeaning(items[1..], aids + [items[0].value])
  }

  function InstallMeaning(items: seq<Item>, i: Install): Option<Install> {
    if items == [] then if i.app == [] || i.mod == [] then None else Some(i)
    else
      var t := items[0];
      if (t.tag == TAG_AID || t.tag == TAG_MODULE) && !AidLength(|t.value|) then None
      else InstallMeaning(items[1..], Taken(i, t.tag, t.value))
  }

  function LoadMeaning(items: seq<Item>, aid: Aid): Option<Aid> {
    if items == [] then if aid == [] then None else Some(aid)
    else
      var t := items[0];
      if t.tag == TAG_AID then if AidLength(|t.value|) then LoadMeaning(items[1..], t.value) else None
      else if t.tag == TAG_PARAMETERS then LoadMeaning(items[1..], aid)
      else None
  }

  /** The item that starts at the end of a prefix, as the parsers see it. */
  lemma ItemAt(pre: seq<byte>, items: seq<Item>)
    requires Fits(items) && items != []
    ensures var data, at := pre + Encode(items), |pre| + 2;
            var v := items[0].value;
            data[|pre|] == items[0].tag && data[|pre| + 1] as int == |v|
            && at + |v| <= |data| && data[at..at + |v|] == v
            && data == data[..at + |v|] + Encode(items[1..])
  {
    var v, tail := items[0].value, Encode(items[1..]);
    var head := pre + EncodeItem(items[0]);
    assert pre + Encode(items) == head + tail;
    ByteRoundTrip(|v|);
    hide *;
    assert head[|pre|..] == [items[0].tag, |v| as byte] + v;
    assert (head + tail)[..|head|] == head;
    assert (head + tail)[|pre| + 2..|head|] == head[|pre|..][2..] == v;
  }

  /** Parsing an encoded sequence for DELETE gives what the sequence means, on every sequence. */
  lemma {:induction false} DeleteParsesMeaning(pre: seq<byte>, items: seq<Item>, aids: seq<Aid>)
    requires Fits(items)
    ensures ParseDelete(pre + Encode(items), |pre|, aids) == DeleteMeaning(items, aids)
    decreases |items|
  {
    if items != [] && |aids| < MAX_AIDS {
      var t, data := items[0], pre + Encode(items);
      ItemAt(pre, items);
      var next := data[..|pre| + 2 + |t.value|];
      hide Encode;
      if t.tag != TAG_AID {
        DeleteParsesMeaning(next, items[1..], aids);
      } else if AidLength(|t.value|) {
        DeleteParsesMeaning(next, items[1..], aids + [t.value]);
      }
    }
  }

  lemma InstallTurn(data: seq<byte>, offset: nat, i: Install)
    requires offset + 2 <= |data|
    ensures var tag, len, at := data[offset], data[offset + 1] as int, offset + 2;
            ParseInstall(data, offset, i) ==
            if at + len > |data| || ((tag == TAG_AID || tag == TAG_MODULE) && !AidLength(len)) then None
            else ParseInstall(data, at + len, Taken(i, tag, data[at..at + len]))
  {
    hide Taken;
    hide AidLength;
  }

  lemma InstallMeaningTurn(items: seq<Item>, i: Install)
    requires items != []
    ensures var t := items[0];
            InstallMeaning(items, i) ==
            if (t.tag == TAG_AID || t.tag == TAG_MODULE) && !AidLength(|t.value|) then None
            else InstallMeaning(items[1..], Taken(i, t.tag, t.value))
  {
    hide Taken;
    hide AidLength;
  }

  lemma InstallEnd(data: seq<byte>, i: Install)
    ensures ParseInstall(data, |data|, i) == InstallMeaning([], i)
  {
  }

  lemma {:induction false} InstallParsesMeaning(pre: seq<byte>, items: seq<Item>, i: Install)
    requires Fits(items)
    ensures ParseInstall(pre + Encode(items), |pre|, i) == InstallMeaning(items, i)
    decreases |items|
  {
    FitsRest(items);
    hide *;
    if items == [] {
      assert pre + Encode(items) == pre;
      InstallEnd(pre, i);
    } else {
      ItemAt(pre, items);
      var t, data := items[0], pre + Encode(items);
      InstallTurn(data, |pre|, i);
      InstallMeaningTurn(items, i);
      InstallParsesMeaning(data[..|pre| + 2 + |t.value|], items[1..], Taken(i, t.tag, t.value));
    }
  }

  /** One turn of ParseLoad on an item that has its length byte. */
  lemma LoadTurn(data: seq<byte>, offset: nat, aid: Aid)
    requires offset + 1 < |data|
    ensures var tag, at, len := data[offset], offset + 2, data[offset + 1] as int;
            ParseLoad(data, offset, aid) ==
            if tag == TAG_AID then
              if AidLength(len) && at + len <= |data| then ParseLoad(data, at + len, data[at..at + len]) else None
            else if tag == TAG_PARAMETERS then ParseLoad(data, at + len, aid)
            else None
  {
  }

  lemma {:induction false} LoadParsesMeaning(pre: seq<byte>, items: seq<Item>, aid: Aid)
    requires Fits(items)
    ensures ParseLoad(pre + Encode(items), |pre|, aid) == LoadMeaning(items, aid)
    decreases |items|
  {
    if items != [] {
      var t, data := items[0], pre + Encode(items);
      ItemAt(pre, items);
      var next := data[..|pre| + 2 + |t.value|];
      hide Encode;
      LoadTurn(data, |pre|, aid);
      hide ParseLoad;
      if t.tag == TAG_AID {
        LoadParsesMeaning(next, items[1..], t.value);
      } else {
        LoadParsesMeaning(next, items[1..], aid);
      }
    }
  }

  // ----- what the meanings are -----

  function AidsOf(items: seq<Item>): seq<Aid> {
    if items == [] then [] else (if items[0].tag == TAG_AID then [items[0].value] else []) + AidsOf(items[1..])
  }

  /** What is kept of a list of AIDs: the first sixteen, and nothing of an empty list. */
  function FirstSixteen(all: seq<Aid>): Option<seq<Aid>> {
    if all == [] then None else Some(if |all| <= MAX_AIDS then all else all[..MAX_AIDS])
  }

  lemma FullList(aids: seq<Aid>, more: seq<Aid>)
    requires |aids| == MAX_AIDS
    ensures FirstSixteen(aids + more) == Some(aids)
  {
    assert (aids + more)[..MAX_AIDS] == aids;
    assert more == [] ==> aids + more == aids;
  }

  /** With well-sized AIDs, DELETE names the first sixteen of them in order, and fails without any. */
  lemma {:induction false} DeleteNamesFirstAids(items: seq<Item>, aids: seq<Aid>)
    requires forall t :: t in items && t.tag == TAG_AID ==> AidLength(|t.value|)
    requires |aids| <= MAX_AIDS
    ensures DeleteMeaning(items, aids) == FirstSixteen(aids + AidsOf(items))
    decreases |items|
  {
    if |aids| == MAX_AIDS {
      FullList(aids, AidsOf(items));
    } else if items == [] {
      assert aids + AidsOf(items) == aids;
    } else {
      hide FirstSixteen;
      var t := items[0];
      assert t in items && forall u :: u in items[1..] ==> u in items;
      if t.tag == TAG_AID {
        DeleteNamesFirstAids(items[1..], aids + [t.value]);
        assert aids + AidsOf(items) == aids + [t.value] + AidsOf(items[1..]);
      } else {
        DeleteNamesFirstAids(items[1..], aids);
        assert AidsOf(items) == AidsOf(items[1..]);
      }
    }
  }

  /** The last value of a tag, or the given one. */
  function LastOf(items: seq<Item>, tag: byte, default: seq<byte>): seq<byte> {
    if items == [] then default else LastOf(items[1..], tag, if items[0].tag == tag then items[0].value else default)
  }

  function LastParameters(items: seq<Item>, default: Option<seq<byte>>): Option<seq<byte>> {
    if items == [] then default
    else LastParameters(items[1..], if items[0].tag == TAG_PARAMETERS then Some(items[0].value) else default)
  }

  /** With well-sized AIDs, INSTALL names the last application AID, module AID and parameters; both AIDs are needed. */
  lemma {:induction false} InstallNamesLast(items: seq<Item>, i: Install)
    requires forall t :: t in items && (t.tag == TAG_AID || t.tag == TAG_MODULE) ==> AidLength(|t.value|)
    ensures var app, mod := LastOf(items, TAG_AID, i.app), LastOf(items, TAG_MODULE, i.mod);
            InstallMeaning(items, i) ==
            if app == [] || mod == [] then None else Some(Install(app, mod, LastParameters(items, i.parameters)))
    decreases |items|
  {
    if items != [] {
      var t := items[0];
      assert t in items && forall u :: u in items[1..] ==> u in items;
      InstallNamesLast(items[1..], Taken(i, t.tag, t.value));
    }
  }

  /** An application or module AID of the wrong size, anywhere, makes INSTALL fail. */
  lemma {:induction false} InstallRefusesSizes(items: seq<Item>, i: Install, k: nat)
    requires k < |items| && (items[k].tag == TAG_AID || items[k].tag == TAG_MODULE) && !AidLength(|items[k].value|)
    ensures InstallMeaning(items, i) == None
    decreases |items|
  {
    if k > 0 {
      InstallRefusesSizes(items[1..], Taken(i, items[0].tag, items[0].value), k - 1);
    }
  }

  /** Some AID of the wrong size comes before sixteen have been collected. */
  predicate BadAidFirst(items: seq<Item>, collected: nat) {
    exists k :: 0 <= k < |items| && items[k].tag == TAG_AID && !AidLength(|items[k].value|)
                && collected + |AidsOf(items[..k])| < MAX_AIDS
  }

  /** DELETE fails exactly when there is no AID, or one of the wrong size before sixteen have been collected. */
  lemma {:induction false} DeleteFailsIff(items: seq<Item>, aids: seq<Aid>)
    requires |aids| <= MAX_AIDS
    ensures DeleteMeaning(items, aids) == None <==> aids + AidsOf(items) == [] || BadAidFirst(items, |aids|)
    decreases |items|
  {
    if |aids| < MAX_AIDS && items != [] {
      var t, rest := items[0], items[1..];
      BadAidSplits(items, |aids|);
      hide BadAidFirst;
      if t.tag != TAG_AID {
        DeleteFailsIff(rest, aids);
      } else if AidLength(|t.value|) {
        DeleteFailsIff(rest, aids + [t.value]);
      }
    }
  }

  lemma BadAidSplits(items: seq<Item>, collected: nat)
    requires items != [] && collected < MAX_AIDS
    ensures var t := items[0];
            BadAidFirst(items, collected) <==>
            (t.tag == TAG_AID && !AidLength(|t.value|))
            || BadAidFirst(items[1..], collected + if t.tag == TAG_AID then 1 else 0)
  {
    hide AidLength;
    var t, rest := items[0], items[1..];
    var more := if t.tag == TAG_AID then 1 else 0;
    forall k: nat | k < |rest|
      ensures |AidsOf(items[..k + 1])| == more + |AidsOf(rest[..k])| && rest[k] == items[k + 1]
    {
      assert items[..k + 1][1..] == rest[..k];
    }
    assert AidsOf(items[..0]) == [];
    if k :| 0 <= k < |rest| && rest[k].tag == TAG_AID && !AidLength(|rest[k].value|)
            && collected + more + |AidsOf(rest[..k])| < MAX_AIDS {
      assert items[k + 1] == rest[k];
    }
    if k :| 0 <= k < |items| && items[k].tag == TAG_AID && !AidLength(|items[k].value|)
            && collected + |AidsOf(items[..k])| < MAX_AIDS {
      if k > 0 {
        assert rest[k - 1] == items[k];
      }
    }
  }

  /** Every AID a parser returns has 5 to 16 bytes, whatever the data. */
  lemma {:induction false} DeleteAidsSized(data: seq<byte>, offset: nat, aids: seq<Aid>)
    requires (forall a :: a in aids ==> AidLength(|a|)) && |aids| <= MAX_AIDS
    ensures var r := ParseDelete(data, offset, aids);
            r.Some? ==> 0 < |r.value| <= MAX_AIDS && forall a :: a in r.value ==> AidLength(|a|)
    decreases |data| - offset
  {
    if offset + 2 <= |data| && |aids| < MAX_AIDS {
      var len, at := data[offset + 1] as int, offset + 2;
      DeleteAidsSized(data, at + len, aids);
      if AidLength(len) && at + len <= |data| {
        DeleteAidsSized(data, at + len, aids + [data[at..at + len]]);
      }
    }
  }

  /** AIDs not given yet, or of a good size. */
  predicate NamesSized(i: Install) {
    (i.app == [] || AidLength(|i.app|)) && (i.mod == [] || AidLength(|i.mod|))
  }

  lemma TakenSized(i: Install, tag: byte, v: seq<byte>)
    requires NamesSized(i) && (tag == TAG_AID || tag == TAG_MODULE ==> AidLength(|v|))
    ensures NamesSized(Taken(i, tag, v))
  {
  }

  lemma {:induction false} InstallAidsSized(data: seq<byte>, offset: nat, i: Install)
    requires NamesSized(i)
    ensures var r := ParseInstall(data, offset, i); r.Some? ==> AidLength(|r.value.app|) && AidLength(|r.value.mod|)
    decreases |data| - offset
  {
    hide Taken;
    if offset + 2 <= |data| {
      var tag, len, at := data[offset], data[offset + 1] as int, offset + 2;
      if at + len <= |data| && (tag == TAG_AID || tag == TAG_MODULE ==> AidLength(len)) {
        TakenSized(i, tag, data[at..at + len]);
        hide NamesSized;
        InstallAidsSized(data, at + len, Taken(i, tag, data[at..at + len]));
      }
    }
  }

  // ----- INSTALL FOR LOAD as the program has it: with a cursor of one byte -----

  /** The length byte the parser reads after the tag at an offset; past the data it is whatever follows. */
  function ParameterLength(data: seq<byte>, offset: nat, after: byte): (len: int)
    ensures 0 <= len < 256
  {
    if offset + 1 < |data| then data[offset + 1] as int else after as int
  }

  /** ParseLoad with the cursor cut to eight bits; None when still running after the given number of items. */
  function ParseLoadByte(data: seq<byte>, after: byte, offset: nat, aid: Aid, items: nat): Option<Option<Aid>>
    decreases items
  {
    if offset >= |data| then Some(if aid == [] then None else Some(aid))
    else if items == 0 then None
    else if data[offset] == TAG_AID then
      if offset + 1 >= |data| then Some(None)
      else
        var len, at := data[offset + 1] as int, offset + 2;
        if !AidLength(len) || at + len > |data| then Some(None)
        else ParseLoadByte(data, after, at + len, data[at..at + len], items - 1)
    else if data[offset] == TAG_PARAMETERS then
      ParseLoadByte(data, after, (offset + 2 + ParameterLength(data, offset, after)) % 256, aid, items - 1)
    else Some(None)
  }

  const MAX_ITEMS := 256

  /** How the parser ends, if it does: whoever is still parsing after 256 items goes on forever. */
  datatype LoadParse = Named(aid: Aid) | Malformed | Endless

  function PackageAid(data: seq<byte>, after: byte): LoadParse {
    match ParseLoadByte(data, after, 0, [], MAX_ITEMS)
    case None => Endless
    case Some(None) => Malformed
    case Some(Some(aid)) => Named(aid)
  }

  /** A package AID, from any data, has 5 to 16 bytes. */
  lemma PackageAidSized(data: seq<byte>, after: byte)
    ensures PackageAid(data, after).Named? ==> AidLength(|PackageAid(data, after).aid|)
  {
    LoadAidSized(data, after, 0, [], MAX_ITEMS);
  }

  lemma {:induction false} LoadAidSized(data: seq<byte>, after: byte, offset: nat, aid: Aid, items: nat)
    requires aid == [] || AidLength(|aid|)
    ensures var r := ParseLoadByte(data, after, offset, aid, items);
            r.Some? && r.value.Some? ==> AidLength(|r.value.value|)
    decreases items
  {
    if offset < |data| && items > 0 {
      var len, at := ParameterLength(data, offset, after), offset + 2;
      LoadAidSized(data, after, (at + len) % 256, aid, items - 1);
      if offset + 1 < |data| && AidLength(len) && at + len <= |data| {
        LoadAidSized(data, after, at + len, data[at..at + len], items - 1);
      }
    }
  }

  lemma ByteTurn(data: seq<byte>, after: byte, offset: nat, aid: Aid, items: nat)
    requires offset + 1 < |data| < 256 && items > 0
    ensures var tag, at, len := data[offset], offset + 2, data[offset + 1] as int;
            ParseLoadByte(data, after, offset, aid, items) ==
            if tag == TAG_AID then
              if AidLength(len) && at + len <= |data| then
                ParseLoadByte(data, after, at + len, data[at..at + len], items - 1)
              else Some(None)
            else if tag == TAG_PARAMETERS then ParseLoadByte(data, after, (at + len) % 256, aid, items - 1)
            else Some(None)
  {
  }

  lemma LastByte(data: seq<byte>, after: byte, offset: nat, aid: Aid, items: nat)
    requires offset + 1 == |data| < 256 && items > 0
    ensures ParseLoadByte(data, after, offset, aid, items) ==
            if data[offset] == TAG_PARAMETERS then
              ParseLoadByte(data, after, (offset + 2 + after as int) % 256, aid, items - 1)
            else Some(None)
  {
  }

  /** One turn of the one-byte cursor on an encoded item. */
  lemma ItemTurn(pre: seq<byte>, items: seq<Item>, after: byte, aid: Aid, fuel: nat)
    requires Fits(items) && items != [] && |pre + Encode(items)| < 256 && fuel > 0
    ensures var t, data := items[0], pre + Encode(items);
            var next := |pre| + 2 + |t.value|;
            next <= |data| && data == data[..next] + Encode(items[1..])
            && ParseLoadByte(data, after, |pre|, aid, fuel) ==
               if t.tag == TAG_AID then
                 if AidLength(|t.value|) then ParseLoadByte(data, after, next, t.value, fuel - 1) else Some(None)
               else if t.tag == TAG_PARAMETERS then ParseLoadByte(data, after, next, aid, fuel - 1)
               else Some(None)
  {
    hide ParseLoadByte;
    ItemAt(pre, items);
    hide Encode;
    hide Fits;
    hide AidLength;
    ByteTurn(pre + Encode(items), after, |pre|, aid, fuel);
  }

  lemma MeaningTurn(items: seq<Item>, aid: Aid)
    ensures var rest := if items == [] then [] else items[1..];
            LoadMeaning(items, aid) ==
            if items == [] then if aid == [] then None else Some(aid)
            else if items[0].tag == TAG_AID then
              if AidLength(|items[0].value|) then LoadMeaning(rest, items[0].value) else None
            else if items[0].tag == TAG_PARAMETERS then LoadMeaning(rest, aid)
            else None
  {
    hide AidLength;
  }

  lemma EndOfData(data: seq<byte>, after: byte, offset: nat, aid: Aid, items: nat)
    requires offset >= |data|
    ensures ParseLoadByte(data, after, offset, aid, items) == Some(if aid == [] then None else Some(aid))
  {
  }

  lemma OutOfItems(data: seq<byte>, after: byte, offset: nat, aid: Aid)
    requires offset < |data|
    ensures ParseLoadByte(data, after, offset, aid, 0) == None
  {
  }

  lemma FitsRest(items: seq<Item>)
    requires Fits(items)
    ensures Encode(items) == [] <==> items == []
    ensures items != [] ==> Fits(items[1..])
  {
  }

  /** On every encoded list of items the one-byte cursor ends, with what the list means. */
  lemma {:induction false} ByteCursorParsesMeaning(pre: seq<byte>, items: seq<Item>, after: byte, aid: Aid, fuel: nat)
    requires Fits(items) && |pre + Encode(items)| < 256 && fuel >= |items|
    ensures ParseLoadByte(pre + Encode(items), after, |pre|, aid, fuel) == Some(LoadMeaning(items, aid))
    decreases |items|
  {
    hide *;
    FitsRest(items);
    MeaningTurn(items, aid);
    if items == [] {
      EndOfData(pre + Encode(items), after, |pre|, aid, fuel);
    } else {
      ItemTurn(pre, items, after, aid, fuel);
      var t, data := items[0], pre + Encode(items);
      var next := data[..|pre| + 2 + |t.value|];
      if t.tag == TAG_AID {
        if AidLength(|t.value|) {
          ByteCursorParsesMeaning(next, items[1..], after, t.value, fuel - 1);
        }
      } else if t.tag == TAG_PARAMETERS {
        ByteCursorParsesMeaning(next, items[1..], after, aid, fuel - 1);
      }
    }
  }

  // ----- where the one-byte cursor goes -----

  /** Where the cursor goes from an item, unless the parser refuses there. */
  function ByteNext(data: seq<byte>, after: byte, offset: nat): Option<nat>
    requires offset < |data|
  {
    if data[offset] == TAG_AID then
      if offset + 1 < |data| && AidLength(data[offset + 1] as int) && offset + 2 + data[offset + 1] as int <= |data|
      then Some(offset + 2 + data[offset + 1] as int) else None
    else if data[offset] == TAG_PARAMETERS then Some((offset + 2 + ParameterLength(data, offset, after)) % 256)
    else None
  }

  /** The item the cursor stands at after a number of items, if the parser is still running. */
  function CursorAt(data: seq<byte>, after: byte, offset: nat, n: nat): (r: Option<nat>)
    ensures r.Some? ==> r.value < |data|
    decreases n
  {
    if offset >= |data| then None
    else if n == 0 then Some(offset)
    else
      var next := ByteNext(data, after, offset);
      if next.None? then None else CursorAt(data, after, next.value, n - 1)
  }

  /** A parameter value that carries the cursor past 255. */
  predicate Crosses(data: seq<byte>, after: byte, offset: nat)
    requires offset < |data|
  {
    data[offset] == TAG_PARAMETERS && offset + 2 + ParameterLength(data, offset, after) >= 256
  }

  /** Every item the cursor visits is left behind: the cursor goes past its tag and length. */
  ghost predicate MovesOn(data: seq<byte>, after: byte, offset: nat) {
    forall n: nat, o: nat :: CursorAt(data, after, offset, n) == Some(o) && ByteNext(data, after, o).Some? ==>
      ByteNext(data, after, o).value >= o + 2
  }

  lemma CrossesIff(data: seq<byte>, after: byte, offset: nat)
    requires offset < |data| < 256
    ensures ByteNext(data, after, offset).Some? && ByteNext(data, after, offset).value < offset + 2
            <==> Crosses(data, after, offset)
  {
  }

  /** No item it visits carries the cursor past 255. */
  ghost predicate NeverCrosses(data: seq<byte>, after: byte, offset: nat) {
    forall n: nat, o: nat :: CursorAt(data, after, offset, n) == Some(o) ==> !Crosses(data, after, o)
  }

  /** The cursor leaves every item behind exactly when it visits no parameter whose value carries it past 255. */
  lemma MovesOnIff(data: seq<byte>, after: byte, offset: nat)
    requires |data| < 256
    ensures MovesOn(data, after, offset) <==> NeverCrosses(data, after, offset)
  {
    hide ByteNext;
    hide CursorAt;
    hide Crosses;
    if MovesOn(data, after, offset) {
      forall n: nat, o: nat | CursorAt(data, after, offset, n) == Some(o)
        ensures !Crosses(data, after, o)
      {
        CrossesIff(data, after, o);
      }
      assert NeverCrosses(data, after, offset);
    }
    if NeverCrosses(data, after, offset) {
      forall n: nat, o: nat | CursorAt(data, after, offset, n) == Some(o) && ByteNext(data, after, o).Some?
        ensures ByteNext(data, after, o).value >= o + 2
      {
        CrossesIff(data, after, o);
      }
      assert MovesOn(data, after, offset);
    }
  }

  /** One turn of both cursors at an item that is left behind; the AID is the one named there, if any. */
  lemma BothTurn(data: seq<byte>, after: byte, offset: nat, aid: Aid, items: nat) returns (named: Aid)
    requires offset < |data| < 256 && items > 0
    requires var next := ByteNext(data, after, offset); next.Some? ==> next.value >= offset + 2
    ensures match ByteNext(data, after, offset)
            case None =>
              ParseLoadByte(data, after, offset, aid, items) == Some(None) && ParseLoad(data, offset, aid) == None
            case Some(next) =>
              ParseLoadByte(data, after, offset, aid, items) == ParseLoadByte(data, after, next, named, items - 1)
              && ParseLoad(data, offset, aid) == ParseLoad(data, next, named)
  {
    hide ParseLoadByte;
    hide AidLength;
    named := aid;
    if offset + 1 < |data| {
      hide ParseLoad;
      LoadTurn(data, offset, aid);
      ByteTurn(data, after, offset, aid, items);
      if data[offset] == TAG_AID && ByteNext(data, after, offset).Some? {
        named := data[offset + 2..offset + 2 + data[offset + 1] as int];
      }
    } else {
      LastByte(data, after, offset, aid, items);
    }
  }

  /** Then the parser ends and agrees with one whose cursor is wide enough, whatever the data. */
  lemma {:induction false} ByteCursorAgrees(data: seq<byte>, after: byte, offset: nat, aid: Aid, items: nat)
    requires |data| < 256 && MovesOn(data, after, offset) && items + offset >= |data|
    ensures ParseLoadByte(data, after, offset, aid, items) == Some(ParseLoad(data, offset, aid))
    decreases items
  {
    if offset >= |data| {
      EndOfData(data, after, offset, aid, items);
    } else {
      assert CursorAt(data, after, offset, 0) == Some(offset);
      hide ByteNext;
      hide CursorAt;
      hide ParseLoadByte;
      hide ParseLoad;
      var named := BothTurn(data, after, offset, aid, items);
      if ByteNext(data, after, offset).Some? {
        MovesOnFurther(data, after, offset);
        ByteCursorAgrees(data, after, ByteNext(data, after, offset).value, named, items - 1);
      }
    }
  }

  lemma MovesOnFurther(data: seq<byte>, after: byte, offset: nat)
    requires offset < |data| && MovesOn(data, after, offset) && ByteNext(data, after, offset).Some?
    ensures MovesOn(data, after, ByteNext(data, after, offset).value)
  {
    hide ByteNext;
    var next := ByteNext(data, after, offset).value;
    forall n: nat, o: nat | CursorAt(data, after, next, n) == Some(o) && ByteNext(data, after, o).Some?
      ensures ByteNext(data, after, o).value >= o + 2
    {
      assert CursorAt(data, after, offset, n + 1) == Some(o);
    }
  }

  // ----- when the parser never ends -----

  lemma {:induction false} RunningIs(data: seq<byte>, after: byte, offset: nat, aid: Aid, n: nat)
    ensures ParseLoadByte(data, after, offset, aid, n) == None <==> CursorAt(data, after, offset, n).Some?
    decreases n
  {
    if offset < |data| && n > 0 && ByteNext(data, after, offset).Some? {
      var next := ByteNext(data, after, offset).value;
      var v := if offset + 2 <= next <= |data| then data[offset + 2..next] else [];
      RunningIs(data, after, next, if data[offset] == TAG_AID then v else aid, n - 1);
    }
  }

  lemma {:induction false} CursorSplit(data: seq<byte>, after: byte, offset: nat, i: nat, j: nat)
    ensures CursorAt(data, after, offset, i + j) ==
            match CursorAt(data, after, offset, i)
            case Some(o) => CursorAt(data, after, o, j)
            case None => None
    decreases i
  {
    hide ByteNext;
    if offset < |data| && i > 0 && ByteNext(data, after, offset).Some? {
      CursorSplit(data, after, ByteNext(data, after, offset).value, i - 1, j);
    }
  }

  /** The cursor stands twice at the same item. */
  ghost predicate Revisits(data: seq<byte>, after: byte, offset: nat) {
    exists i: nat, j: nat :: i < j && CursorAt(data, after, offset, i).Some?
                             && CursorAt(data, after, offset, i) == CursorAt(data, after, offset, j)
  }

  lemma {:induction false} RevisitingGoesOn(data: seq<byte>, after: byte, offset: nat, i: nat, j: nat, n: nat)
    requires i < j && CursorAt(data, after, offset, i).Some?
    requires CursorAt(data, after, offset, i) == CursorAt(data, after, offset, j)
    ensures CursorAt(data, after, offset, n).Some?
    decreases n
  {
    hide CursorAt;
    if n <= j {
      CursorSplit(data, after, offset, n, j - n);
    } else {
      CursorSplit(data, after, offset, j, n - j);
      CursorSplit(data, after, offset, i, n - j);
      RevisitingGoesOn(data, after, offset, i, j, i + n - j);
    }
  }

  /** More numbers than values: two are the same. */
  lemma {:induction false} Pigeons(s: seq<nat>, m: nat) returns (i: nat, j: nat)
    requires |s| > m && forall k :: 0 <= k < |s| ==> s[k] < m
    ensures i < j < |s| && s[i] == s[j]
    decreases m
  {
    assert s[0] < m;
    if k :| 0 <= k < |s| && s[k] == m - 1 {
      var t := s[..k] + s[k + 1..];
      if l :| 0 <= l < |t| && t[l] == m - 1 {
        var l' := if l < k then l else l + 1;
        i, j := if l' < k then l' else k, if l' < k then k else l';
      } else {
        i, j := Pigeons(t, m - 1);
        i, j := if i < k then i else i + 1, if j < k then j else j + 1;
      }
    } else {
      i, j := Pigeons(s, m - 1);
    }
  }

  /**
   * Whoever is still parsing after 256 items never ends, and that is so exactly when the cursor visits an item twice.
   */
  lemma EndlessIff(data: seq<byte>, after: byte)
    requires |data| < 256
    ensures PackageAid(data, after) == Endless <==> Revisits(data, after, 0)
    ensures PackageAid(data, after) == Endless <==> forall n: nat :: ParseLoadByte(data, after, 0, [], n) == None
  {
    hide ParseLoadByte;
    hide CursorAt;
    forall n: nat
      ensures ParseLoadByte(data, after, 0, [], n) == None <==> CursorAt(data, after, 0, n).Some?
    {
      RunningIs(data, after, 0, [], n);
    }
    assert PackageAid(data, after) == Endless <==> ParseLoadByte(data, after, 0, [], MAX_ITEMS) == None;
    if CursorAt(data, after, 0, MAX_ITEMS).Some? {
      StillRunningRevisits(data, after);
    }
    if Revisits(data, after, 0) {
      var i: nat, j: nat :| i < j && CursorAt(data, after, 0, i).Some?
                            && CursorAt(data, after, 0, i) == CursorAt(data, after, 0, j);
      forall n: nat
        ensures CursorAt(data, after, 0, n).Some?
      {
        RevisitingGoesOn(data, after, 0, i, j, n);
      }
    }
  }

  lemma StillRunningRevisits(data: seq<byte>, after: byte)
    requires |data| < 256 && CursorAt(data, after, 0, MAX_ITEMS).Some?
    ensures Revisits(data, after, 0)
  {
    hide CursorAt;
    forall n: nat | n <= MAX_ITEMS
      ensures CursorAt(data, after, 0, n).Some?
    {
      CursorSplit(data, after, 0, n, MAX_ITEMS - n);
    }
    var visited := seq(MAX_ITEMS, n requires 0 <= n < MAX_ITEMS => CursorAt(data, after, 0, n).value);
    var i, j := Pigeons(visited, |data|);
    assert CursorAt(data, after, 0, i).value == CursorAt(data, after, 0, j).value;
  }

  /** A visited parameter whose value brings the cursor back to an item visited before keeps the parser forever. */
  lemma ReturningNeverEnds(data: seq<byte>, after: byte, i: nat, n: nat)
    requires |data| < 256 && i <= n && CursorAt(data, after, 0, n).Some?
    requires CursorAt(data, after, 0, i).Some?
    requires ByteNext(data, after, CursorAt(data, after, 0, n).value) == CursorAt(data, after, 0, i)
    ensures PackageAid(data, after) == Endless
  {
    CursorSplit(data, after, 0, n, 1);
    CursorSplit(data, after, 0, i, 0);
    CursorSplit(data, after, 0, n, 0);
    var o, x := CursorAt(data, after, 0, n).value, CursorAt(data, after, 0, i).value;
    assert CursorAt(data, after, o, 1) == CursorAt(data, after, x, 0);
    hide CursorAt;
    EndlessIff(data, after);
  }

  /** A parameter value of 254 bytes brings the cursor back to its own tag, wherever it is visited. */
  lemma {:induction false} ByteCursorStalls(data: seq<byte>, after: byte, offset: nat, aid: Aid, items: nat)
    requires offset < |data| < 256 && data[offset] == TAG_PARAMETERS && ParameterLength(data, offset, after) == 254
    ensures ParseLoadByte(data, after, offset, aid, items) == None
    decreases items
  {
    if items > 0 {
      ByteCursorStalls(data, after, offset, aid, items - 1);
    }
  }

  /** An AID, then a parameter tag with length 247: the cursor returns to the AID, over and over. */
  lemma ParameterReturnsToStart(after: byte)
    ensures PackageAid([0x4F, 5, 1, 2, 3, 4, 5, 0xC4, 0xF7], after) == Endless
  {
    var data: seq<byte> := [0x4F, 5, 1, 2, 3, 4, 5, 0xC4, 0xF7];
    assert ByteNext(data, after, 0) == Some(7) && ByteNext(data, after, 7) == Some(0);
    assert CursorAt(data, after, 0, 0) == Some(0) && CursorAt(data, after, 7, 0) == Some(7);
    assert CursorAt(data, after, 0, 1) == Some(7);
    hide ByteNext;
    ReturningNeverEnds(data, after, 0, 1);
  }

  /** Data that begin with 4F 05 4F 05 11 22 33 C4 F9 and end there. */
  predicate Misleading(data: seq<byte>) {
    |data| == 9 && data[0] == 0x4F && data[1] == 5 && data[2..] == [0x4F, 5, 0x11, 0x22, 0x33, 0xC4, 0xF9]
  }

  /** A parameter value that leads into the bytes of the AID: the parser ends with another AID than the one named. */
  lemma ParameterChangesAid(data: seq<byte>, after: byte)
    requires Misleading(data)
    ensures ParseLoad(data, 0, []) == Some([0x4F, 5, 0x11, 0x22, 0x33])
    ensures PackageAid(data, after) == Named([0x11, 0x22, 0x33, 0xC4, 0xF9])
  {
    hide ParseLoad;
    hide ParseLoadByte;
    WideReadsNamed(data);
    ByteReadsOther(data, after);
  }

  lemma WideReadsNamed(data: seq<byte>)
    requires Misleading(data)
    ensures ParseLoad(data, 0, []) == Some(data[2..7]) && data[2..7] == [0x4F, 5, 0x11, 0x22, 0x33]
  {
    hide ParseLoad;
    assert data[2..7] == data[2..][..5] && data[7] == data[2..][5] && data[8] == data[2..][6];
    LoadTurn(data, 0, []);
    LoadTurn(data, 7, data[2..7]);
    WideEnd(data, 258, data[2..7]);
  }

  lemma WideEnd(data: seq<byte>, offset: nat, aid: Aid)
    requires offset >= |data| && aid != []
    ensures ParseLoad(data, offset, aid) == Some(aid)
  {
  }

  lemma ByteReadsOther(data: seq<byte>, after: byte)
    requires Misleading(data)
    ensures ParseLoadByte(data, after, 0, [], MAX_ITEMS) == Some(Some(data[4..9]))
    ensures data[4..9] == [0x11, 0x22, 0x33, 0xC4, 0xF9]
  {
    hide ParseLoadByte;
    assert data[4..9] == data[2..][2..] && data[2] == data[2..][0] && data[3] == data[2..][1];
    assert data[7] == data[2..][5] && data[8] == data[2..][6];
    ByteTurn(data, after, 0, [], 256);
    ByteTurn(data, after, 7, data[2..7], 255);
    ByteTurn(data, after, 2, data[2..7], 254);
    EndOfData(data, after, 9, data[4..9], 253);
  }

  // ----- the parsers as loops -----

  method ParseDeleteData(data: seq<byte>, aids: array<Aid>) returns (ok: bool, count: nat)
    requires aids.Length == MAX_AIDS
    modifies aids
    ensures count <= aids.Length
    ensures var r := ParseDelete(data, 0, []); ok == r.Some? && (ok ==> aids[..count] == r.value)
  {
    var offset := 0;
    count := 0;
    while offset < |data| && count < MAX_AIDS
      invariant count <= aids.Length
      invariant ParseDelete(data, 0, []) == ParseDelete(data, offset, aids[..count])
      decreases |data| - offset
    {
      if offset + 2 > |data| {
        return false, count;
      }
      var tag, len := data[offset], data[offset + 1] as int;
      offset := offset + 2;
      if tag != TAG_AID {
        offset := offset + len;
        continue;
      }
      if len < 5 || len > 16 || offset + len > |data| {
        return false, count;
      }
      ghost var found := aids[..count];
      aids[count] := data[offset..offset + len];
      count := count + 1;
      assert aids[..count] == found + [data[offset..offset + len]];
      offset := offset + len;
    }
    ok := count != 0;
  }

  method ParseInstallData(data: seq<byte>) returns (ok: bool, app: Aid, mod: Aid, parameters: Option<seq<byte>>)
    ensures ParseInstall(data, 0, Install([], [], None)) == if ok then Some(Install(app, mod, parameters)) else None
  {
    var offset := 0;
    app, mod, parameters := [], [], None;
    while offset < |data|
      invariant ParseInstall(data, 0, Install([], [], None)) ==
                ParseInstall(data, offset, Install(app, mod, parameters))
      decreases |data| - offset
    {
      if offset + 2 > |data| {
        return false, app, mod, parameters;
      }
      var tag, len := data[offset], data[offset + 1] as int;
      offset := offset + 2;
      if offset + len > |data| {
        return false, app, mod, parameters;
      }
      if (tag == TAG_AID || tag == TAG_MODULE) && (len < 5 || len > 16) {
        return false, app, mod, parameters;
      }
      var value := data[offset..offset + len];
      if tag == TAG_AID {
        app := value;
      } else if tag == TAG_MODULE {
        mod := value;
      } else if tag == TAG_PARAMETERS {
        parameters := Some(value);
      }
      offset := offset + len;
    }
    ok := app != [] && mod != [];
  }

  /**
   * The loop of INSTALL FOR LOAD. The program's has no bound on the items; EndlessIff shows that it goes on forever
   * whenever the bound here is met.
   */
  method ParsePackageAid(data: seq<byte>, after: byte) returns (r: LoadParse)
    requires |data| < 256
    ensures r == PackageAid(data, after)
  {
    hide ParseLoadByte;
    var offset, items, aid: Aid := 0, 0, [];
    while offset < |data|
      invariant 0 <= items <= MAX_ITEMS && 0 <= offset
      invariant ParseLoadByte(data, after, 0, [], MAX_ITEMS) ==
                ParseLoadByte(data, after, offset, aid, MAX_ITEMS - items)
      decreases MAX_ITEMS - items
    {
      if items == MAX_ITEMS {
        OutOfItems(data, after, offset, aid);
        return Endless;
      }
      if offset + 1 < |data| {
        ByteTurn(data, after, offset, aid, MAX_ITEMS - items);
      } else {
        LastByte(data, after, offset, aid, MAX_ITEMS - items);
      }
      items := items + 1;
      var tag := data[offset];
      offset := offset + 1;
      if tag == TAG_AID {
        if offset >= |data| {
          return Malformed;
        }
        var len := data[offset] as int;
        offset := offset + 1;
        if len < 5 || len > 16 || offset + len > |data| {
          return Malformed;
        }
        aid := data[offset..offset + len];
        offset := offset + len;
      } else if tag == TAG_PARAMETERS {
        var len := if offset < |data| then data[offset] as int else after as int;
        offset := (offset + 1 + len) % 256;
      } else {
        return Malformed;
      }
    }
    EndOfData(data, after, offset, aid, MAX_ITEMS - items);
    r := if aid == [] then Malformed else Named(aid);
  }
}
