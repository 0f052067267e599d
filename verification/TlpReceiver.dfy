/**
 * The TLP224 receiver: characters are paired up to the EOT, the message is checked, a bad one is
 * answered and the next frame is tried, up to six of them.
 */
module TlpReceiver {
  import opened Bytes
  import opened Tlp

  const STATUS_MESSAGE_TOO_LONG: byte := 0x12
  const STATUS_PROTOCOL_ERROR: byte := 0x09
  const MAX_RETRIES := 5

  // ----- one frame -----

  /** Lost is a transport that ends before the frame does. */
  datatype Scan = Lost | Scanned(stored: seq<byte>, bad: bool, tooLong: bool, rest: seq<byte>)

  /** Reads pairs of characters through the next EOT; storing stops at the first error. */
  function ScanFrame(input: seq<byte>, stored: seq<byte>, bad: bool, tooLong: bool): Scan
    decreases |input|
  {
    if input == [] then Lost
    else if input[0] == EOT then Scanned(stored, bad, tooLong, input[1..])
    else if |input| == 1 then Lost
    else if input[1] == EOT then Scanned(stored, true, tooLong, input[2..])
    else
      var b := ByteOfPair(input[0], input[1]);
      if b.None? then ScanFrame(input[2..], stored, true, tooLong)
      else if tooLong || bad then ScanFrame(input[2..], stored, bad, tooLong)
      else if |stored| >= BUFFER_SIZE then ScanFrame(input[2..], stored, bad, true)
      else ScanFrame(input[2..], stored + [b.value], bad, tooLong)
  }

  datatype Verdict = Accept | Refuse | Overlong | ProtocolError | Ignore

  /** The receive buffer after storing: the cells past the stored bytes keep what they held. */
  function Overlay(stored: seq<byte>, stale: seq<byte>): (b: seq<byte>)
    requires |stored| <= |stale|
    ensures |b| == |stale|
  {
    stored + stale[|stored|..]
  }

  /** The checks in the order they are made, on the buffer contents. */
  function Judge(stored: seq<byte>, stale: seq<byte>, bad: bool, tooLong: bool): Verdict
    requires |stored| <= |stale| == BUFFER_SIZE
  {
    var got, buf := |stored|, Overlay(stored, stale);
    if bad then Refuse
    else if tooLong then Overlong
    else if got < 1 then Ignore
    else if buf[got - 1] != Lrc(buf[..got - 1]) then Refuse
    else if LengthField(buf) != (got - 4) % 0x1_0000 then Refuse
    else if buf[0] != ACK && buf[0] != NACK then ProtocolError
    else Accept
  }

  function Close(s: seq<byte>): (m: seq<byte>)
    ensures |m| == |s| + 1
  {
    s + [Lrc(s)]
  }

  /** What is sent back for a frame that is not accepted, up to the redundancy byte. */
  function ReplyHead(v: Verdict): (h: seq<byte>)
    ensures |h| <= 4
  {
    match v
    case Refuse => [NACK, 0, 0]
    case Overlong => [ACK, 0, 1, STATUS_MESSAGE_TOO_LONG]
    case ProtocolError => [ACK, 0, 1, STATUS_PROTOCOL_ERROR]
    case _ => []
  }

  function Reply(v: Verdict): (m: seq<byte>)
    ensures |m| <= 5
  {
    if ReplyHead(v) == [] then [] else Close(ReplyHead(v))
  }

  function Frame(m: seq<byte>): seq<byte> {
    Encode(m) + [EOT]
  }

  // ----- the retry loop -----

  datatype Outcome =
    | Received(message: seq<byte>, rest: seq<byte>, sent: seq<byte>)
    | TransportLost(sent: seq<byte>)
    | GaveUp(rest: seq<byte>, sent: seq<byte>)

  function Sent(v: Verdict): seq<byte> {
    if Reply(v) == [] then [] else Frame(Reply(v))
  }

  function Receive(input: seq<byte>, stale: seq<byte>, tries: nat, sent: seq<byte>): Outcome
    requires |stale| == BUFFER_SIZE
    decreases MAX_RETRIES + 1 - tries
  {
    if tries > MAX_RETRIES then GaveUp(input, sent) else
    var s := ScanFrame(input, [], false, false);
    if s.Lost? then TransportLost(sent) else
    ScanStaysInBuffer(input, [], false, false);
    var v := Judge(s.stored, stale, s.bad, s.tooLong);
    if v.Accept? then Received(s.stored, s.rest, sent)
    else Receive(s.rest, Overlay(Reply(v), Overlay(s.stored, stale)), tries + 1, sent + Sent(v))
  }

  lemma {:induction false} ScanStaysInBuffer(input: seq<byte>, stored: seq<byte>, bad: bool, tooLong: bool)
    requires |stored| <= BUFFER_SIZE
    ensures var s := ScanFrame(input, stored, bad, tooLong); s.Scanned? ==> |s.stored| <= BUFFER_SIZE
    decreases |input|
  {
    if |input| >= 2 && input[0] != EOT && input[1] != EOT {
      var b := ByteOfPair(input[0], input[1]);
      ScanStaysInBuffer(input[2..], stored, true, tooLong);
      ScanStaysInBuffer(input[2..], stored, bad, tooLong);
      ScanStaysInBuffer(input[2..], stored, bad, true);
      if |stored| < BUFFER_SIZE && b.Some? {
        ScanStaysInBuffer(input[2..], stored + [b.value], bad, tooLong);
      }
    }
  }

  // ----- one attempt takes exactly one frame -----

  /** With an EOT in the input, whatever the characters before it, the scan ends right after it. */
  lemma {:induction false} ScanTakesOneFrame(frame: seq<byte>, rest: seq<byte>, stored: seq<byte>, bad: bool,
                                             tooLong: bool)
    requires EOT !in frame
    ensures var s := ScanFrame(frame + [EOT] + rest, stored, bad, tooLong); s.Scanned? && s.rest == rest
    decreases |frame|
  {
    var input := frame + [EOT] + rest;
    if |frame| <= 1 {
      assert input[|frame|] == EOT && input[|frame| + 1..] == rest;
    } else {
      assert input[0] == frame[0] && input[1] == frame[1];
      assert input[2..] == frame[2..] + [EOT] + rest;
      var b := ByteOfPair(input[0], input[1]);
      ScanTakesOneFrame(frame[2..], rest, stored, true, tooLong);
      ScanTakesOneFrame(frame[2..], rest, stored, bad, tooLong);
      ScanTakesOneFrame(frame[2..], rest, stored, bad, true);
      if b.Some? {
        ScanTakesOneFrame(frame[2..], rest, stored + [b.value], bad, tooLong);
      }
    }
  }

  /** Without one the transport is lost, and only then. */
  lemma {:induction false} ScanNeedsEot(input: seq<byte>, stored: seq<byte>, bad: bool, tooLong: bool)
    requires EOT !in input
    ensures ScanFrame(input, stored, bad, tooLong).Lost?
    decreases |input|
  {
    if |input| >= 2 {
      var b := ByteOfPair(input[0], input[1]);
      ScanNeedsEot(input[2..], stored, true, tooLong);
      ScanNeedsEot(input[2..], stored, bad, tooLong);
      ScanNeedsEot(input[2..], stored, bad, true);
      if b.Some? {
        ScanNeedsEot(input[2..], stored + [b.value], bad, tooLong);
      }
    }
  }

  /** Errors stick. */
  lemma {:induction false} ScanErrorsStick(frame: seq<byte>, rest: seq<byte>, stored: seq<byte>, bad: bool,
                                           tooLong: bool)
    requires EOT !in frame && (bad || tooLong)
    ensures var s := ScanFrame(frame + [EOT] + rest, stored, bad, tooLong);
            s.Scanned? && (bad ==> s.bad) && (tooLong ==> s.tooLong)
    decreases |frame|
  {
    var input := frame + [EOT] + rest;
    if |frame| <= 1 {
      assert input[|frame|] == EOT;
    } else {
      assert input[0] == frame[0] && input[1] == frame[1];
      assert input[2..] == frame[2..] + [EOT] + rest;
      ScanErrorsStick(frame[2..], rest, stored, true, tooLong);
      ScanErrorsStick(frame[2..], rest, stored, bad, tooLong);
      if bad {
        ScanErrorsStick(frame[2..], rest, stored, bad, true);
      }
    }
  }

  /** A scan without errors has decoded the whole frame, and any frame that decodes and fits scans so. */
  lemma {:induction false} ScanDecodes(frame: seq<byte>, rest: seq<byte>, stored: seq<byte>)
    requires EOT !in frame && |stored| <= BUFFER_SIZE
    ensures var s := ScanFrame(frame + [EOT] + rest, stored, false, false);
            s.Scanned?
            && (!s.bad && !s.tooLong <==> Decode(frame).Some? && |stored| + |Decode(frame).value| <= BUFFER_SIZE)
            && (!s.bad && !s.tooLong ==> s.stored == stored + Decode(frame).value)
    decreases |frame|
  {
    var input := frame + [EOT] + rest;
    if |frame| <= 1 {
      assert input[|frame|] == EOT;
    } else {
      assert input[0] == frame[0] && input[1] == frame[1];
      assert input[2..] == frame[2..] + [EOT] + rest;
      var b := ByteOfPair(frame[0], frame[1]);
      if b.None? {
        ScanErrorsStick(frame[2..], rest, stored, true, false);
      } else if |stored| >= BUFFER_SIZE {
        ScanErrorsStick(frame[2..], rest, stored, false, true);
      } else {
        ScanDecodes(frame[2..], rest, stored + [b.value]);
      }
    }
  }

  // ----- what is accepted -----

  /** Stale buffer bytes never make a short message pass: acceptance is well-formedness. */
  lemma JudgeAccepts(stored: seq<byte>, stale: seq<byte>)
    requires |stored| <= |stale| == BUFFER_SIZE
    ensures Judge(stored, stale, false, false).Accept? <==> WellFormed(stored)
  {
    if |stored| >= 4 {
      JudgeLong(stored, stale);
    } else if |stored| >= 1 {
      JudgeShort(stored, stale);
    }
  }

  lemma JudgeLong(stored: seq<byte>, stale: seq<byte>)
    requires 4 <= |stored| <= |stale| == BUFFER_SIZE
    ensures Judge(stored, stale, false, false).Accept? <==> WellFormed(stored)
  {
    hide LengthField;
    LrcLast(stored);
    hide Lrc;
    var last, buf := |stored| - 1, Overlay(stored, stale);
    assert buf[..last] == stored[..last];
    LengthFieldFrom(buf, stored);
  }

  lemma JudgeShort(stored: seq<byte>, stale: seq<byte>)
    requires 1 <= |stored| < 4 && |stale| == BUFFER_SIZE
    ensures !Judge(stored, stale, false, false).Accept?
  {
    hide LengthField;
    LrcLast(stored);
    hide Lrc;
    var last, buf := |stored| - 1, Overlay(stored, stale);
    assert buf[..last] == stored[..last];
    if Judge(stored, stale, false, false).Accept? {
      assert buf[..|stored|] == stored;
      ShortMessage(stored, buf);
    }
  }

  lemma LrcLast(s: seq<byte>)
    requires s != []
    ensures Lrc(s) == 0 <==> s[|s| - 1] == Lrc(s[..|s| - 1])
  {
    XorZero(Lrc(s[..|s| - 1]), s[|s| - 1]);
  }

  lemma LengthFieldFrom(s: seq<byte>, t: seq<byte>)
    requires |s| >= 3 && |t| >= 3 && s[1] == t[1] && s[2] == t[2]
    ensures LengthField(s) == LengthField(t)
  {
  }

  lemma XorZero(a: byte, b: byte)
    ensures a ^ b == 0 <==> b == a
  {
  }

  /** A length field of got - 4 wrapped to 16 bits needs a first byte that is no ACK or NACK. */
  lemma ShortMessage(stored: seq<byte>, buf: seq<byte>)
    requires 1 <= |stored| < 4 && |stored| <= |buf| && |buf| >= 3 && buf[..|stored|] == stored
    requires Lrc(stored) == 0 && LengthField(buf) == |stored| - 4 + 0x1_0000
    ensures buf[0] != ACK && buf[0] != NACK
  {
    assert buf[1] as int == 0xFF;
    HighByte(buf[1]);
    assert stored[..1][..0] == [];
    assert Lrc(stored[..1]) == 0 ^ stored[0];
    if |stored| == 1 {
      assert stored[..1] == stored;
    } else if |stored| == 2 {
      assert stored[1] == buf[1];
    } else {
      assert stored[1] == buf[1] && stored[2] == buf[2];
      assert buf[2] as int == 0xFF;
      HighByte(buf[2]);
      assert stored[..2][..1] == stored[..1];
      assert Lrc(stored[..2]) == Lrc(stored[..1]) ^ stored[1];
    }
  }

  lemma HighByte(b: byte)
    requires b as int == 0xFF
    ensures b == 0xFF
  {
  }

  /** One attempt accepts exactly the frames that carry a well-formed message. */
  lemma AttemptAcceptsGood(frame: seq<byte>, rest: seq<byte>, stale: seq<byte>)
    requires EOT !in frame && |stale| == BUFFER_SIZE
    ensures var s := ScanFrame(frame + [EOT] + rest, [], false, false);
            s.Scanned? && s.rest == rest && |s.stored| <= BUFFER_SIZE
            && (Judge(s.stored, stale, s.bad, s.tooLong).Accept? <==> Good(frame))
            && (Good(frame) ==> s.stored == Decode(frame).value)
  {
    var s := ScanFrame(frame + [EOT] + rest, [], false, false);
    ScanTakesOneFrame(frame, rest, [], false, false);
    ScanStaysInBuffer(frame + [EOT] + rest, [], false, false);
    ScanDecodes(frame, rest, []);
    hide ScanFrame;
    hide Decode;
    hide WellFormed;
    if !s.bad && !s.tooLong {
      assert [] + Decode(frame).value == Decode(frame).value;
      JudgeAccepts(s.stored, stale);
    } else if Decode(frame).Some? {
      LongIsNotWellFormed(Decode(frame).value);
    }
  }

  lemma LongIsNotWellFormed(m: seq<byte>)
    ensures WellFormed(m) ==> |m| <= BUFFER_SIZE
  {
  }

  // ----- whole receptions -----

  function Join(frames: seq<seq<byte>>): seq<byte> {
    if frames == [] then [] else frames[0] + [EOT] + Join(frames[1..])
  }

  /** The first good frame among those that may still be tried, or -1. */
  ghost function FirstGood(frames: seq<seq<byte>>, tries: nat): (i: int)
    ensures -1 <= i < |frames|
  {
    if frames == [] || tries > MAX_RETRIES then -1
    else if Good(frames[0]) then 0
    else
      var i := FirstGood(frames[1..], tries + 1);
      if i < 0 then -1 else i + 1
  }

  lemma {:induction false} FirstGoodIsFirst(frames: seq<seq<byte>>, tries: nat)
    ensures var i := FirstGood(frames, tries);
            (i >= 0 ==> tries + i <= MAX_RETRIES && Good(frames[i]))
            && (forall k :: 0 <= k < |frames| && tries + k <= MAX_RETRIES && (i < 0 || k < i) ==> !Good(frames[k]))
    decreases |frames|
  {
    hide Good;
    if frames != [] && tries <= MAX_RETRIES && !Good(frames[0]) {
      FirstGoodIsFirst(frames[1..], tries + 1);
      assert forall k :: 1 <= k < |frames| ==> frames[k] == frames[1..][k - 1];
    }
  }

  /** One turn of the retry loop on a frame of its own. */
  lemma OneAttempt(frame: seq<byte>, rest: seq<byte>, stale: seq<byte>, tries: nat, sent: seq<byte>)
    returns (stale': seq<byte>, sent': seq<byte>)
    requires EOT !in frame && |stale| == BUFFER_SIZE && tries <= MAX_RETRIES
    ensures |stale'| == BUFFER_SIZE
    ensures Receive(frame + [EOT] + rest, stale, tries, sent) ==
            if Good(frame) then Received(Decode(frame).value, rest, sent)
            else Receive(rest, stale', tries + 1, sent')
  {
    hide ScanFrame;
    hide Good;
    AttemptAcceptsGood(frame, rest, stale);
    var s := ScanFrame(frame + [EOT] + rest, [], false, false);
    var v := Judge(s.stored, stale, s.bad, s.tooLong);
    hide Judge;
    stale', sent' := Overlay(Reply(v), Overlay(s.stored, stale)), sent + Sent(v);
  }

  lemma JoinFirst(frames: seq<seq<byte>>, tail: seq<byte>)
    requires frames != []
    ensures Join(frames) + tail == frames[0] + [EOT] + (Join(frames[1..]) + tail)
  {
  }

  /** What one turn of the retry loop makes of the input. */
  lemma ReceiveTurn(input: seq<byte>, stale: seq<byte>, tries: nat, sent: seq<byte>)
    requires |stale| == BUFFER_SIZE && tries <= MAX_RETRIES
    ensures match ScanFrame(input, [], false, false)
            case Lost => Receive(input, stale, tries, sent) == TransportLost(sent)
            case Scanned(stored, bad, tooLong, rest) =>
              |stored| <= BUFFER_SIZE
              && var v := Judge(stored, stale, bad, tooLong);
              Receive(input, stale, tries, sent) ==
              if v.Accept? then Received(stored, rest, sent)
              else Receive(rest, Overlay(Reply(v), Overlay(stored, stale)), tries + 1, sent + Sent(v))
  {
    ScanStaysInBuffer(input, [], false, false);
    hide ScanFrame;
    hide Judge;
    hide Sent;
    hide Reply;
  }

  lemma GivesUp(input: seq<byte>, stale: seq<byte>, tries: nat, sent: seq<byte>)
    requires |stale| == BUFFER_SIZE && tries > MAX_RETRIES
    ensures Receive(input, stale, tries, sent) == GaveUp(input, sent)
  {
    hide ScanFrame;
  }

  /**
   * The outcome of a reception on a sequence of frames: the message of the first good one among
   * those still to be tried, with the input left right behind it; with none of them good and
   * enough of them, a receiver that gave up behind the sixth.
   */
  ghost predicate Settles(frames: seq<seq<byte>>, tail: seq<byte>, tries: nat, r: Outcome)
    requires tries <= MAX_RETRIES + 1
  {
    var i := FirstGood(frames, tries);
    (i >= 0 ==> r.Received? && Decode(frames[i]) == Some(r.message) && r.rest == Join(frames[i + 1..]) + tail)
    && (i < 0 && tries + |frames| > MAX_RETRIES ==>
          r.GaveUp? && r.rest == Join(frames[MAX_RETRIES + 1 - tries..]) + tail)
  }

  lemma GoodDecodes(frame: seq<byte>)
    ensures Good(frame) ==> Decode(frame).Some?
  {
  }

  lemma SettlesLater(frames: seq<seq<byte>>, tail: seq<byte>, tries: nat, r: Outcome)
    requires frames != [] && tries <= MAX_RETRIES && !Good(frames[0])
    requires Settles(frames[1..], tail, tries + 1, r)
    ensures Settles(frames, tail, tries, r)
  {
    hide Good;
    hide Decode;
    hide Join;
    hide FirstGood;
    LaterGood(frames, tries);
    var i := FirstGood(frames[1..], tries + 1);
    if i >= 0 {
      DropTwice(frames, i + 1);
    } else if tries + |frames| > MAX_RETRIES {
      DropTwice(frames, MAX_RETRIES - tries);
    }
  }

  lemma LaterGood(frames: seq<seq<byte>>, tries: nat)
    requires frames != [] && tries <= MAX_RETRIES && !Good(frames[0])
    ensures var i := FirstGood(frames[1..], tries + 1); FirstGood(frames, tries) == if i < 0 then -1 else i + 1
  {
    hide Good;
  }

  lemma DropTwice<T>(s: seq<T>, k: nat)
    requires k < |s|
    ensures s[1..][k..] == s[k + 1..]
  {
  }

  lemma {:induction false} ReceptionFindsFirstGood(frames: seq<seq<byte>>, tail: seq<byte>, stale: seq<byte>,
                                                   tries: nat, sent: seq<byte>)
    requires |stale| == BUFFER_SIZE && tries <= MAX_RETRIES + 1
    requires forall f :: f in frames ==> EOT !in f
    ensures Settles(frames, tail, tries, Receive(Join(frames) + tail, stale, tries, sent))
    decreases |frames|
  {
    hide Receive;
    hide Good;
    hide Decode;
    if tries > MAX_RETRIES {
      GivesUp(Join(frames) + tail, stale, tries, sent);
      assert frames[0..] == frames;
    } else if frames != [] {
      var rest := Join(frames[1..]) + tail;
      JoinFirst(frames, tail);
      var stale', sent' := OneAttempt(frames[0], rest, stale, tries, sent);
      if Good(frames[0]) {
        GoodDecodes(frames[0]);
      } else {
        ReceptionFindsFirstGood(frames[1..], tail, stale', tries + 1, sent');
        hide Settles;
        SettlesLater(frames, tail, tries, Receive(rest, stale', tries + 1, sent'));
      }
    }
  }

  /** Everything the receiver sends back is itself a well-formed message. */
  lemma RepliesWellFormed(v: Verdict)
    ensures Reply(v) == [] <==> v.Accept? || v.Ignore?
    ensures Reply(v) != [] ==> WellFormed(Reply(v)) && Good(Encode(Reply(v)))
  {
    LrcCloses(ReplyHead(v));
    hide Lrc;
    DecodeEncode(Reply(v));
  }

  const NACKS: seq<byte> := [0xE0, 0, 0, 0xE0]
  const TOO_LONG: seq<byte> := [0x60, 0, 1, 0x12, 0x73]
  const NO_PROTOCOL: seq<byte> := [0x60, 0, 1, 0x09, 0x68]

  lemma RepliesAre()
    ensures Reply(Refuse) == NACKS && Reply(Overlong) == TOO_LONG && Reply(ProtocolError) == NO_PROTOCOL
    ensures Reply(Ignore) == [] && Reply(Accept) == []
  {
    LrcOfThree(0xE0, 0, 0);
    LrcOfFour(0x60, 0, 1, 0x12);
    LrcOfFour(0x60, 0, 1, 0x09);
    hide Lrc;
  }

  lemma LrcOfThree(a: byte, b: byte, c: byte)
    ensures Lrc([a, b, c]) == a ^ b ^ c
  {
    var s := [a, b, c];
    LrcNext(s, 0);
    LrcNext(s, 1);
    LrcNext(s, 2);
    assert s[..3] == s && Lrc(s[..0]) == 0;
    hide Lrc;
    XorOfFour(a, b, c, 0);
    XorEnds(a, b, c);
  }

  lemma XorEnds(a: byte, b: byte, c: byte)
    ensures 0 ^ a ^ b ^ c == a ^ b ^ c
  {
  }

  /** A scan reports a bad character exactly if the frame does not decode, whatever else is wrong with it. */
  lemma {:induction false} ScanFindsBad(frame: seq<byte>, rest: seq<byte>, stored: seq<byte>, tooLong: bool)
    requires EOT !in frame
    ensures var s := ScanFrame(frame + [EOT] + rest, stored, false, tooLong);
            s.Scanned? && (s.bad <==> Decode(frame).None?)
    decreases |frame|
  {
    var input := frame + [EOT] + rest;
    if |frame| <= 1 {
      assert input[|frame|] == EOT;
    } else {
      assert input[0] == frame[0] && input[1] == frame[1];
      assert input[2..] == frame[2..] + [EOT] + rest;
      var b := ByteOfPair(frame[0], frame[1]);
      if b.None? {
        ScanErrorsStick(frame[2..], rest, stored, true, tooLong);
      } else {
        ScanFindsBad(frame[2..], rest, stored, tooLong);
        ScanFindsBad(frame[2..], rest, stored, true);
        ScanFindsBad(frame[2..], rest, stored + [b.value], tooLong);
      }
    }
  }

  /** What is sent back for a frame, from what the frame carries: which reply answers which fault. */
  ghost predicate Answered(frame: seq<byte>, r: seq<byte>) {
    match Decode(frame)
    case None => r == NACKS
    case Some(m) =>
      if |m| > BUFFER_SIZE then r == TOO_LONG
      else if m == [] then r == []
      else if Lrc(m) != 0 then r == NACKS
      else if |m| < 4 then r == NACKS || r == NO_PROTOCOL
      else if LengthField(m) != |m| - 4 then r == NACKS
      else if m[0] != 0x60 && m[0] != 0xE0 then r == NO_PROTOCOL
      else r == []
  }

  /** One attempt answers a frame as the fault of the frame demands. */
  lemma FaultsAnswered(frame: seq<byte>, rest: seq<byte>, stale: seq<byte>)
    requires EOT !in frame && |stale| == BUFFER_SIZE
    ensures var s := ScanFrame(frame + [EOT] + rest, [], false, false);
            s.Scanned? && |s.stored| <= BUFFER_SIZE
            && Answered(frame, Reply(Judge(s.stored, stale, s.bad, s.tooLong)))
  {
    RepliesAre();
    ScanStaysInBuffer(frame + [EOT] + rest, [], false, false);
    ScanFindsBad(frame, rest, [], false);
    ScanDecodes(frame, rest, []);
    hide ScanFrame;
    hide Reply;
    var s := ScanFrame(frame + [EOT] + rest, [], false, false);
    if Decode(frame).Some? && !s.tooLong {
      var m := Decode(frame).value;
      assert [] + m == m;
      if m != [] {
        MessageAnswered(m, stale);
      }
    }
    hide Lrc;
    hide Decode;
    hide LengthField;
  }

  lemma MessageAnswered(m: seq<byte>, stale: seq<byte>)
    requires 0 < |m| <= BUFFER_SIZE == |stale|
    ensures var v := Judge(m, stale, false, false);
            if Lrc(m) != 0 then v == Refuse
            else if |m| < 4 then v == Refuse || v == ProtocolError
            else if LengthField(m) != |m| - 4 then v == Refuse
            else if m[0] != 0x60 && m[0] != 0xE0 then v == ProtocolError
            else v == Accept
  {
    if |m| >= 4 {
      LongAnswered(m, stale);
    } else {
      ShortAnswered(m, stale);
    }
    hide *;
  }

  lemma LongAnswered(m: seq<byte>, stale: seq<byte>)
    requires 4 <= |m| <= BUFFER_SIZE == |stale|
    ensures var v := Judge(m, stale, false, false);
            if Lrc(m) != 0 then v == Refuse
            else if LengthField(m) != |m| - 4 then v == Refuse
            else if m[0] != 0x60 && m[0] != 0xE0 then v == ProtocolError
            else v == Accept
  {
    LrcLast(m);
    JudgeIs(m, stale);
    hide Judge;
    hide Lrc;
    hide LengthField;
  }

  lemma JudgeIs(m: seq<byte>, stale: seq<byte>)
    requires 4 <= |m| <= BUFFER_SIZE == |stale|
    ensures Judge(m, stale, false, false) ==
            if m[|m| - 1] != Lrc(m[..|m| - 1]) || LengthField(m) != |m| - 4 then Refuse
            else if m[0] != 0x60 && m[0] != 0xE0 then ProtocolError
            else Accept
  {
    hide Lrc;
    hide LengthField;
    var last, buf := |m| - 1, Overlay(m, stale);
    assert buf[..last] == m[..last];
    LengthFieldFrom(buf, m);
  }

  lemma ShortAnswered(m: seq<byte>, stale: seq<byte>)
    requires 1 <= |m| < 4 && |stale| == BUFFER_SIZE
    ensures var v := Judge(m, stale, false, false);
            if Lrc(m) != 0 then v == Refuse else v == Refuse || v == ProtocolError
  {
    JudgeShort(m, stale);
    hide LengthField;
    LrcLast(m);
    hide Lrc;
    var last, buf := |m| - 1, Overlay(m, stale);
    assert buf[..last] == m[..last];
  }

  /** Up to five bad frames do not keep a well-formed message from being received. */
  lemma ReceiverRecovers(bad: seq<seq<byte>>, m: seq<byte>, tail: seq<byte>, stale: seq<byte>)
    requires |stale| == BUFFER_SIZE && |bad| <= MAX_RETRIES && WellFormed(m)
    requires forall f :: f in bad ==> EOT !in f && !Good(f)
    ensures var r := Receive(Join(bad) + Frame(m) + tail, stale, 0, []);
            r.Received? && r.message == m && r.rest == tail
  {
    hide Receive;
    hide Encode;
    hide Decode;
    hide WellFormed;
    var frames := bad + [Encode(m)];
    JoinAppend(bad, Encode(m));
    DecodeEncode(m);
    assert Join(frames) + tail == Join(bad) + Frame(m) + tail;
    ReceptionFindsFirstGood(frames, tail, stale, 0, []);
    FirstGoodIsFirst(frames, 0);
    var i := FirstGood(frames, 0);
    assert frames[|bad|] == Encode(m) && Good(frames[|bad|]);
    assert forall k :: 0 <= k < |bad| ==> frames[k] == bad[k] && bad[k] in bad;
    assert i == |bad|;
    assert frames[i + 1..] == [];
  }

  lemma {:induction false} JoinAppend(frames: seq<seq<byte>>, f: seq<byte>)
    ensures Join(frames + [f]) == Join(frames) + f + [EOT]
    decreases |frames|
  {
    if frames != [] {
      JoinAppend(frames[1..], f);
      assert (frames + [f])[1..] == frames[1..] + [f];
    } else {
      assert [f][1..] == [];
    }
  }

  // ----- one wrong character -----

  /**
   * A well-formed message received with one character replaced by anything but an EOT: the attempt yields the message,
   * exactly when the new character reads as the same nibble, or goes on behind the frame.
   */
  lemma WrongCharacterReceived(m: seq<byte>, i: nat, c: byte, tail: seq<byte>, stale: seq<byte>, tries: nat,
                               sent: seq<byte>)
    returns (stale': seq<byte>, sent': seq<byte>)
    requires WellFormed(m) && i < 2 * |m| && c != EOT && |stale| == BUFFER_SIZE && tries <= MAX_RETRIES
    ensures |stale'| == BUFFER_SIZE
    ensures Receive(Encode(m)[i := c] + [EOT] + tail, stale, tries, sent) ==
            if NibbleOf(c) == NibbleOf(Encode(m)[i]) then Received(m, tail, sent)
            else Receive(tail, stale', tries + 1, sent')
  {
    OneWrongCharacter(m, i, c);
    hide NibbleOf;
    hide Receive;
    hide Decode;
    hide WellFormed;
    stale', sent' := OneAttempt(Encode(m)[i := c], tail, stale, tries, sent);
  }

  /**
   * The same with an EOT, which makes two frames of one: the first is never accepted, and the second exactly when the
   * EOT stands in the place of a low nibble and the bytes behind it are themselves well formed. Those are then
   * received in place of the message.
   */
  lemma MisplacedEot(m: seq<byte>, i: nat, tail: seq<byte>, stale: seq<byte>, tries: nat, sent: seq<byte>)
    returns (stale': seq<byte>, sent': seq<byte>)
    requires WellFormed(m) && i < 2 * |m| && |stale| == BUFFER_SIZE && tries <= MAX_RETRIES
    ensures |stale'| == BUFFER_SIZE
    ensures Receive(Encode(m)[i := EOT] + [EOT] + tail, stale, tries, sent) ==
            if tries == MAX_RETRIES then GaveUp(Encode(m)[i + 1..] + [EOT] + tail, sent')
            else if i % 2 == 1 && WellFormed(m[i / 2 + 1..]) then Received(m[i / 2 + 1..], tail, sent')
            else Receive(tail, stale', tries + 2, sent')
  {
    hide *;
    var front, back := Encode(m)[..i], Encode(m)[i + 1..];
    SplitAt(Encode(m), i, tail);
    FrontIsNotGood(m, i);
    BackIsGoodIff(m, i);
    assert EOT !in front && EOT !in back;
    stale', sent' := OneAttempt(front, back + [EOT] + tail, stale, tries, sent);
    if tries == MAX_RETRIES {
      GivesUp(back + [EOT] + tail, stale', tries + 1, sent');
    } else {
      var stale2, sent2 := OneAttempt(back, tail, stale', tries + 1, sent');
      if !Good(back) {
        stale', sent' := stale2, sent2;
      }
    }
  }

  lemma SplitAt(f: seq<byte>, i: nat, tail: seq<byte>)
    requires i < |f|
    ensures f[i := EOT] + [EOT] + tail == f[..i] + [EOT] + (f[i + 1..] + [EOT] + tail)
  {
  }

  /** So one wrong character can make another message of one: 60 00 04 64 60 00 00 60 is received as its last half. */
  lemma OtherMessageReceived(tail: seq<byte>, stale: seq<byte>)
    requires |stale| == BUFFER_SIZE
    ensures var m: seq<byte> := [0x60, 0, 4, 0x64, 0x60, 0, 0, 0x60];
            var r := Receive(Encode(m)[7 := EOT] + [EOT] + tail, stale, 0, []);
            WellFormed(m) && r.Received? && r.message == [0x60, 0, 0, 0x60] && r.rest == tail
  {
    var m: seq<byte> := [0x60, 0, 4, 0x64, 0x60, 0, 0, 0x60];
    HalvesAreWellFormed();
    hide Receive;
    hide WellFormed;
    hide Encode;
    var _, _ := MisplacedEot(m, 7, tail, stale, 0, []);
  }

  lemma HalvesAreWellFormed()
    ensures var m: seq<byte> := [0x60, 0, 4, 0x64, 0x60, 0, 0, 0x60];
            WellFormed(m) && m[4..] == [0x60, 0, 0, 0x60] && WellFormed([0x60, 0, 0, 0x60])
  {
    var m: seq<byte> := [0x60, 0, 4, 0x64, 0x60, 0, 0, 0x60];
    LrcOfFour(0x60, 0, 0, 0x60);
    LrcOfFour(0x60, 0, 4, 0x64);
    assert m[..4] == [0x60, 0, 4, 0x64] && Lrc(m[..4]) == 0;
    LrcNext(m, 4);
    LrcNext(m, 5);
    LrcNext(m, 6);
    LrcNext(m, 7);
    assert m[..8] == m;
    hide Lrc;
  }

  lemma LrcNext(s: seq<byte>, k: nat)
    requires k < |s|
    ensures Lrc(s[..k + 1]) == Lrc(s[..k]) ^ s[k]
  {
    assert s[..k + 1][..k] == s[..k];
  }

  lemma LrcOfFour(a: byte, b: byte, c: byte, d: byte)
    ensures Lrc([a, b, c, d]) == a ^ b ^ c ^ d
  {
    var s := [a, b, c, d];
    LrcNext(s, 0);
    LrcNext(s, 1);
    LrcNext(s, 2);
    LrcNext(s, 3);
    assert s[..4] == s && Lrc(s[..0]) == 0;
    hide Lrc;
    XorOfFour(a, b, c, d);
  }

  lemma XorOfFour(a: byte, b: byte, c: byte, d: byte)
    ensures 0 ^ a ^ b ^ c ^ d == a ^ b ^ c ^ d
  {
  }

  // ----- a transport on which sending fails -----

  /** How a reception ends over a transport on which a send may fail; a failing send ends it. */
  datatype Delivery = Completed(outcome: Outcome) | SendFailed(rest: seq<byte>, sent: seq<byte>)

  /** Receive over a transport that sends `room` more bytes before a send fails. */
  function ReceiveOver(input: seq<byte>, stale: seq<byte>, tries: nat, sent: seq<byte>, room: nat): Delivery
    requires |stale| == BUFFER_SIZE
    decreases MAX_RETRIES + 1 - tries
  {
    if tries > MAX_RETRIES then Completed(GaveUp(input, sent)) else
    var s := ScanFrame(input, [], false, false);
    if s.Lost? then Completed(TransportLost(sent)) else
    ScanStaysInBuffer(input, [], false, false);
    var v := Judge(s.stored, stale, s.bad, s.tooLong);
    if v.Accept? then Completed(Received(s.stored, s.rest, sent))
    else if |Sent(v)| > room then SendFailed(s.rest, sent + Sent(v)[..room])
    else
      ReceiveOver(s.rest, Overlay(Reply(v), Overlay(s.stored, stale)), tries + 1, sent + Sent(v), room - |Sent(v)|)
  }

  /** What one turn of the retry loop makes of the input on such a transport. */
  lemma ReceiveOverTurn(input: seq<byte>, stale: seq<byte>, tries: nat, sent: seq<byte>, room: nat)
    requires |stale| == BUFFER_SIZE && tries <= MAX_RETRIES
    ensures match ScanFrame(input, [], false, false)
            case Lost => ReceiveOver(input, stale, tries, sent, room) == Completed(TransportLost(sent))
            case Scanned(stored, bad, tooLong, rest) =>
              |stored| <= BUFFER_SIZE
              && var v := Judge(stored, stale, bad, tooLong);
              ReceiveOver(input, stale, tries, sent, room) ==
              if v.Accept? then Completed(Received(stored, rest, sent))
              else if |Sent(v)| > room then SendFailed(rest, sent + Sent(v)[..room])
              else
                ReceiveOver(rest, Overlay(Reply(v), Overlay(stored, stale)), tries + 1, sent + Sent(v),
                            room - |Sent(v)|)
  {
    ScanStaysInBuffer(input, [], false, false);
    hide ScanFrame;
    hide Judge;
    hide Sent;
    hide Reply;
  }

  lemma OverGivesUp(input: seq<byte>, stale: seq<byte>, tries: nat, sent: seq<byte>, room: nat)
    requires |stale| == BUFFER_SIZE && tries > MAX_RETRIES
    ensures ReceiveOver(input, stale, tries, sent, room) == Completed(GaveUp(input, sent))
  {
    hide ScanFrame;
  }

  /**
   * A reception over such a transport is the one over a transport that always sends, if all its replies go out, and
   * is cut short at the first byte that does not otherwise.
   */
  lemma {:induction false} CutShortIff(input: seq<byte>, stale: seq<byte>, tries: nat, sent: seq<byte>, room: nat)
    requires |stale| == BUFFER_SIZE
    ensures var r, d := Receive(input, stale, tries, sent), ReceiveOver(input, stale, tries, sent, room);
            sent <= r.sent
            && if |r.sent| <= |sent| + room then d == Completed(r)
               else d.SendFailed? && d.sent == r.sent[..|sent| + room]
    decreases MAX_RETRIES + 1 - tries
  {
    hide ScanFrame;
    hide Judge;
    hide Receive;
    hide ReceiveOver;
    hide Sent;
    hide Reply;
    hide Overlay;
    if tries > MAX_RETRIES {
      GivesUp(input, stale, tries, sent);
      OverGivesUp(input, stale, tries, sent, room);
    } else {
      ReceiveTurn(input, stale, tries, sent);
      ReceiveOverTurn(input, stale, tries, sent, room);
      var s := ScanFrame(input, [], false, false);
      if s.Scanned? {
        var v := Judge(s.stored, stale, s.bad, s.tooLong);
        if !v.Accept? {
          var next, f := Overlay(Reply(v), Overlay(s.stored, stale)), Sent(v);
          CutShortIff(s.rest, next, tries + 1, sent + f, if |f| <= room then room - |f| else 0);
          Prefixes(sent, f, Receive(s.rest, next, tries + 1, sent + f).sent, room);
        }
      }
    }
  }

  lemma Prefixes(sent: seq<byte>, f: seq<byte>, all: seq<byte>, room: nat)
    requires sent + f <= all
    ensures sent <= all && (room < |f| ==> |all| > |sent| + room && all[..|sent| + room] == sent + f[..room])
  {
    assert (sent + f)[..|sent|] == sent && all[..|sent|] == (sent + f)[..|sent|];
    if room < |f| {
      assert all[..|sent| + room] == (sent + f)[..|sent| + room] == sent + f[..room];
    }
  }
}
