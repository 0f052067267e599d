/** The TLP224 sender and receiver over a byte transport, with the message buffer they share. */
module TlpLink {
  import opened Bytes
  import opened Tlp
  import opened TlpReceiver

  /** The byte transport: what is still to be read, what has been written, and how much goes out before a send fails. */
  class Transport {
    var input: seq<byte>
    var sent: seq<byte>
    var room: nat

    method ReceiveByte() returns (ok: bool, b: byte)
      modifies this`input
      ensures ok == (old(input) != [])
      ensures ok ==> b == old(input)[0] && input == old(input)[1..]
      ensures !ok ==> input == old(input)
    {
      if input == [] {
        return false, 0;
      }
      b := input[0];
      input := input[1..];
      return true, b;
    }

    method SendByte(b: byte) returns (ok: bool)
      modifies this`sent, this`room
      ensures ok == (old(room) > 0)
      ensures sent == old(sent) + (if ok then [b] else []) && room == old(room) - if ok then 1 else 0
    {
      if room == 0 {
        return false;
      }
      sent, room := sent + [b], room - 1;
      return true;
    }
  }

  method ComputeLrc(buf: array<byte>, length: nat) returns (lrc: byte)
    requires length <= buf.Length
    ensures lrc == Lrc(buf[..length])
  {
    lrc := 0;
    for i := 0 to length
      invariant lrc == Lrc(buf[..i])
    {
      assert buf[..i + 1][..i] == buf[..i];
      lrc := lrc ^ buf[i];
    }
  }

  class Link {
    const transport: Transport
    const buf: array<byte>
    var len: nat

    ghost predicate Valid()
      reads this
    {
      buf.Length == BUFFER_SIZE && len <= BUFFER_SIZE
    }

    constructor (t: Transport)
      ensures Valid() && transport == t && fresh(buf)
    {
      transport := t;
      buf := new byte[BUFFER_SIZE](_ => 0);
      len := 0;
    }

    /** Sends the first `len` bytes of the buffer as one frame; an empty message is an error, so is a failing send. */
    method SendMessage() returns (ok: bool)
      requires Valid()
      modifies transport`sent, transport`room
      ensures var f := if len == 0 then [] else Frame(buf[..len]);
              ok == (len > 0 && |f| <= old(transport.room))
              && transport.sent == old(transport.sent) + f[..if ok then |f| else Least(|f|, old(transport.room))]
              && transport.room == old(transport.room) - if ok then |f| else Least(|f|, old(transport.room))
    {
      if len == 0 {
        return false;
      }
      hide Frame;
      hide HexPair;
      ghost var f := Frame(buf[..len]);
      FrameEnd(buf[..len]);
      for i := 0 to len
        invariant transport.sent == old(transport.sent) + f[..2 * i] && transport.room == old(transport.room) - 2 * i
      {
        var pair := HexPair(buf[i]);
        FrameAt(buf[..len], i);
        ok := transport.SendByte(pair[0]);
        if !ok {
          return false;
        }
        assert f[..2 * i + 1] == f[..2 * i] + [pair[0]];
        ok := transport.SendByte(pair[1]);
        if !ok {
          return false;
        }
        assert f[..2 * (i + 1)] == f[..2 * i + 1] + [pair[1]];
      }
      assert f == f[..2 * len] + [EOT];
      ok := transport.SendByte(EOT);
      assert f[..|f|] == f;
    }

    /** Reads characters into the buffer through the next EOT. */
    method ReadFrame() returns (lost: bool, got: nat, bad: bool, tooLong: bool)
      requires Valid()
      modifies transport`input, buf
      ensures got <= BUFFER_SIZE && buf[got..] == old(buf[got..])
      ensures ScanFrame(old(transport.input), [], false, false)
              == if lost then Lost else Scanned(buf[..got], bad, tooLong, transport.input)
    {
      lost, got, bad, tooLong := false, 0, false, false;
      while true
        invariant got <= BUFFER_SIZE && buf[got..] == old(buf[got..])
        invariant ScanFrame(old(transport.input), [], false, false) ==
                  ScanFrame(transport.input, buf[..got], bad, tooLong)
        decreases |transport.input|
      {
        hide ByteOfPair;
        var ok, hi := transport.ReceiveByte();
        if !ok {
          lost := true;
          return;
        }
        if hi == EOT {
          return;
        }
        var lo;
        ok, lo := transport.ReceiveByte();
        if !ok {
          lost := true;
          return;
        }
        if lo == EOT {
          bad := true;
          return;
        }
        var decoded := ByteOfPair(hi, lo);
        if decoded.None? {
          bad := true;
        } else if tooLong || bad {
        } else if got >= BUFFER_SIZE {
          tooLong := true;
        } else {
          ghost var stored := buf[..got];
          buf[got] := decoded.value;
          got := got + 1;
          assert buf[..got] == stored + [decoded.value];
        }
      }
    }

    /** The checks on a frame of `got` stored bytes. */
    method Check(got: nat, bad: bool, tooLong: bool, ghost stale: seq<byte>) returns (v: Verdict)
      requires Valid() && got <= BUFFER_SIZE == |stale| && buf[got..] == stale[got..]
      ensures v == Judge(buf[..got], stale, bad, tooLong) && buf[..] == Overlay(buf[..got], stale)
    {
      assert buf[..] == Overlay(buf[..got], stale);
      if bad {
        return Refuse;
      }
      if tooLong {
        return Overlong;
      }
      if got < 1 {
        return Ignore;
      }
      var lrc := ComputeLrc(buf, got - 1);
      assert buf[..got - 1] == buf[..][..got - 1];
      if buf[got - 1] != lrc {
        return Refuse;
      }
      var expected := 256 * (buf[1] as int) + buf[2] as int;
      if expected != (got - 4) % 0x1_0000 {
        return Refuse;
      }
      if buf[0] != ACK && buf[0] != NACK {
        return ProtocolError;
      }
      return Accept;
    }

    /** Writes the head of an answer: a type byte and a length of 0, or of 1 with a status. */
    method WriteHead(v: Verdict)
      requires Valid() && ReplyHead(v) != []
      modifies this`len, buf
      ensures Valid() && len <= 4 && buf[..len] == ReplyHead(v)
      ensures forall k :: len <= k < BUFFER_SIZE ==> buf[k] == old(buf[k])
    {
      buf[0], buf[1] := if v.Refuse? then NACK else ACK, 0;
      if v.Refuse? {
        buf[2], len := 0, 3;
        assert buf[..3] == [NACK, 0, 0];
      } else {
        buf[2], buf[3], len := 1, if v.Overlong? then STATUS_MESSAGE_TOO_LONG else STATUS_PROTOCOL_ERROR, 4;
        assert buf[..4] == [ACK, 0, 1, if v.Overlong? then STATUS_MESSAGE_TOO_LONG else STATUS_PROTOCOL_ERROR];
      }
    }

    /** Builds an answer and sends it. */
    method Answer(v: Verdict) returns (ok: bool)
      requires Valid() && ReplyHead(v) != []
      modifies this`len, buf, transport`sent, transport`room
      ensures Valid() && buf[..] == Overlay(Reply(v), old(buf[..]))
      ensures ok == (|Sent(v)| <= old(transport.room))
      ensures transport.sent == old(transport.sent) + if ok then Sent(v) else Sent(v)[..old(transport.room)]
      ensures ok ==> transport.room == old(transport.room) - |Sent(v)|
    {
      hide Frame;
      hide ReplyHead;
      hide Reply;
      hide Sent;
      ghost var before := buf[..];
      WriteHead(v);
      ReplyIs(v);
      Seal(v);
      assert buf[..] == buf[..len] + buf[len..];
      assert buf[len..] == before[len..];
      assert buf[..] == Overlay(Reply(v), before);
      hide Overlay;
      ok := SendMessage();
      assert Sent(v)[..|Sent(v)|] == Sent(v);
    }

    /** Appends the redundancy byte to the head of an answer. */
    method Seal(ghost v: Verdict)
      requires Valid() && ReplyHead(v) != [] && len <= 4 && buf[..len] == ReplyHead(v)
      modifies this`len, buf
      ensures Valid() && len == old(len) + 1 && buf[..len] == Reply(v)
      ensures forall k :: len <= k < BUFFER_SIZE ==> buf[k] == old(buf[k])
    {
      var lrc := ComputeLrc(buf, len);
      hide Lrc;
      hide ReplyHead;
      buf[len] := lrc;
      len := len + 1;
      assert buf[..len] == Close(ReplyHead(v));
    }

    /** One attempt: reads a frame, checks it and answers it unless it is accepted; a lost transport ends it. */
    method Attempt(ghost tries: nat) returns (lost: bool, v: Verdict, got: nat)
      requires Valid() && tries <= MAX_RETRIES
      modifies this`len, buf, transport
      ensures Valid() && got <= BUFFER_SIZE
      ensures var d := ReceiveOver(old(transport.input), old(buf[..]), tries, old(transport.sent), old(transport.room));
              if lost then
                d == Completed(TransportLost(transport.sent)) || d == SendFailed(transport.input, transport.sent)
              else if v.Accept? then d == Completed(Received(buf[..got], transport.input, transport.sent))
              else d == ReceiveOver(transport.input, buf[..], tries + 1, transport.sent, transport.room)
    {
      hide ScanFrame;
      hide Judge;
      hide Overlay;
      hide ReplyHead;
      hide Reply;
      hide Sent;
      ghost var stale := buf[..];
      ReceiveOverTurn(transport.input, stale, tries, transport.sent, transport.room);
      hide ReceiveOver;
      var bad, tooLong;
      v := Ignore;
      lost, got, bad, tooLong := ReadFrame();
      if lost {
        return;
      }
      assert buf[got..] == stale[got..];
      v := Check(got, bad, tooLong, stale);
      AnswersKnown(v);
      if v.Ignore? {
        IgnoreKeeps(buf[..]);
        assert transport.sent + [] == transport.sent;
      } else if !v.Accept? {
        var ok := Answer(v);
        lost := !ok;
      }
    }

    /** Receives a message: its length, or -1 when the transport ends, a reply cannot be sent or six frames are bad. */
    method ReceiveMessage() returns (r: int)
      requires Valid()
      modifies this`len, buf, transport
      ensures Valid()
      ensures match ReceiveOver(old(transport.input), old(buf[..]), 0, old(transport.sent), old(transport.room))
              case Completed(Received(m, rest, sent)) =>
                r == |m| == len && buf[..len] == m && transport.input == rest && transport.sent == sent
              case Completed(TransportLost(sent)) => r == -1 && transport.sent == sent
              case Completed(GaveUp(rest, sent)) => r == -1 && transport.input == rest && transport.sent == sent
              case SendFailed(rest, sent) => r == -1 && transport.input == rest && transport.sent == sent
    {
      hide ReceiveOver;
      var tries := 0;
      while tries <= MAX_RETRIES
        invariant Valid() && 0 <= tries <= MAX_RETRIES + 1
        invariant ReceiveOver(old(transport.input), old(buf[..]), 0, old(transport.sent), old(transport.room))
                  == ReceiveOver(transport.input, buf[..], tries, transport.sent, transport.room)
      {
        var lost, v, got := Attempt(tries);
        if lost {
          return -1;
        }
        if v.Accept? {
          len := got;
          return got;
        }
        tries := tries + 1;
      }
      OverGivesUp(transport.input, buf[..], tries, transport.sent, transport.room);
      return -1;
    }
  }

  function Least(a: nat, b: nat): nat {
    if a <= b then a else b
  }

  lemma ReplyIs(v: Verdict)
    requires ReplyHead(v) != []
    ensures Reply(v) == Close(ReplyHead(v)) && Sent(v) == Frame(Reply(v)) && |Reply(v)| > 0
  {
    hide ReplyHead;
    hide Lrc;
    hide Encode;
  }

  lemma IgnoreKeeps(b: seq<byte>)
    ensures Reply(Ignore) == [] && Sent(Ignore) == [] && Overlay([], b) == b
  {
  }

  lemma FrameEnd(m: seq<byte>)
    ensures |Frame(m)| == 2 * |m| + 1 && Frame(m)[2 * |m|] == EOT
  {
  }

  /** The characters of one byte of a message in its frame. */
  lemma FrameAt(m: seq<byte>, i: nat)
    requires i < |m|
    ensures var f := Frame(m); |f| == 2 * |m| + 1 && f[2 * i] == HexPair(m[i])[0] && f[2 * i + 1] == HexPair(m[i])[1]
  {
    EncodeAt(m, i);
    var e := Encode(m);
    assert e[2 * i] == e[2 * i..2 * i + 2][0] && e[2 * i + 1] == e[2 * i..2 * i + 2][1];
  }

  lemma AnswersKnown(v: Verdict)
    ensures ReplyHead(v) == [] <==> v.Accept? || v.Ignore?
  {
  }
}
