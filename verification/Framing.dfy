/** Length-prefixed messages over a reliable byte stream (src/SocketBase.cpp). */
module Framing {
  import opened Bytes
  import opened Streams

  const BUFFER_SIZE: nat := 0x10_0000

  type Frame = bytes

  function FrameBytes(f: Frame): (bs: bytes)
    ensures |bs| == 8 + |f|
  {
    Size(|f|) + f
  }

  function Wire(fs: seq<Frame>): bytes {
    if fs == [] then [] else FrameBytes(fs[0]) + Wire(fs[1..])
  }

  lemma {:induction false} WireAppend(a: seq<Frame>, b: seq<Frame>)
    ensures Wire(a + b) == Wire(a) + Wire(b)
  {
    hide FrameBytes;
    if a == [] {
      assert a + b == b;
    } else {
      WireAppend(a[1..], b);
      assert (a + b)[1..] == a[1..] + b;
      Associative(FrameBytes(a[0]), Wire(a[1..]), Wire(b));
    }
  }

  /** The frames in which a message travels: full buffers, then what is left, if anything is. */
  function Chunks(data: bytes): seq<Frame>
    decreases |data|
  {
    if |data| >= BUFFER_SIZE then [data[..BUFFER_SIZE]] + Chunks(data[BUFFER_SIZE..])
    else if data == [] then []
    else [data]
  }

  /** Every frame is non-empty and fits the receiver's buffer, there are as few as possible, and nothing is lost. */
  lemma {:induction false} ChunksCarry(data: bytes)
    ensures Concat(Chunks(data)) == data
    ensures forall f :: f in Chunks(data) ==> 0 < |f| <= BUFFER_SIZE
    ensures |Chunks(data)| == (|data| + BUFFER_SIZE - 1) / BUFFER_SIZE
    decreases |data|
  {
    if |data| >= BUFFER_SIZE {
      ChunksCarry(data[BUFFER_SIZE..]);
      assert Chunks(data)[1..] == Chunks(data[BUFFER_SIZE..]);
      assert data == data[..BUFFER_SIZE] + data[BUFFER_SIZE..];
    } else if data != [] {
      assert Concat([data]) == data + Concat([]);
    }
  }

  /** Every frame of a message but the last is full. */
  lemma {:induction false} ChunksAreFull(data: bytes, i: nat)
    requires i < |Chunks(data)| - 1
    ensures |Chunks(data)[i]| == 1_048_576
    decreases |data|
  {
    if i > 0 {
      assert Chunks(data)[i] == Chunks(data[BUFFER_SIZE..])[i - 1];
      ChunksAreFull(data[BUFFER_SIZE..], i - 1);
    }
  }

  /** A frame is eight bytes that are worth its length, and the message. */
  lemma FrameLayout(f: Frame)
    requires |f| < SIZE_MOD
    ensures FromLittleEndian(FrameBytes(f)[..8]) == |f| && FrameBytes(f)[8..] == f
  {
    SizeInverse(|f|, Size(|f|));
    hide FromLittleEndian, Size;
    assert FrameBytes(f)[..8] == Size(|f|);
  }

  lemma SingleChunk(data: bytes)
    requires |data| <= BUFFER_SIZE
    ensures Chunks(data) == if data == [] then [] else [data]
  {
    if |data| == BUFFER_SIZE {
      assert data[..BUFFER_SIZE] == data && data[BUFFER_SIZE..] == [];
    }
  }

  /** What the next receive makes of the bytes that are still to come from a peer that then closes. */
  function ParseFrame(incoming: bytes): Result<Frame> {
    var (field, rest) := (Take(incoming, 8), Skip(incoming, 8));
    if |field| < 8 then Err(ConnectionClosed)
    else
      var n := FromLittleEndian(field);
      if n > BUFFER_SIZE then Err(MessageTooLarge)
      else if |rest| < n then Err(ConnectionClosed)
      else Ok(Take(rest, n))
  }

  /** The next message is announced with more than 1 MiB. */
  predicate TooLongAhead(incoming: bytes) {
    |incoming| >= 8 && FromLittleEndian(incoming[..8]) > 1_048_576
  }

  /** Which error a receive ends with: a message that is too long is told from one that does not come. */
  lemma ParseFrameFails(incoming: bytes)
    ensures ParseFrame(incoming) == Err(MessageTooLarge) <==> TooLongAhead(incoming)
    ensures ParseFrame(incoming) == Err(ConnectionClosed) <==>
            !TooLongAhead(incoming) && (|incoming| < 8 || |incoming| < 8 + FromLittleEndian(incoming[..8]))
    ensures ParseFrame(incoming).Err? ==> ParseFrame(incoming).error in {MessageTooLarge, ConnectionClosed}
  {
    hide FromLittleEndian;
    if |incoming| >= 8 {
      assert Take(incoming, 8) == incoming[..8] && |Skip(incoming, 8)| == |incoming| - 8;
    }
  }

  /** A frame is received exactly when the bytes to come begin with it and it fits the buffer. */
  lemma ParseFrameIsInverse(f: Frame, incoming: bytes)
    ensures ParseFrame(incoming) == Ok(f) <==> FrameBytes(f) <= incoming && |f| <= BUFFER_SIZE
  {
    if FrameBytes(f) <= incoming && |f| <= BUFFER_SIZE {
      FrameParsed(f, incoming[|FrameBytes(f)|..]);
      assert incoming == FrameBytes(f) + incoming[|FrameBytes(f)|..];
    }
    if ParseFrame(incoming) == Ok(f) {
      var rest := FramePrinted(f, incoming);
    }
  }

  lemma FrameParsed(f: Frame, rest: bytes)
    requires |f| <= BUFFER_SIZE
    ensures ParseFrame(FrameBytes(f) + rest) == Ok(f)
  {
    hide Take, Skip;
    assert FrameBytes(f) + rest == Size(|f|) + (f + rest);
    TakeSkipConcat(Size(|f|), f + rest);
    TakeSkipConcat(f, rest);
    SizeInverse(|f|, Size(|f|));
  }

  lemma FramePrinted(f: Frame, incoming: bytes) returns (rest: bytes)
    requires ParseFrame(incoming) == Ok(f)
    ensures incoming == FrameBytes(f) + rest && |f| <= BUFFER_SIZE
  {
    hide Take, Skip;
    var field, behind := Take(incoming, 8), Skip(incoming, 8);
    TakeSkip(incoming, 8);
    TakeSkip(behind, |f|);
    SizeInverse(0, field);
    rest := Skip(behind, |f|);
    assert field + (f + rest) == field + f + rest;
  }

  /** Receiving frame after frame until the stream ends or breaks. */
  function ReceiveAll(incoming: bytes): seq<Frame>
    decreases |incoming|
  {
    match ParseFrame(incoming)
    case Ok(f) => [f] + ReceiveAll(Skip(incoming, 8 + |f|))
    case Err(_) => []
  }

  function SendAll(messages: seq<bytes>): seq<Frame> {
    if messages == [] then [] else Chunks(messages[0]) + SendAll(messages[1..])
  }

  lemma {:induction false} FramesArrive(fs: seq<Frame>)
    requires forall f :: f in fs ==> |f| <= BUFFER_SIZE
    ensures ReceiveAll(Wire(fs)) == fs
  {
    if fs != [] {
      var rest := Wire(fs[1..]);
      assert Wire(fs) == FrameBytes(fs[0]) + rest && fs == [fs[0]] + fs[1..];
      FrameParsed(fs[0], rest);
      TakeSkipConcat(FrameBytes(fs[0]), rest);
      FramesArrive(fs[1..]);
      hide Wire, FrameBytes, ParseFrame, Skip;
    }
  }

  /**
    The stream round trip: whatever messages are sent one after the other, the frames that arrive are the
    ones that were sent, all of them are accepted, and together they carry the messages in order.
  */
  lemma {:induction false} MessagesArrive(messages: seq<bytes>)
    ensures ReceiveAll(Wire(SendAll(messages))) == SendAll(messages)
    ensures Concat(SendAll(messages)) == Concat(messages)
    ensures forall f :: f in SendAll(messages) ==> 0 < |f| <= BUFFER_SIZE
  {
    if messages != [] {
      ChunksCarry(messages[0]);
      MessagesArrive(messages[1..]);
      ConcatAppend(Chunks(messages[0]), SendAll(messages[1..]));
    }
    FramesArrive(SendAll(messages));
  }

  function Ascii(s: string): bytes {
    seq(|s|, i requires 0 <= i < |s| => (s[i] as int % 256) as byte)
  }

  const ACK: Frame := Ascii("ACK")

  const ABORT: Frame := Ascii("abort")

  const TOO_LARGE: Frame := Ascii("Cannot receive message of this size.")

  /** What the receiver is told when the sender's next message would be n bytes long. */
  function Refusal(n: nat): (f: Frame)
    ensures f != []
  {
    Ascii("Somebody is trying to send " + Decimal(n) + " bytes in single message, which is more than allowed ("
          + Decimal(BUFFER_SIZE) + ")")
  }

  lemma RefusalFits(n: nat)
    requires n < SIZE_MOD
    ensures |Refusal(n)| <= BUFFER_SIZE && Refusal(n)[0] == 83
  {
    DecimalShort(n);
    DecimalShort(BUFFER_SIZE);
  }

  lemma AckIsNotAbort()
    ensures ACK == [65, 67, 75] && ABORT == [97, 98, 111, 114, 116]
    ensures ACK != ABORT && |ACK| == 3 && |ABORT| == 5
  {
  }

  /** What goes back to the peer when a message is received: a message that is too long is refused. */
  function Answer(r: Result<Frame>): bytes {
    if r == Err(MessageTooLarge) then Wire(Chunks(TOO_LARGE)) else []
  }

  /** A peer whose message is too long receives one message that says so; for any other it receives nothing. */
  lemma AnswerArrives(r: Result<Frame>)
    ensures ReceiveAll(Answer(r)) == if r == Err(MessageTooLarge) then [TOO_LARGE] else []
    ensures r == Err(MessageTooLarge) ==> Answer(r) == Wire([TOO_LARGE])
    ensures |TOO_LARGE| == 36
  {
    if r == Err(MessageTooLarge) {
      SingleChunk(TOO_LARGE);
      FramesArrive([TOO_LARGE]);
    }
  }

  /** The error with which waiting for an acknowledgement ends, given what comes. */
  function Acknowledged(r: Result<Frame>): Option<Error> {
    match r
    case Ok(f) => if f == ACK then None else Some(NotAcknowledged)
    case Err(e) => Some(e)
  }

  /**
    One end of a connection: the bytes the peer will have sent before it closes, less those received, and
    the bytes sent to it. Shutting the connection down is not recorded.
  */
  class Socket {
    var incoming: bytes
    var outgoing: bytes

    constructor (incoming: bytes)
      ensures this.incoming == incoming && outgoing == []
    {
      this.incoming, outgoing := incoming, [];
    }

    method SendChunk(data: bytes)
      modifies this`outgoing
      ensures outgoing == old(outgoing) + FrameBytes(data)
    {
      outgoing := outgoing + (Size(|data|) + data);
    }

    method Send(data: bytes)
      modifies this`outgoing
      ensures outgoing == old(outgoing) + Wire(Chunks(data))
    {
      hide Chunks, Wire, FrameBytes;
      var messageLength: nat, cursor: nat := |data|, 0;
      ghost var before, rest := outgoing, data;
      ghost var done: seq<Frame> := [];
      NothingSent(before, data);
      while messageLength >= BUFFER_SIZE
        invariant messageLength == |rest| && cursor + messageLength == |data| && rest == data[cursor..]
        invariant outgoing == before + Wire(done) && Chunks(data) == done + Chunks(rest)
      {
        FullChunk(done, rest);
        var chunk := data[cursor..cursor + BUFFER_SIZE];
        assert chunk == rest[..BUFFER_SIZE];
        SendChunk(chunk);
        SentOne(before, done, chunk);
        done, rest := done + [chunk], rest[BUFFER_SIZE..];
        messageLength := messageLength - BUFFER_SIZE;
        cursor := cursor + BUFFER_SIZE;
      }
      LastChunk(done, rest);
      if messageLength > 0 {
        SendChunk(data[cursor..]);
        SentOne(before, done, rest);
      }
    }

    method SendACK()
      modifies this`outgoing
      ensures outgoing == old(outgoing) + Wire([ACK])
    {
      SingleChunk(ACK);
      Send(ACK);
    }

    /** receive and receiveToBuffer, which differ only in where they put the message. */
    method Receive() returns (r: Result<Frame>)
      modifies this
      ensures r == ParseFrame(old(incoming))
      ensures outgoing == old(outgoing) + Answer(r)
      ensures r.Ok? ==> old(incoming) == FrameBytes(r.value) + incoming
    {
      hide Take, Skip, Chunks, Wire, Size, FromLittleEndian;
      assert outgoing + [] == outgoing;
      var field := Take(incoming, 8);
      TakeSkip(incoming, 8);
      if |field| < 8 {
        return Err(ConnectionClosed);
      }
      incoming := Skip(incoming, 8);
      var n := FromLittleEndian(field);
      if n > BUFFER_SIZE {
        Send(TOO_LARGE);
        return Err(MessageTooLarge);
      }
      if |incoming| < n {
        return Err(ConnectionClosed);
      }
      r := Ok(Take(incoming, n));
      TakeSkip(incoming, n);
      SizeInverse(0, field);
      incoming := Skip(incoming, n);
      Associative(field, r.value, incoming);
    }

    method ReceiveACK() returns (error: Option<Error>)
      modifies this
      ensures error == Acknowledged(ParseFrame(old(incoming)))
      ensures outgoing == old(outgoing) + Answer(ParseFrame(old(incoming)))
      ensures error.None? ==> old(incoming) == FrameBytes(ACK) + incoming
    {
      var response := Receive();
      if response.Err? {
        return Some(response.error);
      }
      if response.value != ACK {
        return Some(NotAcknowledged);
      }
      return None;
    }
  }

  lemma SentOne(before: bytes, done: seq<Frame>, chunk: Frame)
    ensures before + Wire(done) + FrameBytes(chunk) == before + Wire(done + [chunk])
  {
    WireAppend(done, [chunk]);
    assert Wire([chunk]) == FrameBytes(chunk) + Wire([]);
  }

  lemma NothingSent(before: bytes, data: bytes)
    ensures before == before + Wire([]) && Chunks(data) == [] + Chunks(data)
  {
  }

  lemma FullChunk(done: seq<Frame>, rest: bytes)
    requires |rest| >= BUFFER_SIZE
    ensures done + Chunks(rest) == done + [rest[..BUFFER_SIZE]] + Chunks(rest[BUFFER_SIZE..])
  {
  }

  lemma LastChunk(done: seq<Frame>, rest: bytes)
    requires |rest| < BUFFER_SIZE
    ensures done + Chunks(rest) == if rest == [] then done else done + [rest]
  {
  }
}
