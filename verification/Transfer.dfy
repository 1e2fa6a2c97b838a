/**
  The counting loops of the three parties (src/server/ServerSideClientSession.cpp,
  src/client/DropFileReceiveClient.cpp, src/client/DropFileSendClient.cpp), each against whatever its
  peers have sent.
*/
module Transfer {
  import opened Bytes
  import opened Streams
  import opened Framing

  /** The frames the server sends on for the frames it took: never more than `expected` bytes in all. */
  function Clipped(fs: seq<Frame>, expected: nat): seq<Frame> {
    if fs == [] then []
    else
      var (front, last) := (fs[..|fs| - 1], fs[|fs| - 1]);
      Clipped(front, expected) + Chunks(last[..ClipSize(front, last, expected)])
  }

  /** How much of the next frame is sent on. */
  function ClipSize(taken: seq<Frame>, next: Frame, expected: nat): (w: nat)
    ensures w <= |next|
  {
    Min(expected - Min(expected, |Concat(taken)|), |next|)
  }

  lemma ClippedSnoc(fs: seq<Frame>, f: Frame, expected: nat)
    ensures Clipped(fs + [f], expected) == Clipped(fs, expected) + Chunks(f[..ClipSize(fs, f, expected)])
  {
    assert (fs + [f])[..|fs|] == fs;
  }

  /** Clipping and re-framing loses, adds and reorders nothing within the declared size. */
  lemma {:induction false} ClippedCarries(fs: seq<Frame>, expected: nat)
    ensures Concat(Clipped(fs, expected)) == Take(Concat(fs), expected)
    ensures forall f :: f in Clipped(fs, expected) ==> 0 < |f| <= BUFFER_SIZE
  {
    if fs != [] {
      var front, last := fs[..|fs| - 1], fs[|fs| - 1];
      var w := ClipSize(front, last, expected);
      ClippedCarries(front, expected);
      ChunksCarry(last[..w]);
      ConcatAppend(Clipped(front, expected), Chunks(last[..w]));
      ConcatSnoc(front, last);
      assert fs == front + [last];
      TakeMore(Concat(front), last, expected);
    }
  }

  lemma TakeMore(a: bytes, b: bytes, n: nat)
    ensures Take(a + b, n) == Take(a, n) + b[..Min(n - Min(n, |a|), |b|)]
  {
  }

  /** The server stopped reading as soon as it had enough. */
  predicate JustEnough(fs: seq<Frame>, expected: nat) {
    |Concat(fs)| >= expected && (fs != [] ==> |Concat(fs[..|fs| - 1])| < expected)
  }

  /** What a counting loop takes from its peer: the frames, what is left, and the error that ends it early. */
  datatype Gathered = Gathered(frames: seq<Frame>, rest: bytes, error: Option<Error>)

  function Onto(fs: seq<Frame>, g: Gathered): Gathered {
    g.(frames := fs + g.frames)
  }

  /** A counting loop that still expects some bytes, reading from a peer. */
  function Gather(incoming: bytes, expected: nat): Gathered
    decreases |incoming|
  {
    if expected == 0 then Gathered([], incoming, None)
    else match ParseFrame(incoming)
      case Err(e) => Gathered([], incoming, Some(e))
      case Ok(f) => Onto([f], Gather(Skip(incoming, 8 + |f|), expected - Min(expected, |f|)))
  }

  lemma JustEnoughStep(f: Frame, fs: seq<Frame>, expected: nat)
    ensures JustEnough([f] + fs, expected) <==> expected > 0 && JustEnough(fs, expected - Min(expected, |f|))
  {
    assert ([f] + fs)[1..] == fs;
    if fs != [] {
      var front := fs[..|fs| - 1];
      assert ([f] + fs)[..|fs|] == [f] + front && ([f] + front)[1..] == front;
    } else {
      assert ([f] + fs)[..|fs|] == [];
    }
  }

  /** The peer sent these frames, and they are just enough. */
  predicate Sufficient(incoming: bytes, expected: nat, fs: seq<Frame>, rest: bytes) {
    incoming == Wire(fs) + rest && (forall f :: f in fs ==> |f| <= BUFFER_SIZE) && JustEnough(fs, expected)
  }

  /** A counting loop succeeds with some frames exactly when the peer sent these and they are just enough. */
  lemma {:induction false} GatherExactly(incoming: bytes, expected: nat, fs: seq<Frame>, rest: bytes)
    ensures Gather(incoming, expected) == Gathered(fs, rest, None) <==> Sufficient(incoming, expected, fs, rest)
    decreases |incoming|
  {
    if expected == 0 || fs == [] {
      assert [] + rest == rest && Wire([]) == [];
    } else {
      hide Gather, Sufficient, FrameBytes;
      GatherStep(incoming, expected, fs, rest);
      SufficientStep(incoming, expected, fs, rest);
      if FrameBytes(fs[0]) <= incoming {
        GatherExactly(Skip(incoming, 8 + |fs[0]|), expected - Min(expected, |fs[0]|), fs[1..], rest);
      }
    }
  }

  lemma SufficientStep(incoming: bytes, expected: nat, fs: seq<Frame>, rest: bytes)
    requires expected > 0 && fs != []
    ensures Sufficient(incoming, expected, fs, rest) <==>
            && FrameBytes(fs[0]) <= incoming && |fs[0]| <= BUFFER_SIZE
            && Sufficient(Skip(incoming, 8 + |fs[0]|), expected - Min(expected, |fs[0]|), fs[1..], rest)
  {
    var f, later := fs[0], fs[1..];
    assert fs == [f] + later;
    assert forall g :: g in fs <==> g == f || g in later;
    JustEnoughStep(f, later, expected);
    Associative(FrameBytes(f), Wire(later), rest);
    assert Wire(fs) == FrameBytes(f) + Wire(later);
    hide FrameBytes, Wire, JustEnough;
    TakeSkipConcat(FrameBytes(f), Wire(later) + rest);
    if FrameBytes(f) <= incoming {
      assert incoming == FrameBytes(f) + Skip(incoming, 8 + |f|);
    }
  }

  lemma GatherStep(incoming: bytes, expected: nat, fs: seq<Frame>, rest: bytes)
    requires expected > 0 && fs != []
    ensures Gather(incoming, expected) == Gathered(fs, rest, None) <==>
            && FrameBytes(fs[0]) <= incoming && |fs[0]| <= BUFFER_SIZE
            && Gather(Skip(incoming, 8 + |fs[0]|), expected - Min(expected, |fs[0]|)) == Gathered(fs[1..], rest, None)
  {
    hide Gather, ParseFrame, FrameBytes, Skip;
    ParseFrameIsInverse(fs[0], incoming);
    var r := ParseFrame(incoming);
    if r.Ok? {
      GatherOk(incoming, expected, r.value);
      var g := Gather(Skip(incoming, 8 + |r.value|), expected - Min(expected, |r.value|));
      assert ([r.value] + g.frames)[0] == r.value && ([r.value] + g.frames)[1..] == g.frames;
      assert fs == [fs[0]] + fs[1..];
    } else {
      GatherFails(incoming, expected, r.error);
    }
  }

  lemma GatherOk(incoming: bytes, expected: nat, f: Frame)
    requires expected > 0 && ParseFrame(incoming) == Ok(f)
    ensures Gather(incoming, expected) == Onto([f], Gather(Skip(incoming, 8 + |f|), expected - Min(expected, |f|)))
  {
  }

  lemma OntoTwice(fs: seq<Frame>, f: Frame, g: Gathered)
    ensures Onto(fs, Onto([f], g)) == Onto(fs + [f], g)
  {
    assert fs + ([f] + g.frames) == fs + [f] + g.frames;
  }

  lemma OntoNothing(g: Gathered)
    ensures Onto([], g) == g
  {
    assert [] + g.frames == g.frames;
  }

  /** What a counting loop has taken when it ends early: every message that came, not enough, then an error. */
  ghost predicate RanOut(incoming: bytes, expected: nat, fs: seq<Frame>, rest: bytes, e: Error) {
    && incoming == Wire(fs) + rest && (forall f :: f in fs ==> |f| <= BUFFER_SIZE)
    && |Concat(fs)| < expected && ParseFrame(rest) == Err(e)
  }

  lemma RanOutStep(f: Frame, behind: bytes, expected: nat, fs: seq<Frame>, rest: bytes, e: Error)
    requires |f| <= BUFFER_SIZE && |f| < expected && RanOut(behind, expected - |f|, fs, rest, e)
    ensures RanOut(FrameBytes(f) + behind, expected, [f] + fs, rest, e)
  {
    hide ParseFrame, FrameBytes;
    assert ([f] + fs)[1..] == fs;
    Associative(FrameBytes(f), Wire(fs), rest);
  }

  /** It has just enough, or the messages have run out. */
  ghost predicate Ended(incoming: bytes, expected: nat, g: Gathered) {
    if g.error.None? then Sufficient(incoming, expected, g.frames, g.rest)
    else RanOut(incoming, expected, g.frames, g.rest, g.error.value)
  }

  /** A counting loop ends in one of these two ways, whatever bytes come. */
  lemma {:induction false} GatherEnds(incoming: bytes, expected: nat)
    ensures Ended(incoming, expected, Gather(incoming, expected))
    decreases |incoming|
  {
    hide Gather, ParseFrame, FrameBytes, Wire, RanOut, Sufficient, Ended, Skip;
    var r := ParseFrame(incoming);
    if expected == 0 {
      GatherDone(incoming);
      EndsAtOnce(incoming);
    } else if r.Err? {
      GatherFails(incoming, expected, r.error);
      EndsWithError(incoming, expected, r.error);
    } else {
      var f := r.value;
      GatherOk(incoming, expected, f);
      var rest := FramePrinted(f, incoming);
      FirstTaken(f, rest);
      GatherEnds(rest, expected - Min(expected, |f|));
      EndsStep(f, rest, expected, Gather(rest, expected - Min(expected, |f|)));
    }
  }

  lemma EndsAtOnce(incoming: bytes)
    ensures Ended(incoming, 0, Gathered([], incoming, None))
  {
    assert Wire([]) + incoming == incoming;
  }

  lemma EndsWithError(incoming: bytes, expected: nat, e: Error)
    requires expected > 0 && ParseFrame(incoming) == Err(e)
    ensures Ended(incoming, expected, Gathered([], incoming, Some(e)))
  {
    hide ParseFrame;
    assert Wire([]) + incoming == incoming;
  }

  lemma EndsStep(f: Frame, behind: bytes, expected: nat, later: Gathered)
    requires |f| <= BUFFER_SIZE && expected > 0 && Ended(behind, expected - Min(expected, |f|), later)
    ensures Ended(FrameBytes(f) + behind, expected, Onto([f], later))
  {
    hide ParseFrame, FrameBytes, Wire, RanOut, Sufficient, Skip;
    if later.error.None? {
      var fs, incoming := [f] + later.frames, FrameBytes(f) + behind;
      assert fs[0] == f && fs[1..] == later.frames && FrameBytes(f) <= incoming;
      FirstTaken(f, behind);
      SufficientStep(incoming, expected, fs, later.rest);
    } else {
      StillMissing(behind, expected - Min(expected, |f|), later.frames, later.rest, later.error.value);
      RanOutStep(f, behind, expected, later.frames, later.rest, later.error.value);
    }
  }

  lemma StillMissing(incoming: bytes, expected: nat, fs: seq<Frame>, rest: bytes, e: Error)
    requires RanOut(incoming, expected, fs, rest, e)
    ensures expected > 0
  {
  }

  lemma FirstTaken(f: Frame, rest: bytes)
    ensures Skip(FrameBytes(f) + rest, 8 + |f|) == rest
  {
    TakeSkipConcat(FrameBytes(f), rest);
  }

  /** What the server does for a receiver with a sender: what it sends to each, and how it ends. */
  datatype Served = Served(toReceiver: bytes, toSender: bytes, error: Option<Error>)

  function Serve(fromReceiver: bytes, fromSender: bytes, metadata: bytes, expected: nat): Served {
    var (offer, start) := (Wire(Chunks(metadata)), Wire([ACK]));
    var first := ParseFrame(fromReceiver);
    if Acknowledged(first).Some? then Served(offer + Answer(first), [], Acknowledged(first))
    else
      var taken := Gather(fromSender, expected);
      var relayed := offer + Wire(Clipped(taken.frames, expected));
      if taken.error.Some? then Served(relayed, start + Answer(Err(taken.error.value)), taken.error)
      else
        var last := ParseFrame(Skip(fromReceiver, |FrameBytes(ACK)|));
        Served(relayed + Answer(last), if Acknowledged(last).None? then start + start else start, Acknowledged(last))
  }

  /** ServerSideClientSession::receiveFile. */
  method ReceiveFile(receiver: Socket, sender: Socket, metadata: bytes, expected: nat) returns (error: Option<Error>)
    requires receiver != sender
    modifies receiver, sender
    ensures var served := Serve(old(receiver.incoming), old(sender.incoming), metadata, expected);
            && error == served.error && receiver.outgoing == old(receiver.outgoing) + served.toReceiver
            && sender.outgoing == old(sender.outgoing) + served.toSender
  {
    hide Chunks, Wire, ParseFrame, Clipped, Concat, FrameBytes, Gather, Answer;
    ghost var toReceiver, toSender := receiver.outgoing, sender.outgoing;
    ghost var fromReceiver, fromSender := receiver.incoming, sender.incoming;
    ghost var frames: seq<Frame> := [];
    receiver.Send(metadata);
    ghost var base := receiver.outgoing;
    error := receiver.ReceiveACK();
    if error.Some? {
      Associative(toReceiver, Wire(Chunks(metadata)), Answer(ParseFrame(fromReceiver)));
      assert toSender + [] == toSender;
      return;
    }
    AnswerToAck(ParseFrame(fromReceiver), base);
    sender.SendACK();
    ghost var started := sender.outgoing;
    ghost var acknowledged := receiver.incoming;
    FirstAckTaken(fromReceiver, acknowledged);
    var total: nat := 0;
    NothingRelayed(base, expected);
    OntoNothing(Gather(fromSender, expected));
    while total < expected
      invariant total == Min(expected, |Concat(frames)|)
      invariant Gather(fromSender, expected) == Onto(frames, Gather(sender.incoming, expected - total))
      invariant receiver.outgoing == base + Wire(Clipped(frames, expected))
      invariant receiver.incoming == acknowledged && sender.outgoing == started
      decreases |sender.incoming|
    {
      ghost var here := sender.incoming;
      var data := sender.Receive();
      if data.Err? {
        GatherFails(here, expected - total, data.error);
        assert frames + [] == frames;
        Associative(toReceiver, Wire(Chunks(metadata)), Wire(Clipped(frames, expected)));
        Associative(toSender, Wire([ACK]), Answer(data));
        return Some(data.error);
      }
      AnswerToFrame(data, started);
      var left := expected - total;
      var writeSize := Min(left, |data.value|);
      receiver.Send(data.value[..writeSize]);
      GatherOne(here, left, data.value, sender.incoming);
      OntoTwice(frames, data.value, Gather(sender.incoming, left - writeSize));
      OneRelayed(base, frames, data.value, expected);
      total := total + writeSize;
      frames := frames + [data.value];
    }
    GatherDone(sender.incoming);
    assert frames + [] == frames;
    error := receiver.ReceiveACK();
    ghost var last := ParseFrame(acknowledged);
    ghost var relayed := Wire(Clipped(frames, expected));
    Associative(toReceiver, Wire(Chunks(metadata)), relayed);
    Associative(toReceiver, Wire(Chunks(metadata)) + relayed, Answer(last));
    if error.Some? {
      return;
    }
    sender.SendACK();
    Associative(toSender, Wire([ACK]), Wire([ACK]));
  }

  lemma AnswerToFrame(r: Result<Frame>, base: bytes)
    requires r.Ok?
    ensures base + Answer(r) == base
  {
    assert base + [] == base;
  }

  lemma AnswerToAck(r: Result<Frame>, base: bytes)
    requires Acknowledged(r).None?
    ensures base + Answer(r) == base
  {
    AnswerToFrame(r, base);
  }

  lemma FirstAckTaken(before: bytes, after: bytes)
    requires before == FrameBytes(ACK) + after
    ensures after == Skip(before, |FrameBytes(ACK)|)
  {
    TakeSkipConcat(FrameBytes(ACK), after);
  }

  lemma GatherDone(incoming: bytes)
    ensures Gather(incoming, 0) == Gathered([], incoming, None)
  {
  }

  lemma GatherFails(incoming: bytes, expected: nat, e: Error)
    requires expected > 0 && ParseFrame(incoming) == Err(e)
    ensures Gather(incoming, expected) == Gathered([], incoming, Some(e))
  {
  }

  lemma GatherOne(incoming: bytes, expected: nat, f: Frame, rest: bytes)
    requires expected > 0 && ParseFrame(incoming) == Ok(f) && incoming == FrameBytes(f) + rest
    ensures Gather(incoming, expected) == Onto([f], Gather(rest, expected - Min(expected, |f|)))
  {
    GatherOk(incoming, expected, f);
    TakeSkipConcat(FrameBytes(f), rest);
  }

  /** Without a confirmation no file byte goes to the receiver and nothing to the sender. */
  lemma ServeRefuses(fromReceiver: bytes, fromSender: bytes, metadata: bytes, expected: nat)
    requires ParseFrame(fromReceiver) != Ok(ACK)
    ensures var served := Serve(fromReceiver, fromSender, metadata, expected);
            && served.error.Some? && served.toSender == []
            && served.toReceiver == Wire(Chunks(metadata)) + Answer(ParseFrame(fromReceiver))
            && (ParseFrame(fromReceiver).Ok? ==>
                  served.error == Some(NotAcknowledged) && served.toReceiver == Wire(Chunks(metadata)))
  {
    if ParseFrame(fromReceiver).Ok? {
      AnswerToFrame(ParseFrame(fromReceiver), Wire(Chunks(metadata)));
    }
  }

  /**
    A transfer succeeds exactly when the receiver acknowledges twice and the sender's frames are just
    enough in between. Then the receiver has been sent precisely the declared bytes, in non-empty frames,
    and the sender two acknowledgements.
  */
  lemma ServeExactly(fromReceiver: bytes, fromSender: bytes, metadata: bytes, expected: nat)
    returns (fs: seq<Frame>, rest: bytes)
    ensures var served := Serve(fromReceiver, fromSender, metadata, expected);
            && (served.error.None? ==> Sufficient(fromSender, expected, fs, rest))
            && ((exists fs', rest' :: Sufficient(fromSender, expected, fs', rest')) ==>
                  (served.error.None? <==> Wire([ACK]) + Wire([ACK]) <= fromReceiver))
            && (served.error.None? ==>
                  && served.toReceiver == Wire(Chunks(metadata)) + Wire(Clipped(fs, expected))
                  && Concat(Clipped(fs, expected)) == Concat(fs)[..expected]
                  && served.toSender == Wire([ACK]) + Wire([ACK]))
  {
    hide Chunks, Wire, Concat, Clipped, Gather, ParseFrame, FrameBytes;
    var taken := Gather(fromSender, expected);
    fs, rest := taken.frames, taken.rest;
    GatherExactly(fromSender, expected, fs, rest);
    if fs', rest' :| Sufficient(fromSender, expected, fs', rest') {
      GatherExactly(fromSender, expected, fs', rest');
    }
    TwoAcksAhead(fromReceiver);
    if ParseFrame(fromReceiver) == Ok(ACK) && taken.error.None? {
      var last := ParseFrame(Skip(fromReceiver, |FrameBytes(ACK)|));
      if last == Ok(ACK) {
        AnswerToFrame(last, Wire(Chunks(metadata)) + Wire(Clipped(fs, expected)));
        ClippedCarries(fs, expected);
      }
    }
  }

  /** The sender's messages are just enough, whatever comes behind them. */
  ghost predicate Enough(fromSender: bytes, expected: nat) {
    exists fs, rest :: Sufficient(fromSender, expected, fs, rest)
  }

  /**
    Once the receiver has confirmed, the server takes the sender's messages one after the other, and what it
    sends says exactly how far it got. The sender is sent two acknowledgements if and only if its messages
    were enough and the receiver has acknowledged a second time. In every other case it is sent one, and the
    refusal behind it if its next message is too long. When its messages run out, the receiver has been sent
    all they carried.
  */
  lemma ServeStarted(fromReceiver: bytes, fromSender: bytes, metadata: bytes, expected: nat)
    returns (fs: seq<Frame>, rest: bytes)
    requires Wire([ACK]) <= fromReceiver
    ensures fromSender == Wire(fs) + rest && forall f :: f in fs ==> |f| <= BUFFER_SIZE
    ensures var served, offer := Serve(fromReceiver, fromSender, metadata, expected), Wire(Chunks(metadata));
            if Enough(fromSender, expected) then
              && JustEnough(fs, expected) && Concat(Clipped(fs, expected)) == Concat(fs)[..expected]
              && served.toReceiver == offer + Wire(Clipped(fs, expected))
                                      + (if TooLongAhead(Skip(fromReceiver, |Wire([ACK])|)) then Wire([TOO_LARGE])
                                         else [])
              && (served.error.None? <==> Wire([ACK]) + Wire([ACK]) <= fromReceiver)
              && served.toSender ==
                 if Wire([ACK]) + Wire([ACK]) <= fromReceiver then Wire([ACK]) + Wire([ACK]) else Wire([ACK])
            else
              && |Concat(fs)| < expected && ParseFrame(rest).Err? && served.error == Some(ParseFrame(rest).error)
              && served.toReceiver == offer + Wire(Clipped(fs, expected)) && Concat(Clipped(fs, expected)) == Concat(fs)
              && served.toSender == Wire([ACK]) + if TooLongAhead(rest) then Wire([TOO_LARGE]) else []
  {
    hide Chunks, Wire, Concat, Clipped, Gather, ParseFrame, FrameBytes, Sufficient, RanOut, Answer;
    var taken := Gather(fromSender, expected);
    fs, rest := taken.frames, taken.rest;
    GatherEnds(fromSender, expected);
    assert Ended(fromSender, expected, taken);
    OneAckAhead(fromReceiver);
    TwoAcksAhead(fromReceiver);
    ClippedCarries(fs, expected);
    EnoughExactly(fromSender, expected);
    if taken.error.None? {
      SufficientMeans(fromSender, expected, fs, rest);
      StartedEnough(fromReceiver, fromSender, metadata, expected);
      WireOne(ACK);
      AnswerToNext(Skip(fromReceiver, |FrameBytes(ACK)|));
      assert Take(Concat(fs), expected) == Concat(fs)[..expected];
    } else {
      RanOutMeans(fromSender, expected, fs, rest, taken.error.value);
      AnswerToNext(rest);
      assert Take(Concat(fs), expected) == Concat(fs);
    }
  }

  /** What the server sends once the sender's messages were enough. */
  lemma StartedEnough(fromReceiver: bytes, fromSender: bytes, metadata: bytes, expected: nat)
    requires ParseFrame(fromReceiver) == Ok(ACK) && Gather(fromSender, expected).error.None?
    ensures var served := Serve(fromReceiver, fromSender, metadata, expected);
            var last := ParseFrame(Skip(fromReceiver, |FrameBytes(ACK)|));
            var relayed := Wire(Clipped(Gather(fromSender, expected).frames, expected));
            && served.toReceiver == Wire(Chunks(metadata)) + relayed + Answer(last)
            && (served.error.None? <==> last == Ok(ACK))
            && served.toSender == if last == Ok(ACK) then Wire([ACK]) + Wire([ACK]) else Wire([ACK])
  {
    hide Chunks, Wire, Clipped, Gather, ParseFrame, FrameBytes, Answer, Skip;
  }

  lemma EnoughExactly(fromSender: bytes, expected: nat)
    ensures Enough(fromSender, expected) <==> Gather(fromSender, expected).error.None?
  {
    hide Gather, Sufficient;
    var g := Gather(fromSender, expected);
    GatherExactly(fromSender, expected, g.frames, g.rest);
    if fs, rest :| Sufficient(fromSender, expected, fs, rest) {
      GatherExactly(fromSender, expected, fs, rest);
    }
  }

  lemma SufficientMeans(incoming: bytes, expected: nat, fs: seq<Frame>, rest: bytes)
    requires Sufficient(incoming, expected, fs, rest)
    ensures incoming == Wire(fs) + rest && (forall f :: f in fs ==> |f| <= BUFFER_SIZE)
    ensures JustEnough(fs, expected) && |Concat(fs)| >= expected
  {
    hide Wire, Concat;
  }

  lemma RanOutMeans(incoming: bytes, expected: nat, fs: seq<Frame>, rest: bytes, e: Error)
    requires RanOut(incoming, expected, fs, rest, e)
    ensures incoming == Wire(fs) + rest && (forall f :: f in fs ==> |f| <= BUFFER_SIZE)
    ensures |Concat(fs)| < expected && ParseFrame(rest) == Err(e)
  {
    hide Wire, Concat, ParseFrame;
  }

  lemma AnswerToNext(incoming: bytes)
    ensures Answer(ParseFrame(incoming)) == if TooLongAhead(incoming) then Wire([TOO_LARGE]) else []
  {
    hide ParseFrame, Wire;
    ParseFrameFails(incoming);
    AnswerArrives(ParseFrame(incoming));
  }

  lemma OneAckAhead(incoming: bytes)
    ensures Wire([ACK]) <= incoming <==> ParseFrame(incoming) == Ok(ACK)
  {
    hide ParseFrame, FrameBytes, Wire;
    WireOne(ACK);
    AckIsNotAbort();
    ParseFrameIsInverse(ACK, incoming);
  }

  lemma TwoAcksAhead(incoming: bytes)
    ensures Wire([ACK]) + Wire([ACK]) <= incoming <==>
            ParseFrame(incoming) == Ok(ACK) && ParseFrame(Skip(incoming, |FrameBytes(ACK)|)) == Ok(ACK)
  {
    hide ParseFrame, FrameBytes, Wire;
    WireOne(ACK);
    AckIsNotAbort();
    var a, behind := FrameBytes(ACK), Skip(incoming, |FrameBytes(ACK)|);
    ParseFrameIsInverse(ACK, incoming);
    ParseFrameIsInverse(ACK, behind);
    if a <= incoming {
      assert incoming == a + behind;
      if a <= behind {
        assert behind == a + behind[|a|..];
        assert incoming == a + a + behind[|a|..];
      }
      if a + a <= incoming {
        assert incoming == a + a + incoming[|a + a|..];
        assert incoming[|a|..] == a + incoming[|a + a|..];
      }
    }
  }

  lemma WireOne(f: Frame)
    ensures Wire([f]) == FrameBytes(f)
  {
    assert FrameBytes(f) + [] == FrameBytes(f);
    assert Wire([]) == [];
  }

  lemma NothingRelayed(base: bytes, expected: nat)
    ensures base == base + Wire(Clipped([], expected)) && Concat([]) == []
  {
  }

  /** One round of the server's loop, as its receiver sees it. */
  lemma OneRelayed(base: bytes, frames: seq<Frame>, f: Frame, expected: nat)
    ensures |Concat(frames + [f])| == |Concat(frames)| + |f|
    ensures base + Wire(Clipped(frames, expected)) + Wire(Chunks(f[..ClipSize(frames, f, expected)])) ==
            base + Wire(Clipped(frames + [f], expected))
  {
    hide Wire, Chunks, Clipped;
    ConcatSnoc(frames, f);
    ClippedSnoc(frames, f, expected);
    WireAppend(Clipped(frames, expected), Chunks(f[..ClipSize(frames, f, expected)]));
    Associative(base, Wire(Clipped(frames, expected)), Wire(Chunks(f[..ClipSize(frames, f, expected)])));
  }

  /** DropFileReceiveClient::getUserConfirmation. */
  method GetUserConfirmation(confirmation: char, socket: Socket) returns (error: Option<Error>)
    modifies socket`outgoing
    ensures error == if confirmation == 'y' then None else Some(Declined)
    ensures socket.outgoing == old(socket.outgoing) + Wire([if confirmation == 'y' then ACK else ABORT])
  {
    if confirmation != 'y' {
      SingleChunk(ABORT);
      socket.Send(ABORT);
      return Some(Declined);
    }
    socket.SendACK();
    return None;
  }

  /**
    DropFileReceiveClient::receiveFileImpl: the output file receives the declared number of bytes of what
    comes, or what came before an error; it is acknowledged if and only if all came.
  */
  method ReceiveFileImpl(socket: Socket, file: OutStream, expected: nat,
                         alreadyExists: bool) returns (error: Option<Error>)
    requires file.beyond == []
    modifies socket, file
    ensures file.beyond == []
    ensures alreadyExists ==>
              error == Some(FileExists) && file.before == old(file.before) && socket.outgoing == old(socket.outgoing)
    ensures !alreadyExists ==>
              var taken := Gather(old(socket.incoming), expected);
              && error == taken.error
              && file.before == old(file.before) + Take(Concat(taken.frames), expected)
              && socket.outgoing == old(socket.outgoing)
                                    + if taken.error.None? then Wire([ACK]) else Answer(Err(taken.error.value))
  {
    hide Chunks, Wire, ParseFrame, Gather, Answer;
    error := None;
    if alreadyExists {
      return Some(FileExists);
    }
    ghost var from, before, to := socket.incoming, file.before, socket.outgoing;
    ghost var frames: seq<Frame> := [];
    var total: nat := 0;
    assert before == before + Take(Concat([]), expected);
    OntoNothing(Gather(from, expected));
    while total < expected
      invariant error.None? && total == Min(expected, |Concat(frames)|)
      invariant Gather(from, expected) == Onto(frames, Gather(socket.incoming, expected - total))
      invariant socket.outgoing == to
      invariant file.beyond == [] && file.before == before + Take(Concat(frames), expected)
      decreases |socket.incoming|
    {
      ghost var here := socket.incoming;
      var data := socket.Receive();
      if data.Err? {
        GatherFails(here, expected - total, data.error);
        assert frames + [] == frames;
        return Some(data.error);
      }
      AnswerToFrame(data, to);
      var left := expected - total;
      var writeSize := Min(left, |data.value|);
      file.Write(data.value[..writeSize]);
      GatherOne(here, left, data.value, socket.incoming);
      OntoTwice(frames, data.value, Gather(socket.incoming, left - writeSize));
      OneWritten(before, frames, data.value, expected);
      ConcatSnoc(frames, data.value);
      total := total + writeSize;
      frames := frames + [data.value];
    }
    GatherDone(socket.incoming);
    assert frames + [] == frames;
    socket.SendACK();
  }

  lemma OneWritten(before: bytes, frames: seq<Frame>, f: Frame, expected: nat)
    ensures before + Take(Concat(frames), expected) + f[..ClipSize(frames, f, expected)] ==
            before + Take(Concat(frames + [f]), expected)
  {
    ConcatSnoc(frames, f);
    TakeMore(Concat(frames), f, expected);
    var a, b := Take(Concat(frames), expected), f[..ClipSize(frames, f, expected)];
    assert before + a + b == before + (a + b);
  }

  /**
    DropFileSendClient::sendFSEntry: nothing is sent before the first acknowledgement; then the file goes
    out in non-empty frames, however the stream portions it out; then the second one is awaited.
  */
  method SendFSEntry(socket: Socket, file: bytes) returns (error: Option<Error>, ghost frames: seq<Frame>)
    modifies socket
    ensures var first := ParseFrame(old(socket.incoming));
            var last := ParseFrame(Skip(old(socket.incoming), |FrameBytes(ACK)|));
            if first != Ok(ACK) then
              error == Acknowledged(first) && socket.outgoing == old(socket.outgoing) + Answer(first)
            else
              && error == Acknowledged(last)
              && socket.outgoing == old(socket.outgoing) + Wire(frames) + Answer(last)
              && Concat(frames) == file && forall f :: f in frames ==> 0 < |f| <= BUFFER_SIZE
  {
    hide Chunks, Wire, ParseFrame, Answer, Sending, Skip;
    frames := [];
    ghost var from, base := socket.incoming, socket.outgoing;
    error := socket.ReceiveACK();
    if error.Some? {
      return;
    }
    FirstAckTaken(from, socket.incoming);
    AnswerToAck(ParseFrame(from), base);
    var stream := new InStream(file);
    ghost var acknowledged := socket.incoming;
    SendingStarts(base, file);
    var reading := true;
    while reading
      invariant stream.Valid() && socket.incoming == acknowledged && error.None?
      invariant Sending(base, socket.outgoing, frames, file, stream.left)
      invariant !reading ==> stream.left == []
      decreases reading, |stream.left|
    {
      var data := stream.ReadSome(BUFFER_SIZE);
      if |data| > 0 {
        SendingGoesOn(base, socket.outgoing, frames, file, data, stream.left);
        socket.Send(data);
        frames := frames + [data];
      }
      reading := |data| > 0;
    }
    SendingEnds(base, socket.outgoing, frames, file);
    error := socket.ReceiveACK();
  }

  /** Where the sender's loop stands: these frames are sent, and the rest of the file is unread. */
  ghost predicate Sending(base: bytes, outgoing: bytes, frames: seq<Frame>, file: bytes, unread: bytes) {
    && outgoing == base + Wire(frames) && file == Concat(frames) + unread
    && forall f :: f in frames ==> 0 < |f| <= BUFFER_SIZE
  }

  lemma SendingStarts(base: bytes, file: bytes)
    ensures Sending(base, base, [], file, file)
  {
    NothingSent(base, []);
    assert file == Concat([]) + file;
  }

  lemma SendingGoesOn(base: bytes, outgoing: bytes, frames: seq<Frame>, file: bytes, data: Frame, unread: bytes)
    requires Sending(base, outgoing, frames, file, data + unread) && 0 < |data| <= BUFFER_SIZE
    ensures Sending(base, outgoing + Wire(Chunks(data)), frames + [data], file, unread)
  {
    hide Wire, Chunks, Concat;
    SingleChunk(data);
    SentOne(base, frames, data);
    WireOne(data);
    ConcatSnoc(frames, data);
    Associative(Concat(frames), data, unread);
  }

  lemma SendingEnds(base: bytes, outgoing: bytes, frames: seq<Frame>, file: bytes)
    requires Sending(base, outgoing, frames, file, [])
    ensures outgoing == base + Wire(frames) && Concat(frames) == file
    ensures forall f :: f in frames ==> 0 < |f| <= BUFFER_SIZE
  {
    assert Concat(frames) + [] == Concat(frames);
  }
}
