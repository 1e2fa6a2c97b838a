/** Transfers in which everybody keeps to the program: conservation, progress, termination, delivery. */
module RelayProgress {
  import opened Bytes
  import opened Streams
  import opened Framing
  import opened Transfer
  import opened Relay
  import opened RelaySafety

  /**
    The declared size is the file's, the file stays as it is, every channel holds at least one frame, and
    the metadata travels as one frame.
  */
  predicate Honest(cfg: Config) {
    cfg.declared == |cfg.file| && cfg.capacity > 0 && 0 < |cfg.metadata| <= BUFFER_SIZE
  }

  /** Acknowledgements the server has sent to the sender, and those the sender has taken, by phase. */
  function StartsSent(v: ServerPhase): nat {
    if v.Forwarding? || v.Holding? || v.Refusing? || v.ServerFailed? || v.AwaitReceived? || v.Finishing? then 1
    else if v.ServerDone? then 2 else 0
  }

  function StartsTaken(p: SenderPhase): nat {
    if p.Sending? || p.AwaitReceipt? then 1 else if p.SenderDone? then 2 else 0
  }

  /** Sender and server agree on how far the handshake has come, and the sender keeps to its file. */
  ghost predicate SenderAgreed(cfg: Config, server: ServerPhase, sender: SenderPhase, toSender: seq<Frame>,
                               sent: seq<Frame>, unread: bytes) {
    && !server.Refusing? && !server.ServerFailed? && (sender.SenderRejected? ==> server.ServerRefused?)
    && StartsTaken(sender) <= StartsSent(server)
    && toSender == Acks(StartsSent(server) - StartsTaken(sender))
    && Concat(sent) + unread == cfg.file
    && (forall f :: f in sent ==> 0 < |f| <= BUFFER_SIZE)
    && (sender.AwaitStart? || sender.SenderRejected? ==> sent == [])
    && (sender.AwaitReceipt? || sender.SenderDone? ==> unread == [])
  }

  ghost predicate SenderInStep(cfg: Config, s: State) {
    && s.senderUp && s.serverUp && s.receiverUp
    && SenderAgreed(cfg, s.server, s.sender, s.toSender, s.sent, s.unread)
  }

  ghost predicate Fair(cfg: Config, s: State) {
    Safe(cfg, s) && SenderInStep(cfg, s)
  }

  lemma SenderStepKeeps(cfg: Config, s: State, s': State)
    requires SenderInStep(cfg, s) && SenderStep(cfg, s, s')
    ensures SenderInStep(cfg, s')
  {
    hide SenderAgreed, Concat, Ascii, Refusal;
    if s.sender.Sending? && s.unread != [] {
      var k :| 1 <= k <= Min(BUFFER_SIZE, |s.unread|) && s' == SendSome(s, k);
      SomeSent(cfg, s.server, s.toSender, s.sent, s.unread, k);
    } else {
      SenderMovesOn(cfg, s.server, s.sender, s.toSender, s.sent, s.unread);
    }
  }

  lemma SomeSent(cfg: Config, v: ServerPhase, toSender: seq<Frame>, sent: seq<Frame>, unread: bytes, k: nat)
    requires SenderAgreed(cfg, v, Sending, toSender, sent, unread) && 1 <= k <= Min(BUFFER_SIZE, |unread|)
    ensures SenderAgreed(cfg, v, Sending, toSender, sent + [unread[..k]], unread[k..])
  {
    hide Concat;
    var f := unread[..k];
    ConcatSnoc(sent, f);
    assert f + unread[k..] == unread;
    Associative(Concat(sent), f, unread[k..]);
  }

  /** The sender takes an acknowledgement, learns that there will be none, or has read its file to the end. */
  lemma SenderMovesOn(cfg: Config, v: ServerPhase, sender: SenderPhase, toSender: seq<Frame>, sent: seq<Frame>,
                      unread: bytes)
    requires SenderAgreed(cfg, v, sender, toSender, sent, unread)
    ensures sender.AwaitStart? && v.ServerRefused? ==> SenderAgreed(cfg, v, SenderRejected, toSender, sent, unread)
    ensures sender.Sending? && unread == [] ==> SenderAgreed(cfg, v, AwaitReceipt, toSender, sent, unread)
    ensures (sender.AwaitStart? || sender.AwaitReceipt?) && toSender != [] ==>
              && toSender[0] == ACK
              && SenderAgreed(cfg, v, if sender.AwaitStart? then Sending else SenderDone, toSender[1..], sent, unread)
  {
    hide Concat;
  }

  lemma ServerStepKeeps(cfg: Config, s: State, s': State)
    requires SenderInStep(cfg, s) && ServerStep(cfg, s, s') && Safe(cfg, s)
    ensures SenderInStep(cfg, s')
  {
    hide SenderAgreed, Agreed, TookFrames, PassedBytes, Ascii, Refusal, Concat, Clipped;
    if s.server.Starting? || s.server.Finishing? {
      StartGiven(cfg, s.server, s.sender, s.toSender, s.sent, s.unread);
    } else {
      if s.server.AwaitReceived? {
        AnswerTaken(cfg, s.server, s.serverUp, s.receiver, s.toReceiver, s.fromReceiver);
      }
      NothingTooLong(cfg, s);
      ServerMovesOn(cfg, s.server, s'.server, s.sender, s.toSender, s.sent, s.unread);
    }
  }

  lemma NothingTooLong(cfg: Config, s: State)
    requires Took(cfg, s) && SenderInStep(cfg, s)
    ensures s.toServer != [] ==> |s.toServer[0]| <= BUFFER_SIZE
    ensures !s.server.Refusing? && !s.server.ServerFailed?
  {
    hide Concat, Clipped;
    if s.toServer != [] {
      assert s.toServer[0] in s.sent;
    }
  }

  lemma StartGiven(cfg: Config, v: ServerPhase, sender: SenderPhase, toSender: seq<Frame>, sent: seq<Frame>,
                   unread: bytes)
    requires SenderAgreed(cfg, v, sender, toSender, sent, unread) && (v.Starting? || v.Finishing?)
    ensures SenderAgreed(cfg, if v.Starting? then Forwarding else ServerDone, sender, toSender + [ACK], sent, unread)
  {
    hide Concat;
  }

  lemma ServerMovesOn(cfg: Config, v: ServerPhase, v': ServerPhase, sender: SenderPhase, toSender: seq<Frame>,
                      sent: seq<Frame>, unread: bytes)
    requires SenderAgreed(cfg, v, sender, toSender, sent, unread) && StartsSent(v) == StartsSent(v')
    requires !v.ServerRefused? && !v'.Refusing? && !v'.ServerFailed?
    ensures SenderAgreed(cfg, v', sender, toSender, sent, unread)
  {
    hide Concat;
  }

  lemma ReceiverStepKeeps(cfg: Config, s: State, s': State)
    requires SenderInStep(cfg, s) && ReceiverStep(cfg, s, s')
    ensures SenderInStep(cfg, s')
  {
    hide SenderAgreed, Concat, Take, Ascii;
  }

  lemma {:induction false} FairStep(cfg: Config, s: State, s': State)
    requires Fair(cfg, s) && Next(cfg, s, s')
    ensures Fair(cfg, s')
  {
    hide InStep, Accounted, SenderInStep, SenderStep, ServerStep, ReceiverStep, SendsOn;
    StepKeepsSafe(cfg, s, s');
    if SenderStep(cfg, s, s') {
      SenderStepKeeps(cfg, s, s');
    } else if ServerStep(cfg, s, s') {
      ServerStepKeeps(cfg, s, s');
    } else {
      ReceiverStepKeeps(cfg, s, s');
    }
  }

  lemma {:induction false} RunIsFair(cfg: Config, run: seq<State>, i: nat)
    requires Honest(cfg) && IsRun(cfg, run, false) && i < |run|
    ensures Fair(cfg, run[i])
  {
    if i == 0 {
      InitSafe(cfg, run[0]);
      assert Concat([]) + cfg.file == cfg.file;
    } else {
      hide Fair, Next;
      RunIsFair(cfg, run, i - 1);
      FairStep(cfg, run[i - 1], run[i - 1 + 1]);
    }
  }

  // ---------------------------------------------------------------------------------------------------
  // Conservation

  /** File bytes on the way from server to receiver; before the offer is read the channel holds no others. */
  function UnderWay(s: State): bytes {
    if s.receiver.AwaitOffer? then [] else Concat(s.toReceiver)
  }

  /**
    At every moment the file lies, in order, in the receiver's file, on the way to the receiver, with the
    server, on the way to the server, and unread at the sender; the counters say how much is where.
  */
  lemma Conservation(cfg: Config, s: State)
    requires Honest(cfg) && Reachable(cfg, s, false)
    ensures s.written + UnderWay(s) + Concat(Held(s.server)) + Concat(s.toServer) + s.unread == cfg.file
    ensures s.total == |s.written + UnderWay(s)|
  {
    var run :| IsRun(cfg, run, false) && run[|run| - 1] == s;
    RunIsFair(cfg, run, |run| - 1);
    FairConserves(cfg, s);
  }

  lemma FairConserves(cfg: Config, s: State)
    requires Honest(cfg) && Fair(cfg, s)
    ensures s.written + UnderWay(s) + Concat(Held(s.server)) + Concat(s.toServer) + s.unread == cfg.file
    ensures s.total == |s.written + UnderWay(s)| && s.written + UnderWay(s) == Concat(s.taken)
  {
    WithinDeclared(cfg, s);
    ConcatAppend(s.taken + Held(s.server), s.toServer);
    ConcatAppend(s.taken, Held(s.server));
    assert s.receiver.AwaitOffer? ==> s.taken == [] && s.written == [];
    hide Concat, Clipped, InStep, Take;
    TakeEnough(Concat(s.taken), cfg.declared);
    assert |Concat(s.taken)| <= |cfg.file|;
    assert s.written + UnderWay(s) == Concat(s.taken);
  }

  lemma TakeEnough(a: bytes, n: nat)
    ensures |a| <= n ==> Take(a, n) == a
  {
  }

  // ---------------------------------------------------------------------------------------------------
  // Termination

  function ServerRank(v: ServerPhase): nat {
    match v
    case Offering => 20
    case AwaitConfirm => 18
    case Starting => 17
    case Forwarding => 15
    case Holding(_) => 17
    case AwaitReceived => 14
    case Finishing => 13
    case ServerDone => 11
    case ServerRefused => 0
    case Refusing(_) => 16
    case ServerFailed(_) => 0
  }

  function ReceiverRank(r: ReceiverPhase): nat {
    match r
    case AwaitOffer => 10
    case Deciding => 9
    case Receiving => 7
    case Acknowledging => 6
    case ReceiverDone => 4
    case ReceiverDeclined => 4
    case ReceiverFailed => 4
  }

  function SenderRank(p: SenderPhase): nat {
    match p
    case AwaitStart => 5
    case Sending => 4
    case AwaitReceipt => 3
    case SenderDone => 2
    case SenderRejected => 1
  }

  /** Unsent bytes, frames under way and phases still to go through. */
  function Measure(s: State): nat {
    4 * |s.unread| + 3 * |s.toServer| + |s.toReceiver| + |s.fromReceiver| + |s.toSender|
    + ServerRank(s.server) + ReceiverRank(s.receiver) + SenderRank(s.sender)
  }

  lemma {:induction false} StepDecreases(cfg: Config, s: State, s': State)
    requires Next(cfg, s, s')
    ensures Measure(s') < Measure(s)
  {
    hide Concat, Clipped, Ascii, Refusal, Take;
    if SenderStep(cfg, s, s') {
      hide ServerStep, ReceiverStep;
      SenderDecreases(cfg, s, s');
    } else if ServerStep(cfg, s, s') {
      hide SenderStep, ReceiverStep;
      ServerDecreases(cfg, s, s');
    } else {
      hide SenderStep, ServerStep;
      ReceiverDecreases(cfg, s, s');
    }
  }

  lemma SenderDecreases(cfg: Config, s: State, s': State)
    requires SenderStep(cfg, s, s')
    ensures Measure(s') < Measure(s)
  {
    hide Ascii, Refusal, Concat, Clipped, Take;
    match s.sender
    case AwaitStart =>
    case Sending =>
    case AwaitReceipt =>
  }

  lemma ServerDecreases(cfg: Config, s: State, s': State)
    requires ServerStep(cfg, s, s')
    ensures Measure(s') < Measure(s)
  {
    hide Ascii, Refusal, Concat, Clipped, Take;
    match s.server
    case Offering =>
    case AwaitConfirm =>
    case Starting =>
    case Forwarding =>
    case Holding(_) =>
    case Refusing(_) =>
    case AwaitReceived =>
    case Finishing =>
  }

  lemma ReceiverDecreases(cfg: Config, s: State, s': State)
    requires ReceiverStep(cfg, s, s')
    ensures Measure(s') < Measure(s)
  {
    hide Ascii, Refusal, Concat, Clipped;
    match s.receiver
    case AwaitOffer =>
    case Deciding =>
    case Receiving =>
    case Acknowledging =>
  }

  /** No run is longer than four steps for a byte and a few for the handshake. */
  lemma {:induction false} RunsAreShort(cfg: Config, run: seq<State>, i: nat)
    requires IsRun(cfg, run, false) && i < |run|
    ensures i + Measure(run[i]) <= 4 * |cfg.file| + 35
  {
    if i > 0 {
      RunsAreShort(cfg, run, i - 1);
      hide Measure, Next;
      assert Next(cfg, run[i - 1], run[i - 1 + 1]);
      StepDecreases(cfg, run[i - 1], run[i]);
    }
  }

  // ---------------------------------------------------------------------------------------------------
  // Progress

  predicate Final(s: State) {
    && (s.sender.SenderDone? || s.sender.SenderRejected?)
    && (s.server.ServerDone? || s.server.ServerRefused?)
    && (s.receiver.ReceiverDone? || s.receiver.ReceiverDeclined?)
  }

  /** What the counters mean for an honest run. */
  lemma Counts(cfg: Config, s: State)
    requires Honest(cfg) && Fair(cfg, s)
    ensures s.total + |Concat(Held(s.server))| + |Concat(s.toServer)| + |s.unread| == cfg.declared
    ensures s.toServer == [] <==> Concat(s.toServer) == []
    ensures !s.receiver.AwaitOffer? ==> |s.written| + |Concat(s.toReceiver)| == s.total
    ensures !s.receiver.AwaitOffer? ==> (s.toReceiver == [] <==> Concat(s.toReceiver) == [])
    ensures s.receiver.Acknowledging? || s.receiver.ReceiverDone? ==> |s.written| >= cfg.declared
    ensures AfterLoop(s.server) ==> s.total == cfg.declared
  {
    FairConserves(cfg, s);
    WithinDeclared(cfg, s);
    assert forall f :: f in s.toServer ==> f in s.sent;
    SomeBytes(s.toServer);
    if !s.receiver.AwaitOffer? {
      SomeBytes(s.toReceiver);
    }
  }

  /** While anybody is not finished, somebody can take a step, even if every channel holds just one frame. */
  lemma {:induction false} SomebodyCanMove(cfg: Config, s: State) returns (s': State)
    requires Honest(cfg) && Fair(cfg, s) && !Final(s)
    ensures Next(cfg, s, s')
  {
    Counts(cfg, s);
    NothingTooLong(cfg, s);
    hide Ascii, Refusal, Concat, Clipped, TookFrames, PassedBytes;
    match s.server {
      case AwaitConfirm =>
        s' := DuringConfirmation(cfg, s);
      case Forwarding =>
        if s.total < cfg.declared && s.toServer == [] {
          s' := SenderCanMove(cfg, s);
        } else {
          s' := ServerCanMove(cfg, s);
        }
      case Holding(f) =>
        s' := WhileHolding(cfg, s, f);
      case AwaitReceived =>
        s' := WhileReceiving(cfg, s);
      case Finishing =>
        if s.sender.AwaitStart? {
          s' := SenderCanMove(cfg, s);
        } else {
          s' := ServerCanMove(cfg, s);
        }
      case ServerDone =>
        s' := SenderCanMove(cfg, s);
      case ServerRefused =>
        s' := s.(sender := SenderRejected);
        assert SenderStep(cfg, s, s');
      case _ =>
        s' := ServerCanMove(cfg, s);
    }
  }

  /** The server is not stuck where it neither waits for the receiver nor holds a frame. */
  lemma ServerCanMove(cfg: Config, s: State) returns (s': State)
    requires Honest(cfg) && InStep(cfg, s) && SenderInStep(cfg, s)
    requires s.server.Offering? || s.server.Starting? || s.server.Forwarding? || s.server.Finishing?
    requires s.server.Forwarding? ==> s.total >= cfg.declared || (s.toServer != [] && |s.toServer[0]| <= BUFFER_SIZE)
    requires s.server.Finishing? ==> !s.sender.AwaitStart?
    ensures Next(cfg, s, s')
  {
    hide Ascii, Refusal, Concat, Clipped;
    match s.server {
      case Offering =>
        s' := s.(toReceiver := s.toReceiver + [cfg.metadata], server := AwaitConfirm);
      case Starting =>
        s' := s.(toSender := s.toSender + [ACK], server := Forwarding);
      case Forwarding =>
        if s.total >= cfg.declared {
          s' := s.(server := AwaitReceived);
        } else {
          s' := s.(toServer := s.toServer[1..], server := Holding(s.toServer[0]));
        }
      case Finishing =>
        s' := s.(toSender := s.toSender + [ACK], server := ServerDone);
    }
    assert ServerStep(cfg, s, s');
  }

  lemma DuringConfirmation(cfg: Config, s: State) returns (s': State)
    requires Honest(cfg) && InStep(cfg, s) && SenderInStep(cfg, s) && s.server.AwaitConfirm?
    ensures Next(cfg, s, s')
  {
    hide Concat, Ascii, Refusal, Clipped, TookFrames, PassedBytes;
    if s.fromReceiver != [] {
      s' := s.(fromReceiver := s.fromReceiver[1..],
               server := if s.fromReceiver[0] == ACK then Starting else ServerRefused);
      assert ServerStep(cfg, s, s');
    } else if s.receiver.AwaitOffer? {
      s' := s.(toReceiver := s.toReceiver[1..], receiver := Deciding);
    } else {
      assert s.receiver.Deciding?;
      s' := if cfg.confirms then s.(fromReceiver := s.fromReceiver + [ACK], receiver := Receiving)
            else s.(fromReceiver := s.fromReceiver + [ABORT], receiver := ReceiverDeclined);
      assert ReceiverStep(cfg, s, s');
    }
  }

  /** The sender is never stuck while the server waits for it or has finished. */
  lemma SenderCanMove(cfg: Config, s: State) returns (s': State)
    requires Honest(cfg) && SenderInStep(cfg, s) && !s.sender.SenderDone? && StartsSent(s.server) > 0
    requires s.unread != [] ==> s.toServer == []
    requires s.sender.AwaitReceipt? ==> s.server.ServerDone?
    ensures Next(cfg, s, s')
  {
    hide Concat, Ascii, Refusal, Clipped, TookFrames, PassedBytes;
    match s.sender {
      case AwaitStart =>
        s' := s.(toSender := s.toSender[1..], sender := if s.toSender[0] == ACK then Sending else SenderRejected);
      case Sending =>
        if s.unread == [] {
          s' := s.(sender := AwaitReceipt);
        } else {
          s' := SendSome(s, 1);
        }
      case AwaitReceipt =>
        s' := s.(toSender := s.toSender[1..], sender := if s.toSender[0] == ACK then SenderDone else SenderRejected);
    }
    assert SenderStep(cfg, s, s');
  }

  lemma WhileHolding(cfg: Config, s: State, f: Frame) returns (s': State)
    requires Honest(cfg) && InStep(cfg, s) && SenderInStep(cfg, s) && s.server == Holding(f)
    requires |s.written| + |Concat(s.toReceiver)| == s.total
    requires s.receiver.Acknowledging? || s.receiver.ReceiverDone? ==> |s.written| >= cfg.declared
    ensures Next(cfg, s, s')
  {
    hide Concat, Ascii, Refusal, Clipped, TookFrames, PassedBytes;
    var w := Min(cfg.declared - Min(cfg.declared, s.total), |f|);
    if w == 0 {
      s' := s.(server := Forwarding, taken := s.taken + [f]);
      assert ServerStep(cfg, s, s');
    } else if Room(cfg, s.toReceiver) {
      s' := s.(server := Forwarding, taken := s.taken + [f], total := s.total + w,
               relayed := s.relayed + [f[..w]], toReceiver := s.toReceiver + [f[..w]]);
      assert ServerStep(cfg, s, s');
    } else {
      s' := s.(toReceiver := s.toReceiver[1..],
               written := s.written + Take(s.toReceiver[0], cfg.declared - |s.written|));
      assert ReceiverStep(cfg, s, s');
    }
  }

  lemma WhileReceiving(cfg: Config, s: State) returns (s': State)
    requires Honest(cfg) && InStep(cfg, s) && SenderInStep(cfg, s) && s.server.AwaitReceived?
    requires |s.written| + |Concat(s.toReceiver)| == s.total == cfg.declared
    requires s.toReceiver == [] <==> Concat(s.toReceiver) == []
    ensures Next(cfg, s, s')
  {
    hide Concat, Ascii, Refusal, Clipped, TookFrames, PassedBytes;
    if s.fromReceiver != [] {
      s' := s.(fromReceiver := s.fromReceiver[1..],
               server := if s.fromReceiver[0] == ACK then Finishing else ServerRefused);
      assert ServerStep(cfg, s, s');
    } else if s.receiver.Acknowledging? {
      s' := s.(fromReceiver := s.fromReceiver + [ACK], receiver := ReceiverDone);
    } else if |s.written| >= cfg.declared {
      s' := s.(receiver := Acknowledging);
    } else {
      s' := s.(toReceiver := s.toReceiver[1..],
               written := s.written + Take(s.toReceiver[0], cfg.declared - |s.written|));
    }
  }

  // ---------------------------------------------------------------------------------------------------
  // Delivery

  /**
    Every run ends, and it can only end well. Each run is short; where it cannot go on, all three parties
    have finished; if the user confirmed, the receiver holds exactly the file and every message has been
    consumed, also for an empty file; if not, no file byte ever left the sender.
  */
  lemma EveryRunDelivers(cfg: Config, run: seq<State>)
    requires Honest(cfg) && IsRun(cfg, run, false)
    ensures |run| <= 4 * |cfg.file| + 36
    ensures var last := run[|run| - 1];
            (forall s' :: !Next(cfg, last, s')) ==>
              && Final(last)
              && (cfg.confirms ==>
                    && last.sender.SenderDone? && last.server.ServerDone? && last.receiver.ReceiverDone?
                    && last.written == cfg.file
                    && last.toServer == last.toSender == last.toReceiver == last.fromReceiver == [])
              && (!cfg.confirms ==> last.sent == [] && last.written == [])
  {
    var last := run[|run| - 1];
    RunsAreShort(cfg, run, |run| - 1);
    RunIsFair(cfg, run, |run| - 1);
    if !Final(last) {
      var s' := SomebodyCanMove(cfg, last);
    } else {
      FinalDelivers(cfg, last);
    }
  }

  lemma FinalDelivers(cfg: Config, s: State)
    requires Honest(cfg) && Fair(cfg, s) && Final(s)
    ensures cfg.confirms ==>
              && s.sender.SenderDone? && s.server.ServerDone? && s.receiver.ReceiverDone? && s.written == cfg.file
              && s.toServer == s.toSender == s.toReceiver == s.fromReceiver == []
    ensures !cfg.confirms ==> s.sent == [] && s.written == []
  {
    Counts(cfg, s);
    FairConserves(cfg, s);
    SafeIsClipped(cfg, s);
    hide Clipped, TookFrames, PassedBytes;
    if cfg.confirms {
      assert Concat(Held(s.server)) == [];
      assert s.written + [] + [] + [] + [] == s.written;
    }
  }

  /**
    The handshake seen from an honest sender: no file byte leaves it before the confirmation has reached
    the server, and when its last acknowledgement has come the receiver has written the whole file.
  */
  lemma SenderKnows(cfg: Config, s: State)
    requires Honest(cfg) && Reachable(cfg, s, false)
    ensures s.sent != [] ==> Confirmed(s.receiver) && AcksTaken(s.server) > 0
    ensures s.sender.SenderDone? ==> s.written == cfg.file
  {
    var run :| IsRun(cfg, run, false) && run[|run| - 1] == s;
    RunIsFair(cfg, run, |run| - 1);
    SenderKnowsFair(cfg, s);
  }

  lemma SenderKnowsFair(cfg: Config, s: State)
    requires Honest(cfg) && Fair(cfg, s)
    ensures s.sent != [] ==> Confirmed(s.receiver) && AcksTaken(s.server) > 0
    ensures s.sender.SenderDone? ==> s.written == cfg.file
  {
    if s.sender.SenderDone? {
      FinalDelivers(cfg, s);
    }
    hide Concat, Clipped, TookFrames, PassedBytes;
  }
}
