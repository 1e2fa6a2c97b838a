/** What holds in every reachable state of a transfer, whoever connects as the sender and whoever crashes. */
module RelaySafety {
  import opened Bytes
  import opened Streams
  import opened Framing
  import opened Transfer
  import opened Relay

  function Acks(n: nat): seq<Frame> {
    if n == 0 then [] else if n == 1 then [ACK] else [ACK, ACK]
  }

  /** Acknowledgements the receiver has sent, and those the server has taken, by phase. */
  function AcksSent(r: ReceiverPhase): nat {
    if r.Receiving? || r.Acknowledging? || r.ReceiverFailed? then 1 else if r.ReceiverDone? then 2 else 0
  }

  function AcksTaken(v: ServerPhase): nat {
    if v.Starting? || v.Forwarding? || v.Holding? || v.Refusing? || v.ServerFailed? || v.AwaitReceived? then 1
    else if v.Finishing? || v.ServerDone? then 2 else 0
  }

  predicate BeforeLoop(v: ServerPhase) {
    v.Offering? || v.AwaitConfirm? || v.Starting? || v.ServerRefused?
  }

  predicate AfterLoop(v: ServerPhase) {
    v.AwaitReceived? || v.Finishing? || v.ServerDone?
  }

  predicate Confirmed(r: ReceiverPhase) {
    AcksSent(r) > 0
  }

  /** Server and receiver agree on how far the handshake has come. */
  predicate Agreed(cfg: Config, server: ServerPhase, serverUp: bool, receiver: ReceiverPhase,
                   toReceiver: seq<Frame>, fromReceiver: seq<Frame>) {
    && (server.Offering? ==> receiver.AwaitOffer? && toReceiver == [])
    && (receiver.AwaitOffer? ==> server.Offering? || (server.AwaitConfirm? && toReceiver == [cfg.metadata]))
    && (receiver.Deciding? ==> server.AwaitConfirm?)
    && (receiver.ReceiverDeclined? ==>
          || (server.AwaitConfirm? && fromReceiver == [ABORT])
          || (server.ServerRefused? && fromReceiver == []))
    && (server.ServerRefused? ==> receiver.ReceiverDeclined?)
    && (receiver.ReceiverFailed? ==> server.ServerFailed? || !serverUp)
    && (!receiver.ReceiverDeclined? ==>
          AcksTaken(server) <= AcksSent(receiver) && fromReceiver == Acks(AcksSent(receiver) - AcksTaken(server)))
    && (Confirmed(receiver) ==> cfg.confirms) && (receiver.ReceiverDeclined? ==> !cfg.confirms)
  }

  predicate InStep(cfg: Config, s: State) {
    Agreed(cfg, s.server, s.serverUp, s.receiver, s.toReceiver, s.fromReceiver)
  }

  function Held(v: ServerPhase): seq<Frame> {
    if v.Holding? || v.Refusing? || v.ServerFailed? then [v.frame] else []
  }

  /**
    The bytes the server has sent on behind the offer. When it has failed, the text of its error comes last,
    which is no part of the file.
  */
  ghost function Flow(server: ServerPhase, relayed: seq<Frame>): bytes {
    if server.ServerFailed? then Concat(relayed) + Refusal(|server.frame|) else Concat(relayed)
  }

  /** The sender's frames are with the server or on the way to it, and the server's counter is right. */
  ghost predicate TookFrames(cfg: Config, server: ServerPhase, sent: seq<Frame>, taken: seq<Frame>,
                             toServer: seq<Frame>, total: nat, relayed: seq<Frame>) {
    && sent == taken + Held(server) + toServer
    && relayed == Clipped(taken, cfg.declared) && total == Min(cfg.declared, |Concat(taken)|)
    && (forall f :: f in sent ==> |f| < SIZE_MOD) && (forall f :: f in taken ==> |f| <= BUFFER_SIZE)
    && (server.Holding? ==> |server.frame| <= BUFFER_SIZE)
    && (server.Refusing? || server.ServerFailed? ==> |server.frame| > BUFFER_SIZE)
    && (BeforeLoop(server) ==> taken == [])
    && (AfterLoop(server) ==> total == cfg.declared)
    && (Held(server) != [] ==> total < cfg.declared)
    && (taken != [] ==> |Concat(taken[..|taken| - 1])| < cfg.declared)
  }

  ghost predicate Took(cfg: Config, s: State) {
    TookFrames(cfg, s.server, s.sent, s.taken, s.toServer, s.total, s.relayed)
  }

  /**
    What has come from the server is in the receiver's file or on the way there, in non-empty frames. Only
    when the server has failed may anything have been dropped, and only beyond the declared size.
  */
  ghost predicate PassedBytes(cfg: Config, receiver: ReceiverPhase, written: bytes, toReceiver: seq<Frame>,
                              flow: bytes, failed: bool) {
    && (receiver.AwaitOffer? ==> written == [])
    && (!receiver.AwaitOffer? ==>
          && (forall f :: f in toReceiver ==> f != []) && |written| <= cfg.declared && written <= flow
          && (!failed || |written| < cfg.declared ==> written + Concat(toReceiver) == flow))
    && (receiver.Acknowledging? || receiver.ReceiverDone? ==> |written| >= cfg.declared)
  }

  ghost predicate Passed(cfg: Config, s: State) {
    PassedBytes(cfg, s.receiver, s.written, s.toReceiver, Flow(s.server, s.relayed), s.server.ServerFailed?)
  }

  /** Every byte is accounted for on its way from the sender's frames to the receiver's file. */
  ghost predicate Accounted(cfg: Config, s: State) {
    Took(cfg, s) && Passed(cfg, s)
  }

  ghost predicate Safe(cfg: Config, s: State) {
    InStep(cfg, s) && Accounted(cfg, s)
  }

  lemma InitSafe(cfg: Config, s: State)
    requires Init(cfg, s)
    ensures Safe(cfg, s)
  {
  }

  lemma SenderKeeps(cfg: Config, s: State, s': State, fs: seq<Frame>)
    requires Safe(cfg, s) && SendsOn(s, s', fs)
    ensures Safe(cfg, s')
  {
    hide PassedBytes, Clipped, Concat;
    Associative(s.taken + Held(s.server), s.toServer, fs);
  }

  /** An honest sender is one of the arbitrary ones. */
  lemma HonestIsAny(cfg: Config, s: State, s': State)
    requires SenderStep(cfg, s, s')
    ensures AnySenderStep(s, s')
  {
    if s.sender.Sending? && s.unread != [] {
      var k :| 1 <= k <= Min(BUFFER_SIZE, |s.unread|) && s' == SendSome(s, k);
      assert SendsOn(s, s', [s.unread[..k]]);
    } else {
      assert s.toServer + [] == s.toServer && s.sent + [] == s.sent;
      assert SendsOn(s, s', []);
    }
  }

  /** The server sends its offer or takes an answer. */
  predicate InHandshake(v: ServerPhase) {
    v.Offering? || v.AwaitConfirm? || v.AwaitReceived?
  }

  lemma ServerKeepsStep(cfg: Config, s: State, s': State)
    requires InStep(cfg, s) && ServerStep(cfg, s, s')
    ensures InStep(cfg, s')
  {
    hide Agreed, ServerStep, InStep, Ascii, Refusal;
    if InHandshake(s.server) {
      HandshakeKeepsStep(cfg, s, s');
    } else {
      LoopKeepsStep(cfg, s, s');
    }
  }

  lemma HandshakeKeepsStep(cfg: Config, s: State, s': State)
    requires InStep(cfg, s) && ServerStep(cfg, s, s') && InHandshake(s.server)
    ensures InStep(cfg, s')
  {
    hide Agreed, Ascii, Refusal;
    if s.server.Offering? {
      OfferMade(cfg, s.serverUp, s.receiver, s.toReceiver, s.fromReceiver);
    } else {
      AnswerTaken(cfg, s.server, s.serverUp, s.receiver, s.toReceiver, s.fromReceiver);
    }
  }

  lemma LoopKeepsStep(cfg: Config, s: State, s': State)
    requires InStep(cfg, s) && ServerStep(cfg, s, s') && !InHandshake(s.server)
    ensures InStep(cfg, s')
  {
    hide Agreed, Ascii, Refusal, Acks, Clipped;
    ServerGoesOn(cfg, s.server, s'.server, s.serverUp, s.receiver, s.toReceiver, s'.toReceiver, s.fromReceiver);
  }

  lemma OfferMade(cfg: Config, up: bool, receiver: ReceiverPhase, toReceiver: seq<Frame>, fromReceiver: seq<Frame>)
    requires Agreed(cfg, Offering, up, receiver, toReceiver, fromReceiver)
    ensures Agreed(cfg, AwaitConfirm, up, receiver, toReceiver + [cfg.metadata], fromReceiver)
  {
    assert [] + [cfg.metadata] == [cfg.metadata];
  }

  lemma AnswerTaken(cfg: Config, v: ServerPhase, up: bool, receiver: ReceiverPhase, toReceiver: seq<Frame>,
                    fromReceiver: seq<Frame>)
    requires Agreed(cfg, v, up, receiver, toReceiver, fromReceiver) && fromReceiver != []
    requires v.AwaitConfirm? || v.AwaitReceived?
    ensures v.AwaitReceived? ==> fromReceiver[0] == ACK
    ensures var next := if v.AwaitConfirm? then Starting else Finishing;
            Agreed(cfg, if fromReceiver[0] == ACK then next else ServerRefused, up, receiver, toReceiver,
                   fromReceiver[1..])
  {
    AckIsNotAbort();
  }

  lemma ServerGoesOn(cfg: Config, v: ServerPhase, v': ServerPhase, up: bool, receiver: ReceiverPhase,
                     toReceiver: seq<Frame>, toReceiver': seq<Frame>, fromReceiver: seq<Frame>)
    requires Agreed(cfg, v, up, receiver, toReceiver, fromReceiver)
    requires AcksTaken(v) > 0 && AcksTaken(v') == AcksTaken(v) && !v.ServerFailed?
    ensures Agreed(cfg, v', up, receiver, toReceiver', fromReceiver)
  {
  }

  /** Nothing is written or under way beyond the declared size. */
  lemma WithinDeclared(cfg: Config, s: State)
    requires Accounted(cfg, s)
    ensures Concat(s.relayed) == Take(Concat(s.taken), cfg.declared) && |Concat(s.relayed)| == s.total
    ensures !s.receiver.AwaitOffer? && !s.server.ServerFailed? ==> |s.written| + |Concat(s.toReceiver)| == s.total
  {
    ClippedCarries(s.taken, cfg.declared);
    hide Clipped, Concat, Refusal;
  }

  lemma {:induction false} ServerAccounts(cfg: Config, s: State, s': State)
    requires InStep(cfg, s) && Accounted(cfg, s) && ServerStep(cfg, s, s')
    ensures Accounted(cfg, s')
  {
    if s.server.Holding? {
      hide Clipped, Concat;
      FrameTook(cfg, s, s', s.server.frame);
      FramePassed(cfg, s, s', s.server.frame);
    } else {
      OtherTook(cfg, s, s');
      if s.server.Refusing? {
        NoticePassed(cfg, s, s');
      } else {
        OtherPassed(cfg, s, s');
      }
    }
  }

  lemma {:induction false} OtherTook(cfg: Config, s: State, s': State)
    requires InStep(cfg, s) && Took(cfg, s) && ServerStep(cfg, s, s') && !s.server.Holding?
    ensures Took(cfg, s')
  {
    hide TookFrames, Agreed, ServerStep, InStep, Took, Ascii, Refusal;
    if s.server.Forwarding? {
      ForwardingTook(cfg, s, s');
    } else if InHandshake(s.server) {
      HandshakeTook(cfg, s, s');
    } else {
      LoopTook(cfg, s, s');
    }
  }

  lemma ForwardingTook(cfg: Config, s: State, s': State)
    requires Took(cfg, s) && ServerStep(cfg, s, s') && s.server.Forwarding?
    ensures Took(cfg, s')
  {
    hide TookFrames, Ascii, Refusal;
    if s.total < cfg.declared {
      FrameMoves(cfg, s'.server, s.sent, s.taken, s.toServer, s.total, s.relayed);
    } else {
      PhaseMoves(cfg, s.server, s'.server, s.sent, s.taken, s.toServer, s.total, s.relayed);
    }
  }

  lemma HandshakeTook(cfg: Config, s: State, s': State)
    requires InStep(cfg, s) && Took(cfg, s) && ServerStep(cfg, s, s') && InHandshake(s.server)
    ensures Took(cfg, s')
  {
    hide TookFrames, Agreed, Ascii, Refusal;
    if !s.server.Offering? {
      AnswerTaken(cfg, s.server, s.serverUp, s.receiver, s.toReceiver, s.fromReceiver);
    }
    PhaseMoves(cfg, s.server, s'.server, s.sent, s.taken, s.toServer, s.total, s.relayed);
  }

  lemma LoopTook(cfg: Config, s: State, s': State)
    requires Took(cfg, s) && ServerStep(cfg, s, s')
    requires !InHandshake(s.server) && !s.server.Forwarding? && !s.server.Holding?
    ensures Took(cfg, s')
  {
    hide TookFrames, Ascii, Refusal;
    PhaseMoves(cfg, s.server, s'.server, s.sent, s.taken, s.toServer, s.total, s.relayed);
  }

  lemma PhaseMoves(cfg: Config, v: ServerPhase, v': ServerPhase, sent: seq<Frame>, taken: seq<Frame>,
                   toServer: seq<Frame>, total: nat, relayed: seq<Frame>)
    requires TookFrames(cfg, v, sent, taken, toServer, total, relayed)
    requires Held(v) == Held(v') && !v.Holding? && !v'.Holding?
    requires BeforeLoop(v') ==> BeforeLoop(v)
    requires AfterLoop(v') ==> AfterLoop(v) || total >= cfg.declared
    ensures TookFrames(cfg, v', sent, taken, toServer, total, relayed)
  {
    hide Clipped, Concat;
  }

  lemma FrameMoves(cfg: Config, v: ServerPhase, sent: seq<Frame>, taken: seq<Frame>, toServer: seq<Frame>, total: nat,
                   relayed: seq<Frame>)
    requires TookFrames(cfg, Forwarding, sent, taken, toServer, total, relayed) && toServer != []
    requires v == (if |toServer[0]| <= BUFFER_SIZE then Holding(toServer[0]) else Refusing(toServer[0]))
    requires total < cfg.declared
    ensures TookFrames(cfg, v, sent, taken, toServer[1..], total, relayed)
  {
    hide Clipped, Concat;
    assert taken + [] + toServer == taken + [toServer[0]] + toServer[1..];
  }

  lemma FrameRelayed(cfg: Config, f: Frame, sent: seq<Frame>, taken: seq<Frame>, toServer: seq<Frame>, total: nat,
                     relayed: seq<Frame>)
    requires TookFrames(cfg, Holding(f), sent, taken, toServer, total, relayed)
    ensures var w := Min(cfg.declared - Min(cfg.declared, total), |f|);
            TookFrames(cfg, Forwarding, sent, taken + [f], toServer, total + w,
                       relayed + if w == 0 then [] else [f[..w]])
  {
    TookCounts(cfg, f, sent, taken, toServer, total, relayed);
    FrameClipped(taken, f, cfg.declared);
    hide TookFrames, Clipped, Concat;
    var w := ClipSize(taken, f, cfg.declared);
    assert w == Min(cfg.declared - Min(cfg.declared, total), |f|);
    FrameTaken(cfg, f, sent, taken, toServer, total, relayed, total + w, relayed + if w == 0 then [] else [f[..w]]);
  }

  lemma TookCounts(cfg: Config, f: Frame, sent: seq<Frame>, taken: seq<Frame>, toServer: seq<Frame>, total: nat,
                   relayed: seq<Frame>)
    requires TookFrames(cfg, Holding(f), sent, taken, toServer, total, relayed)
    ensures relayed == Clipped(taken, cfg.declared) && total == Min(cfg.declared, |Concat(taken)|) && |f| <= BUFFER_SIZE
  {
    hide Clipped, Concat;
  }

  lemma FrameTaken(cfg: Config, f: Frame, sent: seq<Frame>, taken: seq<Frame>, toServer: seq<Frame>, total: nat,
                   relayed: seq<Frame>, total': nat, relayed': seq<Frame>)
    requires TookFrames(cfg, Holding(f), sent, taken, toServer, total, relayed)
    requires relayed' == Clipped(taken + [f], cfg.declared) && total' == Min(cfg.declared, |Concat(taken + [f])|)
    ensures TookFrames(cfg, Forwarding, sent, taken + [f], toServer, total', relayed')
  {
    hide Clipped, Concat;
    assert taken + [f] + [] == taken + [f] && (taken + [f])[..|taken|] == taken;
  }

  lemma FrameClipped(taken: seq<Frame>, f: Frame, declared: nat)
    requires |f| <= BUFFER_SIZE
    ensures var w := ClipSize(taken, f, declared);
            && Clipped(taken + [f], declared) == Clipped(taken, declared) + (if w == 0 then [] else [f[..w]])
            && Min(declared, |Concat(taken + [f])|) == Min(declared, |Concat(taken)|) + w
  {
    hide Clipped, Chunks, Concat;
    ClippedSnoc(taken, f, declared);
    SingleChunk(f[..ClipSize(taken, f, declared)]);
    ConcatSnoc(taken, f);
  }

  lemma OtherPassed(cfg: Config, s: State, s': State)
    requires InStep(cfg, s) && Passed(cfg, s) && ServerStep(cfg, s, s') && !s.server.Holding? && !s.server.Refusing?
    ensures Passed(cfg, s')
  {
    hide Concat, Agreed, Ascii, Refusal;
    if s.server.Offering? {
      OfferingMeans(cfg, s);
    } else {
      hide PassedBytes;
      assert s'.server.ServerFailed? == s.server.ServerFailed? == false;
    }
  }

  lemma OfferingMeans(cfg: Config, s: State)
    requires InStep(cfg, s) && s.server.Offering?
    ensures s.receiver.AwaitOffer?
  {
  }

  /** The text of an error goes behind what was sent on of the file, while bytes of it are still missing. */
  lemma NoticePassed(cfg: Config, s: State, s': State)
    requires InStep(cfg, s) && Passed(cfg, s) && ServerStep(cfg, s, s') && s.server.Refusing?
    ensures Passed(cfg, s')
  {
    hide Clipped, Concat, PassedBytes, Refusal, Ascii;
    MoreFlows(cfg, s.receiver, s.written, s.toReceiver, Concat(s.relayed), Refusal(|s.server.frame|), true);
  }

  lemma MoreFlows(cfg: Config, receiver: ReceiverPhase, written: bytes, toReceiver: seq<Frame>, flow: bytes,
                  f: Frame, failed: bool)
    requires PassedBytes(cfg, receiver, written, toReceiver, flow, false) && !receiver.AwaitOffer? && f != []
    ensures PassedBytes(cfg, receiver, written, toReceiver + [f], flow + f, failed)
  {
    hide Concat;
    ConcatSnoc(toReceiver, f);
    Associative(written, Concat(toReceiver), f);
    assert flow <= flow + f;
  }

  lemma FrameTook(cfg: Config, s: State, s': State, f: Frame)
    requires Took(cfg, s) && ServerStep(cfg, s, s') && s.server == Holding(f)
    ensures Took(cfg, s')
  {
    hide TookFrames, Ascii, Refusal;
    FrameRelayed(cfg, f, s.sent, s.taken, s.toServer, s.total, s.relayed);
    assert s.relayed + [] == s.relayed;
  }

  lemma FramePassed(cfg: Config, s: State, s': State, f: Frame)
    requires InStep(cfg, s) && Passed(cfg, s) && ServerStep(cfg, s, s') && s.server == Holding(f)
    ensures Passed(cfg, s')
  {
    hide Clipped, Chunks, Concat, PassedBytes, Ascii, Refusal;
    var w := Min(cfg.declared - Min(cfg.declared, s.total), |f|);
    if w > 0 {
      ConcatSnoc(s.relayed, f[..w]);
      MoreFlows(cfg, s.receiver, s.written, s.toReceiver, Concat(s.relayed), f[..w], false);
    }
  }

  lemma ReceiverKeepsStep(cfg: Config, s: State, s': State)
    requires InStep(cfg, s) && ReceiverStep(cfg, s, s')
    ensures InStep(cfg, s')
  {
    match s.receiver
    case AwaitOffer =>
    case Deciding =>
    case Receiving =>
    case Acknowledging =>
      assert s'.fromReceiver == Acks(AcksSent(s'.receiver) - AcksTaken(s'.server));
  }

  lemma ReceiverAccounts(cfg: Config, s: State, s': State)
    requires InStep(cfg, s) && Accounted(cfg, s) && ReceiverStep(cfg, s, s')
    ensures Accounted(cfg, s')
  {
    ReceiverTook(cfg, s, s');
    if s.receiver.AwaitOffer? {
      OfferRead(cfg, s, s');
    } else {
      WithinDeclared(cfg, s);
      hide InStep, Took, Clipped;
      ReceiverPasses(cfg, s, s');
    }
  }

  lemma ReceiverTook(cfg: Config, s: State, s': State)
    requires Took(cfg, s) && ReceiverStep(cfg, s, s')
    ensures Took(cfg, s')
  {
    hide TookFrames, Take, Ascii, Refusal;
  }

  lemma ReceiverPasses(cfg: Config, s: State, s': State)
    requires Passed(cfg, s) && ReceiverStep(cfg, s, s') && !s.receiver.AwaitOffer?
    requires |Concat(s.relayed)| <= cfg.declared
    ensures Passed(cfg, s')
  {
    hide Concat, Take, Refusal, Ascii, PassedBytes, Flow;
    NotFailedFlow(s.server, s.relayed);
    if s.receiver.Receiving? && |s.written| < cfg.declared && s.toReceiver != [] {
      OneWrittenDown(cfg, s.written, s.toReceiver, Flow(s.server, s.relayed), s.server.ServerFailed?);
    } else {
      ReceiverGoesOn(cfg, s.receiver, s'.receiver, s.written, s.toReceiver, Flow(s.server, s.relayed),
                     s.server.ServerFailed?);
    }
  }

  lemma ReceiverGoesOn(cfg: Config, r: ReceiverPhase, r': ReceiverPhase, written: bytes, toReceiver: seq<Frame>,
                       flow: bytes, failed: bool)
    requires PassedBytes(cfg, r, written, toReceiver, flow, failed) && !r.AwaitOffer? && !r'.AwaitOffer?
    requires Finished(r') ==> Finished(r) || |written| >= cfg.declared
    ensures PassedBytes(cfg, r', written, toReceiver, flow, failed)
  {
    hide Concat;
  }

  /** One round of the receiver's loop. */
  lemma OneWrittenDown(cfg: Config, written: bytes, toReceiver: seq<Frame>, flow: bytes, failed: bool)
    requires PassedBytes(cfg, Receiving, written, toReceiver, flow, failed)
    requires toReceiver != [] && |written| < cfg.declared
    requires !failed ==> |flow| <= cfg.declared
    ensures PassedBytes(cfg, Receiving, written + Take(toReceiver[0], cfg.declared - |written|), toReceiver[1..],
                        flow, failed)
  {
    var f, room := toReceiver[0], cfg.declared - |written|;
    assert Concat(toReceiver) == f + Concat(toReceiver[1..]);
    assert forall g :: g in toReceiver[1..] ==> g in toReceiver;
    hide Concat;
    var rest := Concat(toReceiver[1..]);
    Associative(written, f, rest);
    assert written + f + rest == flow;
    if |f| <= room {
      assert Take(f, room) == f;
    } else {
      assert |written + f + rest| == |written| + |f| + |rest|;
      assert f[..room] <= f;
      assert (written + f + rest)[..cfg.declared] == written + f[..room];
    }
  }

  lemma OfferRead(cfg: Config, s: State, s': State)
    requires InStep(cfg, s) && Accounted(cfg, s) && ReceiverStep(cfg, s, s') && s.receiver.AwaitOffer?
    ensures Passed(cfg, s')
  {
    assert s.toReceiver[1..] == [] && Concat([]) == [] && Clipped([], cfg.declared) == [];
  }

  /** Every step of every party, of any peer in the sender's place, and every crash keeps the state safe. */
  lemma {:induction false} StepKeepsSafe(cfg: Config, s: State, s': State)
    requires Safe(cfg, s) && AnyNext(cfg, s, s')
    ensures Safe(cfg, s')
  {
    hide InStep, Accounted, SenderStep, ServerStep, ReceiverStep, SendsOn, Ascii, Refusal;
    if SenderStep(cfg, s, s') {
      HonestIsAny(cfg, s, s');
    }
    if AnySenderStep(s, s') {
      var fs :| SendsOn(s, s', fs);
      SenderKeeps(cfg, s, s', fs);
    } else if ServerStep(cfg, s, s') {
      ServerKeepsStep(cfg, s, s');
      ServerAccounts(cfg, s, s');
    } else if ReceiverStep(cfg, s, s') {
      ReceiverKeepsStep(cfg, s, s');
      ReceiverAccounts(cfg, s, s');
    } else {
      CrashKeeps(cfg, s, s');
    }
  }

  lemma CrashKeeps(cfg: Config, s: State, s': State)
    requires Safe(cfg, s) && Crash(s, s')
    ensures Safe(cfg, s')
  {
    hide TookFrames, PassedBytes;
  }

  lemma {:induction false} RunIsSafe(cfg: Config, run: seq<State>, i: nat)
    requires IsRun(cfg, run, true) && i < |run|
    ensures Safe(cfg, run[i])
  {
    hide Safe, AnyNext;
    if i == 0 {
      InitSafe(cfg, run[0]);
    } else {
      RunIsSafe(cfg, run, i - 1);
      StepKeepsSafe(cfg, run[i - 1], run[i - 1 + 1]);
    }
  }

  lemma ReachableIsSafe(cfg: Config, s: State)
    requires Reachable(cfg, s, true)
    ensures Safe(cfg, s)
  {
    hide Safe;
    var run :| IsRun(cfg, run, true) && run[|run| - 1] == s;
    RunIsSafe(cfg, run, |run| - 1);
  }

  predicate Finished(r: ReceiverPhase) {
    r.Acknowledging? || r.ReceiverDone?
  }

  /** The k-th message is too long, and those before it are not enough. */
  predicate TooLong(sent: seq<Frame>, declared: nat, k: nat) {
    k < |sent| && |sent[k]| > BUFFER_SIZE && |Concat(sent[..k])| < declared
  }

  /** The server comes to a message that is too long before it has all declared bytes. */
  ghost predicate MeetsTooLong(sent: seq<Frame>, declared: nat) {
    exists k: nat :: TooLong(sent, declared, k)
  }

  /**
    Safety against any sender. Whatever frames come in, of whatever sizes, in every reachable state the
    server has sent on a prefix of what they carry, and no more than was declared; once its loop is left it
    is exactly the first `declared` bytes. The receiver writes nothing else, as long as the server has not
    failed. If the receiver leaves its loop it has written exactly the first `declared` bytes that were sent,
    if and only if the server did not come to a message above 1 MiB before it had them all. If it did, the
    file ends with the text of the server's error.
  */
  lemma AnySenderIsClipped(cfg: Config, s: State)
    requires Reachable(cfg, s, true)
    ensures Concat(s.relayed) <= Concat(s.sent) && |Concat(s.relayed)| <= cfg.declared
    ensures AfterLoop(s.server) ==> |Concat(s.relayed)| == cfg.declared
    ensures !s.server.ServerFailed? ==> s.written <= Concat(s.relayed)
    ensures Finished(s.receiver) ==>
              if MeetsTooLong(s.sent, cfg.declared) then
                && s.server.ServerFailed? && |Concat(s.relayed)| < cfg.declared == |s.written|
                && s.written == Take(Concat(s.relayed) + Refusal(|s.server.frame|), cfg.declared)
              else |Concat(s.sent)| >= cfg.declared && s.written == Take(Concat(s.sent), cfg.declared)
  {
    ReachableIsSafe(cfg, s);
    hide Reachable, Safe, MeetsTooLong, Concat, Refusal;
    SafeIsClipped(cfg, s);
    if Finished(s.receiver) {
      FailsExactly(cfg, s);
    }
  }

  lemma SafeIsClipped(cfg: Config, s: State)
    requires Safe(cfg, s)
    ensures Concat(s.relayed) <= Concat(s.sent) && |Concat(s.relayed)| <= cfg.declared
    ensures AfterLoop(s.server) ==> |Concat(s.relayed)| == cfg.declared
    ensures !s.server.ServerFailed? ==> s.written <= Concat(s.relayed)
    ensures Finished(s.receiver) ==>
              && |s.written| == cfg.declared && s.written == Take(Flow(s.server, s.relayed), cfg.declared)
              && (!s.server.ServerFailed? ==>
                    |Concat(s.sent)| >= cfg.declared && s.written == Take(Concat(s.sent), cfg.declared))
  {
    hide InStep, Clipped;
    WithinDeclared(cfg, s);
    SentInParts(cfg, s);
    WrittenIsFlow(cfg, s);
    hide Took, Passed, Concat, Flow;
    PrefixOfBoth(Concat(s.taken), Concat(Held(s.server) + s.toServer), cfg.declared);
    NotFailedFlow(s.server, s.relayed);
  }

  lemma NotFailedFlow(v: ServerPhase, relayed: seq<Frame>)
    ensures !v.ServerFailed? ==> Flow(v, relayed) == Concat(relayed)
  {
  }

  lemma FailedFlow(v: ServerPhase, relayed: seq<Frame>)
    requires v.ServerFailed?
    ensures Flow(v, relayed) == Concat(relayed) + Refusal(|v.frame|) == Concat(SentOn(v, relayed))
  {
    hide Concat, Refusal;
    ConcatSnoc(relayed, Refusal(|v.frame|));
  }

  lemma SentInParts(cfg: Config, s: State)
    requires Took(cfg, s)
    ensures s.sent == s.taken + (Held(s.server) + s.toServer)
    ensures Concat(s.sent) == Concat(s.taken) + Concat(Held(s.server) + s.toServer)
    ensures AfterLoop(s.server) ==> s.total == cfg.declared
  {
    hide Clipped, Concat;
    ConcatAppend(s.taken, Held(s.server) + s.toServer);
    Associative(s.taken, Held(s.server), s.toServer);
  }

  lemma WrittenIsFlow(cfg: Config, s: State)
    requires Passed(cfg, s)
    ensures s.written <= Flow(s.server, s.relayed)
    ensures Finished(s.receiver) ==>
              |s.written| == cfg.declared && s.written == Take(Flow(s.server, s.relayed), cfg.declared)
  {
    hide Concat, Flow;
  }

  /** A server has failed by the time the receiver is finished exactly if it met a message that is too long. */
  lemma FailsExactly(cfg: Config, s: State)
    requires Safe(cfg, s) && Finished(s.receiver)
    ensures MeetsTooLong(s.sent, cfg.declared) <==> s.server.ServerFailed?
    ensures s.server.ServerFailed? ==> |Concat(s.relayed)| < cfg.declared
  {
    SafeIsClipped(cfg, s);
    WithinDeclared(cfg, s);
    hide InStep, Took, Passed, Clipped, Concat, Flow, MeetsTooLong, Refusal;
    NotFailedFlow(s.server, s.relayed);
    if s.server.ServerFailed? {
      FailedMeets(cfg, s);
    } else {
      EnoughMeetsNone(cfg, s);
    }
  }

  lemma FailedMeets(cfg: Config, s: State)
    requires Took(cfg, s) && s.server.ServerFailed?
    ensures MeetsTooLong(s.sent, cfg.declared) && s.total < cfg.declared
  {
    hide Clipped, Concat;
    assert s.sent[..|s.taken|] == s.taken && s.sent[|s.taken|] == s.server.frame;
    assert TooLong(s.sent, cfg.declared, |s.taken|);
  }

  lemma EnoughMeetsNone(cfg: Config, s: State)
    requires Took(cfg, s) && s.total >= cfg.declared
    ensures !MeetsTooLong(s.sent, cfg.declared)
  {
    hide Clipped, Concat;
    assert Held(s.server) == [];
    forall k: nat ensures !TooLong(s.sent, cfg.declared, k) {
      EnoughBefore(s.sent, s.taken, s.toServer, cfg.declared, k);
    }
  }

  lemma EnoughBefore(sent: seq<Frame>, taken: seq<Frame>, rest: seq<Frame>, declared: nat, k: nat)
    requires sent == taken + [] + rest && |Concat(taken)| >= declared && forall f :: f in taken ==> |f| <= BUFFER_SIZE
    ensures !TooLong(sent, declared, k)
  {
    if k < |taken| {
      assert sent[k] == taken[k] && taken[k] in taken;
    } else if k < |sent| {
      var more := rest[..k - |taken|];
      assert sent[..k] == taken + more;
      ConcatAppend(taken, more);
    }
  }

  lemma PrefixOfBoth(a: bytes, more: bytes, n: nat)
    ensures Take(a, n) <= a + more
    ensures |Take(a, n)| >= n ==> |a| >= n && Take(a, n) == Take(a + more, n)
    ensures |Take(a, n)| >= n ==> Take(Take(a, n), n) == Take(a, n)
  {
  }

  /**
    The handshake, against any sender: no byte is sent on, and the sender is not told to start, before the
    receiver has confirmed; nothing at all is sent on if it declines. When the server has finished, the
    receiver has written everything that was declared.
  */
  lemma NothingBeforeConfirmation(cfg: Config, s: State)
    requires Reachable(cfg, s, true)
    ensures !BeforeLoop(s.server) || s.relayed != [] ==> Confirmed(s.receiver)
    ensures !cfg.confirms ==> BeforeLoop(s.server) && !s.server.Starting? && s.relayed == [] && s.written == []
    ensures s.server.Finishing? || s.server.ServerDone? ==> s.receiver.ReceiverDone? && |s.written| == cfg.declared
  {
    ReachableIsSafe(cfg, s);
    hide Reachable, Accounted, Agreed;
    AgreedConfirms(cfg, s.server, s.serverUp, s.receiver, s.toReceiver, s.fromReceiver);
    SafeIsClipped(cfg, s);
    WrittenWithin(cfg, s);
    if BeforeLoop(s.server) {
      SafeTook(cfg, s);
      NothingTaken(cfg, s);
    }
    hide Safe, Took, Passed, Concat, Refusal, Flow, Take;
  }

  // ---------------------------------------------------------------------------------------------------
  // A message that is too long

  lemma Extend(cfg: Config, s: State, s': State)
    requires Reachable(cfg, s, true) && AnyNext(cfg, s, s')
    ensures Reachable(cfg, s', true)
  {
    hide Init, AnyNext;
    var run :| IsRun(cfg, run, true) && run[|run| - 1] == s;
    var longer := run + [s'];
    assert IsRun(cfg, longer, true) && longer[|longer| - 1] == s';
  }

  /** A transfer of one declared byte that the receiver has confirmed and the server has started. */
  lemma StartedTransfer() returns (cfg: Config, s: State)
    ensures cfg == Config([], 1, [0], true, 1) && Reachable(cfg, s, true)
    ensures s == State(AwaitStart, [], [], true, Forwarding, [], 0, [], true, Receiving, [], true, [], [ACK], [], [])
  {
    hide Ascii, Refusal, Reachable;
    cfg := Config([], 1, [0], true, 1);
    var s0 := State(AwaitStart, [], [], true, Offering, [], 0, [], true, AwaitOffer, [], true, [], [], [], []);
    InitReachable(cfg, s0);
    var s1 := s0.(toReceiver := [[0]], server := AwaitConfirm);
    Extend(cfg, s0, s1) by { assert ServerStep(cfg, s0, s1); }
    var s2 := s1.(toReceiver := [], receiver := Deciding);
    Extend(cfg, s1, s2) by { assert ReceiverStep(cfg, s1, s2); }
    var s3 := s2.(fromReceiver := [ACK], receiver := Receiving);
    Extend(cfg, s2, s3) by { assert ReceiverStep(cfg, s2, s3); }
    var s4 := s3.(fromReceiver := [], server := Starting);
    Extend(cfg, s3, s4) by { assert ServerStep(cfg, s3, s4); }
    s := s4.(toSender := [ACK], server := Forwarding);
    Extend(cfg, s4, s) by { assert ServerStep(cfg, s4, s); }
  }

  lemma InitReachable(cfg: Config, s: State)
    requires Init(cfg, s)
    ensures Reachable(cfg, s, true)
  {
    hide Init;
    assert IsRun(cfg, [s], true) && [s][|[s]| - 1] == s;
  }

  /** The sender announces a message of one byte more than 1 MiB, and the server refuses it. */
  lemma RefusedTransfer(big: Frame) returns (cfg: Config, s: State)
    requires |big| == BUFFER_SIZE + 1
    ensures cfg == Config([], 1, [0], true, 1) && Reachable(cfg, s, true)
    ensures s == State(AwaitStart, [], [big], true, ServerFailed(big), [], 0, [], true, Receiving, [], true,
                       [], [TOO_LARGE], [Refusal(|big|)], [])
  {
    hide Ascii, Refusal, Reachable, Concat;
    var s0;
    cfg, s0 := StartedTransfer();
    var s1 := s0.(toSender := [], toServer := [big], sent := [big]);
    Extend(cfg, s0, s1) by { assert SendsOn(s0, s1, [big]); }
    var s2 := s1.(toServer := [], toSender := [TOO_LARGE], server := Refusing(big));
    Extend(cfg, s1, s2) by { assert ServerStep(cfg, s1, s2); }
    s := s2.(toReceiver := [Refusal(|big|)], server := ServerFailed(big));
    Extend(cfg, s2, s) by { assert ServerStep(cfg, s2, s); }
  }

  /** A receiver that waits for one byte takes the first one of the next message, acknowledges and is done. */
  lemma OneByteReceived(cfg: Config, s: State, f: Frame) returns (s': State)
    requires Reachable(cfg, s, true) && cfg.declared == 1 && cfg.capacity > 0 && f != []
    requires s.receiver.Receiving? && s.receiverUp && s.written == [] && s.toReceiver == [f] && s.fromReceiver == []
    ensures Reachable(cfg, s', true) && s'.receiver.ReceiverDone? && s'.sent == s.sent && s'.written == [f[0]]
  {
    hide Ascii, Refusal, Reachable, Concat;
    var s1 := s.(toReceiver := [f][1..], written := [] + Take(f, 1));
    Extend(cfg, s, s1) by { assert ReceiverStep(cfg, s, s1); }
    var s2 := s1.(receiver := Acknowledging);
    Extend(cfg, s1, s2) by { assert ReceiverStep(cfg, s1, s2); }
    s' := s2.(fromReceiver := s2.fromReceiver + [ACK], receiver := ReceiverDone);
    Extend(cfg, s2, s') by { assert ReceiverStep(cfg, s2, s'); }
  }

  /**
    The condition of AnySenderIsClipped is needed: when the next message is announced with one byte more
    than 1 MiB, a receiver that waits for one byte writes the S of the error text, which the sender never
    sent, and acknowledges.
  */
  lemma TextIsWritten() returns (cfg: Config, s: State)
    ensures Reachable(cfg, s, true) && s.receiver.ReceiverDone? && MeetsTooLong(s.sent, cfg.declared)
    ensures |s.written| == cfg.declared <= |Concat(s.sent)| && !(s.written <= Concat(s.sent))
  {
    var zero: byte := 0;
    var big: Frame := seq(BUFFER_SIZE + 1, i => zero);
    RefusalFits(|big|);
    hide Reachable, Concat, Ascii, Refusal;
    cfg, s := RefusedTransfer(big);
    s := OneByteReceived(cfg, s, Refusal(|big|));
    OneFrame(big);
    assert TooLong(s.sent, cfg.declared, 0);
    assert Concat(s.sent) == big && big[0] == 0;
  }

  lemma OneFrame(f: Frame)
    ensures Concat([f]) == f && Concat([f][..0]) == []
  {
    assert Concat([f]) == f + Concat([]);
  }

  // ---------------------------------------------------------------------------------------------------
  // The steps of server and receiver add up to what their methods in Transfer do

  /**
    Once the server has left its loop, it has done what Gather says its method does with the bytes its
    peer has put on the wire, and what it has not taken is still there.
  */
  lemma ServerAgrees(cfg: Config, s: State)
    requires Reachable(cfg, s, true) && AfterLoop(s.server)
    ensures Gather(Wire(s.sent), cfg.declared) == Gathered(s.taken, Wire(s.toServer), None)
    ensures s.relayed == Clipped(s.taken, cfg.declared)
  {
    ReachableIsSafe(cfg, s);
    hide Reachable;
    SafeTook(cfg, s);
    hide Safe, Took, Gather, Wire, Clipped;
    TookAgrees(cfg, s);
  }

  lemma SafeTook(cfg: Config, s: State)
    requires Safe(cfg, s)
    ensures Took(cfg, s)
  {
    hide InStep, Took, Passed;
  }

  lemma TookAgrees(cfg: Config, s: State)
    requires Took(cfg, s) && AfterLoop(s.server)
    ensures Gather(Wire(s.sent), cfg.declared) == Gathered(s.taken, Wire(s.toServer), None)
    ensures s.relayed == Clipped(s.taken, cfg.declared)
  {
    hide Clipped, Gather, Wire, Concat;
    assert s.taken + [] + s.toServer == s.taken + s.toServer;
    WireAppend(s.taken, s.toServer);
    GatherExactly(Wire(s.sent), cfg.declared, s.taken, Wire(s.toServer));
  }

  lemma AgreedConfirms(cfg: Config, v: ServerPhase, up: bool, receiver: ReceiverPhase, toReceiver: seq<Frame>,
                       fromReceiver: seq<Frame>)
    requires Agreed(cfg, v, up, receiver, toReceiver, fromReceiver)
    ensures !BeforeLoop(v) ==> Confirmed(receiver)
    ensures !cfg.confirms ==> BeforeLoop(v) && !v.Starting? && !Confirmed(receiver)
    ensures v.Finishing? || v.ServerDone? ==> receiver.ReceiverDone?
  {
  }

  lemma WrittenWithin(cfg: Config, s: State)
    requires Safe(cfg, s)
    ensures s.receiver.ReceiverDone? ==> |s.written| == cfg.declared
    ensures s.receiver.AwaitOffer? ==> s.written == []
  {
    hide Agreed, TookFrames, Concat;
  }

  lemma NothingTaken(cfg: Config, s: State)
    requires Took(cfg, s) && BeforeLoop(s.server)
    ensures s.relayed == [] && Concat(s.relayed) == []
  {
    assert s.relayed == Clipped([], cfg.declared) == [];
  }

  /** The frames the server has sent on behind the offer. */
  function SentOn(v: ServerPhase, relayed: seq<Frame>): seq<Frame> {
    if v.ServerFailed? then relayed + [Refusal(|v.frame|)] else relayed
  }

  /** Once the receiver has left its loop, its file is what its method makes of the frames the server sent on. */
  lemma ReceiverAgrees(cfg: Config, s: State)
    requires Reachable(cfg, s, true) && Finished(s.receiver)
    ensures var frames := SentOn(s.server, s.relayed);
            && Gather(Wire(frames), cfg.declared) == Gathered(frames, [], None)
            && s.written == Take(Concat(frames), cfg.declared)
  {
    ReachableIsSafe(cfg, s);
    hide Reachable;
    SafeIsAgreed(cfg, s);
  }

  lemma SafeIsAgreed(cfg: Config, s: State)
    requires Safe(cfg, s) && Finished(s.receiver)
    ensures var frames := SentOn(s.server, s.relayed);
            && Gather(Wire(frames), cfg.declared) == Gathered(frames, [], None)
            && s.written == Take(Concat(frames), cfg.declared)
  {
    SafeIsClipped(cfg, s);
    FailsExactly(cfg, s);
    RelayedFit(cfg, s);
    hide Safe, InStep, Clipped, Concat, Gather, Wire, Refusal;
    if s.server.ServerFailed? {
      FailedFlow(s.server, s.relayed);
      hide Flow;
      var text := Refusal(|s.server.frame|);
      ConcatSnoc(s.relayed, text);
      LastNeeded(s.relayed, text, cfg.declared);
    } else {
      AllNeeded(s.relayed, cfg.declared);
    }
  }

  lemma RelayedFit(cfg: Config, s: State)
    requires Took(cfg, s)
    ensures forall f :: f in s.relayed ==> 0 < |f| <= BUFFER_SIZE
    ensures s.server.ServerFailed? ==> 0 < |Refusal(|s.server.frame|)| <= BUFFER_SIZE
  {
    ClippedCarries(s.taken, cfg.declared);
    if s.server.ServerFailed? {
      assert s.server.frame == s.sent[|s.taken|] && s.server.frame in s.sent;
      RefusalFits(|s.server.frame|);
    }
  }

  /** A last frame that makes up for what is missing is just enough. */
  lemma LastNeeded(fs: seq<Frame>, last: Frame, expected: nat)
    requires |Concat(fs)| < expected <= |Concat(fs + [last])| && |last| <= BUFFER_SIZE
    requires forall f :: f in fs ==> 0 < |f| <= BUFFER_SIZE
    ensures Gather(Wire(fs + [last]), expected) == Gathered(fs + [last], [], None)
  {
    hide Concat, Gather;
    assert (fs + [last])[..|fs|] == fs;
    assert Wire(fs + [last]) + [] == Wire(fs + [last]);
    hide Wire;
    GatherExactly(Wire(fs + [last]), expected, fs + [last], []);
  }

  /** Non-empty frames that are exactly enough are just enough. */
  lemma AllNeeded(fs: seq<Frame>, expected: nat)
    requires |Concat(fs)| == expected && forall f :: f in fs ==> 0 < |f| <= BUFFER_SIZE
    ensures Gather(Wire(fs), expected) == Gathered(fs, [], None)
  {
    if fs != [] {
      var front, last := fs[..|fs| - 1], fs[|fs| - 1];
      assert fs == front + [last] && last in fs;
      ConcatSnoc(front, last);
    }
    assert Wire(fs) + [] == Wire(fs);
    GatherExactly(Wire(fs), expected, fs, []);
  }

  lemma SomeBytes(fs: seq<Frame>)
    requires forall f :: f in fs ==> f != []
    ensures Concat(fs) == [] <==> fs == []
  {
    if fs != [] {
      assert fs[0] in fs;
    }
  }
}
