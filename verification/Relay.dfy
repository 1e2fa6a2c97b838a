/**
  A transfer as a whole: sender, server and receiver as processes that exchange frames over four bounded
  FIFO channels, in any interleaving. Each party's steps are those of its function in Transfer.
*/
module Relay {
  import opened Bytes
  import opened Streams
  import opened Framing
  import opened Transfer

  /**
    The file to send, the size declared for it, the metadata message, whether the receiving user confirms,
    and how many frames a channel can hold.
  */
  datatype Config = Config(file: bytes, declared: nat, metadata: Frame, confirms: bool, capacity: nat)

  /** sendFSEntry: waiting for the start, sending, waiting for the receipt. */
  datatype SenderPhase = AwaitStart | Sending | AwaitReceipt | SenderDone | SenderRejected

  /**
    receiveFile on the server; Holding is between receive and send in its loop. Refusing and ServerFailed
    are what follows a message that is too long: its handler sends the error text on to the receiver and
    closes both connections.
  */
  datatype ServerPhase =
    | Offering | AwaitConfirm | Starting | Forwarding | Holding(frame: Frame)
    | AwaitReceived | Finishing | ServerDone | ServerRefused
    | Refusing(frame: Frame) | ServerFailed(frame: Frame)

  /** receiveFile on the receiving client, from getServerResponse to the end of receiveFileImpl. */
  datatype ReceiverPhase =
    | AwaitOffer | Deciding | Receiving | Acknowledging | ReceiverDone | ReceiverDeclined | ReceiverFailed

  /**
    Besides phases and channels, the state records what happened: the frames the sender sent, those the
    server took and those it sent on. A party that is not up has crashed and takes no more steps.
  */
  datatype State = State(
    sender: SenderPhase, unread: bytes, sent: seq<Frame>, senderUp: bool,
    server: ServerPhase, taken: seq<Frame>, total: nat, relayed: seq<Frame>, serverUp: bool,
    receiver: ReceiverPhase, written: bytes, receiverUp: bool,
    toServer: seq<Frame>, toSender: seq<Frame>, toReceiver: seq<Frame>, fromReceiver: seq<Frame>)

  predicate Init(cfg: Config, s: State) {
    s == State(AwaitStart, cfg.file, [], true, Offering, [], 0, [], true, AwaitOffer, [], true, [], [], [], [])
  }

  predicate Room(cfg: Config, channel: seq<Frame>) {
    |channel| < cfg.capacity
  }

  // ---------------------------------------------------------------------------------------------------
  // Steps

  ghost predicate SenderStep(cfg: Config, s: State, s': State) {
    s.senderUp &&
    match s.sender
    case AwaitStart =>
      if s.toSender != [] then
        s' == s.(toSender := s.toSender[1..], sender := if s.toSender[0] == ACK then Sending else SenderRejected)
      else // the server's end of the connection is gone
        s.server == ServerRefused && s' == s.(sender := SenderRejected)
    case Sending =>
      if s.unread == [] then s' == s.(sender := AwaitReceipt)
      else
        && Room(cfg, s.toServer)
        && exists k :: 1 <= k <= Min(BUFFER_SIZE, |s.unread|) && s' == SendSome(s, k)
    case AwaitReceipt =>
      && s.toSender != []
      && s' == s.(toSender := s.toSender[1..], sender := if s.toSender[0] == ACK then SenderDone else SenderRejected)
    case _ => false
  }

  function SendSome(s: State, k: nat): State
    requires k <= |s.unread|
  {
    s.(unread := s.unread[k..], sent := s.sent + [s.unread[..k]], toServer := s.toServer + [s.unread[..k]])
  }

  ghost predicate ServerStep(cfg: Config, s: State, s': State) {
    s.serverUp &&
    match s.server
    case Offering =>
      Room(cfg, s.toReceiver) && s' == s.(toReceiver := s.toReceiver + [cfg.metadata], server := AwaitConfirm)
    case AwaitConfirm =>
      && s.fromReceiver != []
      && s' == s.(fromReceiver := s.fromReceiver[1..],
                  server := if s.fromReceiver[0] == ACK then Starting else ServerRefused)
    case Starting =>
      Room(cfg, s.toSender) && s' == s.(toSender := s.toSender + [ACK], server := Forwarding)
    case Forwarding =>
      if s.total >= cfg.declared then s' == s.(server := AwaitReceived)
      else
        && s.toServer != []
        && var f := s.toServer[0];
           if |f| <= BUFFER_SIZE then s' == s.(toServer := s.toServer[1..], server := Holding(f))
           else
             && Room(cfg, s.toSender)
             && s' == s.(toServer := s.toServer[1..], toSender := s.toSender + [TOO_LARGE], server := Refusing(f))
    case Holding(f) =>
      var w := Min(cfg.declared - Min(cfg.declared, s.total), |f|);
      if w == 0 then s' == s.(server := Forwarding, taken := s.taken + [f])
      else
        && Room(cfg, s.toReceiver)
        && s' == s.(server := Forwarding, taken := s.taken + [f], total := s.total + w,
                    relayed := s.relayed + [f[..w]], toReceiver := s.toReceiver + [f[..w]])
    case Refusing(f) =>
      && Room(cfg, s.toReceiver)
      && s' == s.(toReceiver := s.toReceiver + [Refusal(|f|)], server := ServerFailed(f))
    case AwaitReceived =>
      && s.fromReceiver != []
      && s' == s.(fromReceiver := s.fromReceiver[1..],
                  server := if s.fromReceiver[0] == ACK then Finishing else ServerRefused)
    case Finishing =>
      Room(cfg, s.toSender) && s' == s.(toSender := s.toSender + [ACK], server := ServerDone)
    case _ => false
  }

  ghost predicate ReceiverStep(cfg: Config, s: State, s': State) {
    s.receiverUp &&
    match s.receiver
    case AwaitOffer =>
      s.toReceiver != [] && s' == s.(toReceiver := s.toReceiver[1..], receiver := Deciding)
    case Deciding =>
      && Room(cfg, s.fromReceiver)
      && s' == if cfg.confirms then s.(fromReceiver := s.fromReceiver + [ACK], receiver := Receiving)
               else s.(fromReceiver := s.fromReceiver + [ABORT], receiver := ReceiverDeclined)
    case Receiving =>
      if |s.written| >= cfg.declared then s' == s.(receiver := Acknowledging)
      else if s.toReceiver == [] then // the connection may have been closed
        (s.server.ServerFailed? || !s.serverUp) && s' == s.(receiver := ReceiverFailed)
      else
        && s' == s.(toReceiver := s.toReceiver[1..],
                    written := s.written + Take(s.toReceiver[0], cfg.declared - |s.written|))
    case Acknowledging =>
      Room(cfg, s.fromReceiver) && s' == s.(fromReceiver := s.fromReceiver + [ACK], receiver := ReceiverDone)
    case _ => false
  }

  /** A step of the system when everybody keeps to the program and stays up. */
  ghost predicate Next(cfg: Config, s: State, s': State) {
    SenderStep(cfg, s, s') || ServerStep(cfg, s, s') || ReceiverStep(cfg, s, s')
  }

  /**
    A peer that connects in the sender's place may send any frames at any time, of any size that a header
    can announce, and drop or ignore what it is sent; it does not reach the rest of the state.
  */
  ghost predicate AnySenderStep(s: State, s': State) {
    exists fs: seq<Frame> :: SendsOn(s, s', fs)
  }

  ghost predicate SendsOn(s: State, s': State, fs: seq<Frame>) {
    && (forall f :: f in fs ==> |f| < SIZE_MOD)
    && s' == s.(sender := s'.sender, unread := s'.unread, toSender := s'.toSender,
                toServer := s.toServer + fs, sent := s.sent + fs)
  }

  /** Any party may crash. */
  ghost predicate Crash(s: State, s': State) {
    s' == s.(senderUp := false) || s' == s.(serverUp := false) || s' == s.(receiverUp := false)
  }

  /** A step of the system with an arbitrary sender, in which parties may also crash. */
  ghost predicate AnyNext(cfg: Config, s: State, s': State) {
    SenderStep(cfg, s, s') || AnySenderStep(s, s') || ServerStep(cfg, s, s') || ReceiverStep(cfg, s, s') || Crash(s, s')
  }

  ghost predicate IsRun(cfg: Config, run: seq<State>, any: bool) {
    && run != [] && Init(cfg, run[0])
    && forall i :: 0 <= i < |run| - 1 ==>
         if any then AnyNext(cfg, run[i], run[i + 1]) else Next(cfg, run[i], run[i + 1])
  }

  ghost predicate Reachable(cfg: Config, s: State, any: bool) {
    exists run :: IsRun(cfg, run, any) && run[|run| - 1] == s
  }
}
