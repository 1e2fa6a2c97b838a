/** The table of waiting senders (src/server/SessionsManager.cpp), as an object and as a concurrent system. */
module Sessions {
  import opened Bytes
  import opened SessionCodes

  /** Time in the clock's ticks. */
  type Time = int

  /** A waiting sender: its connection, the metadata it sent, and when it was registered. */
  datatype TimedSession = TimedSession(client: nat, data: bytes, timePoint: Time)

  type Table = map<string, TimedSession>

  /** What a sweep leaves, given the clock reading at its visit to each entry. */
  function Survivors(table: Table, visits: map<string, Time>, timeout: Time): Table {
    map c | c in table && !(c in visits && visits[c] - table[c].timePoint > timeout) :: table[c]
  }

  /** registerSender: the table and the code, for the codes that are drawn; the first free one is taken. */
  function AfterRegister(table: Table, client: nat, data: bytes, draws: seq<string>, now: Time): (Table, Option<string>)
    decreases |draws|
  {
    if draws == [] then (table, None)
    else if draws[0] in table then AfterRegister(table, client, data, draws[1..], now)
    else (table[draws[0] := TimedSession(client, data, now)], Some(draws[0]))
  }

  /** getSenderWithMetadata: the table and what is returned. */
  function AfterClaim(table: Table, code: string): (Table, Result<(nat, bytes)>) {
    if code in table then (table - {code}, Ok((table[code].client, table[code].data)))
    else (table, Err(UnknownCode))
  }

  lemma {:induction false} NoDrawFree(table: Table, client: nat, data: bytes, draws: seq<string>, now: Time, k: nat)
    requires k <= |draws| && forall j :: 0 <= j < k ==> draws[j] in table
    ensures AfterRegister(table, client, data, draws, now) == AfterRegister(table, client, data, draws[k..], now)
  {
    if k > 0 {
      NoDrawFree(table, client, data, draws, now, k - 1);
      assert draws[k - 1..][0] == draws[k - 1] && draws[k - 1..][1..] == draws[k..];
    } else {
      assert draws[0..] == draws;
    }
  }

  /** The clock readings of a sweep that visits the entries in this order. */
  function Readings(order: map<string, nat>, clock: nat -> Time): map<string, Time> {
    map c | c in order :: clock(order[c])
  }

  /** Where the sweeper stands: `todo` is not visited yet, and the table is what the visits so far have left. */
  ghost predicate Sweeping(before: Table, table: Table, todo: set<string>, order: map<string, nat>, i: nat,
                           clock: nat -> Time, timeout: Time) {
    && todo <= before.Keys && i + |todo| == |before| && order.Keys == before.Keys - todo
    && (forall c :: c in order ==> order[c] < i)
    && (forall c, d :: c in order && d in order && c != d ==> order[c] != order[d])
    && table == Survivors(before, Readings(order, clock), timeout)
  }

  lemma SweepingStarts(table: Table, clock: nat -> Time, timeout: Time)
    ensures Sweeping(table, table, table.Keys, map[], 0, clock, timeout)
  {
    assert Survivors(table, Readings(map[], clock), timeout) == table;
  }

  /** One visit of the sweeper: the entry is erased or stays, the others are as they were. */
  lemma SweepingGoesOn(before: Table, table: Table, todo: set<string>, order: map<string, nat>, i: nat,
                       clock: nat -> Time, timeout: Time, code: string)
    requires Sweeping(before, table, todo, order, i, clock, timeout) && code in todo
    ensures code in table
    ensures Sweeping(before, if clock(i) - table[code].timePoint > timeout then table - {code} else table,
                     todo - {code}, order[code := i], i + 1, clock, timeout)
  {
    VisitOne(before, table, Readings(order, clock), code, clock(i), timeout);
    assert Readings(order[code := i], clock) == Readings(order, clock)[code := clock(i)];
    hide Survivors, Readings;
  }

  lemma VisitOne(before: Table, table: Table, visits: map<string, Time>, code: string, now: Time, timeout: Time)
    requires table == Survivors(before, visits, timeout) && code in before && code !in visits
    ensures code in table && table[code] == before[code]
    ensures (if now - before[code].timePoint > timeout then table - {code} else table)
            == Survivors(before, visits[code := now], timeout)
  {
  }

  lemma SweepingEnds(before: Table, table: Table, order: map<string, nat>, i: nat, clock: nat -> Time, timeout: Time)
    requires Sweeping(before, table, {}, order, i, clock, timeout)
    ensures order.Keys == before.Keys && table == Survivors(before, Readings(order, clock), timeout)
    ensures forall c :: c in before ==> (c in table <==> clock(order[c]) - before[c].timePoint <= timeout)
    ensures forall c :: c in table ==> c in before && table[c] == before[c]
    ensures forall c :: c in order ==> order[c] < |before|
    ensures forall c, d :: c in order && d in order && c != d ==> order[c] != order[d]
  {
    assert forall c :: c in before ==> Readings(order, clock)[c] == clock(order[c]);
    hide Readings;
  }

  class SessionsManager {
    var sessions: Table

    constructor ()
      ensures sessions == map[]
    {
      sessions := map[];
    }

    /**
      registerSender, for the codes that are drawn one after the other; the first free one is taken. No
      result means that no draw was free, and the program would go on drawing.
    */
    method RegisterSender(client: nat, data: bytes, draws: seq<string>, now: Time) returns (code: Option<string>)
      modifies this
      ensures (sessions, code) == AfterRegister(old(sessions), client, data, draws, now)
      ensures match code
              case None => sessions == old(sessions) && forall i :: 0 <= i < |draws| ==> draws[i] in old(sessions)
              case Some(c) =>
                && c !in old(sessions) && sessions == old(sessions)[c := TimedSession(client, data, now)]
                && exists k :: 0 <= k < |draws| && draws[k] == c && forall i :: 0 <= i < k ==> draws[i] in old(sessions)
    {
      var i := 0;
      while i < |draws|
        invariant i <= |draws| && sessions == old(sessions)
        invariant forall j :: 0 <= j < i ==> draws[j] in sessions
      {
        if draws[i] !in sessions {
          NoDrawFree(sessions, client, data, draws, now, i);
          assert draws[i..][0] == draws[i];
          sessions := sessions[draws[i] := TimedSession(client, data, now)];
          return Some(draws[i]);
        }
        i := i + 1;
      }
      NoDrawFree(sessions, client, data, draws, now, i);
      return None;
    }

    /** getSenderWithMetadata: the entry is handed out and is no longer in the table. */
    method GetSenderWithMetadata(code: string) returns (r: Result<(nat, bytes)>)
      modifies this
      ensures (sessions, r) == AfterClaim(old(sessions), code)
      ensures code in old(sessions) ==>
                r == Ok((old(sessions)[code].client, old(sessions)[code].data)) && sessions == old(sessions) - {code}
      ensures code !in old(sessions) ==> r == Err(UnknownCode) && sessions == old(sessions)
    {
      if code !in sessions {
        return Err(UnknownCode);
      }
      var session := sessions[code];
      sessions := sessions - {code};
      return Ok((session.client, session.data));
    }

    /**
      terminateTimeoutClients: every entry is visited once, in any order, with a new clock reading each
      time, and erased during the iteration if it is too old by that reading.
    */
    method TerminateTimeoutClients(timeout: Time, clock: nat -> Time) returns (ghost order: map<string, nat>)
      modifies this
      ensures order.Keys == old(sessions).Keys
      ensures forall c :: c in order ==> order[c] < |old(sessions)|
      ensures forall c, d :: c in order && d in order && c != d ==> order[c] != order[d]
      ensures sessions == Survivors(old(sessions), Readings(order, clock), timeout)
      ensures forall c :: c in old(sessions) ==>
                (c in sessions <==> clock(order[c]) - old(sessions)[c].timePoint <= timeout)
      ensures forall c :: c in sessions ==> c in old(sessions) && sessions[c] == old(sessions)[c]
    {
      hide Sweeping;
      var todo := sessions.Keys;
      var i: nat := 0;
      order := map[];
      ghost var before := sessions;
      SweepingStarts(before, clock, timeout);
      while todo != {}
        invariant Sweeping(before, sessions, todo, order, i, clock, timeout)
        decreases todo
      {
        var code :| code in todo;
        var now := clock(i);
        SweepingGoesOn(before, sessions, todo, order, i, clock, timeout, code);
        var elapsed := now - sessions[code].timePoint;
        if elapsed > timeout {
          sessions := sessions - {code};
        }
        order := order[code := i];
        todo := todo - {code};
        i := i + 1;
      }
      SweepingEnds(before, sessions, order, i, clock, timeout);
    }

    method CurrentSessions() returns (n: nat)
      ensures n == |sessions|
    {
      n := |sessions|;
    }
  }

  // ---------------------------------------------------------------------------------------------------
  // The concurrent system

  /** The word lists and the timeout. */
  datatype Config = Config(adjectives: set<string>, nouns: set<string>, timeout: nat)

  /** A registration that has taken place. Its number in the log is its ticket. */
  datatype Registration = Registration(code: string, session: TimedSession)

  /** An entry of the table, with its ticket and the clock reading at its last visit by the sweeper. */
  datatype Live = Live(session: TimedSession, ticket: nat, seen: Time)

  /** A sender handed to a receiver. */
  datatype Claim = Claim(ticket: nat, receiver: nat, code: string, client: nat, data: bytes)

  /** An erased entry, with the clock reading that condemned it. */
  datatype Expiry = Expiry(ticket: nat, at: Time)

  /**
    The table, what the handlers of sending clients have drawn outside the lock, and what has happened so
    far. Codes may be used again after a claim or an expiry; tickets are not.
  */
  datatype State = State(now: Time, live: map<string, Live>, drawn: map<nat, string>,
                         log: seq<Registration>, claims: seq<Claim>, expiries: seq<Expiry>)

  predicate Init(s: State) {
    s.live == map[] && s.drawn == map[] && s.log == [] && s.claims == [] && s.expiries == []
  }

  predicate Registered(s: State, client: nat) {
    exists t :: 0 <= t < |s.log| && s.log[t].session.client == client
  }

  predicate Tick(s: State, s': State) {
    s'.now >= s.now && s' == s.(now := s'.now)
  }

  /** generateSessionID by the handler of a client that is not registered yet: outside the lock. */
  ghost predicate Draw(cfg: Config, s: State, s': State, client: nat, code: string) {
    && code in Codes(cfg.adjectives, cfg.nouns) && !Registered(s, client)
    && s' == s.(drawn := s.drawn[client := code])
  }

  /** The locked part of registerSender: insert if the code is free, otherwise draw again later. */
  predicate Insert(s: State, s': State, client: nat, data: bytes) {
    client in s.drawn &&
    var code := s.drawn[client];
    var session := TimedSession(client, data, s.now);
    if code in s.live then s' == s.(drawn := s.drawn - {client})
    else s' == s.(drawn := s.drawn - {client}, log := s.log + [Registration(code, session)],
                  live := s.live[code := Live(session, |s.log|, s.now)])
  }

  /** getSenderWithMetadata, with what it returns recorded as a claim. */
  predicate ClaimStep(s: State, s': State, code: string, receiver: nat) {
    if code !in s.live then s' == s
    else
      var entry := s.live[code];
      s' == s.(live := s.live - {code},
               claims := s.claims + [Claim(entry.ticket, receiver, code, entry.session.client, entry.session.data)])
  }

  function TableOf(live: map<string, Live>): Table {
    map c | c in live :: live[c].session
  }

  /**
    terminateTimeoutClients under its lock: `visits` are the clock readings, and the expiries of the sweep
    are those of the entries that do not survive.
  */
  ghost predicate Sweep(cfg: Config, s: State, s': State, visits: map<string, Time>) {
    && visits.Keys == s.live.Keys && (forall c :: c in visits ==> s.now <= visits[c] <= s'.now) && s.now <= s'.now
    && TableOf(s'.live) == Survivors(TableOf(s.live), visits, cfg.timeout)
    && (forall c :: c in s'.live ==> c in s.live && s'.live[c] == s.live[c].(seen := visits[c]))
    && s.expiries <= s'.expiries && Expires(cfg, s, visits, s.live.Keys, s'.expiries[|s.expiries|..])
    && s' == s.(now := s'.now, live := s'.live, expiries := s'.expiries)
  }

  /** The entry is too old when the sweeper visits it. */
  predicate Outlived(cfg: Config, s: State, visits: map<string, Time>, c: string)
    requires visits.Keys == s.live.Keys && c in s.live
  {
    visits[c] - s.live[c].session.timePoint > cfg.timeout
  }

  /** The expiry of an entry among `codes`. */
  ghost predicate ExpiryOf(cfg: Config, s: State, visits: map<string, Time>, codes: set<string>, e: Expiry)
    requires visits.Keys == s.live.Keys && codes <= s.live.Keys
  {
    exists c :: c in codes && e == Expiry(s.live[c].ticket, visits[c]) && Outlived(cfg, s, visits, c)
  }

  /** The expiries list each entry among `codes` that is too old at its visit once, and no other. */
  ghost predicate Expires(cfg: Config, s: State, visits: map<string, Time>, codes: set<string>, es: seq<Expiry>)
    requires visits.Keys == s.live.Keys && codes <= s.live.Keys
  {
    && (forall i :: 0 <= i < |es| ==> ExpiryOf(cfg, s, visits, codes, es[i]))
    && (forall c :: c in codes && Outlived(cfg, s, visits, c) ==> Expiry(s.live[c].ticket, visits[c]) in es)
    && (forall i, j :: 0 <= i < j < |es| ==> es[i].ticket != es[j].ticket)
  }

  ghost predicate Next(cfg: Config, s: State, s': State) {
    || Tick(s, s')
    || (exists client, code :: Draw(cfg, s, s', client, code))
    || (exists client, data :: Insert(s, s', client, data))
    || (exists code, receiver :: ClaimStep(s, s', code, receiver))
    || (exists visits :: Sweep(cfg, s, s', visits))
  }

  ghost predicate IsRun(cfg: Config, run: seq<State>) {
    && run != [] && Init(run[0])
    && forall i :: 0 <= i < |run| - 1 ==> Next(cfg, run[i], run[i + 1])
  }

  ghost predicate Reachable(cfg: Config, s: State) {
    exists run :: IsRun(cfg, run) && run[|run| - 1] == s
  }

  // ---------------------------------------------------------------------------------------------------
  // Invariants

  predicate IsLive(s: State, t: nat) {
    t < |s.log| && s.log[t].code in s.live && s.live[s.log[t].code].ticket == t
  }

  predicate IsClaimed(s: State, t: nat) {
    exists i :: 0 <= i < |s.claims| && s.claims[i].ticket == t
  }

  predicate IsExpired(s: State, t: nat) {
    exists i :: 0 <= i < |s.expiries| && s.expiries[i].ticket == t
  }

  /** Exactly one of live, claimed, expired. */
  predicate OneFate(s: State, t: nat) {
    && (IsLive(s, t) || IsClaimed(s, t) || IsExpired(s, t))
    && !(IsLive(s, t) && IsClaimed(s, t)) && !(IsLive(s, t) && IsExpired(s, t)) && !(IsClaimed(s, t) && IsExpired(s, t))
  }

  /** A claim hands out what was registered together under its code. */
  predicate ClaimMatches(s: State, cl: Claim) {
    cl.ticket < |s.log| && s.log[cl.ticket].code == cl.code &&
    s.log[cl.ticket].session.client == cl.client && s.log[cl.ticket].session.data == cl.data
  }

  /** The table holds what was registered, at most `timeout` before its last visit. */
  ghost predicate TableInv(cfg: Config, s: State) {
    && (forall c :: c in s.live ==>
          && s.live[c].ticket < |s.log| && s.log[s.live[c].ticket] == Registration(c, s.live[c].session)
          && s.live[c].session.timePoint <= s.live[c].seen <= s.now
          && s.live[c].seen - s.live[c].session.timePoint <= cfg.timeout
          && c in Codes(cfg.adjectives, cfg.nouns))
    && (forall k :: k in s.drawn ==> s.drawn[k] in Codes(cfg.adjectives, cfg.nouns) && !Registered(s, k))
  }

  /** Expired entries were older than the timeout, and each expired once. */
  predicate ProperExpiries(cfg: Config, log: seq<Registration>, es: seq<Expiry>) {
    && (forall i :: 0 <= i < |es| ==>
          es[i].ticket < |log| && es[i].at - log[es[i].ticket].session.timePoint > cfg.timeout)
    && (forall i, j :: 0 <= i < j < |es| ==> es[i].ticket != es[j].ticket)
  }

  ghost predicate HistoryInv(cfg: Config, s: State) {
    && (forall t :: 0 <= t < |s.log| ==> OneFate(s, t))
    && (forall i :: 0 <= i < |s.claims| ==> ClaimMatches(s, s.claims[i]))
    && (forall i, j :: 0 <= i < j < |s.claims| ==> s.claims[i].ticket != s.claims[j].ticket)
    && ProperExpiries(cfg, s.log, s.expiries)
    && (forall t, u :: 0 <= t < u < |s.log| ==> s.log[t].session.client != s.log[u].session.client)
  }

  ghost predicate Inv(cfg: Config, s: State) {
    TableInv(cfg, s) && HistoryInv(cfg, s)
  }
}
