/** What every interleaving of draws, inserts, claims and sweeps keeps (src/server/SessionsManager.cpp). */
module SessionSafety {
  import opened Bytes
  import opened SessionCodes
  import opened Sessions

  lemma InitInv(cfg: Config, s: State)
    requires Init(s)
    ensures Inv(cfg, s)
  {
  }

  lemma TickKeeps(cfg: Config, s: State, s': State)
    requires Inv(cfg, s) && Tick(s, s')
    ensures Inv(cfg, s')
  {
    SameHistory(cfg, s, s');
  }

  lemma DrawKeeps(cfg: Config, s: State, s': State, client: nat, code: string)
    requires Inv(cfg, s) && Draw(cfg, s, s', client, code)
    ensures Inv(cfg, s')
  {
    SameHistory(cfg, s, s');
  }

  lemma SameHistory(cfg: Config, s: State, s': State)
    requires HistoryInv(cfg, s) && s' == s.(now := s'.now, drawn := s'.drawn)
    ensures HistoryInv(cfg, s')
  {
    forall t | 0 <= t < |s'.log| ensures OneFate(s', t) {
      assert OneFate(s, t);
      assert IsLive(s', t) == IsLive(s, t) && IsClaimed(s', t) == IsClaimed(s, t);
      assert IsExpired(s', t) == IsExpired(s, t);
    }
    forall i | 0 <= i < |s'.claims| ensures ClaimMatches(s', s'.claims[i]) {
      assert ClaimMatches(s, s.claims[i]);
    }
  }

  lemma InsertKeeps(cfg: Config, s: State, s': State, client: nat, data: bytes)
    requires Inv(cfg, s) && Insert(s, s', client, data)
    ensures Inv(cfg, s')
  {
    var code := s.drawn[client];
    if code in s.live {
      SameHistory(cfg, s, s');
    } else {
      InsertKeepsTable(cfg, s, s', client, data);
      InsertKeepsHistory(cfg, s, s', client, data);
    }
  }

  lemma InsertKeepsTable(cfg: Config, s: State, s': State, client: nat, data: bytes)
    requires TableInv(cfg, s) && Insert(s, s', client, data) && s.drawn[client] !in s.live
    ensures TableInv(cfg, s')
  {
    forall k | k in s'.drawn ensures !Registered(s', k) {
      if t :| 0 <= t < |s'.log| && s'.log[t].session.client == k {
        assert t < |s.log| ==> s'.log[t] == s.log[t];
        assert Registered(s, k);
      }
    }
  }

  lemma InsertKeepsHistory(cfg: Config, s: State, s': State, client: nat, data: bytes)
    requires Inv(cfg, s) && Insert(s, s', client, data) && s.drawn[client] !in s.live
    ensures HistoryInv(cfg, s')
  {
    var n := |s.log|;
    assert forall t :: 0 <= t < n ==> s'.log[t] == s.log[t];
    forall i | 0 <= i < |s'.claims| ensures ClaimMatches(s', s'.claims[i]) {
      assert ClaimMatches(s, s.claims[i]);
    }
    forall t | 0 <= t < |s'.log| ensures OneFate(s', t) {
      assert IsClaimed(s', t) == IsClaimed(s, t) && IsExpired(s', t) == IsExpired(s, t);
      if t < n {
        assert OneFate(s, t);
        assert IsLive(s', t) == IsLive(s, t);
      } else {
        assert IsLive(s', t) && !IsClaimed(s, t) && !IsExpired(s, t);
      }
    }
    forall t, u | 0 <= t < u < |s'.log| ensures s'.log[t].session.client != s'.log[u].session.client {
      assert u == n ==> !Registered(s, client);
    }
  }

  lemma ClaimKeeps(cfg: Config, s: State, s': State, code: string, receiver: nat)
    requires Inv(cfg, s) && ClaimStep(s, s', code, receiver)
    ensures Inv(cfg, s')
  {
    if code in s.live {
      var ticket := s.live[code].ticket;
      var n := |s.claims|;
      assert IsLive(s, ticket) && OneFate(s, ticket);
      assert forall i :: 0 <= i < n ==> s'.claims[i] == s.claims[i];
      forall k | k in s'.drawn ensures !Registered(s', k) {
        assert !Registered(s, k);
      }
      forall i | 0 <= i < |s'.claims| ensures ClaimMatches(s', s'.claims[i]) {
        assert i < n ==> ClaimMatches(s, s.claims[i]);
      }
      forall t | 0 <= t < |s'.log| ensures OneFate(s', t) {
        assert OneFate(s, t);
        assert s'.claims[n].ticket == ticket;
        assert IsLive(s', t) == (IsLive(s, t) && t != ticket);
        assert IsClaimed(s', t) == (IsClaimed(s, t) || t == ticket);
        assert IsExpired(s', t) == IsExpired(s, t);
      }
      forall i, j | 0 <= i < j < |s'.claims| ensures s'.claims[i].ticket != s'.claims[j].ticket {
        assert j == n ==> !IsClaimed(s, ticket);
      }
    }
  }

  /** A sweep keeps exactly the entries that are not too old at their visit, and expires the others. */
  lemma {:induction false} SweepExactly(cfg: Config, s: State, s': State, visits: map<string, Time>)
    requires TableInv(cfg, s) && Sweep(cfg, s, s', visits)
    ensures forall c :: c in s.live ==> (c in s'.live <==> !Outlived(cfg, s, visits, c))
    ensures forall c :: c in s'.live ==>
              c in s.live && s'.live[c].ticket == s.live[c].ticket && s'.live[c].session == s.live[c].session
    ensures forall t :: 0 <= t < |s.log| ==>
              (IsExpired(s', t) <==> IsExpired(s, t) || (IsLive(s, t) && Outlived(cfg, s, visits, s.log[t].code)))
    ensures forall t :: 0 <= t < |s.log| ==>
              (IsLive(s', t) <==> IsLive(s, t) && !Outlived(cfg, s, visits, s.log[t].code))
  {
    forall c | c in s.live ensures c in s'.live <==> !Outlived(cfg, s, visits, c) {
      assert TableOf(s.live)[c] == s.live[c].session;
      assert c in s'.live <==> c in TableOf(s'.live);
      assert c in TableOf(s'.live) <==> c in Survivors(TableOf(s.live), visits, cfg.timeout);
    }
    forall t | 0 <= t < |s.log|
      ensures IsExpired(s', t) <==> IsExpired(s, t) || (IsLive(s, t) && Outlived(cfg, s, visits, s.log[t].code))
    {
      ExpiredBySweep(cfg, s, s', visits, t);
    }
  }

  lemma ExpiredBySweep(cfg: Config, s: State, s': State, visits: map<string, Time>, t: nat)
    requires TableInv(cfg, s) && Sweep(cfg, s, s', visits) && t < |s.log|
    ensures IsExpired(s', t) <==> IsExpired(s, t) || (IsLive(s, t) && Outlived(cfg, s, visits, s.log[t].code))
  {
    var es := SweepExpires(cfg, s, s', visits);
    hide TableInv, Sweep, Expires, IsExpired, IsLive, Outlived;
    ExpiredInParts(s, s', es, t);
    ListedExactly(cfg, s, visits, es, t);
  }

  lemma SweepExpires(cfg: Config, s: State, s': State, visits: map<string, Time>) returns (es: seq<Expiry>)
    requires Sweep(cfg, s, s', visits)
    ensures visits.Keys == s.live.Keys && s'.log == s.log && s'.expiries == s.expiries + es
    ensures Expires(cfg, s, visits, s.live.Keys, es)
  {
    hide Expires, Survivors, TableOf;
    es := s'.expiries[|s.expiries|..];
  }

  lemma ListedExactly(cfg: Config, s: State, visits: map<string, Time>, es: seq<Expiry>, t: nat)
    requires TableInv(cfg, s) && visits.Keys == s.live.Keys && Expires(cfg, s, visits, s.live.Keys, es) && t < |s.log|
    ensures (exists i :: 0 <= i < |es| && es[i].ticket == t) <==>
            IsLive(s, t) && Outlived(cfg, s, visits, s.log[t].code)
  {
    if i :| 0 <= i < |es| && es[i].ticket == t {
      OutlivedIsLive(cfg, s, visits, es, i);
    }
    hide TableInv;
    if IsLive(s, t) && Outlived(cfg, s, visits, s.log[t].code) {
      var c := s.log[t].code;
      var i :| 0 <= i < |es| && es[i] == Expiry(s.live[c].ticket, visits[c]);
      assert es[i].ticket == t;
    }
  }

  lemma ExpiredInParts(s: State, s': State, es: seq<Expiry>, t: nat)
    requires s'.expiries == s.expiries + es
    ensures IsExpired(s', t) <==> IsExpired(s, t) || exists i :: 0 <= i < |es| && es[i].ticket == t
  {
    var n := |s.expiries|;
    if IsExpired(s, t) {
      var i :| 0 <= i < n && s.expiries[i].ticket == t;
      assert s'.expiries[i].ticket == t;
    }
    if i :| 0 <= i < |es| && es[i].ticket == t {
      assert s'.expiries[n + i].ticket == t;
    }
  }

  lemma OutlivedIsLive(cfg: Config, s: State, visits: map<string, Time>, es: seq<Expiry>, i: nat)
    requires TableInv(cfg, s) && visits.Keys == s.live.Keys && Expires(cfg, s, visits, s.live.Keys, es) && i < |es|
    ensures var t := es[i].ticket;
            && IsLive(s, t) && Outlived(cfg, s, visits, s.log[t].code)
            && es[i].at - s.log[t].session.timePoint > cfg.timeout
  {
    assert ExpiryOf(cfg, s, visits, s.live.Keys, es[i]);
    var c :| c in s.live.Keys && es[i] == Expiry(s.live[c].ticket, visits[c]) && Outlived(cfg, s, visits, c);
  }

  lemma SweepKeeps(cfg: Config, s: State, s': State, visits: map<string, Time>)
    requires Inv(cfg, s) && Sweep(cfg, s, s', visits)
    ensures Inv(cfg, s')
  {
    hide Sweep;
    SweepKeepsTable(cfg, s, s', visits);
    SweepKeepsFates(cfg, s, s', visits);
    SweepKeepsExpiries(cfg, s, s', visits);
    SweepFrame(cfg, s, s', visits);
  }

  lemma SweepFrame(cfg: Config, s: State, s': State, visits: map<string, Time>)
    requires Inv(cfg, s) && Sweep(cfg, s, s', visits)
    ensures s'.log == s.log && s'.claims == s.claims && s.expiries <= s'.expiries && s.now <= s'.now
    ensures forall i :: 0 <= i < |s'.claims| ==> ClaimMatches(s', s'.claims[i])
  {
    forall i | 0 <= i < |s'.claims| ensures ClaimMatches(s', s'.claims[i]) {
      assert ClaimMatches(s, s.claims[i]);
    }
  }

  lemma {:induction false} SweepKeepsTable(cfg: Config, s: State, s': State, visits: map<string, Time>)
    requires Inv(cfg, s) && Sweep(cfg, s, s', visits)
    ensures TableInv(cfg, s')
  {
    SweepExactly(cfg, s, s', visits);
    forall c | c in s'.live
      ensures s'.live[c].session.timePoint <= s'.live[c].seen <= s'.now
      ensures s'.live[c].seen - s'.live[c].session.timePoint <= cfg.timeout
    {
      assert c in visits && !Outlived(cfg, s, visits, c);
    }
    forall k | k in s'.drawn ensures !Registered(s', k) {
      assert !Registered(s, k);
    }
  }

  lemma SweepKeepsFates(cfg: Config, s: State, s': State, visits: map<string, Time>)
    requires Inv(cfg, s) && Sweep(cfg, s, s', visits)
    ensures forall t :: 0 <= t < |s'.log| ==> OneFate(s', t)
  {
    SweepExactly(cfg, s, s', visits);
    forall t | 0 <= t < |s'.log| ensures OneFate(s', t) {
      assert OneFate(s, t);
      assert IsClaimed(s', t) == IsClaimed(s, t);
    }
  }

  lemma {:induction false} SweepKeepsExpiries(cfg: Config, s: State, s': State, visits: map<string, Time>)
    requires Inv(cfg, s) && Sweep(cfg, s, s', visits)
    ensures ProperExpiries(cfg, s'.log, s'.expiries)
  {
    var es := SweepExpires(cfg, s, s', visits);
    forall i | 0 <= i < |es|
      ensures IsLive(s, es[i].ticket) && es[i].at - s.log[es[i].ticket].session.timePoint > cfg.timeout
    {
      OutlivedIsLive(cfg, s, visits, es, i);
    }
    assert ProperExpiries(cfg, s.log, es);
    hide Sweep, Expires, ExpiryOf, TableInv, ProperExpiries;
    forall i, j | 0 <= i < |s.expiries| && 0 <= j < |es| ensures s.expiries[i].ticket != es[j].ticket {
      assert IsLive(s, es[j].ticket) && OneFate(s, es[j].ticket) && !IsExpired(s, es[j].ticket);
    }
    JoinExpiries(cfg, s.log, s.expiries, es);
  }

  lemma JoinExpiries(cfg: Config, log: seq<Registration>, a: seq<Expiry>, b: seq<Expiry>)
    requires ProperExpiries(cfg, log, a) && ProperExpiries(cfg, log, b)
    requires forall i, j :: 0 <= i < |a| && 0 <= j < |b| ==> a[i].ticket != b[j].ticket
    ensures ProperExpiries(cfg, log, a + b)
  {
  }

  lemma StepInv(cfg: Config, s: State, s': State)
    requires Inv(cfg, s) && Next(cfg, s, s')
    ensures Inv(cfg, s')
  {
    hide Inv, Tick, Draw, Insert, ClaimStep, Sweep;
    if Tick(s, s') {
      TickKeeps(cfg, s, s');
    } else if client, code :| Draw(cfg, s, s', client, code) {
      DrawKeeps(cfg, s, s', client, code);
    } else if client, data :| Insert(s, s', client, data) {
      InsertKeeps(cfg, s, s', client, data);
    } else if code, receiver :| ClaimStep(s, s', code, receiver) {
      ClaimKeeps(cfg, s, s', code, receiver);
    } else {
      var visits :| Sweep(cfg, s, s', visits);
      SweepKeeps(cfg, s, s', visits);
    }
  }

  lemma {:induction false} RunInv(cfg: Config, run: seq<State>, k: nat)
    requires IsRun(cfg, run) && k < |run|
    ensures Inv(cfg, run[k])
  {
    hide Inv, Init, Next;
    if k == 0 {
      InitInv(cfg, run[0]);
    } else {
      RunInv(cfg, run, k - 1);
      assert Next(cfg, run[k - 1], run[k - 1 + 1]);
      StepInv(cfg, run[k - 1], run[k]);
    }
  }

  // ---------------------------------------------------------------------------------------------------
  // Main results

  /**
    Over every interleaving, each registration is live, was claimed, or has expired, exactly one of the
    three; no sender goes to two receivers; a claim hands out the sender and the metadata that were
    registered together under its code; and nothing expires at the timeout or below it.
  */
  lemma SessionLinearity(cfg: Config, s: State)
    requires Reachable(cfg, s)
    ensures forall t :: 0 <= t < |s.log| ==> OneFate(s, t)
    ensures forall cl :: cl in s.claims ==>
              0 <= cl.ticket < |s.log| && s.log[cl.ticket] == Registration(cl.code, s.log[cl.ticket].session)
              && s.log[cl.ticket].session.client == cl.client && s.log[cl.ticket].session.data == cl.data
    ensures forall i, j :: 0 <= i < |s.claims| && 0 <= j < |s.claims| && i != j ==>
              s.claims[i].client != s.claims[j].client
    ensures forall e :: e in s.expiries ==>
              0 <= e.ticket < |s.log| && e.at - s.log[e.ticket].session.timePoint > cfg.timeout
    ensures forall i, j :: 0 <= i < j < |s.expiries| ==> s.expiries[i].ticket != s.expiries[j].ticket
  {
    var run :| IsRun(cfg, run) && run[|run| - 1] == s;
    RunInv(cfg, run, |run| - 1);
    forall cl | cl in s.claims ensures ClaimMatches(s, cl) {
      var i :| 0 <= i < |s.claims| && s.claims[i] == cl;
    }
    forall i, j | 0 <= i < |s.claims| && 0 <= j < |s.claims| && i != j
      ensures s.claims[i].client != s.claims[j].client
    {
      var t, u := s.claims[i].ticket, s.claims[j].ticket;
      assert ClaimMatches(s, s.claims[i]) && ClaimMatches(s, s.claims[j]);
      assert t != u by {
        if i < j {
          assert s.claims[i].ticket != s.claims[j].ticket;
        } else {
          assert s.claims[j].ticket != s.claims[i].ticket;
        }
      }
      if t < u {
        assert s.log[t].session.client != s.log[u].session.client;
      } else {
        assert s.log[u].session.client != s.log[t].session.client;
      }
    }
  }

  /** Live entries that stay belong to the same registration; the log, the claims and the expiries only grow. */
  predicate Grows(s: State, s': State) {
    && (forall c :: c in s.live && c in s'.live ==>
          s'.live[c].ticket == s.live[c].ticket && s'.live[c].session == s.live[c].session)
    && s.log <= s'.log && s.claims <= s'.claims && s.expiries <= s'.expiries && s.now <= s'.now
  }

  lemma DrawGrows(cfg: Config, s: State, s': State, client: nat, code: string)
    requires Tick(s, s') || Draw(cfg, s, s', client, code)
    ensures Grows(s, s')
  {
  }

  lemma InsertGrows(s: State, s': State, client: nat, data: bytes)
    requires Insert(s, s', client, data)
    ensures Grows(s, s')
  {
  }

  lemma ClaimGrows(s: State, s': State, code: string, receiver: nat)
    requires ClaimStep(s, s', code, receiver)
    ensures Grows(s, s')
  {
  }

  lemma SweepGrows(cfg: Config, s: State, s': State, visits: map<string, Time>)
    requires Sweep(cfg, s, s', visits)
    ensures Grows(s, s')
  {
  }

  /**
    No step overwrites a live entry or forgets what has happened: an entry that is in the table before and
    after a step belongs to the same registration, and the log, the claims and the expiries only grow.
  */
  lemma NothingOverwritten(cfg: Config, s: State, s': State)
    requires Next(cfg, s, s')
    ensures Grows(s, s')
  {
    hide Tick, Draw, Insert, ClaimStep, Sweep, Grows;
    if Tick(s, s') {
      DrawGrows(cfg, s, s', 0, "");
    } else if client, code :| Draw(cfg, s, s', client, code) {
      DrawGrows(cfg, s, s', client, code);
    } else if client, data :| Insert(s, s', client, data) {
      InsertGrows(s, s', client, data);
    } else if code, receiver :| ClaimStep(s, s', code, receiver) {
      ClaimGrows(s, s', code, receiver);
    } else {
      var visits :| Sweep(cfg, s, s', visits);
      SweepGrows(cfg, s, s', visits);
    }
  }

  /** Once claimed, always claimed, and never expired. */
  lemma {:induction false} ClaimedForGood(cfg: Config, run: seq<State>, k: nat, m: nat, t: nat)
    requires IsRun(cfg, run) && k <= m < |run| && IsClaimed(run[k], t)
    ensures IsClaimed(run[m], t) && !IsExpired(run[m], t) && !IsLive(run[m], t)
    decreases m - k
  {
    hide Inv, Init, Next, IsExpired, IsLive;
    if k == m {
      RunInv(cfg, run, m);
      FateOfClaimed(cfg, run[m], t);
    } else {
      RunInv(cfg, run, k);
      assert Next(cfg, run[k], run[k + 1]);
      NothingOverwritten(cfg, run[k], run[k + 1]);
      var i :| 0 <= i < |run[k].claims| && run[k].claims[i].ticket == t;
      assert run[k + 1].claims[i].ticket == t;
      ClaimedForGood(cfg, run, k + 1, m, t);
    }
  }

  lemma FateOfClaimed(cfg: Config, s: State, t: nat)
    requires Inv(cfg, s) && IsClaimed(s, t)
    ensures !IsExpired(s, t) && !IsLive(s, t)
  {
    var i :| 0 <= i < |s.claims| && s.claims[i].ticket == t;
    assert ClaimMatches(s, s.claims[i]) && OneFate(s, t);
  }

  /** If no entry has been unvisited for longer than d, none is older than the timeout and d together. */
  lemma TimeoutBound(cfg: Config, s: State, d: nat)
    requires Reachable(cfg, s)
    requires forall c :: c in s.live ==> s.now - s.live[c].seen <= d
    ensures forall c :: c in s.live ==> 0 <= s.now - s.live[c].session.timePoint <= cfg.timeout + d
  {
    var run :| IsRun(cfg, run) && run[|run| - 1] == s;
    RunInv(cfg, run, |run| - 1);
  }

  /**
    There are never more sessions than codes, and a drawing handler can still find a free code exactly
    while there are fewer.
  */
  lemma SessionCapacity(cfg: Config, s: State)
    requires Reachable(cfg, s) && Dashless(cfg.nouns)
    ensures |s.live| <= |cfg.adjectives| * (|cfg.nouns| * CODES_PER_PAIR)
    ensures (exists c :: c in Codes(cfg.adjectives, cfg.nouns) && c !in s.live) <==>
            |s.live| < |cfg.adjectives| * (|cfg.nouns| * CODES_PER_PAIR)
  {
    var run :| IsRun(cfg, run) && run[|run| - 1] == s;
    RunInv(cfg, run, |run| - 1);
    FreeCodeExactly(s.live.Keys, cfg.adjectives, cfg.nouns);
    assert |s.live| == |s.live.Keys|;
  }

  /** The entries that a sweep erases can be listed, in some order. */
  lemma {:induction false} ListExpired(cfg: Config, s: State, visits: map<string, Time>, codes: set<string>)
    returns (es: seq<Expiry>)
    requires TableInv(cfg, s) && visits.Keys == s.live.Keys && codes <= s.live.Keys
    ensures Expires(cfg, s, visits, codes, es)
    decreases codes
  {
    if codes == {} {
      es := [];
    } else {
      var code :| code in codes;
      es := ListExpired(cfg, s, visits, codes - {code});
      hide Expires;
      OneMoreListed(cfg, s, visits, codes, code, es);
      if Outlived(cfg, s, visits, code) {
        es := es + [Expiry(s.live[code].ticket, visits[code])];
      }
    }
  }

  lemma OneMoreListed(cfg: Config, s: State, visits: map<string, Time>, codes: set<string>, code: string,
                      es: seq<Expiry>)
    requires TableInv(cfg, s) && visits.Keys == s.live.Keys && codes <= s.live.Keys && code in codes
    requires Expires(cfg, s, visits, codes - {code}, es)
    ensures if Outlived(cfg, s, visits, code)
            then Expires(cfg, s, visits, codes, es + [Expiry(s.live[code].ticket, visits[code])])
            else Expires(cfg, s, visits, codes, es)
  {
    hide TableInv;
    var last := Expiry(s.live[code].ticket, visits[code]);
    forall i | 0 <= i < |es| ensures es[i].ticket != last.ticket && ExpiryOf(cfg, s, visits, codes, es[i]) {
      assert ExpiryOf(cfg, s, visits, codes - {code}, es[i]);
      var c :| c in codes - {code} && es[i] == Expiry(s.live[c].ticket, visits[c]) && Outlived(cfg, s, visits, c);
      TicketsDiffer(cfg, s, c, code);
    }
    if Outlived(cfg, s, visits, code) {
      assert ExpiryOf(cfg, s, visits, codes, last);
      assert last in es + [last];
    }
  }

  lemma TicketsDiffer(cfg: Config, s: State, c: string, d: string)
    requires TableInv(cfg, s) && c in s.live && d in s.live && c != d
    ensures s.live[c].ticket != s.live[d].ticket
  {
    assert s.log[s.live[c].ticket].code == c && s.log[s.live[d].ticket].code == d;
  }

  /** A sweep can take place in every reachable state, whatever clock readings its visits get. */
  lemma SweepPossible(cfg: Config, s: State, visits: map<string, Time>, now: Time)
    requires Reachable(cfg, s) && visits.Keys == s.live.Keys
    requires s.now <= now && forall c :: c in visits ==> s.now <= visits[c] <= now
    ensures exists s' :: Sweep(cfg, s, s', visits) && s'.now == now
  {
    var run :| IsRun(cfg, run) && run[|run| - 1] == s;
    RunInv(cfg, run, |run| - 1);
    SweepFrom(cfg, s, visits, now);
  }

  lemma SweepFrom(cfg: Config, s: State, visits: map<string, Time>, now: Time)
    requires TableInv(cfg, s) && visits.Keys == s.live.Keys
    requires s.now <= now && forall c :: c in visits ==> s.now <= visits[c] <= now
    ensures exists s' :: Sweep(cfg, s, s', visits) && s'.now == now
  {
    var es := ListExpired(cfg, s, visits, s.live.Keys);
    var live := map c | c in s.live && !Outlived(cfg, s, visits, c) :: s.live[c].(seen := visits[c]);
    var s' := s.(now := now, live := live, expiries := s.expiries + es);
    SurvivorsOf(cfg, s, live, visits);
    SweepBy(cfg, s, s', visits, es);
  }

  lemma SweepBy(cfg: Config, s: State, s': State, visits: map<string, Time>, es: seq<Expiry>)
    requires visits.Keys == s.live.Keys && (forall c :: c in visits ==> s.now <= visits[c] <= s'.now) && s.now <= s'.now
    requires TableOf(s'.live) == Survivors(TableOf(s.live), visits, cfg.timeout)
    requires forall c :: c in s'.live ==> c in s.live && s'.live[c] == s.live[c].(seen := visits[c])
    requires Expires(cfg, s, visits, s.live.Keys, es)
    requires s' == s.(now := s'.now, live := s'.live, expiries := s.expiries + es)
    ensures Sweep(cfg, s, s', visits)
  {
    hide Expires, Survivors, TableOf;
    assert s'.expiries[|s.expiries|..] == es;
  }

  lemma SurvivorsOf(cfg: Config, s: State, live: map<string, Live>, visits: map<string, Time>)
    requires visits.Keys == s.live.Keys
    requires live == map c | c in s.live && !Outlived(cfg, s, visits, c) :: s.live[c].(seen := visits[c])
    ensures TableOf(live) == Survivors(TableOf(s.live), visits, cfg.timeout)
  {
  }

  // ---------------------------------------------------------------------------------------------------
  // The steps do to the table what the methods of SessionsManager do

  /** An insert is what registerSender does with the one code drawn before, also in what it logs. */
  lemma InsertIsRegisterSender(s: State, s': State, client: nat, data: bytes)
    requires Insert(s, s', client, data)
    ensures var (table, code) := AfterRegister(TableOf(s.live), client, data, [s.drawn[client]], s.now);
            && TableOf(s'.live) == table
            && s'.log == match code
                         case Some(c) => s.log + [Registration(c, TimedSession(client, data, s.now))]
                         case None => s.log
  {
    var code := s.drawn[client];
    assert [code][1..] == [];
    assert code in TableOf(s.live) <==> code in s.live;
  }

  /** A claim is what getSenderWithMetadata does, and records what it returns. */
  lemma ClaimIsGetSender(s: State, s': State, code: string, receiver: nat)
    requires ClaimStep(s, s', code, receiver)
    ensures var (table, r) := AfterClaim(TableOf(s.live), code);
            && TableOf(s'.live) == table
            && match r
               case Ok((client, data)) =>
                 code in s.live && s'.claims == s.claims + [Claim(s.live[code].ticket, receiver, code, client, data)]
               case Err(_) => s' == s
  {
  }
}
