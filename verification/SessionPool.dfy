/** CASE sessions with keepalive and exponential reconnect (src/gateway/SessionPool.cpp).

    Instants and durations are in one unit. What the chip-tool driver answers is a parameter. */
module SessionPool {
  import opened Types

  type VanId = string
  datatype SessionState = Disconnected | Connecting | Connected | Reconnecting | Failed

  datatype VanSession = VanSession(
    vanId: VanId, deviceId: u64, state: SessionState, connectedAt: int, lastActivity: int,
    lastKeepalive: int, nextReconnect: int, reconnectAttempts: nat, totalReconnects: nat)

  datatype Config = Config(keepaliveInterval: int, sessionTimeout: int, base: nat, max: nat, maxAttempts: nat)

  /** What the driver answers for one van at one tick. */
  datatype Answer = Answer(keepaliveOk: bool, caseOk: bool)

  // ---------------------------------------------------------------------
  // Backoff.
  // ---------------------------------------------------------------------

  function Pow2(n: nat): (p: nat)
    ensures p >= 1
  {
    if n == 0 then 1 else 2 * Pow2(n - 1)
  }

  /** The delay after the given attempt, counted from one. */
  function Backoff(c: Config, attempt: nat): nat {
    Min(c.base * Pow2(if attempt == 0 then 0 else attempt - 1), c.max)
  }

  lemma {:induction false} Pow2Grows(i: nat, j: nat)
    requires i <= j
    ensures Pow2(i) <= Pow2(j)
  {
    if i < j { Pow2Grows(i, j - 1); }
  }

  lemma ScaledPow2(base: nat, i: nat)
    ensures base * Pow2(i + 1) == 2 * (base * Pow2(i))
  {
  }

  lemma ProductGrows(base: nat, x: nat, y: nat)
    requires x <= y
    ensures base * x <= base * y
  {
    assert base * y - base * x == base * (y - x);
  }

  /** Doubling until the maximum is reached gives the base times a power of two, capped. */
  method CalculateBackoff(c: Config, attempt: nat) returns (delay: nat)
    ensures delay == Backoff(c, attempt)
  {
    var d := c.base;
    var i := 1;
    assert Pow2(0) == 1;
    while i < attempt && d < c.max
      invariant 1 <= i && (attempt >= 1 ==> i <= attempt)
      invariant d == c.base * Pow2(i - 1)
      invariant attempt == 0 ==> i == 1
      decreases attempt - i
    {
      ScaledPow2(c.base, i - 1);
      d := d * 2;
      i := i + 1;
    }
    if i < attempt {
      Pow2Grows(i - 1, attempt - 1);
      ProductGrows(c.base, Pow2(i - 1), Pow2(attempt - 1));
    }
    delay := Min(d, c.max);
  }

  /** The backoffs never shrink, and never exceed the maximum. */
  lemma BackoffGrows(c: Config, i: nat, j: nat)
    requires i <= j
    ensures Backoff(c, i) <= Backoff(c, j) <= c.max
  {
    var x, y := if i == 0 then 0 else i - 1, if j == 0 then 0 else j - 1;
    Pow2Grows(x, y);
    ProductGrows(c.base, Pow2(x), Pow2(y));
  }

  /** The first delay is the base, each later one twice the one before, none above the maximum. */
  lemma BackoffDoubles(c: Config, n: nat)
    requires n > 0
    ensures Backoff(c, 1) == Min(c.base, c.max) && Backoff(c, n + 1) == Min(2 * Backoff(c, n), c.max)
  {
    ScaledPow2(c.base, n - 1);
    assert Pow2(0) == 1;
  }

  function BackoffSum(c: Config, n: nat): nat {
    if n == 0 then 0 else BackoffSum(c, n - 1) + Backoff(c, n)
  }

  // ---------------------------------------------------------------------
  // One session at one tick.
  // ---------------------------------------------------------------------

  /** A session just opened; one whose CASE call failed is not retried, although it has a retry instant. */
  function Opened(c: Config, van: VanId, device: u64, now: int, ok: bool): VanSession {
    if ok then VanSession(van, device, Connected, now, now, now, 0, 0, 0)
    else VanSession(van, device, Failed, 0, 0, 0, now + c.base, 0, 0)
  }

  function Kept(c: Config, s: VanSession, now: int, ok: bool): VanSession {
    var s' := s.(lastKeepalive := now);
    if ok then s'.(lastActivity := now)
    else s'.(state := Reconnecting, nextReconnect := now + c.base, reconnectAttempts := 0)
  }

  /** Whether a reconnect attempt makes a CASE call: not once the attempts are used up. */
  predicate CallsCase(c: Config, s: VanSession, now: int) {
    s.state == Reconnecting && now >= s.nextReconnect && s.reconnectAttempts < c.maxAttempts
  }

  function Attempted(c: Config, s: VanSession, now: int, ok: bool): VanSession {
    var s' := s.(reconnectAttempts := s.reconnectAttempts + 1);
    if s'.reconnectAttempts > c.maxAttempts then s'.(state := Failed)
    else if ok then
      s'.(state := Connected, connectedAt := now, lastActivity := now, lastKeepalive := now,
          reconnectAttempts := 0, totalReconnects := s.totalReconnects + 1)
    else s'.(nextReconnect := now + Backoff(c, s'.reconnectAttempts))
  }

  function Ticked(c: Config, s: VanSession, now: int, a: Answer): VanSession {
    match s.state
    case Connected =>
      var s' := if now - s.lastKeepalive >= c.keepaliveInterval then Kept(c, s, now, a.keepaliveOk) else s;
      if now - s'.lastActivity >= c.sessionTimeout then s'.(state := Disconnected) else s'
    case Reconnecting => if now >= s.nextReconnect then Attempted(c, s, now, a.caseOk) else s
    case _ => s
  }

  // ---------------------------------------------------------------------
  // The pool as the program keeps it.
  // ---------------------------------------------------------------------

  class CASESessionPool {
    const config: Config
    var sessions: map<VanId, VanSession>
    var caseCalls: multiset<VanId>

    constructor (config: Config)
      ensures this.config == config && sessions == map[] && caseCalls == multiset{}
    {
      this.config := config;
      sessions, caseCalls := map[], multiset{};
    }

    method Connect(van: VanId, device: u64, now: int, caseOk: bool) returns (ok: bool)
      modifies this
      ensures ok == caseOk && caseCalls == old(caseCalls) + multiset{van}
      ensures sessions == old(sessions)[van := Opened(config, van, device, now, caseOk)]
      ensures van in sessions && sessions[van].vanId == van && sessions[van].deviceId == device
      ensures var s := sessions[van];
              if ok then s.state == Connected && s.connectedAt == s.lastActivity == s.lastKeepalive == now
              else s.state == Failed && s.nextReconnect == now + config.base
    {
      var s := VanSession(van, device, Connecting, 0, 0, 0, 0, 0, 0);
      caseCalls := caseCalls + multiset{van};
      if caseOk {
        s := s.(state := Connected, connectedAt := now, lastActivity := now, lastKeepalive := now);
      } else {
        s := s.(state := Failed, nextReconnect := now + config.base);
      }
      sessions := sessions[van := s];
      return s.state != Failed;
    }

    /** Each session moves on its own. */
    method Tick(now: int, answers: VanId -> Answer)
      modifies this
      ensures sessions == map v | v in old(sessions) :: Ticked(config, old(sessions)[v], now, answers(v))
      ensures forall v | v in old(sessions) :: caseCalls[v] == old(caseCalls)[v] + Called(old(sessions)[v], now)
      ensures forall v | v !in old(sessions) :: caseCalls[v] == old(caseCalls)[v]
    {
      hide Ticked, CallsCase;
      var todo := sessions.Keys;
      while todo != {}
        invariant todo <= sessions.Keys == old(sessions).Keys
        invariant forall v | v in todo :: sessions[v] == old(sessions)[v]
        invariant forall v | v in sessions && v !in todo ::
          sessions[v] == Ticked(config, old(sessions)[v], now, answers(v))
        invariant forall v | v in sessions && v !in todo ::
          caseCalls[v] == old(caseCalls)[v] + Called(old(sessions)[v], now)
        invariant forall v | v !in sessions || v in todo :: caseCalls[v] == old(caseCalls)[v]
        decreases todo
      {
        var v :| v in todo;
        todo := todo - {v};
        var s := TickSession(v, sessions[v], now, answers(v));
        sessions := sessions[v := s];
      }
    }

    /** How many CASE calls a tick makes for a session. */
    function Called(s: VanSession, now: int): nat {
      if CallsCase(config, s, now) then 1 else 0
    }

    method TickSession(van: VanId, s0: VanSession, now: int, a: Answer) returns (s: VanSession)
      modifies this`caseCalls
      ensures s == Ticked(config, s0, now, a)
      ensures s0.state == Connected ==>
                var due := now - s0.lastKeepalive >= config.keepaliveInterval;
                var idle := now - (if due && a.keepaliveOk then now else s0.lastActivity) >= config.sessionTimeout;
                && s.state == (if idle then Disconnected else if due && !a.keepaliveOk then Reconnecting else Connected)
                && s.lastKeepalive == (if due then now else s0.lastKeepalive)
                && s.lastActivity == (if due && a.keepaliveOk then now else s0.lastActivity)
      ensures s0.state == Reconnecting ==>
                if now < s0.nextReconnect then s == s0
                else s.state == (if s0.reconnectAttempts >= config.maxAttempts then Failed
                                 else if a.caseOk then Connected else Reconnecting)
      ensures s0.state != Connected && s0.state != Reconnecting ==> s == s0
      ensures caseCalls == old(caseCalls)[van := old(caseCalls)[van] + Called(s0, now)]
    {
      s := s0;
      if s.state == Connected {
        if now - s.lastKeepalive >= config.keepaliveInterval {
          s := SendKeepalive(s, now, a.keepaliveOk);
        }
        if now - s.lastActivity >= config.sessionTimeout {
          s := s.(state := Disconnected);
        }
      } else if s.state == Reconnecting {
        if now >= s.nextReconnect {
          s := AttemptReconnect(van, s, now, a.caseOk);
        }
      }
    }

    method SendKeepalive(s0: VanSession, now: int, ok: bool) returns (s: VanSession)
      ensures s == Kept(config, s0, now, ok)
      ensures s.lastKeepalive == now
      ensures if ok then s.state == s0.state && s.lastActivity == now
              else s.state == Reconnecting && s.lastActivity == s0.lastActivity
                   && s.nextReconnect == now + config.base && s.reconnectAttempts == 0
    {
      s := s0.(lastKeepalive := now);
      if !ok {
        s := s.(state := Reconnecting);
        s := s.(nextReconnect := now + config.base);
        s := s.(reconnectAttempts := 0);
      } else {
        s := s.(lastActivity := now);
      }
    }

    method AttemptReconnect(van: VanId, s0: VanSession, now: int, ok: bool) returns (s: VanSession)
      modifies this`caseCalls
      ensures s == Attempted(config, s0, now, ok)
      ensures if s0.reconnectAttempts >= config.maxAttempts then s.state == Failed
              else if ok then s.state == Connected && s.connectedAt == s.lastActivity == s.lastKeepalive == now
                              && s.reconnectAttempts == 0 && s.totalReconnects == s0.totalReconnects + 1
              else s.state == s0.state && s.reconnectAttempts == s0.reconnectAttempts + 1
                   && s.nextReconnect == now + Backoff(config, s.reconnectAttempts)
      ensures caseCalls == if s0.reconnectAttempts < config.maxAttempts
                           then old(caseCalls)[van := old(caseCalls)[van] + 1]
                           else old(caseCalls)
    {
      s := s0.(reconnectAttempts := s0.reconnectAttempts + 1);
      if s.reconnectAttempts > config.maxAttempts {
        s := s.(state := Failed);
        return;
      }
      caseCalls := caseCalls[van := caseCalls[van] + 1];
      if ok {
        s := s.(state := Connected, connectedAt := now, lastActivity := now, lastKeepalive := now,
                reconnectAttempts := 0, totalReconnects := s.totalReconnects + 1);
      } else {
        var delay := CalculateBackoff(config, s.reconnectAttempts);
        s := s.(nextReconnect := now + delay);
      }
    }
  }

  // ---------------------------------------------------------------------
  // A whole episode of failing reconnects.
  // ---------------------------------------------------------------------

  datatype Visit = Visit(now: int, answer: Answer)

  function Run(c: Config, s: VanSession, visits: seq<Visit>): VanSession
    decreases |visits|
  {
    if visits == [] then s else Run(c, Ticked(c, s, visits[0].now, visits[0].answer), visits[1..])
  }

  function CaseCalls(c: Config, s: VanSession, visits: seq<Visit>): nat
    decreases |visits|
  {
    if visits == [] then 0
    else
      var v := visits[0];
      CaseCalls(c, Ticked(c, s, v.now, v.answer), visits[1..]) + (if CallsCase(c, s, v.now) then 1 else 0)
  }

  /** The ticks that find a reconnect due. */
  function DueVisits(c: Config, s: VanSession, visits: seq<Visit>): nat
    decreases |visits|
  {
    if visits == [] then 0
    else
      var v := visits[0];
      DueVisits(c, Ticked(c, s, v.now, v.answer), visits[1..])
        + (if s.state == Reconnecting && v.now >= s.nextReconnect then 1 else 0)
  }

  ghost predicate AllFail(visits: seq<Visit>) {
    forall i | 0 <= i < |visits| :: !visits[i].answer.caseOk
  }

  /** Left in Reconnecting at `t0`: the keepalive failed and the session had not gone idle. */
  lemma FailedKeepaliveStartsEpisode(c: Config, s: VanSession, t0: int, a: Answer)
    requires s.state == Connected && t0 - s.lastKeepalive >= c.keepaliveInterval
    ensures Ticked(c, s, t0, a).state == Reconnecting <==> !a.keepaliveOk && t0 - s.lastActivity < c.sessionTimeout
    ensures Ticked(c, s, t0, a).state == Reconnecting ==>
              Ticked(c, s, t0, a).nextReconnect == t0 + c.base && Ticked(c, s, t0, a).reconnectAttempts == 0
  {
  }

  /** An episode under way at `t0`: after `n` failed attempts the next is not due before the base delay
      and all their backoffs have passed. */
  ghost predicate Waiting(c: Config, s: VanSession, t0: int) {
    && s.state == Reconnecting && s.reconnectAttempts <= c.maxAttempts
    && s.nextReconnect >= t0 + c.base + BackoffSum(c, s.reconnectAttempts)
  }

  lemma {:induction false} EpisodeFrom(c: Config, s: VanSession, t0: int, visits: seq<Visit>)
    requires Waiting(c, s, t0) && AllFail(visits)
    ensures var s', due := Run(c, s, visits), DueVisits(c, s, visits);
      && s.reconnectAttempts + due <= c.maxAttempts + 1
      && (s'.state == Failed <==> s.reconnectAttempts + due == c.maxAttempts + 1)
      && (s'.state == Failed ==> CaseCalls(c, s, visits) == c.maxAttempts - s.reconnectAttempts)
      && (s'.state != Failed ==> Waiting(c, s', t0) && CaseCalls(c, s, visits) == due
                                 && s'.reconnectAttempts == s.reconnectAttempts + due)
      && (s'.state == Failed ==> exists i :: 0 <= i < |visits| &&
                                   visits[i].now >= t0 + c.base + BackoffSum(c, c.maxAttempts)
                                   && FailsAt(c, s, visits, i))
    decreases |visits|
  {
    if visits != [] {
      var v := visits[0];
      var s1 := Ticked(c, s, v.now, v.answer);
      assert !v.answer.caseOk;
      assert AllFail(visits[1..]) by {
        assert forall i | 0 <= i < |visits[1..]| :: visits[1..][i] == visits[i + 1];
      }
      if s1.state == Failed {
        FailedStays(c, s1, visits[1..]);
        assert FailsAt(c, s, visits, 0);
      } else {
        EpisodeFrom(c, s1, t0, visits[1..]);
        if Run(c, s1, visits[1..]).state == Failed {
          var i :| 0 <= i < |visits[1..]| && visits[1..][i].now >= t0 + c.base + BackoffSum(c, c.maxAttempts)
            && FailsAt(c, s1, visits[1..], i);
          assert visits[i + 1] == visits[1..][i];
          assert FailsAt(c, s, visits, i + 1);
        }
      }
    }
  }

  /** The session goes to Failed at visit `i`. */
  ghost predicate FailsAt(c: Config, s: VanSession, visits: seq<Visit>, i: nat)
    requires i < |visits|
    decreases |visits|
  {
    var s1 := Ticked(c, s, visits[0].now, visits[0].answer);
    if i == 0 then s.state != Failed && s1.state == Failed else FailsAt(c, s1, visits[1..], i - 1)
  }

  lemma {:induction false} FailedStays(c: Config, s: VanSession, visits: seq<Visit>)
    requires s.state == Failed
    ensures Run(c, s, visits) == s && CaseCalls(c, s, visits) == 0 && DueVisits(c, s, visits) == 0
    decreases |visits|
  {
    if visits != [] { FailedStays(c, s, visits[1..]); }
  }

  /** An episode left in Reconnecting at `t0` in which every attempt fails: the session becomes Failed
      exactly when one more tick than the maximum number of attempts has found it due; by then exactly
      that maximum of CASE calls has been made; and it does not fail before `t0`, the base delay and
      the sum of all the backoffs. */
  lemma FailingEpisode(c: Config, s: VanSession, t0: int, visits: seq<Visit>)
    requires s.state == Reconnecting && s.nextReconnect == t0 + c.base && s.reconnectAttempts == 0
    requires AllFail(visits)
    ensures Run(c, s, visits).state == Failed <==> DueVisits(c, s, visits) == c.maxAttempts + 1
    ensures Run(c, s, visits).state == Failed ==> CaseCalls(c, s, visits) == c.maxAttempts
    ensures Run(c, s, visits).state == Failed ==>
              exists i :: 0 <= i < |visits| && FailsAt(c, s, visits, i)
                && visits[i].now >= t0 + c.base + BackoffSum(c, c.maxAttempts)
    ensures Run(c, s, visits).state != Failed ==>
              Run(c, s, visits).state == Reconnecting
              && CaseCalls(c, s, visits) == DueVisits(c, s, visits) <= c.maxAttempts
  {
    EpisodeFrom(c, s, t0, visits);
  }

  // ---------------------------------------------------------------------
  // Runs in which the driver answers.
  // ---------------------------------------------------------------------

  ghost predicate Alive(s: VanSession) {
    s.state == Connected && s.lastActivity == s.lastKeepalive
  }

  /** A session whose keepalives all succeed stays connected, however irregular the ticks, if a keepalive is
      due no later than the session would count as idle. */
  lemma {:induction false} KeepalivesKeepConnected(c: Config, s: VanSession, visits: seq<Visit>)
    requires Alive(s) && 0 < c.sessionTimeout && c.keepaliveInterval <= c.sessionTimeout
    requires forall i | 0 <= i < |visits| :: visits[i].answer.keepaliveOk
    ensures Alive(Run(c, s, visits)) && CaseCalls(c, s, visits) == 0
    ensures Run(c, s, visits).connectedAt == s.connectedAt && Run(c, s, visits).totalReconnects == s.totalReconnects
    decreases |visits|
  {
    if visits != [] {
      assert visits[0].answer.keepaliveOk;
      KeepalivesKeepConnected(c, Ticked(c, s, visits[0].now, visits[0].answer), visits[1..]);
    }
  }

  lemma {:induction false} RunOneMore(c: Config, s: VanSession, visits: seq<Visit>, v: Visit)
    ensures Run(c, s, visits + [v]) == Ticked(c, Run(c, s, visits), v.now, v.answer)
    decreases |visits|
  {
    if visits == [] {
      assert [v][1..] == [] && [] + [v] == [v];
    } else {
      assert (visits + [v])[0] == visits[0] && (visits + [v])[1..] == visits[1..] + [v];
      RunOneMore(c, Ticked(c, s, visits[0].now, visits[0].answer), visits[1..], v);
    }
  }

  lemma {:induction false} FailingKeepsIdentity(c: Config, s: VanSession, visits: seq<Visit>)
    requires (s.state == Reconnecting || s.state == Failed) && AllFail(visits)
    ensures var s' := Run(c, s, visits);
      (s'.state == Reconnecting || s'.state == Failed) && s'.totalReconnects == s.totalReconnects
      && s'.vanId == s.vanId && s'.deviceId == s.deviceId
    decreases |visits|
  {
    if visits != [] {
      assert !visits[0].answer.caseOk;
      assert AllFail(visits[1..]) by {
        assert forall i | 0 <= i < |visits[1..]| :: visits[1..][i] == visits[i + 1];
      }
      FailingKeepsIdentity(c, Ticked(c, s, visits[0].now, visits[0].answer), visits[1..]);
    }
  }

  /** An episode recovers with the first attempt that succeeds exactly if attempts are left: after failures
      found due fewer times than the maximum the session is connected, as of that tick, with no attempts
      counted and one reconnection more; after as many as the maximum it fails, whatever the driver would
      have answered. */
  lemma EpisodeRecoversIff(c: Config, s: VanSession, t0: int, visits: seq<Visit>, v: Visit)
    requires s.state == Reconnecting && s.nextReconnect == t0 + c.base && s.reconnectAttempts == 0
    requires AllFail(visits) && DueVisits(c, s, visits) <= c.maxAttempts
    requires v.answer.caseOk && v.now >= Run(c, s, visits).nextReconnect
    ensures var s' := Run(c, s, visits + [v]);
      if DueVisits(c, s, visits) < c.maxAttempts then
        && s'.state == Connected && s'.connectedAt == s'.lastActivity == s'.lastKeepalive == v.now
        && s'.reconnectAttempts == 0 && s'.totalReconnects == s.totalReconnects + 1 && s'.deviceId == s.deviceId
      else s'.state == Failed
  {
    EpisodeFrom(c, s, t0, visits);
    FailingKeepsIdentity(c, s, visits);
    RunOneMore(c, s, visits, v);
  }
}
