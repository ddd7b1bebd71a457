/** After any change of topology, the routes that no longer lead anywhere are counted out of the tables
    in a bounded number of timeout windows, and the mesh converges anew (src/thread/Routing.cpp, the
    scheme of section 3.4 of RFC 2453 without split horizon).

    Everything is stated for a set `S` of routers that hear only each other, over the links of a graph,
    and for a set `D` of destinations. */
module StaleRoutes {
  import opened Routing
  import opened Mesh
  import opened Graphs
  import opened Convergence

  ghost predicate InScope(s: Step, g: Graph, S: set<nat>) {
    s.Hear? && s.router in S ==> s.from in S && Edge(g, s.router, s.from)
  }

  ghost predicate AllInScope(steps: seq<Step>, g: Graph, S: set<nat>) {
    forall i | 0 <= i < |steps| :: InScope(steps[i], g, S)
  }

  /** `r` holds a live route to `d` that does not lead there over the links of `g` at its cost. */
  ghost predicate FalseRoute(m: Mesh, g: Graph, r: nat, d: nat)
    requires r < |m.tables| && d < MAX_ROUTERS
  {
    m.tables[r][d].reachable && !HonestEntry(g, m.tables[r][d], r, d)
  }

  /** Every false route held in `S` costs at least `k`. */
  ghost predicate FalseAtLeast(m: Mesh, g: Graph, S: set<nat>, D: set<nat>, k: nat) {
    forall r, d | r in S && r < |m.tables| && d in D && d < MAX_ROUTERS ::
      FalseRoute(m, g, r, d) ==> k <= m.tables[r][d].cost
  }

  // ---------------------------------------------------------------------
  // One window.
  // ---------------------------------------------------------------------

  /** Clock reading after the first `i` steps. */
  function ClockAt(now: int, steps: seq<Step>, i: nat): int
    requires i <= |steps|
  {
    if i == 0 then now
    else ClockAt(now, steps, i - 1) + (if steps[i - 1].Advance? then steps[i - 1].elapsed else 0)
  }

  /** Router `r` expires its stale routes more than `timeout` after the start of the window. */
  ghost predicate ExpiresLate(now: int, timeout: int, steps: seq<Step>, r: nat) {
    exists i | 0 <= i < |steps| :: steps[i] == Expire(r) && ClockAt(now, steps, i) - now > timeout
  }

  /** A stretch of steps longer than the timeout that ends with every router of `S` expiring. */
  ghost predicate Window(m: Mesh, steps: seq<Step>, g: Graph, S: set<nat>) {
    && Steps(|m.tables|, steps) && AllInScope(steps, g, S)
    && forall r | r in S && r < |m.tables| :: ExpiresLate(m.now, m.timeout, steps, r)
  }

  /** Within a window opened at time `t0` with least cost `k`: a false route that still costs `k` has
      not been renewed since, and the routers in `done` hold none. */
  ghost predicate WindowInv(m: Mesh, g: Graph, S: set<nat>, D: set<nat>, k: nat, t0: int, done: set<nat>) {
    && t0 <= m.now
    && forall r, d | r in S && r < |m.tables| && d in D && d < MAX_ROUTERS && FalseRoute(m, g, r, d) ::
        var e := m.tables[r][d];
        k <= e.cost && (k < e.cost || (r !in done && e.lastUpdated <= t0))
  }

  /** A false route is either kept as it was or learnt from a neighbour's false route that costs one less. */
  lemma HeardFalseFrom(m: Mesh, g: Graph, r: nat, n: nat, d: nat)
    requires FreshMesh(m) && StepOk(|m.tables|, Hear(r, n)) && Edge(g, r, n) && d < MAX_ROUTERS
    requires FalseRoute(Apply(m, Hear(r, n)), g, r, d)
    ensures var e' := Apply(m, Hear(r, n)).tables[r][d];
      e' == m.tables[r][d] || (FalseRoute(m, g, n, d) && e'.cost == m.tables[n][d].cost + 1)
  {
    StepEntry(m, Hear(r, n), r, d);
    var e, e' := m.tables[n][d], Apply(m, Hear(r, n)).tables[r][d];
    WithinHere(g, n);
    if e' != m.tables[r][d] && d != n {
      assert FreshEntry(m.tables[n], n, m.now, d);
      if HonestEntry(g, e, n, d) { WithinStep(g, n, e.nextHop, d, e.cost - 1); }
    }
  }

  lemma WindowStep(m: Mesh, s: Step, g: Graph, S: set<nat>, D: set<nat>, k: nat, t0: int, done: set<nat>)
    requires FreshMesh(m) && StepOk(|m.tables|, s) && InScope(s, g, S)
    requires WindowInv(m, g, S, D, k, t0, done)
    ensures var done' := if s.Expire? && m.now - t0 > m.timeout then done + {s.router} else done;
      WindowInv(Apply(m, s), g, S, D, k, t0, done')
  {
    hide HonestEntry;
    var m' := Apply(m, s);
    forall r, d | r in S && r < |m.tables| && d in D && d < MAX_ROUTERS && FalseRoute(m', g, r, d)
      ensures var e := m'.tables[r][d];
        && k <= e.cost
        && (k < e.cost || (e.lastUpdated <= t0 && r !in done && !(s == Expire(r) && m.now - t0 > m.timeout)))
    {
      StepEntry(m, s, r, d);
      if s.Hear? && s.router == r { HeardFalseFrom(m, g, r, s.from, d); }
    }
  }

  lemma {:induction false} WindowRun(m: Mesh, steps: seq<Step>, i: nat, g: Graph, S: set<nat>, D: set<nat>, k: nat,
                                     t0: int, timeout: int, done: set<nat>, all: seq<Step>)
    requires FreshMesh(m) && m.timeout == timeout
    requires i <= |all| && steps == all[i..] && Steps(|m.tables|, all) && AllInScope(all, g, S)
    requires m.now == ClockAt(t0, all, i)
    requires WindowInv(m, g, S, D, k, t0, done)
    requires forall r | r in S && r < |m.tables| && r !in done ::
               exists j :: i <= j < |all| && all[j] == Expire(r) && ClockAt(t0, all, j) - t0 > timeout
    ensures FalseAtLeast(Run(m, steps), g, S, D, k + 1)
    decreases |steps|
  {
    hide FalseRoute;
    if steps == [] {
      forall r, d | r in S && r < |m.tables| && d in D && d < MAX_ROUTERS
        ensures FalseRoute(m, g, r, d) ==> k + 1 <= m.tables[r][d].cost
      {
        assert r in done;
      }
    } else {
      var s := steps[0];
      assert s == all[i] && StepOk(|m.tables|, all[i]) && InScope(all[i], g, S);
      StepKeepsFresh(m, s);
      WindowStep(m, s, g, S, D, k, t0, done);
      var done' := if s.Expire? && m.now - t0 > m.timeout then done + {s.router} else done;
      forall r | r in S && r < |m.tables| && r !in done'
        ensures exists j :: i + 1 <= j < |all| && all[j] == Expire(r) && ClockAt(t0, all, j) - t0 > timeout
      {
        var j :| i <= j < |all| && all[j] == Expire(r) && ClockAt(t0, all, j) - t0 > timeout;
        assert j != i;
      }
      WindowRun(Apply(m, s), steps[1..], i + 1, g, S, D, k, t0, timeout, done', all);
    }
  }

  /** One window raises the least cost of a false route in `S` by at least one. */
  lemma WindowRaisesFalse(m: Mesh, window: seq<Step>, g: Graph, S: set<nat>, D: set<nat>, k: nat)
    requires FreshMesh(m) && Window(m, window, g, S) && FalseAtLeast(m, g, S, D, k)
    ensures FalseAtLeast(Run(m, window), g, S, D, k + 1)
  {
    hide HonestEntry;
    forall r, d | r in S && r < |m.tables| && d in D && d < MAX_ROUTERS && FalseRoute(m, g, r, d)
      ensures m.tables[r][d].lastUpdated <= m.now
    {
      assert FreshEntry(m.tables[r], r, m.now, d);
    }
    assert window[0..] == window;
    forall r | r in S && r < |m.tables|
      ensures exists j :: 0 <= j < |window| && window[j] == Expire(r) && ClockAt(m.now, window, j) - m.now > m.timeout
    {
      assert ExpiresLate(m.now, m.timeout, window, r);
    }
    WindowRun(m, window, 0, g, S, D, k, m.now, m.timeout, {}, window);
  }

  // ---------------------------------------------------------------------
  // Fifteen windows.
  // ---------------------------------------------------------------------

  ghost predicate Windows(m: Mesh, windows: seq<seq<Step>>, g: Graph, S: set<nat>)
    requires Sized(m)
    ensures Windows(m, windows, g, S) ==> forall w | w in windows :: Steps(|m.tables|, w)
    decreases |windows|
  {
    windows == [] || (Window(m, windows[0], g, S) && Windows(Run(m, windows[0]), windows[1..], g, S))
  }

  lemma {:induction false} EachWindowRaisesFalse(m: Mesh, windows: seq<seq<Step>>, g: Graph,
                                              S: set<nat>, D: set<nat>, k: nat)
    requires FreshMesh(m) && Windows(m, windows, g, S) && FalseAtLeast(m, g, S, D, k)
    ensures FalseAtLeast(RunAll(m, windows), g, S, D, k + |windows|) && FreshMesh(RunAll(m, windows))
    decreases |windows|
  {
    hide FalseAtLeast, Window;
    if windows != [] {
      assert Window(m, windows[0], g, S);
      WindowRaisesFalse(m, windows[0], g, S, D, k);
      assert Steps(|m.tables|, windows[0]);
      RunKeepsFresh(m, windows[0]);
      EachWindowRaisesFalse(Run(m, windows[0]), windows[1..], g, S, D, k + 1);
    }
  }

  /** After fifteen windows no router of `S` holds a false route. */
  lemma FifteenWindowsFlush(m: Mesh, windows: seq<seq<Step>>, g: Graph, S: set<nat>, r: nat, d: nat)
    requires FreshMesh(m) && Windows(m, windows, g, S) && |windows| >= 15
    requires r in S && r < |m.tables| && d < MAX_ROUTERS
    ensures FreshMesh(RunAll(m, windows)) && !FalseRoute(RunAll(m, windows), g, r, d)
  {
    hide HonestEntry;
    assert FalseAtLeast(m, g, S, {d}, 1) by {
      forall r | r in S && r < |m.tables|
        ensures FalseRoute(m, g, r, d) ==> 1 <= m.tables[r][d].cost
      {
        assert FreshEntry(m.tables[r], r, m.now, d);
      }
    }
    EachWindowRaisesFalse(m, windows, g, S, {d}, 1);
    var m' := RunAll(m, windows);
    assert FreshEntry(m'.tables[r], r, m'.now, d);
  }

  function Below(n: nat): (S: set<nat>)
    ensures forall r: nat :: r in S <==> r < n
  {
    if n == 0 then {} else Below(n - 1) + {n - 1}
  }

  function AllRouters(m: Mesh): set<nat> {
    Below(|m.tables|)
  }

  /** From any fresh tables, whatever false routes they hold, fifteen windows over the links of `g` leave
      only routes that lead over those links to where they claim to, at the cost they claim. */
  lemma FifteenWindowsMakeHonest(m: Mesh, g: Graph, windows: seq<seq<Step>>)
    requires FreshMesh(m) && |m.tables| == |g| && Windows(m, windows, g, AllRouters(m)) && |windows| >= 15
    ensures Honest(RunAll(m, windows), g)
  {
    hide HonestEntry, Windows;
    var m' := RunAll(m, windows);
    EachWindowRaisesFalse(m, windows, g, AllRouters(m), {}, 0);
    forall r: nat, d: nat | r < |m'.tables| && d < MAX_ROUTERS
      ensures m'.tables[r][d].reachable ==> HonestEntry(g, m'.tables[r][d], r, d)
    {
      FifteenWindowsFlush(m, windows, g, AllRouters(m), r, d);
    }
    HonestIfNoneFalse(m', g);
  }

  lemma HonestIfNoneFalse(m: Mesh, g: Graph)
    requires FreshMesh(m) && |m.tables| == |g|
    requires forall r: nat, d: nat | r < |m.tables| && d < MAX_ROUTERS :: !FalseRoute(m, g, r, d)
    ensures Honest(m, g)
  {
    forall r: nat, d: nat | r < |m.tables| && d < MAX_ROUTERS
      ensures HonestEntry(g, m.tables[r][d], r, d)
    {
      assert !FalseRoute(m, g, r, d);
    }
  }

  /** Convergence after any change of topology: from any fresh tables, fifteen windows over the links of
      `g`, then `k` rounds and any quiet steps thereafter, give every pair at hop distance 1..k the exact
      cost; and with fifteen rounds the mesh is converged. */
  lemma Reconverges(m: Mesh, g: Graph, windows: seq<seq<Step>>, rounds: seq<seq<Step>>, after: seq<Step>)
    requires FreshMesh(m) && |m.tables| == |g| && Windows(m, windows, g, AllRouters(m)) && |windows| >= 15
    requires |rounds| <= 15 && Rounds(RunAll(m, windows), g, rounds)
    requires QuietRun(RunAll(RunAll(m, windows), rounds), g, after)
    ensures var m' := Run(RunAll(RunAll(m, windows), rounds), after);
      ExactUpTo(m', g, |rounds|) && Honest(m', g) && (|rounds| == 15 ==> Converged(m', g))
  {
    hide Honest;
    var flushed := RunAll(m, windows);
    FifteenWindowsMakeHonest(m, g, windows);
    RoundsExtendExact(flushed, g, rounds, 0);
    ExactPersists(RunAll(flushed, rounds), g, after, |rounds|);
  }
}
