/** Bounded count-to-infinity: a destination cut off from a set of routers is forgotten by all of
    them after a bounded number of timeout windows, whatever the interleaving
    (src/thread/Routing.cpp, the scheme of section 3.4 of RFC 2453 without split horizon). */
module CountToInfinity {
  import opened Routing
  import opened Mesh
  import opened Graphs
  import opened Convergence
  import StaleRoutes

  /** No router of `S` hears the destination `d`, nor a router outside `S`. */
  ghost predicate CutOff(steps: seq<Step>, S: set<nat>, d: nat) {
    forall i | 0 <= i < |steps| :: CutStep(steps[i], S, d)
  }

  ghost predicate CutStep(s: Step, S: set<nat>, d: nat) {
    s.Hear? && s.router in S ==> s.from in S && s.from != d
  }

  /** Every live route to `d` held in `S` costs at least `k`. */
  ghost predicate LeastCost(m: Mesh, S: set<nat>, d: nat, k: nat)
    requires d < MAX_ROUTERS
  {
    forall r | r in S && r < |m.tables| :: m.tables[r][d].reachable ==> k <= m.tables[r][d].cost
  }

  /** A stretch of steps longer than the timeout that ends with every router of `S` expiring. */
  ghost predicate Window(m: Mesh, steps: seq<Step>, S: set<nat>, d: nat) {
    && Steps(|m.tables|, steps) && CutOff(steps, S, d)
    && forall r | r in S && r < |m.tables| :: StaleRoutes.ExpiresLate(m.now, m.timeout, steps, r)
  }

  /** The links over which routers of `S` still hear each other: none leads to `d`. */
  function CutGraph(n: nat, S: set<nat>, d: nat): (g: Graph)
    ensures |g| == n &&
            forall u: nat, v: nat :: Edge(g, u, v) <==> u < n && v < n && u != v && u in S && v in S && v != d
  {
    seq(n, u => seq(n, v => u in S && v in S && v != d))
  }

  /** A walk ends where it starts, or over a link. */
  lemma LastLink(g: Graph, p: seq<nat>, u: nat, v: nat)
    requires Walk(g, p, u, v)
    ensures u == v || exists w :: Edge(g, w, v)
  {
    if |p| > 1 { assert Edge(g, p[|p| - 2], p[|p| - 2 + 1]); }
  }

  /** Over those links no router of `S` can have an honest route to `d`. */
  lemma NoHonestRoute(n: nat, S: set<nat>, d: nat, e: RouteEntry, r: nat)
    requires d !in S && r in S && e.reachable
    ensures !HonestEntry(CutGraph(n, S, d), e, r, d)
  {
    var g := CutGraph(n, S, d);
    if HonestEntry(g, e, r, d) {
      var p :| Walk(g, p, e.nextHop, d) && |p| - 1 <= e.cost - 1;
      LastLink(g, p, e.nextHop, d);
      assert false;
    }
  }

  /** So the live routes to `d` held in `S` are its false routes. */
  lemma LeastCostIsFalseAtLeast(m: Mesh, S: set<nat>, d: nat, k: nat)
    requires d < MAX_ROUTERS && d !in S
    ensures LeastCost(m, S, d, k) <==> StaleRoutes.FalseAtLeast(m, CutGraph(|m.tables|, S, d), S, {d}, k)
  {
    hide HonestEntry;
    var g := CutGraph(|m.tables|, S, d);
    forall r | r in S && r < |m.tables|
      ensures StaleRoutes.FalseRoute(m, g, r, d) <==> m.tables[r][d].reachable
    {
      if m.tables[r][d].reachable { NoHonestRoute(|m.tables|, S, d, m.tables[r][d], r); }
    }
  }

  /** One window raises the least cost held in `S` by at least one. */
  lemma WindowRaisesLeastCost(m: Mesh, window: seq<Step>, S: set<nat>, d: nat, k: nat)
    requires FreshMesh(m) && d < MAX_ROUTERS && d !in S && Window(m, window, S, d)
    requires LeastCost(m, S, d, k)
    ensures LeastCost(Run(m, window), S, d, k + 1)
  {
    var g := CutGraph(|m.tables|, S, d);
    forall i | 0 <= i < |window|
      ensures StaleRoutes.InScope(window[i], g, S)
    {
      assert CutStep(window[i], S, d) && StepOk(|m.tables|, window[i]);
    }
    LeastCostIsFalseAtLeast(m, S, d, k);
    StaleRoutes.WindowRaisesFalse(m, window, g, S, {d}, k);
    LeastCostIsFalseAtLeast(Run(m, window), S, d, k + 1);
  }

  ghost predicate Windows(m: Mesh, windows: seq<seq<Step>>, S: set<nat>, d: nat)
    requires Sized(m)
    ensures Windows(m, windows, S, d) ==> forall w | w in windows :: Steps(|m.tables|, w)
    decreases |windows|
  {
    windows == [] || (Window(m, windows[0], S, d) && Windows(Run(m, windows[0]), windows[1..], S, d))
  }

  lemma {:induction false} EachWindowRaisesLeastCost(m: Mesh, windows: seq<seq<Step>>, S: set<nat>, d: nat, k: nat)
    requires FreshMesh(m) && d < MAX_ROUTERS && d !in S && Windows(m, windows, S, d)
    requires LeastCost(m, S, d, k)
    ensures LeastCost(RunAll(m, windows), S, d, k + |windows|) && FreshMesh(RunAll(m, windows))
    decreases |windows|
  {
    if windows != [] {
      WindowRaisesLeastCost(m, windows[0], S, d, k);
      RunKeepsFresh(m, windows[0]);
      EachWindowRaisesLeastCost(Run(m, windows[0]), windows[1..], S, d, k + 1);
    }
  }

  ghost predicate Forgotten(m: Mesh, S: set<nat>, d: nat)
    requires d < MAX_ROUTERS
  {
    forall r | r in S && r < |m.tables| :: !m.tables[r][d].reachable
  }

  /** Count-to-infinity ends: after fifteen windows no router of `S` has `d` reachable. */
  lemma FifteenWindowsForget(m: Mesh, windows: seq<seq<Step>>, S: set<nat>, d: nat)
    requires FreshMesh(m) && d < MAX_ROUTERS && d !in S
    requires Windows(m, windows, S, d) && |windows| >= 15
    ensures Forgotten(RunAll(m, windows), S, d)
  {
    forall r | r in S && r < |m.tables|
      ensures m.tables[r][d].reachable ==> 1 <= m.tables[r][d].cost
    {
      assert FreshEntry(m.tables[r], r, m.now, d);
    }
    EachWindowRaisesLeastCost(m, windows, S, d, 1);
    var m' := RunAll(m, windows);
    forall r | r in S && r < |m'.tables|
      ensures !m'.tables[r][d].reachable
    {
      assert FreshEntry(m'.tables[r], r, m'.now, d);
    }
  }

  /** And it stays forgotten for as long as the cut lasts. */
  lemma {:induction false} ForgottenStaysForgotten(m: Mesh, steps: seq<Step>, S: set<nat>, d: nat)
    requires FreshMesh(m) && d < MAX_ROUTERS && d !in S && Steps(|m.tables|, steps) && CutOff(steps, S, d)
    requires Forgotten(m, S, d)
    ensures Forgotten(Run(m, steps), S, d)
    decreases |steps|
  {
    if steps != [] {
      var s := steps[0];
      assert CutStep(s, S, d);
      StepKeepsFresh(m, s);
      forall r | r in S && r < |m.tables|
        ensures !Apply(m, s).tables[r][d].reachable
      {
        StepEntry(m, s, r, d);
      }
      ForgottenStaysForgotten(Apply(m, s), steps[1..], S, d);
    }
  }

  // ---------------------------------------------------------------------
  // Fourteen windows are not enough.
  // ---------------------------------------------------------------------

  /** `a` has the destination at cost `k`; what `b` may still have of it goes through `a`. */
  ghost predicate Bouncing(m: Mesh, a: nat, b: nat, d: nat, k: nat) {
    && FreshMesh(m) && a < |m.tables| && b < |m.tables| && a != b && d < MAX_ROUTERS && a != d && b != d
    && m.tables[a][d].reachable && m.tables[a][d].cost == k
    && (m.tables[b][d].reachable ==> m.tables[b][d].nextHop == a)
  }

  function Five(s0: Step, s1: Step, s2: Step, s3: Step, s4: Step): seq<Step> {
    [s0] + ([s1] + ([s2] + ([s3] + [s4])))
  }

  /** `b` learns the route from `a` just before it expires there, and gives it back at two hops more. */
  function BounceWindow(m: Mesh, a: nat, b: nat): seq<Step>
    requires m.timeout >= 0
  {
    Five(Advance(m.timeout + 1), Hear(b, a), Expire(a), Expire(b), Hear(a, b))
  }

  lemma BounceIsWindow(m: Mesh, a: nat, b: nat, d: nat, k: nat)
    requires Bouncing(m, a, b, d, k) && m.timeout >= 0
    ensures Window(m, BounceWindow(m, a, b), {a, b}, d)
  {
    var w := BounceWindow(m, a, b);
    assert StaleRoutes.ClockAt(m.now, w, 1) == m.now + m.timeout + 1;
    assert StaleRoutes.ClockAt(m.now, w, 2) == StaleRoutes.ClockAt(m.now, w, 1);
    assert StaleRoutes.ClockAt(m.now, w, 3) == StaleRoutes.ClockAt(m.now, w, 2);
    assert w[2] == Expire(a) && w[3] == Expire(b);
  }

  lemma RunCons(m: Mesh, s: Step, rest: seq<Step>)
    requires Sized(m) && StepOk(|m.tables|, s) && Steps(|m.tables|, rest)
    ensures Steps(|m.tables|, [s] + rest) && Run(m, [s] + rest) == Run(Apply(m, s), rest)
  {
    assert ([s] + rest)[1..] == rest;
  }

  lemma RunOne(m: Mesh, s: Step)
    requires Sized(m) && StepOk(|m.tables|, s)
    ensures Steps(|m.tables|, [s]) && Run(m, [s]) == Apply(m, s)
  {
    assert [s][1..] == [];
  }

  /** The five steps one by one. */
  lemma RunFive(m: Mesh, s0: Step, s1: Step, s2: Step, s3: Step, s4: Step)
    requires var n := |m.tables|;
      Sized(m) && StepOk(n, s0) && StepOk(n, s1) && StepOk(n, s2) && StepOk(n, s3) && StepOk(n, s4)
    ensures Steps(|m.tables|, Five(s0, s1, s2, s3, s4))
    ensures Run(m, Five(s0, s1, s2, s3, s4)) == Apply(Apply(Apply(Apply(Apply(m, s0), s1), s2), s3), s4)
  {
    hide Apply, Run, StepOk, Steps;
    var m1 := Apply(m, s0);
    var m2 := Apply(m1, s1);
    var m3 := Apply(m2, s2);
    RunOne(Apply(m3, s3), s4);
    RunCons(m3, s3, [s4]);
    RunCons(m2, s2, [s3] + [s4]);
    RunCons(m1, s1, [s2] + ([s3] + [s4]));
    RunCons(m, s0, [s1] + ([s2] + ([s3] + [s4])));
  }

  /** One window raises the cost by exactly one, and the two routers have changed places. */
  lemma BounceRaisesByOne(m: Mesh, a: nat, b: nat, d: nat, k: nat)
    requires Bouncing(m, a, b, d, k) && m.timeout >= 0 && k < 15
    ensures Window(m, BounceWindow(m, a, b), {a, b}, d) && Bouncing(Run(m, BounceWindow(m, a, b)), b, a, d, k + 1)
  {
    BounceIsWindow(m, a, b, d, k);
    BounceRun(m, a, b, d, k);
  }

  lemma BounceRun(m: Mesh, a: nat, b: nat, d: nat, k: nat)
    requires Bouncing(m, a, b, d, k) && m.timeout >= 0 && k < 15
    ensures var w := BounceWindow(m, a, b);
      Steps(|m.tables|, w) && Bouncing(Run(m, w), b, a, d, k + 1)
  {
    hide Apply, Run, Fresh;
    RunFive(m, Advance(m.timeout + 1), Hear(b, a), Expire(a), Expire(b), Hear(a, b));
    BounceThere(m, a, b, d, k);
    BounceBack(Apply(Apply(m, Advance(m.timeout + 1)), Hear(b, a)), a, b, d, k);
  }

  lemma BounceThere(m: Mesh, a: nat, b: nat, d: nat, k: nat)
    requires Bouncing(m, a, b, d, k) && m.timeout >= 0 && k < 15
    ensures HandedOn(Apply(Apply(m, Advance(m.timeout + 1)), Hear(b, a)), a, b, d, k)
  {
    assert FreshEntry(m.tables[a], a, m.now, d);
    hide Apply, Fresh;
    TimePasses(m, m.timeout + 1);
    HearingRenews(Apply(m, Advance(m.timeout + 1)), b, a, d);
  }

  /** The route at `a` is old, the one at `b` new. */
  ghost predicate HandedOn(m: Mesh, a: nat, b: nat, d: nat, k: nat) {
    && FreshMesh(m) && a < |m.tables| && b < |m.tables| && a != b && d < MAX_ROUTERS && a != d && b != d
    && m.timeout >= 0 && m.now - m.tables[a][d].lastUpdated > m.timeout
    && m.tables[b][d].reachable && m.tables[b][d].cost == k + 1 && m.tables[b][d].lastUpdated == m.now
  }

  lemma BounceBack(m: Mesh, a: nat, b: nat, d: nat, k: nat)
    requires HandedOn(m, a, b, d, k)
    ensures Bouncing(Apply(Apply(Apply(m, Expire(a)), Expire(b)), Hear(a, b)), b, a, d, k + 1)
  {
    hide Apply, Fresh;
    var m1 := Apply(m, Expire(a));
    OldRouteExpires(m, a, d);
    NewRouteStays(m1, b, d);
    HearingRenews(Apply(m1, Expire(b)), a, b, d);
  }

  lemma TimePasses(m: Mesh, elapsed: nat)
    requires FreshMesh(m)
    ensures Apply(m, Advance(elapsed)) == m.(now := m.now + elapsed) && FreshMesh(Apply(m, Advance(elapsed)))
  {
    StepKeepsFresh(m, Advance(elapsed));
  }

  lemma HearingRenews(m: Mesh, r: nat, n: nat, d: nat)
    requires FreshMesh(m) && StepOk(|m.tables|, Hear(r, n)) && d < MAX_ROUTERS && d != r && d != n
    requires m.tables[n][d].reachable
    requires m.tables[r][d].reachable ==> m.tables[r][d].nextHop == n
    ensures var m' := Apply(m, Hear(r, n));
      && FreshMesh(m') && m'.now == m.now
      && (m'.tables[r][d].reachable <==> m.tables[n][d].cost < 15)
      && m'.tables[r][d].cost == m.tables[n][d].cost + 1
      && m'.tables[r][d].nextHop == n && m'.tables[r][d].lastUpdated == m.now
      && forall x: nat | x < |m.tables| && x != r :: m'.tables[x] == m.tables[x]
  {
    assert FreshEntry(m.tables[n], n, m.now, d);
    StepKeepsFresh(m, Hear(r, n));
    StepEntry(m, Hear(r, n), r, d);
  }

  lemma OldRouteExpires(m: Mesh, r: nat, d: nat)
    requires FreshMesh(m) && r < |m.tables| && d < MAX_ROUTERS && m.now - m.tables[r][d].lastUpdated > m.timeout
    ensures var m' := Apply(m, Expire(r));
      && FreshMesh(m') && m'.now == m.now && !m'.tables[r][d].reachable
      && forall x: nat | x < |m.tables| && x != r :: m'.tables[x] == m.tables[x]
  {
    StepKeepsFresh(m, Expire(r));
    StepEntry(m, Expire(r), r, d);
  }

  lemma NewRouteStays(m: Mesh, r: nat, d: nat)
    requires FreshMesh(m) && r < |m.tables| && d < MAX_ROUTERS && m.now - m.tables[r][d].lastUpdated <= m.timeout
    ensures var m' := Apply(m, Expire(r));
      && FreshMesh(m') && m'.now == m.now && m'.tables[r][d] == m.tables[r][d]
      && forall x: nat | x < |m.tables| && x != r :: m'.tables[x] == m.tables[x]
  {
    StepKeepsFresh(m, Expire(r));
    StepEntry(m, Expire(r), r, d);
  }

  lemma {:induction false} BounceOn(m: Mesh, a: nat, b: nat, d: nat, k: nat, n: nat) returns (windows: seq<seq<Step>>)
    requires Bouncing(m, a, b, d, k) && m.timeout >= 0 && k + n <= 15
    ensures |windows| == n && Windows(m, windows, {a, b}, d)
    ensures Bouncing(RunAll(m, windows), if n % 2 == 0 then a else b, if n % 2 == 0 then b else a, d, k + n)
    decreases n
  {
    hide Run, Window, BounceWindow;
    if n == 0 {
      windows := [];
    } else {
      BounceRaisesByOne(m, a, b, d, k);
      var w := BounceWindow(m, a, b);
      assert {a, b} == {b, a};
      var rest := BounceOn(Run(m, w), b, a, d, k + 1, n - 1);
      windows := [w] + rest;
      assert windows[0] == w && windows[1..] == rest;
    }
  }

  /** Three routers, the first of which has just heard the third: then that one is cut off, and after
      fourteen windows a route to it is still live, at cost 15. */
  lemma FourteenWindowsAreNotEnough(now: int, timeout: int) returns (windows: seq<seq<Step>>)
    requires timeout >= 0
    ensures var m := Apply(EmptyMesh(3, now, timeout), Hear(0, 2));
      && |windows| == 14 && Windows(m, windows, {0, 1}, 2) && !Forgotten(RunAll(m, windows), {0, 1}, 2)
      && RunAll(m, windows).tables[0][2].reachable && RunAll(m, windows).tables[0][2].cost == 15
  {
    var m0 := EmptyMesh(3, now, timeout);
    EveryReachableMeshIsFresh(3, now, timeout, []);
    assert Run(m0, []) == m0;
    StepKeepsFresh(m0, Hear(0, 2));
    StepEntry(m0, Hear(0, 2), 0, 2);
    StepEntry(m0, Hear(0, 2), 1, 2);
    windows := BounceOn(Apply(m0, Hear(0, 2)), 0, 1, 2, 1, 14);
  }
}
