/** On a fixed topology the routing tables converge to the true hop distances.

    `Edge(g, r, n)` says that router `r` can hear router `n`; the graph need not be symmetric. */
module Convergence {
  import opened Routing
  import opened Mesh
  import opened Graphs

  ghost predicate OverLinks(g: Graph, s: Step) {
    s.Hear? ==> Edge(g, s.router, s.from)
  }

  // ---------------------------------------------------------------------
  // Costs are never too low.
  // ---------------------------------------------------------------------

  ghost predicate HonestEntry(g: Graph, e: RouteEntry, r: nat, d: nat) {
    e.reachable ==> Edge(g, r, e.nextHop) && Within(g, e.nextHop, d, e.cost - 1)
  }

  /** Every live route leads over a link, to a router from which the rest of its cost suffices. */
  ghost predicate Honest(m: Mesh, g: Graph) {
    && FreshMesh(m) && |m.tables| == |g|
    && forall r: nat, d: nat | r < |m.tables| && d < MAX_ROUTERS :: HonestEntry(g, m.tables[r][d], r, d)
  }

  lemma HearKeepsHonest(m: Mesh, g: Graph, r: nat, n: nat, d: nat)
    requires Honest(m, g) && StepOk(|g|, Hear(r, n)) && Edge(g, r, n) && d < MAX_ROUTERS
    ensures HonestEntry(g, HeardEntry(m.tables[r], r, n, m.tables[n], m.now, d), r, d)
  {
    var e := m.tables[n][d];
    assert HonestEntry(g, m.tables[r][d], r, d);
    if d == n {
      WithinHere(g, n);
    } else if e.reachable {
      assert HonestEntry(g, e, n, d);
      WithinStep(g, n, e.nextHop, d, e.cost - 1);
      assert FreshEntry(m.tables[n], n, m.now, d);
    }
  }

  lemma StepKeepsHonest(m: Mesh, g: Graph, s: Step)
    requires Honest(m, g) && StepOk(|g|, s) && OverLinks(g, s)
    ensures Honest(Apply(m, s), g)
  {
    StepKeepsFresh(m, s);
    var m' := Apply(m, s);
    forall r: nat, d: nat | r < |m.tables| && d < MAX_ROUTERS
      ensures HonestEntry(g, m'.tables[r][d], r, d)
    {
      StepEntry(m, s, r, d);
      assert HonestEntry(g, m.tables[r][d], r, d);
      if s.Hear? && s.router == r {
        HearKeepsHonest(m, g, r, s.from, d);
      }
    }
  }

  lemma {:induction false} RunKeepsHonest(m: Mesh, g: Graph, steps: seq<Step>)
    requires Honest(m, g) && Steps(|g|, steps) && forall i | 0 <= i < |steps| :: OverLinks(g, steps[i])
    ensures Honest(Run(m, steps), g)
    decreases |steps|
  {
    if steps != [] {
      assert OverLinks(g, steps[0]);
      StepKeepsHonest(m, g, steps[0]);
      RunKeepsHonest(Apply(m, steps[0]), g, steps[1..]);
    }
  }

  lemma EmptyIsHonest(g: Graph, now: int, timeout: int)
    requires |g| <= MAX_ROUTERS
    ensures Honest(EmptyMesh(|g|, now, timeout), g)
  {
    var m := EmptyMesh(|g|, now, timeout);
    forall r: nat | r < |m.tables|
      ensures Fresh(m.tables[r], r, m.now)
    {
      EmptyIsFresh(r, m.now);
    }
  }

  /** In every run over the links of `g`, whatever expires or is invalidated meanwhile, no cost is
      below the hop distance, and a destination sixteen or more hops away is never reachable. */
  lemma CostsNeverBelowDistance(g: Graph, now: int, timeout: int, steps: seq<Step>, r: nat, d: nat)
    requires |g| <= MAX_ROUTERS && Steps(|g|, steps) && r < |g| && d < MAX_ROUTERS
    requires forall i | 0 <= i < |steps| :: OverLinks(g, steps[i])
    ensures var e := Run(EmptyMesh(|g|, now, timeout), steps).tables[r][d];
      e.reachable ==> d < |g| && exists k: nat :: Distance(g, r, d, k) && k <= e.cost < 16
  {
    var m := EmptyMesh(|g|, now, timeout);
    EmptyIsHonest(g, now, timeout);
    RunKeepsHonest(m, g, steps);
    var e := Run(m, steps).tables[r][d];
    if e.reachable {
      assert FreshEntry(Run(m, steps).tables[r], r, Run(m, steps).now, d);
      assert HonestEntry(g, e, r, d);
      WithinStep(g, r, e.nextHop, d, e.cost - 1);
      var k := WithinHasDistance(g, r, d, e.cost);
    }
  }

  // ---------------------------------------------------------------------
  // Costs become exact, and stay exact.
  // ---------------------------------------------------------------------

  /** No direct neighbour of `r` is about to time out. */
  ghost predicate NeighboursAlive(m: Mesh, g: Graph, r: nat)
    requires r < |m.tables|
  {
    forall n: nat | n < MAX_ROUTERS && Edge(g, r, n) && Direct(m.tables[r], n) ::
      m.now - m.tables[r][n].lastUpdated <= m.timeout
  }

  /** A step of a settled topology: hearings over links, and ticks at which no neighbour that the
      router can hear has timed out. Routes that are longer than they need be may still expire. */
  ghost predicate Quiet(m: Mesh, g: Graph, s: Step) {
    && StepOk(|m.tables|, s) && OverLinks(g, s) && !s.Invalidate?
    && (s.Expire? ==> NeighboursAlive(m, g, s.router))
  }

  ghost predicate QuietRun(m: Mesh, g: Graph, steps: seq<Step>)
    requires Sized(m)
    ensures QuietRun(m, g, steps) ==> Steps(|m.tables|, steps)
    decreases |steps|
  {
    steps == [] || (Quiet(m, g, steps[0]) && QuietRun(Apply(m, steps[0]), g, steps[1..]))
  }

  /** `r` has `d` at cost `j`, renewed whenever its next hop is heard. */
  ghost predicate ExactEntry(t: Table, d: nat, j: nat)
    requires d < MAX_ROUTERS
  {
    t[d].reachable && t[d].cost == j && t[d].nextHop < MAX_ROUTERS
    && t[t[d].nextHop].lastUpdated <= t[d].lastUpdated
  }

  /** Every pair at hop distance 1..k has the exact cost. */
  ghost predicate ExactUpTo(m: Mesh, g: Graph, k: nat) {
    forall r: nat, d: nat, j: nat | r < |m.tables| && d < MAX_ROUTERS && 1 <= j <= k && Distance(g, r, d, j) ::
      ExactEntry(m.tables[r], d, j)
  }

  /** With everything at distance `k` exact, an exact entry at distance up to `k + 1` stays exact. */
  lemma QuietStepKeepsExact(m: Mesh, g: Graph, s: Step, k: nat, r: nat, d: nat, j: nat)
    requires Honest(m, g) && ExactUpTo(m, g, k) && Quiet(m, g, s)
    requires r < |m.tables| && d < MAX_ROUTERS && 1 <= j <= k + 1 && Distance(g, r, d, j)
    requires ExactEntry(m.tables[r], d, j)
    ensures ExactEntry(Apply(m, s).tables[r], d, j)
  {
    hide Within, Apply;
    var t := m.tables[r];
    var h := t[d].nextHop;
    assert FreshEntry(t, r, m.now, d) && FreshEntry(t, r, m.now, h);
    assert HonestEntry(g, t[d], r, d) && HonestEntry(g, t[h], r, h);
    StepEntry(m, s, r, d);
    StepEntry(m, s, r, h);
    if s.Hear? && s.router == r {
      var n := s.from;
      var e := m.tables[n][d];
      if d != n && e.reachable {
        assert HonestEntry(g, e, n, d) && FreshEntry(m.tables[n], n, m.now, d);
        WithinStep(g, n, e.nextHop, d, e.cost - 1);
        WithinStep(g, r, n, d, e.cost);
        if e.cost + 1 < j { WithinMore(g, r, d, e.cost + 1, j - 1); }
      }
      if d == n {
        WithinHere(g, n);
        WithinStep(g, r, n, n, 0);
        if 1 < j { WithinMore(g, r, n, 1, j - 1); }
      } else if n == h {
        ExactNextHop(m, g, k, r, d, j);
      }
    }
  }

  /** The next hop of an exact route is one hop closer, and exact itself. */
  lemma ExactNextHop(m: Mesh, g: Graph, k: nat, r: nat, d: nat, j: nat)
    requires Honest(m, g) && ExactUpTo(m, g, k)
    requires r < |m.tables| && d < MAX_ROUTERS && 1 <= j <= k + 1 && Distance(g, r, d, j)
    requires ExactEntry(m.tables[r], d, j)
    ensures var h := m.tables[r][d].nextHop;
      Edge(g, r, h) && Distance(g, h, d, j - 1) && (h == d <==> j == 1)
      && (h != d ==> ExactEntry(m.tables[h], d, j - 1))
  {
    var h := m.tables[r][d].nextHop;
    assert HonestEntry(g, m.tables[r][d], r, d);
    if Within(g, h, d, j - 2) {
      WithinStep(g, r, h, d, j - 2);
      assert false;
    }
    if j == 1 {
      DistanceZero(g, h, d);
    } else {
      NotHere(g, h, d, j - 1);
    }
  }

  lemma QuietStepKeepsExactUpTo(m: Mesh, g: Graph, s: Step, k: nat)
    requires Honest(m, g) && ExactUpTo(m, g, k) && Quiet(m, g, s)
    ensures ExactUpTo(Apply(m, s), g, k) && Honest(Apply(m, s), g)
  {
    StepKeepsHonest(m, g, s);
    forall r: nat, d: nat, j: nat | r < |m.tables| && d < MAX_ROUTERS && 1 <= j <= k && Distance(g, r, d, j)
      ensures ExactEntry(Apply(m, s).tables[r], d, j)
    {
      QuietStepKeepsExact(m, g, s, k, r, d, j);
    }
  }

  /** Exact costs persist through any number of quiet steps. */
  lemma {:induction false} ExactPersists(m: Mesh, g: Graph, steps: seq<Step>, k: nat)
    requires Honest(m, g) && ExactUpTo(m, g, k) && QuietRun(m, g, steps)
    ensures ExactUpTo(Run(m, steps), g, k) && Honest(Run(m, steps), g)
    decreases |steps|
  {
    if steps != [] {
      QuietStepKeepsExactUpTo(m, g, steps[0], k);
      ExactPersists(Apply(m, steps[0]), g, steps[1..], k);
    }
  }

  /** If `r` already has `d` at cost `j`, the entry is exact or leads through `n`. */
  ghost predicate ExactOrVia(t: Table, d: nat, j: nat, n: nat)
    requires d < MAX_ROUTERS
  {
    t[d].reachable && t[d].cost == j ==> ExactEntry(t, d, j) || t[d].nextHop == n
  }

  /** Hearing a neighbour that is one hop closer makes the entry exact. */
  lemma HearingMakesExact(m: Mesh, g: Graph, k: nat, r: nat, n: nat, d: nat)
    requires Honest(m, g) && ExactUpTo(m, g, k) && k < 15
    requires r < |m.tables| && d < MAX_ROUTERS && Edge(g, r, n) && StepOk(|m.tables|, Hear(r, n))
    requires Distance(g, r, d, k + 1) && Distance(g, n, d, k) && ExactOrVia(m.tables[r], d, k + 1, n)
    ensures ExactEntry(Apply(m, Hear(r, n)).tables[r], d, k + 1)
  {
    var t := m.tables[r];
    StepEntry(m, Hear(r, n), r, d);
    StepEntry(m, Hear(r, n), r, n);
    if k == 0 {
      DistanceZero(g, n, d);
    } else {
      NotHere(g, n, d, k);
      NotHere(g, r, d, k + 1);
      assert ExactEntry(m.tables[n], d, k);
      NotTooCheap(m, g, r, d, k + 1);
      if t[d].reachable && ExactEntry(t, d, k + 1) {
        QuietStepKeepsExact(m, g, Hear(r, n), k, r, d, k + 1);
      }
    }
  }

  lemma NotHere(g: Graph, u: nat, v: nat, k: nat)
    requires Distance(g, u, v, k) && k > 0 && u < |g|
    ensures u != v
  {
    if u == v {
      WithinHere(g, u);
      WithinMore(g, u, u, 0, k - 1);
    }
  }

  lemma NotTooCheap(m: Mesh, g: Graph, r: nat, d: nat, j: nat)
    requires Honest(m, g) && r < |m.tables| && d < MAX_ROUTERS && Distance(g, r, d, j)
    ensures m.tables[r][d].reachable ==> j <= m.tables[r][d].cost
  {
    var e := m.tables[r][d];
    if e.reachable && e.cost < j {
      assert HonestEntry(g, e, r, d);
      WithinStep(g, r, e.nextHop, d, e.cost - 1);
      WithinMore(g, r, d, e.cost, j - 1);
    }
  }

  lemma QuietStepKeepsExactOrVia(m: Mesh, g: Graph, s: Step, k: nat, r: nat, d: nat, n: nat)
    requires Honest(m, g) && ExactUpTo(m, g, k) && Quiet(m, g, s)
    requires r < |m.tables| && d < MAX_ROUTERS && Distance(g, r, d, k + 1)
    requires ExactOrVia(m.tables[r], d, k + 1, n)
    ensures ExactOrVia(Apply(m, s).tables[r], d, k + 1, n)
  {
    var t := m.tables[r];
    StepEntry(m, s, r, d);
    if t[d].reachable && ExactEntry(t, d, k + 1) {
      QuietStepKeepsExact(m, g, s, k, r, d, k + 1);
    } else if s.Hear? && s.router == r {
      StepEntry(m, s, r, s.from);
    }
  }

  /** Over a quiet run in which `r` hears `n`, the entry for `d` becomes and stays exact. */
  lemma {:induction false} PairBecomesExact(m: Mesh, g: Graph, steps: seq<Step>, k: nat, r: nat, n: nat, d: nat)
    requires Honest(m, g) && ExactUpTo(m, g, k) && k < 15 && QuietRun(m, g, steps)
    requires r < |m.tables| && d < MAX_ROUTERS && Edge(g, r, n)
    requires Distance(g, r, d, k + 1) && Distance(g, n, d, k)
    requires ExactEntry(m.tables[r], d, k + 1) || (ExactOrVia(m.tables[r], d, k + 1, n) && Hear(r, n) in steps)
    ensures ExactEntry(Run(m, steps).tables[r], d, k + 1)
    decreases |steps|
  {
    if steps != [] {
      var s := steps[0];
      QuietStepKeepsExactUpTo(m, g, s, k);
      if ExactEntry(m.tables[r], d, k + 1) {
        QuietStepKeepsExact(m, g, s, k, r, d, k + 1);
      } else if s == Hear(r, n) {
        HearingMakesExact(m, g, k, r, n, d);
      } else {
        QuietStepKeepsExactOrVia(m, g, s, k, r, d, n);
      }
      PairBecomesExact(Apply(m, s), g, steps[1..], k, r, n, d);
    }
  }

  /** A quiet run in which every router hears each router it can hear, in any order. */
  ghost predicate Round(m: Mesh, g: Graph, steps: seq<Step>)
    requires Sized(m)
  {
    QuietRun(m, g, steps) && forall r: nat, n: nat | Edge(g, r, n) :: Hear(r, n) in steps
  }

  /** One round extends exactness by one hop. */
  lemma RoundExtendsExact(m: Mesh, g: Graph, round: seq<Step>, k: nat)
    requires Honest(m, g) && ExactUpTo(m, g, k) && k < 15 && Round(m, g, round)
    ensures ExactUpTo(Run(m, round), g, k + 1) && Honest(Run(m, round), g)
  {
    ExactPersists(m, g, round, k);
    forall r: nat, d: nat, j: nat | r < |m.tables| && d < MAX_ROUTERS && 1 <= j <= k + 1 && Distance(g, r, d, j)
      ensures ExactEntry(Run(m, round).tables[r], d, j)
    {
      if j == k + 1 {
        var e := m.tables[r][d];
        var n := CloserNeighbour(g, r, d, k);
        if e.reachable && e.cost == k + 1 {
          assert HonestEntry(g, e, r, d);
          n := e.nextHop;
          if Within(g, n, d, k - 1) { WithinStep(g, r, n, d, k - 1); }
        }
        PairBecomesExact(m, g, round, k, r, n, d);
      }
    }
  }

  ghost predicate Rounds(m: Mesh, g: Graph, rounds: seq<seq<Step>>)
    requires Sized(m)
    ensures Rounds(m, g, rounds) ==> forall w | w in rounds :: Steps(|m.tables|, w)
    decreases |rounds|
  {
    rounds == [] || (Round(m, g, rounds[0]) && Rounds(Run(m, rounds[0]), g, rounds[1..]))
  }

  lemma {:induction false} RoundsExtendExact(m: Mesh, g: Graph, rounds: seq<seq<Step>>, k: nat)
    requires Honest(m, g) && ExactUpTo(m, g, k) && k + |rounds| <= 15 && Rounds(m, g, rounds)
    ensures ExactUpTo(RunAll(m, rounds), g, k + |rounds|) && Honest(RunAll(m, rounds), g)
    decreases |rounds|
  {
    if rounds != [] {
      RoundExtendsExact(m, g, rounds[0], k);
      RoundsExtendExact(Run(m, rounds[0]), g, rounds[1..], k + 1);
    }
  }

  /** Convergence: from empty tables, after `k` rounds and any quiet steps thereafter, every pair at
      hop distance 1..k, `k < 16`, has the exact cost. */
  lemma ConvergesToHopDistance(g: Graph, now: int, timeout: int, rounds: seq<seq<Step>>, after: seq<Step>)
    requires |g| <= MAX_ROUTERS && |rounds| <= 15
    requires Rounds(EmptyMesh(|g|, now, timeout), g, rounds)
    requires QuietRun(RunAll(EmptyMesh(|g|, now, timeout), rounds), g, after)
    ensures var m := Run(RunAll(EmptyMesh(|g|, now, timeout), rounds), after);
      ExactUpTo(m, g, |rounds|) && Honest(m, g)
  {
    var m := EmptyMesh(|g|, now, timeout);
    EmptyIsHonest(g, now, timeout);
    RoundsExtendExact(m, g, rounds, 0);
    ExactPersists(RunAll(m, rounds), g, after, |rounds|);
  }

  // ---------------------------------------------------------------------
  // Following next hops.
  // ---------------------------------------------------------------------

  /** Fully converged: every pair at a hop distance below sixteen is exact. */
  ghost predicate Converged(m: Mesh, g: Graph) {
    Honest(m, g) && ExactUpTo(m, g, 15)
  }

  /** In a converged mesh a route exists exactly when the distance is below sixteen, at that cost. */
  lemma ConvergedCostIsDistance(m: Mesh, g: Graph, r: nat, d: nat, k: nat)
    requires Converged(m, g) && r < |m.tables| && d < |m.tables| && r != d
    ensures (m.tables[r][d].reachable && m.tables[r][d].cost == k) <==> (k < 16 && Distance(g, r, d, k))
  {
    var e := m.tables[r][d];
    if k < 16 && Distance(g, r, d, k) {
      if k == 0 { DistanceZero(g, r, d); }
    }
    if e.reachable && e.cost == k {
      assert FreshEntry(m.tables[r], r, m.now, d) && HonestEntry(g, e, r, d);
      WithinStep(g, r, e.nextHop, d, k - 1);
      var j := WithinHasDistance(g, r, d, k);
      if j == 0 { DistanceZero(g, r, d); }
      assert ExactEntry(m.tables[r], d, j);
    }
  }

  /** The routers a frame for `d` visits when each forwards it to its next hop. */
  function NextHopWalk(m: Mesh, r: nat, d: nat, fuel: nat): seq<nat>
    decreases fuel
  {
    if fuel == 0 || r >= |m.tables| || d >= MAX_ROUTERS then [r]
    else match NextHop(m.tables[r], d)
      case None => [r]
      case Some(h) => [r] + NextHopWalk(m, h, d, fuel - 1)
  }

  /** In a converged mesh the next hops lead from `r` to `d` in exactly as many hops as the cost,
      over links, each hop lowering the cost by one; so no router is visited twice. */
  lemma {:induction false} NextHopsReachDestination(m: Mesh, g: Graph, r: nat, d: nat, k: nat)
    requires Converged(m, g) && r < |m.tables| && d < MAX_ROUTERS && 1 <= k < 16 && Distance(g, r, d, k)
    ensures var p := NextHopWalk(m, r, d, k);
      && Walk(g, p, r, d) && |p| == k + 1
      && (forall i | 0 <= i < k :: m.tables[p[i]][d].reachable && m.tables[p[i]][d].cost == k - i)
      && (forall i, j | 0 <= i < j <= k :: p[i] != p[j])
    decreases k
  {
    var e := m.tables[r][d];
    assert ExactEntry(m.tables[r], d, k);
    ExactNextHop(m, g, 15, r, d, k);
    var h := e.nextHop;
    var p := NextHopWalk(m, r, d, k);
    var q := NextHopWalk(m, h, d, k - 1);
    assert p == [r] + q;
    if k == 1 {
      assert q == [d];
    } else {
      NextHopsReachDestination(m, g, h, d, k - 1);
    }
    PrependHop(m, g, r, h, d, q, k);
    DistinctByCost(m, d, p, k);
  }

  lemma PrependHop(m: Mesh, g: Graph, r: nat, h: nat, d: nat, q: seq<nat>, k: nat)
    requires r < |m.tables| == |g| && d < MAX_ROUTERS && 1 <= k && Edge(g, r, h) && Walk(g, q, h, d) && |q| == k
    requires m.tables[r][d].reachable && m.tables[r][d].cost == k
    requires forall i | 0 <= i < k - 1 :: m.tables[q[i]][d].reachable && m.tables[q[i]][d].cost == k - 1 - i
    ensures var p := [r] + q;
      Walk(g, p, r, d) && forall i | 0 <= i < k :: m.tables[p[i]][d].reachable && m.tables[p[i]][d].cost == k - i
  {
    var p := [r] + q;
    forall i | 0 <= i < |p| - 1
      ensures Edge(g, p[i], p[i + 1])
    {
      if i > 0 { assert Edge(g, q[i - 1], q[i]); }
    }
    forall i | 0 <= i < k
      ensures m.tables[p[i]][d].reachable && m.tables[p[i]][d].cost == k - i
    {
      if i > 0 { assert p[i] == q[i - 1]; }
    }
  }

  lemma DistinctByCost(m: Mesh, d: nat, p: seq<nat>, k: nat)
    requires |p| == k + 1 && FreshMesh(m) && d < |m.tables| && p[k] == d
    requires forall i | 0 <= i < k ::
               p[i] < |m.tables| && m.tables[p[i]][d].reachable && m.tables[p[i]][d].cost == k - i
    ensures forall i, j | 0 <= i < j <= k :: p[i] != p[j]
  {
    assert FreshEntry(m.tables[d], d, m.now, d);
    forall i, j | 0 <= i < j <= k
      ensures p[i] != p[j]
    {
      assert m.tables[p[i]][d].reachable && m.tables[p[i]][d].cost == k - i;
      if j < k { assert m.tables[p[j]][d].cost == k - j; }
    }
  }
}
