/** What the path tracer claims to mirror (src/thread/PathTracer.h): the routes that distance-vector
    routing converges to. Router `r` hears router `n` over the link from `n` to `r`. */
module RouteAgreement {
  import opened Routing
  import opened Mesh
  import opened Graphs
  import opened PathTracer
  import opened Convergence

  function Hearing(topo: Topology): Graph {
    Transpose(UpLinks(topo))
  }

  /** The route from `r` to `d` and the trace from `r` to `d` have the same hop count, below sixteen. */
  ghost predicate AgreeOn(m: Mesh, r: nat, d: nat, t: TraceResult)
    requires r < |m.tables| && d < MAX_ROUTERS
  {
    var e := m.tables[r][d];
    (e.reachable <==> t.reachable && |t.hops| < 16) && (e.reachable ==> e.cost == |t.hops|)
  }

  lemma AgreeFromDistance(m: Mesh, g: Graph, r: nat, d: nat, t: TraceResult)
    requires Converged(m, g) && r < |g| && d < |g| && r != d
    requires forall k: nat :: (t.reachable && |t.hops| == k) <==> Distance(g, r, d, k)
    ensures AgreeOn(m, r, d, t)
  {
    var e := m.tables[r][d];
    assert FreshEntry(m.tables[r], r, m.now, d);
    ConvergedCostIsDistance(m, g, r, d, e.cost);
    ConvergedCostIsDistance(m, g, r, d, |t.hops|);
  }

  /** Over any links, the converged cost from `r` to `d` is the hop count of the trace back from `d`. */
  lemma ConvergedCostIsTraceBack(m: Mesh, topo: Topology, r: nat, d: nat, t: TraceResult)
    requires Converged(m, Hearing(topo)) && r < |topo| && d < |topo| && r != d && IsTrace(topo, d, r, t)
    ensures AgreeOn(m, r, d, t)
  {
    forall k: nat
      ensures (t.reachable && |t.hops| == k) <==> Distance(Hearing(topo), r, d, k)
    {
      TransposeDistance(UpLinks(topo), d, r, k);
      TraceCountsDistance(topo, d, r, t, k);
    }
    AgreeFromDistance(m, Hearing(topo), r, d, t);
  }

  lemma SymmetricHearing(topo: Topology)
    requires Symmetric(UpLinks(topo))
    ensures Hearing(topo) == UpLinks(topo)
  {
    var up, g := UpLinks(topo), Hearing(topo);
    forall u: nat, v: nat | u < |up| && v < |up|
      ensures g[u][v] == up[u][v]
    {
      assert Edge(up, u, v) == Edge(up, v, u);
    }
    assert forall u | 0 <= u < |up| :: g[u] == up[u];
  }

  /** The claim itself holds on every pair of routers exactly when every link is up both ways or
      neither. */
  lemma RoutingAgreesWithTracerIff(m: Mesh, topo: Topology, traces: (nat, nat) -> TraceResult)
    requires Converged(m, Hearing(topo))
    requires forall r: nat, d: nat | r < |topo| && d < |topo| :: IsTrace(topo, r, d, traces(r, d))
    ensures (forall r: nat, d: nat | r < |topo| && d < |topo| && r != d :: AgreeOn(m, r, d, traces(r, d)))
       <==> Symmetric(UpLinks(topo))
  {
    var up, g := UpLinks(topo), Hearing(topo);
    if Symmetric(up) {
      SymmetricHearing(topo);
      forall r: nat, d: nat | r < |topo| && d < |topo| && r != d
        ensures AgreeOn(m, r, d, traces(r, d))
      {
        forall k: nat
          ensures (traces(r, d).reachable && |traces(r, d).hops| == k) <==> Distance(g, r, d, k)
        {
          TraceCountsDistance(topo, r, d, traces(r, d), k);
        }
        AgreeFromDistance(m, g, r, d, traces(r, d));
      }
    }
    if forall r: nat, d: nat | r < |topo| && d < |topo| && r != d :: AgreeOn(m, r, d, traces(r, d)) {
      forall u: nat, v: nat | u < |up| && v < |up|
        ensures Edge(up, u, v) == Edge(up, v, u)
      {
        if u != v {
          LinkBothWays(m, topo, u, v, traces(u, v));
          LinkBothWays(m, topo, v, u, traces(v, u));
        }
      }
    }
  }

  lemma LinkBothWays(m: Mesh, topo: Topology, u: nat, v: nat, t: TraceResult)
    requires Converged(m, Hearing(topo)) && u < |topo| && v < |topo| && u != v
    requires IsTrace(topo, u, v, t) && AgreeOn(m, u, v, t)
    ensures Edge(UpLinks(topo), u, v) ==> Edge(UpLinks(topo), v, u)
  {
    EdgeIsDistanceOne(UpLinks(topo), u, v);
    EdgeIsDistanceOne(Hearing(topo), u, v);
    TraceCountsDistance(topo, u, v, t, 1);
    ConvergedCostIsDistance(m, Hearing(topo), u, v, 1);
  }

  /** Over two-way links, the next hops lead to the destination over up-links in as many hops as the
      trace has, visiting no router twice. */
  lemma NextHopsMirrorTrace(m: Mesh, topo: Topology, r: nat, d: nat, t: TraceResult)
    requires Converged(m, Hearing(topo)) && Symmetric(UpLinks(topo))
    requires r < |topo| && d < |topo| && r != d && IsTrace(topo, r, d, t) && t.reachable && |t.hops| < 16
    ensures var p := NextHopWalk(m, r, d, |t.hops|);
      Walk(UpLinks(topo), p, r, d) && Simple(p) && |p| - 1 == |t.hops|
  {
    var up, g := UpLinks(topo), Hearing(topo);
    SymmetricHearing(topo);
    TraceCountsDistance(topo, r, d, t, |t.hops|);
    if |t.hops| == 0 { DistanceZero(up, r, d); }
    NextHopsReachDestination(m, g, r, d, |t.hops|);
  }

  /** One link that is up one way only: the tracer finds a one-hop path over it, while no run of the
      routers over that topology ever gives a route. */
  lemma OneWayLinkDisagrees(topo: Topology, t: TraceResult, now: int, timeout: int, steps: seq<Step>)
    requires |topo| == 2 && topo[0][1].linkUp && !topo[1][0].linkUp && IsTrace(topo, 0, 1, t)
    requires Steps(2, steps) && forall i | 0 <= i < |steps| :: OverLinks(Hearing(topo), steps[i])
    ensures t.reachable && |t.hops| == 1
    ensures !Run(EmptyMesh(2, now, timeout), steps).tables[0][1].reachable
  {
    var up, g := UpLinks(topo), Hearing(topo);
    EdgeIsDistanceOne(up, 0, 1);
    TraceCountsDistance(topo, 0, 1, t, 1);
    NothingHeard(g);
    CostsNeverBelowDistance(g, now, timeout, steps, 0, 1);
  }

  lemma NothingHeard(g: Graph)
    requires Square(g) && |g| == 2 && !g[0][1]
    ensures forall k: int :: !Within(g, 0, 1, k)
  {
    assert forall v: nat :: !Edge(g, 0, v);
    forall p: seq<nat>
      ensures !Walk(g, p, 0, 1)
    {
      if |p| > 1 { assert !Edge(g, 0, p[0 + 1]); }
    }
  }
}
