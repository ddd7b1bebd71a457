/** The breadth-first path tracer over the up-links of a topology (src/thread/PathTracer.cpp), for
    any number of nodes. */
module PathTracer {
  import opened Types
  import opened Graphs

  /** Quality of one directed link; losses and latencies are reals. */
  datatype LinkParams = LinkParams(
    baseLossRate: real, latencyMeanMs: real, latencyStddevMs: real, lqi: u8, rssi: int, linkUp: bool)

  const DEFAULT_LINK: LinkParams := LinkParams(0.0, 5.0, 1.0, 200, -60, true)

  type Topology = t: seq<seq<LinkParams>> | forall i | 0 <= i < |t| :: |t[i]| == |t| witness []

  function GetLinkParams(topo: Topology, from: nat, to: nat): LinkParams {
    if from < |topo| && to < |topo| then topo[from][to] else DEFAULT_LINK.(linkUp := false)
  }

  /** The links a frame can cross. */
  function UpLinks(topo: Topology): (g: Graph)
    ensures Square(g) && |g| == |topo|
    ensures forall u: nat, v: nat | u < |g| && v < |g| :: g[u][v] == GetLinkParams(topo, u, v).linkUp
  {
    seq(|topo|, u requires 0 <= u < |topo| => seq(|topo|, v requires 0 <= v < |topo| => topo[u][v].linkUp))
  }

  datatype TraceHop = TraceHop(from: nat, to: nat, params: LinkParams, expectedLoss: real)
  datatype TraceResult = TraceResult(reachable: bool, src: nat, dst: nat, hops: seq<TraceHop>)

  // ---------------------------------------------------------------------
  // What a trace is.
  // ---------------------------------------------------------------------

  ghost predicate LexLess(p: seq<nat>, q: seq<nat>) {
    exists i: nat :: i < |p| && i < |q| && (forall k | 0 <= k < i :: p[k] == q[k]) && p[i] < q[i]
  }

  /** Shorter, or equally long and lexicographically smaller. */
  ghost predicate Before(p: seq<nat>, q: seq<nat>) {
    |p| < |q| || (|p| == |q| && LexLess(p, q))
  }

  ghost predicate AtMost(p: seq<nat>, q: seq<nat>) {
    p == q || Before(p, q)
  }

  predicate Simple(p: seq<nat>) {
    forall i, j | 0 <= i < j < |p| :: p[i] != p[j]
  }

  /** `p` is the least walk from `u` to `v`: fewest hops first, then smallest node ids. */
  ghost predicate LeastWalk(g: Graph, p: seq<nat>, u: nat, v: nat) {
    Walk(g, p, u, v) && Simple(p) && forall q | Walk(g, q, u, v) :: AtMost(p, q)
  }

  function HopOver(topo: Topology, from: nat, to: nat): TraceHop {
    var params := GetLinkParams(topo, from, to);
    TraceHop(from, to, params, if params.linkUp then params.baseLossRate else 1.0)
  }

  function HopsAlong(topo: Topology, p: seq<nat>): (hops: seq<TraceHop>)
    requires |p| > 0
    ensures |hops| == |p| - 1 && forall i | 0 <= i < |hops| :: hops[i] == HopOver(topo, p[i], p[i + 1])
  {
    seq(|p| - 1, i requires 0 <= i < |p| - 1 => HopOver(topo, p[i], p[i + 1]))
  }

  /** The trace from `src` to `dst`: unreachable when no walk over up-links joins two nodes of the
      topology, and otherwise the hops of the least walk. */
  ghost predicate IsTrace(topo: Topology, src: nat, dst: nat, r: TraceResult) {
    var g := UpLinks(topo);
    && r.src == src && r.dst == dst
    && (if r.reachable then exists p :: LeastWalk(g, p, src, dst) && r.hops == HopsAlong(topo, p)
        else r.hops == [] && forall p :: !Walk(g, p, src, dst))
  }

  lemma BeforeIsStrict(p: seq<nat>, q: seq<nat>)
    requires AtMost(p, q) && AtMost(q, p)
    ensures p == q
  {
  }

  /** The trace is determined by the topology and its end points. */
  lemma TraceIsUnique(topo: Topology, src: nat, dst: nat, a: TraceResult, b: TraceResult)
    requires IsTrace(topo, src, dst, a) && IsTrace(topo, src, dst, b)
    ensures a == b
  {
    var g := UpLinks(topo);
    if a.reachable && b.reachable {
      var p :| LeastWalk(g, p, src, dst) && a.hops == HopsAlong(topo, p);
      var q :| LeastWalk(g, q, src, dst) && b.hops == HopsAlong(topo, q);
      BeforeIsStrict(p, q);
    }
  }

  /** The hops of a trace make a chain of up-links from `src` to `dst`, each with the parameters of its own
      direction and the loss of those. */
  lemma TraceIsChain(topo: Topology, src: nat, dst: nat, r: TraceResult)
    requires IsTrace(topo, src, dst, r) && r.reachable
    ensures src < |topo| && dst < |topo| && (r.hops == [] <==> src == dst)
    ensures r.hops != [] ==> r.hops[0].from == src && r.hops[|r.hops| - 1].to == dst
    ensures forall i | 0 <= i < |r.hops| - 1 :: r.hops[i].to == r.hops[i + 1].from
    ensures forall i | 0 <= i < |r.hops| ::
              var h := r.hops[i];
              && h.from < |topo| && h.to < |topo| && h.from != h.to && h.params == topo[h.from][h.to]
              && h.params.linkUp && h.expectedLoss == h.params.baseLossRate
  {
    hide AtMost;
    var p :| LeastWalk(UpLinks(topo), p, src, dst) && r.hops == HopsAlong(topo, p);
    forall i | 0 <= i < |r.hops|
      ensures r.hops[i] == HopOver(topo, p[i], p[i + 1]) && Edge(UpLinks(topo), p[i], p[i + 1])
    {
    }
  }

  /** The number of hops of a trace is the hop distance. */
  lemma TraceCountsDistance(topo: Topology, src: nat, dst: nat, r: TraceResult, k: nat)
    requires IsTrace(topo, src, dst, r)
    ensures (r.reachable && |r.hops| == k) <==> Distance(UpLinks(topo), src, dst, k)
  {
    hide Distance;
    var g := UpLinks(topo);
    if r.reachable {
      var p :| LeastWalk(g, p, src, dst) && r.hops == HopsAlong(topo, p);
      LeastWalkDistance(g, p, src, dst);
      if Distance(g, src, dst, k) {
        DistanceUnique(g, src, dst, k, |r.hops|);
      }
    } else if Distance(g, src, dst, k) {
      var p := DistanceHasWalk(g, src, dst, k);
    }
  }

  lemma LeastWalkDistance(g: Graph, p: seq<nat>, u: nat, v: nat)
    requires LeastWalk(g, p, u, v)
    ensures |p| > 0 && Distance(g, u, v, |p| - 1)
  {
    assert Within(g, u, v, |p| - 1);
    assert forall q | Walk(g, q, u, v) :: |q| >= |p|;
  }

  lemma DistanceHasWalk(g: Graph, u: nat, v: nat, k: nat) returns (p: seq<nat>)
    requires Distance(g, u, v, k)
    ensures Walk(g, p, u, v)
  {
    p :| Walk(g, p, u, v) && |p| - 1 <= k;
  }

  // ---------------------------------------------------------------------
  // The search tree: nodes in order of discovery, each with the position of its predecessor.
  // ---------------------------------------------------------------------

  ghost predicate Tree(g: Graph, src: nat, order: seq<nat>, par: seq<nat>) {
    && Square(g) && |order| == |par| && 0 < |order| && order[0] == src && Simple(order)
    && (forall i | 0 <= i < |order| :: order[i] < |g|)
    && (forall i | 1 <= i < |order| :: par[i] < i && Edge(g, order[par[i]], order[i]))
    && (forall i, j | 1 <= i < j < |order| :: EarlierSibling(order, par, i, j))
  }

  predicate EarlierSibling(order: seq<nat>, par: seq<nat>, i: int, j: int)
    requires 0 <= i < |order| == |par| && 0 <= j < |order|
  {
    par[i] < par[j] || (par[i] == par[j] && order[i] < order[j])
  }

  /** The first `h` nodes have been expanded: what they lead to is discovered, and no later than
      through them. */
  ghost predicate Expanded(g: Graph, order: seq<nat>, par: seq<nat>, h: nat) {
    && h <= |order| == |par|
    && (forall i | 1 <= i < |order| :: par[i] < h)
    && (forall j, v: nat {:trigger Edge(g, order[j], v)} | 0 <= j < h && Edge(g, order[j], v) :: v in order)
    && (forall j, i | 0 <= j < h && 1 <= i < |order| && Edge(g, order[j], order[i]) :: par[i] <= j)
  }

  /** The tree path to the node at position `i`. */
  ghost function PathTo(order: seq<nat>, par: seq<nat>, i: nat): (p: seq<nat>)
    requires i < |order| == |par| && forall k | 1 <= k < |order| :: par[k] < k
    ensures |p| > 0 && p[|p| - 1] == order[i]
  {
    if i == 0 then [order[0]] else PathTo(order, par, par[i]) + [order[i]]
  }

  lemma AppendBefore(p: seq<nat>, q: seq<nat>, a: nat, b: nat)
    requires Before(p, q) || (p == q && a < b)
    ensures Before(p + [a], q + [b])
  {
    if |p| == |q| {
      if p == q {
        assert (p + [a])[|p|] < (q + [b])[|p|];
      } else {
        var i: nat :| i < |p| && i < |q| && (forall k | 0 <= k < i :: p[k] == q[k]) && p[i] < q[i];
        assert (p + [a])[i] < (q + [b])[i];
      }
    }
  }

  lemma AppendAtMost(p: seq<nat>, q: seq<nat>, v: nat)
    requires AtMost(p, q)
    ensures AtMost(p + [v], q + [v])
  {
    if p != q { AppendBefore(p, q, v, v); }
  }

  lemma AtMostTransitive(p: seq<nat>, q: seq<nat>, r: seq<nat>)
    requires AtMost(p, q) && AtMost(q, r)
    ensures AtMost(p, r)
  {
    if p != q && q != r && |p| == |r| {
      var i: nat :| i < |p| && i < |q| && (forall k | 0 <= k < i :: p[k] == q[k]) && p[i] < q[i];
      var j: nat :| j < |q| && j < |r| && (forall k | 0 <= k < j :: q[k] == r[k]) && q[j] < r[j];
      var k := if i < j then i else j;
      assert p[k] < r[k];
    }
  }

  /** Nodes are discovered in increasing order of their tree paths. */
  lemma {:induction false} DiscoveryOrder(g: Graph, src: nat, order: seq<nat>, par: seq<nat>, i: nat, j: nat)
    requires Tree(g, src, order, par) && i < j < |order|
    ensures Before(PathTo(order, par, i), PathTo(order, par, j))
    decreases j
  {
    if i > 0 {
      assert EarlierSibling(order, par, i, j);
      if par[i] < par[j] {
        DiscoveryOrder(g, src, order, par, par[i], par[j]);
      }
      AppendBefore(PathTo(order, par, par[i]), PathTo(order, par, par[j]), order[i], order[j]);
    }
  }

  lemma DiscoveryAtMost(g: Graph, src: nat, order: seq<nat>, par: seq<nat>, i: nat, j: nat)
    requires Tree(g, src, order, par) && i <= j < |order|
    ensures AtMost(PathTo(order, par, i), PathTo(order, par, j))
  {
    if i < j { DiscoveryOrder(g, src, order, par, i, j); }
  }

  lemma {:induction false} TreePathIsWalk(g: Graph, src: nat, order: seq<nat>, par: seq<nat>, i: nat)
    requires Tree(g, src, order, par) && i < |order|
    ensures var p := PathTo(order, par, i);
      Walk(g, p, src, order[i]) && Simple(p) && forall k | 0 <= k < |p| :: p[k] in order[..i + 1]
  {
    if i > 0 {
      TreePathIsWalk(g, src, order, par, par[i]);
      var q := PathTo(order, par, par[i]);
      var p := q + [order[i]];
      forall k | 0 <= k < |p| - 1
        ensures Edge(g, p[k], p[k + 1])
      {
        if k < |q| - 1 { assert Edge(g, q[k], q[k + 1]); }
      }
      assert order[..par[i] + 1] <= order[..i];
      assert order[i] in order[..i + 1];
      forall k | 0 <= k < |q|
        ensures q[k] in order[..i + 1] && q[k] != order[i]
      {
        assert q[k] in order[..par[i] + 1];
      }
    }
  }

  /** Any walk `q` from the source: the tree path to its end is no later than `q`; and if its end is
      not expanded, then neither is the tree path to the first node not yet expanded. */
  lemma {:induction false} WalksComeLater(g: Graph, src: nat, order: seq<nat>, par: seq<nat>,
                                       h: nat, q: seq<nat>, v: nat)
    requires Tree(g, src, order, par) && Expanded(g, order, par, h) && Walk(g, q, src, v)
    ensures forall i | 0 <= i < |order| && order[i] == v :: AtMost(PathTo(order, par, i), q)
    ensures v !in order[..h] ==> h < |order| && AtMost(PathTo(order, par, h), q)
    decreases |q|
  {
    assert |q| > 0;
    hide AtMost, PathTo, Walk;
    if |q| == 1 {
      PathToSource(g, src, order, par, h, q, v);
    } else {
      var q', u := q[..|q| - 1], q[|q| - 2];
      WalkPrefix(g, q, src, v);
      WalksComeLater(g, src, order, par, h, q', u);
      assert q == q' + [v];
      if u in order[..h] {
        var j :| 0 <= j < h && order[j] == u;
        var i := FoundThrough(g, order, par, h, j, v);
        if i < h { assert order[..h][i] == v; }
        AfterExpanded(g, src, order, par, h, q', v, i, j);
      } else {
        AfterUnexpanded(g, src, order, par, h, q', v);
      }
    }
  }

  /** A walk of one node ends at the source, which is the first node of the tree. */
  lemma PathToSource(g: Graph, src: nat, order: seq<nat>, par: seq<nat>, h: nat, q: seq<nat>, v: nat)
    requires Tree(g, src, order, par) && h <= |order| && Walk(g, q, src, v) && |q| == 1
    ensures forall i | 0 <= i < |order| && order[i] == v :: AtMost(PathTo(order, par, i), q)
    ensures v !in order[..h] ==> h < |order| && AtMost(PathTo(order, par, h), q)
  {
    assert order[0] == v && q == PathTo(order, par, 0);
    if 0 < h { assert order[..h][0] == v; }
  }

  lemma WalkPrefix(g: Graph, q: seq<nat>, u: nat, v: nat)
    requires Walk(g, q, u, v) && |q| > 1
    ensures Walk(g, q[..|q| - 1], u, q[|q| - 2]) && Edge(g, q[|q| - 2], v) && q == q[..|q| - 1] + [v]
  {
    var p := q[..|q| - 1];
    assert Edge(g, q[|q| - 2], q[|q| - 2 + 1]);
    forall k | 0 <= k < |p| - 1
      ensures Edge(g, p[k], p[k + 1])
    {
      assert Edge(g, q[k], q[k + 1]);
    }
  }

  lemma FoundThrough(g: Graph, order: seq<nat>, par: seq<nat>, h: nat, j: nat, v: nat) returns (i: nat)
    requires Expanded(g, order, par, h) && j < h && Edge(g, order[j], v)
    ensures i < |order| && order[i] == v && (i == 0 || par[i] <= j)
  {
    assert v in order;
    i :| 0 <= i < |order| && order[i] == v;
    if i > 0 { assert Edge(g, order[j], order[i]); }
  }

  /** The walk `q'` ends in the expanded node at position `j`, which leads to `v` at position `i`. */
  lemma AfterExpanded(g: Graph, src: nat, order: seq<nat>, par: seq<nat>, h: nat, q': seq<nat>, v: nat, i: nat, j: nat)
    requires Tree(g, src, order, par) && i < |order| && order[i] == v && (i == 0 || par[i] <= j) && j < h <= |order|
    requires AtMost(PathTo(order, par, j), q') && |q'| > 0
    ensures forall k | 0 <= k < |order| && order[k] == v :: AtMost(PathTo(order, par, k), q' + [v])
    ensures h <= i ==> AtMost(PathTo(order, par, h), q' + [v])
  {
    hide AtMost, PathTo;
    forall k | 0 <= k < |order| && order[k] == v
      ensures k == i
    {
    }
    StepComesLater(g, src, order, par, q', v, i, j);
    if h <= i {
      DiscoveryAtMost(g, src, order, par, h, i);
      AtMostTransitive(PathTo(order, par, h), PathTo(order, par, i), q' + [v]);
    }
  }

  /** The walk `q'` ends in a node that is not expanded. */
  lemma AfterUnexpanded(g: Graph, src: nat, order: seq<nat>, par: seq<nat>, h: nat, q': seq<nat>, v: nat)
    requires Tree(g, src, order, par) && Expanded(g, order, par, h) && h < |order|
    requires AtMost(PathTo(order, par, h), q') && |q'| > 0
    ensures forall i | 0 <= i < |order| && order[i] == v :: AtMost(PathTo(order, par, i), q' + [v])
    ensures AtMost(PathTo(order, par, h), q' + [v])
  {
    assert Before(PathTo(order, par, h), q' + [v]);
    forall i | 0 <= i < |order| && order[i] == v
      ensures AtMost(PathTo(order, par, i), q' + [v])
    {
      if i <= h {
        DiscoveryAtMost(g, src, order, par, i, h);
        AtMostTransitive(PathTo(order, par, i), PathTo(order, par, h), q' + [v]);
      } else {
        StepComesLater(g, src, order, par, q', v, i, h);
      }
    }
  }

  lemma StepComesLater(g: Graph, src: nat, order: seq<nat>, par: seq<nat>, q': seq<nat>, v: nat, i: nat, j: nat)
    requires Tree(g, src, order, par) && i < |order| && order[i] == v && j < |order|
    requires AtMost(PathTo(order, par, j), q') && |q'| > 0
    requires i == 0 || par[i] <= j
    ensures AtMost(PathTo(order, par, i), q' + [v])
  {
    if i > 0 {
      DiscoveryAtMost(g, src, order, par, par[i], j);
      AtMostTransitive(PathTo(order, par, par[i]), PathTo(order, par, j), q');
      AppendAtMost(PathTo(order, par, par[i]), q', v);
    }
  }

  /** The tree path to a node is the least of all walks to it. */
  lemma TreePathIsLeast(g: Graph, src: nat, order: seq<nat>, par: seq<nat>, h: nat, i: nat)
    requires Tree(g, src, order, par) && Expanded(g, order, par, h) && i < |order|
    ensures LeastWalk(g, PathTo(order, par, i), src, order[i])
  {
    TreePathIsWalk(g, src, order, par, i);
    forall q | Walk(g, q, src, order[i])
      ensures AtMost(PathTo(order, par, i), q)
    {
      WalksComeLater(g, src, order, par, h, q, order[i]);
    }
  }

  /** Once every discovered node is expanded, what is undiscovered cannot be reached. */
  lemma UndiscoveredIsUnreachable(g: Graph, src: nat, order: seq<nat>, par: seq<nat>, v: nat)
    requires Tree(g, src, order, par) && Expanded(g, order, par, |order|) && v !in order
    ensures forall q :: !Walk(g, q, src, v)
  {
    forall q | Walk(g, q, src, v)
      ensures false
    {
      WalksComeLater(g, src, order, par, |order|, q, v);
    }
  }

  // ---------------------------------------------------------------------
  // The search.
  // ---------------------------------------------------------------------

  /** The node at position `h` is being expanded: its neighbours below `nxt` have been looked at. */
  ghost predicate Expanding(g: Graph, order: seq<nat>, par: seq<nat>, h: nat, nxt: nat) {
    && h < |order| == |par|
    && (forall i | 1 <= i < |order| :: par[i] < h || (par[i] == h && order[i] < nxt))
    && (forall j, v: nat {:trigger Edge(g, order[j], v)} | 0 <= j < h && Edge(g, order[j], v) :: v in order)
    && (forall j, i | 0 <= j < h && 1 <= i < |order| && Edge(g, order[j], order[i]) :: par[i] <= j)
    && (forall v: nat {:trigger Edge(g, order[h], v)} | v < nxt && Edge(g, order[h], v) :: v in order)
  }

  lemma ExpandingSkips(g: Graph, order: seq<nat>, par: seq<nat>, h: nat, nxt: nat)
    requires Expanding(g, order, par, h, nxt)
    ensures Expanding(g, order, par, h, nxt + 1) <==> (Edge(g, order[h], nxt) ==> nxt in order)
  {
  }

  lemma TreeGrows(g: Graph, src: nat, order: seq<nat>, par: seq<nat>, h: nat, nxt: nat)
    requires Tree(g, src, order, par) && Expanding(g, order, par, h, nxt)
    requires nxt !in order && Edge(g, order[h], nxt)
    ensures Tree(g, src, order + [nxt], par + [h])
  {
    var order', par', last := order + [nxt], par + [h], |order|;
    forall i | 1 <= i < |order'|
      ensures par'[i] < i && Edge(g, order'[par'[i]], order'[i])
    {
      if i < last { assert order'[i] == order[i] && par'[i] == par[i]; }
    }
    forall i, j | 1 <= i < j < |order'|
      ensures EarlierSibling(order', par', i, j)
    {
      if j < last { assert EarlierSibling(order, par, i, j); }
    }
  }

  lemma ExpandingGrows(g: Graph, src: nat, order: seq<nat>, par: seq<nat>, h: nat, nxt: nat)
    requires Tree(g, src, order, par) && Expanding(g, order, par, h, nxt)
    requires nxt !in order && Edge(g, order[h], nxt)
    ensures Expanding(g, order + [nxt], par + [h], h, nxt + 1)
  {
    var order', par', last := order + [nxt], par + [h], |order|;
    forall j, v: nat | 0 <= j < h && Edge(g, order'[j], v)
      ensures v in order'
    {
      assert Edge(g, order[j], v) && v in order;
    }
    forall j, i | 0 <= j < h && 1 <= i < |order'| && Edge(g, order'[j], order'[i])
      ensures par'[i] <= j
    {
      assert Edge(g, order[j], order'[i]);
    }
    forall v: nat | v < nxt + 1 && Edge(g, order'[h], v)
      ensures v in order'
    {
      if v < nxt { assert Edge(g, order[h], v) && v in order; } else { assert order'[last] == v; }
    }
  }

  /** The state of the search: `queue` holds the discovered nodes from position `h` on. */
  ghost predicate Searching(n: nat, order: seq<nat>, par: seq<nat>, h: nat,
                            queue: seq<nat>, seen: seq<bool>, prev: seq<int>)
  {
    && |seen| == |prev| == n && h <= |order| == |par| && queue == order[h..]
    && (forall i | 0 <= i < |order| :: order[i] < n)
    && (forall v | 0 <= v < n :: seen[v] <==> v in order)
    && (forall i | 1 <= i < |order| :: par[i] < i && prev[order[i]] == order[par[i]])
  }

  method TracePath(topo: Topology, src: nat, dst: nat) returns (result: TraceResult)
    ensures IsTrace(topo, src, dst, result)
    ensures result.reachable ==> forall i | 0 <= i < |result.hops| ::
              var h := result.hops[i];
              && h.from < |topo| && h.to < |topo| && h.params == topo[h.from][h.to] && h.params.linkUp
              && h.expectedLoss == h.params.baseLossRate && (i > 0 ==> result.hops[i - 1].to == h.from)
  {
    result := TraceResult(false, src, dst, []);
    ghost var g := UpLinks(topo);
    if src >= |topo| || dst >= |topo| {
      return;
    }
    if src == dst {
      assert LeastWalk(g, [src], src, dst) && HopsAlong(topo, [src]) == [];
      return result.(reachable := true);
    }
    var prev := new int[|topo|](_ => -1);
    var seen := new bool[|topo|](_ => false);
    ghost var order, par, h := Search(topo, src, dst, seen, prev);
    if !seen[dst] {
      UndiscoveredIsUnreachable(g, src, order, par, dst);
      return;
    }
    ghost var i :| 0 <= i < |order| && order[i] == dst;
    TreePathIsLeast(g, src, order, par, h, i);
    var path := WalkBack(src, dst, prev, order, par, i);
    var hops := BuildHops(topo, path);
    result := TraceResult(true, src, dst, hops);
    TraceIsChain(topo, src, dst, result);
  }

  method BuildHops(topo: Topology, path: seq<nat>) returns (hops: seq<TraceHop>)
    requires |path| > 0
    ensures hops == HopsAlong(topo, path)
  {
    hops := [];
    for k := 0 to |path| - 1
      invariant |hops| == k && forall i | 0 <= i < k :: hops[i] == HopOver(topo, path[i], path[i + 1])
    {
      var params := GetLinkParams(topo, path[k], path[k + 1]);
      hops := hops + [TraceHop(path[k], path[k + 1], params, if params.linkUp then params.baseLossRate else 1.0)];
    }
  }

  /** Marks what can be reached from `src`, stopping when it gets to `dst`. */
  method Search(topo: Topology, src: nat, dst: nat, seen: array<bool>, prev: array<int>)
    returns (ghost order: seq<nat>, ghost par: seq<nat>, ghost h: nat)
    requires seen.Length == prev.Length == |topo| && src < |topo| && dst < |topo|
    requires forall v | 0 <= v < |topo| :: !seen[v]
    modifies seen, prev
    ensures Tree(UpLinks(topo), src, order, par) && Expanded(UpLinks(topo), order, par, h)
    ensures Searching(|topo|, order, par, h, order[h..], seen[..], prev[..])
    ensures seen[dst] || h == |order|
  {
    ghost var g := UpLinks(topo);
    var queue: seq<nat> := [src];
    seen[src] := true;
    order, par, h := [src], [0], 0;
    while queue != []
      invariant Tree(g, src, order, par) && Expanded(g, order, par, h)
      invariant Searching(|topo|, order, par, h, queue, seen[..], prev[..])
      decreases |topo| - h
    {
      var cur := queue[0];
      queue := queue[1..];
      if cur == dst { break; }
      queue, order, par := Expand(topo, cur, queue, seen, prev, src, order, par, h);
      DistinctBelow(order, |topo|);
      h := h + 1;
    }
  }

  /** Discovers the unseen neighbours of `cur`, by ascending id. */
  method Expand(topo: Topology, cur: nat, queue0: seq<nat>, seen: array<bool>, prev: array<int>,
                ghost src: nat, ghost order0: seq<nat>, ghost par0: seq<nat>, ghost h: nat)
    returns (queue: seq<nat>, ghost order: seq<nat>, ghost par: seq<nat>)
    requires h < |order0| && order0[h] == cur
    requires Tree(UpLinks(topo), src, order0, par0) && Expanded(UpLinks(topo), order0, par0, h)
    requires Searching(|topo|, order0, par0, h + 1, queue0, seen[..], prev[..])
    modifies seen, prev
    ensures Tree(UpLinks(topo), src, order, par) && Expanded(UpLinks(topo), order, par, h + 1)
    ensures Searching(|topo|, order, par, h + 1, queue, seen[..], prev[..])
  {
    ghost var g := UpLinks(topo);
    queue, order, par := queue0, order0, par0;
    for nxt := 0 to |topo|
      invariant Tree(g, src, order, par) && Expanding(g, order, par, h, nxt) && order[h] == cur
      invariant Searching(|topo|, order, par, h + 1, queue, seen[..], prev[..])
    {
      ExpandingSkips(g, order, par, h, nxt);
      if seen[nxt] || nxt == cur { continue; }
      if !GetLinkParams(topo, cur, nxt).linkUp { continue; }
      TreeGrows(g, src, order, par, h, nxt);
      ExpandingGrows(g, src, order, par, h, nxt);
      ghost var seen0, prev0 := seen[..], prev[..];
      seen[nxt] := true;
      prev[nxt] := cur;
      SearchingGrows(|topo|, order, par, h, queue, seen0, prev0, nxt);
      assert seen[..] == seen0[nxt := true] && prev[..] == prev0[nxt := cur];
      queue := queue + [nxt];
      order, par := order + [nxt], par + [h];
    }
    ExpandingIsExpanded(g, order, par, h, |topo|);
  }

  lemma SearchingGrows(n: nat, order: seq<nat>, par: seq<nat>, h: nat, queue: seq<nat>,
                       seen: seq<bool>, prev: seq<int>, nxt: nat)
    requires Searching(n, order, par, h + 1, queue, seen, prev) && nxt < n && nxt !in order
    ensures Searching(n, order + [nxt], par + [h], h + 1, queue + [nxt], seen[nxt := true], prev[nxt := order[h]])
  {
    var order', par', last := order + [nxt], par + [h], |order|;
    assert order'[last] == nxt;
    assert order'[h + 1..] == order[h + 1..] + [nxt];
    forall i | 1 <= i < |order'|
      ensures par'[i] < i && prev[nxt := order[h]][order'[i]] == order'[par'[i]]
    {
      if i < last { assert order'[i] == order[i] && par'[i] == par[i] && order[i] in order; }
    }
  }

  lemma ExpandingIsExpanded(g: Graph, order: seq<nat>, par: seq<nat>, h: nat, n: nat)
    requires Square(g) && n == |g| && Expanding(g, order, par, h, n)
    ensures Expanded(g, order, par, h + 1)
  {
  }

  /** Distinct numbers below `n` are at most `n` many. */
  lemma {:induction false} DistinctBelow(s: seq<nat>, n: nat)
    requires Simple(s) && forall i | 0 <= i < |s| :: s[i] < n
    ensures |s| <= n
    decreases n
  {
    if s != [] {
      assert s[0] < n;
      if i :| 0 <= i < |s| && s[i] == n - 1 {
        DistinctBelow(s[..i] + s[i + 1..], n - 1);
      } else {
        DistinctBelow(s, n - 1);
      }
    }
  }

  /** Follows the predecessors from `dst` back to `src`. */
  method WalkBack(src: nat, dst: nat, prev: array<int>, ghost order: seq<nat>, ghost par: seq<nat>, ghost i: nat)
    returns (path: seq<nat>)
    requires |order| == |par| && i < |order| && order[0] == src && order[i] == dst && Simple(order)
    requires forall k | 0 <= k < |order| :: order[k] < prev.Length
    requires forall k | 1 <= k < |order| :: par[k] < k && prev[order[k]] == order[par[k]]
    ensures path == PathTo(order, par, i)
  {
    var backward: seq<nat> := [];
    var at: int := dst;
    ghost var k: nat := i;
    ghost var full := PathTo(order, par, i);
    while at != -1
      invariant k < |order| && at == order[k]
      invariant if backward == [] then k == i
                else full == PathTo(order, par, k) + Reversed(backward)
      decreases k
    {
      assert Reversed(backward + [at]) == [at] + Reversed(backward);
      backward := backward + [at];
      if at == src { break; }
      at := prev[at];
      k := par[k];
    }
    path := Reversed(backward);
  }
}
