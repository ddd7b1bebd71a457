/** Directed graphs on nodes 0..n-1, walks and hop distance. */
module Graphs {
  type Graph = seq<seq<bool>>

  predicate Square(g: Graph) {
    forall i | 0 <= i < |g| :: |g[i]| == |g|
  }

  predicate Edge(g: Graph, u: nat, v: nat) {
    Square(g) && u < |g| && v < |g| && u != v && g[u][v]
  }

  predicate Symmetric(g: Graph) {
    forall u: nat, v: nat | u < |g| && v < |g| :: Edge(g, u, v) == Edge(g, v, u)
  }

  predicate IsWalk(g: Graph, p: seq<nat>) {
    && 0 < |p|
    && (forall i | 0 <= i < |p| :: p[i] < |g|)
    && (forall i | 0 <= i < |p| - 1 :: Edge(g, p[i], p[i + 1]))
  }

  predicate Walk(g: Graph, p: seq<nat>, u: nat, v: nat) {
    IsWalk(g, p) && p[0] == u && p[|p| - 1] == v
  }

  /** A walk of at most `k` hops leads from `u` to `v`. */
  ghost predicate Within(g: Graph, u: nat, v: nat, k: int) {
    exists p :: Walk(g, p, u, v) && |p| - 1 <= k
  }

  /** The fewest hops from `u` to `v` is `k`. */
  ghost predicate Distance(g: Graph, u: nat, v: nat, k: int) {
    Within(g, u, v, k) && !Within(g, u, v, k - 1)
  }

  lemma DistanceUnique(g: Graph, u: nat, v: nat, j: int, k: int)
    requires Distance(g, u, v, j) && Distance(g, u, v, k)
    ensures j == k
  {
    if j < k {
      WithinMore(g, u, v, j, k - 1);
    } else if k < j {
      WithinMore(g, u, v, k, j - 1);
    }
  }

  lemma WithinHere(g: Graph, u: nat)
    requires u < |g|
    ensures Within(g, u, u, 0)
  {
    assert Walk(g, [u], u, u);
  }

  lemma WithinMore(g: Graph, u: nat, v: nat, j: int, k: int)
    requires Within(g, u, v, j) && j <= k
    ensures Within(g, u, v, k)
  {
    var p :| Walk(g, p, u, v) && |p| - 1 <= j;
  }

  lemma WithinStep(g: Graph, u: nat, w: nat, v: nat, k: int)
    requires Edge(g, u, w) && Within(g, w, v, k)
    ensures Within(g, u, v, k + 1)
  {
    var p :| Walk(g, p, w, v) && |p| - 1 <= k;
    assert Walk(g, [u] + p, u, v);
  }

  /** Two nodes a walk apart are at some hop distance. */
  lemma {:induction false} WithinHasDistance(g: Graph, u: nat, v: nat, k: nat) returns (j: nat)
    requires Within(g, u, v, k)
    ensures j <= k && Distance(g, u, v, j)
  {
    if k > 0 && Within(g, u, v, k - 1) {
      j := WithinHasDistance(g, u, v, k - 1);
    } else {
      j := k;
    }
  }

  /** The second node of a shortest walk is one hop closer. */
  lemma CloserNeighbour(g: Graph, u: nat, v: nat, k: nat) returns (w: nat)
    requires Distance(g, u, v, k + 1)
    ensures Edge(g, u, w) && Distance(g, w, v, k)
  {
    var p :| Walk(g, p, u, v) && |p| - 1 <= k + 1;
    assert !(|p| - 1 <= k);
    w := p[1];
    assert Edge(g, p[0], p[1]);
    var q := p[1..];
    assert Walk(g, q, w, v) by {
      forall i | 0 <= i < |q| - 1
        ensures Edge(g, q[i], q[i + 1])
      {
        assert Edge(g, p[i + 1], p[i + 2]);
      }
    }
    if Within(g, w, v, k - 1) {
      WithinStep(g, u, w, v, k - 1);
      assert false;
    }
  }

  lemma DistanceZero(g: Graph, u: nat, v: nat)
    requires Distance(g, u, v, 0)
    ensures u == v && u < |g|
  {
  }

  lemma EdgeIsDistanceOne(g: Graph, u: nat, v: nat)
    requires u < |g| && v < |g|
    ensures Distance(g, u, v, 1) <==> Edge(g, u, v)
  {
    if Edge(g, u, v) {
      assert Walk(g, [u, v], u, v);
      assert forall p | Walk(g, p, u, v) :: |p| > 1;
    }
    if Distance(g, u, v, 1) {
      var w := CloserNeighbour(g, u, v, 0);
      DistanceZero(g, w, v);
    }
  }

  // ---------------------------------------------------------------------
  // The graph with every edge turned round.
  // ---------------------------------------------------------------------

  function Transpose(g: Graph): (t: Graph)
    requires Square(g)
    ensures Square(t) && |t| == |g|
  {
    seq(|g|, u requires 0 <= u < |g| => seq(|g|, v requires 0 <= v < |g| => g[v][u]))
  }

  function Reversed(p: seq<nat>): (q: seq<nat>)
    ensures |q| == |p| && forall i | 0 <= i < |q| :: q[i] == p[|p| - 1 - i]
  {
    seq(|p|, i requires 0 <= i < |p| => p[|p| - 1 - i])
  }

  lemma ReversedWalk(g: Graph, p: seq<nat>, u: nat, v: nat)
    requires Square(g) && Walk(g, p, u, v)
    ensures Walk(Transpose(g), Reversed(p), v, u)
  {
    var t, q := Transpose(g), Reversed(p);
    forall i | 0 <= i < |q| - 1
      ensures Edge(t, q[i], q[i + 1])
    {
      assert Edge(g, p[|p| - 2 - i], p[|p| - 2 - i + 1]);
    }
  }

  lemma TransposeWithin(g: Graph, u: nat, v: nat, k: int)
    requires Square(g)
    ensures Within(g, u, v, k) <==> Within(Transpose(g), v, u, k)
  {
    var t := Transpose(g);
    assert Transpose(t) == g by {
      assert forall i | 0 <= i < |g| :: Transpose(t)[i] == g[i];
    }
    if Within(g, u, v, k) {
      var p :| Walk(g, p, u, v) && |p| - 1 <= k;
      ReversedWalk(g, p, u, v);
    }
    if Within(t, v, u, k) {
      var p :| Walk(t, p, v, u) && |p| - 1 <= k;
      ReversedWalk(t, p, v, u);
    }
  }

  lemma TransposeDistance(g: Graph, u: nat, v: nat, k: int)
    requires Square(g)
    ensures Distance(g, u, v, k) <==> Distance(Transpose(g), v, u, k)
  {
    TransposeWithin(g, u, v, k);
    TransposeWithin(g, u, v, k - 1);
  }
}
