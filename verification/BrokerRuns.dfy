/** Conservation of frames over every run of the broker's relay and of its direct sends, with the tracer
    on from the start (src/net/Broker.cpp). */
module BrokerRuns {
  import opened PathTracer
  import opened Broker

  /** What one frame may do to the accounts, whatever the topology of the moment. */
  datatype Traffic =
    | Relayed(path: seq<nat>, outcomes: seq<Outcome>)
    | NoPath
    | SentOver(topo: Topology, src: nat, dst: nat, outcome: Outcome)

  predicate TrafficOk(t: Traffic, n: nat) {
    match t
    case Relayed(path, outcomes) => 0 < |path| <= |outcomes| + 1 && forall k | 0 <= k < |path| :: path[k] < n
    case NoPath => true
    case SentOver(topo, src, dst, _) => |topo| == n && src < n && dst < n
  }

  function AfterFrame(a: Accounts, n: nat, t: Traffic): (a': Accounts)
    requires Sized(a, n) && TrafficOk(t, n)
    ensures Sized(a', n)
  {
    match t
    case Relayed(path, outcomes) => Relay(Inject(a, path[0]), path, outcomes, 0)
    case NoPath => a.(unrouted := a.unrouted + 1)
    case SentOver(topo, src, dst, o) => Sent(a, topo, src, dst, o)
  }

  /** Every node balances, and as many frames have entered as were dropped on links or have ended. */
  predicate Conserved(a: Accounts, n: nat) {
    AllBalanced(a, n) && Sum(a.injected) == Total(a.dropped) + Sum(a.ended)
  }

  lemma InjectCounts(a: Accounts, n: nat, v: nat)
    requires AllBalanced(a, n) && v < n
    ensures AllOpenAt(Inject(a, v), n, v) && Sum(Inject(a, v).injected) == Sum(a.injected) + 1
  {
    InjectOpens(a, n, v);
    SumUpdate(a.injected, v, a.injected[v] + 1);
  }

  lemma SentConserves(a: Accounts, topo: Topology, src: nat, dst: nat, o: Outcome)
    requires Conserved(a, |topo|) && src < |topo| && dst < |topo|
    ensures Conserved(Sent(a, topo, src, dst, o), |topo|)
  {
    hide Total, Sum, Bump, AllOpenAt;
    var n := |topo|;
    InjectCounts(a, n, src);
    var entered := Inject(a, src);
    assert AllOpenAt(entered, n, src);
    if Passes(topo, src, dst, o) {
      ForwardMoves(entered, n, src, dst);
      EndCloses(Forward(entered, src, dst), n, dst);
    } else {
      DropCloses(entered, n, src, dst);
    }
  }

  lemma TrafficConserves(a: Accounts, n: nat, t: Traffic)
    requires Conserved(a, n) && TrafficOk(t, n)
    ensures Conserved(AfterFrame(a, n, t), n)
  {
    match t
    case Relayed(path, outcomes) =>
      InjectCounts(a, n, path[0]);
      RelayBalances(Inject(a, path[0]), n, path, outcomes, 0);
    case NoPath => UnroutedKeepsBalance(a, n);
    case SentOver(topo, src, dst, o) => SentConserves(a, topo, src, dst, o);
  }

  predicate RunOk(ts: seq<Traffic>, n: nat) {
    forall k | 0 <= k < |ts| :: TrafficOk(ts[k], n)
  }

  /** The accounts of a broker that has seen nothing. */
  function Blank(n: nat): (a: Accounts)
    ensures Sized(a, n)
  {
    Accounts(seq(n, _ => seq(n, _ => 0)), seq(n, _ => seq(n, _ => 0)), seq(n, _ => 0), seq(n, _ => 0), 0)
  }

  function AfterFrames(n: nat, ts: seq<Traffic>, k: nat): (a: Accounts)
    requires RunOk(ts, n) && k <= |ts|
    ensures Sized(a, n)
  {
    if k == 0 then Blank(n) else AfterFrame(AfterFrames(n, ts, k - 1), n, ts[k - 1])
  }

  /** In every run of frames, relayed, sent or without a route, over links that change at will and
      with any outcomes, at every moment every node balances and no frame is unaccounted for. */
  lemma {:induction false} EveryRunConserves(n: nat, ts: seq<Traffic>, k: nat)
    requires RunOk(ts, n) && k <= |ts|
    ensures Conserved(AfterFrames(n, ts, k), n)
  {
    if k == 0 {
      ZeroAccounts(Blank(n), n);
      ZeroSum(Blank(n).injected);
    } else {
      EveryRunConserves(n, ts, k - 1);
      TrafficConserves(AfterFrames(n, ts, k - 1), n, ts[k - 1]);
    }
  }
}
