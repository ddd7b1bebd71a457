/** The broker's multi-hop relay and its counters (src/net/Broker.cpp), for any number of nodes.

    The random outcome of each link crossing is a parameter; a link that is down always drops.
    Sockets are reduced to whether a send succeeds. Fields marked ghost count what the program does
    not: frames entering at a node, ending at a node, and dropped for lack of a route. */
module Broker {
  import opened Types
  import opened Graphs
  import opened PathTracer

  /** What the channel and the fault rules do to one frame on one link. */
  datatype Outcome = ChannelDrop | FaultDrop | Pass(delay: nat)

  datatype Delayed = Delayed(deliverAt: int, dst: nat)

  // ---------------------------------------------------------------------
  // Matrices of counters.
  // ---------------------------------------------------------------------

  type Matrix = seq<seq<nat>>

  predicate IsSquare(m: Matrix, n: nat) {
    |m| == n && forall i | 0 <= i < n :: |m[i]| == n
  }

  function Bump(m: Matrix, a: nat, b: nat): Matrix
    requires a < |m| && b < |m[a]|
  {
    m[a := m[a][b := m[a][b] + 1]]
  }

  function Sum(row: seq<nat>): nat {
    if row == [] then 0 else row[0] + Sum(row[1..])
  }

  /** What column `v` holds in all. */
  function Column(m: Matrix, v: nat): nat
    requires forall i | 0 <= i < |m| :: v < |m[i]|
  {
    if m == [] then 0 else m[0][v] + Column(m[1..], v)
  }

  function Total(m: Matrix): nat {
    if m == [] then 0 else Sum(m[0]) + Total(m[1..])
  }

  lemma {:induction false} SumUpdate(row: seq<nat>, i: nat, x: nat)
    requires i < |row|
    ensures Sum(row[i := x]) + row[i] == Sum(row) + x
  {
    if i == 0 {
      assert row[0 := x][1..] == row[1..];
    } else {
      SumUpdate(row[1..], i - 1, x);
      assert row[i := x][1..] == row[1..][i - 1 := x];
    }
  }

  lemma {:induction false} ColumnBump(m: Matrix, a: nat, b: nat, v: nat)
    requires a < |m| && b < |m[a]| && forall i | 0 <= i < |m| :: v < |m[i]|
    ensures forall i | 0 <= i < |m| :: v < |Bump(m, a, b)[i]|
    ensures Column(Bump(m, a, b), v) == Column(m, v) + (if v == b then 1 else 0)
  {
    var m' := Bump(m, a, b);
    if a == 0 {
      assert m'[1..] == m[1..];
    } else {
      ColumnBump(m[1..], a - 1, b, v);
      assert m'[1..] == Bump(m[1..], a - 1, b);
    }
  }

  lemma {:induction false} TotalBump(m: Matrix, a: nat, b: nat)
    requires a < |m| && b < |m[a]|
    ensures Total(Bump(m, a, b)) == Total(m) + 1
  {
    var m' := Bump(m, a, b);
    SumUpdate(m[a], b, m[a][b] + 1);
    if a == 0 {
      assert m'[1..] == m[1..];
    } else {
      TotalBump(m[1..], a - 1, b);
      assert m'[1..] == Bump(m[1..], a - 1, b);
    }
  }

  lemma RowBump(m: Matrix, a: nat, b: nat, v: nat)
    requires a < |m| && b < |m[a]| && v < |m|
    ensures Sum(Bump(m, a, b)[v]) == Sum(m[v]) + (if v == a then 1 else 0)
  {
    SumUpdate(m[a], b, m[a][b] + 1);
  }

  // ---------------------------------------------------------------------
  // The accounts.
  // ---------------------------------------------------------------------

  /** Frames forwarded and dropped on each link, frames injected and ended at each node, and frames
      dropped because there was no route. */
  datatype Accounts = Accounts(
    forwarded: Matrix, dropped: Matrix, injected: seq<nat>, ended: seq<nat>, unrouted: nat)

  predicate Sized(a: Accounts, n: nat) {
    IsSquare(a.forwarded, n) && IsSquare(a.dropped, n) && |a.injected| == |a.ended| == n
  }

  /** What comes into node `v`, over links and from outside, goes out over links, is dropped on the
      way out, or ends there. */
  predicate Balanced(a: Accounts, n: nat, v: nat)
    requires Sized(a, n) && v < n
  {
    Column(a.forwarded, v) + a.injected[v] == Sum(a.forwarded[v]) + Sum(a.dropped[v]) + a.ended[v]
  }

  /** One frame is at node `at` and its account still open; every other node balances. */
  predicate OpenAt(a: Accounts, n: nat, at: nat, v: nat)
    requires Sized(a, n) && v < n
  {
    Column(a.forwarded, v) + a.injected[v] ==
      Sum(a.forwarded[v]) + Sum(a.dropped[v]) + a.ended[v] + (if v == at then 1 else 0)
  }

  predicate AllBalanced(a: Accounts, n: nat) {
    Sized(a, n) && forall v: nat | v < n :: Balanced(a, n, v)
  }

  predicate AllOpenAt(a: Accounts, n: nat, at: nat) {
    Sized(a, n) && at < n && forall v: nat | v < n :: OpenAt(a, n, at, v)
  }

  function Inject(a: Accounts, v: nat): Accounts
    requires v < |a.injected|
  {
    a.(injected := a.injected[v := a.injected[v] + 1])
  }

  function Forward(a: Accounts, u: nat, v: nat): Accounts
    requires u < |a.forwarded| && v < |a.forwarded[u]|
  {
    a.(forwarded := Bump(a.forwarded, u, v))
  }

  function DropOn(a: Accounts, u: nat, v: nat): Accounts
    requires u < |a.dropped| && v < |a.dropped[u]|
  {
    a.(dropped := Bump(a.dropped, u, v))
  }

  function EndAt(a: Accounts, v: nat): Accounts
    requires v < |a.ended|
  {
    a.(ended := a.ended[v := a.ended[v] + 1])
  }

  lemma InjectOpens(a: Accounts, n: nat, v: nat)
    requires AllBalanced(a, n) && v < n
    ensures AllOpenAt(Inject(a, v), n, v)
  {
    forall w: nat | w < n
      ensures OpenAt(Inject(a, v), n, v, w)
    {
      assert Balanced(a, n, w);
    }
  }

  lemma ForwardMoves(a: Accounts, n: nat, u: nat, v: nat)
    requires AllOpenAt(a, n, u) && v < n
    ensures AllOpenAt(Forward(a, u, v), n, v)
  {
    var a' := Forward(a, u, v);
    forall w: nat | w < n
      ensures OpenAt(a', n, v, w)
    {
      assert OpenAt(a, n, u, w);
      ColumnBump(a.forwarded, u, v, w);
      RowBump(a.forwarded, u, v, w);
    }
  }

  lemma DropCloses(a: Accounts, n: nat, u: nat, v: nat)
    requires AllOpenAt(a, n, u) && v < n
    ensures AllBalanced(DropOn(a, u, v), n) && Total(DropOn(a, u, v).dropped) == Total(a.dropped) + 1
  {
    var a' := DropOn(a, u, v);
    TotalBump(a.dropped, u, v);
    forall w: nat | w < n
      ensures Balanced(a', n, w)
    {
      assert OpenAt(a, n, u, w);
      RowBump(a.dropped, u, v, w);
    }
  }

  lemma EndCloses(a: Accounts, n: nat, v: nat)
    requires AllOpenAt(a, n, v)
    ensures AllBalanced(EndAt(a, v), n) && Sum(EndAt(a, v).ended) == Sum(a.ended) + 1
  {
    var a' := EndAt(a, v);
    SumUpdate(a.ended, v, a.ended[v] + 1);
    forall w: nat | w < n
      ensures Balanced(a', n, w)
    {
      assert OpenAt(a, n, v, w);
    }
  }

  lemma UnroutedKeepsBalance(a: Accounts, n: nat)
    requires AllBalanced(a, n)
    ensures AllBalanced(a.(unrouted := a.unrouted + 1), n)
  {
    var a' := a.(unrouted := a.unrouted + 1);
    forall w: nat | w < n
      ensures Balanced(a', n, w)
    {
      assert Balanced(a, n, w);
    }
  }

  // ---------------------------------------------------------------------
  // What a relay does to the accounts.
  // ---------------------------------------------------------------------

  /** The frame stands at `path[i]` and goes on until a crossing fails. */
  function Relay(a: Accounts, path: seq<nat>, outcomes: seq<Outcome>, i: nat): (a': Accounts)
    requires 0 < |path| && i < |path| && |outcomes| >= |path| - 1
    requires Sized(a, |a.forwarded|) && forall k | 0 <= k < |path| :: path[k] < |a.forwarded|
    ensures Sized(a', |a.forwarded|)
    decreases |path| - i
  {
    if i == |path| - 1 then EndAt(a, path[i])
    else if outcomes[i].Pass? then Relay(Forward(a, path[i], path[i + 1]), path, outcomes, i + 1)
    else DropOn(a, path[i], path[i + 1])
  }

  /** Relaying an injected frame leaves every node balanced, and adds to the drops charged to links
      or to the frames ended exactly one. */
  lemma {:induction false} RelayBalances(a: Accounts, n: nat, path: seq<nat>, outcomes: seq<Outcome>, i: nat)
    requires i < |path| && |outcomes| >= |path| - 1 && (forall k | 0 <= k < |path| :: path[k] < n)
    requires AllOpenAt(a, n, path[i])
    ensures var a' := Relay(a, path, outcomes, i);
      && AllBalanced(a', n) && a'.injected == a.injected && a'.unrouted == a.unrouted
      && Total(a'.dropped) + Sum(a'.ended) == Total(a.dropped) + Sum(a.ended) + 1
    decreases |path| - i
  {
    if i == |path| - 1 {
      EndCloses(a, n, path[i]);
    } else if outcomes[i].Pass? {
      ForwardMoves(a, n, path[i], path[i + 1]);
      RelayBalances(Forward(a, path[i], path[i + 1]), n, path, outcomes, i + 1);
    } else {
      DropCloses(a, n, path[i], path[i + 1]);
    }
  }

  /** Which crossing fails, or the number of crossings. */
  function Survived(path: seq<nat>, outcomes: seq<Outcome>, i: nat): nat
    requires 0 < |path| && i < |path| && |outcomes| >= |path| - 1
    decreases |path| - i
  {
    if i == |path| - 1 || !outcomes[i].Pass? then i else Survived(path, outcomes, i + 1)
  }

  /** The delays of the first `k` crossings together. */
  function TotalDelay(outcomes: seq<Outcome>, k: nat): nat
    requires k <= |outcomes|
  {
    if k == 0 then 0 else TotalDelay(outcomes, k - 1) + (if outcomes[k - 1].Pass? then outcomes[k - 1].delay else 0)
  }

  // ---------------------------------------------------------------------
  // The totals and the delay queue.
  // ---------------------------------------------------------------------

  datatype Tally = Tally(dropped: nat, forwarded: nat, queue: seq<Delayed>)

  /** The link is up, and neither the channel nor a fault rule drops the frame. */
  predicate Passes(topo: Topology, a: nat, b: nat, o: Outcome) {
    GetLinkParams(topo, a, b).linkUp && o.Pass?
  }

  predicate Listens(connected: seq<bool>, dst: nat) {
    dst < |connected| && connected[dst]
  }

  /** A frame that has arrived is queued if it was delayed, and otherwise sent to its node if that is
      connected. */
  function Arrived(t: Tally, connected: seq<bool>, dst: nat, now: int, delay: nat, sendOk: bool): Tally {
    if delay > 0 then t.(queue := t.queue + [Delayed(now + delay, dst)])
    else if Listens(connected, dst) && sendOk then t.(forwarded := t.forwarded + 1)
    else t
  }

  /** One copy sent over the direct link. */
  function SentTally(t: Tally, topo: Topology, connected: seq<bool>, src: nat, dst: nat,
                     o: Outcome, now: int, sendOk: bool): Tally {
    if Passes(topo, src, dst, o) then Arrived(t, connected, dst, now, o.delay, sendOk) else t.(dropped := t.dropped + 1)
  }

  /** One copy for each of the first `k` targets. */
  function SentTallyUpTo(t: Tally, topo: Topology, connected: seq<bool>, src: nat, targets: seq<nat>,
                         outcomes: seq<Outcome>, now: int, sendOk: nat -> bool, k: nat): Tally
    requires k <= |targets| <= |outcomes|
  {
    if k == 0 then t
    else
      var before := SentTallyUpTo(t, topo, connected, src, targets, outcomes, now, sendOk, k - 1);
      var dst := targets[k - 1];
      SentTally(before, topo, connected, src, dst, outcomes[k - 1], now, sendOk(dst))
  }

  /** A frame relayed along a path arrives with all its delays together, if it survives every crossing. */
  function RelayTally(t: Tally, connected: seq<bool>, path: seq<nat>,
                      outcomes: seq<Outcome>, now: int, sendOk: bool): Tally
    requires 0 < |path| && |outcomes| >= |path| - 1
  {
    var last := |path| - 1;
    if Survived(path, outcomes, 0) == last then
      Arrived(t, connected, path[last], now, TotalDelay(outcomes, last), sendOk)
    else t.(dropped := t.dropped + 1)
  }

  lemma {:induction false} SumAppend(row: seq<nat>, x: nat)
    ensures Sum(row + [x]) == Sum(row) + x
  {
    if row == [] {
      assert [x][1..] == [];
    } else {
      SumAppend(row[1..], x);
      assert (row + [x])[1..] == row[1..] + [x];
    }
  }

  /** The first crossings pass, with these delays. */
  predicate AllPass(outcomes: seq<Outcome>, delays: seq<nat>)
    requires |delays| <= |outcomes|
  {
    forall i | 0 <= i < |delays| :: outcomes[i] == Pass(delays[i])
  }

  /** The delays of crossings that all pass, added up. */
  lemma {:induction false} DelaysAdd(outcomes: seq<Outcome>, delays: seq<nat>, k: nat)
    requires k <= |delays| <= |outcomes| && AllPass(outcomes, delays)
    ensures TotalDelay(outcomes, k) == Sum(delays[..k])
  {
    if k > 0 {
      DelaysAdd(outcomes, delays, k - 1);
      assert delays[..k] == delays[..k - 1] + [delays[k - 1]];
      SumAppend(delays[..k - 1], delays[k - 1]);
    }
  }

  /** The crossing that fails is the first that fails. */
  lemma {:induction false} SurvivedIsFirst(path: seq<nat>, outcomes: seq<Outcome>, i: nat)
    requires 0 < |path| && i < |path| && |outcomes| >= |path| - 1
    ensures var s := Survived(path, outcomes, i);
      && i <= s < |path| && (forall k | i <= k < s :: outcomes[k].Pass?)
      && (s < |path| - 1 ==> !outcomes[s].Pass?)
    decreases |path| - i
  {
    if i < |path| - 1 && outcomes[i].Pass? { SurvivedIsFirst(path, outcomes, i + 1); }
  }

  /** What a relay amounts to: lost if any crossing of the path fails; otherwise waiting for the sum of
      the delays of all its crossings, or handed over at once if there is none. */
  lemma RelayOutcome(t: Tally, connected: seq<bool>, path: seq<nat>, outcomes: seq<Outcome>, now: int, sendOk: bool)
    requires 0 < |path| && |outcomes| >= |path| - 1
    ensures var t', dst := RelayTally(t, connected, path, outcomes, now, sendOk), path[|path| - 1];
      && ((exists i :: 0 <= i < |path| - 1 && !outcomes[i].Pass?) ==> t' == t.(dropped := t.dropped + 1))
      && forall delays: seq<nat> | |delays| == |path| - 1 && AllPass(outcomes, delays) ::
           t' == if Sum(delays) > 0 then t.(queue := t.queue + [Delayed(now + Sum(delays), dst)])
                 else if dst < |connected| && connected[dst] && sendOk then t.(forwarded := t.forwarded + 1) else t
  {
    SurvivedIsFirst(path, outcomes, 0);
    forall delays: seq<nat> | |delays| == |path| - 1 && AllPass(outcomes, delays)
      ensures TotalDelay(outcomes, |path| - 1) == Sum(delays)
    {
      DelaysAdd(outcomes, delays, |path| - 1);
      assert delays[..|path| - 1] == delays;
    }
  }

  /** A relay charges exactly the links of its path up to the failing one: each crossed link one
      forward, the failing link one drop. */
  lemma {:induction false} RelayCharges(a: Accounts, n: nat, path: seq<nat>, outcomes: seq<Outcome>,
                                     i: nat, u: nat, v: nat)
    requires Sized(a, n) && 0 < |path| && i < |path| && |outcomes| >= |path| - 1 && u < n && v < n
    requires (forall k | 0 <= k < |path| :: path[k] < n) && Simple(path)
    ensures var a', last := Relay(a, path, outcomes, i), Survived(path, outcomes, i);
      && Sized(a', n) && i <= last < |path| && a'.injected == a.injected && a'.unrouted == a.unrouted
      && a'.forwarded[u][v] == a.forwarded[u][v] + (if Crosses(path, i, last, u, v) then 1 else 0)
      && a'.dropped[u][v] == a.dropped[u][v] +
                  (if last < |path| - 1 && u == path[last] && v == path[last + 1] then 1 else 0)
      && a'.ended[u] == a.ended[u] + (if last == |path| - 1 && u == path[last] then 1 else 0)
    decreases |path| - i
  {
    if i < |path| - 1 && outcomes[i].Pass? {
      RelayCharges(Forward(a, path[i], path[i + 1]), n, path, outcomes, i + 1, u, v);
      var last := Survived(path, outcomes, i);
      CrossesStep(path, i, last, u, v);
    }
  }

  /** One of the links from position `i` to position `j` of the path goes from `u` to `v`. */
  predicate Crosses(path: seq<nat>, i: nat, j: nat, u: nat, v: nat)
    requires j < |path|
  {
    exists k :: i <= k < j && path[k] == u && path[k + 1] == v
  }

  lemma CrossesStep(path: seq<nat>, i: nat, j: nat, u: nat, v: nat)
    requires i < j < |path| && Simple(path)
    ensures Crosses(path, i, j, u, v) <==> (path[i] == u && path[i + 1] == v) || Crosses(path, i + 1, j, u, v)
    ensures path[i] == u ==> !Crosses(path, i + 1, j, u, v)
  {
  }

  // ---------------------------------------------------------------------
  // The broker as the program keeps it.
  // ---------------------------------------------------------------------

  class Broker {
    const n: nat
    const tracerEnabled: bool
    var linkMatrix: Topology
    var connected: seq<bool>
    var linkForwarded: Matrix
    var linkDropped: Matrix
    var framesDropped: nat
    var framesForwarded: nat
    var delayQueue: seq<Delayed>
    ghost var injected: seq<nat>
    ghost var ended: seq<nat>
    ghost var unrouted: nat
    ghost var undelivered: nat

    ghost function Books(): Accounts
      reads this
    {
      Accounts(linkForwarded, linkDropped, injected, ended, unrouted)
    }

    ghost predicate Shaped()
      reads this
    {
      |linkMatrix| == |connected| == n && Sized(Books(), n)
    }

    /** With the tracer on: every node balances; every drop is charged to a link or to the lack of a
        route; and every frame that reached its end was handed over, failed to be, or is waiting. */
    ghost predicate Valid()
      reads this
    {
      && Shaped()
      && (tracerEnabled ==> AllBalanced(Books(), n) && framesDropped == Total(linkDropped) + unrouted)
      && (tracerEnabled ==> Sum(ended) == framesForwarded + undelivered + |delayQueue|)
    }

    ghost function Totals(): Tally
      reads this
    {
      Tally(framesDropped, framesForwarded, delayQueue)
    }

    /** The frames dropped, handed over, not handed over for want of a listener, or waiting. */
    ghost function Settled(): nat
      reads this
    {
      framesDropped + framesForwarded + undelivered + |delayQueue|
    }

    constructor (n: nat, tracer: bool)
      ensures Valid() && this.n == n && tracerEnabled == tracer
      ensures framesDropped == framesForwarded == 0 && delayQueue == []
      ensures forall u, v | 0 <= u < n && 0 <= v < n :: linkForwarded[u][v] == linkDropped[u][v] == 0
      ensures forall u, v | 0 <= u < n && 0 <= v < n :: linkMatrix[u][v] == DEFAULT_LINK && !connected[v]
    {
      this.n, tracerEnabled := n, tracer;
      linkMatrix := seq(n, _ => seq(n, _ => DEFAULT_LINK));
      connected := seq(n, _ => false);
      linkForwarded, linkDropped := seq(n, _ => seq(n, _ => 0)), seq(n, _ => seq(n, _ => 0));
      framesDropped, framesForwarded, delayQueue := 0, 0, [];
      injected, ended, unrouted, undelivered := seq(n, _ => 0), seq(n, _ => 0), 0, 0;
      new;
      ZeroAccounts(Books(), n);
    }

    method SetLinkParams(from: nat, to: nat, params: LinkParams)
      requires Valid()
      modifies this`linkMatrix
      ensures Valid()
      ensures forall u: nat, v: nat | u < n && v < n ::
                GetLinkParams(linkMatrix, u, v) == if u == from && v == to then params
                                          else GetLinkParams(old(linkMatrix), u, v)
    {
      if from < n && to < n {
        linkMatrix := linkMatrix[from := linkMatrix[from][to := params]];
      }
    }

    method Connect(v: nat)
      requires Valid() && v < n
      modifies this`connected
      ensures Valid() && connected == old(connected)[v := true]
    {
      connected := connected[v := true];
    }

    /** A node whose socket fails or closes is no longer sent to. */
    method Disconnect(v: nat)
      requires Valid() && v < n
      modifies this`connected
      ensures Valid() && connected == old(connected)[v := false]
    {
      connected := connected[v := false];
    }

    /** The least walk over up-links, or nothing. */
    method Route(src: nat, dst: nat) returns (path: seq<nat>)
      requires Valid()
      ensures path == [] ==> forall p :: !Walk(UpLinks(linkMatrix), p, src, dst)
      ensures path != [] ==> LeastWalk(UpLinks(linkMatrix), path, src, dst)
    {
      var trace := TracePath(linkMatrix, src, dst);
      path := [];
      if !trace.reachable { return; }
      ghost var p :| LeastWalk(UpLinks(linkMatrix), p, src, dst) && trace.hops == HopsAlong(linkMatrix, p);
      path := NodesOf(linkMatrix, src, trace.hops, p);
    }

    /** Hands a frame over, if the node is there and the send succeeds. */
    method DeliverToNode(dst: nat, sendOk: bool)
      requires Shaped()
      modifies this`framesForwarded, this`undelivered
      ensures framesForwarded + undelivered == old(framesForwarded) + old(undelivered) + 1
      ensures framesForwarded == old(framesForwarded) + (if dst < n && connected[dst] && sendOk then 1 else 0)
    {
      if dst >= n || !connected[dst] || !sendOk {
        undelivered := undelivered + 1;
        return;
      }
      framesForwarded := framesForwarded + 1;
    }

    method HandOver(dst: nat, now: int, delay: nat, sendOk: bool)
      requires Shaped()
      modifies this`framesForwarded, this`undelivered, this`delayQueue
      ensures Settled() == old(Settled()) + 1
      ensures Totals() == Arrived(old(Totals()), connected, dst, now, delay, sendOk)
    {
      if delay > 0 {
        delayQueue := delayQueue + [Delayed(now + delay, dst)];
      } else {
        DeliverToNode(dst, sendOk);
      }
    }

    /** Relays a frame along the least walk, applying the link model at each hop. */
    method RelayMultiHop(src: nat, finalDst: nat, outcomes: seq<Outcome>, now: int, sendOk: bool)
      requires Valid() && tracerEnabled && src < n && finalDst < n && src != finalDst && |outcomes| >= n
      modifies this`linkForwarded, this`linkDropped, this`framesDropped, this`framesForwarded, this`delayQueue,
               this`injected, this`ended, this`unrouted, this`undelivered
      ensures Valid() && Settled() == old(Settled()) + 1
      ensures RelayedTo(old(Books()), Books(), old(Totals()), Totals(), UpLinks(linkMatrix), connected, src, finalDst,
                        outcomes, now, sendOk)
    {
      var path := Route(src, finalDst);
      if |path| < 2 {
        UnroutedKeepsBalance(Books(), n);
        framesDropped := framesDropped + 1;
        unrouted := unrouted + 1;
        NoRoute(UpLinks(linkMatrix), path, src, finalDst);
        return;
      }
      WalkFits(UpLinks(linkMatrix), path);
      RelayAlong(path, outcomes, now, sendOk);
    }

    /** One crossing: the link carries the frame on or drops it. */
    method CrossLink(a: nat, b: nat, o: Outcome) returns (crossed: bool)
      requires Shaped() && AllOpenAt(Books(), n, a) && b < n && framesDropped == Total(linkDropped) + unrouted
      modifies this`linkForwarded, this`linkDropped, this`framesDropped
      ensures framesDropped == Total(linkDropped) + unrouted && crossed == Passes(linkMatrix, a, b, o)
      ensures crossed <==> linkMatrix[a][b].linkUp && o.Pass?
      ensures framesDropped == old(framesDropped) + (if crossed then 0 else 1)
      ensures crossed ==> Books() == Forward(old(Books()), a, b) && AllOpenAt(Books(), n, b)
      ensures !crossed ==> Books() == DropOn(old(Books()), a, b) && AllBalanced(Books(), n)
    {
      if !GetLinkParams(linkMatrix, a, b).linkUp || !o.Pass? {
        DropCloses(Books(), n, a, b);
        framesDropped := framesDropped + 1;
        linkDropped := Bump(linkDropped, a, b);
        return false;
      }
      ForwardMoves(Books(), n, a, b);
      linkForwarded := Bump(linkForwarded, a, b);
      return true;
    }

    /** The frame has arrived. */
    method EndFrame(dst: nat, now: int, delay: nat, sendOk: bool)
      requires tracerEnabled && Shaped() && AllOpenAt(Books(), n, dst) && framesDropped == Total(linkDropped) + unrouted
      requires Sum(ended) == framesForwarded + undelivered + |delayQueue|
      modifies this`ended, this`framesForwarded, this`undelivered, this`delayQueue
      ensures Valid() && Books() == EndAt(old(Books()), dst) && Settled() == old(Settled()) + 1
      ensures Totals() == Arrived(old(Totals()), connected, dst, now, delay, sendOk)
    {
      EndCloses(Books(), n, dst);
      ended := ended[dst := ended[dst] + 1];
      HandOver(dst, now, delay, sendOk);
    }

    /** The frame dies at the first crossing that fails, or ends at the end of the path. */
    method RelayAlong(path: seq<nat>, outcomes: seq<Outcome>, now: int, sendOk: bool)
      requires Valid() && tracerEnabled && IsWalk(UpLinks(linkMatrix), path) && |outcomes| >= |path| - 1
      modifies this`linkForwarded, this`linkDropped, this`framesDropped, this`framesForwarded, this`delayQueue,
               this`injected, this`ended, this`undelivered
      ensures Valid() && Relayable(old(Books()), path, outcomes)
      ensures Books() == Relay(Inject(old(Books()), path[0]), path, outcomes, 0)
      ensures Totals() == RelayTally(old(Totals()), connected, path, outcomes, now, sendOk)
              && Settled() == old(Settled()) + 1
    {
      hide Balanced, OpenAt, Total, Sum, Column;
      var src, finalDst := path[0], path[|path| - 1];
      InjectOpens(Books(), n, src);
      injected := injected[src := injected[src] + 1];
      ghost var start := Books();
      var accumulated: nat := 0;
      for i := 0 to |path| - 1
        invariant Shaped() && AllOpenAt(Books(), n, path[i]) && framesDropped == Total(linkDropped) + unrouted
        invariant Relay(start, path, outcomes, 0) == Relay(Books(), path, outcomes, i)
        invariant ended == start.ended && Sum(ended) == framesForwarded + undelivered + |delayQueue|
        invariant Totals() == old(Totals()) && undelivered == old(undelivered)
        invariant Survived(path, outcomes, 0) == Survived(path, outcomes, i) && accumulated == TotalDelay(outcomes, i)
      {
        assert Edge(UpLinks(linkMatrix), path[i], path[i + 1]);
        var crossed := CrossLink(path[i], path[i + 1], outcomes[i]);
        if !crossed { return; }
        accumulated := accumulated + outcomes[i].delay;
      }
      EndFrame(finalDst, now, accumulated, sendOk);
    }

    /** Sends one copy of a frame over the direct link, whether there is one or not. */
    method SendDirect(src: nat, dst: nat, o: Outcome, now: int, sendOk: bool)
      requires Valid() && src < n && dst < n
      modifies this`linkForwarded, this`linkDropped, this`framesDropped, this`framesForwarded, this`delayQueue,
               this`injected, this`ended, this`undelivered
      ensures Valid() && Settled() == old(Settled()) + 1
      ensures Books() == if tracerEnabled then Sent(old(Books()), linkMatrix, src, dst, o) else old(Books())
      ensures Totals() == SentTally(old(Totals()), linkMatrix, connected, src, dst, o, now, sendOk)
      ensures Totals() == (var t := old(Totals());
        if !linkMatrix[src][dst].linkUp || !o.Pass? then t.(dropped := t.dropped + 1)
        else if o.delay > 0 then t.(queue := t.queue + [Delayed(now + o.delay, dst)])
        else if connected[dst] && sendOk then t.(forwarded := t.forwarded + 1)
        else t)
      ensures tracerEnabled ==> forall u, v | 0 <= u < n && 0 <= v < n ::
                var passed := linkMatrix[src][dst].linkUp && o.Pass?;
                && linkForwarded[u][v] == old(linkForwarded)[u][v] + (if u == src && v == dst && passed then 1 else 0)
                && linkDropped[u][v] == old(linkDropped)[u][v] + (if u == src && v == dst && !passed then 1 else 0)
    {
      hide Balanced, OpenAt, Total, Sum, Column;
      if !tracerEnabled {
        if GetLinkParams(linkMatrix, src, dst).linkUp && o.Pass? {
          HandOver(dst, now, o.delay, sendOk);
        } else {
          framesDropped := framesDropped + 1;
        }
        return;
      }
      InjectOpens(Books(), n, src);
      injected := injected[src := injected[src] + 1];
      var crossed := CrossLink(src, dst, o);
      if crossed {
        EndFrame(dst, now, o.delay, sendOk);
      }
    }

    method Destinations(src: nat, isBroadcast: bool) returns (destinations: seq<nat>)
      requires Shaped()
      ensures destinations == Targets(connected, src, isBroadcast)
      ensures Rising(destinations)
      ensures isBroadcast ==> forall v: nat :: v in destinations <==> v < n && v != src && connected[v]
      ensures !isBroadcast ==> |destinations| <= 1
      ensures destinations == [] <==> forall v: nat | v < n && v != src :: !connected[v]
      ensures destinations != [] ==> var v := destinations[0];
                v < n && v != src && connected[v] && forall u: nat | u < v && u != src :: !connected[u]
    {
      hide Sized;
      destinations := [];
      for i := 0 to n
        invariant destinations == OthersUpTo(connected, src, i)
        invariant !isBroadcast ==> destinations == []
      {
        if i != src && connected[i] {
          destinations := destinations + [i];
          if !isBroadcast {
            FirstOther(connected, src, i + 1, n);
            break;
          }
        }
      }
      TargetsAre(connected, src, isBroadcast);
    }

    /** With the tracer a frame for one other connected node is relayed hop by hop; any other goes straight
        to its targets. */
    method ForwardFrame(src: nat, dstAddr: u16, outcomes: seq<Outcome>, now: int, sendOk: nat -> bool)
      requires Valid() && src < n && |outcomes| >= n
      modifies this`linkForwarded, this`linkDropped, this`framesDropped, this`framesForwarded, this`delayQueue,
               this`injected, this`ended, this`unrouted, this`undelivered
      ensures Valid()
      ensures tracerEnabled && dstAddr != INVALID_RLOC16 && dstAddr != BROADCAST_RLOC16
              && (var d: nat := GetRouterId(dstAddr); d < n && d != src && connected[d]) ==>
                && Settled() == old(Settled()) + 1
                && RelayedTo(old(Books()), Books(), old(Totals()), Totals(), UpLinks(linkMatrix), connected, src,
                             GetRouterId(dstAddr), outcomes, now, sendOk(GetRouterId(dstAddr)))
      ensures !(tracerEnabled && dstAddr != INVALID_RLOC16 && dstAddr != BROADCAST_RLOC16
                && (var d: nat := GetRouterId(dstAddr); d < n && d != src && connected[d])) ==>
                var targets := Targets(connected, src, dstAddr == INVALID_RLOC16 || dstAddr == BROADCAST_RLOC16);
                && Settled() == old(Settled()) + |targets|
                && Totals() == SentTallyUpTo(old(Totals()), linkMatrix, connected, src, targets, outcomes, now,
                                               sendOk, |targets|)
                && Books() == (if tracerEnabled then SentUpTo(old(Books()), linkMatrix, src, targets,
                                                               outcomes, |targets|)
                               else old(Books()))
      ensures (dstAddr == INVALID_RLOC16 || dstAddr == BROADCAST_RLOC16) && AllPassAtOnce(outcomes) ==>
                && framesForwarded == old(framesForwarded)
                       + |set v: nat | v < n && v != src && connected[v] && linkMatrix[src][v].linkUp && sendOk(v)|
                && framesDropped == old(framesDropped)
                       + |set v: nat | v < n && v != src && connected[v] && !linkMatrix[src][v].linkUp|
                && delayQueue == old(delayQueue)
    {
      hide AllBalanced, Sent, SentTally, RelayedTo, Total, Sum, Targets, Sized;
      var isBroadcast := dstAddr == INVALID_RLOC16 || dstAddr == BROADCAST_RLOC16;
      if tracerEnabled && !isBroadcast {
        var finalDst: nat := GetRouterId(dstAddr);
        if finalDst < n && finalDst != src && connected[finalDst] {
          RelayMultiHop(src, finalDst, outcomes, now, sendOk(finalDst));
          return;
        }
      }
      var destinations := Destinations(src, isBroadcast);
      for k := 0 to |destinations|
        invariant Valid()
        invariant Settled() == old(Settled()) + k
        invariant Books() == if tracerEnabled then SentUpTo(old(Books()), linkMatrix, src, destinations, outcomes, k)
                             else old(Books())
        invariant Totals() == SentTallyUpTo(old(Totals()), linkMatrix, connected, src, destinations, outcomes, now,
                                               sendOk, k)
      {
        SendDirect(src, destinations[k], outcomes[k], now, sendOk(destinations[k]));
      }
      if isBroadcast && AllPassAtOnce(outcomes) {
        BroadcastCounts(old(Totals()), linkMatrix, connected, src, destinations, outcomes, now, sendOk);
      }
    }

    /** Hands over, earliest first, exactly the frames whose time has come; the `i`-th of them meets
        send result `sendOk[i]`. */
    method DeliverDelayed(now: int, sendOk: seq<bool>) returns (delivered: seq<Delayed>)
      requires Valid() && |sendOk| >= |delayQueue|
      modifies this`framesForwarded, this`undelivered, this`delayQueue
      ensures Valid() && Settled() == old(Settled())
      ensures multiset(delivered) + multiset(delayQueue) == multiset(old(delayQueue)) && InTime(delivered)
      ensures (forall d | d in delivered :: d.deliverAt <= now) && (forall d | d in delayQueue :: d.deliverAt > now)
      ensures |delivered| <= |sendOk|
      ensures framesForwarded == old(framesForwarded) + |TakenBelow(connected, delivered, sendOk, |delivered|)|
    {
      hide AllBalanced, Sized, Total, Sum, Draining;
      delivered := [];
      DrainingStarts(delayQueue, now);
      while delayQueue != []
        invariant Valid() && Settled() == old(Settled()) && |delivered| + |delayQueue| == |old(delayQueue)|
        invariant Draining(old(delayQueue), delivered, delayQueue, now)
        invariant framesForwarded == old(framesForwarded) + HandedUpTo(connected, delivered, sendOk, |delivered|)
        decreases |delayQueue|
      {
        var top := Earliest();
        if delayQueue[top].deliverAt > now { break; }
        var d := delayQueue[top];
        DrainingGoesOn(old(delayQueue), delivered, delayQueue, top, now);
        HandedOneMore(connected, delivered, d, sendOk);
        delayQueue := delayQueue[..top] + delayQueue[top + 1..];
        DeliverToNode(d.dst, sendOk[|delivered|]);
        delivered := delivered + [d];
      }
      DrainingEnds(old(delayQueue), delivered, delayQueue, now);
      HandedIsCount(connected, delivered, sendOk, |delivered|);
    }

    method Earliest() returns (top: nat)
      requires delayQueue != []
      ensures top < |delayQueue| &&
              forall i | 0 <= i < |delayQueue| :: delayQueue[top].deliverAt <= delayQueue[i].deliverAt
    {
      top := 0;
      for i := 0 to |delayQueue|
        invariant top < |delayQueue| && forall j | 0 <= j < i :: delayQueue[top].deliverAt <= delayQueue[j].deliverAt
      {
        if delayQueue[i].deliverAt < delayQueue[top].deliverAt { top := i; }
      }
    }
  }

  predicate InTime(out: seq<Delayed>) {
    forall i, j | 0 <= i < j < |out| :: out[i].deliverAt <= out[j].deliverAt
  }

  /** How many of the first `k` frames handed over are counted as forwarded. */
  function HandedUpTo(connected: seq<bool>, out: seq<Delayed>, sendOk: seq<bool>, k: nat): nat
    requires k <= |out| <= |sendOk|
  {
    if k == 0 then 0
    else
      var counted := if Listens(connected, out[k - 1].dst) && sendOk[k - 1] then 1 else 0;
      HandedUpTo(connected, out, sendOk, k - 1) + counted
  }

  /** Which of the first `k` frames go to a connected node and are sent. */
  ghost function TakenBelow(connected: seq<bool>, out: seq<Delayed>, sendOk: seq<bool>, k: nat): set<nat>
    requires k <= |out| <= |sendOk|
  {
    set i: nat | i < k && out[i].dst < |connected| && connected[out[i].dst] && sendOk[i]
  }

  lemma {:induction false} HandedIsCount(connected: seq<bool>, out: seq<Delayed>, sendOk: seq<bool>, k: nat)
    requires k <= |out| <= |sendOk|
    ensures HandedUpTo(connected, out, sendOk, k) == |TakenBelow(connected, out, sendOk, k)|
  {
    if k > 0 {
      HandedIsCount(connected, out, sendOk, k - 1);
      var before, now := TakenBelow(connected, out, sendOk, k - 1), TakenBelow(connected, out, sendOk, k);
      assert now == if k - 1 in now then before + {k - 1} else before;
    }
  }

  lemma HandedOneMore(connected: seq<bool>, out: seq<Delayed>, d: Delayed, sendOk: seq<bool>)
    requires |out| < |sendOk|
    ensures HandedUpTo(connected, out + [d], sendOk, |out| + 1) ==
      HandedUpTo(connected, out, sendOk, |out|) + if Listens(connected, d.dst) && sendOk[|out|] then 1 else 0
  {
    HandedPrefix(connected, out, d, sendOk, |out|);
  }

  lemma {:induction false} HandedPrefix(connected: seq<bool>, out: seq<Delayed>, d: Delayed, sendOk: seq<bool>, k: nat)
    requires k <= |out| < |sendOk|
    ensures HandedUpTo(connected, out + [d], sendOk, k) == HandedUpTo(connected, out, sendOk, k)
  {
    if k > 0 { HandedPrefix(connected, out, d, sendOk, k - 1); }
  }

  /** `out` has left the queue `q0` in time, `q` is what is left. */
  ghost predicate Draining(q0: seq<Delayed>, out: seq<Delayed>, q: seq<Delayed>, now: int) {
    && multiset(out) + multiset(q) == multiset(q0) && InTime(out)
    && (forall i | 0 <= i < |out| :: out[i].deliverAt <= now)
    && forall i, j | 0 <= i < |out| && 0 <= j < |q| :: out[i].deliverAt <= q[j].deliverAt
  }

  lemma DrainingStarts(q: seq<Delayed>, now: int)
    ensures Draining(q, [], q, now)
  {
  }

  lemma TakeOut(q: seq<Delayed>, top: nat)
    requires top < |q|
    ensures multiset(q) == multiset(q[..top] + q[top + 1..]) + multiset{q[top]}
  {
    assert q == q[..top] + [q[top]] + q[top + 1..];
  }

  lemma DrainingGoesOn(q0: seq<Delayed>, out: seq<Delayed>, q: seq<Delayed>, top: nat, now: int)
    requires Draining(q0, out, q, now) && top < |q| && q[top].deliverAt <= now
    requires forall i | 0 <= i < |q| :: q[top].deliverAt <= q[i].deliverAt
    ensures Draining(q0, out + [q[top]], q[..top] + q[top + 1..], now)
  {
    var rest := q[..top] + q[top + 1..];
    TakeOut(q, top);
    forall j | 0 <= j < |rest|
      ensures rest[j] == q[if j < top then j else j + 1]
    {
    }
  }

  lemma DrainingEnds(q0: seq<Delayed>, out: seq<Delayed>, q: seq<Delayed>, now: int)
    requires Draining(q0, out, q, now)
    ensures multiset(out) + multiset(q) == multiset(q0) && InTime(out) && forall d | d in out :: d.deliverAt <= now
  {
  }

  method NodesOf(topo: Topology, src: nat, hops: seq<TraceHop>, ghost p: seq<nat>) returns (path: seq<nat>)
    requires |p| > 0 && p[0] == src && hops == HopsAlong(topo, p)
    ensures path == p
  {
    hide HopsAlong, GetLinkParams;
    path := [src];
    for i := 0 to |hops|
      invariant path == p[..i + 1]
    {
      assert hops[i].to == p[i + 1] && p[..i + 2] == p[..i + 1] + [p[i + 1]];
      path := path + [hops[i].to];
    }
  }

  predicate Relayable(a: Accounts, p: seq<nat>, outcomes: seq<Outcome>) {
    && 0 < |p| && |outcomes| >= |p| - 1 && p[0] < |a.injected| == |a.forwarded| && Sized(a, |a.forwarded|)
    && forall k | 0 <= k < |p| :: p[k] < |a.forwarded|
  }

  /** The frame went along the least walk, or counts as dropped for lack of a route. */
  ghost predicate RelayedTo(a: Accounts, a': Accounts, t: Tally, t': Tally, g: Graph, connected: seq<bool>,
                            src: nat, dst: nat, outcomes: seq<Outcome>, now: int, sendOk: bool)
  {
    if exists p :: LeastWalk(g, p, src, dst)
    then exists p :: LeastWalk(g, p, src, dst) && Relayable(a, p, outcomes)
           && a' == Relay(Inject(a, src), p, outcomes, 0)
           && t' == RelayTally(t, connected, p, outcomes, now, sendOk)
    else a' == a.(unrouted := a.unrouted + 1) && t' == t.(dropped := t.dropped + 1)
  }

  /** What that means: with a least walk, the outcome of the relay along it; with no walk at all, one more
      frame dropped and no link charged. */
  lemma RelayedToMeans(a: Accounts, a': Accounts, t: Tally, t': Tally, g: Graph, connected: seq<bool>,
                       src: nat, dst: nat, outcomes: seq<Outcome>, now: int, sendOk: bool, p: seq<nat>)
    requires RelayedTo(a, a', t, t', g, connected, src, dst, outcomes, now, sendOk)
    ensures (forall q :: !Walk(g, q, src, dst)) ==>
              t' == t.(dropped := t.dropped + 1) && a'.forwarded == a.forwarded && a'.dropped == a.dropped
    ensures LeastWalk(g, p, src, dst) ==>
              && |outcomes| >= |p| - 1 && t' == RelayTally(t, connected, p, outcomes, now, sendOk)
              && Relayable(a, p, outcomes) && a' == Relay(Inject(a, src), p, outcomes, 0)
  {
    if LeastWalk(g, p, src, dst) {
      forall q | LeastWalk(g, q, src, dst)
        ensures q == p
      {
        BeforeIsStrict(p, q);
      }
    }
  }

  /** One copy of a frame sent over the direct link. */
  function Sent(a: Accounts, topo: Topology, src: nat, dst: nat, o: Outcome): (a': Accounts)
    requires Sized(a, |topo|) && src < |topo| && dst < |topo|
    ensures Sized(a', |topo|)
  {
    var entered := Inject(a, src);
    if Passes(topo, src, dst, o) then EndAt(Forward(entered, src, dst), dst)
    else DropOn(entered, src, dst)
  }

  function SentUpTo(a: Accounts, topo: Topology, src: nat, targets: seq<nat>, outcomes: seq<Outcome>,
                    k: nat): (a': Accounts)
    requires Sized(a, |topo|) && src < |topo| && k <= |targets| <= |outcomes|
    requires forall i | 0 <= i < |targets| :: targets[i] < |topo|
    ensures Sized(a', |topo|)
  {
    if k == 0 then a else
    Sent(SentUpTo(a, topo, src, targets, outcomes, k - 1), topo, src, targets[k - 1], outcomes[k - 1])
  }

  /** The connected nodes below `k` other than `src`, in ascending order. */
  function OthersUpTo(connected: seq<bool>, src: nat, k: nat): (ds: seq<nat>)
    requires k <= |connected|
    ensures |ds| <= k && forall i | 0 <= i < |ds| :: ds[i] < k
  {
    if k == 0 then []
    else OthersUpTo(connected, src, k - 1) + (if k - 1 != src && connected[k - 1] then [k - 1] else [])
  }

  /** A broadcast goes to every other connected node, a unicast to the first of them. */
  function Targets(connected: seq<bool>, src: nat, isBroadcast: bool): (ds: seq<nat>)
    ensures |ds| <= |connected| && forall i | 0 <= i < |ds| :: ds[i] < |connected|
  {
    var others := OthersUpTo(connected, src, |connected|);
    if isBroadcast || others == [] then others else others[..1]
  }

  lemma {:induction false} FirstOther(connected: seq<bool>, src: nat, j: nat, k: nat)
    requires j <= k <= |connected| && OthersUpTo(connected, src, j) != []
    ensures OthersUpTo(connected, src, k) != [] && OthersUpTo(connected, src, k)[0] == OthersUpTo(connected, src, j)[0]
  {
    if j < k { FirstOther(connected, src, j, k - 1); }
  }

  lemma {:induction false} OthersMembers(connected: seq<bool>, src: nat, k: nat)
    requires k <= |connected|
    ensures forall v: nat :: v in OthersUpTo(connected, src, k) <==> v < k && v != src && connected[v]
  {
    if k > 0 {
      OthersMembers(connected, src, k - 1);
      AppendMember(OthersUpTo(connected, src, k - 1), k - 1);
    }
  }

  lemma AppendMember(ds: seq<nat>, x: nat)
    ensures ds + [] == ds && forall v: nat :: v in ds + [x] <==> v in ds || v == x
  {
  }

  predicate Rising(ds: seq<nat>) {
    forall i, j | 0 <= i < j < |ds| :: ds[i] < ds[j]
  }

  lemma RisingAppend(ds: seq<nat>, x: nat)
    requires Rising(ds) && forall i | 0 <= i < |ds| :: ds[i] < x
    ensures Rising(ds + []) && Rising(ds + [x])
  {
    assert ds + [] == ds;
  }

  lemma {:induction false} OthersRise(connected: seq<bool>, src: nat, k: nat)
    requires k <= |connected|
    ensures Rising(OthersUpTo(connected, src, k))
  {
    hide Rising;
    if k > 0 {
      OthersRise(connected, src, k - 1);
      RisingAppend(OthersUpTo(connected, src, k - 1), k - 1);
    } else {
      NoneRise();
    }
  }

  lemma NoneRise()
    ensures Rising([])
  {
  }

  /** Who gets a frame: in ascending order every other connected node, or only the least of them. */
  lemma TargetsAre(connected: seq<bool>, src: nat, isBroadcast: bool)
    ensures var ds := Targets(connected, src, isBroadcast);
      && Rising(ds)
      && (isBroadcast ==> forall v: nat :: v in ds <==> v < |connected| && v != src && connected[v])
      && (!isBroadcast ==> |ds| <= 1)
      && (ds == [] <==> forall v: nat | v < |connected| && v != src :: !connected[v])
      && (ds != [] ==> ds[0] != src && connected[ds[0]] && forall u: nat | u < ds[0] && u != src :: !connected[u])
  {
    var others := OthersUpTo(connected, src, |connected|);
    OthersMembers(connected, src, |connected|);
    OthersRise(connected, src, |connected|);
    hide OthersUpTo;
    if others != [] {
      assert others[0] in others;
      forall u: nat | u < others[0]
        ensures u !in others
      {
        assert forall i | 0 <= i < |others| :: others[0] <= others[i];
      }
    }
  }

  /** No crossing fails or is delayed, as far as the channel and the fault rules go. */
  predicate AllPassAtOnce(outcomes: seq<Outcome>) {
    forall i | 0 <= i < |outcomes| :: outcomes[i] == Pass(0)
  }

  /** How many of the first `k` targets are in the set. */
  function TargetsIn(targets: seq<nat>, chosen: set<nat>, k: nat): nat
    requires k <= |targets|
  {
    if k == 0 then 0 else TargetsIn(targets, chosen, k - 1) + (if targets[k - 1] in chosen then 1 else 0)
  }

  function ChosenUpTo(targets: seq<nat>, chosen: set<nat>, k: nat): set<nat>
    requires k <= |targets|
  {
    set v | v in chosen && v in targets[..k]
  }

  lemma {:induction false} TargetsInCount(targets: seq<nat>, chosen: set<nat>, k: nat)
    requires k <= |targets| && Simple(targets)
    ensures TargetsIn(targets, chosen, k) == |ChosenUpTo(targets, chosen, k)|
  {
    if k > 0 {
      TargetsInCount(targets, chosen, k - 1);
      var v, before := targets[k - 1], ChosenUpTo(targets, chosen, k - 1);
      assert v !in before && targets[..k] == targets[..k - 1] + [v];
      assert ChosenUpTo(targets, chosen, k) == if v in chosen then before + {v} else before;
    }
  }

  /** Each copy over an up-link to a node that takes it is counted as forwarded, each over a down-link as
      dropped. */
  lemma {:induction false} CopiesCount(t: Tally, topo: Topology, connected: seq<bool>, src: nat, targets: seq<nat>,
                                       outcomes: seq<Outcome>, now: int, sendOk: nat -> bool,
                                       taken: set<nat>, lost: set<nat>, k: nat)
    requires k <= |targets| <= |outcomes| && AllPassAtOnce(outcomes)
    requires src < |topo| == |connected|
    requires forall i | 0 <= i < |targets| :: targets[i] < |topo| && connected[targets[i]]
    requires forall v | v in targets :: v in taken <==> topo[src][v].linkUp && sendOk(v)
    requires forall v | v in targets :: v in lost <==> !topo[src][v].linkUp
    ensures var t' := SentTallyUpTo(t, topo, connected, src, targets, outcomes, now, sendOk, k);
      && t'.forwarded == t.forwarded + TargetsIn(targets, taken, k)
      && t'.dropped == t.dropped + TargetsIn(targets, lost, k) && t'.queue == t.queue
  {
    if k > 0 {
      CopiesCount(t, topo, connected, src, targets, outcomes, now, sendOk, taken, lost, k - 1);
      assert targets[k - 1] in targets && outcomes[k - 1] == Pass(0);
    }
  }

  lemma BroadcastCounts(t: Tally, topo: Topology, connected: seq<bool>, src: nat, targets: seq<nat>,
                        outcomes: seq<Outcome>, now: int, sendOk: nat -> bool)
    requires |topo| == |connected| && src < |topo| && |outcomes| >= |targets| && AllPassAtOnce(outcomes)
    requires Rising(targets)
    requires forall v: nat :: v in targets <==> v < |connected| && v != src && connected[v]
    ensures var t' := SentTallyUpTo(t, topo, connected, src, targets, outcomes, now, sendOk, |targets|);
      && t'.forwarded == t.forwarded
           + |set v: nat | v < |topo| && v != src && connected[v] && topo[src][v].linkUp && sendOk(v)|
      && t'.dropped == t.dropped + |set v: nat | v < |topo| && v != src && connected[v] && !topo[src][v].linkUp|
      && t'.queue == t.queue
  {
    var taken := set v: nat | v < |topo| && v != src && connected[v] && topo[src][v].linkUp && sendOk(v);
    var lost := set v: nat | v < |topo| && v != src && connected[v] && !topo[src][v].linkUp;
    forall i | 0 <= i < |targets|
      ensures targets[i] < |topo| && connected[targets[i]]
    {
      assert targets[i] in targets;
    }
    CopiesCount(t, topo, connected, src, targets, outcomes, now, sendOk, taken, lost, |targets|);
    TargetsInCount(targets, taken, |targets|);
    TargetsInCount(targets, lost, |targets|);
    assert targets[..|targets|] == targets;
    assert taken == ChosenUpTo(targets, taken, |targets|) && lost == ChosenUpTo(targets, lost, |targets|);
  }

  lemma WalkFits(g: Graph, p: seq<nat>)
    requires IsWalk(g, p) && Simple(p)
    ensures |p| <= |g|
  {
    DistinctBelow(p, |g|);
  }

  lemma NoRoute(g: Graph, path: seq<nat>, src: nat, dst: nat)
    requires |path| < 2 && src != dst
    requires path == [] ==> forall p :: !Walk(g, p, src, dst)
    requires path != [] ==> LeastWalk(g, path, src, dst)
    ensures !exists p :: LeastWalk(g, p, src, dst)
  {
  }

  predicate AllZero(row: seq<nat>) {
    forall i | 0 <= i < |row| :: row[i] == 0
  }

  lemma {:induction false} ZeroSum(row: seq<nat>)
    requires AllZero(row)
    ensures Sum(row) == 0
  {
    if row != [] { ZeroSum(row[1..]); }
  }

  lemma {:induction false} ZeroMatrix(m: Matrix, n: nat)
    requires forall i | 0 <= i < |m| :: |m[i]| == n && AllZero(m[i])
    ensures Total(m) == 0 && forall v: nat | v < n :: Column(m, v) == 0
  {
    if m != [] {
      ZeroSum(m[0]);
      ZeroMatrix(m[1..], n);
    }
  }

  lemma ZeroAccounts(a: Accounts, n: nat)
    requires Sized(a, n) && AllZero(a.injected) && AllZero(a.ended)
    requires forall i | 0 <= i < n :: AllZero(a.forwarded[i]) && AllZero(a.dropped[i])
    ensures AllBalanced(a, n) && Total(a.dropped) == 0 && Sum(a.ended) == 0
  {
    ZeroMatrix(a.forwarded, n);
    ZeroMatrix(a.dropped, n);
    ZeroSum(a.ended);
    forall v: nat | v < n
      ensures Balanced(a, n, v)
    {
      ZeroSum(a.forwarded[v]);
      ZeroSum(a.dropped[v]);
    }
  }
}
