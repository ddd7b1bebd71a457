/** Where data frames go: what the nodes forward (ThreadNode::processDataFrame, src/thread/ThreadNode.cpp)
    and which node the broker then hands the frame to (Broker::forwardFrame, src/net/Broker.cpp), when no
    link drops it. Node `v` is router `v`. */
module DataPath {
  import opened Types
  import opened Routing
  import opened Mesh
  import opened Graphs
  import opened Convergence
  import ThreadNode
  import Broker

  datatype Net = Net(mesh: Mesh, roles: seq<ThreadNode.DeviceRole>, connected: seq<bool>, tracer: bool)

  predicate NetOk(net: Net) {
    |net.roles| == |net.connected| == |net.mesh.tables| <= MAX_ROUTERS
  }

  predicate Forwards(role: ThreadNode.DeviceRole) {
    role == ThreadNode.Router || role == ThreadNode.Leader
  }

  function Rloc(v: nat): u16
    requires v < MAX_ROUTERS
  {
    MakeRloc16(v, 0)
  }

  lemma RlocIs(v: nat)
    requires v < MAX_ROUTERS
    ensures Rloc(v) == MakeRloc16(v, 0)
  {
  }

  lemma RlocNamesRouter(v: nat, w: nat)
    requires v < MAX_ROUTERS && w < MAX_ROUTERS
    ensures GetRouterId(Rloc(v)) == v && Unicast(Rloc(v))
    ensures Rloc(v) == Rloc(w) <==> v == w
  {
  }

  // ---------------------------------------------------------------------
  // What a router forwards.
  // ---------------------------------------------------------------------

  function HopFor(net: Net, v: nat, dst: u16): Option<u8>
    requires NetOk(net) && v < |net.roles|
  {
    ThreadNode.ForwardHop(net.roles[v], Rloc(v), net.mesh.tables[v], dst)
  }

  /** In a converged mesh a router forwards a frame for `d` exactly when `d` is another router less than
      sixteen hops away; and straight to `d` exactly when there is a link. */
  lemma RouterForwardsIff(net: Net, g: Graph, r: nat, d: nat)
    requires NetOk(net) && Converged(net.mesh, g) && r < |net.roles| && d < |net.roles| && Forwards(net.roles[r])
    ensures HopFor(net, r, Rloc(d)).Some? <==> r != d && exists k: nat :: k < 16 && Distance(g, r, d, k)
    ensures HopFor(net, r, Rloc(d)) == Some(d) <==> Edge(g, r, d)
  {
    RlocNamesRouter(d, r);
    if r != d {
      var e := net.mesh.tables[r][d];
      assert FreshEntry(net.mesh.tables[r], r, net.mesh.now, d) && HonestEntry(g, e, r, d);
      if e.reachable {
        ConvergedCostIsDistance(net.mesh, g, r, d, e.cost);
      }
      if k: nat :| k < 16 && Distance(g, r, d, k) {
        ConvergedCostIsDistance(net.mesh, g, r, d, k);
      }
      EdgeIsDistanceOne(g, r, d);
      if Edge(g, r, d) {
        ConvergedCostIsDistance(net.mesh, g, r, d, 1);
        ExactNextHop(net.mesh, g, 15, r, d, 1);
      }
    }
  }

  // ---------------------------------------------------------------------
  // Who gets the frame.
  // ---------------------------------------------------------------------

  predicate Unicast(dst: u16) {
    dst != INVALID_RLOC16 && dst != BROADCAST_RLOC16
  }

  lemma RlocIsUnicast(id: u8)
    ensures Unicast(MakeRloc16(id, 0))
  {
  }

  /** The node to which the broker hands a frame that `src` sends to `dst`, if there is a route and no link
      drops it: with the tracer the addressed node, if it is connected and not the sender; otherwise the
      first other connected one. */
  function Receiver(net: Net, src: nat, dst: u16): Option<nat>
    requires Unicast(dst)
  {
    var d: nat := GetRouterId(dst);
    var targets := Broker.Targets(net.connected, src, false);
    if net.tracer && d < |net.connected| && d != src && net.connected[d] then Some(d)
    else if targets == [] then None
    else Some(targets[0])
  }

  /** A frame at a node, and the address it bears. */
  datatype Place = Place(node: nat, address: u16)

  /** Where the frame is after the node that holds it has forwarded it, if it does. */
  function Onward(net: Net, p: Place): Option<Place>
    requires NetOk(net)
  {
    if p.node >= |net.roles| then None
    else match HopFor(net, p.node, p.address)
      case None => None
      case Some(h) =>
        RlocIsUnicast(h);
        match Receiver(net, p.node, MakeRloc16(h, 0))
        case None => None
        case Some(w) => Some(Place(w, MakeRloc16(h, 0)))
  }

  /** Where it is after `k` forwardings. */
  function After(net: Net, p: Place, k: nat): Option<Place>
    requires NetOk(net)
  {
    if k == 0 then Some(p)
    else match After(net, p, k - 1)
      case None => None
      case Some(q) => Onward(net, q)
  }

  lemma OthersNext(connected: seq<bool>, src: nat, k: nat)
    requires k <= |connected| && Broker.OthersUpTo(connected, src, k) != []
    ensures k > 0 && Broker.OthersUpTo(connected, src, k) ==
      Broker.OthersUpTo(connected, src, k - 1) + (if k - 1 != src && connected[k - 1] then [k - 1] else [])
  {
  }

  /** No node below `k` is connected, except perhaps `src`. */
  predicate NoneBelow(connected: seq<bool>, src: nat, k: nat) {
    k <= |connected| && forall i: nat | i < k && i != src :: !connected[i]
  }

  lemma {:induction false} NoOthers(connected: seq<bool>, src: nat, k: nat)
    requires k <= |connected|
    ensures Broker.OthersUpTo(connected, src, k) == [] <==> NoneBelow(connected, src, k)
  {
    if k > 0 { NoOthers(connected, src, k - 1); }
  }

  /** The first node of the list of others is the least connected one. */
  lemma {:induction false} LeastOther(connected: seq<bool>, src: nat, k: nat)
    requires k <= |connected| && Broker.OthersUpTo(connected, src, k) != []
    ensures var w := Broker.OthersUpTo(connected, src, k)[0];
      w < k && connected[w] && w != src && NoneBelow(connected, src, w)
    decreases k
  {
    OthersNext(connected, src, k);
    hide Broker.OthersUpTo, NoneBelow;
    var before := Broker.OthersUpTo(connected, src, k - 1);
    if before != [] {
      LeastOther(connected, src, k - 1);
    } else {
      NoOthers(connected, src, k - 1);
    }
  }

  // ---------------------------------------------------------------------
  // With the tracer.
  // ---------------------------------------------------------------------

  /** A frame for a connected router goes to it and stays there. */
  lemma TracerDelivers(net: Net, src: nat, d: nat)
    requires NetOk(net) && net.tracer && d < |net.roles| && d != src && net.connected[d]
    ensures Receiver(net, src, Rloc(d)) == Some(d) && Onward(net, Place(d, Rloc(d))) == None
  {
    RlocNamesRouter(d, d);
  }

  // ---------------------------------------------------------------------
  // Without it.
  // ---------------------------------------------------------------------

  /** At most one connected node comes before `w`. */
  predicate AmongFirstTwo(connected: seq<bool>, w: nat) {
    w < |connected| && connected[w] && forall i, j | 0 <= i < w && 0 <= j < w && connected[i] && connected[j] :: i == j
  }

  lemma ReceiverAmongFirstTwo(net: Net, src: nat, dst: u16)
    requires !net.tracer && Unicast(dst) && Receiver(net, src, dst).Some?
    ensures AmongFirstTwo(net.connected, Receiver(net, src, dst).value)
  {
    LeastOther(net.connected, src, |net.connected|);
  }

  /** Without the tracer no unicast frame, however often it is forwarded, is ever handed to any but the
      first two connected nodes, whomever it is for. */
  lemma {:induction false} OnlyFirstTwoReceive(net: Net, src: nat, dst: u16, k: nat)
    requires NetOk(net) && !net.tracer && Unicast(dst) && Receiver(net, src, dst).Some?
    requires After(net, Place(Receiver(net, src, dst).value, dst), k).Some?
    ensures AmongFirstTwo(net.connected, After(net, Place(Receiver(net, src, dst).value, dst), k).value.node)
  {
    if k == 0 {
      ReceiverAmongFirstTwo(net, src, dst);
    } else {
      var q := After(net, Place(Receiver(net, src, dst).value, dst), k - 1).value;
      ReceiverAmongFirstTwo(net, q.node, MakeRloc16(HopFor(net, q.node, q.address).value, 0));
    }
  }

  /** When a router that has been handed a frame addressed to router `h` keeps it: when it is `h` itself or
      `h` is out of its reach, and otherwise only if there is nobody to hand it to. */
  lemma KeptIff(net: Net, g: Graph, w: nat, h: nat)
    requires NetOk(net) && Converged(net.mesh, g) && w < |net.roles| && h < |net.roles| && Forwards(net.roles[w])
    requires exists v :: 0 <= v < |net.connected| && v != w && net.connected[v]
    ensures Onward(net, Place(w, Rloc(h))) == None <==> w == h || forall k: nat | k < 16 :: !Distance(g, w, h, k)
  {
    RouterForwardsIff(net, g, w, h);
    NoOthers(net.connected, w, |net.connected|);
  }

  lemma TheOtherOne(net: Net, v: nat, dst: u16)
    requires !net.tracer && Unicast(dst) && v < 2 <= |net.connected| && net.connected[0] && net.connected[1]
    ensures Receiver(net, v, dst) == Some(1 - v)
  {
    NoOthers(net.connected, v, |net.connected|);
    LeastOther(net.connected, v, |net.connected|);
  }

  /** Two routers, the first two connected, with links to a third: without the tracer a frame for that one
      passes between them for ever. */
  lemma {:induction false} ForwardedForEver(net: Net, g: Graph, d: nat, k: nat)
    requires NetOk(net) && !net.tracer && Converged(net.mesh, g) && 2 <= d < |net.roles|
    requires net.connected[0] && net.connected[1] && Forwards(net.roles[0]) && Forwards(net.roles[1])
    requires Edge(g, 0, d) && Edge(g, 1, d)
    ensures After(net, Place(0, Rloc(d)), k) == Some(Place(k % 2, Rloc(d)))
  {
    hide Converged, Edge, Onward, Rloc;
    if k > 0 {
      ForwardedForEver(net, g, d, k - 1);
      PassedOn(net, g, d, (k - 1) % 2);
    }
  }

  lemma PassedOn(net: Net, g: Graph, d: nat, v: nat)
    requires NetOk(net) && !net.tracer && Converged(net.mesh, g) && v < 2 <= d < |net.roles|
    requires net.connected[0] && net.connected[1] && Forwards(net.roles[v]) && Edge(g, v, d)
    ensures Onward(net, Place(v, Rloc(d))) == Some(Place(1 - v, Rloc(d)))
  {
    hide Converged, Edge, HopFor, Receiver, Rloc;
    RouterForwardsIff(net, g, v, d);
    RlocIs(d);
    TheOtherOne(net, v, Rloc(d));
  }
}
