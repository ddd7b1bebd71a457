/** The distance-vector table of one router (src/thread/Routing.cpp). */
module Routing {
  import opened Types

  const MAX_ROUTERS: nat := 63
  const ROUTE_COST_INFINITE: u8 := 16

  datatype RouteEntry = RouteEntry(
    routerId: u8, nextHop: u8, cost: u8, reachable: bool, lastUpdated: int)

  const EMPTY_ENTRY: RouteEntry :=
    RouteEntry(INVALID_ROUTER_ID, INVALID_ROUTER_ID, ROUTE_COST_INFINITE, false, 0)

  type Table = t: seq<RouteEntry> | |t| == MAX_ROUTERS witness seq(MAX_ROUTERS, _ => EMPTY_ENTRY)

  const EMPTY_TABLE: Table := seq(MAX_ROUTERS, _ => EMPTY_ENTRY)

  // ---------------------------------------------------------------------
  // What each operation does to the table, as a value.
  // ---------------------------------------------------------------------

  function DirectEntry(id: u8, now: int): RouteEntry {
    RouteEntry(id, id, 1, true, now)
  }

  function AddDirect(t: Table, id: u8, now: int): Table {
    if id >= MAX_ROUTERS then t else t[id := DirectEntry(id, now)]
  }

  /** The entry for `nr.routerId` after hearing route `nr` from neighbour `n`. */
  function MergeEntry(e: RouteEntry, n: u8, nr: RouteEntry, now: int): RouteEntry {
    var newCost: u8 := Min(nr.cost + 1, ROUTE_COST_INFINITE);
    if !e.reachable || newCost < e.cost || e.nextHop == n then
      RouteEntry(nr.routerId, n, newCost, newCost < ROUTE_COST_INFINITE, now)
    else e
  }

  function MergeRoute(t: Table, own: u8, n: u8, nr: RouteEntry, now: int): Table {
    if nr.routerId >= MAX_ROUTERS || nr.routerId == own || !nr.reachable then t
    else t[nr.routerId := MergeEntry(t[nr.routerId], n, nr, now)]
  }

  function MergeRoutes(t: Table, own: u8, n: u8, routes: seq<RouteEntry>, now: int): Table {
    if routes == [] then t
    else
      var last := |routes| - 1;
      MergeRoute(MergeRoutes(t, own, n, routes[..last], now), own, n, routes[last], now)
  }

  /** The table of router `own` after it heard the advertisement `routes` of neighbour `n`. */
  function Heard(t: Table, own: u8, n: u8, routes: seq<RouteEntry>, now: int): Table {
    MergeRoutes(AddDirect(t, n, now), own, n, routes, now)
  }

  function Dead(e: RouteEntry): RouteEntry {
    e.(reachable := false, cost := ROUTE_COST_INFINITE)
  }

  function InvalidateEntry(e: RouteEntry, i: int, id: u8): RouteEntry {
    if i == id || (e.nextHop == id && e.routerId != id) then Dead(e) else e
  }

  function Invalidated(t: Table, id: u8): Table {
    if id >= MAX_ROUTERS then t
    else seq(MAX_ROUTERS, i requires 0 <= i < MAX_ROUTERS => InvalidateEntry(t[i], i, id))
  }

  function ExpireEntry(e: RouteEntry, now: int, timeout: int): RouteEntry {
    if e.reachable && now - e.lastUpdated > timeout then Dead(e) else e
  }

  function Expired(t: Table, now: int, timeout: int): Table {
    seq(MAX_ROUTERS, i requires 0 <= i < MAX_ROUTERS => ExpireEntry(t[i], now, timeout))
  }

  function AdvertisedUpTo(t: Table, k: nat): seq<RouteEntry>
    requires k <= MAX_ROUTERS
  {
    if k == 0 then []
    else
      var e := t[k - 1];
      AdvertisedUpTo(t, k - 1) + (if e.reachable && e.routerId != INVALID_ROUTER_ID then [e] else [])
  }

  /** The routes a router broadcasts. */
  function Advertised(t: Table): seq<RouteEntry> {
    AdvertisedUpTo(t, MAX_ROUTERS)
  }

  function NextHop(t: Table, dest: u8): Option<u8> {
    if dest >= MAX_ROUTERS || !t[dest].reachable then None else Some(t[dest].nextHop)
  }

  // ---------------------------------------------------------------------
  // The freshness invariant.
  // ---------------------------------------------------------------------

  /** `h` is a live direct neighbour. */
  predicate Direct(t: Table, h: u8) {
    h < MAX_ROUTERS && t[h].reachable && t[h].cost == 1 && t[h].nextHop == h
  }

  predicate FreshEntry(t: Table, own: u8, now: int, i: nat)
    requires i < MAX_ROUTERS
  {
    var e := t[i];
    && (e.reachable <==> e.cost < ROUTE_COST_INFINITE)
    && (e.reachable ==>
          && e.routerId == i && i != own && 1 <= e.cost && e.lastUpdated <= now
          && Direct(t, e.nextHop) && e.lastUpdated <= t[e.nextHop].lastUpdated)
  }

  /** Reachable means cost below infinity; a live route goes through a live direct neighbour heard
      no earlier than the route itself; a router holds no route to itself. */
  ghost predicate Fresh(t: Table, own: u8, now: int) {
    forall i: nat | i < MAX_ROUTERS :: FreshEntry(t, own, now, i)
  }

  /** What a router may assume of an advertisement it hears: the sender is another router with a
      valid id, and does not list itself. */
  ghost predicate ProperAdvertisement(own: u8, n: u8, routes: seq<RouteEntry>) {
    n < MAX_ROUTERS && n != own && forall k | 0 <= k < |routes| :: routes[k].reachable ==> routes[k].routerId != n
  }

  lemma EmptyIsFresh(own: u8, now: int)
    ensures Fresh(EMPTY_TABLE, own, now)
  {
  }

  lemma AddDirectKeepsFresh(t: Table, own: u8, id: u8, now: int)
    requires Fresh(t, own, now) && id != own
    ensures Fresh(AddDirect(t, id, now), own, now)
  {
    var t' := AddDirect(t, id, now);
    forall i: nat | i < MAX_ROUTERS
      ensures FreshEntry(t', own, now, i)
    {
      assert FreshEntry(t, own, now, i);
    }
  }

  lemma MergeRouteKeepsFresh(t: Table, own: u8, n: u8, nr: RouteEntry, now: int)
    requires Fresh(t, own, now) && Direct(t, n) && t[n].lastUpdated == now
    requires nr.reachable ==> nr.routerId != n
    ensures var t' := MergeRoute(t, own, n, nr, now);
      Fresh(t', own, now) && Direct(t', n) && t'[n].lastUpdated == now
  {
    var t' := MergeRoute(t, own, n, nr, now);
    forall i: nat | i < MAX_ROUTERS
      ensures FreshEntry(t', own, now, i)
    {
      assert FreshEntry(t, own, now, i);
      if nr.routerId < MAX_ROUTERS {
        assert FreshEntry(t, own, now, nr.routerId);
      }
    }
  }

  lemma {:induction false} MergeRoutesKeepFresh(t: Table, own: u8, n: u8, routes: seq<RouteEntry>, now: int)
    requires Fresh(t, own, now) && Direct(t, n) && t[n].lastUpdated == now
    requires ProperAdvertisement(own, n, routes)
    ensures var t' := MergeRoutes(t, own, n, routes, now);
      Fresh(t', own, now) && Direct(t', n) && t'[n].lastUpdated == now
  {
    if routes != [] {
      var last := |routes| - 1;
      MergeRoutesKeepFresh(t, own, n, routes[..last], now);
      MergeRouteKeepsFresh(MergeRoutes(t, own, n, routes[..last], now), own, n, routes[last], now);
    }
  }

  lemma HeardKeepsFresh(t: Table, own: u8, n: u8, routes: seq<RouteEntry>, now: int)
    requires Fresh(t, own, now) && ProperAdvertisement(own, n, routes)
    ensures Fresh(Heard(t, own, n, routes, now), own, now)
    ensures Direct(Heard(t, own, n, routes, now), n)
  {
    AddDirectKeepsFresh(t, own, n, now);
    MergeRoutesKeepFresh(AddDirect(t, n, now), own, n, routes, now);
  }

  /** Killing a router leaves no live route through it. */
  lemma InvalidatedKeepsFresh(t: Table, own: u8, id: u8, now: int)
    requires Fresh(t, own, now)
    ensures Fresh(Invalidated(t, id), own, now)
    ensures forall i: nat | i < MAX_ROUTERS && id < MAX_ROUTERS && Invalidated(t, id)[i].reachable ::
              i != id && Invalidated(t, id)[i].nextHop != id
  {
    var t' := Invalidated(t, id);
    forall i: nat | i < MAX_ROUTERS
      ensures FreshEntry(t', own, now, i)
    {
      assert FreshEntry(t, own, now, i);
    }
    forall i: nat | i < MAX_ROUTERS && id < MAX_ROUTERS && t'[i].reachable
      ensures i != id && t'[i].nextHop != id
    {
      assert FreshEntry(t, own, now, i);
    }
  }

  /** Expiry never leaves a live route through a neighbour that it expired. */
  lemma ExpiredKeepsFresh(t: Table, own: u8, now: int, timeout: int)
    requires Fresh(t, own, now)
    ensures Fresh(Expired(t, now, timeout), own, now)
  {
    var t' := Expired(t, now, timeout);
    forall i: nat | i < MAX_ROUTERS
      ensures FreshEntry(t', own, now, i)
    {
      assert FreshEntry(t, own, now, i);
    }
  }

  // ---------------------------------------------------------------------
  // What survives.
  // ---------------------------------------------------------------------

  /** In a fresh table the routes that survive the loss of a router are exactly those that neither lead
      to it nor through it, and they are as they were. */
  lemma InvalidatedLiveIff(t: Table, own: u8, id: u8, now: int, i: nat)
    requires Fresh(t, own, now) && id < MAX_ROUTERS && i < MAX_ROUTERS
    ensures Invalidated(t, id)[i].reachable <==> t[i].reachable && i != id && t[i].nextHop != id
    ensures Invalidated(t, id)[i].reachable ==> Invalidated(t, id)[i] == t[i]
  {
    assert FreshEntry(t, own, now, i);
  }

  /** The routes that survive an expiry are exactly those no older than the timeout, and the neighbour
      that each goes through survives with it. */
  lemma ExpiredLiveIff(t: Table, own: u8, now: int, timeout: int, i: nat)
    requires Fresh(t, own, now) && i < MAX_ROUTERS
    ensures var t' := Expired(t, now, timeout);
      && (t'[i].reachable <==> t[i].reachable && now - t[i].lastUpdated <= timeout)
      && (t'[i].reachable ==> t'[i] == t[i] && Direct(t', t[i].nextHop) && t'[t[i].nextHop] == t[t[i].nextHop])
  {
    assert FreshEntry(t, own, now, i);
    if t[i].reachable { assert FreshEntry(t, own, now, t[i].nextHop); }
  }

  // ---------------------------------------------------------------------
  // Every run of the four mutators.
  // ---------------------------------------------------------------------

  datatype Op =
    | OpAddDirect(id: u8)
    | OpHear(from: u8, routes: seq<RouteEntry>)
    | OpInvalidate(target: u8)
    | OpExpire(timeout: int)

  datatype TimedOp = TimedOp(op: Op, at: int)

  function ApplyOp(t: Table, own: u8, o: TimedOp): Table {
    match o.op
    case OpAddDirect(id) => AddDirect(t, id, o.at)
    case OpHear(n, routes) => Heard(t, own, n, routes, o.at)
    case OpInvalidate(id) => Invalidated(t, id)
    case OpExpire(timeout) => Expired(t, o.at, timeout)
  }

  function RunOps(t: Table, own: u8, ops: seq<TimedOp>): Table
    decreases |ops|
  {
    if ops == [] then t else RunOps(ApplyOp(t, own, ops[0]), own, ops[1..])
  }

  ghost predicate ProperOp(own: u8, op: Op) {
    match op
    case OpAddDirect(id) => id != own
    case OpHear(n, routes) => ProperAdvertisement(own, n, routes)
    case OpInvalidate(_) => true
    case OpExpire(_) => true
  }

  /** Time never runs backwards along a run. */
  ghost predicate Monotone(start: int, ops: seq<TimedOp>)
    decreases |ops|
  {
    ops == [] || (start <= ops[0].at && Monotone(ops[0].at, ops[1..]))
  }

  function EndTime(start: int, ops: seq<TimedOp>): int {
    if ops == [] then start else ops[|ops| - 1].at
  }

  lemma FreshLater(t: Table, own: u8, now: int, later: int)
    requires Fresh(t, own, now) && now <= later
    ensures Fresh(t, own, later)
  {
    forall i: nat | i < MAX_ROUTERS
      ensures FreshEntry(t, own, later, i)
    {
      assert FreshEntry(t, own, now, i);
    }
  }

  lemma {:induction false} EveryRunStaysFresh(t: Table, own: u8, start: int, ops: seq<TimedOp>)
    requires Fresh(t, own, start) && Monotone(start, ops)
    requires forall k | 0 <= k < |ops| :: ProperOp(own, ops[k].op)
    ensures Fresh(RunOps(t, own, ops), own, EndTime(start, ops))
    decreases |ops|
  {
    if ops != [] {
      var o := ops[0];
      assert ProperOp(own, o.op);
      FreshLater(t, own, start, o.at);
      match o.op {
        case OpAddDirect(id) => AddDirectKeepsFresh(t, own, id, o.at);
        case OpHear(n, routes) => HeardKeepsFresh(t, own, n, routes, o.at);
        case OpInvalidate(id) => InvalidatedKeepsFresh(t, own, id, o.at);
        case OpExpire(timeout) => ExpiredKeepsFresh(t, own, o.at, timeout);
      }
      forall k | 0 <= k < |ops[1..]|
        ensures ProperOp(own, ops[1..][k].op)
      {
        assert ops[1..][k] == ops[k + 1];
      }
      EveryRunStaysFresh(ApplyOp(t, own, o), own, o.at, ops[1..]);
    }
  }

  // ---------------------------------------------------------------------
  // A sender that lists itself.
  // ---------------------------------------------------------------------

  /** The last live route in which the advertisement lists `n`. */
  function LastListing(routes: seq<RouteEntry>, n: u8): (listing: Option<RouteEntry>)
    ensures listing.Some? ==> listing.value in routes && listing.value.reachable && listing.value.routerId == n
  {
    if routes == [] then None
    else
      var last := |routes| - 1;
      if routes[last].reachable && routes[last].routerId == n then Some(routes[last])
      else LastListing(routes[..last], n)
  }

  /** No live route goes through `n`. */
  predicate NoneThrough(t: Table, n: u8) {
    forall i: nat | i < MAX_ROUTERS :: t[i].reachable ==> t[i].nextHop != n
  }

  function Restored(t: Table, n: u8, now: int): Table
    requires n < MAX_ROUTERS
  {
    t[n := DirectEntry(n, now)]
  }

  /** Whatever a sender lists, its own entry is what its last listing of itself makes of it; and but
      for that entry the table stays fresh. */
  lemma {:induction false} MergeWithListings(t: Table, own: u8, n: u8, routes: seq<RouteEntry>, now: int)
    requires Fresh(t, own, now) && n != own && Direct(t, n) && t[n].lastUpdated == now
    ensures var t' := MergeRoutes(t, own, n, routes, now);
      && t'[n] == (match LastListing(routes, n)
                   case None => DirectEntry(n, now)
                   case Some(nr) => MergeEntry(DirectEntry(n, now), n, nr, now))
      && Fresh(Restored(t', n, now), own, now)
  {
    if routes == [] {
      assert FreshEntry(t, own, now, n) && Restored(t, n, now) == t;
    } else {
      var last := |routes| - 1;
      var before, nr := MergeRoutes(t, own, n, routes[..last], now), routes[last];
      MergeWithListings(t, own, n, routes[..last], now);
      var restored := Restored(before, n, now);
      if nr.reachable && nr.routerId == n {
        assert Restored(MergeRoute(before, own, n, nr, now), n, now) == restored;
      } else {
        MergeRouteKeepsFresh(restored, own, n, nr, now);
        assert Restored(MergeRoute(before, own, n, nr, now), n, now) == MergeRoute(restored, own, n, nr, now);
      }
    }
  }

  /** The sender ends as a live direct neighbour exactly when it does not list itself or its last
      listing of itself has cost 0; and the table ends fresh exactly when it does or when no live
      route is left through it. */
  lemma SelfListingIff(t: Table, own: u8, n: u8, routes: seq<RouteEntry>, now: int)
    requires Fresh(t, own, now) && n < MAX_ROUTERS && n != own
    ensures var t', listing := Heard(t, own, n, routes, now), LastListing(routes, n);
      && (Direct(t', n) <==> listing == None || listing.value.cost == 0)
      && (Fresh(t', own, now) <==> listing == None || listing.value.cost == 0 || NoneThrough(t', n))
  {
    AddDirectKeepsFresh(t, own, n, now);
    MergeWithListings(AddDirect(t, n, now), own, n, routes, now);
    var t' := Heard(t, own, n, routes, now);
    var restored := Restored(t', n, now);
    if Direct(t', n) {
      assert t' == restored;
    } else if NoneThrough(t', n) {
      forall i: nat | i < MAX_ROUTERS
        ensures FreshEntry(t', own, now, i)
      {
        assert FreshEntry(restored, own, now, i);
      }
    } else {
      var i: nat :| i < MAX_ROUTERS && t'[i].reachable && t'[i].nextHop == n;
      assert !FreshEntry(t', own, now, i);
    }
  }

  /** So a sender whose last listing of itself costs 1 to 14 breaks the freshness of every table. */
  lemma SelfListingBreaksFreshness(t: Table, own: u8, n: u8, routes: seq<RouteEntry>, now: int)
    requires Fresh(t, own, now) && n < MAX_ROUTERS && n != own
    requires LastListing(routes, n).Some? && 1 <= LastListing(routes, n).value.cost <= 14
    ensures !Fresh(Heard(t, own, n, routes, now), own, now)
  {
    AddDirectKeepsFresh(t, own, n, now);
    MergeWithListings(AddDirect(t, n, now), own, n, routes, now);
    SelfListingIff(t, own, n, routes, now);
    var t' := Heard(t, own, n, routes, now);
    assert t'[n].reachable && t'[n].nextHop == n;
  }

  /** Being heard breaks the freshness of a table for one sender only: the owner of the table. */
  lemma HearingOneselfIff(t: Table, own: u8, n: u8, now: int)
    requires Fresh(t, own, now)
    ensures Fresh(AddDirect(t, n, now), own, now) <==> (n < MAX_ROUTERS ==> n != own)
  {
    if n >= MAX_ROUTERS {
      assert AddDirect(t, n, now) == t;
    } else if n == own {
      assert !FreshEntry(AddDirect(t, n, now), own, now, n);
    } else {
      AddDirectKeepsFresh(t, own, n, now);
    }
  }

  // ---------------------------------------------------------------------
  // Every sender.
  // ---------------------------------------------------------------------

  /** A sender without a valid id gets no entry of its own: an entry is kept, or leads through it; and
      direct neighbours are kept. */
  lemma {:induction false} MergeForeign(t: Table, own: u8, n: u8, routes: seq<RouteEntry>, now: int)
    requires Fresh(t, own, now) && n >= MAX_ROUTERS
    ensures var t' := MergeRoutes(t, own, n, routes, now);
      && (forall i: nat | i < MAX_ROUTERS ::
            t'[i] == t[i] || (t'[i].nextHop == n && (t'[i].reachable <==> t'[i].cost < ROUTE_COST_INFINITE)))
      && (forall h: u8 | Direct(t, h) :: t'[h] == t[h])
  {
    if routes != [] {
      MergeForeign(t, own, n, routes[..|routes| - 1], now);
    }
  }

  lemma ForeignStaysFreshIff(t: Table, own: u8, n: u8, routes: seq<RouteEntry>, now: int)
    requires Fresh(t, own, now) && n >= MAX_ROUTERS
    ensures var t' := Heard(t, own, n, routes, now); Fresh(t', own, now) <==> NoneThrough(t', n)
  {
    MergeForeign(t, own, n, routes, now);
    var t' := Heard(t, own, n, routes, now);
    if NoneThrough(t', n) {
      forall i: nat | i < MAX_ROUTERS
        ensures FreshEntry(t', own, now, i)
      {
        assert FreshEntry(t, own, now, i);
      }
    } else {
      var i: nat :| i < MAX_ROUTERS && t'[i].reachable && t'[i].nextHop == n;
      assert !FreshEntry(t', own, now, i);
    }
  }

  /** A router that hears its own id keeps the entry this gives it. */
  lemma {:induction false} MergeKeepsOwnEntry(t: Table, own: u8, n: u8, routes: seq<RouteEntry>, now: int)
    requires own < MAX_ROUTERS
    ensures MergeRoutes(t, own, n, routes, now)[own] == t[own]
  {
    if routes != [] { MergeKeepsOwnEntry(t, own, n, routes[..|routes| - 1], now); }
  }

  /** When a fresh table stays fresh, for every sender id and every advertisement: the sender is not the
      table's own router; and it stays a live direct neighbour, which takes a valid id and no last listing
      of itself at another cost than 0, or no live route is left through it. */
  lemma HeardStaysFreshIff(t: Table, own: u8, n: u8, routes: seq<RouteEntry>, now: int)
    requires Fresh(t, own, now)
    ensures var t', listing := Heard(t, own, n, routes, now), LastListing(routes, n);
      Fresh(t', own, now) <==>
      && (n < MAX_ROUTERS ==> n != own)
      && (NoneThrough(t', n) || (n < MAX_ROUTERS && (listing == None || listing.value.cost == 0)))
  {
    if n >= MAX_ROUTERS {
      ForeignStaysFreshIff(t, own, n, routes, now);
    } else if n == own {
      MergeKeepsOwnEntry(AddDirect(t, n, now), own, n, routes, now);
      assert !FreshEntry(Heard(t, own, n, routes, now), own, now, own);
    } else {
      SelfListingIff(t, own, n, routes, now);
    }
  }

  // ---------------------------------------------------------------------
  // A router whose table lists the router itself.
  // ---------------------------------------------------------------------

  /** Every live entry stands under its own id. */
  predicate Labelled(t: Table) {
    forall i: nat | i < MAX_ROUTERS && t[i].reachable :: t[i].routerId == i
  }

  lemma {:induction false} AdvertisedListing(t: Table, n: u8, k: nat)
    requires Labelled(t) && n < k <= MAX_ROUTERS && t[n].reachable
    ensures LastListing(AdvertisedUpTo(t, k), n) == Some(t[n])
  {
    var routes := AdvertisedUpTo(t, k);
    if n == k - 1 {
      assert routes[|routes| - 1] == t[n];
    } else {
      AdvertisedListing(t, n, k - 1);
      var before := AdvertisedUpTo(t, k - 1);
      if t[k - 1].reachable { assert routes[..|routes| - 1] == before; } else { assert routes == before; }
    }
  }

  /** A router that holds a route of cost 1 to 14 to itself advertises it, and so breaks the freshness of
      every table that hears it. */
  lemma OwnRouteSpreads(tn: Table, n: u8, t: Table, own: u8, now: int)
    requires Labelled(tn) && n < MAX_ROUTERS && tn[n].reachable && 1 <= tn[n].cost <= 14
    requires Fresh(t, own, now) && n != own
    ensures LastListing(Advertised(tn), n) == Some(tn[n])
    ensures !Fresh(Heard(t, own, n, Advertised(tn), now), own, now)
  {
    AdvertisedListing(tn, n, MAX_ROUTERS);
    SelfListingBreaksFreshness(t, own, n, Advertised(tn), now);
  }

  lemma FreshIsLabelled(t: Table, own: u8, now: int)
    requires Fresh(t, own, now)
    ensures Labelled(t)
  {
    forall i: nat | i < MAX_ROUTERS && t[i].reachable
      ensures t[i].routerId == i
    {
      assert FreshEntry(t, own, now, i);
    }
  }

  /** A router may take a new id without clearing its table exactly when it holds no route to it. */
  lemma NewOwnIdStaysFreshIff(t: Table, own: u8, newOwn: u8, now: int)
    requires Fresh(t, own, now)
    ensures Fresh(t, newOwn, now) <==> (newOwn < MAX_ROUTERS ==> !t[newOwn].reachable)
  {
    if newOwn < MAX_ROUTERS && t[newOwn].reachable {
      assert !FreshEntry(t, newOwn, now, newOwn);
    } else {
      forall i: nat | i < MAX_ROUTERS
        ensures FreshEntry(t, newOwn, now, i)
      {
        assert FreshEntry(t, own, now, i);
      }
    }
  }

  /** And it can happen: a router that has heard the holder of an id and then takes that id as its own. */
  lemma NewOwnIdBreaksFreshness(own: u8, newOwn: u8, now: int)
    requires newOwn < MAX_ROUTERS && newOwn != own
    ensures var t := Heard(EMPTY_TABLE, own, newOwn, [], now); Fresh(t, own, now) && !Fresh(t, newOwn, now)
  {
    EmptyIsFresh(own, now);
    HeardKeepsFresh(EMPTY_TABLE, own, newOwn, [], now);
    NewOwnIdStaysFreshIff(Heard(EMPTY_TABLE, own, newOwn, [], now), own, newOwn, now);
  }

  /** From then on, if its route to the id it took costs less than 15, its advertisements break the
      freshness of every table that hears them. */
  lemma NewOwnIdSpreads(tn: Table, oldOwn: u8, n: u8, t: Table, own: u8, now: int)
    requires Fresh(tn, oldOwn, now) && n < MAX_ROUTERS && tn[n].reachable && tn[n].cost < 15
    requires Fresh(t, own, now) && n != own
    ensures !Fresh(Heard(t, own, n, Advertised(tn), now), own, now)
  {
    FreshIsLabelled(tn, oldOwn, now);
    assert FreshEntry(tn, oldOwn, now, n);
    OwnRouteSpreads(tn, n, t, own, now);
  }

  // ---------------------------------------------------------------------
  // Hearing a whole table, entry by entry.
  // ---------------------------------------------------------------------

  /** The entry for `d` in the table `t` of `own` after it heard the table `tn` of neighbour `n`. */
  function HeardEntry(t: Table, own: u8, n: u8, tn: Table, now: int, d: nat): RouteEntry
    requires d < MAX_ROUTERS
  {
    if d == n then DirectEntry(n, now)
    else if d == own || !tn[d].reachable then t[d]
    else MergeEntry(t[d], n, tn[d], now)
  }

  /** Only a neighbour's live routes are advertised, and never one to the neighbour itself. */
  lemma {:induction false} AdvertisedIsProper(t: Table, own: u8, now: int, k: nat)
    requires Fresh(t, own, now) && k <= MAX_ROUTERS
    ensures forall j | 0 <= j < |AdvertisedUpTo(t, k)| :: var e := AdvertisedUpTo(t, k)[j];
              e.reachable && e.routerId < k && e.routerId != own && e == t[e.routerId]
    ensures |AdvertisedUpTo(t, k)| <= k
  {
    if k > 0 {
      AdvertisedIsProper(t, own, now, k - 1);
      assert FreshEntry(t, own, now, k - 1);
    }
  }

  lemma {:induction false} MergeAdvertised(t: Table, own: u8, n: u8, tn: Table, now: int, k: nat)
    requires Fresh(tn, n, now) && k <= MAX_ROUTERS && n < MAX_ROUTERS && n != own
    ensures var t' := MergeRoutes(AddDirect(t, n, now), own, n, AdvertisedUpTo(tn, k), now);
      forall d: nat | d < MAX_ROUTERS ::
        t'[d] == if d < k || d == n then HeardEntry(t, own, n, tn, now, d) else t[d]
  {
    hide MergeEntry, MergeRoutes, AdvertisedUpTo, Fresh;
    if k > 0 {
      MergeAdvertised(t, own, n, tn, now, k - 1);
      MergeNext(AddDirect(t, n, now), own, n, tn, now, k - 1);
    } else {
      MergeNone(AddDirect(t, n, now), own, n, tn, now);
    }
  }

  lemma MergeNone(t: Table, own: u8, n: u8, tn: Table, now: int)
    ensures MergeRoutes(t, own, n, AdvertisedUpTo(tn, 0), now) == t
  {
  }

  /** One more advertised entry is one more route merged. */
  lemma MergeNext(t: Table, own: u8, n: u8, tn: Table, now: int, k: nat)
    requires Fresh(tn, n, now) && k < MAX_ROUTERS
    ensures tn[k].reachable ==> tn[k].routerId == k && k != n
    ensures MergeRoutes(t, own, n, AdvertisedUpTo(tn, k + 1), now) ==
      if tn[k].reachable then MergeRoute(MergeRoutes(t, own, n, AdvertisedUpTo(tn, k), now), own, n, tn[k], now)
      else MergeRoutes(t, own, n, AdvertisedUpTo(tn, k), now)
  {
    hide MergeRoute;
    assert FreshEntry(tn, n, now, k);
    var before, routes := AdvertisedUpTo(tn, k), AdvertisedUpTo(tn, k + 1);
    if tn[k].reachable {
      assert routes[..|routes| - 1] == before;
    } else {
      assert routes == before;
    }
  }

  /** Merging a neighbour's advertised table is the entry-wise rule. */
  lemma HearingIsEntrywise(t: Table, own: u8, n: u8, tn: Table, now: int)
    requires Fresh(tn, n, now) && n < MAX_ROUTERS && n != own
    ensures forall d: nat | d < MAX_ROUTERS ::
              Heard(t, own, n, Advertised(tn), now)[d] == HeardEntry(t, own, n, tn, now, d)
  {
    MergeAdvertised(t, own, n, tn, now, MAX_ROUTERS);
  }

  /** Hearing a neighbour never exchanges a route for one that is as dear: an entry changes only for a
      strictly cheaper route, because it was dead, or because it leads through that neighbour, whose
      word it then follows even to a higher cost. */
  lemma HearingKeepsUnlessBetter(t: Table, own: u8, n: u8, tn: Table, now: int, d: nat)
    requires Fresh(t, own, now) && Fresh(tn, n, now) && n < MAX_ROUTERS && n != own
    requires d < MAX_ROUTERS && d != n && d != own
    ensures var e, e' := t[d], Heard(t, own, n, Advertised(tn), now)[d];
      if !tn[d].reachable || (e.reachable && e.nextHop != n && e.cost <= tn[d].cost + 1) then e' == e
      else
        && e'.routerId == d && e'.nextHop == n && e'.lastUpdated == now
        && (if tn[d].cost < 15 then e'.reachable && e'.cost == tn[d].cost + 1 else !e'.reachable && e'.cost == 16)
  {
    HearingIsEntrywise(t, own, n, tn, now);
    assert FreshEntry(t, own, now, d) && FreshEntry(tn, n, now, d);
  }

  /** What is advertised is every live route, each once, in ascending order of id. */
  lemma {:induction false} AdvertisedExactly(t: Table, k: nat)
    requires Labelled(t) && k <= MAX_ROUTERS
    ensures forall e :: e in AdvertisedUpTo(t, k) <==> exists i: nat :: i < k && t[i] == e && e.reachable
    ensures forall a, b | 0 <= a < b < |AdvertisedUpTo(t, k)| ::
              AdvertisedUpTo(t, k)[a].routerId < AdvertisedUpTo(t, k)[b].routerId
  {
    if k > 0 {
      AdvertisedExactly(t, k - 1);
      var before, e := AdvertisedUpTo(t, k - 1), t[k - 1];
      forall a | 0 <= a < |before|
        ensures before[a].routerId < k - 1
      {
        assert before[a] in before;
      }
    }
  }

  // ---------------------------------------------------------------------
  // The table as the program keeps it: an array changed in place.
  // ---------------------------------------------------------------------

  class RoutingTable {
    const entries: array<RouteEntry>
    var ownRouterId: u8

    ghost predicate Valid() {
      entries.Length == MAX_ROUTERS
    }

    ghost function Contents(): Table
      requires Valid()
      reads this, entries
    {
      entries[..]
    }

    constructor ()
      ensures Valid() && fresh(entries) && Contents() == EMPTY_TABLE && ownRouterId == INVALID_ROUTER_ID
    {
      entries := new RouteEntry[MAX_ROUTERS](_ => EMPTY_ENTRY);
      ownRouterId := INVALID_ROUTER_ID;
    }

    method SetOwnRouterId(id: u8)
      modifies this
      ensures ownRouterId == id
    {
      ownRouterId := id;
    }

    method AddDirectNeighbor(id: u8, now: int)
      requires Valid()
      modifies entries
      ensures Contents() == AddDirect(old(Contents()), id, now)
    {
      if id >= MAX_ROUTERS { return; }
      entries[id] := DirectEntry(id, now);
    }

    method UpdateFromAdvertisement(n: u8, routes: seq<RouteEntry>, now: int)
      requires Valid()
      modifies entries
      ensures Contents() == Heard(old(Contents()), ownRouterId, n, routes, now)
    {
      AddDirectNeighbor(n, now);
      ghost var start := Contents();
      for k := 0 to |routes|
        invariant Contents() == MergeRoutes(start, ownRouterId, n, routes[..k], now)
      {
        assert routes[..k + 1][..k] == routes[..k];
        var nr := routes[k];
        if nr.routerId >= MAX_ROUTERS { continue; }
        if nr.routerId == ownRouterId { continue; }
        if !nr.reachable { continue; }
        var newCost: u8 := Min(nr.cost + 1, ROUTE_COST_INFINITE);
        var entry := entries[nr.routerId];
        if !entry.reachable || newCost < entry.cost || entry.nextHop == n {
          entries[nr.routerId] := RouteEntry(nr.routerId, n, newCost, newCost < ROUTE_COST_INFINITE, now);
        }
      }
      assert routes[..|routes|] == routes;
    }

    method GetNextHop(dest: u8) returns (hop: Option<u8>)
      requires Valid()
      ensures hop == NextHop(Contents(), dest)
    {
      if dest >= MAX_ROUTERS { return None; }
      if !entries[dest].reachable { return None; }
      return Some(entries[dest].nextHop);
    }

    method InvalidateRouter(id: u8)
      requires Valid()
      modifies entries
      ensures Contents() == Invalidated(old(Contents()), id)
      ensures forall i: nat | i < MAX_ROUTERS :: Contents()[i] ==
                var e := old(Contents())[i];
                if id < MAX_ROUTERS && (i == id || (e.nextHop == id && e.routerId != id))
                then RouteEntry(e.routerId, e.nextHop, ROUTE_COST_INFINITE, false, e.lastUpdated) else e
    {
      if id >= MAX_ROUTERS { return; }
      entries[id] := Dead(entries[id]);
      for i := 0 to MAX_ROUTERS
        invariant forall j: nat | j < MAX_ROUTERS ::
          entries[j] == if j < i then Invalidated(old(Contents()), id)[j]
                        else if j == id then Dead(old(entries[j])) else old(entries[j])
      {
        if entries[i].nextHop == id && entries[i].routerId != id {
          entries[i] := Dead(entries[i]);
        }
      }
    }

    method ExpireStaleRoutes(now: int, timeout: int)
      requires Valid()
      modifies entries
      ensures Contents() == Expired(old(Contents()), now, timeout)
      ensures forall i: nat | i < MAX_ROUTERS :: Contents()[i] ==
                var e := old(Contents())[i];
                if e.reachable && now - e.lastUpdated > timeout
                then RouteEntry(e.routerId, e.nextHop, ROUTE_COST_INFINITE, false, e.lastUpdated) else e
    {
      for i := 0 to MAX_ROUTERS
        invariant forall j: nat | j < MAX_ROUTERS ::
          entries[j] == if j < i then Expired(old(Contents()), now, timeout)[j] else old(entries[j])
      {
        if entries[i].reachable && now - entries[i].lastUpdated > timeout {
          entries[i] := Dead(entries[i]);
        }
      }
    }

    method GetAdvertisableRoutes() returns (routes: seq<RouteEntry>)
      requires Valid()
      ensures routes == Advertised(Contents())
    {
      routes := [];
      for i := 0 to MAX_ROUTERS
        invariant routes == AdvertisedUpTo(Contents(), i)
      {
        if entries[i].reachable && entries[i].routerId != INVALID_ROUTER_ID {
          routes := routes + [entries[i]];
        }
      }
    }
  }
}
