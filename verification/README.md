# A verified model of the mesh simulator

This project models the protocol and state logic of a Thread/Matter mesh simulator and proves
properties of it for all inputs, all reachable states and all runs. The program's step-by-step code is
modelled as classes and methods with loops, each proved equal to a function of the old state; the laws
are lemmas about those functions. What an operation changes, and what it leaves alone, is also stated
outright, apart from the function that computes it.

| module | what it models |
|---|---|
| Types, Bytes, Graphs | integer widths and clock units; little-endian numbers; walks and hop distance in directed graphs |
| Routing, Mesh | one router's 63-entry distance-vector table; N routers that hear, expire, invalidate and age |
| Convergence, StaleRoutes, CountToInfinity | convergence to the hop distance; walks along next hops; how false routes die out after any change of topology, and the mesh converges anew; bounded count-to-infinity |
| PathTracer, RouteAgreement | the breadth-first tracer over any directed graph; when it agrees with routing |
| Mle, Frame, ThreadNode | a routing message as bytes, as a frame, and as one step of the mesh |
| DataPath | what routers forward and whom the broker hands it to, over any number of forwardings |
| Broker, BrokerRuns | multi-hop relay, per-link counters, delay queue; conservation of frames |
| OfflineBuffer, DrainCursor | per-van deques as projections of one log; a consumer with a cursor |
| Tlv, IosTlv | the two TLV codecs, with container skipping and integer sign extension |
| LruCache | a dictionary over a doubly linked list on the heap, refining a list in recency order |
| PowerManager, PowerRuns, PowerHistory | staged shutdown against a battery, hard cutoff, boot; whole runs; what the event history tells |
| SessionPool | keepalive and exponential reconnect; a whole failing episode |
| Discovery, Srp | the service registry and the lease table, which must agree |

Instants are integers (nanoseconds where the program casts to milliseconds), durations integers.
What a clock, a random draw, a callback, a socket or a driver answers is a parameter. Integers keep the
program's width where it can matter (`u8` to `u64`, `i32`, `i64`, truncated lengths, wrapping counters).

## What the proofs found

Where the code does not do what its comments or the design say, the model follows the code.

- The tracer says that it mirrors what routing converges to (`src/thread/PathTracer.h:67-70`). It does so
  for every pair of routers exactly when every link is up in both directions or in neither: a router
  learns a route over the link towards itself, the tracer follows the link away from itself
  (`RouteAgreement.RoutingAgreesWithTracerIff`, with a two-node counterexample in `OneWayLinkDisagrees`).
  On any links a converged cost is the hop count of the trace back.
- A van whose id is the empty string defeats the buffer's total limit, because the empty id also means
  "no van found" (`OfflineBuffer.UnnamedVanDefeatsTotalLimit`); `PushKeepsLimits` gives the exact condition.
- An MLE message shorter than 16 bytes is heard as an empty advertisement of router 0, whatever it says
  (`Mle.SenderIsReadIff`). At router 0 itself that installs a live route to itself; at no other router
  does it break the table (`Mle.TruncatedReadsAsRouterZero`).
- An advertisement that lists its own sender breaks the freshness of every table when the last such
  listing has a cost of 1 to 14; with cost 0 it never does, and with cost 15 or more it does unless no
  live route is left through the sender (`Routing.SelfListingIff`; `Routing.HeardStaysFreshIff` covers
  every sender id). No table reached by hearings, expiries, invalidations and the passing of time sends one
  (`Mesh.AdvertisementsAreProper`). But a table that one of the events above or below has given a live
  route to its own router does, and so breaks every table that hears it next: after one short message at
  router 0 (`Mle.ShortMessageSpreads`), or after taking an id to which a route below cost 15 was held
  (`Routing.NewOwnIdSpreads`).
- `promoteToRouter` keeps the old table. That is harmless exactly when the table holds no live route to
  the new id (`Routing.NewOwnIdStaysFreshIff`), and a router that has heard the holder of the id does
  hold one (`Routing.NewOwnIdBreaksFreshness`).
- Without the tracer, which is the default, the broker hands a unicast frame to the first other connected
  node whatever its address. So while the connections stay as they are no such frame, however often it is
  forwarded, reaches any but the first two connected nodes (`DataPath.OnlyFirstTwoReceive`), and two
  routers with links to a third pass a frame for it to and fro for ever (`DataPath.ForwardedForEver`).
  `DataPath.KeptIff` says exactly when a router keeps a frame that it was handed. With the tracer a frame
  for a connected router is relayed to that router, if there is a route and no link drops it, and is kept
  there (`DataPath.TracerDelivers`).
- A comment in `scheduleShutdownSequence` (`src/thread/PowerManager.cpp:187`) reserves the last 20% of the
  battery for the last group. The code computes no such share: it spaces the groups evenly over one slot
  more than there are groups. With the program's three priorities the share is left all the same
  (`PowerRuns.ThreePrioritiesLeaveAFifth`). In general a fifth is left when the last group goes, for every
  battery life, exactly up to four groups, and all other groups have gone by then exactly up to nine
  (`PowerRuns.LastFifthReservedIff`).
- MAC payloads from 256 bytes on, TLV strings from 65536 bytes on and TLV tags from 8 on do not
  survive their codecs; the round trips are stated with exactly these conditions.

## Model

| member | source | states |
|---|---|---|
| Routing.RoutingTable.AddDirectNeighbor | src/thread/Routing.cpp:6-14 | a valid id gets a cost-1 route through itself stamped now; an id from 63 on changes nothing |
| Routing.RoutingTable.UpdateFromAdvertisement | src/thread/Routing.cpp:16-46 | the array afterwards is `Heard` of the array before, route by route in the order advertised |
| Routing.RoutingTable.GetNextHop | src/thread/Routing.cpp:48-53 | the next hop of a live route, nothing otherwise or out of range |
| Routing.RoutingTable.InvalidateRouter | src/thread/Routing.cpp:60-74 | exactly the router's entry and the entries that go through it become unreachable at cost 16, keeping id, next hop and time; every other entry is as it was; an id from 63 on changes nothing |
| Routing.RoutingTable.ExpireStaleRoutes | src/thread/Routing.cpp:76-83 | exactly the live entries older than the timeout become unreachable; every other entry is as it was |
| Routing.RoutingTable.GetAdvertisableRoutes | src/thread/Routing.cpp:85-93 | the live entries in order of id |
| Routing.RoutingTable.constructor | src/thread/Routing.h:13-23 | a new table has 63 unreachable entries of cost 16 and no own id |
| Routing.HeardKeepsFresh | src/thread/Routing.cpp:16-46 | hearing a sender that does not list itself keeps the freshness invariant, and the sender becomes a live direct neighbour |
| Routing.MergeRouteKeepsFresh | src/thread/Routing.cpp:22-45 | merging one route keeps freshness and the sender a direct neighbour heard now |
| Routing.InvalidatedKeepsFresh | src/thread/Routing.cpp:60-74 | invalidating keeps freshness and leaves no live route to or through the router |
| Routing.InvalidatedLiveIff | src/thread/Routing.cpp:60-74 | in a fresh table an entry is live after the loss of a router if and only if it was live, is not the router's and does not go through it; and then it is as it was |
| Routing.ExpiredKeepsFresh | src/thread/Routing.cpp:76-83 | expiring keeps freshness, so no live route survives the neighbour it goes through |
| Routing.ExpiredLiveIff | src/thread/Routing.cpp:76-83 | in a fresh table an entry is live after an expiry if and only if it was live and no older than the timeout; and then it is as it was, and so is the neighbour it goes through |
| Routing.EveryRunStaysFresh | src/thread/Routing.cpp:6-83 | after any sequence of the four mutators under a clock that does not run back: reachable iff cost below 16, and every live route goes through a live cost-1 neighbour updated no earlier than it |
| Routing.SelfListingBreaksFreshness | src/thread/Routing.cpp:22-45 | a sender whose last live listing of itself costs 1 to 14 breaks the freshness of every fresh table |
| Routing.SelfListingIff | src/thread/Routing.cpp:16-46 | after any advertisement the sender is a live cost-1 neighbour if and only if it does not list itself or last lists itself at cost 0; and the table is fresh if and only if that holds or no live route goes through the sender |
| Routing.HeardStaysFreshIff | src/thread/Routing.cpp:16-46 | for every sender id and every advertisement a fresh table stays fresh if and only if the sender is not its own router, and either no live route goes through the sender or the sender has a valid id and does not last list itself at a cost other than 0 |
| Routing.OwnRouteSpreads | src/thread/Routing.cpp:16-93 | a router with a route of cost 1 to 14 to itself advertises it, and breaks the freshness of every fresh table that hears it |
| Routing.MergeWithListings | src/thread/Routing.cpp:22-45 | the sender's entry ends as its last listing of itself makes it, and restoring it makes the table fresh |
| Routing.HearingOneselfIff | src/thread/Routing.cpp:6-14 | adding a direct neighbour keeps a table fresh if and only if the neighbour is not the table's own router |
| Routing.NewOwnIdStaysFreshIff | src/thread/ThreadNode.cpp:23-32 | a table stays fresh under a new own id if and only if it has no live route to it |
| Routing.NewOwnIdBreaksFreshness | src/thread/ThreadNode.cpp:23-32 | a router that heard the holder of an id and then takes that id has a table that was fresh and no longer is |
| Routing.NewOwnIdSpreads | src/thread/ThreadNode.cpp:23-32 | a router that takes an id to which it holds a route below cost 15 breaks every fresh table that hears its advertisement |
| Routing.AdvertisedIsProper | src/thread/Routing.cpp:85-93 | a fresh table advertises only its own live entries, each under its own id, never one to its owner |
| Routing.AdvertisedExactly | src/thread/Routing.cpp:85-93 | what is advertised is every live entry, each once, in ascending order of id |
| Routing.HearingIsEntrywise | src/thread/Routing.cpp:16-46 | hearing a fresh neighbour's whole advertised table changes each entry by the one-entry rule, independent of the others |
| Routing.HearingKeepsUnlessBetter | src/thread/Routing.cpp:22-45 | hearing a fresh neighbour changes an entry only for a strictly cheaper route, or because it was dead or goes through that neighbour, whose cost plus one it then takes, even a higher one, dead from 16 on; an equal cost changes nothing |
| Mesh.AdvertisementsAreProper | src/thread/Routing.cpp:85-93 | in a fresh mesh no router's advertisement lists the router itself |
| Mesh.StepKeepsFresh | src/thread/ThreadNode.cpp:50-99 | every step of any router keeps every table fresh |
| Mesh.EveryReachableMeshIsFresh | src/thread/ThreadNode.cpp:50-99 | every mesh reached from empty tables by any interleaving has every table fresh |
| Mesh.StepEntry | src/thread/Routing.cpp:16-83 | what any step does to any single entry of any router |
| CountToInfinity.WindowRaisesLeastCost | src/thread/Routing.cpp:22-83 | with d cut off from a set of routers, one window in which each of them expires later than the timeout raises the least cost to d held there by at least one, for every interleaving |
| CountToInfinity.EachWindowRaisesLeastCost | src/thread/Routing.cpp:22-83 | any number of windows raise it by at least their number |
| CountToInfinity.FifteenWindowsForget | src/thread/Routing.cpp:22-83 | after fifteen windows no router of the set has d reachable |
| CountToInfinity.FourteenWindowsAreNotEnough | src/thread/Routing.cpp:22-83 | for every timeout there are fourteen windows after which a cut-off destination is still reachable, at cost 15 |
| CountToInfinity.BounceRaisesByOne | src/thread/Routing.cpp:22-83 | two routers that hand a lost route to each other raise its cost by exactly one in a window |
| CountToInfinity.ForgottenStaysForgotten | src/thread/Routing.cpp:22-45 | and while the cut lasts none learns it again |
| CountToInfinity.LeastCostIsFalseAtLeast | src/thread/Routing.cpp:22-45 | the live routes to d held in a set cut off from d are exactly its false routes over the links that are left |
| StaleRoutes.HeardFalseFrom | src/thread/Routing.cpp:22-45 | a false route after a hearing is the one held before, or one learnt from a neighbour's false route that costs one less |
| StaleRoutes.WindowStep | src/thread/Routing.cpp:22-83 | inside a window a step keeps this: a false route at the least cost has not been renewed since the window began, and sits only in routers that have not yet expired late |
| StaleRoutes.WindowRun | src/thread/Routing.cpp:22-83 | from any point of a window, the rest of it raises the least cost of a false route by one |
| StaleRoutes.WindowRaisesFalse | src/thread/Routing.cpp:22-83 | over the links of any graph, one window in which each router of a set expires late raises the least cost of the false routes held there by at least one, for every interleaving |
| StaleRoutes.FifteenWindowsMakeHonest | src/thread/Routing.cpp:22-83 | from any fresh tables fifteen windows leave only routes that lead over the present links to where they claim to, at the cost they claim |
| StaleRoutes.Reconverges | src/thread/Routing.cpp:16-83 | after any change of topology, from any fresh tables: fifteen windows, then k rounds and any quiet steps, give every pair at distance 1 to k the exact cost; with fifteen rounds the mesh is converged |
| Convergence.StepKeepsHonest | src/thread/Routing.cpp:16-83 | every step keeps each live route leading over a link to a router from which the rest of its cost suffices |
| Convergence.CostsNeverBelowDistance | src/thread/Routing.cpp:16-46 | in every run over the links of a graph, with any expiry and invalidation, a live cost is at least the hop distance and below 16, so a destination sixteen or more hops away is never reachable |
| Convergence.HearingMakesExact | src/thread/Routing.cpp:22-45 | hearing a neighbour one hop closer whose cost is exact makes the entry exact |
| Convergence.QuietStepKeepsExact | src/thread/Routing.cpp:16-83 | no hearing, and no expiry while the router's neighbours are alive, makes an exact entry inexact |
| Convergence.PairBecomesExact | src/thread/Routing.cpp:16-46 | over any quiet run in which the pair is heard, the entry becomes exact and stays so |
| Convergence.ExactPersists | src/thread/Routing.cpp:16-83 | exact costs persist through any number of quiet steps |
| Convergence.RoundExtendsExact | src/thread/Routing.cpp:16-46 | a round in which each adjacent pair is heard, in any order and any number of times, extends exactness by one hop |
| Convergence.ConvergesToHopDistance | src/thread/Routing.cpp:16-46 | from empty tables, after k rounds and any further quiet steps, every pair at distance 1 to k has the exact cost (k up to 15) |
| Convergence.ConvergedCostIsDistance | src/thread/Routing.cpp:55-58 | once converged, a route of cost k exists if and only if the distance is k and below 16 |
| Convergence.NextHopsReachDestination | src/thread/Routing.cpp:48-53 | once converged, following next hops reaches the destination in exactly as many links as the cost, the cost falling by one at each, with no router twice |
| PathTracer.TracePath | src/thread/PathTracer.cpp:47-101 | the result is the trace: unreachable iff no walk over up-links exists, otherwise the hops of the least simple walk, fewest hops first and then smallest ids; the search and the walk-back terminate |
| PathTracer.Search | src/thread/PathTracer.cpp:58-80 | the queue discovers a breadth-first tree; it ends with the destination seen or every discovered node expanded |
| PathTracer.Expand | src/thread/PathTracer.cpp:67-80 | expanding one node by ascending id keeps the tree and adds exactly its undiscovered neighbours |
| PathTracer.WalkBack | src/thread/PathTracer.cpp:82-88 | the predecessors lead back to the source and give the tree path |
| PathTracer.BuildHops | src/thread/PathTracer.cpp:90-98 | one hop per link of the path |
| PathTracer.TraceIsChain | src/thread/PathTracer.cpp:82-98 | the hops of a trace join up from source to destination, each an up-link with the parameters of its own direction and the loss of those |
| PathTracer.WalksComeLater | src/thread/PathTracer.cpp:67-80 | every walk from the source is no earlier, in the shortlex order, than the tree path to its end |
| PathTracer.TreePathIsLeast | src/thread/PathTracer.cpp:58-88 | the tree path is a simple walk and the least of all walks to its end |
| PathTracer.UndiscoveredIsUnreachable | src/thread/PathTracer.cpp:67-82 | a node not discovered when the queue is empty has no walk to it |
| PathTracer.DiscoveryOrder | src/thread/PathTracer.cpp:67-80 | nodes are discovered in the shortlex order of their tree paths |
| PathTracer.TraceIsUnique | src/thread/PathTracer.cpp:47-101 | the topology and the end points determine the trace |
| PathTracer.TraceCountsDistance | src/thread/PathTracer.cpp:47-101 | a trace has k hops if and only if the hop distance is k |
| RouteAgreement.ConvergedCostIsTraceBack | src/thread/PathTracer.h:67-70 | on any links, a converged cost below 16 is the hop count of the trace from the destination back to the router, and there is a route iff that trace is that short |
| RouteAgreement.RoutingAgreesWithTracerIff | src/thread/PathTracer.h:67-70 | routing and tracer agree on every pair if and only if the up-links are symmetric |
| RouteAgreement.NextHopsMirrorTrace | src/thread/PathTracer.h:67-70 | on symmetric links the walk along next hops has the hop count of the trace |
| RouteAgreement.OneWayLinkDisagrees | src/thread/PathTracer.h:67-70 | two routers joined by a one-way link: the trace exists, the route never does |
| Mle.SerializeAdvertisement | src/thread/MLE.cpp:23-57 | the bytes of an advertisement, byte by byte, with the route count cut to eight bits |
| Mle.DeserializeAdvertisement | src/thread/MLE.cpp:59-98 | what any bytes parse to, including short, mistyped and truncated ones |
| Mle.ParsedRoutesAre | src/thread/MLE.cpp:88-95 | as many routes as announced and as there are whole pairs of bytes for, each live if and only if its cost is below 16 |
| Mle.AdvertisementRoundTrip | src/thread/MLE.cpp:23-98 | with fewer than 256 routes every header field and every id and cost come back |
| Mle.MergingReceived | src/thread/ThreadNode.cpp:84-91 | merging the received routes equals merging the sent ones, when those are live |
| Mle.SenderIsReadIff | src/thread/MLE.cpp:59-71 | the sender is read from the message if and only if it has at least 16 bytes (or names router 0 anyway); a shorter one is read as the empty advertisement |
| Mle.TruncatedReadsAsRouterZero | src/thread/MLE.cpp:59-71 | a message of 1 to 15 bytes that reaches the parser makes router 0 a direct neighbour and does nothing else, and breaks the freshness of a table if and only if the table is router 0's own |
| Mle.ShortMessageSpreads | src/thread/MLE.cpp:59-71 | after one short message router 0 lists itself at cost 1, and breaks the freshness of every fresh table that hears it next |
| Frame.Serialize | src/net/Frame.h:65-79 | the bytes of a MAC frame, with the payload length cut to eight bits |
| Frame.Deserialize | src/net/Frame.h:81-94 | what any bytes parse to; too short a frame is the default frame |
| Frame.FrameLayout | src/net/Frame.h:65-79 | where each field of a frame stands in its bytes |
| Frame.FrameRoundTrip | src/net/Frame.h:65-94 | a frame comes back, up to what the receiver resets, if and only if its payload is below 256 bytes; what comes back of the payload otherwise |
| Frame.WireHeaderRoundTrip | src/net/Frame.h:25-43 | every wire header comes back from its twelve bytes whatever follows; where each field stands |
| Types.RlocHoldsBoth | src/core/Types.h:32-42 | an address of a router id below 64 and a child id below 1024 holds both |
| Types.ToMsTruncates | src/thread/SRP.h:31 | the cast to milliseconds drops what is over on either side of zero |
| Bytes.LeDigit | src/matter/TLV.cpp:27-32 | byte i of a little-endian number is its digit to the base 256 |
| ThreadNode.ThreadNode.PromoteToRouter | src/thread/ThreadNode.cpp:23-32 | a full device takes the id, its RLOC and the role and keeps its table; any other device is unchanged |
| ThreadNode.ThreadNode.Tick | src/thread/ThreadNode.cpp:50-72 | a frame is sent if and only if the node is a router or leader that has not advertised yet or not for the interval: one broadcast from its own address of the table as it was before expiry, and both counters advance; then stale routes expire; a detached node does nothing |
| ThreadNode.ThreadNode.SendMLEAdvertisement | src/thread/ThreadNode.cpp:122-136 | the frame sent, with the frame counter advanced before and the sequence number after, both wrapping |
| ThreadNode.ThreadNode.OnFrameReceived | src/thread/ThreadNode.cpp:74-120 | an advertisement is merged under its parsed sender; any other frame leaves the table alone, and is sent on if and only if the node is a router or leader, the frame is for another address and there is a live route: one frame with the same payload, from the node's own address to its next hop |
| ThreadNode.AdvertisementFitsFrame | src/thread/MLE.cpp:23-57 | the advertisement of a fresh table is at most 17 + 2 * 63 = 143 bytes |
| ThreadNode.AdvertisementSurvivesWire | src/thread/ThreadNode.cpp:84-136 | table to message to bytes to frame to bytes and back yields the same sender, ids, costs and reachability, and merging it equals merging the sender's routes |
| ThreadNode.AdvertisementArrives | src/thread/ThreadNode.cpp:84-136 | field by field: sender id, addresses, counters, broadcast address, and every live route with its id and cost |
| ThreadNode.FrameIsHearStep | src/thread/ThreadNode.cpp:84-91 | so receiving the frame of n is exactly the mesh step in which r hears n |
| DataPath.RouterForwardsIff | src/thread/ThreadNode.cpp:101-120 | in a converged mesh a router forwards a data frame for another router if and only if that is less than sixteen hops away, and straight to it if and only if there is a link |
| DataPath.OnlyFirstTwoReceive | src/net/Broker.cpp:337-348 | without the tracer, over any number of forwardings between any tables, a unicast frame is handed only to the first two connected nodes |
| DataPath.KeptIff | src/thread/ThreadNode.cpp:101-120 | a router of a converged mesh handed a frame for router h keeps it if and only if it is h or h is sixteen or more hops away, as long as there is another node to hand it to |
| DataPath.ForwardedForEver | src/thread/ThreadNode.cpp:101-120 | without the tracer, two routers that are connected first and have links to a third pass a frame for it to and fro without end |
| DataPath.TracerDelivers | src/net/Broker.cpp:322-328 | with the tracer a frame for a connected router is handed to that router, which does not forward it |
| Broker.Broker.SetLinkParams | src/net/Broker.cpp:41-45 | exactly one directed link changes, none out of range, and the accounts stay valid |
| Broker.Broker.Connect | src/net/Broker.cpp:275-277 | the node is sent to from now on |
| Broker.Broker.Disconnect | src/net/Broker.cpp:246-249 | a node whose socket closed or failed is no longer sent to |
| Broker.Broker.constructor | src/net/Broker.cpp:13-22 | every counter starts at zero and the accounts balance |
| Broker.Broker.Route | src/net/Broker.cpp:392-407 | for any ids, the least walk over up-links, or nothing when there is none |
| Broker.Broker.RelayMultiHop | src/net/Broker.cpp:409-453 | the frame goes along the least walk until a crossing fails, or counts as dropped for lack of a route; per-link counters, totals and delay queue all follow |
| Broker.RelayedToMeans | src/net/Broker.cpp:409-415 | if no walk exists one more frame is dropped and no link is charged; otherwise the frame goes along the one least walk |
| Broker.RelayOutcome | src/net/Broker.cpp:417-452 | a relay is lost if any crossing of its path fails; otherwise it waits for the sum of the delays of all of them, or is handed over at once if that is zero |
| Broker.SurvivedIsFirst | src/net/Broker.cpp:422-436 | the crossing that fails is the first that fails |
| Broker.DelaysAdd | src/net/Broker.cpp:439 | the accumulated delay is the sum of the delays |
| Broker.Broker.RelayAlong | src/net/Broker.cpp:417-453 | the per-link counters after a relay are `Relay` of those before; a survivor is queued at the sum of its delays, or handed over at once if there was none; exactly one frame is settled |
| Broker.Broker.CrossLink | src/net/Broker.cpp:422-439 | a crossing charges exactly one forward or one drop to its link, the drop also to the total |
| Broker.Broker.SendDirect | src/net/Broker.cpp:350-389 | one copy over the direct link, with the tracer on or off: dropped if the link is down or the crossing fails, otherwise queued at its own delay, or handed over; with the tracer exactly that link is charged |
| Broker.Broker.EndFrame | src/net/Broker.cpp:447-452 | a frame at its end is queued at its delay or handed over, and settled once |
| Broker.Broker.Destinations | src/net/Broker.cpp:330-348 | the targets ascend; of a broadcast they are exactly the other connected nodes, of a unicast only the least of them; there is none if and only if no other node is connected |
| Broker.TargetsAre | src/net/Broker.cpp:330-348 | in ascending order, every other connected node for a broadcast, the least of them for a unicast |
| Broker.BroadcastCounts | src/net/Broker.cpp:350-389 | of copies that the channel passes at once, those over an up-link to a node that takes them are counted as forwarded, those over a down-link as dropped, and nothing is queued |
| Broker.Broker.ForwardFrame | src/net/Broker.cpp:313-390 | which frames are relayed and which sent directly to whom; the accounts, totals and delay queue that result, each copy with its own crossing and send result; a broadcast whose copies all pass at once counts as many forwards as other connected nodes behind up-links take it, and as many drops as there are behind down-links |
| Broker.Broker.DeliverToNode | src/net/Broker.cpp:464-490 | a frame is counted as forwarded exactly when its node is connected and the send succeeds |
| Broker.Broker.DeliverDelayed | src/net/Broker.cpp:455-462 | exactly the frames due by now leave the queue, earliest first; as many are counted as go to a connected node and are sent |
| Broker.ForwardMoves | src/net/Broker.cpp:438 | a forward on (u, v) moves the open account from u to v and disturbs no other node |
| Broker.DropCloses | src/net/Broker.cpp:424-436 | a drop on (u, v) closes the account of u and adds one to the drops |
| Broker.InjectOpens | src/net/Broker.cpp:409-418 | injecting a frame opens the account of its source and no other |
| Broker.EndCloses | src/net/Broker.cpp:447-452 | ending a frame closes the account of its node and adds one to the ends |
| BrokerRuns.TrafficConserves | src/net/Broker.cpp:313-453 | any one frame, relayed, sent or without a route, keeps the conservation law |
| Broker.RelayBalances | src/net/Broker.cpp:417-453 | an injected frame relayed along any path with any outcomes leaves every node balanced and adds exactly one to drops plus ends |
| Broker.RelayCharges | src/net/Broker.cpp:417-453 | for each link whether a relay added a forward or a drop to it: the links up to the failing one, and the failing one |
| BrokerRuns.EveryRunConserves | src/net/Broker.cpp:313-453 | in every run, under changing topologies and any outcomes, at each node in plus injected equals out plus dropped plus ended, and all injected frames were dropped on links or ended |
| OfflineBuffer.OfflineBuffer.Push | src/gateway/OfflineBuffer.cpp:10-24 | the log becomes append, then that van's oldest over its limit dropped, then heads over the total dropped; with room under both limits it is the old log and the new event, and with positive limits the new event is last; ids never repeat |
| OfflineBuffer.OfflineBuffer.EnforcePerVanLimit | src/gateway/OfflineBuffer.cpp:105-111 | of the van its newest events up to its limit remain, of every other van all |
| OfflineBuffer.OfflineBuffer.EnforceTotalLimit | src/gateway/OfflineBuffer.cpp:113-129 | the newest events remain, no fewer than the total limit unless there were fewer, and no more unless the first is of the unnamed van |
| OfflineBuffer.OfflineBuffer.FindOldest | src/gateway/OfflineBuffer.cpp:116-124 | scanning the deques in any order finds the van of the log's head |
| OfflineBuffer.OfflineBuffer.Drain | src/gateway/OfflineBuffer.cpp:26-38 | that van's events after the cursor, in order |
| OfflineBuffer.OfflineBuffer.DrainAll | src/gateway/OfflineBuffer.cpp:54-69 | the events of the whole log after the cursor, in log order |
| OfflineBuffer.OfflineBuffer.Clear | src/gateway/OfflineBuffer.cpp:71-77 | removes exactly that van's events and corrects the count |
| OfflineBuffer.OfflineBuffer.ClearAll | src/gateway/OfflineBuffer.cpp:79-82 | the log is empty, ids go on |
| OfflineBuffer.OfflineBuffer.Evict | src/gateway/OfflineBuffer.cpp:84-94 | for each van, its events before the cutoff up to its first later one go, whatever the order of the vans; if each van's events are in order of time, exactly the events no older than the maximum age remain |
| OfflineBuffer.HeadIsSmallestFront | src/gateway/OfflineBuffer.cpp:116-124 | the head of the log is the front of its van's deque, and every other front has a larger id |
| OfflineBuffer.AppendHolds | src/gateway/OfflineBuffer.cpp:12-20 | appending to one deque keeps every deque its van's projection of the log and the count its length |
| OfflineBuffer.DropFirstHolds | src/gateway/OfflineBuffer.cpp:105-111 | so does dropping the front of one deque |
| OfflineBuffer.WithoutHolds | src/gateway/OfflineBuffer.cpp:71-77 | so does erasing a deque, and a van without one has no events |
| OfflineBuffer.AgedHolds | src/gateway/OfflineBuffer.cpp:86-93 | so does evicting from the front of one deque |
| OfflineBuffer.SortById | src/gateway/OfflineBuffer.cpp:63-68 | the same events in ascending order of id |
| OfflineBuffer.PushKeepsLimits | src/gateway/OfflineBuffer.cpp:105-129 | a push keeps the per-van limit, and afterwards the total limit holds if and only if the events that must go all belong to named vans |
| OfflineBuffer.TrimVanKeepsLatest | src/gateway/OfflineBuffer.cpp:105-111 | of a van over its limit the newest events remain, as many as the limit |
| OfflineBuffer.TrimTotalIs | src/gateway/OfflineBuffer.cpp:113-129 | the oldest events go, no more than has to, up to the first of the unnamed van |
| OfflineBuffer.PushKeepsLatest | src/gateway/OfflineBuffer.cpp:10-24 | with room under both limits a push leaves the old log and the new event; with positive limits the new event stays; before the total limit its van keeps its newest events up to its limit and the others all |
| OfflineBuffer.DropOldIs | src/gateway/OfflineBuffer.cpp:84-94 | eviction takes a van's events from the front as long as they are before the cutoff |
| OfflineBuffer.AgedExactly | src/gateway/OfflineBuffer.cpp:84-94 | if each van's events are in order of time, exactly those not before the cutoff remain |
| OfflineBuffer.UnnamedVanDefeatsTotalLimit | src/gateway/OfflineBuffer.cpp:125 | two pushes that leave the log over its total limit |
| OfflineBuffer.AgedOneMore | src/gateway/OfflineBuffer.cpp:84-94 | evicting van by van is evicting all vans at once |
| DrainCursor.ActKeepsConsistent | src/gateway/OfflineBuffer.cpp:10-94 | every action keeps each pushed event in exactly one place: delivered, waiting or lost |
| DrainCursor.EveryEventOnceOrLost | src/gateway/OfflineBuffer.cpp:54-94 | under any interleaving of pushes, evictions, clears and drains the consumer gets strictly increasing ids, and after a drain each pushed event was delivered or removed before, never both |
| DrainCursor.LostOnlyForAReason | src/gateway/OfflineBuffer.cpp:10-129 | an event is lost only because its van or the whole buffer was full at a push, its van was cleared, or it was too old at an eviction; and never one the consumer has been given |
| DrainCursor.NothingLostWithRoom | src/gateway/OfflineBuffer.cpp:10-69 | while the pushes fit both limits, however pushes and drains alternate, the consumer ends up with exactly what was pushed, once each and in order |
| DrainCursor.ActKeepsVanLimit | src/gateway/OfflineBuffer.cpp:10-111 | every push, clear, eviction and drain keeps every van within its limit |
| DrainCursor.ActKeepsTotalLimit | src/gateway/OfflineBuffer.cpp:10-129 | and, as long as vans have names, the buffer within its total limit |
| DrainCursor.EveryRunWithinLimits | src/gateway/OfflineBuffer.cpp:10-129 | in every run from an empty buffer no van exceeds its limit; and if no push has an empty van id the buffer never exceeds its total limit |
| Tlv.TLVWriter.WriteUint64 | src/matter/TLV.cpp:34-39 | appends the encoding of an eight-byte unsigned element |
| Tlv.TLVWriter.WriteUint8 | src/matter/TLV.cpp:14-18 | appends the encoding of a one-byte unsigned element |
| Tlv.TLVWriter.WriteUint16 | src/matter/TLV.cpp:20-25 | appends the encoding of a two-byte unsigned element |
| Tlv.TLVWriter.WriteUint32 | src/matter/TLV.cpp:27-32 | appends the encoding of a four-byte unsigned element |
| Tlv.TLVWriter.WriteBool | src/matter/TLV.cpp:50-54 | appends the encoding of a boolean as one byte |
| Tlv.TLVWriter.WriteBytes | src/matter/TLV.cpp:64-70 | appends the encoding of a byte string, its length cut to sixteen bits |
| Tlv.TLVWriter.WriteNull | src/matter/TLV.cpp:72-74 | appends the encoding of a null |
| Tlv.TLVWriter.WriteOpenStructure | src/matter/TLV.cpp:76-78 | appends the opening of a structure |
| Tlv.TLVWriter.WriteOpenArray | src/matter/TLV.cpp:80-82 | appends the opening of an array |
| Tlv.TLVWriter.WriteCloseContainer | src/matter/TLV.cpp:84-86 | appends the close of a container |
| Tlv.TLVWriter.WriteInt32 | src/matter/TLV.cpp:41-48 | appends the encoding of a four-byte signed element |
| Tlv.TLVWriter.WriteString | src/matter/TLV.cpp:56-62 | appends the encoding of a string, its length cut to sixteen bits |
| Tlv.OctetsOnTheWire | src/matter/TLV.cpp:9-86 | the octets of every call: type in the low five bits, tag in the high three, length before value |
| Tlv.TLVReader.Next | src/matter/TLV.cpp:90-139 | where the element read starts and ends, its tag and its type, for any bytes; a length that is cut off reads as an empty value |
| Tlv.TLVReader.ExitContainer | src/matter/TLV.cpp:193-209 | the cursor after reading on until the depth returns to zero or the data ends |
| Tlv.ElementRoundTrip | src/matter/TLV.cpp:9-139 | an element the codec can carry is read back with its tag, type and value, and the cursor just past it |
| Tlv.ElementRoundTripIff | src/matter/TLV.cpp:9-139 | alone in its buffer, if and only if its tag is below 8 and its string below 65536 bytes |
| Tlv.ReadingReturnsWritten | src/matter/TLV.cpp:9-139 | reading element by element returns everything written, in order |
| Tlv.SkipCalls | src/matter/TLV.cpp:193-209 | skipping passes over any sequence of written elements, keeping the depth they leave |
| Tlv.TreeStays | src/matter/TLV.cpp:193-209 | the calls of a well-nested tree never close the container they stand in and end at its depth |
| Tlv.ExitReachesMatchingClose | src/matter/TLV.cpp:189-209 | leaving a container just after opening it puts the cursor just past its matching close, however deeply it nests |
| Tlv.GettersReduceToWidth | src/matter/TLV.cpp:141-166 | each unsigned getter returns a value of any written width reduced to its own width |
| Tlv.Int32RoundTrip | src/matter/TLV.cpp:168-173 | a signed integer comes back with its sign |
| IosTlv.SignedCode | ios/MatterAI/Core/TLVCodec.cpp:58-72 | the width written is the narrowest of 1, 2, 4, 8 bytes that holds the signed value |
| IosTlv.UnsignedCode | ios/MatterAI/Core/TLVCodec.cpp:74-88 | the same for unsigned values |
| IosTlv.Writer.WriteInt | ios/MatterAI/Core/TLVCodec.cpp:58-72 | appends the encoding of the signed element |
| IosTlv.Writer.WriteUint | ios/MatterAI/Core/TLVCodec.cpp:74-88 | appends the encoding of the unsigned element |
| IosTlv.Writer.WriteString | ios/MatterAI/Core/TLVCodec.cpp:97-106 | appends the string in its one-byte or two-byte length form |
| IosTlv.Writer.WriteBytes | ios/MatterAI/Core/TLVCodec.cpp:108-117 | appends the bytes in their one-byte or two-byte length form |
| IosTlv.Writer.WriteStructure | ios/MatterAI/Core/TLVCodec.cpp:42-44 | appends the opening of a structure |
| IosTlv.Writer.WriteArray | ios/MatterAI/Core/TLVCodec.cpp:46-48 | appends the opening of an array |
| IosTlv.Writer.WriteEnd | ios/MatterAI/Core/TLVCodec.cpp:50-52 | appends the end of a container, without a tag |
| IosTlv.Writer.WriteBool | ios/MatterAI/Core/TLVCodec.cpp:54-56 | appends a boolean carried by its type |
| IosTlv.Writer.WriteFloat | ios/MatterAI/Core/TLVCodec.cpp:90-95 | appends the bit pattern of a float |
| IosTlv.Writer.WriteNull | ios/MatterAI/Core/TLVCodec.cpp:119-121 | appends a null |
| IosTlv.OctetsOnTheWire | ios/MatterAI/Core/TLVCodec.cpp:31-121 | the octets of the calls without a value, tagged or not |
| IosTlv.ValueOnTheWire | ios/MatterAI/Core/TLVCodec.cpp:31-117 | the control octet of the calls with a value, the tag, and the bytes that follow |
| IosTlv.Reader.ReadNumber | ios/MatterAI/Core/TLVCodec.cpp:131-156 | the little-endian number of n bytes at the cursor, or a failure if they are not all there |
| IosTlv.Reader.Next | ios/MatterAI/Core/TLVCodec.cpp:158-252 | the element at the cursor, the end of data, or which failure, and the depth |
| IosTlv.DecodeAll | ios/MatterAI/Core/TLVCodec.cpp:254-261 | every element from the start, or the failure, and the final depth |
| IosTlv.NumberMeaning | ios/MatterAI/Core/TLVCodec.cpp:58-95 | sign or zero extension of the written number gives the value meant, for every width |
| IosTlv.ElementRoundTrip | ios/MatterAI/Core/TLVCodec.cpp:31-252 | each writer call is read back as the element it means |
| IosTlv.MeaningHolds | ios/MatterAI/Core/TLVCodec.cpp:42-121 | the element a call means holds its tag and the value it was given |
| IosTlv.DecodingReturnsWritten | ios/MatterAI/Core/TLVCodec.cpp:31-261 | for every list of calls with strings below 65536 bytes, decoding returns the same elements and a depth of opens less closes |
| IosTlv.ElementRoundTripIff | ios/MatterAI/Core/TLVCodec.cpp:31-252 | any call alone in its buffer is read back as the element it means if and only if its string or byte string, if any, is below 65536 bytes |
| IosTlv.CutIsNotRead | ios/MatterAI/Core/TLVCodec.cpp:131-252 | an encoded call cut anywhere is never read as an element |
| IosTlv.FailureIff | ios/MatterAI/Core/TLVCodec.cpp:131-252 | for any bytes: a read throws if and only if the tag, the number or the length runs past the data, and a text runs past it if and only if its length says so |
| IosTlv.DoubleIsRead | ios/MatterAI/Core/TLVCodec.cpp:210-214 | a double, which the writer never writes, is read from its eight bytes |
| LruCache.LRUCache.Get | ios/MatterAI/Core/Questions/Leetcode.swift:183-188 | returns what the list holds and moves a hit to the front; links, dictionary and ends stay consistent; no node is added |
| LruCache.LRUCache.Set | ios/MatterAI/Core/Questions/Leetcode.swift:190-203 | the contents become the new pair in front of the rest, cut to the capacity, for any capacity; every node is an old one or new |
| LruCache.Replay | ios/MatterAI/Core/Questions/Leetcode.swift:161-230 | any run of gets and sets on a new cache leaves the contents and returns the answers of the list in recency order |
| LruCache.LRUCache.AddToFront | ios/MatterAI/Core/Questions/Leetcode.swift:210-216 | links the node in front and keeps prev, next, head and tail consistent |
| LruCache.LRUCache.Unlink | ios/MatterAI/Core/Questions/Leetcode.swift:218-223 | takes the node out wherever it stands and keeps prev, next, head and tail consistent |
| LruCache.LRUCache.MoveToFront | ios/MatterAI/Core/Questions/Leetcode.swift:205-208 | the node comes first, the others keep their order |
| LruCache.LRUCache.RemoveLRU | ios/MatterAI/Core/Questions/Leetcode.swift:225-229 | the last node goes from list and dictionary alike |
| LruCache.CountsAgree | ios/MatterAI/Core/Questions/Leetcode.swift:199 | the dictionary has as many keys as the list has nodes |
| LruCache.GetKeepsWellFormed | ios/MatterAI/Core/Questions/Leetcode.swift:183-188 | a get keeps keys distinct and the list within the capacity |
| LruCache.GetKeepsLookups | ios/MatterAI/Core/Questions/Leetcode.swift:183-188 | a get changes what is found for no key |
| LruCache.SetEvictsLeastRecent | ios/MatterAI/Core/Questions/Leetcode.swift:190-203 | a set key is found with its value, and only the least recently used entry is ever pushed out |
| LruCache.RecentKeySurvives | ios/MatterAI/Core/Questions/Leetcode.swift:183-229 | over any run, a key keeps its value while fewer than capacity other keys are used |
| LruCache.UsedKeySurvives | ios/MatterAI/Core/Questions/Leetcode.swift:183-229 | a key just read or set keeps its value over any run in which fewer than capacity other keys are used |
| PowerManager.PowerManager.RegisterNode | src/thread/PowerManager.cpp:7-16 | a new id is appended with its priority, on exactly when the engine is on; a known id changes nothing |
| PowerManager.PowerManager.InitiateShutdown | src/thread/PowerManager.cpp:26-40 | only with the engine on: the nodes sorted by priority, each due at as many shares of the battery life as there are distinct priorities up to its own, one share more than there are priorities making up the whole |
| PowerManager.PowerManager.HardCutoff | src/thread/PowerManager.cpp:42-61 | unless already off: every node that is on goes off unclean, counted as cut and recorded; the others are as they were |
| PowerManager.PowerManager.InitiateBoot | src/thread/PowerManager.cpp:63-73 | only when off: the nodes sorted by descending priority, each due at as many steps as there are distinct priorities from its own up |
| PowerManager.PowerManager.Tick | src/thread/PowerManager.cpp:75-143 | the whole new state: cutoff at the battery's end, otherwise the due nodes shut down or booted, with counters and history |
| PowerManager.PowerManager.TickShutdown | src/thread/PowerManager.cpp:84-115 | exactly the due nodes go off, clean as their callback answers, in list order, each counted and recorded twice; the others are as they were; the system is off if and only if all are |
| PowerManager.PowerManager.TickBoot | src/thread/PowerManager.cpp:116-142 | exactly the due nodes go on, each recorded twice; the others are as they were; the engine is on if and only if all are |
| PowerManager.SortByPriority | src/thread/PowerManager.cpp:173-175 | a permutation in order of priority |
| PowerManager.ScheduleShutdown | src/thread/PowerManager.cpp:171-202 | the schedule of each node, group by group, by the list of distinct priorities |
| PowerManager.ScheduleBoot | src/thread/PowerManager.cpp:204-220 | the schedule of each node by the running boot instant |
| PowerManager.ShutdownDueAt | src/thread/PowerManager.cpp:171-202 | for any battery life each node is due at the start plus the number of distinct priorities no greater than its own times the battery life divided by one more than the number of distinct priorities; nothing else of it changes |
| PowerManager.BootDueAt | src/thread/PowerManager.cpp:204-220 | each node boots three seconds after the start for every distinct priority no smaller than its own; nothing else of it changes |
| PowerRuns.EveryRunSettled | src/thread/PowerManager.cpp:7-143 | in every run the engine being on means every node on, the system being off means every node off |
| PowerRuns.ScheduleFollowsPriority | src/thread/PowerManager.cpp:185-201 | no node is due after one of a later priority, and none after the last group's instant |
| PowerRuns.StagesApart | src/thread/PowerManager.cpp:185-201 | in a shutdown just begun nodes of one priority are due together, nodes of a later priority at least one share of the battery life later |
| PowerRuns.LastGroupBeforeBatteryEnds | src/thread/PowerManager.cpp:185-201 | for any number of groups and any positive battery life the last group is due strictly before the battery ends |
| PowerRuns.ByFourFifthsIff | src/thread/PowerManager.cpp:186-201 | exactly for which battery lives the k-th group goes within the first four fifths, by quotient and remainder of the division |
| PowerRuns.LastFifthReservedIff | src/thread/PowerManager.cpp:186-201 | for every battery life a fifth is left when the last group goes if and only if there are at most four groups, and all others go before if and only if there are at most nine |
| PowerRuns.ThreePrioritiesLeaveAFifth | src/thread/PowerManager.cpp:186-201 | with priorities 0 to 2 there are at most three groups, and a fifth of any battery life is left when the last goes |
| PowerRuns.StepKeepsUnderway | src/thread/PowerManager.cpp:42-115 | every action but a boot keeps the accounts and the order of a shutdown in progress |
| PowerRuns.ShutdownAccounts | src/thread/PowerManager.cpp:26-115 | at every moment of a shutdown: graceful and cut counts and the nodes still on add up to the nodes on at its start; graceful shutdowns are in priority order even when one late tick covers several groups; every cut node has a strictly later priority than every node shut down |
| PowerRuns.TimelyTickFinishesGracefully | src/thread/PowerManager.cpp:75-115 | without external cutoff, a tick between the last group's instant and the battery's end, none being at or past the end before, leaves every node gracefully off and none cut |
| PowerRuns.GoesAtItsInstant | src/thread/PowerManager.cpp:26-105 | over a whole shutdown while the battery lasts: a node is on if and only if every tick so far came before the instant it was scheduled for |
| PowerRuns.BatteryEndCutsTheRest | src/thread/PowerManager.cpp:75-115 | a tick at or past the battery's end, to the nanosecond, cuts exactly the nodes still on; an earlier one cuts none and shuts down exactly those due |
| PowerRuns.BootFollowsPriority | src/thread/PowerManager.cpp:204-220 | higher priorities boot a whole step before lower ones, equal ones together |
| PowerRuns.BootCompletes | src/thread/PowerManager.cpp:116-142 | a first tick once the last group is due leaves the engine and every node on |
| PowerRuns.BootEndsAtLastGroup | src/thread/PowerManager.cpp:63-142 | over any run without a cutoff, with ticks, registrations and refused requests in between: the boot lasts until the first tick at or past the last group's instant, and that tick turns the engine and every node on |
| PowerRuns.StepKeepsBootPending | src/thread/PowerManager.cpp:75-142 | no action but a cutoff or a tick at or past the last group's instant ends a boot |
| PowerHistory.CutRecorded | src/thread/PowerManager.cpp:42-61 | a cutoff adds one event for each node cut, saying so, and the system's, all of its instant |
| PowerHistory.TickRecorded | src/thread/PowerManager.cpp:75-143 | the events a tick adds tell of each node that its power changed, and to what, if and only if it did; as many as are counted, each shutdown and boot started and completed for the same node; and of the system that it went off or on if and only if it did |
| PowerHistory.EveryRunAccounted | src/thread/PowerManager.cpp:7-143 | in every run no id is registered twice, and the history tells as many graceful shutdowns and hard cutoffs as are counted, each shutdown and boot started and completed |
| SessionPool.CalculateBackoff | src/gateway/SessionPool.cpp:154-160 | the doubling loop returns base times a power of two, capped at the maximum |
| SessionPool.BackoffGrows | src/gateway/SessionPool.cpp:154-160 | backoffs never shrink and never exceed the maximum |
| SessionPool.BackoffDoubles | src/gateway/SessionPool.cpp:154-160 | the first delay is the base and each later one twice the one before, none above the maximum |
| SessionPool.CASESessionPool.Connect | src/gateway/SessionPool.cpp:15-42 | the session opened as of now, or failed with a retry instant, one CASE call, no other session touched |
| SessionPool.CASESessionPool.Tick | src/gateway/SessionPool.cpp:89-108 | every session moves by its own state and answer, in any order, and which sessions make a CASE call |
| SessionPool.CASESessionPool.AttemptReconnect | src/gateway/SessionPool.cpp:130-152 | with no attempts left the session fails without a CASE call; otherwise it is connected as of now with one reconnection more, or waits for the backoff of the attempt |
| SessionPool.CASESessionPool.SendKeepalive | src/gateway/SessionPool.cpp:162-175 | a success counts as activity; a failure starts reconnecting after the base delay |
| SessionPool.FailedKeepaliveStartsEpisode | src/gateway/SessionPool.cpp:89-108 | a due keepalive leaves the session reconnecting if and only if it failed and the session had not gone idle |
| SessionPool.EpisodeFrom | src/gateway/SessionPool.cpp:130-152 | from any point of a failing episode: how many attempts remain, when it ends, how many calls it makes |
| SessionPool.FailingEpisode | src/gateway/SessionPool.cpp:130-175 | an episode of failures becomes Failed exactly at its (max + 1)-th due tick, after exactly max CASE calls, no earlier than its start plus base plus the sum of all backoffs |
| SessionPool.EpisodeRecoversIff | src/gateway/SessionPool.cpp:130-152 | the first successful answer ends an episode connected, as of that tick, if and only if fewer failures than the maximum came before; after as many it fails whatever the answer |
| SessionPool.KeepalivesKeepConnected | src/gateway/SessionPool.cpp:89-175 | a session whose keepalives succeed stays connected over any ticks, if keepalives are due no later than idleness is noticed |
| Discovery.ServiceRegistry.RegisterService | src/net/Discovery.cpp:7-21 | the first record of the same node and name is replaced by the new one, otherwise it is appended; nothing else changes |
| Discovery.ServiceRegistry.UnregisterService | src/net/Discovery.cpp:23-32 | exactly the records of that node and name go |
| Discovery.ServiceRegistry.UnregisterNode | src/net/Discovery.cpp:34-41 | exactly the records of that node go |
| Discovery.ServiceRegistry.Resolve | src/net/Discovery.cpp:62-78 | the first record of that name, or none if there is none |
| Discovery.UpsertedMap | src/net/Discovery.cpp:7-21 | registering updates the map from keys to RLOCs and keeps keys unique |
| Discovery.WithoutMap | src/net/Discovery.cpp:23-32 | unregistering removes one key from the map |
| Discovery.WithoutExactly | src/net/Discovery.cpp:23-41 | exactly the records of that node and name go, or of that node |
| Srp.SRPServer.RegisterLease | src/thread/SRP.cpp:11-48 | the first lease of that node and service is renewed in place with everything the registration says, otherwise a new one of two hours is appended; the record is registered; nothing else changes |
| Srp.SRPServer.RenewLease | src/thread/SRP.cpp:50-66 | every lease of the node starts anew and its service is registered again, the others are as they were; whether there was one |
| Srp.SRPServer.RemoveLeasesForNode | src/thread/SRP.cpp:68-77 | the node's leases and records go together, or nothing changes |
| Srp.SRPServer.TickAt | src/thread/SRP.cpp:79-101 | exactly the leases older than their duration go, with their records |
| Srp.SRPServer.ForceExpireLease | src/thread/SRP.cpp:103-112 | the node's leases are put back by their duration and a millisecond, the others are as they were |
| Srp.SRPServer.UpdateNodeRLOC | src/thread/SRP.cpp:114-127 | the node's leases and records have the new RLOC and start anew, all others are as they were |
| Srp.UpdateMovesNode | src/thread/SRP.cpp:114-127 | after a change of address the addresses by lease and by record are the old ones with the node's replaced; the node's leases start then, the others are unchanged |
| Srp.RenewRestartsNode | src/thread/SRP.cpp:50-66 | a renewal starts the node's leases anew, changes no address, and leaves the others as they were |
| Srp.SRPServer.HasActive | src/thread/SRP.cpp:137-142 | true if and only if the node has a lease that is not expired |
| Srp.SweepOne | src/thread/SRP.cpp:96-100 | removing the expired leases from the last to the first keeps the earlier positions valid |
| Srp.ApplyKeepsAgree | src/thread/SRP.cpp:11-127 | every operation keeps leases and records one to one on node and service name, with equal RLOC |
| Srp.CounterpartOfLease | src/thread/SRP.cpp:11-48 | under agreement each lease has exactly one record of its node, service name and RLOC |
| Srp.CounterpartOfRecord | src/net/Discovery.cpp:7-21 | and each record exactly one such lease |
| Srp.EveryRunAgrees | src/thread/SRP.cpp:11-127 | so does every run |
| Srp.TickKeepsAgree | src/thread/SRP.cpp:79-101 | a tick keeps the agreement and leaves no expired lease |
| Srp.AfterTickRegisteredIffActive | src/thread/SRP.cpp:79-142 | after a tick that ends any run a node has a record if and only if it has an active lease |
| Srp.ForcedLeaseExpires | src/thread/SRP.cpp:103-112 | a lease forced to expire is expired from its last renewal on |
| Srp.LeaseExpiresIff | src/thread/SRP.h:30-41 | a lease is expired if and only if a millisecond more than its duration has passed since it started, and still active if and only if less than that less a tenth has |
| Srp.RenewedInTimeStays | src/thread/SRP.cpp:11-127 | in every run a service stays registered as long as its node is not removed or forced out and each tick comes before its lease, counted from its last registration, renewal or change of address, has run out |
| Srp.TickRemovesIff | src/thread/SRP.cpp:79-101 | a tick removes a lease and its record if and only if the lease has run out by then |
| Srp.SRPClient.RegisterWithServer | src/thread/SRP.cpp:158-179 | the server registers exactly this client's record and lease, all others as they were; the record has the name, type, port and address given; the agreement is kept; the client needs renewal again only after the interval |
| Srp.SRPClient.RenewWithServer | src/thread/SRP.cpp:181-189 | a registered client's leases are renewed, and its own time only if the server still held one; an unregistered one changes nothing |
| Srp.SRPClient.OnRLOCChanged | src/thread/SRP.h:109 | the new address is kept, and a registered client then needs renewal at any time |

## Left out

- Sockets, polling, processes, HTTP, JSON, logging, the command line and every view or dashboard.
- Random losses and latencies: each crossing's outcome is a parameter, and losses and latencies are reals, not floats.
- The arithmetic of `fragmentCount`, `worstHop` and the delivery probabilities in `src/thread/PathTracer.cpp`.
- Payload corruption by fault rules and the stamping of link quality on delivered frames: only whether and when a frame passes is modelled.
- The broker's `LinkStat` records are kept as two matrices, one per counter; frames are counted, not carried.
- The fault injector and the channel model: their verdicts on one crossing are one outcome.
- What a node does with a data frame addressed to it. Loop freedom is stated over the table's next hops; `DataPath` follows the frames themselves on a mesh that does not change meanwhile and drops none.
- Attaching, detaching, becoming leader, child tables and self-healing statistics of a node.
- Hearings are atomic: a receiver merges the sender's present table. The program never checks the frame counter, so a delayed advertisement could raise a cost again; such reordering is not modelled.
- Mesh.EveryReachableMeshIsFresh: the steps contain no short or malformed message, which would be heard as router 0, and no change of id; `Mle.ShortMessageSpreads` and `Routing.NewOwnIdSpreads` say what those do. Router ids are the positions of the routers and do not change; `Routing.NewOwnIdStaysFreshIff` says when one router may take a new id.
- StaleRoutes.Reconverges: a round hears each link at least once; that a router in fact advertises in time is an assumption on the steps, not a consequence of its clock.
- PowerRuns.BootEndsAtLastGroup: a node registered during the boot is due at the clock's epoch, so the tick must not be before that.
- CountToInfinity.FifteenWindowsForget: nothing from the destination or from outside the set is heard by it during the windows, which is what being cut off means.
- OfflineBuffer.OfflineBuffer.Push: sequence ids do not wrap around; a push needs the next id below the largest 64-bit number, where the program's search for the oldest front would also stop working.
- `OfflineBuffer::drainSince` and the counters read from the buffer; `ServiceRegistry::browse` and `expireStale`, whose two-minute lifetime is independent of the two-hour lease.
- Srp.EveryRunAgrees: only the server writes the registry, and each registration carries its lease's node and RLOC, as every client makes it.
- TLV getters for floats, booleans and strings, which copy bytes; the float value itself is its bit pattern.
- Malformed input of the iOS reader beyond its failure kind: a string that runs past the data, which the program does not check, is the outcome `Overrun`.
- LruCache.LRUCache.Get: the actor's isolation; calls happen one after another.
- Power callbacks return a result and do not call back; the transient node states between the start and the end of a shutdown or boot, not visible outside a tick, are not states of the model.
- `std::sort` is any sort: nothing is assumed of the order of nodes of equal priority; the model's own sort is an insertion sort.
- PowerRuns.ShutdownAccounts: the clock does not run back behind the shutdown's start.
- Session durations are not negative and attempt counters do not wrap around; `disconnect`, `touchActivity` and the list queries of the session pool.
- `SRPClient` makes its host name from the 64-bit address; here the name is given.
