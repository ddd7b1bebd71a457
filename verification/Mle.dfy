/** MLE advertisements as bytes (src/thread/MLE.cpp). */
module Mle {
  import opened Types
  import opened Bytes
  import opened Routing

  datatype Advertisement = Advertisement(
    sourceRouterId: u8, sourceRloc16: u16, sourceExtAddr: u64, frameCounter: u32, routeData: seq<RouteEntry>)

  const ADVERTISEMENT_TYPE: u8 := 0x01
  const EMPTY_ADVERTISEMENT: Advertisement := Advertisement(0, 0, 0, 0, [])

  function RouteBytes(routes: seq<RouteEntry>): (b: seq<u8>)
    ensures |b| == 2 * |routes|
  {
    if routes == [] then []
    else RouteBytes(routes[..|routes| - 1]) + [routes[|routes| - 1].routerId, routes[|routes| - 1].cost]
  }

  function HeaderBytes(adv: Advertisement): (b: seq<u8>)
    ensures |b| == 16
  {
    [ADVERTISEMENT_TYPE, adv.sourceRouterId] + Le(adv.sourceRloc16, 2) + Le(adv.sourceExtAddr, 8)
    + Le(adv.frameCounter, 4)
  }

  function Serialized(adv: Advertisement): seq<u8> {
    HeaderBytes(adv) + [|adv.routeData| % 0x100] + RouteBytes(adv.routeData)
  }

  method SerializeAdvertisement(adv: Advertisement) returns (buf: seq<u8>)
    ensures buf == Serialized(adv)
  {
    hide Le;
    buf := [ADVERTISEMENT_TYPE];
    buf := buf + [adv.sourceRouterId];
    buf := PutLe(buf, adv.sourceRloc16, 2);
    buf := PutLe(buf, adv.sourceExtAddr, 8);
    buf := PutLe(buf, adv.frameCounter, 4);
    buf := buf + [|adv.routeData| % 0x100];
    ghost var head := buf;
    for i := 0 to |adv.routeData|
      invariant buf == head + RouteBytes(adv.routeData[..i])
    {
      assert adv.routeData[..i + 1][..i] == adv.routeData[..i];
      buf := buf + [adv.routeData[i].routerId];
      buf := buf + [adv.routeData[i].cost];
    }
    assert adv.routeData[..|adv.routeData|] == adv.routeData;
  }

  /** A route as it arrives: only the id and the cost travel. */
  function ReceivedRoute(id: u8, cost: u8): RouteEntry {
    RouteEntry(id, INVALID_ROUTER_ID, cost, cost < ROUTE_COST_INFINITE, 0)
  }

  function ParsedRoutes(data: seq<u8>, pos: nat, count: nat): seq<RouteEntry>
    decreases count
  {
    if count == 0 || pos + 1 >= |data| then []
    else [ReceivedRoute(data[pos], data[pos + 1])] + ParsedRoutes(data, pos + 2, count - 1)
  }

  /** As many routes as are announced and as there are whole pairs of bytes for, each live exactly if its
      cost is below infinity. */
  lemma {:induction false} ParsedRoutesAre(data: seq<u8>, pos: nat, count: nat)
    requires pos <= |data|
    ensures var routes := ParsedRoutes(data, pos, count);
      && |routes| == Min(count, (|data| - pos) / 2)
      && forall i | 0 <= i < |routes| ::
           routes[i] == RouteEntry(data[pos + 2 * i], 0xFF, data[pos + 2 * i + 1], data[pos + 2 * i + 1] < 16, 0)
    decreases count
  {
    if count > 0 && pos + 1 < |data| { ParsedRoutesAre(data, pos + 2, count - 1); }
  }

  /** What a receiver makes of any bytes: truncated messages are read as far as they go. */
  ghost predicate Parsed(data: seq<u8>, adv: Advertisement) {
    if |data| < 16 || data[0] != ADVERTISEMENT_TYPE then adv == EMPTY_ADVERTISEMENT
    else
      && adv.sourceRouterId == data[1] && adv.sourceRloc16 == FromLe(data[2..4])
      && adv.sourceExtAddr == FromLe(data[4..12]) && adv.frameCounter == FromLe(data[12..16])
      && adv.routeData == if |data| == 16 then [] else ParsedRoutes(data, 17, data[16])
  }

  method DeserializeAdvertisement(data: seq<u8>) returns (adv: Advertisement)
    ensures Parsed(data, adv)
    ensures |data| > 16 && data[0] == 0x01 ==>
              && |adv.routeData| == Min(data[16], (|data| - 17) / 2)
              && forall i | 0 <= i < |adv.routeData| ::
                   var cost := data[18 + 2 * i];
                   adv.routeData[i] == RouteEntry(data[17 + 2 * i], 0xFF, cost, cost < 16, 0)
  {
    if |data| > 16 { ParsedRoutesAre(data, 17, data[16]); }
    adv := EMPTY_ADVERTISEMENT;
    if |data| < 16 { return; }
    if data[0] != ADVERTISEMENT_TYPE { return; }
    Widths();
    var rloc := GetLe(data, 2, 2);
    var ext := GetLe(data, 4, 8);
    var counter := GetLe(data, 12, 4);
    adv := Advertisement(data[1], rloc, ext, counter, []);
    var pos := 16;
    if pos >= |data| { return; }
    var count := data[pos];
    pos := pos + 1;
    var routes: seq<RouteEntry>, i := [], 0;
    while i < count && pos + 1 < |data|
      invariant i <= count
      invariant routes + ParsedRoutes(data, pos, count - i) == ParsedRoutes(data, 17, count)
    {
      routes := routes + [ReceivedRoute(data[pos], data[pos + 1])];
      pos := pos + 2;
      i := i + 1;
    }
    adv := adv.(routeData := routes);
  }

  function Received(routes: seq<RouteEntry>): (r: seq<RouteEntry>)
    ensures |r| == |routes|
  {
    seq(|routes|, i requires 0 <= i < |routes| => ReceivedRoute(routes[i].routerId, routes[i].cost))
  }

  lemma {:induction false} RouteBytesAt(routes: seq<RouteEntry>, i: nat)
    requires i < |routes|
    ensures RouteBytes(routes)[2 * i] == routes[i].routerId && RouteBytes(routes)[2 * i + 1] == routes[i].cost
  {
    var last := |routes| - 1;
    if i < last {
      RouteBytesAt(routes[..last], i);
    }
  }

  lemma {:induction false} ParsedRoutesOf(head: seq<u8>, routes: seq<RouteEntry>, i: nat)
    requires i <= |routes|
    ensures ParsedRoutes(head + RouteBytes(routes), |head| + 2 * i, |routes| - i) == Received(routes)[i..]
    decreases |routes| - i
  {
    if i < |routes| {
      RouteBytesAt(routes, i);
      ParsedRoutesOf(head, routes, i + 1);
      var data := head + RouteBytes(routes);
      assert data[|head| + 2 * i] == RouteBytes(routes)[2 * i];
      assert data[|head| + 2 * i + 1] == RouteBytes(routes)[2 * i + 1];
      assert Received(routes)[i..] == [Received(routes)[i]] + Received(routes)[i + 1..];
    }
  }

  /** An advertisement of fewer than 256 routes arrives as it was sent, its routes reduced to id and
      cost. */
  lemma AdvertisementRoundTrip(adv: Advertisement, got: Advertisement)
    requires |adv.routeData| < 0x100 && Parsed(Serialized(adv), got)
    ensures got == adv.(routeData := Received(adv.routeData))
  {
    HeaderRoundTrip(adv);
    ParsedRoutesOf(HeaderBytes(adv) + [|adv.routeData|], adv.routeData, 0);
    assert Received(adv.routeData)[0..] == Received(adv.routeData);
  }

  /** The fields of the header, read back. */
  lemma HeaderRoundTrip(adv: Advertisement)
    ensures var data := Serialized(adv);
      && |data| > 16 && data[0] == ADVERTISEMENT_TYPE && data[1] == adv.sourceRouterId
      && data[16] == |adv.routeData| % 0x100
      && FromLe(data[2..4]) == adv.sourceRloc16 && FromLe(data[4..12]) == adv.sourceExtAddr
      && FromLe(data[12..16]) == adv.frameCounter
  {
    var rloc, ext, counter := Le(adv.sourceRloc16, 2), Le(adv.sourceExtAddr, 8), Le(adv.frameCounter, 4);
    Widths();
    LeRoundTrip(adv.sourceRloc16, 2);
    LeRoundTrip(adv.sourceExtAddr, 8);
    LeRoundTrip(adv.frameCounter, 4);
    FieldsAt([ADVERTISEMENT_TYPE, adv.sourceRouterId], rloc, ext, counter,
             [|adv.routeData| % 0x100] + RouteBytes(adv.routeData));
    assert Serialized(adv) ==
      [ADVERTISEMENT_TYPE, adv.sourceRouterId] + rloc + ext + counter
      + ([|adv.routeData| % 0x100] + RouteBytes(adv.routeData));
  }

  lemma FieldsAt(a: seq<u8>, b: seq<u8>, c: seq<u8>, d: seq<u8>, e: seq<u8>)
    requires |a| == 2 && |b| == 2 && |c| == 8 && |d| == 4 && |e| > 0
    ensures var data := a + b + c + d + e;
      && data[0] == a[0] && data[1] == a[1] && data[2..4] == b && data[4..12] == c
      && data[12..16] == d && data[16] == e[0]
  {
  }

  /** Merging what arrived equals merging what was sent, when every route sent is live. */
  lemma {:induction false} MergingReceived(t: Table, own: u8, n: u8, routes: seq<RouteEntry>, now: int)
    requires forall i | 0 <= i < |routes| :: routes[i].reachable && routes[i].cost < ROUTE_COST_INFINITE
    ensures MergeRoutes(t, own, n, Received(routes), now) == MergeRoutes(t, own, n, routes, now)
  {
    if routes != [] {
      var last := |routes| - 1;
      MergingReceived(t, own, n, routes[..last], now);
      assert Received(routes)[..last] == Received(routes[..last]);
    }
  }

  /** Of the messages that reach the parser, exactly those of sixteen bytes or more name their sender: a
      shorter one is read as an empty advertisement of router 0, whatever it says. */
  lemma SenderIsReadIff(data: seq<u8>, adv: Advertisement)
    requires |data| >= 2 && data[0] == ADVERTISEMENT_TYPE && Parsed(data, adv)
    ensures adv.sourceRouterId == data[1] <==> |data| >= 16 || data[1] == 0
    ensures |data| < 16 ==> adv == EMPTY_ADVERTISEMENT
  {
  }

  /** A short message makes router 0 a direct neighbour and does nothing else; so it breaks the
      freshness of a table exactly when the table is router 0's own. */
  lemma TruncatedReadsAsRouterZero(data: seq<u8>, adv: Advertisement, t: Table, own: u8, now: int)
    requires 0 < |data| < 16 && data[0] == ADVERTISEMENT_TYPE && Parsed(data, adv)
    ensures Heard(t, own, adv.sourceRouterId, adv.routeData, now) == AddDirect(t, 0, now)
    ensures Fresh(t, own, now) ==>
              (Fresh(Heard(t, own, adv.sourceRouterId, adv.routeData, now), own, now) <==> own != 0)
  {
    if Fresh(t, own, now) { HearingOneselfIff(t, own, 0, now); }
  }

  /** One short message at router 0 is enough to break the other tables too: router 0 then lists itself,
      and so breaks the freshness of every table that hears it next. */
  lemma ShortMessageSpreads(data: seq<u8>, adv: Advertisement, t0: Table, t: Table, own: u8, now: int)
    requires 0 < |data| < 16 && data[0] == ADVERTISEMENT_TYPE && Parsed(data, adv)
    requires Fresh(t0, 0, now) && Fresh(t, own, now) && own != 0
    ensures var z := Heard(t0, 0, adv.sourceRouterId, adv.routeData, now);
      && LastListing(Advertised(z), 0) == Some(DirectEntry(0, now))
      && !Fresh(Heard(t, own, 0, Advertised(z), now), own, now)
  {
    TruncatedReadsAsRouterZero(data, adv, t0, 0, now);
    FreshIsLabelled(t0, 0, now);
    OwnRouteSpreads(AddDirect(t0, 0, now), 0, t, own, now);
  }
}
