/** A node of the mesh: its role, its routing table and its protocol steps (src/thread/ThreadNode.cpp).

    The clock reading of each event is a parameter. Child tables and healing statistics are not part of
    this model. */
module ThreadNode {
  import opened Types
  import opened Routing
  import Mle
  import Frame
  import opened Mesh

  datatype DeviceRole = Detached | EndDevice | REED | Router | Leader
  datatype DeviceMode = FTD | MTD_MED | MTD_SED

  function Next(counter: int, limit: int): (c: int)
    requires 0 <= counter < limit
    ensures 0 <= c < limit && c == (counter + 1) % limit
  {
    if counter + 1 == limit then 0 else counter + 1
  }

  /** The advertisement of router `id` with table `t`. */
  function AdvertisementOf(id: u8, rloc: u16, ext: u64, counter: u32, t: Table): Mle.Advertisement {
    Mle.Advertisement(id, rloc, ext, counter, Advertised(t))
  }

  function FrameTo(seqNumber: u8, rloc: u16, dst: u16, payload: seq<u8>): Frame.MacFrame {
    Frame.DEFAULT_FRAME.(seqNumber := seqNumber, srcAddr := rloc, dstAddr := dst, payload := payload)
  }

  function BroadcastFrame(seqNumber: u8, rloc: u16, payload: seq<u8>): Frame.MacFrame {
    FrameTo(seqNumber, rloc, BROADCAST_RLOC16, payload)
  }

  predicate IsAdvertisement(f: Frame.MacFrame) {
    f.payload != [] && f.payload[0] == Mle.ADVERTISEMENT_TYPE
  }

  /** The next hop to which a node at `rloc` forwards a data frame addressed to `dst`, if it does. */
  function ForwardHop(role: DeviceRole, rloc: u16, t: Table, dst: u16): Option<u8> {
    if dst == rloc || dst == BROADCAST_RLOC16 || !(role == Router || role == Leader) then None
    else NextHop(t, GetRouterId(dst))
  }

  class ThreadNode {
    const mode: DeviceMode
    const extAddr: u64
    const routing: RoutingTable
    const advertisementInterval: int
    const neighborTimeout: int
    var role: DeviceRole
    var rloc16: u16
    var routerId: u8
    var seqCounter: u8
    var frameCounter: u32
    var lastAdvertisement: int

    ghost predicate Valid()
      reads this, routing, routing.entries
    {
      routing.Valid()
    }

    ghost function Table(): Table
      requires Valid()
      reads this, routing, routing.entries
    {
      routing.Contents()
    }

    constructor (mode: DeviceMode, extAddr: u64, interval: int, timeout: int)
      ensures Valid() && fresh(routing) && fresh(routing.entries)
      ensures role == Detached && routerId == INVALID_ROUTER_ID && routing.ownRouterId == INVALID_ROUTER_ID
      ensures rloc16 == INVALID_RLOC16 && this.mode == mode && this.extAddr == extAddr
      ensures advertisementInterval == interval && neighborTimeout == timeout && Table() == EMPTY_TABLE
    {
      this.mode, this.extAddr := mode, extAddr;
      advertisementInterval, neighborTimeout := interval, timeout;
      routing := new RoutingTable();
      role, rloc16, routerId := Detached, INVALID_RLOC16, INVALID_ROUTER_ID;
      seqCounter, frameCounter, lastAdvertisement := 0, 0, 0;
    }

    /** A node that keeps its table takes the new id as its own. */
    method PromoteToRouter(newId: u8)
      requires Valid()
      modifies this, routing
      ensures Valid() && Table() == old(Table())
      ensures mode == FTD ==>
                && role == Router && routerId == newId == routing.ownRouterId
                && rloc16 == MakeRloc16(newId, 0)
      ensures mode != FTD ==>
                && role == old(role) && routerId == old(routerId) && rloc16 == old(rloc16)
                && routing.ownRouterId == old(routing.ownRouterId)
    {
      if mode != FTD { return; }
      routerId := newId;
      rloc16 := MakeRloc16(routerId, 0);
      role := Router;
      routing.SetOwnRouterId(routerId);
    }

    predicate ShouldAdvertise(now: int)
      reads this
    {
      lastAdvertisement == 0 || now - lastAdvertisement >= advertisementInterval
    }

    predicate Advertises(now: int)
      reads this
    {
      (role == Router || role == Leader) && ShouldAdvertise(now)
    }

    /** A tick sends at most one frame, made of the table as it was, and then expires stale routes. */
    method Tick(now: int) returns (sent: seq<Frame.MacFrame>)
      requires Valid()
      modifies this, routing.entries
      ensures Valid() && role == old(role) && routerId == old(routerId) && rloc16 == old(rloc16)
      ensures Table() == if role == Detached then old(Table()) else Expired(old(Table()), now, neighborTimeout)
      ensures old(Advertises(now)) ==>
                && lastAdvertisement == now && frameCounter == Next(old(frameCounter), 0x1_0000_0000)
                && seqCounter == Next(old(seqCounter), 0x100)
                && sent == [BroadcastFrame(old(seqCounter), rloc16,
                      Mle.Serialized(AdvertisementOf(routerId, rloc16, extAddr, frameCounter, old(Table()))))]
      ensures sent != [] <==>
                && (role == Router || role == Leader)
                && (old(lastAdvertisement) == 0 || now - old(lastAdvertisement) >= advertisementInterval)
      ensures sent != [] ==>
                && |sent| == 1 && sent[0].srcAddr == rloc16 && sent[0].dstAddr == BROADCAST_RLOC16
                && sent[0].seqNumber == old(seqCounter)
      ensures !old(Advertises(now)) ==>
                && sent == [] && lastAdvertisement == old(lastAdvertisement) && frameCounter == old(frameCounter)
                && seqCounter == old(seqCounter)
    {
      sent := [];
      if role == Detached { return; }
      if Advertises(now) {
        var frame := SendMLEAdvertisement();
        sent := [frame];
        lastAdvertisement := now;
      }
      routing.ExpireStaleRoutes(now, neighborTimeout);
    }

    method SendMLEAdvertisement() returns (frame: Frame.MacFrame)
      requires Valid()
      modifies this
      ensures Valid() && role == old(role) && routerId == old(routerId) && rloc16 == old(rloc16)
      ensures lastAdvertisement == old(lastAdvertisement)
      ensures frameCounter == Next(old(frameCounter), 0x1_0000_0000) && seqCounter == Next(old(seqCounter), 0x100)
      ensures frame == BroadcastFrame(old(seqCounter), rloc16,
                Mle.Serialized(AdvertisementOf(routerId, rloc16, extAddr, frameCounter, Table())))
    {
      frameCounter := Next(frameCounter, 0x1_0000_0000);
      var routes := routing.GetAdvertisableRoutes();
      var payload := Mle.SerializeAdvertisement(Mle.Advertisement(routerId, rloc16, extAddr, frameCounter, routes));
      frame := BroadcastFrame(seqCounter, rloc16, payload);
      seqCounter := Next(seqCounter, 0x100);
    }

    /** An advertisement is merged whatever the role. A data frame leaves the table alone; a router sends
        it on to its next hop, if there is one. */
    method OnFrameReceived(frame: Frame.MacFrame, now: int) returns (sent: seq<Frame.MacFrame>)
      requires Valid()
      modifies this`seqCounter, routing.entries
      ensures Valid()
      ensures IsAdvertisement(frame) ==>
                && sent == [] && seqCounter == old(seqCounter)
                && exists adv :: Mle.Parsed(frame.payload, adv)
                     && Table() == Heard(old(Table()), routing.ownRouterId, adv.sourceRouterId, adv.routeData, now)
      ensures !IsAdvertisement(frame) ==>
                && Table() == old(Table())
                && (match ForwardHop(role, rloc16, Table(), frame.dstAddr)
                    case None => sent == [] && seqCounter == old(seqCounter)
                    case Some(hop) =>
                      && sent == [FrameTo(old(seqCounter), rloc16, MakeRloc16(hop, 0), frame.payload)]
                      && seqCounter == Next(old(seqCounter), 0x100))
      ensures sent != [] <==>
                var d := GetRouterId(frame.dstAddr);
                && (frame.payload == [] || frame.payload[0] != 0x01) && (role == Router || role == Leader)
                && frame.dstAddr != rloc16 && frame.dstAddr != BROADCAST_RLOC16
                && d < MAX_ROUTERS && Table()[d].reachable
      ensures sent != [] ==>
                && |sent| == 1 && sent[0].srcAddr == rloc16 && sent[0].seqNumber == old(seqCounter)
                && sent[0].dstAddr == MakeRloc16(Table()[GetRouterId(frame.dstAddr)].nextHop, 0)
                && sent[0].payload == frame.payload
    {
      sent := [];
      if IsAdvertisement(frame) {
        var adv := Mle.DeserializeAdvertisement(frame.payload);
        routing.AddDirectNeighbor(adv.sourceRouterId, now);
        routing.UpdateFromAdvertisement(adv.sourceRouterId, adv.routeData, now);
        HearingTwice(old(Table()), adv.sourceRouterId, now);
      } else {
        sent := ProcessDataFrame(frame);
      }
    }

    method ProcessDataFrame(frame: Frame.MacFrame) returns (sent: seq<Frame.MacFrame>)
      requires Valid()
      modifies this`seqCounter
      ensures Valid()
      ensures match ForwardHop(role, rloc16, Table(), frame.dstAddr)
        case None => sent == [] && seqCounter == old(seqCounter)
        case Some(hop) =>
          && sent == [FrameTo(old(seqCounter), rloc16, MakeRloc16(hop, 0), frame.payload)]
          && seqCounter == Next(old(seqCounter), 0x100)
    {
      sent := [];
      if frame.dstAddr == rloc16 || frame.dstAddr == BROADCAST_RLOC16 {
        return;
      }
      if role == Router || role == Leader {
        var hop := routing.GetNextHop(GetRouterId(frame.dstAddr));
        if hop.Some? {
          sent := [FrameTo(seqCounter, rloc16, MakeRloc16(hop.value, 0), frame.payload)];
          seqCounter := Next(seqCounter, 0x100);
        }
      }
    }
  }

  lemma HearingTwice(t: Table, n: u8, now: int)
    ensures AddDirect(AddDirect(t, n, now), n, now) == AddDirect(t, n, now)
  {
  }

  // ---------------------------------------------------------------------
  // One step of the protocol, over the wire.
  // ---------------------------------------------------------------------

  /** The advertisement of a fresh table fits one frame: at most 17 + 2 * 63 bytes. */
  lemma AdvertisementFitsFrame(n: u8, rloc: u16, ext: u64, counter: u32, t: Table, now: int)
    requires Fresh(t, n, now)
    ensures |Mle.Serialized(AdvertisementOf(n, rloc, ext, counter, t))| <= 143
  {
    AdvertisedIsProper(t, n, now, MAX_ROUTERS);
  }

  lemma LiveRoutesOnly(t: Table, n: u8, now: int)
    requires Fresh(t, n, now)
    ensures forall i | 0 <= i < |Advertised(t)| ::
              Advertised(t)[i].reachable && Advertised(t)[i].cost < ROUTE_COST_INFINITE
  {
    AdvertisedIsProper(t, n, now, MAX_ROUTERS);
    forall i | 0 <= i < |Advertised(t)|
      ensures Advertised(t)[i].cost < ROUTE_COST_INFINITE
    {
      assert FreshEntry(t, n, now, Advertised(t)[i].routerId);
    }
  }

  /** The routes of a fresh table, advertised, serialized, framed, sent and parsed by the receiver,
      arrive as the same ids and costs from the same router; and merging them is merging the
      sender's routes. */
  lemma AdvertisementSurvivesWire(n: u8, rloc: u16, ext: u64, counter: u32, seqNumber: u8, tn: Table, now: int,
                                  f: Frame.MacFrame, adv: Mle.Advertisement, t: Table, own: u8)
    requires Fresh(tn, n, now)
    requires Frame.Parsed(Frame.Serialized(BroadcastFrame(seqNumber, rloc,
               Mle.Serialized(AdvertisementOf(n, rloc, ext, counter, tn)))), f)
    requires Mle.Parsed(f.payload, adv)
    ensures adv == AdvertisementOf(n, rloc, ext, counter, tn).(routeData := Mle.Received(Advertised(tn)))
    ensures Heard(t, own, adv.sourceRouterId, adv.routeData, now) == Heard(t, own, n, Advertised(tn), now)
  {
    var sent := AdvertisementOf(n, rloc, ext, counter, tn);
    AdvertisementFitsFrame(n, rloc, ext, counter, tn, now);
    Frame.FrameRoundTrip(BroadcastFrame(seqNumber, rloc, Mle.Serialized(sent)), f);
    AdvertisedIsProper(tn, n, now, MAX_ROUTERS);
    Mle.AdvertisementRoundTrip(sent, adv);
    var routes := Advertised(tn);
    LiveRoutesOnly(tn, n, now);
    Mle.MergingReceived(AddDirect(t, n, now), own, n, routes, now);
  }

  /** Field by field: who sent it, to whom, and which routes it carries. */
  lemma AdvertisementArrives(n: u8, rloc: u16, ext: u64, counter: u32, seqNumber: u8, tn: Table, now: int,
                             f: Frame.MacFrame, adv: Mle.Advertisement)
    requires Fresh(tn, n, now)
    requires Frame.Parsed(Frame.Serialized(BroadcastFrame(seqNumber, rloc,
               Mle.Serialized(AdvertisementOf(n, rloc, ext, counter, tn)))), f)
    requires Mle.Parsed(f.payload, adv)
    ensures adv.sourceRouterId == n && adv.sourceRloc16 == rloc
    ensures adv.sourceExtAddr == ext && adv.frameCounter == counter
    ensures f.srcAddr == rloc && f.dstAddr == BROADCAST_RLOC16 && f.seqNumber == seqNumber
    ensures |adv.routeData| == |Advertised(tn)|
            && forall i | 0 <= i < |adv.routeData| ::
                 var sent, got := Advertised(tn)[i], adv.routeData[i];
                 got.routerId == sent.routerId && got.cost == sent.cost && got.reachable && sent.reachable
  {
    hide Frame.Parsed, Frame.Serialized, Mle.Parsed, Mle.Serialized, Heard, Fresh, FreshEntry;
    AdvertisementFitsFrame(n, rloc, ext, counter, tn, now);
    var payload := Mle.Serialized(AdvertisementOf(n, rloc, ext, counter, tn));
    Frame.FrameRoundTrip(BroadcastFrame(seqNumber, rloc, payload), f);
    AdvertisementSurvivesWire(n, rloc, ext, counter, seqNumber, tn, now, f, adv, EMPTY_TABLE, 0);
    LiveRoutesOnly(tn, n, now);
  }

  /** So a step of the mesh in which `r` hears `n` is what receiving `n`'s frame does to `r`'s table. */
  lemma FrameIsHearStep(m: Mesh, r: nat, n: nat, rloc: u16, ext: u64, counter: u32, seqNumber: u8,
                        f: Frame.MacFrame, adv: Mle.Advertisement)
    requires FreshMesh(m) && StepOk(|m.tables|, Hear(r, n))
    requires Frame.Parsed(Frame.Serialized(BroadcastFrame(seqNumber, rloc,
               Mle.Serialized(AdvertisementOf(n, rloc, ext, counter, m.tables[n])))), f)
    requires Mle.Parsed(f.payload, adv)
    ensures IsAdvertisement(f)
    ensures Apply(m, Hear(r, n)).tables[r] == Heard(m.tables[r], r, adv.sourceRouterId, adv.routeData, m.now)
  {
    AdvertisementSurvivesWire(n, rloc, ext, counter, seqNumber, m.tables[n], m.now, f, adv, m.tables[r], r);
    AdvertisementFitsFrame(n, rloc, ext, counter, m.tables[n], m.now);
    var sent := Mle.Serialized(AdvertisementOf(n, rloc, ext, counter, m.tables[n]));
    Frame.FrameRoundTrip(BroadcastFrame(seqNumber, rloc, sent), f);
  }
}
