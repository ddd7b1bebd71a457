/** Staged shutdown against a battery budget, hard cutoff and boot (src/thread/PowerManager.cpp).

    Instants are nanoseconds, durations milliseconds. The outcomes of the shutdown callbacks are a
    parameter of each tick; the priorities are any numbers below 255, not only the three in use. */
module PowerManager {
  import opened Types

  type NodeId = u16
  type Priority = p: u8 | p < 0xFF

  datatype NodePower = On | Off
  datatype SystemPower = EngineOn | ShuttingDown | SystemOff | Booting

  datatype NodeInfo = NodeInfo(
    id: NodeId, priority: Priority, power: NodePower, shutdownAt: int, bootAt: int, clean: bool)

  datatype EventKind =
    | ShutdownInitiated | NodeShutdownStarted | NodeShutdownComplete | NodeHardCutoff
    | AllOff | BootInitiated | NodeBootStarted | NodeBootComplete | AllOn

  /** An event of one node, or of the whole system. */
  datatype Event = Event(at: int, kind: EventKind, node: Option<NodeId>)

  datatype Power = Power(
    state: SystemPower, nodes: seq<NodeInfo>, initiated: int, battery: int,
    graceful: nat, hard: nat, history: seq<Event>)

  /** Three seconds, in nanoseconds. */
  const BOOT_PER_NODE: int := 3_000_000_000

  // ---------------------------------------------------------------------
  // What each operation does.
  // ---------------------------------------------------------------------

  // Functions named ...UpTo look at the first k nodes, as the program's loops do.

  function OnUpTo(nodes: seq<NodeInfo>, k: nat): nat
    requires k <= |nodes|
  {
    if k == 0 then 0 else OnUpTo(nodes, k - 1) + (if nodes[k - 1].power == On then 1 else 0)
  }

  function OnCount(nodes: seq<NodeInfo>): nat {
    OnUpTo(nodes, |nodes|)
  }

  function CutNode(n: NodeInfo): NodeInfo {
    if n.power == On then n.(power := Off, clean := false) else n
  }

  function CutEventsUpTo(nodes: seq<NodeInfo>, k: nat, at: int): seq<Event>
    requires k <= |nodes|
  {
    if k == 0 then []
    else
      var n := nodes[k - 1];
      CutEventsUpTo(nodes, k - 1, at) + (if n.power == On then [Event(at, NodeHardCutoff, Some(n.id))] else [])
  }

  function CutOff(p: Power, now: int): Power {
    p.(state := SystemOff,
       nodes := seq(|p.nodes|, i requires 0 <= i < |p.nodes| => CutNode(p.nodes[i])),
       hard := p.hard + OnCount(p.nodes),
       history := p.history + CutEventsUpTo(p.nodes, |p.nodes|, now) + [Event(now, AllOff, None)])
  }

  predicate Due(n: NodeInfo, now: int) {
    n.power == On && now >= n.shutdownAt
  }

  /** The nodes that a tick shuts down, in the order it does. */
  function DueUpTo(nodes: seq<NodeInfo>, k: nat, now: int): seq<NodeInfo>
    requires k <= |nodes|
  {
    if k == 0 then [] else DueUpTo(nodes, k - 1, now) + (if Due(nodes[k - 1], now) then [nodes[k - 1]] else [])
  }

  function ShutNode(n: NodeInfo, now: int, callbackOk: NodeId -> bool): NodeInfo {
    if Due(n, now) then n.(power := Off, clean := callbackOk(n.id)) else n
  }

  function PairOf(at: int, first: EventKind, second: EventKind, n: NodeInfo): seq<Event> {
    [Event(at, first, Some(n.id)), Event(at, second, Some(n.id))]
  }

  function ShutEventsUpTo(nodes: seq<NodeInfo>, k: nat, now: int): seq<Event>
    requires k <= |nodes|
  {
    if k == 0 then []
    else
      var n := nodes[k - 1];
      ShutEventsUpTo(nodes, k - 1, now) + (
        if Due(n, now) then PairOf(now, NodeShutdownStarted, NodeShutdownComplete, n) else [])
  }

  predicate AllAre(nodes: seq<NodeInfo>, power: NodePower) {
    forall i | 0 <= i < |nodes| :: nodes[i].power == power
  }

  /** The battery has run out: whole milliseconds since the shutdown began reach its life. */
  predicate BatteryEmpty(p: Power, now: int) {
    ToMs(now - p.initiated) >= p.battery
  }

  function ShutdownTick(p: Power, now: int, callbackOk: NodeId -> bool): Power {
    var nodes := seq(|p.nodes|, i requires 0 <= i < |p.nodes| => ShutNode(p.nodes[i], now, callbackOk));
    var done := AllAre(nodes, Off);
    p.(nodes := nodes, graceful := p.graceful + |DueUpTo(p.nodes, |p.nodes|, now)|,
       state := if done then SystemOff else p.state,
       history := p.history + ShutEventsUpTo(p.nodes, |p.nodes|, now)
                  + (if done then [Event(now, AllOff, None)] else []))
  }

  predicate BootDue(n: NodeInfo, now: int) {
    n.power == Off && now >= n.bootAt
  }

  function BootNode(n: NodeInfo, now: int): NodeInfo {
    if BootDue(n, now) then n.(power := On) else n
  }

  function BootEventsUpTo(nodes: seq<NodeInfo>, k: nat, now: int): seq<Event>
    requires k <= |nodes|
  {
    if k == 0 then []
    else
      var n := nodes[k - 1];
      BootEventsUpTo(nodes, k - 1, now) + (
        if BootDue(n, now) then PairOf(now, NodeBootStarted, NodeBootComplete, n) else [])
  }

  function BootTick(p: Power, now: int): Power {
    var nodes := seq(|p.nodes|, i requires 0 <= i < |p.nodes| => BootNode(p.nodes[i], now));
    var done := AllAre(nodes, On);
    p.(nodes := nodes, state := if done then EngineOn else p.state,
       history := p.history + BootEventsUpTo(p.nodes, |p.nodes|, now)
                  + (if done then [Event(now, AllOn, None)] else []))
  }

  function Ticked(p: Power, now: int, callbackOk: NodeId -> bool): Power {
    match p.state
    case ShuttingDown => if BatteryEmpty(p, now) then CutOff(p, now) else ShutdownTick(p, now, callbackOk)
    case Booting => BootTick(p, now)
    case _ => p
  }

  lemma NoneShut(nodes: seq<NodeInfo>, now: int)
    ensures DueUpTo(nodes, 0, now) == [] && ShutEventsUpTo(nodes, 0, now) == []
  {
  }

  lemma NextShut(nodes: seq<NodeInfo>, k: nat, now: int)
    requires k < |nodes|
    ensures |DueUpTo(nodes, k + 1, now)| == |DueUpTo(nodes, k, now)| + if Due(nodes[k], now) then 1 else 0
    ensures ShutEventsUpTo(nodes, k + 1, now) == ShutEventsUpTo(nodes, k, now) + (
              if Due(nodes[k], now) then PairOf(now, NodeShutdownStarted, NodeShutdownComplete, nodes[k]) else [])
  {
  }

  lemma ShutdownTickIs(p: Power, nodes: seq<NodeInfo>, now: int, callbackOk: NodeId -> bool)
    requires |nodes| == |p.nodes| && forall i | 0 <= i < |nodes| :: nodes[i] == ShutNode(p.nodes[i], now, callbackOk)
    ensures ShutdownTick(p, now, callbackOk) ==
      p.(nodes := nodes, graceful := p.graceful + |DueUpTo(p.nodes, |p.nodes|, now)|,
         state := if AllAre(nodes, Off) then SystemOff else p.state,
         history := p.history + ShutEventsUpTo(p.nodes, |p.nodes|, now)
                    + (if AllAre(nodes, Off) then [Event(now, AllOff, None)] else []))
  {
    assert nodes == ShutdownTick(p, now, callbackOk).nodes;
  }

  lemma BootTickIs(p: Power, nodes: seq<NodeInfo>, now: int)
    requires |nodes| == |p.nodes| && forall i | 0 <= i < |nodes| :: nodes[i] == BootNode(p.nodes[i], now)
    ensures BootTick(p, now) ==
      p.(nodes := nodes, state := if AllAre(nodes, On) then EngineOn else p.state,
         history := p.history + BootEventsUpTo(p.nodes, |p.nodes|, now)
                    + (if AllAre(nodes, On) then [Event(now, AllOn, None)] else []))
  {
    assert nodes == BootTick(p, now).nodes;
  }

  predicate Registered(p: Power, id: NodeId) {
    exists i :: 0 <= i < |p.nodes| && p.nodes[i].id == id
  }

  function Register(p: Power, id: NodeId, priority: Priority): Power {
    if Registered(p, id) then p
    else p.(nodes := p.nodes + [NodeInfo(id, priority, if p.state == EngineOn then On else Off, 0, 0, false)])
  }

  /** The priorities of neighbouring nodes, each run of equal ones once. */
  function GroupsUpTo(nodes: seq<NodeInfo>, k: nat): (g: seq<Priority>)
    requires k <= |nodes|
    ensures |g| <= k && (k > 0 ==> g != [] && g[|g| - 1] == nodes[k - 1].priority)
  {
    if k == 0 then []
    else
      var g := GroupsUpTo(nodes, k - 1);
      var p := nodes[k - 1].priority;
      if g != [] && g[|g| - 1] == p then g else g + [p]
  }

  function Groups(nodes: seq<NodeInfo>): seq<Priority> {
    GroupsUpTo(nodes, |nodes|)
  }

  function IndexOf(groups: seq<Priority>, p: Priority): nat {
    if groups == [] || groups[0] == p then 0 else 1 + IndexOf(groups[1..], p)
  }

  /** Integer division as the program does it, truncating. */
  function TruncDiv(a: int, b: int): int
    requires b > 0
  {
    if a >= 0 then a / b else -((-a) / b)
  }

  /** Milliseconds between the groups. */
  function Spacing(nodes: seq<NodeInfo>, battery: int): int {
    TruncDiv(battery, |Groups(nodes)| + 1)
  }

  /** `k` times `ms` milliseconds after `now`. */
  function Later(now: int, ms: int, k: int): int {
    now + ms * k * NS_PER_MS
  }

  function ShutdownInstant(nodes: seq<NodeInfo>, now: int, battery: int, p: Priority): int {
    Later(now, Spacing(nodes, battery), IndexOf(Groups(nodes), p) + 1)
  }

  function WithShutdown(nodes: seq<NodeInfo>, now: int, battery: int, i: nat): NodeInfo
    requires i < |nodes|
  {
    nodes[i].(shutdownAt := ShutdownInstant(nodes, now, battery, nodes[i].priority))
  }

  function ShutdownSchedule(nodes: seq<NodeInfo>, now: int, battery: int): seq<NodeInfo> {
    seq(|nodes|, i requires 0 <= i < |nodes| => WithShutdown(nodes, now, battery, i))
  }

  function WithBoot(nodes: seq<NodeInfo>, now: int, i: nat): NodeInfo
    requires i < |nodes|
  {
    nodes[i].(bootAt := BootInstant(now, GroupNumber(nodes, i)))
  }

  function BootSchedule(nodes: seq<NodeInfo>, now: int): seq<NodeInfo> {
    seq(|nodes|, i requires 0 <= i < |nodes| => WithBoot(nodes, now, i))
  }

  /** The groups up to and with the `i`-th node's. */
  function GroupNumber(nodes: seq<NodeInfo>, i: nat): nat
    requires i < |nodes|
  {
    |GroupsUpTo(nodes, i + 1)|
  }

  /** When the `g`-th group boots. */
  function BootInstant(now: int, g: nat): int {
    if g == 0 then now else BootInstant(now, g - 1) + BOOT_PER_NODE
  }

  predicate Ordered(a: NodeInfo, b: NodeInfo, descending: bool) {
    if descending then b.priority <= a.priority else a.priority <= b.priority
  }

  predicate SortedNodes(nodes: seq<NodeInfo>, descending: bool) {
    forall i, j | 0 <= i < j < |nodes| :: Ordered(nodes[i], nodes[j], descending)
  }

  /** `sorted` holds the same nodes by priority; nothing is said of the order of equal ones. */
  ghost predicate Sorting(nodes: seq<NodeInfo>, sorted: seq<NodeInfo>, descending: bool) {
    multiset(sorted) == multiset(nodes) && SortedNodes(sorted, descending)
  }

  ghost predicate ShutdownBegun(p: Power, p': Power, now: int, battery: int) {
    exists sorted :: Sorting(p.nodes, sorted, false)
      && p' == p.(state := ShuttingDown, initiated := now, battery := battery,
                  nodes := ShutdownSchedule(sorted, now, battery),
                  history := p.history + [Event(now, ShutdownInitiated, None)])
  }

  ghost predicate BootBegun(p: Power, p': Power, now: int) {
    exists sorted :: Sorting(p.nodes, sorted, true)
      && p' == p.(state := Booting, nodes := BootSchedule(sorted, now),
                  history := p.history + [Event(now, BootInitiated, None)])
  }

  // ---------------------------------------------------------------------
  // What the schedules mean.
  // ---------------------------------------------------------------------

  lemma SortedMembers(nodes: seq<NodeInfo>, sorted: seq<NodeInfo>, descending: bool)
    requires Sorting(nodes, sorted, descending)
    ensures |sorted| == |nodes| && forall n :: n in sorted <==> n in nodes
  {
    assert |multiset(sorted)| == |multiset(nodes)|;
    forall n
      ensures n in sorted <==> n in nodes
    {
      assert n in sorted <==> n in multiset(sorted);
    }
  }

  lemma {:induction false} GroupsHold(nodes: seq<NodeInfo>, k: nat, i: nat)
    requires i < k <= |nodes|
    ensures nodes[i].priority in GroupsUpTo(nodes, k)
  {
    if i < k - 1 { GroupsHold(nodes, k - 1, i); }
  }

  predicate Ascending(g: seq<Priority>) {
    forall i, j | 0 <= i < j < |g| :: g[i] < g[j]
  }

  lemma {:induction false} GroupsAscend(nodes: seq<NodeInfo>, k: nat)
    requires SortedNodes(nodes, false) && k <= |nodes|
    ensures Ascending(GroupsUpTo(nodes, k))
  {
    if k > 0 {
      GroupsAscend(nodes, k - 1);
      var g := GroupsUpTo(nodes, k - 1);
      if k > 1 {
        assert Ordered(nodes[k - 2], nodes[k - 1], false);
        assert g[|g| - 1] == nodes[k - 2].priority <= nodes[k - 1].priority;
      }
    }
  }

  lemma {:induction false} IndexFinds(groups: seq<Priority>, p: Priority)
    requires p in groups
    ensures IndexOf(groups, p) < |groups| && groups[IndexOf(groups, p)] == p
  {
    if groups[0] != p { IndexFinds(groups[1..], p); }
  }

  lemma IndexOfMember(nodes: seq<NodeInfo>, n: NodeInfo)
    requires n in nodes
    ensures var g := Groups(nodes); IndexOf(g, n.priority) < |g| && g[IndexOf(g, n.priority)] == n.priority
  {
    var i :| 0 <= i < |nodes| && nodes[i] == n;
    GroupsHold(nodes, |nodes|, i);
    IndexFinds(Groups(nodes), n.priority);
  }

  lemma MulMonotone(s: int, x: int, y: int)
    requires 0 <= s && x <= y
    ensures s * x <= s * y
  {
    assert s * y - s * x == s * (y - x);
  }

  /** The priorities in use. */
  ghost function Priorities(nodes: seq<NodeInfo>): set<Priority> {
    set n | n in nodes :: n.priority
  }

  /** Those no greater than `p`, and those no smaller. */
  ghost function PrioritiesUpTo(nodes: seq<NodeInfo>, p: Priority): set<Priority> {
    set n | n in nodes && n.priority <= p :: n.priority
  }

  ghost function PrioritiesFrom(nodes: seq<NodeInfo>, p: Priority): set<Priority> {
    set n | n in nodes && p <= n.priority :: n.priority
  }

  ghost function Members(g: seq<Priority>): set<Priority> {
    set x | x in g
  }

  lemma {:induction false} CountDistinct(g: seq<Priority>)
    requires forall i, j | 0 <= i < j < |g| :: g[i] != g[j]
    ensures |Members(g)| == |g|
  {
    if g != [] {
      var last := |g| - 1;
      CountDistinct(g[..last]);
      assert g[last] !in Members(g[..last]) && Members(g) == Members(g[..last]) + {g[last]};
    }
  }

  lemma {:induction false} GroupsAre(nodes: seq<NodeInfo>, k: nat)
    requires k <= |nodes|
    ensures forall x :: x in GroupsUpTo(nodes, k) <==> exists i :: 0 <= i < k && nodes[i].priority == x
  {
    if k > 0 { GroupsAre(nodes, k - 1); }
  }

  lemma {:induction false} GroupsDescend(nodes: seq<NodeInfo>, k: nat)
    requires SortedNodes(nodes, true) && k <= |nodes|
    ensures forall i, j | 0 <= i < j < |GroupsUpTo(nodes, k)| :: GroupsUpTo(nodes, k)[j] < GroupsUpTo(nodes, k)[i]
  {
    if k > 0 {
      GroupsDescend(nodes, k - 1);
      var g := GroupsUpTo(nodes, k - 1);
      if k > 1 {
        assert Ordered(nodes[k - 2], nodes[k - 1], true);
        assert nodes[k - 1].priority <= nodes[k - 2].priority == g[|g| - 1];
      }
    }
  }

  /** A node's group is the number of priorities up to its own. */
  lemma ShutdownRank(sorted: seq<NodeInfo>, i: nat)
    requires SortedNodes(sorted, false) && i < |sorted|
    ensures |Groups(sorted)| == |Priorities(sorted)|
    ensures IndexOf(Groups(sorted), sorted[i].priority) + 1 == |PrioritiesUpTo(sorted, sorted[i].priority)|
  {
    hide GroupsUpTo, IndexOf;
    var g, p := Groups(sorted), sorted[i].priority;
    GroupsAscend(sorted, |sorted|);
    GroupsAre(sorted, |sorted|);
    IndexOfMember(sorted, sorted[i]);
    var k := IndexOf(g, p) + 1;
    CountDistinct(g);
    CountDistinct(g[..k]);
    forall x
      ensures x in Priorities(sorted) <==> x in Members(g)
      ensures x in PrioritiesUpTo(sorted, p) <==> x in Members(g[..k])
    {
      if x in g {
        var j :| 0 <= j < |g| && g[j] == x;
        assert x <= p <==> j < k;
        assert j < k ==> g[..k][j] == x;
      }
    }
    assert Priorities(sorted) == Members(g) && PrioritiesUpTo(sorted, p) == Members(g[..k]);
  }

  /** A node of the `g`-th boot group has `g` priorities from its own up. */
  lemma BootRank(sorted: seq<NodeInfo>, i: nat)
    requires SortedNodes(sorted, true) && i < |sorted|
    ensures GroupNumber(sorted, i) == |PrioritiesFrom(sorted, sorted[i].priority)|
  {
    hide GroupsUpTo;
    var g, p := GroupsUpTo(sorted, i + 1), sorted[i].priority;
    GroupsDescend(sorted, i + 1);
    GroupsAre(sorted, i + 1);
    CountDistinct(g);
    forall j | 0 <= j < |sorted|
      ensures if j <= i then p <= sorted[j].priority else sorted[j].priority <= p
    {
      if j < i { assert Ordered(sorted[j], sorted[i], true); }
      if i < j { assert Ordered(sorted[i], sorted[j], true); }
    }
    forall x
      ensures x in PrioritiesFrom(sorted, p) <==> x in Members(g)
    {
      if x in Members(g) {
        var j :| 0 <= j < i + 1 && sorted[j].priority == x;
        assert sorted[j] in sorted;
      }
    }
    assert PrioritiesFrom(sorted, p) == Members(g);
  }

  lemma {:induction false} BootInstantIs(now: int, g: nat)
    ensures BootInstant(now, g) == now + BOOT_PER_NODE * g
  {
    if g > 0 { BootInstantIs(now, g - 1); }
  }

  lemma SamePriorities(nodes: seq<NodeInfo>, sorted: seq<NodeInfo>, descending: bool, p: Priority)
    requires Sorting(nodes, sorted, descending)
    ensures Priorities(sorted) == Priorities(nodes)
    ensures PrioritiesUpTo(sorted, p) == PrioritiesUpTo(nodes, p)
    ensures PrioritiesFrom(sorted, p) == PrioritiesFrom(nodes, p)
  {
    SortedMembers(nodes, sorted, descending);
  }

  /** A shutdown schedules each node at as many equal shares of the battery's life as there are priorities
      up to its own; there is one share more than there are priorities. */
  lemma ShutdownDueAt(nodes: seq<NodeInfo>, sorted: seq<NodeInfo>, now: int, battery: int, i: nat)
    requires Sorting(nodes, sorted, false) && i < |sorted|
    ensures var n, shares := ShutdownSchedule(sorted, now, battery)[i], |Priorities(nodes)| + 1;
      n == sorted[i].(shutdownAt :=
        now + (if battery >= 0 then battery / shares else -((-battery) / shares))
                * |PrioritiesUpTo(nodes, n.priority)| * NS_PER_MS)
  {
    ShutdownRank(sorted, i);
    SamePriorities(nodes, sorted, false, sorted[i].priority);
  }

  /** A boot schedules each node at as many steps as there are priorities from its own up. */
  lemma BootDueAt(nodes: seq<NodeInfo>, sorted: seq<NodeInfo>, now: int, i: nat)
    requires Sorting(nodes, sorted, true) && i < |sorted|
    ensures var n := BootSchedule(sorted, now)[i];
      n == sorted[i].(bootAt := now + BOOT_PER_NODE * |PrioritiesFrom(nodes, n.priority)|)
  {
    BootRank(sorted, i);
    BootInstantIs(now, GroupNumber(sorted, i));
    SamePriorities(nodes, sorted, true, sorted[i].priority);
  }

  lemma ShutdownAllDue(nodes: seq<NodeInfo>, sorted: seq<NodeInfo>, now: int, battery: int)
    requires Sorting(nodes, sorted, false) && battery >= 0
    ensures forall n | n in ShutdownSchedule(sorted, now, battery) :: n.shutdownAt ==
              now + battery / (|Priorities(nodes)| + 1) * |PrioritiesUpTo(nodes, n.priority)| * NS_PER_MS
  {
    forall i | 0 <= i < |sorted| { ShutdownDueAt(nodes, sorted, now, battery, i); }
  }

  lemma BootAllDue(nodes: seq<NodeInfo>, sorted: seq<NodeInfo>, now: int)
    requires Sorting(nodes, sorted, true)
    ensures forall n | n in BootSchedule(sorted, now) :: n.bootAt ==
              now + BOOT_PER_NODE * |PrioritiesFrom(nodes, n.priority)|
  {
    forall i | 0 <= i < |sorted| { BootDueAt(nodes, sorted, now, i); }
  }

  // ---------------------------------------------------------------------
  // The manager as the program keeps it.
  // ---------------------------------------------------------------------

  class PowerManager {
    var state: SystemPower
    var nodes: seq<NodeInfo>
    var initiated: int
    var battery: int
    var graceful: nat
    var hard: nat
    var history: seq<Event>

    ghost function Model(): Power
      reads this
    {
      Power(state, nodes, initiated, battery, graceful, hard, history)
    }

    constructor ()
      ensures Model() == Power(EngineOn, [], 0, 0, 0, 0, [])
    {
      state, nodes, initiated, battery := EngineOn, [], 0, 0;
      graceful, hard, history := 0, 0, [];
    }

    method Emit(kind: EventKind, node: Option<NodeId>, at: int)
      modifies this`history
      ensures history == old(history) + [Event(at, kind, node)]
    {
      history := history + [Event(at, kind, node)];
    }

    method RegisterNode(id: NodeId, priority: Priority)
      modifies this
      ensures Model() == Register(old(Model()), id, priority)
      ensures nodes == if exists i :: 0 <= i < |old(nodes)| && old(nodes)[i].id == id then old(nodes)
                       else old(nodes) + [NodeInfo(id, priority, if state == EngineOn then On else Off, 0, 0, false)]
    {
      for i := 0 to |nodes|
        invariant forall j | 0 <= j < i :: nodes[j].id != id
      {
        if nodes[i].id == id { return; }
      }
      var info := NodeInfo(id, priority, if state == EngineOn then On else Off, 0, 0, false);
      nodes := nodes + [info];
    }

    method InitiateShutdown(now: int, battery: int) returns (ok: bool)
      modifies this
      ensures ok <==> old(state) == EngineOn
      ensures if ok then ShutdownBegun(old(Model()), Model(), now, battery) else Model() == old(Model())
      ensures ok && battery >= 0 ==>
                forall n | n in nodes :: n.shutdownAt ==
                  now + battery / (|Priorities(old(nodes))| + 1) * |PrioritiesUpTo(old(nodes), n.priority)| * NS_PER_MS
    {
      hide Priorities, PrioritiesUpTo, ShutdownSchedule, Sorting;
      if state != EngineOn { return false; }
      state := ShuttingDown;
      initiated := now;
      this.battery := battery;
      Emit(ShutdownInitiated, None, now);
      var sorted := SortByPriority(nodes, false);
      nodes := ScheduleShutdown(sorted, now, battery);
      if battery >= 0 { ShutdownAllDue(old(nodes), sorted, now, battery); }
      return true;
    }

    method HardCutoff(now: int) returns (ok: bool)
      modifies this
      ensures ok <==> old(state) != SystemOff
      ensures Model() == if ok then CutOff(old(Model()), now) else old(Model())
      ensures ok ==>
                && |nodes| == |old(nodes)|
                && forall i | 0 <= i < |nodes| :: nodes[i] ==
                     var n := old(nodes)[i]; if n.power == On then n.(power := Off, clean := false) else n
    {
      if state == SystemOff { return false; }
      ghost var before, past := nodes, history;
      for i := 0 to |nodes|
        invariant |nodes| == |before|
        invariant forall j | 0 <= j < |nodes| :: nodes[j] == if j < i then CutNode(before[j]) else before[j]
        invariant hard == old(hard) + OnUpTo(before, i)
        invariant history == past + CutEventsUpTo(before, i, now)
        invariant state == old(state) && initiated == old(initiated) && battery == old(battery)
                  && graceful == old(graceful)
      {
        if nodes[i].power == On {
          nodes := nodes[i := nodes[i].(power := Off, clean := false)];
          hard := hard + 1;
          Emit(NodeHardCutoff, Some(nodes[i].id), now);
        }
      }
      state := SystemOff;
      Emit(AllOff, None, now);
      return true;
    }

    method InitiateBoot(now: int) returns (ok: bool)
      modifies this
      ensures ok <==> old(state) == SystemOff
      ensures if ok then BootBegun(old(Model()), Model(), now) else Model() == old(Model())
      ensures ok ==>
                forall n | n in nodes :: n.bootAt ==
                  now + BOOT_PER_NODE * |PrioritiesFrom(old(nodes), n.priority)|
    {
      hide Priorities, PrioritiesFrom, BootSchedule, Sorting;
      if state != SystemOff { return false; }
      state := Booting;
      Emit(BootInitiated, None, now);
      var sorted := SortByPriority(nodes, true);
      nodes := ScheduleBoot(sorted, now);
      BootAllDue(old(nodes), sorted, now);
      return true;
    }

    method Tick(now: int, callbackOk: NodeId -> bool)
      modifies this
      ensures Model() == Ticked(old(Model()), now, callbackOk)
    {
      if state == ShuttingDown {
        if ToMs(now - initiated) >= battery {
          var _ := HardCutoff(now);
          return;
        }
        TickShutdown(now, callbackOk);
      } else if state == Booting {
        TickBoot(now);
      }
    }

    method TickShutdown(now: int, callbackOk: NodeId -> bool)
      modifies this
      ensures Model() == ShutdownTick(old(Model()), now, callbackOk)
      ensures |nodes| == |old(nodes)|
      ensures forall i | 0 <= i < |nodes| :: nodes[i] ==
                var n := old(nodes)[i];
                if n.power == On && now >= n.shutdownAt then n.(power := Off, clean := callbackOk(n.id)) else n
      ensures state == if forall i | 0 <= i < |nodes| :: nodes[i].power == Off then SystemOff else old(state)
    {
      hide ShutdownTick, DueUpTo, ShutEventsUpTo;
      NoneShut(nodes, now);
      var allOff := true;
      ghost var before, past := nodes, history;
      for i := 0 to |nodes|
        invariant |nodes| == |before|
        invariant forall j | 0 <= j < |nodes| ::
          nodes[j] == if j < i then ShutNode(before[j], now, callbackOk) else before[j]
        invariant graceful == old(graceful) + |DueUpTo(before, i, now)|
        invariant history == past + ShutEventsUpTo(before, i, now)
        invariant allOff <==> forall j | 0 <= j < i :: nodes[j].power == Off
        invariant state == old(state) && initiated == old(initiated) && battery == old(battery) && hard == old(hard)
      {
        NextShut(before, i, now);
        if nodes[i].power == On && now >= nodes[i].shutdownAt {
          ghost var told := history;
          Emit(NodeShutdownStarted, Some(nodes[i].id), now);
          nodes := nodes[i := nodes[i].(clean := callbackOk(nodes[i].id))];
          nodes := nodes[i := nodes[i].(power := Off)];
          graceful := graceful + 1;
          Emit(NodeShutdownComplete, Some(nodes[i].id), now);
          assert history == told + PairOf(now, NodeShutdownStarted, NodeShutdownComplete, before[i]);
        }
        if nodes[i].power != Off {
          allOff := false;
        }
      }
      ShutdownTickIs(old(Model()), nodes, now, callbackOk);
      assert history + [] == history;
      if allOff {
        state := SystemOff;
        Emit(AllOff, None, now);
      }
    }

    method TickBoot(now: int)
      modifies this
      ensures Model() == BootTick(old(Model()), now)
      ensures |nodes| == |old(nodes)|
      ensures forall i | 0 <= i < |nodes| :: nodes[i] ==
                var n := old(nodes)[i]; if n.power == Off && now >= n.bootAt then n.(power := On) else n
      ensures state == if forall i | 0 <= i < |nodes| :: nodes[i].power == On then EngineOn else old(state)
    {
      hide BootTick;
      var allOn := true;
      ghost var before, past := nodes, history;
      for i := 0 to |nodes|
        invariant |nodes| == |before|
        invariant forall j | 0 <= j < |nodes| :: nodes[j] == if j < i then BootNode(before[j], now) else before[j]
        invariant history == past + BootEventsUpTo(before, i, now)
        invariant allOn <==> forall j | 0 <= j < i :: nodes[j].power == On
        invariant state == old(state) && initiated == old(initiated) && battery == old(battery)
        invariant graceful == old(graceful) && hard == old(hard)
      {
        if nodes[i].power == Off && now >= nodes[i].bootAt {
          ghost var told := history;
          Emit(NodeBootStarted, Some(nodes[i].id), now);
          nodes := nodes[i := nodes[i].(power := On)];
          Emit(NodeBootComplete, Some(nodes[i].id), now);
          assert history == told + PairOf(now, NodeBootStarted, NodeBootComplete, before[i]);
        }
        if nodes[i].power != On {
          allOn := false;
        }
      }
      BootTickIs(old(Model()), nodes, now);
      assert history + [] == history;
      if allOn {
        state := EngineOn;
        Emit(AllOn, None, now);
      }
    }
  }

  method SortByPriority(nodes: seq<NodeInfo>, descending: bool) returns (sorted: seq<NodeInfo>)
    ensures Sorting(nodes, sorted, descending)
  {
    sorted := [];
    for k := 0 to |nodes|
      invariant Sorting(nodes[..k], sorted, descending)
    {
      var p := |sorted|;
      while p > 0 && !Ordered(sorted[p - 1], nodes[k], descending)
        invariant 0 <= p <= |sorted|
        invariant forall i | p <= i < |sorted| :: Ordered(nodes[k], sorted[i], descending)
      {
        p := p - 1;
      }
      assert nodes[..k + 1] == nodes[..k] + [nodes[k]];
      InsertionSorts(nodes[..k], sorted, nodes[k], p, descending);
      sorted := sorted[..p] + [nodes[k]] + sorted[p..];
    }
    assert nodes[..|nodes|] == nodes;
  }

  lemma InsertionSorts(nodes: seq<NodeInfo>, sorted: seq<NodeInfo>, n: NodeInfo, p: nat, descending: bool)
    requires Sorting(nodes, sorted, descending) && p <= |sorted|
    requires p > 0 ==> Ordered(sorted[p - 1], n, descending)
    requires forall i | p <= i < |sorted| :: Ordered(n, sorted[i], descending)
    ensures Sorting(nodes + [n], sorted[..p] + [n] + sorted[p..], descending)
  {
    assert sorted == sorted[..p] + sorted[p..];
    InsertionOrders(sorted, n, p, descending);
  }

  lemma InsertionOrders(sorted: seq<NodeInfo>, n: NodeInfo, p: nat, descending: bool)
    requires SortedNodes(sorted, descending) && p <= |sorted|
    requires p > 0 ==> Ordered(sorted[p - 1], n, descending)
    requires forall i | p <= i < |sorted| :: Ordered(n, sorted[i], descending)
    ensures SortedNodes(sorted[..p] + [n] + sorted[p..], descending)
  {
    var s := sorted[..p] + [n] + sorted[p..];
    forall i, j | 0 <= i < j < |s|
      ensures Ordered(s[i], s[j], descending)
    {
      if j == p {
        if i < p - 1 { assert Ordered(sorted[i], sorted[p - 1], descending); }
      } else if i != p {
        assert Ordered(sorted[if i < p then i else i - 1], sorted[if j < p then j else j - 1], descending);
      }
    }
  }

  method ScheduleShutdown(sorted: seq<NodeInfo>, now: int, battery: int) returns (nodes: seq<NodeInfo>)
    ensures nodes == ShutdownSchedule(sorted, now, battery)
  {
    var priorities: seq<Priority> := [];
    for k := 0 to |sorted|
      invariant priorities == GroupsUpTo(sorted, k)
    {
      var p := sorted[k].priority;
      if priorities == [] || priorities[|priorities| - 1] != p {
        priorities := priorities + [p];
      }
    }
    if |priorities| == 0 { return sorted; }
    var spacing := TruncDiv(battery, |priorities| + 1);
    nodes := [];
    for k := 0 to |sorted|
      invariant |nodes| == k && forall j | 0 <= j < k :: nodes[j] == WithShutdown(sorted, now, battery, j)
    {
      GroupsHold(sorted, |sorted|, k);
      var g := FindGroup(priorities, sorted[k].priority);
      nodes := nodes + [sorted[k].(shutdownAt := now + spacing * (g + 1) * NS_PER_MS)];
    }
  }

  /** The position of a priority that is in the list. */
  method FindGroup(priorities: seq<Priority>, p: Priority) returns (g: nat)
    requires p in priorities
    ensures g == IndexOf(priorities, p)
  {
    for i := 0 to |priorities|
      invariant p in priorities[i..] && IndexOf(priorities, p) == i + IndexOf(priorities[i..], p)
    {
      if priorities[i] == p { return i; }
      assert priorities[i..][1..] == priorities[i + 1..];
    }
  }

  /** The instant the scheduling loop has reached after `k` nodes. */
  function BootTimeAfter(nodes: seq<NodeInfo>, now: int, k: nat): int
    requires k <= |nodes|
  {
    if k == 0 then now else BootInstant(now, GroupNumber(nodes, k - 1))
  }

  lemma NextBootTime(nodes: seq<NodeInfo>, now: int, k: nat)
    requires k < |nodes|
    ensures WithBoot(nodes, now, k) == nodes[k].(bootAt := BootTimeAfter(nodes, now, k + 1))
    ensures BootTimeAfter(nodes, now, k + 1) ==
      BootTimeAfter(nodes, now, k) + if k > 0 && nodes[k - 1].priority == nodes[k].priority then 0 else BOOT_PER_NODE
  {
    if k > 0 {
      var g := GroupsUpTo(nodes, k);
      assert GroupNumber(nodes, k) == |g| + if nodes[k - 1].priority == nodes[k].priority then 0 else 1;
      assert GroupNumber(nodes, k - 1) == |g|;
    } else {
      assert GroupNumber(nodes, 0) == 1;
      assert BootInstant(now, 1) == BootInstant(now, 0) + BOOT_PER_NODE;
    }
  }

  method ScheduleBoot(sorted: seq<NodeInfo>, now: int) returns (nodes: seq<NodeInfo>)
    ensures nodes == BootSchedule(sorted, now)
  {
    nodes := [];
    var bootTime := now;
    var lastPriority: u8 := 0xFF;
    for k := 0 to |sorted|
      invariant |nodes| == k && forall j | 0 <= j < k :: nodes[j] == WithBoot(sorted, now, j)
      invariant bootTime == BootTimeAfter(sorted, now, k)
      invariant lastPriority == if k == 0 then 0xFF else sorted[k - 1].priority
    {
      NextBootTime(sorted, now, k);
      if sorted[k].priority != lastPriority {
        bootTime := bootTime + BOOT_PER_NODE;
        lastPriority := sorted[k].priority;
      }
      nodes := nodes + [sorted[k].(bootAt := bootTime)];
    }
  }
}
