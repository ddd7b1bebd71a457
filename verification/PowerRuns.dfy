/** What every run of the power manager keeps, and what one shutdown amounts to. */
module PowerRuns {
  import opened Types
  import opened PowerManager

  datatype Action =
    | ActRegister(id: NodeId, priority: Priority)
    | ActShutdown(now: int, battery: int)
    | ActCutoff(now: int)
    | ActBoot(now: int)
    | ActTick(now: int, callbackOk: NodeId -> bool)

  ghost predicate Step(p: Power, a: Action, p': Power) {
    match a
    case ActRegister(id, priority) => p' == Register(p, id, priority)
    case ActShutdown(now, battery) => if p.state == EngineOn then ShutdownBegun(p, p', now, battery) else p' == p
    case ActCutoff(now) => p' == if p.state == SystemOff then p else CutOff(p, now)
    case ActBoot(now) => if p.state == SystemOff then BootBegun(p, p', now) else p' == p
    case ActTick(now, callbackOk) => p' == Ticked(p, now, callbackOk)
  }

  /** `states` is a run in which `actions` happen one after another. */
  ghost predicate IsRun(states: seq<Power>, actions: seq<Action>) {
    |states| == |actions| + 1 && forall i | 0 <= i < |actions| :: Step(states[i], actions[i], states[i + 1])
  }

  const START: Power := Power(EngineOn, [], 0, 0, 0, 0, [])

  // ---------------------------------------------------------------------
  // The system state speaks for every node.
  // ---------------------------------------------------------------------

  ghost predicate Settled(p: Power) {
    (p.state == EngineOn ==> AllAre(p.nodes, On)) && (p.state == SystemOff ==> AllAre(p.nodes, Off))
  }

  lemma StepKeepsSettled(p: Power, a: Action, p': Power)
    requires Settled(p) && Step(p, a, p')
    ensures Settled(p')
  {
    if a.ActTick? && p.state == ShuttingDown && BatteryEmpty(p, a.now) {
      assert forall i | 0 <= i < |p'.nodes| :: p'.nodes[i] == CutNode(p.nodes[i]);
    }
  }

  /** In every run: when the engine is on every node is on, when the system is off every node is off. */
  lemma {:induction false} EveryRunSettled(states: seq<Power>, actions: seq<Action>, k: nat)
    requires IsRun(states, actions) && states[0] == START && k <= |actions|
    ensures Settled(states[k])
  {
    if k > 0 {
      EveryRunSettled(states, actions, k - 1);
      StepKeepsSettled(states[k - 1], actions[k - 1], states[k]);
    }
  }

  // ---------------------------------------------------------------------
  // The schedule of a shutdown.
  // ---------------------------------------------------------------------

  /** A node of a lower priority is never scheduled later, one of the same priority never otherwise. */
  lemma ScheduleFollowsPriority(nodes: seq<NodeInfo>, now: int, battery: int, a: NodeInfo, b: NodeInfo)
    requires SortedNodes(nodes, false) && battery >= 0 && a in nodes && b in nodes && a.priority <= b.priority
    ensures ShutdownInstant(nodes, now, battery, a.priority) <= ShutdownInstant(nodes, now, battery, b.priority)
    ensures ShutdownInstant(nodes, now, battery, b.priority) <= LastInstant(nodes, now, battery)
  {
    hide IndexOf, GroupsUpTo, SortedNodes, Spacing, Later;
    var g := Groups(nodes);
    IndexOfMember(nodes, a);
    IndexOfMember(nodes, b);
    GroupsAscend(nodes, |nodes|);
    SpacingNotNegative(nodes, battery);
    var x, y, s := IndexOf(g, a.priority), IndexOf(g, b.priority), Spacing(nodes, battery);
    assert x <= y < |g|;
    InstantsMonotone(now, s, x + 1, y + 1, |g|);
  }

  lemma SpacingNotNegative(nodes: seq<NodeInfo>, battery: int)
    requires battery >= 0
    ensures Spacing(nodes, battery) >= 0
  {
  }

  lemma InstantsMonotone(now: int, s: int, x: int, y: int, z: int)
    requires 0 <= s && x <= y <= z
    ensures Later(now, s, x) <= Later(now, s, y) <= Later(now, s, z)
  {
    MulMonotone(s, x, y);
    MulMonotone(s, y, z);
  }

  /** When the last group goes. */
  function LastInstant(nodes: seq<NodeInfo>, now: int, battery: int): int {
    Later(now, Spacing(nodes, battery), |Groups(nodes)|)
  }

  /** For any number of groups and any positive battery life, the last group is due strictly before
      the battery ends. */
  lemma LastGroupBeforeBatteryEnds(nodes: seq<NodeInfo>, now: int, battery: int)
    requires battery > 0
    ensures now <= LastInstant(nodes, now, battery) < now + battery * NS_PER_MS
  {
    QuotientBelow(battery, |Groups(nodes)|);
  }

  lemma QuotientBelow(b: int, g: nat)
    requires b > 0
    ensures 0 <= b / (g + 1) * g < b
  {
    var s := b / (g + 1);
    assert b == s * (g + 1) + b % (g + 1);
    assert s * (g + 1) == s * g + s;
    MulMonotone(s, 0, g);
  }

  /** The `k`-th group goes within the first four fifths of the battery's life. */
  predicate ByFourFifths(nodes: seq<NodeInfo>, now: int, battery: int, k: nat) {
    5 * (Later(now, Spacing(nodes, battery), k) - now) <= 4 * battery * NS_PER_MS
  }

  lemma DivMod(b: int, d: int) returns (s: int, r: int)
    requires b > 0 && d > 0
    ensures s == b / d && r == b % d && b == s * d + r && 0 <= r < d
  {
    s, r := b / d, b % d;
  }

  /** For one battery life: exactly when what the division drops makes up for the groups beyond four
      fifths of the slots. */
  lemma ByFourFifthsIff(nodes: seq<NodeInfo>, now: int, battery: int, k: nat)
    requires battery > 0
    ensures var slots := |Groups(nodes)| + 1;
      ByFourFifths(nodes, now, battery, k) <==> (5 * k - 4 * slots) * (battery / slots) <= 4 * (battery % slots)
  {
    var slots := |Groups(nodes)| + 1;
    var s, r := DivMod(battery, slots);
    assert (5 * k - 4 * slots) * s == 5 * (s * k) - 4 * (s * slots);
  }

  ghost predicate AlwaysByFourFifths(nodes: seq<NodeInfo>, now: int, k: nat) {
    forall battery: int | battery > 0 :: ByFourFifths(nodes, now, battery, k)
  }

  /** For every battery life: exactly when `k` is at most four fifths of the slots. */
  lemma AlwaysByFourFifthsIff(nodes: seq<NodeInfo>, now: int, k: nat)
    ensures AlwaysByFourFifths(nodes, now, k) <==> 5 * k <= 4 * (|Groups(nodes)| + 1)
  {
    var slots := |Groups(nodes)| + 1;
    if 5 * k <= 4 * slots {
      forall battery: int | battery > 0
        ensures ByFourFifths(nodes, now, battery, k)
      {
        ByFourFifthsIff(nodes, now, battery, k);
        var s, r := DivMod(battery, slots);
        QuotientBelow(battery, slots - 1);
        NonPositive(4 * slots - 5 * k, s);
      }
    } else {
      ByFourFifthsIff(nodes, now, slots, k);
      var s, r := DivMod(slots, slots);
      assert s == 1 && r == 0;
      assert !ByFourFifths(nodes, now, slots, k);
    }
  }

  /** The scheduler's comment reserves the last fifth of the battery for the last group. If that means
      that a fifth is left when it goes, it holds for every battery life up to four groups; if it means
      that all other groups go before, up to nine. */
  lemma LastFifthReservedIff(nodes: seq<NodeInfo>, now: int)
    requires nodes != []
    ensures var g := |Groups(nodes)|;
      && g > 0
      && (AlwaysByFourFifths(nodes, now, g) <==> g <= 4)
      && (AlwaysByFourFifths(nodes, now, g - 1) <==> g <= 9)
  {
    var g := |Groups(nodes)|;
    AlwaysByFourFifthsIff(nodes, now, g);
    AlwaysByFourFifthsIff(nodes, now, g - 1);
  }

  lemma NonPositive(a: int, b: int)
    requires a >= 0 && b >= 0
    ensures -a * b <= 0
  {
  }

  lemma {:induction false} AscendingAtLeast(g: seq<Priority>, i: nat)
    requires Ascending(g) && i < |g|
    ensures g[i] >= i
  {
    if i > 0 { AscendingAtLeast(g, i - 1); }
  }

  /** The program's priorities are 0, 1 and 2; so its schedules always leave the last fifth. */
  lemma ThreePrioritiesLeaveAFifth(nodes: seq<NodeInfo>, now: int, battery: int)
    requires SortedNodes(nodes, false) && battery > 0 && forall n | n in nodes :: n.priority <= 2
    ensures |Groups(nodes)| <= 3
    ensures 5 * (LastInstant(nodes, now, battery) - now) <= 4 * battery * NS_PER_MS
  {
    var g := Groups(nodes);
    if g != [] {
      GroupsAscend(nodes, |nodes|);
      AscendingAtLeast(g, |g| - 1);
      assert nodes[|nodes| - 1] in nodes;
    }
    AlwaysByFourFifthsIff(nodes, now, |g|);
    assert ByFourFifths(nodes, now, battery, |g|);
  }

  // ---------------------------------------------------------------------
  // One shutdown, from its start.
  // ---------------------------------------------------------------------

  /** The record of a shutdown: the counters and the number of nodes at its start, when its last
      group is due, and the nodes shut down gracefully and cut off since, in order. */
  datatype Episode = Episode(
    graceful0: nat, hard0: nat, count: nat, last: int, shut: seq<NodeInfo>, cut: seq<NodeInfo>)

  function OnListUpTo(nodes: seq<NodeInfo>, k: nat): seq<NodeInfo>
    requires k <= |nodes|
  {
    if k == 0 then [] else OnListUpTo(nodes, k - 1) + (if nodes[k - 1].power == On then [nodes[k - 1]] else [])
  }

  function OnList(nodes: seq<NodeInfo>): seq<NodeInfo> {
    OnListUpTo(nodes, |nodes|)
  }

  function Follow(e: Episode, p: Power, a: Action): Episode {
    if p.state != ShuttingDown then e
    else if a.ActCutoff? || (a.ActTick? && BatteryEmpty(p, a.now)) then e.(cut := e.cut + OnList(p.nodes))
    else if a.ActTick? then e.(shut := e.shut + DueUpTo(p.nodes, |p.nodes|, a.now))
    else e
  }

  function FollowAll(e: Episode, states: seq<Power>, actions: seq<Action>, k: nat): Episode
    requires k <= |actions| && |states| == |actions| + 1
  {
    if k == 0 then e else Follow(FollowAll(e, states, actions, k - 1), states[k - 1], actions[k - 1])
  }

  predicate IsOn(nodes: seq<NodeInfo>, i: int) {
    0 <= i < |nodes| && nodes[i].power == On
  }

  /** The nodes still on stand in order of priority and are due in that order; and every node shut
      down so far is of a strictly earlier priority. */
  ghost predicate InOrder(nodes: seq<NodeInfo>, shut: seq<NodeInfo>, last: int) {
    && (forall i, j | IsOn(nodes, i) && IsOn(nodes, j) && i < j :: nodes[i].priority <= nodes[j].priority)
    && (forall i, j | IsOn(nodes, i) && IsOn(nodes, j) && nodes[i].priority <= nodes[j].priority ::
          nodes[i].shutdownAt <= nodes[j].shutdownAt)
    && (forall i | IsOn(nodes, i) :: nodes[i].shutdownAt <= last)
    && SortedNodes(shut, false)
    && (forall i, s | IsOn(nodes, i) && s in shut :: s.priority < nodes[i].priority)
  }

  ghost predicate Underway(p: Power, e: Episode) {
    && (p.state == ShuttingDown || p.state == SystemOff)
    && p.graceful == e.graceful0 + |e.shut| && p.hard == e.hard0 + |e.cut|
    && |e.shut| + |e.cut| + OnCount(p.nodes) == e.count
    && (p.battery < 0 ==> e.shut == [])
    && (p.state == ShuttingDown ==> e.cut == [] && (p.battery >= 0 ==> InOrder(p.nodes, e.shut, e.last)))
    && (p.state == SystemOff ==> AllAre(p.nodes, Off))
    && SortedNodes(e.shut, false)
    && forall s, c | s in e.shut && c in e.cut :: s.priority < c.priority
  }

  lemma {:induction false} CountsOfUpTo(nodes: seq<NodeInfo>, k: nat)
    requires k <= |nodes|
    ensures |OnListUpTo(nodes, k)| == OnUpTo(nodes, k)
    ensures AllAre(nodes, On) ==> OnUpTo(nodes, k) == k
    ensures AllAre(nodes, Off) ==> OnUpTo(nodes, k) == 0
  {
    if k > 0 { CountsOfUpTo(nodes, k - 1); }
  }

  lemma {:induction false} OnListMembers(nodes: seq<NodeInfo>, k: nat, c: NodeInfo) returns (i: nat)
    requires k <= |nodes| && c in OnListUpTo(nodes, k)
    ensures IsOn(nodes, i) && nodes[i] == c
  {
    if c in OnListUpTo(nodes, k - 1) { i := OnListMembers(nodes, k - 1, c); } else { i := k - 1; }
  }

  lemma {:induction false} OnUpToPrefix(nodes: seq<NodeInfo>, extra: NodeInfo, k: nat)
    requires k <= |nodes|
    ensures OnUpTo(nodes + [extra], k) == OnUpTo(nodes, k)
  {
    if k > 0 { OnUpToPrefix(nodes, extra, k - 1); }
  }

  lemma {:induction false} DueCounts(nodes: seq<NodeInfo>, nodes': seq<NodeInfo>, k: nat, now: int, ok: NodeId -> bool)
    requires k <= |nodes| == |nodes'| && forall i | 0 <= i < k :: nodes'[i] == ShutNode(nodes[i], now, ok)
    ensures OnUpTo(nodes', k) + |DueUpTo(nodes, k, now)| == OnUpTo(nodes, k)
    ensures forall d | d in DueUpTo(nodes, k, now) ::
              exists i :: 0 <= i < k && IsOn(nodes, i) && nodes[i] == d && Due(d, now)
  {
    if k > 0 {
      DueCounts(nodes, nodes', k - 1, now, ok);
      if Due(nodes[k - 1], now) { assert IsOn(nodes, k - 1); }
    }
  }

  lemma {:induction false} DueSorted(nodes: seq<NodeInfo>, shut: seq<NodeInfo>, last: int, k: nat, now: int)
    requires InOrder(nodes, shut, last) && k <= |nodes|
    ensures SortedNodes(DueUpTo(nodes, k, now), false)
    ensures forall d, i | d in DueUpTo(nodes, k, now) && IsOn(nodes, i) && k <= i :: d.priority <= nodes[i].priority
  {
    if k > 0 {
      DueSorted(nodes, shut, last, k - 1, now);
      var due := DueUpTo(nodes, k - 1, now);
      if Due(nodes[k - 1], now) {
        assert IsOn(nodes, k - 1);
        assert forall i | 0 <= i < |due| :: due[i] in due;
      }
    }
  }

  lemma TickKeepsInOrder(nodes: seq<NodeInfo>, nodes': seq<NodeInfo>, shut: seq<NodeInfo>, last: int,
                         now: int, ok: NodeId -> bool)
    requires InOrder(nodes, shut, last) && |nodes'| == |nodes|
    requires forall i | 0 <= i < |nodes| :: nodes'[i] == ShutNode(nodes[i], now, ok)
    ensures InOrder(nodes', shut + DueUpTo(nodes, |nodes|, now), last)
    ensures SortedNodes(shut + DueUpTo(nodes, |nodes|, now), false)
  {
    var due := DueUpTo(nodes, |nodes|, now);
    DueCounts(nodes, nodes', |nodes|, now, ok);
    DueSorted(nodes, shut, last, |nodes|, now);
    forall i | IsOn(nodes', i)
      ensures IsOn(nodes, i) && nodes'[i] == nodes[i] && now < nodes[i].shutdownAt
    {
    }
    forall i, d | IsOn(nodes', i) && d in due
      ensures d.priority < nodes'[i].priority
    {
      var j :| 0 <= j < |nodes| && IsOn(nodes, j) && nodes[j] == d && Due(d, now);
    }
    var all := shut + due;
    forall i, j | 0 <= i < j < |all|
      ensures Ordered(all[i], all[j], false)
    {
      if i < |shut| <= j {
        assert all[i] in shut && all[j] in due;
        var k :| 0 <= k < |nodes| && IsOn(nodes, k) && nodes[k] == all[j] && Due(all[j], now);
      } else if |shut| <= i {
        assert Ordered(due[i - |shut|], due[j - |shut|], false);
      } else {
        assert Ordered(shut[i], shut[j], false);
      }
    }
  }

  lemma CutLeavesAllOff(p: Power, now: int)
    ensures AllAre(CutOff(p, now).nodes, Off) && OnCount(CutOff(p, now).nodes) == 0
    ensures |OnList(p.nodes)| == OnCount(p.nodes)
  {
    var nodes' := CutOff(p, now).nodes;
    assert forall i | 0 <= i < |nodes'| :: nodes'[i] == CutNode(p.nodes[i]);
    CountsOfUpTo(nodes', |nodes'|);
    CountsOfUpTo(p.nodes, |p.nodes|);
  }

  lemma CutAfterShut(p: Power, e: Episode, s: NodeInfo, c: NodeInfo)
    requires Underway(p, e) && p.state == ShuttingDown && s in e.shut && c in OnList(p.nodes)
    ensures s.priority < c.priority
  {
    var i := OnListMembers(p.nodes, |p.nodes|, c);
  }

  lemma CutKeepsUnderway(p: Power, e: Episode, now: int)
    requires Underway(p, e) && p.state == ShuttingDown
    ensures Underway(CutOff(p, now), e.(cut := e.cut + OnList(p.nodes)))
  {
    CutLeavesAllOff(p, now);
    assert e.cut + OnList(p.nodes) == OnList(p.nodes);
    forall s, c | s in e.shut && c in OnList(p.nodes)
      ensures s.priority < c.priority
    {
      CutAfterShut(p, e, s, c);
    }
  }

  lemma TickKeepsUnderway(p: Power, e: Episode, now: int, ok: NodeId -> bool)
    requires Underway(p, e) && p.state == ShuttingDown && !BatteryEmpty(p, now) && p.initiated <= now
    ensures Underway(ShutdownTick(p, now, ok), e.(shut := e.shut + DueUpTo(p.nodes, |p.nodes|, now)))
  {
    hide InOrder, OnUpTo, DueUpTo, SortedNodes;
    var p' := ShutdownTick(p, now, ok);
    assert p.battery >= 0;
    assert forall i | 0 <= i < |p'.nodes| :: p'.nodes[i] == ShutNode(p.nodes[i], now, ok);
    DueCounts(p.nodes, p'.nodes, |p.nodes|, now, ok);
    TickKeepsInOrder(p.nodes, p'.nodes, e.shut, e.last, now, ok);
  }

  lemma RegisterKeepsUnderway(p: Power, e: Episode, id: NodeId, priority: Priority)
    requires Underway(p, e)
    ensures Underway(Register(p, id, priority), e)
  {
    var p' := Register(p, id, priority);
    if p' != p {
      var extra := p'.nodes[|p.nodes|];
      assert p'.nodes == p.nodes + [extra];
      OnUpToPrefix(p.nodes, extra, |p.nodes|);
      assert forall i | IsOn(p'.nodes, i) :: IsOn(p.nodes, i) && p'.nodes[i] == p.nodes[i];
    }
  }

  lemma StepKeepsUnderway(p: Power, a: Action, p': Power, e: Episode)
    requires Underway(p, e) && Step(p, a, p') && !a.ActBoot?
    requires a.ActTick? ==> p.initiated <= a.now
    ensures Underway(p', Follow(e, p, a))
  {
    match a
    case ActRegister(id, priority) => RegisterKeepsUnderway(p, e, id, priority);
    case ActShutdown(_, _) =>
    case ActCutoff(now) => if p.state == ShuttingDown { CutKeepsUnderway(p, e, now); }
    case ActTick(now, ok) =>
      if p.state == ShuttingDown {
        if BatteryEmpty(p, now) { CutKeepsUnderway(p, e, now); } else { TickKeepsUnderway(p, e, now, ok); }
      }
  }

  function EpisodeStart(p: Power, p': Power): Episode {
    Episode(p.graceful, p.hard, |p.nodes|, LastInstant(p'.nodes, p'.initiated, p'.battery), [], [])
  }

  lemma {:induction false} GroupsIgnoreSchedule(nodes: seq<NodeInfo>, nodes': seq<NodeInfo>, k: nat)
    requires k <= |nodes| == |nodes'| && forall i | 0 <= i < |nodes| :: nodes'[i].priority == nodes[i].priority
    ensures GroupsUpTo(nodes', k) == GroupsUpTo(nodes, k)
  {
    if k > 0 { GroupsIgnoreSchedule(nodes, nodes', k - 1); }
  }

  lemma ShutdownStartsUnderway(p: Power, p': Power, now: int, battery: int)
    requires Settled(p) && p.state == EngineOn && ShutdownBegun(p, p', now, battery)
    ensures Underway(p', EpisodeStart(p, p')) && |p'.nodes| == |p.nodes|
    ensures p'.initiated == now && p'.battery == battery && p'.state == ShuttingDown
  {
    hide ShutdownSchedule, Sorting, OnUpTo;
    var sorted: seq<NodeInfo> :| Sorting(p.nodes, sorted, false)
      && p' == p.(state := ShuttingDown, initiated := now, battery := battery,
                  nodes := ShutdownSchedule(sorted, now, battery),
                  history := p.history + [Event(now, ShutdownInitiated, None)]);
    ScheduledNodes(p.nodes, sorted, now, battery);
  }

  lemma ScheduledNodes(nodes: seq<NodeInfo>, sorted: seq<NodeInfo>, now: int, battery: int)
    requires Sorting(nodes, sorted, false) && AllAre(nodes, On)
    ensures var scheduled := ShutdownSchedule(sorted, now, battery);
      && |scheduled| == OnCount(scheduled) == |nodes|
      && (battery >= 0 ==> InOrder(scheduled, [], LastInstant(scheduled, now, battery)))
  {
    hide InOrder, OnUpTo;
    ScheduledAllOn(nodes, sorted, now, battery);
    LastIgnoresSchedule(sorted, now, battery);
    if battery >= 0 {
      ScheduleInOrder(sorted, now, battery);
    }
  }

  lemma ScheduledAllOn(nodes: seq<NodeInfo>, sorted: seq<NodeInfo>, now: int, battery: int)
    requires Sorting(nodes, sorted, false) && AllAre(nodes, On)
    ensures var scheduled := ShutdownSchedule(sorted, now, battery); |scheduled| == OnCount(scheduled) == |nodes|
  {
    var scheduled := ShutdownSchedule(sorted, now, battery);
    SortedMembers(nodes, sorted, false);
    forall i | 0 <= i < |scheduled|
      ensures scheduled[i].power == On
    {
      assert sorted[i] in nodes;
    }
    CountsOfUpTo(scheduled, |scheduled|);
  }

  lemma LastIgnoresSchedule(nodes: seq<NodeInfo>, now: int, battery: int)
    ensures LastInstant(ShutdownSchedule(nodes, now, battery), now, battery) == LastInstant(nodes, now, battery)
  {
    GroupsIgnoreSchedule(nodes, ShutdownSchedule(nodes, now, battery), |nodes|);
  }

  lemma ScheduleInOrder(sorted: seq<NodeInfo>, now: int, battery: int)
    requires SortedNodes(sorted, false) && battery >= 0
    ensures InOrder(ShutdownSchedule(sorted, now, battery), [], LastInstant(sorted, now, battery))
  {
    var nodes := ShutdownSchedule(sorted, now, battery);
    forall i, j | IsOn(nodes, i) && IsOn(nodes, j) && nodes[i].priority <= nodes[j].priority
      ensures nodes[i].shutdownAt <= nodes[j].shutdownAt <= LastInstant(sorted, now, battery)
    {
      ScheduleFollowsPriority(sorted, now, battery, sorted[i], sorted[j]);
    }
    forall i, j | IsOn(nodes, i) && IsOn(nodes, j) && i < j
      ensures nodes[i].priority <= nodes[j].priority
    {
      assert Ordered(sorted[i], sorted[j], false);
    }
  }

  /** The run of one shutdown: it begins from a settled system with the engine on, no boot follows,
      and the clock does not run back behind its start. */
  ghost predicate ShutdownRun(p: Power, now: int, battery: int, states: seq<Power>, actions: seq<Action>) {
    && Settled(p) && p.state == EngineOn && IsRun(states, actions) && ShutdownBegun(p, states[0], now, battery)
    && forall i | 0 <= i < |actions| :: !actions[i].ActBoot? && (actions[i].ActTick? ==> now <= actions[i].now)
  }

  lemma {:induction false} ShutdownStaysUnderway(p: Power, now: int, battery: int, states: seq<Power>,
                                                 actions: seq<Action>, k: nat)
    requires ShutdownRun(p, now, battery, states, actions) && k <= |actions|
    ensures Underway(states[k], FollowAll(EpisodeStart(p, states[0]), states, actions, k))
    ensures states[k].initiated == now && states[k].battery == battery
    ensures states[k].state == ShuttingDown || states[k].state == SystemOff
  {
    hide Underway, Step, ShutdownBegun;
    ShutdownStartsUnderway(p, states[0], now, battery);
    if k > 0 {
      ShutdownStaysUnderway(p, now, battery, states, actions, k - 1);
      var e := FollowAll(EpisodeStart(p, states[0]), states, actions, k - 1);
      StepOfRun(p, now, battery, states, actions, k - 1);
      StepKeepsUnderway(states[k - 1], actions[k - 1], states[k], e);
      StepKeepsStart(states[k - 1], actions[k - 1], states[k]);
    }
  }

  lemma StepOfRun(p: Power, now: int, battery: int, states: seq<Power>, actions: seq<Action>, k: nat)
    requires ShutdownRun(p, now, battery, states, actions) && k < |actions|
    ensures Step(states[k], actions[k], states[k + 1])
    ensures !actions[k].ActBoot? && (actions[k].ActTick? ==> now <= actions[k].now)
  {
  }

  lemma StepKeepsStart(p: Power, a: Action, p': Power)
    requires Step(p, a, p') && !a.ActBoot? && (p.state == ShuttingDown || p.state == SystemOff)
    ensures p'.initiated == p.initiated && p'.battery == p.battery
            && (p'.state == ShuttingDown || p'.state == SystemOff)
  {
  }

  /** The accounts of a shutdown, at every moment of it, however late and irregular its ticks: the
      counters have grown by the nodes shut down and the nodes cut; these and the nodes still on are
      the nodes that were on at the start; nodes are shut down in order of priority; and every node
      that is cut has a strictly later priority than every node that was shut down. */
  lemma ShutdownAccounts(p: Power, now: int, battery: int, states: seq<Power>, actions: seq<Action>, k: nat)
    requires ShutdownRun(p, now, battery, states, actions) && k <= |actions|
    ensures var e := FollowAll(EpisodeStart(p, states[0]), states, actions, k);
      && states[k].graceful == p.graceful + |e.shut| && states[k].hard == p.hard + |e.cut|
      && |e.shut| + |e.cut| + OnCount(states[k].nodes) == OnCount(p.nodes) == |p.nodes|
      && (states[k].state == SystemOff ==> |e.shut| + |e.cut| == |p.nodes| && AllAre(states[k].nodes, Off))
      && (forall i, j | 0 <= i < j < |e.shut| :: e.shut[i].priority <= e.shut[j].priority)
      && (forall s, c | s in e.shut && c in e.cut :: s.priority < c.priority)
  {
    ShutdownStaysUnderway(p, now, battery, states, actions, k);
    CountsOfUpTo(p.nodes, |p.nodes|);
    CountsOfUpTo(states[k].nodes, |states[k].nodes|);
    var e := FollowAll(EpisodeStart(p, states[0]), states, actions, k);
    FollowKeepsStart(EpisodeStart(p, states[0]), states, actions, k);
    forall i, j | 0 <= i < j < |e.shut|
      ensures e.shut[i].priority <= e.shut[j].priority
    {
      assert Ordered(e.shut[i], e.shut[j], false);
    }
  }

  lemma {:induction false} FollowKeepsStart(e: Episode, states: seq<Power>, actions: seq<Action>, k: nat)
    requires k <= |actions| && |states| == |actions| + 1
    ensures var e' := FollowAll(e, states, actions, k);
      e'.graceful0 == e.graceful0 && e'.hard0 == e.hard0 && e'.count == e.count && e'.last == e.last
  {
    if k > 0 { FollowKeepsStart(e, states, actions, k - 1); }
  }

  /** With a positive battery life and no external cutoff, a tick from the last group's instant on but
      before the battery ends, with no tick at or past the end before it, leaves the system off, every
      node shut down gracefully and none cut. */
  lemma TimelyTickFinishesGracefully(p: Power, now: int, battery: int, states: seq<Power>, actions: seq<Action>)
    requires ShutdownRun(p, now, battery, states, actions) && battery > 0 && |actions| > 0
    requires forall i | 0 <= i < |actions| :: !actions[i].ActCutoff?
    requires forall i | 0 <= i < |actions| && actions[i].ActTick? :: ToMs(actions[i].now - now) < battery
    requires var final := actions[|actions| - 1];
      final.ActTick? && LastInstant(states[0].nodes, now, battery) <= final.now
    ensures var p' := states[|actions|];
      && p'.state == SystemOff && AllAre(p'.nodes, Off)
      && p'.graceful == p.graceful + |p.nodes| && p'.hard == p.hard
  {
    LastTickTurnsOff(p, now, battery, states, actions);
    ShutdownAccounts(p, now, battery, states, actions, |actions|);
    NothingCut(p, now, battery, states, actions, |actions|);
  }

  lemma LastTickTurnsOff(p: Power, now: int, battery: int, states: seq<Power>, actions: seq<Action>)
    requires ShutdownRun(p, now, battery, states, actions) && battery > 0 && |actions| > 0
    requires var final := actions[|actions| - 1];
      final.ActTick? && ToMs(final.now - now) < battery && LastInstant(states[0].nodes, now, battery) <= final.now
    ensures states[|actions|].state == SystemOff
  {
    hide Underway, ShutdownBegun, Ticked;
    var k := |actions| - 1;
    var e := UnderwayUntil(p, now, battery, states, actions, k);
    assert Step(states[k], actions[k], states[k + 1]);
    LastTickShutsAll(states[k], e, actions[k].now, actions[k].callbackOk);
  }

  lemma UnderwayUntil(p: Power, now: int, battery: int, states: seq<Power>, actions: seq<Action>, k: nat)
    returns (e: Episode)
    requires ShutdownRun(p, now, battery, states, actions) && k <= |actions|
    ensures Underway(states[k], e) && states[k].initiated == now && states[k].battery == battery
    ensures e.last == LastInstant(states[0].nodes, now, battery)
  {
    e := FollowAll(EpisodeStart(p, states[0]), states, actions, k);
    ShutdownStaysUnderway(p, now, battery, states, actions, 0);
    ShutdownStaysUnderway(p, now, battery, states, actions, k);
    FollowKeepsStart(EpisodeStart(p, states[0]), states, actions, k);
  }

  lemma LastTickShutsAll(p: Power, e: Episode, now: int, ok: NodeId -> bool)
    requires Underway(p, e) && p.battery >= 0 && !BatteryEmpty(p, now) && e.last <= now
    ensures Ticked(p, now, ok).state == SystemOff
  {
    if p.state == ShuttingDown {
      forall i | 0 <= i < |p.nodes|
        ensures ShutNode(p.nodes[i], now, ok).power == Off
      {
        if p.nodes[i].power == On { assert IsOn(p.nodes, i); }
      }
    }
  }

  lemma {:induction false} NothingCut(p: Power, now: int, battery: int, states: seq<Power>,
                                     actions: seq<Action>, k: nat)
    requires ShutdownRun(p, now, battery, states, actions) && k <= |actions|
    requires forall i | 0 <= i < |actions| :: !actions[i].ActCutoff?
    requires forall i | 0 <= i < |actions| && actions[i].ActTick? :: ToMs(actions[i].now - now) < battery
    ensures FollowAll(EpisodeStart(p, states[0]), states, actions, k).cut == []
  {
    hide Underway, ShutdownBegun, Step;
    if k > 0 {
      NothingCut(p, now, battery, states, actions, k - 1);
      var _ := UnderwayUntil(p, now, battery, states, actions, k - 1);
      TimelyStepCutsNothing(FollowAll(EpisodeStart(p, states[0]), states, actions, k - 1),
                            states[k - 1], actions[k - 1]);
    }
  }

  lemma TimelyStepCutsNothing(e: Episode, p: Power, a: Action)
    requires !a.ActCutoff? && (a.ActTick? ==> !BatteryEmpty(p, a.now))
    ensures Follow(e, p, a).cut == e.cut
  {
  }

  // ---------------------------------------------------------------------
  // Stage by stage.
  // ---------------------------------------------------------------------

  lemma BegunDue(p: Power, p': Power, now: int, battery: int)
    requires ShutdownBegun(p, p', now, battery) && battery >= 0
    ensures forall n | n in p'.nodes ::
              && n.priority in Priorities(p.nodes)
              && n.shutdownAt ==
                   now + battery / (|Priorities(p.nodes)| + 1) * |PrioritiesUpTo(p.nodes, n.priority)| * NS_PER_MS
  {
    hide PrioritiesUpTo;
    var sorted: seq<NodeInfo> :| Sorting(p.nodes, sorted, false)
      && p' == p.(state := ShuttingDown, initiated := now, battery := battery,
                  nodes := ShutdownSchedule(sorted, now, battery),
                  history := p.history + [Event(now, ShutdownInitiated, None)]);
    ShutdownAllDue(p.nodes, sorted, now, battery);
    SortedMembers(p.nodes, sorted, false);
    forall i | 0 <= i < |sorted|
      ensures p'.nodes[i].priority in Priorities(p.nodes)
    {
      assert sorted[i] in p.nodes;
    }
  }

  lemma MorePriorities(nodes: seq<NodeInfo>, p: Priority, q: Priority)
    requires p < q && q in Priorities(nodes)
    ensures |PrioritiesUpTo(nodes, p)| + 1 <= |PrioritiesUpTo(nodes, q)|
  {
    SubsetSmaller(PrioritiesUpTo(nodes, p) + {q}, PrioritiesUpTo(nodes, q));
  }

  lemma LaterShare(share: int, x: int, y: int)
    requires 0 <= share && x + 1 <= y
    ensures share * x * NS_PER_MS + share * NS_PER_MS <= share * y * NS_PER_MS
  {
    MulMonotone(share, x + 1, y);
  }

  /** In a shutdown just begun nodes of one priority are due together, and nodes of a later priority at
      least one share of the battery's life after those of an earlier one. */
  lemma StagesApart(p: Power, p': Power, now: int, battery: int, a: NodeInfo, b: NodeInfo)
    requires ShutdownBegun(p, p', now, battery) && battery >= 0 && a in p'.nodes && b in p'.nodes
    ensures a.priority == b.priority ==> a.shutdownAt == b.shutdownAt
    ensures a.priority < b.priority ==>
              a.shutdownAt + battery / (|Priorities(p.nodes)| + 1) * NS_PER_MS <= b.shutdownAt
  {
    hide Priorities, PrioritiesUpTo, ShutdownBegun;
    BegunDue(p, p', now, battery);
    if a.priority < b.priority {
      MorePriorities(p.nodes, a.priority, b.priority);
      LaterShare(battery / (|Priorities(p.nodes)| + 1),
                 |PrioritiesUpTo(p.nodes, a.priority)|, |PrioritiesUpTo(p.nodes, b.priority)|);
    }
  }

  lemma SubsetSmaller(x: set<Priority>, y: set<Priority>)
    requires x <= y
    ensures |x| <= |y|
  {
    assert y == x + (y - x) && x !! (y - x);
  }

  /** The positions below `k` of nodes that are on, and of those that are on and due. */
  ghost function OnBelow(nodes: seq<NodeInfo>, k: nat): set<int>
    requires k <= |nodes|
  {
    set i | 0 <= i < k && nodes[i].power == On
  }

  ghost function DueBelow(nodes: seq<NodeInfo>, k: nat, now: int): set<int>
    requires k <= |nodes|
  {
    set i | 0 <= i < k && nodes[i].power == On && nodes[i].shutdownAt <= now
  }

  lemma {:induction false} CountOn(nodes: seq<NodeInfo>, k: nat)
    requires k <= |nodes|
    ensures OnUpTo(nodes, k) == |OnBelow(nodes, k)|
  {
    if k > 0 {
      CountOn(nodes, k - 1);
      var before := OnBelow(nodes, k - 1);
      assert k - 1 !in before;
      if nodes[k - 1].power == On {
        assert OnBelow(nodes, k) == before + {k - 1};
      } else {
        assert OnBelow(nodes, k) == before;
      }
    }
  }

  lemma {:induction false} CountDue(nodes: seq<NodeInfo>, k: nat, now: int)
    requires k <= |nodes|
    ensures |DueUpTo(nodes, k, now)| == |DueBelow(nodes, k, now)|
  {
    if k > 0 {
      CountDue(nodes, k - 1, now);
      var before, n := DueBelow(nodes, k - 1, now), nodes[k - 1];
      assert DueBelow(nodes, k, now) == if n.power == On && n.shutdownAt <= now then before + {k - 1} else before;
    }
  }

  /** At the end of the battery's life, to the nanosecond, a tick cuts off all that is still on; before it
      cuts nothing and shuts down exactly what is due. */
  lemma BatteryEndCutsTheRest(p: Power, now: int, ok: NodeId -> bool)
    requires p.state == ShuttingDown && p.battery > 0
    ensures var p' := Ticked(p, now, ok);
      if now - p.initiated >= p.battery * NS_PER_MS then
        && p'.state == SystemOff && AllAre(p'.nodes, Off) && p'.graceful == p.graceful
        && p'.hard == p.hard + |OnBelow(p.nodes, |p.nodes|)|
      else
        && p'.hard == p.hard
        && p'.graceful == p.graceful + |DueBelow(p.nodes, |p.nodes|, now)|
  {
    CountOn(p.nodes, |p.nodes|);
    CountDue(p.nodes, |p.nodes|, now);
    CutLeavesAllOff(p, now);
  }

  /** Neither cut off nor past the battery's end. */
  ghost predicate InTime(actions: seq<Action>, now: int, battery: int) {
    forall i | 0 <= i < |actions| ::
      !actions[i].ActCutoff? && (actions[i].ActTick? ==> ToMs(actions[i].now - now) < battery)
  }

  ghost predicate NoTickSince(actions: seq<Action>, k: nat, at: int)
    requires k <= |actions|
  {
    forall j | 0 <= j < k && actions[j].ActTick? :: actions[j].now < at
  }

  /** While the battery lasts a node goes with the first tick at or past its own instant, not before and
      not later, whatever else happens meanwhile. */
  lemma {:induction false} GoesAtItsInstant(p: Power, now: int, battery: int, states: seq<Power>, actions: seq<Action>,
                                            k: nat, i: nat)
    requires ShutdownRun(p, now, battery, states, actions) && InTime(actions, now, battery)
    requires k <= |actions| && i < |states[0].nodes|
    ensures i < |states[k].nodes|
    ensures var n, n0 := states[k].nodes[i], states[0].nodes[i];
      && n.id == n0.id && n.priority == n0.priority && n.shutdownAt == n0.shutdownAt
      && (n.power == On <==> NoTickSince(actions, k, n0.shutdownAt))
  {
    hide Underway, ShutdownBegun, FollowAll;
    if k == 0 {
      AllOnAtStart(p, states[0], now, battery);
    } else {
      GoesAtItsInstant(p, now, battery, states, actions, k - 1, i);
      StepOfRun(p, now, battery, states, actions, k - 1);
      assert !actions[k - 1].ActCutoff?
        && (actions[k - 1].ActTick? ==> ToMs(actions[k - 1].now - now) < battery);
      OffMeansAllOff(p, now, battery, states, actions, k - 1);
      StepAtInstant(states[k - 1], actions[k - 1], states[k], i);
    }
  }

  lemma AllOnAtStart(p: Power, p': Power, now: int, battery: int)
    requires Settled(p) && p.state == EngineOn && ShutdownBegun(p, p', now, battery)
    ensures AllAre(p'.nodes, On)
  {
    var sorted: seq<NodeInfo> :| Sorting(p.nodes, sorted, false)
      && p' == p.(state := ShuttingDown, initiated := now, battery := battery,
                  nodes := ShutdownSchedule(sorted, now, battery),
                  history := p.history + [Event(now, ShutdownInitiated, None)]);
    SortedMembers(p.nodes, sorted, false);
    forall i | 0 <= i < |sorted|
      ensures sorted[i].power == On
    {
      assert sorted[i] in p.nodes;
    }
  }

  lemma OffMeansAllOff(p: Power, now: int, battery: int, states: seq<Power>, actions: seq<Action>, k: nat)
    requires ShutdownRun(p, now, battery, states, actions) && k <= |actions|
    ensures states[k].initiated == now && states[k].battery == battery
    ensures states[k].state == ShuttingDown || (states[k].state == SystemOff && AllAre(states[k].nodes, Off))
  {
    ShutdownStaysUnderway(p, now, battery, states, actions, k);
  }

  lemma StepAtInstant(p: Power, a: Action, p': Power, i: nat)
    requires Step(p, a, p') && !a.ActBoot? && !a.ActCutoff? && i < |p.nodes|
    requires p.state == ShuttingDown || (p.state == SystemOff && AllAre(p.nodes, Off))
    requires a.ActTick? ==> !BatteryEmpty(p, a.now)
    ensures i < |p'.nodes|
    ensures var n, n' := p.nodes[i], p'.nodes[i];
      && n'.id == n.id && n'.priority == n.priority && n'.shutdownAt == n.shutdownAt
      && (n'.power == On <==> n.power == On && (a.ActTick? ==> a.now < n.shutdownAt))
  {
  }

  // ---------------------------------------------------------------------
  // Booting.
  // ---------------------------------------------------------------------

  lemma {:induction false} GroupsGrow(nodes: seq<NodeInfo>, j: nat, k: nat)
    requires j <= k <= |nodes|
    ensures |GroupsUpTo(nodes, j)| <= |GroupsUpTo(nodes, k)|
    ensures 0 < j && (forall i | j <= i < k :: nodes[i].priority == nodes[j - 1].priority) ==>
              GroupsUpTo(nodes, j) == GroupsUpTo(nodes, k)
  {
    if j < k { GroupsGrow(nodes, j, k - 1); }
  }

  lemma SamePriorityBetween(nodes: seq<NodeInfo>, i: nat, j: nat)
    requires SortedNodes(nodes, true) && i < j < |nodes| && nodes[i].priority == nodes[j].priority
    ensures forall k | i + 1 <= k < j + 1 :: nodes[k].priority == nodes[i].priority
  {
    forall k | i + 1 <= k < j + 1
      ensures nodes[k].priority == nodes[i].priority
    {
      assert Ordered(nodes[i], nodes[k], true) && (k == j || Ordered(nodes[k], nodes[j], true));
    }
  }

  /** Nodes boot from the highest priority down: a node is due no later than the nodes after it, at
      the same instant as those of its own priority, and a whole step before those of lower ones. */
  lemma BootFollowsPriority(nodes: seq<NodeInfo>, now: int, i: nat, j: nat)
    requires SortedNodes(nodes, true) && i < j < |nodes|
    ensures var s := BootSchedule(nodes, now);
      if nodes[i].priority == nodes[j].priority then s[i].bootAt == s[j].bootAt
      else nodes[j].priority < nodes[i].priority && s[i].bootAt + BOOT_PER_NODE <= s[j].bootAt
  {
    hide BootInstant, GroupsUpTo;
    assert Ordered(nodes[i], nodes[j], true);
    if nodes[i].priority == nodes[j].priority {
      SamePriorityBetween(nodes, i, j);
      GroupsGrow(nodes, i + 1, j + 1);
    } else {
      LowerGroupsLater(nodes, i, j);
      BootInstantsApart(now, |GroupsUpTo(nodes, i + 1)|, |GroupsUpTo(nodes, j + 1)|);
    }
  }

  lemma {:induction false} BootInstantsGrow(now: int, g: nat, h: nat)
    requires g <= h
    ensures BootInstant(now, g) <= BootInstant(now, h)
  {
    if g < h { BootInstantsGrow(now, g, h - 1); }
  }

  lemma BootInstantsApart(now: int, g: nat, h: nat)
    requires g < h
    ensures BootInstant(now, g) + BOOT_PER_NODE <= BootInstant(now, h)
  {
    BootInstantsGrow(now, g + 1, h);
  }

  lemma {:induction false} LowerGroupsLater(nodes: seq<NodeInfo>, i: nat, j: nat)
    requires SortedNodes(nodes, true) && i < j < |nodes| && nodes[i].priority != nodes[j].priority
    ensures |GroupsUpTo(nodes, i + 1)| < |GroupsUpTo(nodes, j + 1)|
    decreases j
  {
    assert Ordered(nodes[j - 1], nodes[j], true);
    if nodes[j - 1].priority == nodes[j].priority {
      LowerGroupsLater(nodes, i, j - 1);
    } else {
      GroupsGrow(nodes, i + 1, j);
    }
  }

  /** When the last group boots. */
  function LastBoot(nodes: seq<NodeInfo>, now: int): int {
    BootInstant(now, |Groups(nodes)|)
  }

  lemma BootScheduleDue(sorted: seq<NodeInfo>, now: int)
    ensures var nodes := BootSchedule(sorted, now);
      && LastBoot(nodes, now) == LastBoot(sorted, now)
      && (forall i | 0 <= i < |nodes| :: nodes[i].bootAt <= LastBoot(sorted, now))
      && (nodes != [] ==> nodes[|nodes| - 1].bootAt == LastBoot(sorted, now))
  {
    hide BootInstant, GroupsUpTo;
    var nodes := BootSchedule(sorted, now);
    GroupsIgnoreSchedule(sorted, nodes, |sorted|);
    forall i | 0 <= i < |nodes|
      ensures nodes[i].bootAt <= LastBoot(sorted, now)
      ensures i == |nodes| - 1 ==> nodes[i].bootAt == LastBoot(sorted, now)
    {
      GroupsGrow(sorted, i + 1, |sorted|);
      BootInstantsGrow(now, GroupNumber(sorted, i), |Groups(sorted)|);
    }
  }

  lemma BootSortedOff(p: Power, p': Power, now: int) returns (sorted: seq<NodeInfo>)
    requires p.state == SystemOff && Settled(p) && BootBegun(p, p', now)
    ensures p'.state == Booting && p'.nodes == BootSchedule(sorted, now) && |sorted| == |p.nodes|
    ensures AllAre(sorted, Off)
  {
    sorted :| Sorting(p.nodes, sorted, true)
      && p' == p.(state := Booting, nodes := BootSchedule(sorted, now),
                  history := p.history + [Event(now, BootInitiated, None)]);
    SortedMembers(p.nodes, sorted, true);
    forall i | 0 <= i < |sorted|
      ensures sorted[i].power == Off
    {
      assert sorted[i] in p.nodes;
    }
  }

  /** A first tick once the last group is due completes the boot: the engine is on and so is every node. */
  lemma BootCompletes(p: Power, p': Power, now: int, later: int, ok: NodeId -> bool)
    requires p.state == SystemOff && Settled(p) && BootBegun(p, p', now)
    requires later >= LastBoot(p'.nodes, now)
    ensures Ticked(p', later, ok).state == EngineOn && AllAre(Ticked(p', later, ok).nodes, On)
    ensures |Ticked(p', later, ok).nodes| == |p.nodes|
  {
    hide LastBoot;
    var sorted := BootSortedOff(p, p', now);
    BootScheduleDue(sorted, now);
    forall i | 0 <= i < |sorted|
      ensures BootNode(p'.nodes[i], later).power == On
    {
    }
  }

  /** A boot in progress whose last group is due at `last`: some node still waits for that instant, and
      the nodes that joined since are due at the clock's epoch. */
  ghost predicate BootPending(q: Power, last: int, joined: bool) {
    && q.state == Booting
    && (forall i | 0 <= i < |q.nodes| :: q.nodes[i].bootAt <= last || (joined && q.nodes[i].bootAt == 0))
    && (exists i :: 0 <= i < |q.nodes| && q.nodes[i].power == Off && q.nodes[i].bootAt == last)
  }

  lemma BootStartsPending(p: Power, p': Power, now: int)
    requires p.state == SystemOff && Settled(p) && BootBegun(p, p', now) && p.nodes != []
    ensures BootPending(p', LastBoot(p'.nodes, now), false)
  {
    var sorted := BootSortedOff(p, p', now);
    BootScheduleDue(sorted, now);
    assert p'.nodes[|sorted| - 1].power == sorted[|sorted| - 1].power;
  }

  /** Only a tick at or past `last`, or a cutoff, ends it. */
  lemma StepKeepsBootPending(q: Power, a: Action, q': Power, last: int, joined: bool)
    requires BootPending(q, last, joined) && Step(q, a, q')
    requires !a.ActCutoff? && (a.ActTick? ==> a.now < last)
    ensures BootPending(q', last, joined || a.ActRegister?)
  {
    var i :| 0 <= i < |q.nodes| && q.nodes[i].power == Off && q.nodes[i].bootAt == last;
    match a
    case ActRegister(id, priority) => assert q'.nodes[i] == q.nodes[i];
    case ActShutdown(_, _) =>
    case ActBoot(_) =>
    case ActTick(now, _) =>
      assert forall j | 0 <= j < |q.nodes| :: q'.nodes[j] == BootNode(q.nodes[j], now);
      assert q'.nodes[i].power == Off;
  }

  lemma LateTickBoots(q: Power, now: int, ok: NodeId -> bool, last: int, joined: bool)
    requires BootPending(q, last, joined) && last <= now && (joined ==> 0 <= now)
    ensures Ticked(q, now, ok).state == EngineOn && AllAre(Ticked(q, now, ok).nodes, On)
  {
    forall j | 0 <= j < |q.nodes|
      ensures BootNode(q.nodes[j], now).power == On
    {
    }
  }

  /** The run of one boot, from a settled system that is off. */
  ghost predicate BootRun(p: Power, now: int, states: seq<Power>, actions: seq<Action>) {
    Settled(p) && p.state == SystemOff && IsRun(states, actions) && BootBegun(p, states[0], now)
  }

  predicate Joined(actions: seq<Action>, k: nat)
    requires k <= |actions|
  {
    exists i :: 0 <= i < k && actions[i].ActRegister?
  }

  /** Before the tick at `k` nothing cuts the boot off, and no tick reaches the last group's instant. */
  ghost predicate EarlyUntil(actions: seq<Action>, k: nat, last: int)
    requires k <= |actions|
  {
    forall i | 0 <= i < k :: !actions[i].ActCutoff? && (actions[i].ActTick? ==> actions[i].now < last)
  }

  lemma {:induction false} BootStaysPending(p: Power, now: int, states: seq<Power>, actions: seq<Action>, k: nat)
    requires BootRun(p, now, states, actions) && p.nodes != [] && k <= |actions|
    requires EarlyUntil(actions, k, LastBoot(states[0].nodes, now))
    ensures BootPending(states[k], LastBoot(states[0].nodes, now), Joined(actions, k))
  {
    hide BootPending, Step, BootBegun, LastBoot;
    BootStartsPending(p, states[0], now);
    if k > 0 {
      var last := LastBoot(states[0].nodes, now);
      BootStaysPending(p, now, states, actions, k - 1);
      StepKeepsBootPending(states[k - 1], actions[k - 1], states[k], last, Joined(actions, k - 1));
      assert Joined(actions, k) == (Joined(actions, k - 1) || actions[k - 1].ActRegister?);
    }
  }

  /** Over a run, with any ticks, registrations and refused requests in between: the boot lasts until the
      first tick at or past the last group's instant, and that tick turns the engine and every node on.
      A node registered meanwhile is due at the clock's epoch, which must have come. */
  lemma BootEndsAtLastGroup(p: Power, now: int, states: seq<Power>, actions: seq<Action>, k: nat)
    requires BootRun(p, now, states, actions) && p.nodes != [] && k < |actions| && actions[k].ActTick?
    requires EarlyUntil(actions, k, LastBoot(states[0].nodes, now)) && (Joined(actions, k) ==> 0 <= actions[k].now)
    ensures states[k].state == Booting
    ensures states[k + 1].state == EngineOn <==> LastBoot(states[0].nodes, now) <= actions[k].now
    ensures states[k + 1].state == EngineOn ==> AllAre(states[k + 1].nodes, On)
  {
    hide LastBoot;
    var last := LastBoot(states[0].nodes, now);
    BootStaysPending(p, now, states, actions, k);
    assert Step(states[k], actions[k], states[k + 1]);
    if last <= actions[k].now {
      LateTickBoots(states[k], actions[k].now, actions[k].callbackOk, last, Joined(actions, k));
    } else {
      StepKeepsBootPending(states[k], actions[k], states[k + 1], last, Joined(actions, k));
    }
  }
}
