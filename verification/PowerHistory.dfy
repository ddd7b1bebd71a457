/** The event history of the power manager tells what happened: every change of a node's power, and of the
    system's state, is recorded once, when it happens, and nothing else is (src/thread/PowerManager.cpp). */
module PowerHistory {
  import opened Types
  import opened PowerManager
  import opened PowerRuns

  /** What an event says of a node's power, if anything. */
  function Says(e: Event, id: NodeId): Option<NodePower> {
    if e.node != Some(id) then None
    else match e.kind
      case NodeShutdownComplete => Some(Off)
      case NodeHardCutoff => Some(Off)
      case NodeBootComplete => Some(On)
      case _ => None
  }

  /** The last word of a list of events on a node's power. */
  function LastWord(es: seq<Event>, id: NodeId): Option<NodePower> {
    if es == [] then None
    else
      var last := |es| - 1;
      if Says(es[last], id).Some? then Says(es[last], id) else LastWord(es[..last], id)
  }

  function CountKind(es: seq<Event>, kind: EventKind): nat {
    if es == [] then 0 else CountKind(es[..|es| - 1], kind) + (if es[|es| - 1].kind == kind then 1 else 0)
  }

  ghost predicate DistinctIds(nodes: seq<NodeInfo>) {
    forall i, j | 0 <= i < j < |nodes| :: nodes[i].id != nodes[j].id
  }

  lemma OneMore(es: seq<Event>, e: Event, id: NodeId, kind: EventKind)
    ensures LastWord(es + [e], id) == if Says(e, id).Some? then Says(e, id) else LastWord(es, id)
    ensures CountKind(es + [e], kind) == CountKind(es, kind) + if e.kind == kind then 1 else 0
  {
    assert (es + [e])[..|es|] == es;
  }

  lemma {:induction false} CountsAdd(a: seq<Event>, b: seq<Event>, kind: EventKind)
    ensures CountKind(a + b, kind) == CountKind(a, kind) + CountKind(b, kind)
  {
    if b == [] {
      assert a + b == a;
    } else {
      var last := |b| - 1;
      CountsAdd(a, b[..last], kind);
      assert a + b == a + b[..last] + [b[last]];
      OneMore(a + b[..last], b[last], 0, kind);
    }
  }

  // ---------------------------------------------------------------------
  // The events of one step.
  // ---------------------------------------------------------------------

  /** The events so far are all of instant `at`, and tell exactly the changes of the first `k` nodes. */
  ghost predicate Tells(es: seq<Event>, nodes: seq<NodeInfo>, nodes': seq<NodeInfo>, k: nat, at: int)
    requires |nodes| == |nodes'|
  {
    && (forall e | e in es :: e.at == at && e.node.Some?)
    && forall i | 0 <= i < |nodes| :: Told(es, nodes, nodes', k, i)
  }

  predicate Told(es: seq<Event>, nodes: seq<NodeInfo>, nodes': seq<NodeInfo>, k: nat, i: nat)
    requires |nodes| == |nodes'| && i < |nodes|
  {
    LastWord(es, nodes[i].id) ==
      if i < k && nodes'[i].power != nodes[i].power then Some(nodes'[i].power) else None
  }

  lemma TellsEvent(es: seq<Event>, e: Event, nodes: seq<NodeInfo>, nodes': seq<NodeInfo>, k: nat, at: int)
    requires |nodes| == |nodes'| && k < |nodes| && DistinctIds(nodes) && Tells(es, nodes, nodes', k, at)
    requires e.at == at && e.node == Some(nodes[k].id)
    requires nodes'[k].power != nodes[k].power && Says(e, nodes[k].id) == Some(nodes'[k].power)
    ensures Tells(es + [e], nodes, nodes', k + 1, at)
  {
    var longer, next := es + [e], k + 1;
    forall i | 0 <= i < |nodes|
      ensures Told(longer, nodes, nodes', next, i)
    {
      assert Told(es, nodes, nodes', k, i);
      OneMore(es, e, nodes[i].id, AllOff);
    }
  }

  lemma TellsSilent(es: seq<Event>, e: Event, nodes: seq<NodeInfo>, nodes': seq<NodeInfo>, k: nat, at: int)
    requires |nodes| == |nodes'| && k < |nodes| && Tells(es, nodes, nodes', k, at)
    requires e.at == at && e.node == Some(nodes[k].id) && Says(e, nodes[k].id) == None
    ensures Tells(es + [e], nodes, nodes', k, at)
  {
    var longer := es + [e];
    forall i | 0 <= i < |nodes|
      ensures Told(longer, nodes, nodes', k, i)
    {
      assert Told(es, nodes, nodes', k, i);
      OneMore(es, e, nodes[i].id, AllOff);
    }
  }

  lemma TellsSame(es: seq<Event>, nodes: seq<NodeInfo>, nodes': seq<NodeInfo>, k: nat, at: int)
    requires |nodes| == |nodes'| && k < |nodes| && Tells(es, nodes, nodes', k, at)
    requires nodes'[k].power == nodes[k].power
    ensures Tells(es, nodes, nodes', k + 1, at)
  {
    var next := k + 1;
    forall i | 0 <= i < |nodes|
      ensures Told(es, nodes, nodes', next, i)
    {
      assert Told(es, nodes, nodes', k, i);
    }
  }

  lemma TellsPair(es: seq<Event>, n: NodeInfo, first: EventKind, second: EventKind, nodes: seq<NodeInfo>,
                  nodes': seq<NodeInfo>, k: nat, at: int)
    requires |nodes| == |nodes'| && k < |nodes| && DistinctIds(nodes) && Tells(es, nodes, nodes', k, at)
    requires n == nodes[k] && nodes'[k].power != nodes[k].power
    requires Says(Event(at, first, Some(n.id)), n.id) == None
    requires Says(Event(at, second, Some(n.id)), n.id) == Some(nodes'[k].power)
    ensures Tells(es + PairOf(at, first, second, n), nodes, nodes', k + 1, at)
  {
    hide Tells;
    var e, f := Event(at, first, Some(n.id)), Event(at, second, Some(n.id));
    TellsSilent(es, e, nodes, nodes', k, at);
    TellsEvent(es + [e], f, nodes, nodes', k, at);
    assert es + PairOf(at, first, second, n) == es + [e] + [f];
  }

  lemma {:induction false} CutTells(nodes: seq<NodeInfo>, nodes': seq<NodeInfo>, k: nat, at: int)
    requires |nodes| == |nodes'| && k <= |nodes| && DistinctIds(nodes)
    requires forall i | 0 <= i < |nodes| :: nodes'[i] == CutNode(nodes[i])
    ensures Tells(CutEventsUpTo(nodes, k, at), nodes, nodes', k, at)
    ensures CountKind(CutEventsUpTo(nodes, k, at), NodeHardCutoff) == |CutEventsUpTo(nodes, k, at)| == OnUpTo(nodes, k)
  {
    hide Tells;
    if k == 0 {
      NothingTold(nodes, nodes', at);
    } else {
      CutTells(nodes, nodes', k - 1, at);
      var before, n := CutEventsUpTo(nodes, k - 1, at), nodes[k - 1];
      if n.power == On {
        var e := Event(at, NodeHardCutoff, Some(n.id));
        TellsEvent(before, e, nodes, nodes', k - 1, at);
        OneMore(before, e, n.id, NodeHardCutoff);
      } else {
        assert before + [] == before;
        TellsSame(before, nodes, nodes', k - 1, at);
      }
    }
  }

  lemma NothingTold(nodes: seq<NodeInfo>, nodes': seq<NodeInfo>, at: int)
    requires |nodes| == |nodes'|
    ensures Tells([], nodes, nodes', 0, at)
  {
  }

  /** The two kinds come for the same nodes. */
  ghost predicate Alike(es: seq<Event>, first: EventKind, second: EventKind) {
    forall at, id :: Event(at, first, Some(id)) in es <==> Event(at, second, Some(id)) in es
  }

  /** As many events of each of the two kinds as nodes change, for the same nodes, and no others. */
  ghost predicate Paired(es: seq<Event>, first: EventKind, second: EventKind, n: nat) {
    CountKind(es, first) == CountKind(es, second) == n && |es| == 2 * n && Alike(es, first, second)
  }

  lemma {:induction false} NoneOfKind(es: seq<Event>, kind: EventKind)
    requires CountKind(es, kind) == 0
    ensures forall e | e in es :: e.kind != kind
  {
    if es != [] { NoneOfKind(es[..|es| - 1], kind); }
  }

  lemma PairedMore(es: seq<Event>, first: EventKind, second: EventKind, n: nat, node: NodeInfo, at: int)
    requires Paired(es, first, second, n) && first != second
    ensures Paired(es + PairOf(at, first, second, node), first, second, n + 1)
  {
    var e, f := Event(at, first, Some(node.id)), Event(at, second, Some(node.id));
    OneMore(es, e, node.id, first);
    OneMore(es, e, node.id, second);
    OneMore(es + [e], f, node.id, first);
    OneMore(es + [e], f, node.id, second);
    assert es + PairOf(at, first, second, node) == es + [e] + [f];
  }

  lemma {:induction false} ShutTells(nodes: seq<NodeInfo>, nodes': seq<NodeInfo>, k: nat, at: int, ok: NodeId -> bool)
    requires |nodes| == |nodes'| && k <= |nodes| && DistinctIds(nodes)
    requires forall i | 0 <= i < |nodes| :: nodes'[i] == ShutNode(nodes[i], at, ok)
    ensures Tells(ShutEventsUpTo(nodes, k, at), nodes, nodes', k, at)
    ensures Paired(ShutEventsUpTo(nodes, k, at), NodeShutdownStarted, NodeShutdownComplete, |DueUpTo(nodes, k, at)|)
  {
    hide Tells, Paired;
    if k == 0 {
      NothingTold(nodes, nodes', at);
      NonePaired(NodeShutdownStarted, NodeShutdownComplete);
    } else {
      ShutTells(nodes, nodes', k - 1, at, ok);
      var before, n := ShutEventsUpTo(nodes, k - 1, at), nodes[k - 1];
      if Due(n, at) {
        TellsPair(before, n, NodeShutdownStarted, NodeShutdownComplete, nodes, nodes', k - 1, at);
        PairedMore(before, NodeShutdownStarted, NodeShutdownComplete, |DueUpTo(nodes, k - 1, at)|, n, at);
      } else {
        assert before + [] == before;
        TellsSame(before, nodes, nodes', k - 1, at);
      }
    }
  }

  function BootDueUpTo(nodes: seq<NodeInfo>, k: nat, now: int): nat
    requires k <= |nodes|
  {
    if k == 0 then 0 else BootDueUpTo(nodes, k - 1, now) + (if BootDue(nodes[k - 1], now) then 1 else 0)
  }

  lemma {:induction false} BootTells(nodes: seq<NodeInfo>, nodes': seq<NodeInfo>, k: nat, at: int)
    requires |nodes| == |nodes'| && k <= |nodes| && DistinctIds(nodes)
    requires forall i | 0 <= i < |nodes| :: nodes'[i] == BootNode(nodes[i], at)
    ensures Tells(BootEventsUpTo(nodes, k, at), nodes, nodes', k, at)
    ensures Paired(BootEventsUpTo(nodes, k, at), NodeBootStarted, NodeBootComplete, BootDueUpTo(nodes, k, at))
  {
    hide Tells, Paired;
    if k == 0 {
      NothingTold(nodes, nodes', at);
      NonePaired(NodeBootStarted, NodeBootComplete);
    } else {
      BootTells(nodes, nodes', k - 1, at);
      var before, n := BootEventsUpTo(nodes, k - 1, at), nodes[k - 1];
      if BootDue(n, at) {
        TellsPair(before, n, NodeBootStarted, NodeBootComplete, nodes, nodes', k - 1, at);
        PairedMore(before, NodeBootStarted, NodeBootComplete, BootDueUpTo(nodes, k - 1, at), n, at);
      } else {
        assert before + [] == before;
        TellsSame(before, nodes, nodes', k - 1, at);
      }
    }
  }

  lemma NonePaired(first: EventKind, second: EventKind)
    ensures Paired([], first, second, 0)
  {
  }

  /** What a step adds to the history. */
  function Added(p: Power, p': Power): seq<Event>
    requires p.history <= p'.history
  {
    p'.history[|p.history|..]
  }

  /** A tick or a cutoff only adds events, all of its own instant; of each node they tell that its power
      changed and to what, exactly if it did; as many shutdowns and cutoffs as are counted, each shutdown and
      each boot started and completed; and that the system went off or on exactly if it did. */
  ghost predicate Recorded(p: Power, p': Power, now: int) {
    && p.history <= p'.history && |p'.nodes| == |p.nodes|
    && var es := Added(p, p');
    && (forall e | e in es :: e.at == now)
    && (forall i | 0 <= i < |p.nodes| :: LastWord(es, p.nodes[i].id) ==
          if p'.nodes[i].power != p.nodes[i].power then Some(p'.nodes[i].power) else None)
    && p'.graceful == p.graceful + CountKind(es, NodeShutdownComplete)
    && p'.hard == p.hard + CountKind(es, NodeHardCutoff)
    && CountKind(es, NodeShutdownStarted) == CountKind(es, NodeShutdownComplete)
    && CountKind(es, NodeBootStarted) == CountKind(es, NodeBootComplete)
    && Alike(es, NodeShutdownStarted, NodeShutdownComplete) && Alike(es, NodeBootStarted, NodeBootComplete)
    && CountKind(es, AllOff) == (if p'.state == SystemOff && p.state != SystemOff then 1 else 0)
    && CountKind(es, AllOn) == (if p'.state == EngineOn && p.state != EngineOn then 1 else 0)
  }

  lemma {:induction false} KindsFit(es: seq<Event>, a: EventKind, b: EventKind, c: EventKind)
    requires a != b && a != c && b != c
    ensures CountKind(es, a) + CountKind(es, b) + CountKind(es, c) <= |es|
  {
    if es != [] { KindsFit(es[..|es| - 1], a, b, c); }
  }

  /** The node events of a step, and after them the system's, if there is one. */
  lemma AddedIs(p: Power, p': Power, es: seq<Event>, done: bool, kind: EventKind, now: int)
    requires |p'.nodes| == |p.nodes| && Tells(es, p.nodes, p'.nodes, |p.nodes|, now)
    requires p'.history == p.history + es + (if done then [Event(now, kind, None)] else [])
    ensures p.history <= p'.history
    ensures var added := Added(p, p');
      && added == es + (if done then [Event(now, kind, None)] else [])
      && (forall e | e in added :: e.at == now)
      && (forall i | 0 <= i < |p.nodes| :: LastWord(added, p.nodes[i].id) ==
            if p'.nodes[i].power != p.nodes[i].power then Some(p'.nodes[i].power) else None)
      && forall k :: CountKind(added, k) == CountKind(es, k) + if done && k == kind then 1 else 0
  {
    var added := Added(p, p');
    assert added == es + (if done then [Event(now, kind, None)] else []);
    assert es + [] == es;
    forall i | 0 <= i < |p.nodes|
      ensures LastWord(added, p.nodes[i].id) ==
        if p'.nodes[i].power != p.nodes[i].power then Some(p'.nodes[i].power) else None
    {
      assert Told(es, p.nodes, p'.nodes, |p.nodes|, i);
      OneMore(es, Event(now, kind, None), p.nodes[i].id, kind);
    }
    forall k { OneMore(es, Event(now, kind, None), 0, k); }
  }

  lemma CutRecorded(p: Power, now: int)
    requires p.state != SystemOff && DistinctIds(p.nodes)
    ensures Recorded(p, CutOff(p, now), now)
  {
    hide Tells, LastWord, Alike, CountKind, CutEventsUpTo, OnUpTo;
    var p', es := CutOff(p, now), CutEventsUpTo(p.nodes, |p.nodes|, now);
    CutTells(p.nodes, p'.nodes, |p.nodes|, now);
    AddedIs(p, p', es, true, AllOff, now);
    KindsFit(es, NodeHardCutoff, NodeShutdownStarted, NodeShutdownComplete);
    KindsFit(es, NodeHardCutoff, NodeBootStarted, NodeBootComplete);
    KindsFit(es, NodeHardCutoff, AllOff, AllOn);
    AlikeNone(Added(p, p'), NodeShutdownStarted, NodeShutdownComplete);
    AlikeNone(Added(p, p'), NodeBootStarted, NodeBootComplete);
  }

  lemma ShutRecorded(p: Power, now: int, ok: NodeId -> bool)
    requires p.state == ShuttingDown && DistinctIds(p.nodes)
    ensures Recorded(p, ShutdownTick(p, now, ok), now)
  {
    hide Tells, LastWord, Paired, Alike, CountKind, ShutEventsUpTo, DueUpTo;
    var p', es := ShutdownTick(p, now, ok), ShutEventsUpTo(p.nodes, |p.nodes|, now);
    ShutTells(p.nodes, p'.nodes, |p.nodes|, now, ok);
    AddedIs(p, p', es, AllAre(p'.nodes, Off), AllOff, now);
    OthersNone(es, NodeShutdownStarted, NodeShutdownComplete, |DueUpTo(p.nodes, |p.nodes|, now)|);
    AlikeAfter(es, AllAre(p'.nodes, Off), Event(now, AllOff, None), NodeShutdownStarted, NodeShutdownComplete);
    AlikeNone(Added(p, p'), NodeBootStarted, NodeBootComplete);
  }

  lemma BootRecorded(p: Power, now: int)
    requires p.state == Booting && DistinctIds(p.nodes)
    ensures Recorded(p, BootTick(p, now), now)
  {
    hide Tells, LastWord, Paired, Alike, CountKind, BootEventsUpTo, BootDueUpTo;
    var p', es := BootTick(p, now), BootEventsUpTo(p.nodes, |p.nodes|, now);
    BootTells(p.nodes, p'.nodes, |p.nodes|, now);
    AddedIs(p, p', es, AllAre(p'.nodes, On), AllOn, now);
    OthersNone(es, NodeBootStarted, NodeBootComplete, BootDueUpTo(p.nodes, |p.nodes|, now));
    AlikeAfter(es, AllAre(p'.nodes, On), Event(now, AllOn, None), NodeBootStarted, NodeBootComplete);
    AlikeNone(Added(p, p'), NodeShutdownStarted, NodeShutdownComplete);
  }

  /** A system event makes no difference to that. */
  lemma AlikeAfter(es: seq<Event>, done: bool, e: Event, first: EventKind, second: EventKind)
    requires Alike(es, first, second) && e.node == None
    ensures Alike(es + (if done then [e] else []), first, second)
  {
  }

  lemma AlikeNone(es: seq<Event>, first: EventKind, second: EventKind)
    requires CountKind(es, first) == CountKind(es, second) == 0
    ensures Alike(es, first, second)
  {
    NoneOfKind(es, first);
    NoneOfKind(es, second);
  }

  lemma OthersNone(es: seq<Event>, first: EventKind, second: EventKind, n: nat)
    requires Paired(es, first, second, n) && first != second
    ensures CountKind(es, first) == CountKind(es, second) == n && Alike(es, first, second)
    ensures forall kind | kind != first && kind != second :: CountKind(es, kind) == 0
  {
    forall kind | kind != first && kind != second { KindsFit(es, first, second, kind); }
  }

  lemma NothingRecorded(p: Power, now: int)
    ensures Recorded(p, p, now)
  {
    assert Added(p, p) == [];
  }

  lemma TickRecorded(p: Power, now: int, ok: NodeId -> bool)
    requires DistinctIds(p.nodes)
    ensures Recorded(p, Ticked(p, now, ok), now)
  {
    hide Recorded;
    match p.state
    case ShuttingDown => if BatteryEmpty(p, now) { CutRecorded(p, now); } else { ShutRecorded(p, now, ok); }
    case Booting => BootRecorded(p, now);
    case _ => NothingRecorded(p, now);
  }

  // ---------------------------------------------------------------------
  // Every run.
  // ---------------------------------------------------------------------

  lemma SortedDistinct(nodes: seq<NodeInfo>, sorted: seq<NodeInfo>, descending: bool)
    requires DistinctIds(nodes) && Sorting(nodes, sorted, descending)
    ensures DistinctIds(sorted)
  {
    SortedMembers(nodes, sorted, descending);
    forall i, j | 0 <= i < j < |sorted|
      ensures sorted[i].id != sorted[j].id
    {
      assert sorted[i] in sorted && sorted[j] in sorted;
      var a :| 0 <= a < |nodes| && nodes[a] == sorted[i];
      OnlyOnce(nodes, a);
      if sorted[i] == sorted[j] { Twice(sorted, i, j); }
    }
  }

  lemma Twice(nodes: seq<NodeInfo>, i: nat, j: nat)
    requires i < j < |nodes| && nodes[i] == nodes[j]
    ensures multiset(nodes)[nodes[i]] >= 2
  {
    assert nodes == nodes[..i] + [nodes[i]] + nodes[i + 1..j] + [nodes[j]] + nodes[j + 1..];
  }

  lemma OnlyOnce(nodes: seq<NodeInfo>, a: nat)
    requires DistinctIds(nodes) && a < |nodes|
    ensures multiset(nodes)[nodes[a]] == 1
  {
    var before, after := nodes[..a], nodes[a + 1..];
    assert nodes == before + [nodes[a]] + after;
    assert nodes[a] !in before && nodes[a] !in after;
  }

  /** The counters are what the history tells, and no id is registered twice. */
  ghost predicate Accounted(p: Power) {
    && DistinctIds(p.nodes)
    && p.graceful == CountKind(p.history, NodeShutdownComplete) == CountKind(p.history, NodeShutdownStarted)
    && p.hard == CountKind(p.history, NodeHardCutoff)
    && CountKind(p.history, NodeBootStarted) == CountKind(p.history, NodeBootComplete)
  }

  lemma RecordedAccounts(p: Power, p': Power, now: int)
    requires Accounted(p) && Recorded(p, p', now) && DistinctIds(p'.nodes)
    ensures Accounted(p')
  {
    assert p'.history == p.history + Added(p, p');
    forall kind { CountsAdd(p.history, Added(p, p'), kind); }
  }

  lemma SameIdsDistinct(nodes: seq<NodeInfo>, nodes': seq<NodeInfo>)
    requires DistinctIds(nodes) && |nodes'| == |nodes| && forall i | 0 <= i < |nodes| :: nodes'[i].id == nodes[i].id
    ensures DistinctIds(nodes')
  {
  }

  lemma BegunAccounts(p: Power, p': Power, e: Event)
    requires Accounted(p) && DistinctIds(p'.nodes) && p'.history == p.history + [e] && e.node == None
    requires p'.graceful == p.graceful && p'.hard == p.hard && (e.kind == ShutdownInitiated || e.kind == BootInitiated)
    ensures Accounted(p')
  {
    forall kind { OneMore(p.history, e, 0, kind); }
  }

  lemma StepKeepsAccounted(p: Power, a: Action, p': Power)
    requires Accounted(p) && Step(p, a, p')
    ensures Accounted(p')
  {
    hide CountKind, Recorded, Sorting;
    match a
    case ActRegister(id, priority) =>
    case ActShutdown(now, battery) =>
      if p.state == EngineOn {
        var sorted: seq<NodeInfo> :| Sorting(p.nodes, sorted, false)
          && p' == p.(state := ShuttingDown, initiated := now, battery := battery,
                      nodes := ShutdownSchedule(sorted, now, battery),
                      history := p.history + [Event(now, ShutdownInitiated, None)]);
        SortedDistinct(p.nodes, sorted, false);
        SameIdsDistinct(sorted, p'.nodes);
        BegunAccounts(p, p', Event(now, ShutdownInitiated, None));
      }
    case ActCutoff(now) =>
      if p.state != SystemOff {
        CutRecorded(p, now);
        SameIdsDistinct(p.nodes, p'.nodes);
        RecordedAccounts(p, p', now);
      }
    case ActBoot(now) =>
      if p.state == SystemOff {
        var sorted: seq<NodeInfo> :| Sorting(p.nodes, sorted, true)
          && p' == p.(state := Booting, nodes := BootSchedule(sorted, now),
                      history := p.history + [Event(now, BootInitiated, None)]);
        SortedDistinct(p.nodes, sorted, true);
        SameIdsDistinct(sorted, p'.nodes);
        BegunAccounts(p, p', Event(now, BootInitiated, None));
      }
    case ActTick(now, ok) =>
      TickRecorded(p, now, ok);
      TickKeepsIds(p, now, ok);
      RecordedAccounts(p, p', now);
  }

  lemma TickKeepsIds(p: Power, now: int, ok: NodeId -> bool)
    requires DistinctIds(p.nodes)
    ensures DistinctIds(Ticked(p, now, ok).nodes)
  {
    SameIdsDistinct(p.nodes, Ticked(p, now, ok).nodes);
  }

  /** In every run, at every moment: no node is registered twice, and the history tells as many graceful
      shutdowns and as many hard cutoffs as are counted, each shutdown and each boot started and completed. */
  lemma {:induction false} EveryRunAccounted(states: seq<Power>, actions: seq<Action>, k: nat)
    requires IsRun(states, actions) && states[0] == START && k <= |actions|
    ensures Accounted(states[k])
  {
    if k > 0 {
      EveryRunAccounted(states, actions, k - 1);
      StepKeepsAccounted(states[k - 1], actions[k - 1], states[k]);
    }
  }
}
