/** A consumer that drains the offline buffer with a cursor: it asks for the events after the last
    id it saw, while events are pushed, evicted and cleared in between
    (OfflineBuffer::drainAll, src/gateway/OfflineBuffer.cpp). */
module DrainCursor {
  import opened OfflineBuffer

  datatype Action =
    | Push(van: VanId, timestamp: int, eventType: string, payload: string)
    | Clear(van: VanId)
    | ClearAll
    | Evict(cutoff: int, vans: set<VanId>)
    | Drain

  /** The buffer's log, the consumer's cursor and what it was given; and for the record, every event
      pushed and those removed from the buffer before the consumer saw them. */
  datatype Session = Session(
    log: Log, next: nat, cursor: nat, delivered: Log, pushed: Log, lost: set<Event>)

  const START: Session := Session([], 1, 0, [], [], {})

  /** The buffer becomes `log'`; what goes unseen is lost. */
  function Rewrite(s: Session, log': Log): Session {
    s.(log := log', lost := s.lost + set e | e in s.log && e !in log' && e.sequenceId > s.cursor)
  }

  function Admit(s: Session, e: Event): Session {
    s.(log := s.log + [e], next := s.next + 1, pushed := s.pushed + [e])
  }

  function DrainStep(s: Session): Session {
    var batch := After(s.log, s.cursor);
    s.(delivered := s.delivered + batch,
       cursor := if batch == [] then s.cursor else batch[|batch| - 1].sequenceId)
  }

  function Act(s: Session, a: Action, maxPerVan: nat, maxTotal: nat): Session {
    match a
    case Push(van, ts, et, p) =>
      var e := Event(s.next, van, ts, et, p);
      Rewrite(Admit(s, e), Pushed(s.log, e, maxPerVan, maxTotal))
    case Clear(van) => Rewrite(s, Without(s.log, van))
    case ClearAll => Rewrite(s, [])
    case Evict(cutoff, vans) => Rewrite(s, Aged(s.log, cutoff, vans))
    case Drain => DrainStep(s)
  }

  function Run(s: Session, actions: seq<Action>, maxPerVan: nat, maxTotal: nat): Session
    decreases |actions|
  {
    if actions == [] then s
    else Run(Act(s, actions[0], maxPerVan, maxTotal), actions[1..], maxPerVan, maxTotal)
  }

  /** Every pushed event is in exactly one place: given to the consumer, still waiting for it, or
      lost before it could be given. */
  ghost predicate InOnePlace(s: Session, e: Event) {
    var given, waiting, lost := e in s.delivered, e in s.log && e.sequenceId > s.cursor, e in s.lost;
    if given then !waiting && !lost else waiting != lost
  }

  ghost predicate Consistent(s: Session) {
    && s.next == |s.pushed| + 1 && s.cursor < s.next
    && (forall i | 0 <= i < |s.pushed| :: s.pushed[i].sequenceId == i + 1)
    && Ascending(s.log) && (forall e | e in s.log :: e in s.pushed)
    && Ascending(s.delivered) && (forall e | e in s.delivered :: e in s.pushed && e.sequenceId <= s.cursor)
    && (forall e | e in s.lost :: e in s.pushed && e !in s.log)
    && (forall e | e in s.pushed :: InOnePlace(s, e))
  }

  lemma RewriteKeepsConsistent(s: Session, log': Log)
    requires Consistent(s) && Remains(log', s.log)
    ensures Consistent(Rewrite(s, log'))
  {
    var s' := Rewrite(s, log');
    forall e | e in s'.pushed
      ensures InOnePlace(s', e)
    {
      assert InOnePlace(s, e);
    }
  }

  lemma AdmitKeepsConsistent(s: Session, e: Event)
    requires Consistent(s) && e.sequenceId == s.next
    ensures Consistent(Admit(s, e))
  {
    var s' := Admit(s, e);
    forall f | f in s.pushed
      ensures f.sequenceId < s.next
    {
    }
    forall f | f in s'.pushed
      ensures InOnePlace(s', f)
    {
      if f in s.pushed { assert InOnePlace(s, f); } else { assert s'.log[|s.log|] == e; }
    }
    forall i, j | 0 <= i < j < |s'.log|
      ensures s'.log[i].sequenceId < s'.log[j].sequenceId
    {
      assert s.log[i] in s.log;
    }
  }

  lemma DrainKeepsConsistent(s: Session)
    requires Consistent(s)
    ensures Consistent(DrainStep(s))
    ensures forall e | e in DrainStep(s).log :: e in DrainStep(s).delivered
  {
    hide After;
    var s' := DrainStep(s);
    var batch := After(s.log, s.cursor);
    AfterRemains(s.log, s.cursor);
    forall e | e in batch
      ensures e.sequenceId <= s'.cursor
    {
    }
    forall e | e in s'.pushed
      ensures InOnePlace(s', e)
    {
      assert InOnePlace(s, e);
    }
    forall e | e in s'.log
      ensures e in s'.delivered
    {
      assert e in s.pushed && InOnePlace(s, e);
    }
    forall i, j | 0 <= i < j < |s'.delivered|
      ensures s'.delivered[i].sequenceId < s'.delivered[j].sequenceId
    {
      if i < |s.delivered| <= j {
        assert s.delivered[i] in s.delivered && batch[j - |s.delivered|] in batch;
      }
    }
    if batch != [] {
      assert batch[|batch| - 1] in batch;
    }
  }

  lemma ActKeepsConsistent(s: Session, a: Action, maxPerVan: nat, maxTotal: nat)
    requires Consistent(s)
    ensures Consistent(Act(s, a, maxPerVan, maxTotal))
  {
    match a
    case Push(van, ts, et, p) =>
      var e := Event(s.next, van, ts, et, p);
      AdmitKeepsConsistent(s, e);
      TrimVanRemains(s.log + [e], van, maxPerVan);
      TrimTotalRemains(TrimVan(s.log + [e], van, maxPerVan), maxTotal);
      RewriteKeepsConsistent(Admit(s, e), Pushed(s.log, e, maxPerVan, maxTotal));
    case Clear(van) => WithoutRemains(s.log, van); RewriteKeepsConsistent(s, Without(s.log, van));
    case ClearAll => RewriteKeepsConsistent(s, []);
    case Evict(cutoff, vans) => AgedRemains(s.log, cutoff, vans); RewriteKeepsConsistent(s, Aged(s.log, cutoff, vans));
    case Drain => DrainKeepsConsistent(s);
  }

  lemma {:induction false} RunKeepsConsistent(s: Session, actions: seq<Action>, maxPerVan: nat, maxTotal: nat)
    requires Consistent(s)
    ensures Consistent(Run(s, actions, maxPerVan, maxTotal))
    decreases |actions|
  {
    if actions != [] {
      ActKeepsConsistent(s, actions[0], maxPerVan, maxTotal);
      RunKeepsConsistent(Act(s, actions[0], maxPerVan, maxTotal), actions[1..], maxPerVan, maxTotal);
    }
  }

  /** Whatever happens in between, what the consumer is given has strictly increasing ids, so nothing
      comes twice; and after a drain every event ever pushed was either given to it or removed from
      the buffer before it asked, never both. */
  lemma EveryEventOnceOrLost(actions: seq<Action>, maxPerVan: nat, maxTotal: nat)
    ensures var s := Act(Run(START, actions, maxPerVan, maxTotal), Drain, maxPerVan, maxTotal);
      && (forall i, j | 0 <= i < j < |s.delivered| :: s.delivered[i].sequenceId < s.delivered[j].sequenceId)
      && (forall e | e in s.delivered :: e in s.pushed)
      && (forall e | e in s.pushed :: e in s.delivered <==> e !in s.lost)
  {
    RunKeepsConsistent(START, actions, maxPerVan, maxTotal);
    var s0 := Run(START, actions, maxPerVan, maxTotal);
    DrainKeepsConsistent(s0);
    var s := DrainStep(s0);
    forall e | e in s.pushed
      ensures e in s.delivered <==> e !in s.lost
    {
      assert InOnePlace(s, e);
    }
  }

  // ---------------------------------------------------------------------
  // What is lost, and why.
  // ---------------------------------------------------------------------

  /** Why an action may remove event `e` from the log. */
  ghost predicate Reason(s: Session, a: Action, e: Event, maxPerVan: nat, maxTotal: nat) {
    match a
    case Push(van, _, _, _) =>
      (e.vanId == van && |Project(s.log, van)| >= maxPerVan) || |s.log| >= maxTotal
    case Clear(van) => e.vanId == van
    case ClearAll => true
    case Evict(cutoff, vans) => e.vanId in vans && e.timestamp < cutoff
    case Drain => false
  }

  lemma PushRemovesOnlyIf(log: Log, e: Event, f: Event, maxPerVan: nat, maxTotal: nat)
    requires f in log + [e] && f !in Pushed(log, e, maxPerVan, maxTotal)
    ensures (f.vanId == e.vanId && |Project(log, e.vanId)| >= maxPerVan) || |log| >= maxTotal
  {
    var longer := log + [e];
    var trimmed := TrimVan(longer, e.vanId, maxPerVan);
    ProjectAppend(log, e, e.vanId);
    TrimVanRemains(longer, e.vanId, maxPerVan);
    if f.vanId != e.vanId {
      ProjectMembers(longer, f.vanId);
      ProjectMembers(trimmed, f.vanId);
      assert f in Project(longer, f.vanId);
    }
  }

  lemma {:induction false} AgedRemovesOnlyOld(log: Log, cutoff: int, vans: set<VanId>, e: Event)
    requires e in log && e !in Aged(log, cutoff, vans)
    ensures e.vanId in vans && e.timestamp < cutoff
    decreases |log|
  {
    assert log == [log[0]] + log[1..];
    if e in log[1..] {
      if log[0].vanId in vans && log[0].timestamp < cutoff {
        if e != log[0] { AgedRemovesOnlyOld(log[1..], cutoff, vans, e); }
      } else {
        AgedRemovesOnlyOld(log[1..], cutoff, vans - {log[0].vanId}, e);
      }
    }
  }

  /** An action loses an event only for a reason: its van or the whole buffer had no room for a push, its
      van was cleared, or it was old when its van was evicted; and never one the consumer has seen. */
  lemma LostOnlyForAReason(s: Session, a: Action, maxPerVan: nat, maxTotal: nat, e: Event)
    requires Consistent(s)
    requires var s' := Act(s, a, maxPerVan, maxTotal); e in s'.lost && e !in s.lost
    ensures Reason(s, a, e, maxPerVan, maxTotal) && e !in s.delivered && e.sequenceId > s.cursor
  {
    match a
    case Push(van, ts, et, p) =>
      PushRemovesOnlyIf(s.log, Event(s.next, van, ts, et, p), e, maxPerVan, maxTotal);
    case Clear(van) =>
      if e.vanId != van {
        WithoutProjects(s.log, van, e.vanId);
        ProjectMembers(s.log, e.vanId);
        ProjectMembers(Without(s.log, van), e.vanId);
      }
    case ClearAll =>
    case Evict(cutoff, vans) => AgedRemovesOnlyOld(s.log, cutoff, vans, e);
    case Drain =>
  }

  function PushCount(actions: seq<Action>): nat
    decreases |actions|
  {
    if actions == [] then 0 else (if actions[0].Push? then 1 else 0) + PushCount(actions[1..])
  }

  /** The `i`-th event pushed is made of the `i`-th push. */
  function PushedBy(actions: seq<Action>, next: nat): Log
    decreases |actions|
  {
    if actions == [] then []
    else match actions[0]
      case Push(van, ts, et, p) => [Event(next, van, ts, et, p)] + PushedBy(actions[1..], next + 1)
      case _ => PushedBy(actions[1..], next)
  }

  lemma {:induction false} RoomKeepsAll(s: Session, actions: seq<Action>, maxPerVan: nat, maxTotal: nat)
    requires s.log == s.pushed && s.lost == {} && s.next == |s.pushed| + 1
    requires forall i | 0 <= i < |actions| :: actions[i].Push? || actions[i].Drain?
    requires |s.pushed| + PushCount(actions) <= maxPerVan && |s.pushed| + PushCount(actions) <= maxTotal
    ensures var s' := Run(s, actions, maxPerVan, maxTotal);
      s'.log == s'.pushed == s.pushed + PushedBy(actions, s.next) && s'.lost == {}
    decreases |actions|
  {
    if actions != [] {
      assert actions[0].Push? || actions[0].Drain?;
      if actions[0].Push? {
        var e := Event(s.next, actions[0].van, actions[0].timestamp, actions[0].eventType, actions[0].payload);
        PushKeepsLatest(s.log, e, maxPerVan, maxTotal);
        ProjectShorter(s.log, e.vanId);
      }
      RoomKeepsAll(Act(s, actions[0], maxPerVan, maxTotal), actions[1..], maxPerVan, maxTotal);
    }
  }

  /** While there is room under both limits nothing is lost: however pushes and drains alternate, the
      consumer ends up with exactly what was pushed, once each and in order. */
  lemma NothingLostWithRoom(actions: seq<Action>, maxPerVan: nat, maxTotal: nat)
    requires forall i | 0 <= i < |actions| :: actions[i].Push? || actions[i].Drain?
    requires PushCount(actions) <= maxPerVan && PushCount(actions) <= maxTotal
    ensures Act(Run(START, actions, maxPerVan, maxTotal), Drain, maxPerVan, maxTotal).delivered == PushedBy(actions, 1)
  {
    RoomKeepsAll(START, actions, maxPerVan, maxTotal);
    EveryEventOnceOrLost(actions, maxPerVan, maxTotal);
    RunKeepsConsistent(START, actions, maxPerVan, maxTotal);
    var s := Act(Run(START, actions, maxPerVan, maxTotal), Drain, maxPerVan, maxTotal);
    SameMembersSameOrder(s.delivered, s.pushed);
  }

  // ---------------------------------------------------------------------
  // The limits, over whole runs.
  // ---------------------------------------------------------------------

  ghost predicate WithinVanLimit(log: Log, maxPerVan: nat) {
    forall w :: |Project(log, w)| <= maxPerVan
  }

  /** Every event is of a van with a name. */
  predicate AllNamed(log: Log) {
    forall i | 0 <= i < |log| :: log[i].vanId != ""
  }

  lemma {:induction false} DropOldShortens(log: Log, cutoff: int)
    ensures |DropOld(log, cutoff)| <= |log|
  {
    if log != [] { DropOldShortens(log[1..], cutoff); }
  }

  /** Every action keeps the per-van limit. */
  lemma ActKeepsVanLimit(s: Session, a: Action, maxPerVan: nat, maxTotal: nat)
    requires WithinVanLimit(s.log, maxPerVan)
    ensures WithinVanLimit(Act(s, a, maxPerVan, maxTotal).log, maxPerVan)
  {
    forall w
      ensures |Project(Act(s, a, maxPerVan, maxTotal).log, w)| <= maxPerVan
    {
      match a
      case Push(van, ts, et, p) => PushKeepsLimits(s.log, Event(s.next, van, ts, et, p), maxPerVan, maxTotal);
      case Clear(van) => WithoutProjects(s.log, van, w);
      case ClearAll =>
      case Evict(cutoff, vans) =>
        AgedProjects(s.log, cutoff, vans, w);
        DropOldShortens(Project(s.log, w), cutoff);
      case Drain =>
    }
  }

  lemma RemainsNamed(part: Log, log: Log)
    requires Remains(part, log) && AllNamed(log)
    ensures AllNamed(part)
  {
    forall i | 0 <= i < |part|
      ensures part[i].vanId != ""
    {
      assert part[i] in log;
    }
  }

  ghost predicate NamedPush(a: Action) {
    a.Push? ==> a.van != ""
  }

  /** If vans have names, every action keeps the total limit too. */
  lemma ActKeepsTotalLimit(s: Session, a: Action, maxPerVan: nat, maxTotal: nat)
    requires AllNamed(s.log) && |s.log| <= maxTotal && NamedPush(a)
    ensures var log' := Act(s, a, maxPerVan, maxTotal).log; AllNamed(log') && |log'| <= maxTotal
  {
    match a
    case Push(van, ts, et, p) =>
      var longer := s.log + [Event(s.next, van, ts, et, p)];
      var trimmed := TrimVan(longer, van, maxPerVan);
      TrimVanRemains(longer, van, maxPerVan);
      RemainsNamed(trimmed, longer);
      TrimTotalRemains(trimmed, maxTotal);
      RemainsNamed(TrimTotal(trimmed, maxTotal), trimmed);
      TrimTotalLength(trimmed, maxTotal);
    case Clear(van) => WithoutRemains(s.log, van); RemainsNamed(Without(s.log, van), s.log);
    case ClearAll =>
    case Evict(cutoff, vans) => AgedRemains(s.log, cutoff, vans); RemainsNamed(Aged(s.log, cutoff, vans), s.log);
    case Drain =>
  }

  lemma {:induction false} RunKeepsVanLimit(s: Session, actions: seq<Action>, maxPerVan: nat, maxTotal: nat)
    requires WithinVanLimit(s.log, maxPerVan)
    ensures WithinVanLimit(Run(s, actions, maxPerVan, maxTotal).log, maxPerVan)
    decreases |actions|
  {
    if actions != [] {
      ActKeepsVanLimit(s, actions[0], maxPerVan, maxTotal);
      RunKeepsVanLimit(Act(s, actions[0], maxPerVan, maxTotal), actions[1..], maxPerVan, maxTotal);
    }
  }

  lemma {:induction false} RunKeepsTotalLimit(s: Session, actions: seq<Action>, maxPerVan: nat, maxTotal: nat)
    requires AllNamed(s.log) && |s.log| <= maxTotal && forall i | 0 <= i < |actions| :: NamedPush(actions[i])
    ensures |Run(s, actions, maxPerVan, maxTotal).log| <= maxTotal
    decreases |actions|
  {
    if actions != [] {
      assert NamedPush(actions[0]);
      ActKeepsTotalLimit(s, actions[0], maxPerVan, maxTotal);
      RunKeepsTotalLimit(Act(s, actions[0], maxPerVan, maxTotal), actions[1..], maxPerVan, maxTotal);
    }
  }

  /** In every run from an empty buffer no van ever holds more than its limit; and if no push has an
      empty van name, the buffer never holds more than its total limit. */
  lemma EveryRunWithinLimits(actions: seq<Action>, maxPerVan: nat, maxTotal: nat)
    ensures forall w :: |Project(Run(START, actions, maxPerVan, maxTotal).log, w)| <= maxPerVan
    ensures (forall i | 0 <= i < |actions| :: NamedPush(actions[i])) ==>
              |Run(START, actions, maxPerVan, maxTotal).log| <= maxTotal
  {
    RunKeepsVanLimit(START, actions, maxPerVan, maxTotal);
    if forall i | 0 <= i < |actions| :: NamedPush(actions[i]) {
      RunKeepsTotalLimit(START, actions, maxPerVan, maxTotal);
    }
  }
}
