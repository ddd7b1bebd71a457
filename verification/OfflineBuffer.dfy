/** The gateway's buffer of events for offline vans (src/gateway/OfflineBuffer.cpp).

    The program keeps one deque per van and a cached count; the specification is one global log in
    order of sequence ids, of which each deque is the projection. */
module OfflineBuffer {
  import opened Types

  type VanId = string
  datatype Event = Event(sequenceId: nat, vanId: VanId, timestamp: int, eventType: string, payload: string)
  type Log = seq<Event>

  const UINT64_MAX: u64 := 0xFFFF_FFFF_FFFF_FFFF

  // ---------------------------------------------------------------------
  // What each operation does to the log.
  // ---------------------------------------------------------------------

  predicate Ascending(log: Log) {
    forall i, j | 0 <= i < j < |log| :: log[i].sequenceId < log[j].sequenceId
  }

  /** The events of one van, in order. */
  function Project(log: Log, v: VanId): Log {
    if log == [] then []
    else (if log[0].vanId == v then [log[0]] else []) + Project(log[1..], v)
  }

  /** The log without its first event of van `v`. */
  function DropFirst(log: Log, v: VanId): Log {
    if log == [] then []
    else if log[0].vanId == v then log[1..]
    else [log[0]] + DropFirst(log[1..], v)
  }

  /** Drops the oldest events of `v` until at most `max` are left. */
  function TrimVan(log: Log, v: VanId, max: nat): Log
    decreases |Project(log, v)|
  {
    if |Project(log, v)| <= max then log
    else
      DropFirstProjects(log, v, v);
      TrimVan(DropFirst(log, v), v, max)
  }

  /** Drops the head while the log is too long; the head of the van with the empty name stays. */
  function TrimTotal(log: Log, max: nat): Log
    decreases |log|
  {
    if |log| <= max || log[0].vanId == "" then log else TrimTotal(log[1..], max)
  }

  function Pushed(log: Log, e: Event, maxPerVan: nat, maxTotal: nat): Log {
    TrimTotal(TrimVan(log + [e], e.vanId, maxPerVan), maxTotal)
  }

  function Without(log: Log, v: VanId): Log {
    if log == [] then []
    else (if log[0].vanId == v then [] else [log[0]]) + Without(log[1..], v)
  }

  function DropOld(log: Log, cutoff: int): Log {
    if log == [] || log[0].timestamp >= cutoff then log else DropOld(log[1..], cutoff)
  }

  /** Drops, for each van of `vans`, its events before the cutoff up to its first later one. */
  function Aged(log: Log, cutoff: int, vans: set<VanId>): Log
    decreases |log|
  {
    if log == [] then []
    else if log[0].vanId in vans && log[0].timestamp < cutoff then Aged(log[1..], cutoff, vans)
    else [log[0]] + Aged(log[1..], cutoff, vans - {log[0].vanId})
  }

  function After(log: Log, since: nat): Log {
    if log == [] then []
    else (if log[0].sequenceId > since then [log[0]] else []) + After(log[1..], since)
  }

  // ---------------------------------------------------------------------
  // The log and its projections.
  // ---------------------------------------------------------------------

  lemma ProjectCons(e: Event, rest: Log, v: VanId)
    ensures Project([e] + rest, v) == if e.vanId == v then [e] + Project(rest, v) else Project(rest, v)
  {
    var log := [e] + rest;
    assert log[0] == e && log[1..] == rest;
  }

  lemma {:induction false} ProjectAppend(log: Log, e: Event, v: VanId)
    ensures Project(log + [e], v) == Project(log, v) + (if e.vanId == v then [e] else [])
  {
    if log == [] {
      assert [e][1..] == [] && log + [e] == [e];
    } else {
      var rest := log[1..];
      ProjectAppend(rest, e, v);
      assert log == [log[0]] + rest && log + [e] == [log[0]] + (rest + [e]);
      ProjectCons(log[0], rest, v);
      ProjectCons(log[0], rest + [e], v);
    }
  }

  lemma {:induction false} DropFirstProjects(log: Log, v: VanId, w: VanId)
    ensures Project(log, v) == [] ==> DropFirst(log, v) == log
    ensures Project(log, v) != [] ==> |DropFirst(log, v)| == |log| - 1
    ensures Project(DropFirst(log, v), w) ==
            if w == v && Project(log, v) != [] then Project(log, v)[1..] else Project(log, w)
  {
    if log != [] && log[0].vanId != v {
      DropFirstProjects(log[1..], v, w);
      assert DropFirst(log, v)[1..] == DropFirst(log[1..], v);
    }
  }

  lemma {:induction false} WithoutProjects(log: Log, v: VanId, w: VanId)
    ensures Project(Without(log, v), w) == if w == v then [] else Project(log, w)
    ensures |Without(log, v)| == |log| - |Project(log, v)|
  {
    if log != [] {
      var rest := log[1..];
      WithoutProjects(rest, v, w);
      assert log == [log[0]] + rest;
      ProjectCons(log[0], rest, v);
      ProjectCons(log[0], rest, w);
      ProjectCons(log[0], Without(rest, v), w);
      assert [] + Without(rest, v) == Without(rest, v);
    }
  }

  lemma {:induction false} AgedProjects(log: Log, cutoff: int, vans: set<VanId>, v: VanId)
    ensures Project(Aged(log, cutoff, vans), v) ==
            if v in vans then DropOld(Project(log, v), cutoff) else Project(log, v)
    decreases |log|
  {
    if log != [] {
      var h, rest := log[0].vanId, log[1..];
      ProjectCons(log[0], rest, v);
      assert log == [log[0]] + rest;
      if h in vans && log[0].timestamp < cutoff {
        AgedProjects(rest, cutoff, vans, v);
        if h == v { assert Project(log, v)[1..] == Project(rest, v); }
      } else {
        AgedProjects(rest, cutoff, vans - {h}, v);
        ProjectCons(log[0], Aged(rest, cutoff, vans - {h}), v);
      }
    }
  }

  lemma {:induction false} AgedNone(log: Log, cutoff: int)
    ensures Aged(log, cutoff, {}) == log
  {
    if log != [] {
      AgedNone(log[1..], cutoff);
      assert {} - {log[0].vanId} == {};
    }
  }

  /** Ageing one more van. */
  lemma {:induction false} AgedOneMore(log: Log, cutoff: int, vans: set<VanId>, v: VanId)
    requires v !in vans
    ensures Aged(Aged(log, cutoff, vans), cutoff, {v}) == Aged(log, cutoff, vans + {v})
    decreases |log|
  {
    if log != [] {
      var h := log[0].vanId;
      if h in vans && log[0].timestamp < cutoff {
        AgedOneMore(log[1..], cutoff, vans, v);
      } else {
        var inner := Aged(log, cutoff, vans);
        assert inner[0] == log[0] && inner[1..] == Aged(log[1..], cutoff, vans - {h});
        if h == v {
          assert vans - {h} == vans && {v} - {h} == {} && vans + {v} - {h} == vans;
          AgedOneMore(log[1..], cutoff, vans, v);
          AgedNone(inner[1..], cutoff);
        } else {
          assert {v} - {h} == {v} && vans + {v} - {h} == (vans - {h}) + {v};
          AgedOneMore(log[1..], cutoff, vans - {h}, v);
        }
      }
    }
  }

  lemma {:induction false} AgedLength(log: Log, cutoff: int, v: VanId)
    ensures |Aged(log, cutoff, {v})| + |Project(log, v)| == |log| + |DropOld(Project(log, v), cutoff)|
  {
    if log != [] {
      assert Project(log, v)[|Project(log, v)| - |Project(log[1..], v)|..] == Project(log[1..], v);
      if log[0].vanId != v {
        assert {v} - {log[0].vanId} == {v};
        AgedLength(log[1..], cutoff, v);
      } else if log[0].timestamp < cutoff {
        AgedLength(log[1..], cutoff, v);
      } else {
        assert {v} - {log[0].vanId} == {};
        AgedNone(log[1..], cutoff);
      }
    }
  }

  /** `part` is what is left of `log` after some events were removed. */
  ghost predicate Remains(part: Log, log: Log) {
    && (Ascending(log) ==> Ascending(part))
    && (forall e | e in part :: e in log)
    && |part| <= |log|
  }

  lemma ConsRemains(part: Log, log: Log, e: Event)
    requires Remains(part, log)
    ensures Remains(part, [e] + log) && Remains([e] + part, [e] + log)
  {
    var whole, kept := [e] + log, [e] + part;
    assert whole[1..] == log;
    if Ascending(whole) {
      assert Ascending(log);
      forall i, j | 0 <= i < j < |kept|
        ensures kept[i].sequenceId < kept[j].sequenceId
      {
        assert kept[j] == part[j - 1] && part[j - 1] in log;
        if i > 0 { assert kept[i] == part[i - 1]; }
      }
    }
  }

  lemma {:induction false} DropFirstRemains(log: Log, v: VanId)
    ensures Remains(DropFirst(log, v), log)
  {
    if log != [] {
      DropFirstRemains(log[1..], v);
      assert log == [log[0]] + log[1..];
      assert Remains(log[1..], log[1..]);
      ConsRemains(log[1..], log[1..], log[0]);
      ConsRemains(DropFirst(log[1..], v), log[1..], log[0]);
    }
  }

  lemma {:induction false} TrimVanRemains(log: Log, v: VanId, max: nat)
    ensures Remains(TrimVan(log, v, max), log)
    ensures |Project(TrimVan(log, v, max), v)| <= max
    ensures forall w | w != v :: Project(TrimVan(log, v, max), w) == Project(log, w)
    decreases |Project(log, v)|
  {
    if |Project(log, v)| > max {
      DropFirstProjects(log, v, v);
      DropFirstRemains(log, v);
      TrimVanRemains(DropFirst(log, v), v, max);
      forall w | w != v
        ensures Project(DropFirst(log, v), w) == Project(log, w)
      {
        DropFirstProjects(log, v, w);
      }
    }
  }

  lemma {:induction false} TrimTotalRemains(log: Log, max: nat)
    ensures Remains(TrimTotal(log, max), log)
    ensures forall w :: |Project(TrimTotal(log, max), w)| <= |Project(log, w)|
    decreases |log|
  {
    if !(|log| <= max || log[0].vanId == "") {
      TrimTotalRemains(log[1..], max);
      assert log == [log[0]] + log[1..];
      ConsRemains(TrimTotal(log[1..], max), log[1..], log[0]);
    }
  }

  /** Both limits after a push. The per-van limit always holds; the total limit holds exactly when
      the events that have to go belong to vans with a name. */
  lemma PushKeepsLimits(log: Log, e: Event, maxPerVan: nat, maxTotal: nat)
    requires forall w :: |Project(log, w)| <= maxPerVan
    ensures forall w :: |Project(Pushed(log, e, maxPerVan, maxTotal), w)| <= maxPerVan
    ensures var trimmed := TrimVan(log + [e], e.vanId, maxPerVan);
      |Pushed(log, e, maxPerVan, maxTotal)| <= maxTotal
      <==> forall i | 0 <= i < |trimmed| - maxTotal :: trimmed[i].vanId != ""
  {
    var trimmed := TrimVan(log + [e], e.vanId, maxPerVan);
    TrimVanRemains(log + [e], e.vanId, maxPerVan);
    TrimTotalRemains(trimmed, maxTotal);
    forall w
      ensures |Project(Pushed(log, e, maxPerVan, maxTotal), w)| <= maxPerVan
    {
      ProjectAppend(log, e, w);
    }
    TrimTotalLength(trimmed, maxTotal);
  }

  lemma {:induction false} TrimTotalLength(log: Log, max: nat)
    ensures |TrimTotal(log, max)| <= max <==> forall i | 0 <= i < |log| - max :: log[i].vanId != ""
    ensures |TrimTotal(log, max)| <= max ==> TrimTotal(log, max) == log[if |log| <= max then 0 else |log| - max..]
    decreases |log|
  {
    if |log| > max {
      if log[0].vanId == "" {
        assert log[0].vanId == "";
      } else {
        TrimTotalLength(log[1..], max);
        forall i | 0 <= i < |log| - max
          ensures i > 0 ==> log[i] == log[1..][i - 1]
        {
        }
        assert (forall i | 0 <= i < |log[1..]| - max :: log[1..][i].vanId != "")
          <==> (forall i | 1 <= i < |log| - max :: log[i].vanId != "") by {
          assert forall i | 1 <= i < |log| :: log[i] == log[1..][i - 1];
          assert forall i | 0 <= i < |log| - 1 :: log[1..][i] == log[i + 1];
        }
      }
    }
  }

  // ---------------------------------------------------------------------
  // What exactly goes.
  // ---------------------------------------------------------------------

  /** A van over its limit keeps its newest events. */
  lemma {:induction false} TrimVanKeepsLatest(log: Log, v: VanId, max: nat)
    ensures var p := Project(log, v); Project(TrimVan(log, v, max), v) == p[if |p| <= max then 0 else |p| - max..]
    decreases |Project(log, v)|
  {
    hide Project, DropFirst;
    if |Project(log, v)| > max {
      DropFirstProjects(log, v, v);
      TrimVanKeepsLatest(DropFirst(log, v), v, max);
    }
  }

  lemma {:induction false} DropFirstKeepsNewest(log: Log, v: VanId)
    requires |Project(log, v)| > 1
    ensures DropFirst(log, v) != [] && DropFirst(log, v)[|DropFirst(log, v)| - 1] == log[|log| - 1]
  {
    if log[0].vanId == v {
      assert |Project(log, v)| == 1 + |Project(log[1..], v)|;
    } else {
      assert Project(log, v) == [] + Project(log[1..], v) == Project(log[1..], v);
      DropFirstKeepsNewest(log[1..], v);
    }
  }

  lemma {:induction false} TrimVanKeepsNewest(log: Log, v: VanId, max: nat)
    requires log != [] && max > 0
    ensures TrimVan(log, v, max) != [] && TrimVan(log, v, max)[|TrimVan(log, v, max)| - 1] == log[|log| - 1]
    decreases |Project(log, v)|
  {
    hide Project, DropFirst;
    if |Project(log, v)| > max {
      DropFirstProjects(log, v, v);
      DropFirstKeepsNewest(log, v);
      TrimVanKeepsNewest(DropFirst(log, v), v, max);
    }
  }

  /** A log over the total limit loses its oldest events, no more than it has to, up to the first of the
      unnamed van. */
  lemma {:induction false} TrimTotalIs(log: Log, max: nat) returns (k: nat)
    ensures k <= |log| && TrimTotal(log, max) == log[k..] && (k > 0 ==> |log| - k >= max)
    ensures forall i | 0 <= i < k :: log[i].vanId != ""
    ensures |log| - k <= max || log[k].vanId == ""
    decreases |log|
  {
    if |log| <= max || log[0].vanId == "" {
      k := 0;
    } else {
      k := TrimTotalIs(log[1..], max);
      k := k + 1;
    }
  }

  lemma {:induction false} ProjectShorter(log: Log, v: VanId)
    ensures |Project(log, v)| <= |log|
  {
    if log != [] { ProjectShorter(log[1..], v); }
  }

  lemma NothingToTrim(log: Log, v: VanId, maxPerVan: nat, maxTotal: nat)
    requires |Project(log, v)| <= maxPerVan && |log| <= maxTotal
    ensures TrimTotal(TrimVan(log, v, maxPerVan), maxTotal) == log
  {
  }

  /** What a push leaves: with room under both limits everything; in any case, if the limits are positive,
      the new event, last; and before the total limit takes its share, of the event's van the newest events
      up to its limit, and of the others all. */
  lemma PushKeepsLatest(log: Log, e: Event, maxPerVan: nat, maxTotal: nat)
    ensures |Project(log, e.vanId)| < maxPerVan && |log| < maxTotal ==> Pushed(log, e, maxPerVan, maxTotal) == log + [e]
    ensures maxPerVan > 0 && maxTotal > 0 ==>
              var log' := Pushed(log, e, maxPerVan, maxTotal); log' != [] && log'[|log'| - 1] == e
    ensures exists trimmed: Log, k: nat :: k <= |trimmed| && Pushed(log, e, maxPerVan, maxTotal) == trimmed[k..]
              && (k > 0 ==> |trimmed| - k >= maxTotal)
              && (var p := Project(log, e.vanId) + [e];
                  Project(trimmed, e.vanId) == p[if |p| <= maxPerVan then 0 else |p| - maxPerVan..])
              && forall w | w != e.vanId :: Project(trimmed, w) == Project(log, w)
  {
    hide Project, Remains, TrimTotal, TrimVan, DropFirst;
    var longer := log + [e];
    var trimmed := TrimVan(longer, e.vanId, maxPerVan);
    ProjectAppend(log, e, e.vanId);
    forall w
      ensures w != e.vanId ==> Project(longer, w) == Project(log, w)
    {
      ProjectAppend(log, e, w);
    }
    TrimVanRemains(longer, e.vanId, maxPerVan);
    TrimVanKeepsLatest(longer, e.vanId, maxPerVan);
    if maxPerVan > 0 { TrimVanKeepsNewest(longer, e.vanId, maxPerVan); }
    if |Project(longer, e.vanId)| <= maxPerVan && |longer| <= maxTotal {
      NothingToTrim(longer, e.vanId, maxPerVan, maxTotal);
    }
    var k := TrimTotalIs(trimmed, maxTotal);
    assert Pushed(log, e, maxPerVan, maxTotal) == trimmed[k..];
  }

  /** Eviction takes from the front of a van's events those before the cutoff, and stops at the first that
      is not. */
  lemma {:induction false} DropOldIs(log: Log, cutoff: int) returns (k: nat)
    ensures k <= |log| && DropOld(log, cutoff) == log[k..]
    ensures (forall i | 0 <= i < k :: log[i].timestamp < cutoff) && (k < |log| ==> cutoff <= log[k].timestamp)
  {
    if log == [] || log[0].timestamp >= cutoff {
      k := 0;
    } else {
      k := DropOldIs(log[1..], cutoff);
      k := k + 1;
    }
  }

  /** The events of each van are in order of time. */
  ghost predicate InTime(log: Log) {
    forall i, j | 0 <= i < j < |log| && log[i].vanId == log[j].vanId :: log[i].timestamp <= log[j].timestamp
  }

  /** If each van's events are in order of time, eviction keeps exactly those not before the cutoff. */
  lemma {:induction false} AgedExactly(log: Log, cutoff: int, vans: set<VanId>)
    requires InTime(log)
    ensures forall e :: e in Aged(log, cutoff, vans) <==>
                        e in log && (e.vanId in vans ==> cutoff <= e.timestamp)
    decreases |log|
  {
    if log != [] {
      var h, rest := log[0], log[1..];
      assert log == [h] + rest;
      forall i, j | 0 <= i < j < |rest| && rest[i].vanId == rest[j].vanId
        ensures rest[i].timestamp <= rest[j].timestamp
      {
        assert rest[i] == log[i + 1] && rest[j] == log[j + 1];
      }
      if h.vanId in vans && h.timestamp < cutoff {
        AgedExactly(rest, cutoff, vans);
      } else {
        AgedExactly(rest, cutoff, vans - {h.vanId});
        forall e | e in rest && e.vanId == h.vanId
          ensures h.timestamp <= e.timestamp
        {
          var i :| 0 <= i < |rest| && rest[i] == e;
          assert log[i + 1] == e;
        }
      }
    }
  }

  /** A van whose name is empty defeats the total limit: nothing is dropped to make room. */
  lemma UnnamedVanDefeatsTotalLimit(e: Event, f: Event)
    requires e.vanId == "" && f.vanId == "van"
    ensures Pushed(Pushed([], e, 10, 1), f, 10, 1) == [e, f]
  {
    assert [] + [e] == [e] && [e] + [f] == [e, f];
    assert Project([e], "") == [e] + Project([], "");
    assert Pushed([], e, 10, 1) == [e];
    assert [e, f][1..] == [f] && [f][1..] == [];
    assert Project([f], "van") == [f] + Project([], "van");
    assert Project([e, f], "van") == [] + Project([f], "van");
  }

  lemma {:induction false} WithoutRemains(log: Log, v: VanId)
    ensures Remains(Without(log, v), log)
  {
    if log != [] {
      WithoutRemains(log[1..], v);
      assert log == [log[0]] + log[1..];
      ConsRemains(Without(log[1..], v), log[1..], log[0]);
      assert [] + Without(log[1..], v) == Without(log[1..], v);
    }
  }

  lemma {:induction false} AgedRemains(log: Log, cutoff: int, vans: set<VanId>)
    ensures Remains(Aged(log, cutoff, vans), log)
    decreases |log|
  {
    if log != [] {
      assert log == [log[0]] + log[1..];
      AgedRemains(log[1..], cutoff, vans);
      AgedRemains(log[1..], cutoff, vans - {log[0].vanId});
      ConsRemains(Aged(log[1..], cutoff, vans), log[1..], log[0]);
      ConsRemains(Aged(log[1..], cutoff, vans - {log[0].vanId}), log[1..], log[0]);
    }
  }

  lemma {:induction false} AfterMembers(log: Log, since: nat, e: Event)
    ensures e in After(log, since) <==> e in log && e.sequenceId > since
  {
    if log != [] {
      AfterMembers(log[1..], since, e);
      assert log == [log[0]] + log[1..];
    }
  }

  lemma {:induction false} AfterIsPart(log: Log, since: nat)
    ensures Remains(After(log, since), log)
  {
    if log != [] {
      AfterIsPart(log[1..], since);
      assert log == [log[0]] + log[1..];
      ConsRemains(After(log[1..], since), log[1..], log[0]);
      assert [] + After(log[1..], since) == After(log[1..], since);
    }
  }

  lemma AfterRemains(log: Log, since: nat)
    ensures Remains(After(log, since), log)
    ensures forall e :: e in After(log, since) <==> e in log && e.sequenceId > since
  {
    hide After, Remains;
    AfterIsPart(log, since);
    forall e { AfterMembers(log, since, e); }
  }

  lemma {:induction false} ProjectMembers(log: Log, v: VanId)
    ensures Remains(Project(log, v), log)
    ensures forall e :: e in Project(log, v) <==> e in log && e.vanId == v
  {
    if log != [] {
      ProjectMembers(log[1..], v);
      assert log == [log[0]] + log[1..];
      ConsRemains(Project(log[1..], v), log[1..], log[0]);
      assert [] + Project(log[1..], v) == Project(log[1..], v);
    }
  }

  /** The smallest front of all the deques is the head of the log. */
  lemma HeadIsSmallestFront(log: Log, v: VanId)
    requires log != [] && Ascending(log)
    ensures Project(log, log[0].vanId) != [] && Project(log, log[0].vanId)[0] == log[0]
    ensures Project(log, v) != [] && v != log[0].vanId ==> log[0].sequenceId < Project(log, v)[0].sequenceId
  {
    ProjectMembers(log[1..], v);
    if Project(log, v) != [] && v != log[0].vanId {
      assert Project(log, v)[0] in log[1..];
    }
  }

  lemma {:induction false} SameMembersSameOrder(a: Log, b: Log)
    requires Ascending(a) && Ascending(b) && forall e :: e in a <==> e in b
    ensures a == b
  {
    assert b == [] || b[0] in a;
    if a != [] {
      assert a[0] in b && b[0] in a;
      assert a[0] == b[0];
      forall e
        ensures e in a[1..] <==> e in b[1..]
      {
        if e in a[1..] { assert e in b && e != b[0]; }
        if e in b[1..] { assert e in a && e != a[0]; }
      }
      SameMembersSameOrder(a[1..], b[1..]);
      assert a == [a[0]] + a[1..] && b == [b[0]] + b[1..];
    }
  }

  // ---------------------------------------------------------------------
  // The buffer as the program keeps it.
  // ---------------------------------------------------------------------

  /** Each deque is its van's projection of the log, no event of which is lost; ids are used once and in
      order; the count is the log's length. */
  ghost predicate Holds(log: Log, buffers: map<VanId, seq<Event>>, next: nat, total: int) {
    && Ascending(log) && next >= 1
    && (forall e | e in log :: 1 <= e.sequenceId < next && e.vanId in buffers)
    && (forall v | v in buffers :: buffers[v] == Project(log, v))
    && total == |log|
  }

  lemma AppendAscends(log: Log, e: Event)
    requires Ascending(log) && forall f | f in log :: f.sequenceId < e.sequenceId
    ensures Ascending(log + [e])
  {
    assert forall i | 0 <= i < |log| :: log[i] in log;
  }

  lemma ProjectNone(log: Log, v: VanId)
    requires forall e | e in log :: e.vanId != v
    ensures Project(log, v) == []
  {
    ProjectMembers(log, v);
    if Project(log, v) != [] { assert Project(log, v)[0] in Project(log, v); }
  }

  lemma AppendHolds(log: Log, buffers: map<VanId, seq<Event>>, next: nat, total: int, e: Event)
    requires Holds(log, buffers, next, total) && e.sequenceId == next
    ensures var deq := if e.vanId in buffers then buffers[e.vanId] else [];
      Holds(log + [e], buffers[e.vanId := deq + [e]], next + 1, total + 1)
  {
    hide Project, Ascending;
    AppendAscends(log, e);
    forall v
      ensures Project(log + [e], v) == Project(log, v) + (if e.vanId == v then [e] else [])
      ensures v !in buffers ==> Project(log, v) == []
    {
      ProjectAppend(log, e, v);
      if v !in buffers { ProjectNone(log, v); }
    }
  }

  /** Dropping the front of one deque. */
  lemma DropFirstHolds(log: Log, buffers: map<VanId, seq<Event>>, next: nat, total: int, v: VanId)
    requires Holds(log, buffers, next, total) && v in buffers && buffers[v] != []
    ensures Holds(DropFirst(log, v), buffers[v := buffers[v][1..]], next, total - 1)
  {
    forall w {
      DropFirstProjects(log, v, w);
    }
    DropFirstRemains(log, v);
  }

  lemma DropHeadHolds(log: Log, buffers: map<VanId, seq<Event>>, next: nat, total: int)
    requires Holds(log, buffers, next, total) && log != []
    ensures var v := log[0].vanId;
      v in buffers && buffers[v] != [] && Holds(log[1..], buffers[v := buffers[v][1..]], next, total - 1)
  {
    assert log[0] in log;
    HeadIsSmallestFront(log, log[0].vanId);
    DropFirstHolds(log, buffers, next, total, log[0].vanId);
  }

  lemma WithoutHolds(log: Log, buffers: map<VanId, seq<Event>>, next: nat, total: int, v: VanId)
    requires Holds(log, buffers, next, total)
    ensures if v in buffers then Holds(Without(log, v), buffers - {v}, next, total - |buffers[v]|)
            else Without(log, v) == log
  {
    hide Without;
    if v in buffers {
      forall w {
        WithoutProjects(log, v, w);
      }
      WithoutRemains(log, v);
      ProjectMembers(Without(log, v), v);
    } else {
      NoneToRemove(log, v);
    }
  }

  lemma AgedHolds(log: Log, buffers: map<VanId, seq<Event>>, next: nat, total: int, v: VanId, cutoff: int)
    requires Holds(log, buffers, next, total) && v in buffers
    ensures var deq := DropOld(buffers[v], cutoff);
      Holds(Aged(log, cutoff, {v}), buffers[v := deq], next, total - (|buffers[v]| - |deq|))
  {
    forall w {
      AgedProjects(log, cutoff, {v}, w);
    }
    AgedRemains(log, cutoff, {v});
    AgedLength(log, cutoff, v);
  }

  /** The front of a deque against the head of the log. */
  lemma FrontsAgainstHead(log: Log, buffers: map<VanId, seq<Event>>, next: nat, total: int, v: VanId)
    requires Holds(log, buffers, next, total) && v in buffers
    ensures log == [] ==> buffers[v] == []
    ensures log != [] ==> log[0].vanId in buffers && log[0].sequenceId < next
    ensures log != [] && v == log[0].vanId ==> buffers[v] != [] && buffers[v][0] == log[0]
    ensures log != [] && v != log[0].vanId && buffers[v] != [] ==> log[0].sequenceId < buffers[v][0].sequenceId
  {
    if log != [] {
      assert log[0] in log;
      HeadIsSmallestFront(log, v);
    }
  }

  lemma HoldsCount(log: Log, buffers: map<VanId, seq<Event>>, next: nat, total: int)
    requires Holds(log, buffers, next, total)
    ensures total == |log|
  {
  }

  lemma YoungStay(log: Log, buffers: map<VanId, seq<Event>>, next: nat, total: int, maxAge: int, now: int)
    requires Holds(log, buffers, next, total) && InTime(log)
    ensures forall e :: e in Aged(log, now - maxAge, buffers.Keys) <==> e in log && now - e.timestamp <= maxAge
  {
    AgedExactly(log, now - maxAge, buffers.Keys);
  }

  class OfflineBuffer {
    const maxPerVan: nat
    const maxTotal: nat
    var nextSequenceId: nat
    var totalCount: int
    var buffers: map<VanId, seq<Event>>
    ghost var log: Log

    ghost predicate Valid()
      reads this
    {
      Holds(log, buffers, nextSequenceId, totalCount)
    }

    constructor (maxPerVan: nat, maxTotal: nat)
      ensures Valid() && log == [] && nextSequenceId == 1
      ensures this.maxPerVan == maxPerVan && this.maxTotal == maxTotal
    {
      this.maxPerVan, this.maxTotal := maxPerVan, maxTotal;
      nextSequenceId, totalCount, buffers, log := 1, 0, map[], [];
    }

    method Push(van: VanId, eventType: string, payload: string, timestamp: int)
      requires Valid() && nextSequenceId < UINT64_MAX
      modifies this
      ensures Valid() && nextSequenceId == old(nextSequenceId) + 1
      ensures log == Pushed(old(log), Event(old(nextSequenceId), van, timestamp, eventType, payload),
                            maxPerVan, maxTotal)
      ensures |Project(old(log), van)| < maxPerVan && |old(log)| < maxTotal ==>
                log == old(log) + [Event(old(nextSequenceId), van, timestamp, eventType, payload)]
      ensures maxPerVan > 0 && maxTotal > 0 ==>
                log != [] && log[|log| - 1] == Event(old(nextSequenceId), van, timestamp, eventType, payload)
    {
      var e := Event(nextSequenceId, van, timestamp, eventType, payload);
      hide Holds, Project, TrimVan, TrimTotal;
      PushKeepsLatest(log, e, maxPerVan, maxTotal);
      nextSequenceId := nextSequenceId + 1;
      Append(e);
      EnforcePerVanLimit(van);
      EnforceTotalLimit();
    }

    method Append(e: Event)
      requires nextSequenceId == e.sequenceId + 1 && Holds(log, buffers, e.sequenceId, totalCount)
      modifies this
      ensures Valid() && nextSequenceId == old(nextSequenceId) && e.vanId in buffers && log == old(log) + [e]
    {
      hide Holds;
      AppendHolds(log, buffers, e.sequenceId, totalCount, e);
      buffers := buffers[e.vanId := (if e.vanId in buffers then buffers[e.vanId] else []) + [e]];
      totalCount := totalCount + 1;
      log := log + [e];
    }

    method EnforcePerVanLimit(van: VanId)
      requires Valid() && van in buffers
      modifies this
      ensures Valid() && nextSequenceId == old(nextSequenceId) && log == TrimVan(old(log), van, maxPerVan)
      ensures var p := Project(old(log), van); Project(log, van) == p[if |p| <= maxPerVan then 0 else |p| - maxPerVan..]
      ensures forall w | w != van :: Project(log, w) == Project(old(log), w)
    {
      TrimVanKeepsLatest(log, van, maxPerVan);
      TrimVanRemains(log, van, maxPerVan);
      while |buffers[van]| > maxPerVan
        invariant Valid() && van in buffers && nextSequenceId == old(nextSequenceId)
        invariant TrimVan(log, van, maxPerVan) == TrimVan(old(log), van, maxPerVan)
        decreases |buffers[van]|
      {
        DropFirstHolds(log, buffers, nextSequenceId, totalCount, van);
        buffers := buffers[van := buffers[van][1..]];
        totalCount := totalCount - 1;
        log := DropFirst(log, van);
      }
    }

    /** The van whose front has the smallest id, or the empty name. */
    method FindOldest() returns (oldest: VanId)
      requires Valid() && nextSequenceId <= UINT64_MAX
      ensures log != [] ==> oldest == log[0].vanId
      ensures log == [] ==> oldest == ""
    {
      assert log != [] ==> log[0] in log;
      hide Holds;
      oldest := "";
      var oldestSeq: nat := UINT64_MAX;
      var todo := buffers.Keys;
      while todo != {}
        invariant todo <= buffers.Keys
        invariant log == [] ==> oldest == ""
        invariant log != [] && log[0].vanId !in todo ==> oldest == log[0].vanId && oldestSeq == log[0].sequenceId
        invariant log != [] ==> log[0].sequenceId <= oldestSeq
        invariant log != [] && log[0].vanId in todo ==> log[0].sequenceId < oldestSeq
        decreases todo
      {
        var v :| v in todo;
        todo := todo - {v};
        FrontsAgainstHead(log, buffers, nextSequenceId, totalCount, v);
        var deq := buffers[v];
        if deq != [] && deq[0].sequenceId < oldestSeq {
          oldestSeq := deq[0].sequenceId;
          oldest := v;
        }
      }
    }

    method EnforceTotalLimit()
      requires Valid() && nextSequenceId <= UINT64_MAX
      modifies this
      ensures Valid() && nextSequenceId == old(nextSequenceId) && log == TrimTotal(old(log), maxTotal)
      ensures |log| <= |old(log)| && log == old(log)[|old(log)| - |log|..]
      ensures |log| < |old(log)| ==> |log| >= maxTotal
      ensures |log| <= maxTotal || log[0].vanId == ""
    {
      hide Holds;
      ghost var k := TrimTotalIs(log, maxTotal);
      HoldsCount(log, buffers, nextSequenceId, totalCount);
      while totalCount > maxTotal
        invariant totalCount == |log|
        invariant Valid() && nextSequenceId == old(nextSequenceId)
        invariant TrimTotal(log, maxTotal) == TrimTotal(old(log), maxTotal)
        decreases |log|
      {
        var oldest := FindOldest();
        if oldest == "" { break; }
        DropHeadHolds(log, buffers, nextSequenceId, totalCount);
        buffers := buffers[oldest := buffers[oldest][1..]];
        totalCount := totalCount - 1;
        log := log[1..];
      }
    }

    method Drain(van: VanId, since: nat) returns (result: seq<Event>)
      requires Valid()
      ensures result == After(Project(log, van), since)
    {
      result := [];
      if van !in buffers {
        ProjectMembers(log, van);
        assert Project(log, van) == [] by {
          if Project(log, van) != [] { assert Project(log, van)[0] in Project(log, van); }
        }
        return;
      }
      result := CollectAfter(buffers[van], since);
    }

    method DrainAll(since: nat) returns (result: seq<Event>)
      requires Valid()
      ensures result == After(log, since)
    {
      var found: seq<Event> := [];
      var todo := buffers.Keys;
      while todo != {}
        invariant todo <= buffers.Keys
        invariant Distinct(found)
        invariant forall e :: e in found <==> e in log && e.sequenceId > since && e.vanId !in todo
        decreases todo
      {
        var v :| v in todo;
        todo := todo - {v};
        ProjectMembers(log, v);
        AfterRemains(buffers[v], since);
        var part := CollectAfter(buffers[v], since);
        DistinctAppend(found, part, log, since, v);
        found := found + part;
      }
      result := SortById(found);
      AfterRemains(log, since);
      SameMembersSameOrder(result, After(log, since));
    }

    method Clear(van: VanId)
      requires Valid()
      modifies this
      ensures Valid() && nextSequenceId == old(nextSequenceId) && log == Without(old(log), van)
    {
      hide Holds;
      WithoutHolds(log, buffers, nextSequenceId, totalCount, van);
      if van in buffers {
        totalCount := totalCount - |buffers[van]|;
        buffers := buffers - {van};
        log := Without(log, van);
      }
    }

    method ClearAll()
      requires Valid()
      modifies this
      ensures Valid() && nextSequenceId == old(nextSequenceId) && log == []
    {
      buffers := map[];
      totalCount := 0;
      log := [];
    }

    method Evict(maxAge: int, now: int)
      requires Valid()
      modifies this
      ensures Valid() && nextSequenceId == old(nextSequenceId)
      ensures log == Aged(old(log), now - maxAge, old(buffers).Keys)
      ensures InTime(old(log)) ==> forall e :: e in log <==> e in old(log) && now - e.timestamp <= maxAge
    {
      hide Holds, Aged, InTime;
      if InTime(log) { YoungStay(log, buffers, nextSequenceId, totalCount, maxAge, now); }
      var cutoff := now - maxAge;
      var todo := buffers.Keys;
      ghost var done: set<VanId> := {};
      AgedNone(log, cutoff);
      while todo != {}
        invariant Valid() && nextSequenceId == old(nextSequenceId)
        invariant buffers.Keys == old(buffers).Keys == done + todo && done !! todo
        invariant log == Aged(old(log), cutoff, done)
        decreases todo
      {
        var v :| v in todo;
        todo := todo - {v};
        AgedOneMore(old(log), cutoff, done, v);
        EvictVan(v, cutoff);
        done := done + {v};
      }
      assert done == old(buffers).Keys;
    }

    method EvictVan(v: VanId, cutoff: int)
      requires Valid() && v in buffers
      modifies this
      ensures Valid() && nextSequenceId == old(nextSequenceId) && buffers.Keys == old(buffers).Keys
      ensures log == Aged(old(log), cutoff, {v})
    {
      hide Holds;
      AgedHolds(log, buffers, nextSequenceId, totalCount, v, cutoff);
      var removed := 0;
      var deq := buffers[v];
      while deq != [] && deq[0].timestamp < cutoff
        invariant DropOld(deq, cutoff) == DropOld(buffers[v], cutoff)
        invariant removed == |buffers[v]| - |deq|
        decreases |deq|
      {
        deq := deq[1..];
        removed := removed + 1;
      }
      totalCount := totalCount - removed;
      buffers := buffers[v := deq];
      log := Aged(log, cutoff, {v});
    }
  }

  lemma {:induction false} NoneToRemove(log: Log, v: VanId)
    requires forall e | e in log :: e.vanId != v
    ensures Without(log, v) == log
  {
    if log != [] {
      assert log[0] in log;
      NoneToRemove(log[1..], v);
    }
  }

  lemma AfterNext(deq: seq<Event>, i: nat, since: nat)
    requires i < |deq|
    ensures After(deq[i..], since) == (if deq[i].sequenceId > since then [deq[i]] else []) + After(deq[i + 1..], since)
  {
    assert deq[i..][1..] == deq[i + 1..];
  }

  method CollectAfter(deq: seq<Event>, since: nat) returns (result: seq<Event>)
    ensures result == After(deq, since)
  {
    result := [];
    for i := 0 to |deq|
      invariant result + After(deq[i..], since) == After(deq, since)
    {
      AfterNext(deq, i, since);
      if deq[i].sequenceId > since {
        result := result + [deq[i]];
      }
    }
  }

  ghost predicate Distinct(s: Log) {
    forall i, j | 0 <= i < j < |s| :: s[i].sequenceId != s[j].sequenceId
  }

  lemma DistinctAppend(found: Log, part: Log, log: Log, since: nat, v: VanId)
    requires Ascending(log) && Distinct(found) && Ascending(part)
    requires forall e | e in found :: e in log && e.vanId != v
    requires forall e | e in part :: e in log && e.vanId == v
    ensures Distinct(found + part)
  {
    var s := found + part;
    forall i, j | 0 <= i < j < |s|
      ensures s[i].sequenceId != s[j].sequenceId
    {
      if i < |found| <= j {
        assert s[i] in found && s[j] in part;
        var a :| 0 <= a < |log| && log[a] == s[i];
        var b :| 0 <= b < |log| && log[b] == s[j];
      }
    }
  }

  /** std::sort by sequence id, on events with distinct ids. */
  method SortById(events: seq<Event>) returns (sorted: seq<Event>)
    requires Distinct(events)
    ensures Ascending(sorted) && forall e :: e in sorted <==> e in events
  {
    sorted := [];
    for k := 0 to |events|
      invariant Ascending(sorted) && forall e :: e in sorted <==> e in events[..k]
    {
      var e := events[k];
      var p := |sorted|;
      while p > 0 && sorted[p - 1].sequenceId > e.sequenceId
        invariant 0 <= p <= |sorted|
        invariant forall i | p <= i < |sorted| :: e.sequenceId < sorted[i].sequenceId
      {
        p := p - 1;
      }
      forall i | 0 <= i < p
        ensures sorted[i].sequenceId < e.sequenceId
      {
        assert sorted[i] in events[..k];
      }
      sorted := sorted[..p] + [e] + sorted[p..];
      assert events[..k + 1] == events[..k] + [e];
    }
    assert events[..|events|] == events;
  }
}
