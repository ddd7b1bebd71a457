/** Routers 0..N-1 that advertise their tables to each other, as a step system.

    A step is what one event of a ThreadNode does to the tables (src/thread/ThreadNode.cpp): a router
    hears a neighbour's advertisement, expires its stale routes on a tick, or invalidates a router;
    or time passes. A hearing is atomic: what is heard is the advertiser's present table. */
module Mesh {
  import opened Types
  import opened Routing

  datatype Mesh = Mesh(tables: seq<Table>, now: int, timeout: int)

  datatype Step =
    | Hear(router: nat, from: nat)
    | Expire(router: nat)
    | Invalidate(router: nat, target: u8)
    | Advance(elapsed: nat)

  predicate StepOk(n: nat, s: Step) {
    match s
    case Hear(r, from) => r < n && from < n && r != from
    case Expire(r) => r < n
    case Invalidate(r, _) => r < n
    case Advance(_) => true
  }

  predicate Steps(n: nat, steps: seq<Step>) {
    forall i | 0 <= i < |steps| :: StepOk(n, steps[i])
  }

  predicate Sized(m: Mesh) {
    |m.tables| <= MAX_ROUTERS
  }

  function Apply(m: Mesh, s: Step): (m': Mesh)
    requires Sized(m) && StepOk(|m.tables|, s)
    ensures |m'.tables| == |m.tables| && m'.timeout == m.timeout
  {
    match s
    case Hear(r, n) => m.(tables := m.tables[r := Heard(m.tables[r], r, n, Advertised(m.tables[n]), m.now)])
    case Expire(r) => m.(tables := m.tables[r := Expired(m.tables[r], m.now, m.timeout)])
    case Invalidate(r, x) => m.(tables := m.tables[r := Invalidated(m.tables[r], x)])
    case Advance(dt) => m.(now := m.now + dt)
  }

  function Run(m: Mesh, steps: seq<Step>): (m': Mesh)
    requires Sized(m) && Steps(|m.tables|, steps)
    ensures |m'.tables| == |m.tables| && m'.timeout == m.timeout
    decreases |steps|
  {
    if steps == [] then m else Run(Apply(m, steps[0]), steps[1..])
  }

  function RunAll(m: Mesh, windows: seq<seq<Step>>): (m': Mesh)
    requires Sized(m) && forall w | w in windows :: Steps(|m.tables|, w)
    ensures |m'.tables| == |m.tables| && m'.timeout == m.timeout
    decreases |windows|
  {
    if windows == [] then m else RunAll(Run(m, windows[0]), windows[1..])
  }

  function EmptyMesh(n: nat, now: int, timeout: int): Mesh {
    Mesh(seq(n, _ => EMPTY_TABLE), now, timeout)
  }

  // ---------------------------------------------------------------------
  // Freshness, over every run.
  // ---------------------------------------------------------------------

  ghost predicate FreshMesh(m: Mesh) {
    Sized(m) && forall r: nat | r < |m.tables| :: Fresh(m.tables[r], r, m.now)
  }

  /** What `r` hears from `n` is a proper advertisement: in particular `n` never lists itself. */
  lemma AdvertisementsAreProper(m: Mesh, r: nat, n: nat)
    requires FreshMesh(m) && r < |m.tables| && n < |m.tables| && r != n
    ensures ProperAdvertisement(r, n, Advertised(m.tables[n]))
  {
    AdvertisedIsProper(m.tables[n], n, m.now, MAX_ROUTERS);
  }

  lemma StepKeepsFresh(m: Mesh, s: Step)
    requires FreshMesh(m) && StepOk(|m.tables|, s)
    ensures FreshMesh(Apply(m, s))
  {
    match s
    case Hear(r, n) =>
      AdvertisementsAreProper(m, r, n);
      HeardKeepsFresh(m.tables[r], r, n, Advertised(m.tables[n]), m.now);
    case Expire(r) => ExpiredKeepsFresh(m.tables[r], r, m.now, m.timeout);
    case Invalidate(r, x) => InvalidatedKeepsFresh(m.tables[r], r, x, m.now);
    case Advance(dt) =>
      forall r: nat | r < |m.tables|
        ensures Fresh(m.tables[r], r, m.now + dt)
      {
        FreshLater(m.tables[r], r, m.now, m.now + dt);
      }
  }

  lemma {:induction false} RunKeepsFresh(m: Mesh, steps: seq<Step>)
    requires FreshMesh(m) && Steps(|m.tables|, steps)
    ensures FreshMesh(Run(m, steps))
    decreases |steps|
  {
    if steps != [] {
      StepKeepsFresh(m, steps[0]);
      RunKeepsFresh(Apply(m, steps[0]), steps[1..]);
    }
  }

  /** Every mesh that runs from empty tables keeps every router's table fresh. */
  lemma EveryReachableMeshIsFresh(n: nat, now: int, timeout: int, steps: seq<Step>)
    requires n <= MAX_ROUTERS && Steps(n, steps)
    ensures FreshMesh(Run(EmptyMesh(n, now, timeout), steps))
  {
    var m := EmptyMesh(n, now, timeout);
    forall r: nat | r < |m.tables|
      ensures Fresh(m.tables[r], r, m.now)
    {
      EmptyIsFresh(r, m.now);
    }
    RunKeepsFresh(m, steps);
  }

  // ---------------------------------------------------------------------
  // One step, seen from one entry.
  // ---------------------------------------------------------------------

  lemma StepEntry(m: Mesh, s: Step, r: nat, d: nat)
    requires FreshMesh(m) && StepOk(|m.tables|, s) && r < |m.tables| && d < MAX_ROUTERS
    ensures Apply(m, s).tables[r][d] == (
        match s
        case Hear(r', n) =>
          if r' == r then HeardEntry(m.tables[r], r, n, m.tables[n], m.now, d) else m.tables[r][d]
        case Expire(r') =>
          if r' == r then ExpireEntry(m.tables[r][d], m.now, m.timeout) else m.tables[r][d]
        case Invalidate(r', x) =>
          if r' == r && x < MAX_ROUTERS then InvalidateEntry(m.tables[r][d], d, x) else m.tables[r][d]
        case Advance(_) => m.tables[r][d])
  {
    if s.Hear? && s.router == r {
      HearingIsEntrywise(m.tables[r], r, s.from, m.tables[s.from], m.now);
    }
  }
}
