/** SRP leases and the registry they keep up to date (src/thread/SRP.cpp).

    Instants are nanoseconds, durations milliseconds. */
module Srp {
  import opened Types
  import opened Discovery

  const LEASE_DURATION_MS: int := 7_200_000
  const KEY_LEASE_MS: int := 1_209_600_000

  datatype SRPLease = SRPLease(
    hostname: string, nodeId: NodeId, rloc16: u16, service: ServiceRecord,
    leaseStart: int, leaseDuration: int, keyLease: int, renewalCount: nat)

  datatype LeaseState = Active | Expiring | Expired

  function StateOf(l: SRPLease, now: int): LeaseState {
    var elapsed := ToMs(now - l.leaseStart);
    if elapsed > l.leaseDuration then Expired
    else if l.leaseDuration - elapsed < TruncTenth(l.leaseDuration) then Expiring
    else Active
  }

  function TruncTenth(d: int): int {
    if d >= 0 then d / 10 else -((-d) / 10)
  }

  predicate IsExpired(l: SRPLease, now: int) {
    StateOf(l, now) == Expired
  }

  function LeaseKey(l: SRPLease): Key {
    Key(l.nodeId, l.service.serviceName)
  }

  // ---------------------------------------------------------------------
  // What each operation does to the leases and the records.
  // ---------------------------------------------------------------------

  datatype State = State(leases: seq<SRPLease>, records: seq<ServiceRecord>)

  function NewLease(node: NodeId, rloc: u16, hostname: string, service: ServiceRecord, now: int): SRPLease {
    SRPLease(hostname, node, rloc, service.(registeredAt := now), now, LEASE_DURATION_MS, KEY_LEASE_MS, 0)
  }

  function Reregistered(l: SRPLease, rloc: u16, hostname: string, service: ServiceRecord, now: int): SRPLease {
    l.(rloc16 := rloc, hostname := hostname, service := service.(registeredAt := now), leaseStart := now,
       renewalCount := l.renewalCount + 1)
  }

  function RegisteredLeases(ls: seq<SRPLease>, node: NodeId, rloc: u16, hostname: string, service: ServiceRecord,
                            now: int): seq<SRPLease>
  {
    if ls == [] then [NewLease(node, rloc, hostname, service, now)]
    else if LeaseKey(ls[0]) == Key(node, service.serviceName) then
      [Reregistered(ls[0], rloc, hostname, service, now)] + ls[1..]
    else [ls[0]] + RegisteredLeases(ls[1..], node, rloc, hostname, service, now)
  }

  function Renewed(l: SRPLease, now: int): SRPLease {
    l.(leaseStart := now, service := l.service.(registeredAt := now), renewalCount := l.renewalCount + 1)
  }

  function Moved(l: SRPLease, rloc: u16, now: int): SRPLease {
    l.(rloc16 := rloc, service := l.service.(rloc16 := rloc, registeredAt := now), leaseStart := now)
  }

  function Aged(l: SRPLease): SRPLease {
    l.(leaseStart := l.leaseStart - (l.leaseDuration + 1) * NS_PER_MS)
  }

  /** Applies a change to each lease of the node, registering its service again. */
  function Refreshed(s: State, node: NodeId, change: SRPLease -> SRPLease, k: nat): (r: State)
    requires k <= |s.leases|
    ensures |r.leases| == |s.leases|
  {
    if k == 0 then s
    else
      var before := Refreshed(s, node, change, k - 1);
      if s.leases[k - 1].nodeId == node then RefreshAt(before, k - 1, change(s.leases[k - 1])) else before
  }

  function RefreshAt(s: State, i: nat, l: SRPLease): State
    requires i < |s.leases|
  {
    State(s.leases[i := l], Upserted(s.records, l.service))
  }

  function Live(ls: seq<SRPLease>, now: int): seq<SRPLease> {
    if ls == [] then [] else (if IsExpired(ls[0], now) then [] else [ls[0]]) + Live(ls[1..], now)
  }

  /** The records without those of the expired leases, removed from the last to the first. */
  function Swept(rs: seq<ServiceRecord>, ls: seq<SRPLease>, now: int): seq<ServiceRecord> {
    if ls == [] then rs
    else
      var later := Swept(rs, ls[1..], now);
      if IsExpired(ls[0], now) then Without(later, Key(ls[0].nodeId, ls[0].service.serviceName)) else later
  }

  function LeasesWithoutNode(ls: seq<SRPLease>, node: NodeId): seq<SRPLease> {
    if ls == [] then [] else (if ls[0].nodeId == node then [] else [ls[0]]) + LeasesWithoutNode(ls[1..], node)
  }

  predicate HasLease(ls: seq<SRPLease>, node: NodeId) {
    exists i :: 0 <= i < |ls| && ls[i].nodeId == node
  }

  predicate HasActiveLease(ls: seq<SRPLease>, node: NodeId, now: int) {
    exists i :: 0 <= i < |ls| && ls[i].nodeId == node && !IsExpired(ls[i], now)
  }

  datatype Op =
    | Register(node: NodeId, rloc: u16, hostname: string, service: ServiceRecord, now: int)
    | Renew(node: NodeId, now: int)
    | RemoveNode(node: NodeId)
    | Tick(now: int)
    | ForceExpire(node: NodeId)
    | UpdateRloc(node: NodeId, rloc: u16, now: int)

  function Apply(s: State, op: Op): State {
    match op
    case Register(node, rloc, hostname, service, now) =>
      State(RegisteredLeases(s.leases, node, rloc, hostname, service, now), Upserted(s.records, service))
    case Renew(node, now) => Refreshed(s, node, l => Renewed(l, now), |s.leases|)
    case RemoveNode(node) =>
      if HasLease(s.leases, node) then State(LeasesWithoutNode(s.leases, node), WithoutNode(s.records, node)) else s
    case Tick(now) => State(Live(s.leases, now), Swept(s.records, s.leases, now))
    case ForceExpire(node) =>
      s.(leases := seq(|s.leases|, i requires 0 <= i < |s.leases| =>
           if s.leases[i].nodeId == node then Aged(s.leases[i]) else s.leases[i]))
    case UpdateRloc(node, rloc, now) => Refreshed(s, node, l => Moved(l, rloc, now), |s.leases|)
  }

  /** A registration as every client makes it: the record carries the lease's node and RLOC. */
  predicate ProperOp(op: Op) {
    op.Register? ==> op.service.nodeId == op.node && op.service.rloc16 == op.rloc
  }

  // ---------------------------------------------------------------------
  // Leases and records agree.
  // ---------------------------------------------------------------------

  predicate DistinctLeases(ls: seq<SRPLease>) {
    forall i, j | 0 <= i < j < |ls| :: LeaseKey(ls[i]) != LeaseKey(ls[j])
  }

  function LeaseMap(ls: seq<SRPLease>): map<Key, u16> {
    if ls == [] then map[] else LeaseMap(ls[1..])[LeaseKey(ls[0]) := ls[0].rloc16]
  }

  predicate ConsistentLease(l: SRPLease) {
    l.service.nodeId == l.nodeId && l.service.rloc16 == l.rloc16
  }

  /** Leases and records match one to one on node and service name, with equal RLOCs. */
  ghost predicate Agree(s: State) {
    && DistinctLeases(s.leases) && DistinctRecords(s.records)
    && (forall i | 0 <= i < |s.leases| :: ConsistentLease(s.leases[i]))
    && LeaseMap(s.leases) == RecordMap(s.records)
  }

  lemma {:induction false} LeaseMapKeys(ls: seq<SRPLease>)
    ensures forall k :: k in LeaseMap(ls) <==> exists i :: 0 <= i < |ls| && LeaseKey(ls[i]) == k
  {
    if ls != [] {
      LeaseMapKeys(ls[1..]);
      forall k
        ensures k in LeaseMap(ls) <==> exists i :: 0 <= i < |ls| && LeaseKey(ls[i]) == k
      {
        if k in LeaseMap(ls[1..]) {
          var i :| 0 <= i < |ls[1..]| && LeaseKey(ls[1..][i]) == k;
          assert LeaseKey(ls[i + 1]) == k;
        }
        if i :| 0 <= i < |ls| && LeaseKey(ls[i]) == k {
          if i > 0 { assert LeaseKey(ls[1..][i - 1]) == k; }
        }
      }
    }
  }

  lemma ConsLease(l: SRPLease, ls: seq<SRPLease>)
    requires DistinctLeases(ls) && LeaseKey(l) !in LeaseMap(ls)
    ensures DistinctLeases([l] + ls)
  {
    LeaseMapKeys(ls);
  }

  lemma TailLeases(ls: seq<SRPLease>)
    requires DistinctLeases(ls) && ls != []
    ensures DistinctLeases(ls[1..]) && LeaseKey(ls[0]) !in LeaseMap(ls[1..])
  {
    LeaseMapKeys(ls[1..]);
  }

  lemma {:induction false} LeaseMapAt(ls: seq<SRPLease>, i: nat)
    requires DistinctLeases(ls) && i < |ls|
    ensures LeaseKey(ls[i]) in LeaseMap(ls) && LeaseMap(ls)[LeaseKey(ls[i])] == ls[i].rloc16
  {
    LeaseMapKeys(ls);
    if i > 0 {
      TailLeases(ls);
      LeaseMapAt(ls[1..], i - 1);
      assert LeaseKey(ls[0]) != LeaseKey(ls[i]);
    }
  }

  /** A lease and a record stand for the same service at the same address. */
  predicate Matches(l: SRPLease, r: ServiceRecord) {
    LeaseKey(l) == KeyOf(r) && l.rloc16 == r.rloc16
  }

  /** Under agreement each lease has exactly one record. */
  lemma CounterpartOfLease(s: State, i: nat) returns (j: nat)
    requires Agree(s) && i < |s.leases|
    ensures j < |s.records| && Matches(s.leases[i], s.records[j])
    ensures forall k | 0 <= k < |s.records| && Matches(s.leases[i], s.records[k]) :: k == j
  {
    LeaseMapAt(s.leases, i);
    RecordMapKeys(s.records);
    j :| 0 <= j < |s.records| && KeyOf(s.records[j]) == LeaseKey(s.leases[i]);
    RecordMapAt(s.records, j);
  }

  /** And each record exactly one lease. */
  lemma CounterpartOfRecord(s: State, j: nat) returns (i: nat)
    requires Agree(s) && j < |s.records|
    ensures i < |s.leases| && Matches(s.leases[i], s.records[j])
    ensures forall k | 0 <= k < |s.leases| && Matches(s.leases[k], s.records[j]) :: k == i
  {
    RecordMapAt(s.records, j);
    LeaseMapKeys(s.leases);
    i :| 0 <= i < |s.leases| && LeaseKey(s.leases[i]) == KeyOf(s.records[j]);
    LeaseMapAt(s.leases, i);
  }

  lemma {:induction false} RegisteredMap(ls: seq<SRPLease>, node: NodeId, rloc: u16, hostname: string,
                                         service: ServiceRecord, now: int)
    requires DistinctLeases(ls)
    ensures var ls' := RegisteredLeases(ls, node, rloc, hostname, service, now);
      LeaseMap(ls') == LeaseMap(ls)[Key(node, service.serviceName) := rloc] && DistinctLeases(ls')
    ensures service.nodeId == node && service.rloc16 == rloc && (forall i | 0 <= i < |ls| :: ConsistentLease(ls[i])) ==>
              var ls' := RegisteredLeases(ls, node, rloc, hostname, service, now);
              forall i | 0 <= i < |ls'| :: ConsistentLease(ls'[i])
  {
    if ls != [] {
      TailLeases(ls);
      if LeaseKey(ls[0]) == Key(node, service.serviceName) {
        ConsLease(Reregistered(ls[0], rloc, hostname, service, now), ls[1..]);
      } else {
        RegisteredMap(ls[1..], node, rloc, hostname, service, now);
        ConsLease(ls[0], RegisteredLeases(ls[1..], node, rloc, hostname, service, now));
      }
    }
  }

  lemma {:induction false} LeasesWithoutNodeMap(ls: seq<SRPLease>, node: NodeId)
    requires DistinctLeases(ls)
    ensures LeaseMap(LeasesWithoutNode(ls, node)) == DropNode(LeaseMap(ls), node)
            && DistinctLeases(LeasesWithoutNode(ls, node))
  {
    if ls != [] {
      TailLeases(ls);
      LeasesWithoutNodeMap(ls[1..], node);
      DropNodeUpdate(LeaseMap(ls[1..]), LeaseKey(ls[0]), ls[0].rloc16, node);
      if ls[0].nodeId == node {
        assert LeasesWithoutNode(ls, node) == LeasesWithoutNode(ls[1..], node);
      } else {
        ConsLease(ls[0], LeasesWithoutNode(ls[1..], node));
        assert LeasesWithoutNode(ls, node)[1..] == LeasesWithoutNode(ls[1..], node);
      }
    }
  }

  lemma {:induction false} KeptAllIff(ls: seq<SRPLease>, node: NodeId)
    ensures |LeasesWithoutNode(ls, node)| <= |ls|
    ensures |LeasesWithoutNode(ls, node)| == |ls| <==> !HasLease(ls, node)
  {
    if ls != [] {
      KeptAllIff(ls[1..], node);
      assert HasLease(ls, node) <==> ls[0].nodeId == node || HasLease(ls[1..], node) by {
        if i :| 0 <= i < |ls| && ls[i].nodeId == node {
          if i > 0 { assert ls[1..][i - 1].nodeId == node; }
        }
        if i :| 0 <= i < |ls[1..]| && ls[1..][i].nodeId == node { assert ls[i + 1].nodeId == node; }
      }
    }
  }

  lemma {:induction false} KeptLeases(ls: seq<SRPLease>, node: NodeId, now: int)
    ensures forall l | l in LeasesWithoutNode(ls, node) :: l in ls
    ensures forall l | l in Live(ls, now) :: l in ls && !IsExpired(l, now)
  {
    if ls != [] { KeptLeases(ls[1..], node, now); }
  }

  function ExpiredKeys(ls: seq<SRPLease>, now: int): set<Key> {
    if ls == [] then {} else (if IsExpired(ls[0], now) then {LeaseKey(ls[0])} else {}) + ExpiredKeys(ls[1..], now)
  }

  lemma {:induction false} SweptMap(rs: seq<ServiceRecord>, ls: seq<SRPLease>, now: int)
    requires DistinctRecords(rs)
    ensures RecordMap(Swept(rs, ls, now)) == RecordMap(rs) - ExpiredKeys(ls, now) && DistinctRecords(Swept(rs, ls, now))
  {
    if ls != [] {
      SweptMap(rs, ls[1..], now);
      if IsExpired(ls[0], now) {
        WithoutMap(Swept(rs, ls[1..], now), LeaseKey(ls[0]));
        assert RecordMap(rs) - ExpiredKeys(ls[1..], now) - {LeaseKey(ls[0])} == RecordMap(rs) - ExpiredKeys(ls, now);
      } else {
        assert ExpiredKeys(ls, now) == ExpiredKeys(ls[1..], now);
      }
    }
  }

  lemma {:induction false} ExpiredKeysAreLeased(ls: seq<SRPLease>, now: int)
    ensures ExpiredKeys(ls, now) <= LeaseMap(ls).Keys
  {
    if ls != [] { ExpiredKeysAreLeased(ls[1..], now); }
  }

  lemma RemoveFresh(m: map<Key, u16>, k: Key, x: u16, e: set<Key>)
    requires k !in m
    ensures m[k := x] - ({k} + e) == m - e
  {
  }

  lemma {:induction false} LiveMap(ls: seq<SRPLease>, now: int)
    requires DistinctLeases(ls)
    ensures LeaseMap(Live(ls, now)) == LeaseMap(ls) - ExpiredKeys(ls, now) && DistinctLeases(Live(ls, now))
  {
    if ls != [] {
      TailLeases(ls);
      LiveMap(ls[1..], now);
      ExpiredKeysAreLeased(ls[1..], now);
      var k, m, e := LeaseKey(ls[0]), LeaseMap(ls[1..]), ExpiredKeys(ls[1..], now);
      if IsExpired(ls[0], now) {
        assert Live(ls, now) == Live(ls[1..], now);
        RemoveFresh(m, k, ls[0].rloc16, e);
      } else {
        ConsLease(ls[0], Live(ls[1..], now));
        assert Live(ls, now)[1..] == Live(ls[1..], now);
        assert ExpiredKeys(ls, now) == e;
        RemoveOthers(m, k, ls[0].rloc16, e);
      }
    }
  }

  lemma {:induction false} NotYetRefreshed(s: State, node: NodeId, change: SRPLease -> SRPLease, k: nat, i: nat)
    requires k <= i < |s.leases|
    ensures Refreshed(s, node, change, k).leases[i] == s.leases[i]
  {
    if k > 0 { NotYetRefreshed(s, node, change, k - 1, i); }
  }

  lemma {:induction false} ReplacedMap(ls: seq<SRPLease>, i: nat, l: SRPLease)
    requires DistinctLeases(ls) && i < |ls| && LeaseKey(l) == LeaseKey(ls[i])
    ensures LeaseMap(ls[i := l]) == LeaseMap(ls)[LeaseKey(l) := l.rloc16] && DistinctLeases(ls[i := l])
  {
    TailLeases(ls);
    if i == 0 {
      assert ls[0 := l] == [l] + ls[1..];
    } else {
      ReplacedMap(ls[1..], i - 1, l);
      assert ls[i := l][1..] == ls[1..][i - 1 := l];
      assert LeaseKey(ls[0]) != LeaseKey(ls[i]);
    }
  }

  /** The change keeps the key and the consistency of a lease. */
  ghost predicate Harmless(change: SRPLease -> SRPLease) {
    forall l | ConsistentLease(l) :: ConsistentLease(change(l)) && LeaseKey(change(l)) == LeaseKey(l)
  }

  /** Such a change, made lease by lease, keeps the agreement. */
  lemma {:induction false} RefreshKeepsAgree(s: State, node: NodeId, change: SRPLease -> SRPLease, k: nat)
    requires Agree(s) && k <= |s.leases| && Harmless(change)
    ensures Agree(Refreshed(s, node, change, k))
  {
    hide Agree, Harmless, RefreshAt;
    if k > 0 {
      RefreshKeepsAgree(s, node, change, k - 1);
      NotYetRefreshed(s, node, change, k - 1, k - 1);
      RefreshOne(Refreshed(s, node, change, k - 1), k - 1, node, change);
    }
  }

  lemma RefreshOne(s: State, i: nat, node: NodeId, change: SRPLease -> SRPLease)
    requires Agree(s) && i < |s.leases| && Harmless(change)
    ensures Agree(RefreshAt(s, i, change(s.leases[i])))
  {
    var l := change(s.leases[i]);
    assert ConsistentLease(s.leases[i]) && ConsistentLease(l);
    ReplacedMap(s.leases, i, l);
    UpsertedMap(s.records, l.service);
  }

  lemma {:induction false} SameKeysSameMap(a: seq<SRPLease>, b: seq<SRPLease>)
    requires |a| == |b| && DistinctLeases(a)
    requires forall i | 0 <= i < |a| :: LeaseKey(a[i]) == LeaseKey(b[i]) && a[i].rloc16 == b[i].rloc16
    ensures LeaseMap(a) == LeaseMap(b) && DistinctLeases(b)
  {
    if a != [] { SameKeysSameMap(a[1..], b[1..]); }
  }

  lemma RegisterKeepsAgree(s: State, node: NodeId, rloc: u16, hostname: string, service: ServiceRecord, now: int)
    requires Agree(s) && service.nodeId == node && service.rloc16 == rloc
    ensures Agree(Apply(s, Register(node, rloc, hostname, service, now)))
  {
    RegisteredMap(s.leases, node, rloc, hostname, service, now);
    UpsertedMap(s.records, service);
  }

  lemma RemoveKeepsAgree(s: State, node: NodeId)
    requires Agree(s)
    ensures Agree(Apply(s, RemoveNode(node)))
  {
    LeasesWithoutNodeMap(s.leases, node);
    WithoutNodeMap(s.records, node);
    KeptLeases(s.leases, node, 0);
    assert forall i | 0 <= i < |LeasesWithoutNode(s.leases, node)| :: LeasesWithoutNode(s.leases, node)[i] in s.leases;
  }

  lemma ForceKeepsAgree(s: State, node: NodeId)
    requires Agree(s)
    ensures Agree(Apply(s, ForceExpire(node)))
  {
    SameKeysSameMap(s.leases, Apply(s, ForceExpire(node)).leases);
  }

  lemma ApplyKeepsAgree(s: State, op: Op)
    requires Agree(s) && ProperOp(op)
    ensures Agree(Apply(s, op))
  {
    hide Agree;
    match op
    case Register(node, rloc, hostname, service, now) => RegisterKeepsAgree(s, node, rloc, hostname, service, now);
    case Renew(node, now) => RefreshKeepsAgree(s, node, l => Renewed(l, now), |s.leases|);
    case RemoveNode(node) => RemoveKeepsAgree(s, node);
    case Tick(now) => TickKeepsAgree(s, now);
    case ForceExpire(node) => ForceKeepsAgree(s, node);
    case UpdateRloc(node, rloc, now) => RefreshKeepsAgree(s, node, l => Moved(l, rloc, now), |s.leases|);
  }

  lemma TickKeepsAgree(s: State, now: int)
    requires Agree(s)
    ensures Agree(Apply(s, Tick(now)))
    ensures forall l | l in Live(s.leases, now) :: !IsExpired(l, now)
  {
    SweptMap(s.records, s.leases, now);
    LiveMap(s.leases, now);
    KeptLeases(s.leases, 0, now);
    forall i | 0 <= i < |Live(s.leases, now)|
      ensures ConsistentLease(Live(s.leases, now)[i])
    {
      assert Live(s.leases, now)[i] in s.leases;
    }
  }

  function Run(s: State, ops: seq<Op>): State
    decreases |ops|
  {
    if ops == [] then s else Run(Apply(s, ops[0]), ops[1..])
  }

  /** Every run of the server, from any agreeing state, keeps leases and records in agreement. */
  lemma {:induction false} EveryRunAgrees(s: State, ops: seq<Op>)
    requires Agree(s) && forall i | 0 <= i < |ops| :: ProperOp(ops[i])
    ensures Agree(Run(s, ops))
    decreases |ops|
  {
    if ops != [] {
      ApplyKeepsAgree(s, ops[0]);
      EveryRunAgrees(Apply(s, ops[0]), ops[1..]);
    }
  }

  /** After a tick no lease is expired, and a node is registered exactly when it has an active lease. */
  lemma AfterTickRegisteredIffActive(ops: seq<Op>, now: int, node: NodeId)
    requires forall i | 0 <= i < |ops| :: ProperOp(ops[i])
    ensures var s := Apply(Run(State([], []), ops), Tick(now));
      && (forall i | 0 <= i < |s.leases| :: !IsExpired(s.leases[i], now))
      && (HasRecord(s.records, node) <==> HasActiveLease(s.leases, node, now))
  {
    hide Agree, Run;
    var s0 := Run(State([], []), ops);
    NothingAgrees();
    EveryRunAgrees(State([], []), ops);
    TickKeepsAgree(s0, now);
    var s := Apply(s0, Tick(now));
    forall i | 0 <= i < |s.leases|
      ensures !IsExpired(s.leases[i], now)
    {
      assert s.leases[i] in Live(s0.leases, now);
    }
    RecordIffLease(s, node);
  }

  lemma NothingAgrees()
    ensures Agree(State([], []))
  {
  }

  lemma RecordIffLease(s: State, node: NodeId)
    requires Agree(s)
    ensures HasRecord(s.records, node) <==> HasLease(s.leases, node)
  {
    if i :| 0 <= i < |s.records| && s.records[i].nodeId == node {
      var j := CounterpartOfRecord(s, i);
      assert s.leases[j].nodeId == node;
    }
    if j :| 0 <= j < |s.leases| && s.leases[j].nodeId == node {
      var i := CounterpartOfLease(s, j);
      assert s.records[i].nodeId == node;
    }
  }

  /** A forced expiry takes effect at the next tick at or after the last renewal. */
  lemma ForcedLeaseExpires(l: SRPLease, now: int)
    requires now >= l.leaseStart && l.leaseDuration >= 0
    ensures IsExpired(Aged(l), now)
  {
  }

  // ---------------------------------------------------------------------
  // What each operation leaves, lease by lease.
  // ---------------------------------------------------------------------

  /** A lease is expired from one millisecond after its duration on, and expiring in the last tenth of it. */
  lemma LeaseExpiresIff(l: SRPLease, now: int)
    requires l.leaseDuration >= 0
    ensures IsExpired(l, now) <==> now - l.leaseStart >= (l.leaseDuration + 1) * NS_PER_MS
    ensures StateOf(l, now) == Active <==>
              now - l.leaseStart < (l.leaseDuration - l.leaseDuration / 10 + 1) * NS_PER_MS
  {
  }

  lemma {:induction false} RefreshedLeases(s: State, node: NodeId, change: SRPLease -> SRPLease, k: nat)
    requires k <= |s.leases|
    ensures forall i | 0 <= i < |s.leases| :: Refreshed(s, node, change, k).leases[i] ==
              if i < k && s.leases[i].nodeId == node then change(s.leases[i]) else s.leases[i]
  {
    if k > 0 { RefreshedLeases(s, node, change, k - 1); }
  }

  /** The map with every key of the node at `rloc`. */
  ghost function NodeAt(m: map<Key, u16>, node: NodeId, rloc: u16): map<Key, u16> {
    map k | k in m :: if k.node == node then rloc else m[k]
  }

  lemma NodeAtUpdate(m: map<Key, u16>, k: Key, x: u16, node: NodeId, rloc: u16)
    ensures NodeAt(m[k := x], node, rloc) == NodeAt(m, node, rloc)[k := if k.node == node then rloc else x]
  {
  }

  lemma {:induction false} LeaseMapMoved(a: seq<SRPLease>, b: seq<SRPLease>, node: NodeId, rloc: u16)
    requires |a| == |b|
    requires forall i | 0 <= i < |a| ::
               LeaseKey(b[i]) == LeaseKey(a[i]) && b[i].rloc16 == if a[i].nodeId == node then rloc else a[i].rloc16
    ensures LeaseMap(b) == NodeAt(LeaseMap(a), node, rloc)
  {
    if a == [] {
      assert NodeAt(map[], node, rloc) == map[];
    } else {
      LeaseMapMoved(a[1..], b[1..], node, rloc);
      NodeAtUpdate(LeaseMap(a[1..]), LeaseKey(a[0]), a[0].rloc16, node, rloc);
    }
  }

  /** A change of address moves every lease and every record of the node to it, and nobody else's; and it
      renews the node's leases. */
  lemma UpdateMovesNode(s: State, node: NodeId, rloc: u16, now: int)
    requires Agree(s)
    ensures var s', m := Apply(s, UpdateRloc(node, rloc, now)), LeaseMap(s.leases);
      && LeaseMap(s'.leases) == RecordMap(s'.records) == (map k | k in m :: if k.node == node then rloc else m[k])
      && |s'.leases| == |s.leases|
      && forall i | 0 <= i < |s.leases| ::
           var l, l' := s.leases[i], s'.leases[i];
           if l.nodeId != node then l' == l
           else l' == l.(rloc16 := rloc, leaseStart := now, service := l'.service)
                && l'.service == l.service.(rloc16 := rloc, registeredAt := now)
  {
    var s' := Apply(s, UpdateRloc(node, rloc, now));
    ApplyKeepsAgree(s, UpdateRloc(node, rloc, now));
    RefreshedLeases(s, node, l => Moved(l, rloc, now), |s.leases|);
    forall i | 0 <= i < |s.leases|
      ensures LeaseKey(s'.leases[i]) == LeaseKey(s.leases[i])
    {
      assert ConsistentLease(s.leases[i]);
    }
    LeaseMapMoved(s.leases, s'.leases, node, rloc);
  }

  /** A renewal starts every lease of the node anew, moves nothing, and leaves the others as they were. */
  lemma RenewRestartsNode(s: State, node: NodeId, now: int)
    requires Agree(s)
    ensures var s' := Apply(s, Renew(node, now));
      && LeaseMap(s'.leases) == RecordMap(s'.records) == LeaseMap(s.leases)
      && |s'.leases| == |s.leases|
      && forall i | 0 <= i < |s.leases| ::
           var l, l' := s.leases[i], s'.leases[i];
           if l.nodeId != node then l' == l
           else l' == l.(leaseStart := now, renewalCount := l.renewalCount + 1, service := l'.service)
                && l'.service == l.service.(registeredAt := now)
  {
    ApplyKeepsAgree(s, Renew(node, now));
    RefreshedLeases(s, node, l => Renewed(l, now), |s.leases|);
    SameKeysSameMap(s.leases, Apply(s, Renew(node, now)).leases);
  }

  lemma {:induction false} LiveExactly(ls: seq<SRPLease>, now: int, l: SRPLease)
    ensures l in Live(ls, now) <==> l in ls && !IsExpired(l, now)
  {
    if ls != [] { LiveExactly(ls[1..], now, l); }
  }

  lemma {:induction false} OthersExactly(ls: seq<SRPLease>, node: NodeId, l: SRPLease)
    ensures l in LeasesWithoutNode(ls, node) <==> l in ls && l.nodeId != node
  {
    if ls != [] { OthersExactly(ls[1..], node, l); }
  }

  // ---------------------------------------------------------------------
  // How long a lease lasts.
  // ---------------------------------------------------------------------

  /** There is a lease of key `k` that runs since `start`. */
  ghost predicate Holding(ls: seq<SRPLease>, k: Key, start: int, duration: int) {
    exists i :: 0 <= i < |ls| && LeaseKey(ls[i]) == k && ls[i].leaseStart == start && ls[i].leaseDuration == duration
  }

  lemma HoldingMapped(ls: seq<SRPLease>, k: Key, start: int, duration: int)
    requires Holding(ls, k, start, duration)
    ensures k in LeaseMap(ls)
  {
    LeaseMapKeys(ls);
  }

  /** Since when the lease of key `k` runs after an operation. */
  function StartAfter(op: Op, k: Key, start: int): int {
    match op
    case Register(node, _, _, service, now) => if Key(node, service.serviceName) == k then now else start
    case Renew(node, now) => if node == k.node then now else start
    case UpdateRloc(node, _, now) => if node == k.node then now else start
    case _ => start
  }

  /** The operation does not end a lease of key `k` that runs since `start`. */
  predicate Spares(op: Op, k: Key, start: int, duration: int) {
    match op
    case RemoveNode(node) => node != k.node
    case ForceExpire(node) => node != k.node
    case Tick(now) => now - start < (duration + 1) * NS_PER_MS
    case _ => true
  }

  lemma {:induction false} RegisterHolds(ls: seq<SRPLease>, node: NodeId, rloc: u16, hostname: string,
                                         service: ServiceRecord, now: int, k: Key, start: int, duration: int)
    requires DistinctLeases(ls) && Holding(ls, k, start, duration)
    ensures Holding(RegisteredLeases(ls, node, rloc, hostname, service, now), k,
                    if Key(node, service.serviceName) == k then now else start, duration)
  {
    var ls' := RegisteredLeases(ls, node, rloc, hostname, service, now);
    var i :| 0 <= i < |ls| && LeaseKey(ls[i]) == k && ls[i].leaseStart == start && ls[i].leaseDuration == duration;
    if i == 0 {
      assert LeaseKey(ls'[0]) == k;
    } else if LeaseKey(ls[0]) == Key(node, service.serviceName) {
      assert LeaseKey(ls[0]) != LeaseKey(ls[i]) && ls'[i] == ls[i];
    } else {
      assert ls[1..][i - 1] == ls[i];
      RegisterHolds(ls[1..], node, rloc, hostname, service, now, k, start, duration);
      var j :| 0 <= j < |ls'[1..]| && LeaseKey(ls'[1..][j]) == k
        && ls'[1..][j].leaseStart == (if Key(node, service.serviceName) == k then now else start)
        && ls'[1..][j].leaseDuration == duration;
      assert ls'[j + 1] == ls'[1..][j];
    }
  }

  lemma StepHolds(s: State, op: Op, k: Key, start: int, duration: int)
    requires Agree(s) && ProperOp(op) && duration >= 0
    requires Holding(s.leases, k, start, duration) && Spares(op, k, start, duration)
    ensures Holding(Apply(s, op).leases, k, StartAfter(op, k, start), duration)
  {
    hide Agree, Live, RegisteredLeases, LeasesWithoutNode, Refreshed, IsExpired;
    var s' := Apply(s, op);
    var i :| 0 <= i < |s.leases| && LeaseKey(s.leases[i]) == k
      && s.leases[i].leaseStart == start && s.leases[i].leaseDuration == duration;
    match op
    case Register(node, rloc, hostname, service, now) =>
      AgreeDistinct(s);
      RegisterHolds(s.leases, node, rloc, hostname, service, now, k, start, duration);
    case Renew(node, now) =>
      RefreshedLeases(s, node, l => Renewed(l, now), |s.leases|);
      assert LeaseKey(s'.leases[i]) == k;
    case UpdateRloc(node, rloc, now) =>
      RefreshedLeases(s, node, l => Moved(l, rloc, now), |s.leases|);
      assert LeaseKey(s'.leases[i]) == k;
    case RemoveNode(node) =>
      OthersExactly(s.leases, node, s.leases[i]);
      assert s.leases[i] in s'.leases;
    case ForceExpire(node) => assert LeaseKey(s'.leases[i]) == k;
    case Tick(now) =>
      LeaseExpiresIff(s.leases[i], now);
      LiveExactly(s.leases, now, s.leases[i]);
  }

  lemma AgreeDistinct(s: State)
    requires Agree(s)
    ensures DistinctLeases(s.leases) && LeaseMap(s.leases) == RecordMap(s.records)
  {
  }

  /** Each operation of the run spares the lease, which earlier ones may have restarted. */
  predicate SparesAll(ops: seq<Op>, k: Key, start: int, duration: int)
    decreases |ops|
  {
    ops == [] ||
    (Spares(ops[0], k, start, duration) && SparesAll(ops[1..], k, StartAfter(ops[0], k, start), duration))
  }

  /** A service stays registered as long as its node is not removed or forced out and each tick comes before
      its lease, counted from its last registration, renewal or change of address, has run out. */
  lemma {:induction false} RenewedInTimeStays(s: State, ops: seq<Op>, k: Key, start: int, duration: int)
    requires Agree(s) && duration >= 0 && Holding(s.leases, k, start, duration)
    requires (forall i | 0 <= i < |ops| :: ProperOp(ops[i])) && SparesAll(ops, k, start, duration)
    ensures k in LeaseMap(Run(s, ops).leases) && k in RecordMap(Run(s, ops).records)
    decreases |ops|
  {
    hide LeaseMap, RecordMap, Apply;
    if ops == [] {
      HoldingMapped(s.leases, k, start, duration);
    } else {
      StepHolds(s, ops[0], k, start, duration);
      ApplyKeepsAgree(s, ops[0]);
      RenewedInTimeStays(Apply(s, ops[0]), ops[1..], k, StartAfter(ops[0], k, start), duration);
    }
  }

  /** And only so long: a tick removes it, with its record, exactly if the lease has run out by then. */
  lemma TickRemovesIff(s: State, k: Key, start: int, duration: int, now: int)
    requires Agree(s) && duration >= 0 && Holding(s.leases, k, start, duration)
    ensures var s' := Apply(s, Tick(now));
      && (k in LeaseMap(s'.leases) <==> now - start < (duration + 1) * NS_PER_MS)
      && (k in RecordMap(s'.records) <==> now - start < (duration + 1) * NS_PER_MS)
  {
    hide Agree, LeaseMap, RecordMap, Live, IsExpired;
    var s' := Apply(s, Tick(now));
    TickKeepsAgree(s, now);
    AgreeDistinct(s);
    AgreeDistinct(s');
    LiveHoldsIff(s.leases, k, start, duration, now);
  }

  lemma LiveHoldsIff(ls: seq<SRPLease>, k: Key, start: int, duration: int, now: int)
    requires DistinctLeases(ls) && duration >= 0 && Holding(ls, k, start, duration)
    ensures k in LeaseMap(Live(ls, now)) <==> now - start < (duration + 1) * NS_PER_MS
  {
    hide LeaseMap, Live, IsExpired;
    var live := Live(ls, now);
    LeaseMapKeys(live);
    var i :| 0 <= i < |ls| && LeaseKey(ls[i]) == k && ls[i].leaseStart == start && ls[i].leaseDuration == duration;
    LeaseExpiresIff(ls[i], now);
    LiveExactly(ls, now, ls[i]);
    if j :| 0 <= j < |live| && LeaseKey(live[j]) == k {
      LiveExactly(ls, now, live[j]);
      assert live[j] in live;
      var m :| 0 <= m < |ls| && ls[m] == live[j];
      assert m == i;
    }
  }

  // ---------------------------------------------------------------------
  // The server as the program keeps it.
  // ---------------------------------------------------------------------

  lemma {:induction false} RegisteredAt(ls: seq<SRPLease>, node: NodeId, rloc: u16, hostname: string,
                                        service: ServiceRecord, now: int, i: nat)
    requires i < |ls| && LeaseKey(ls[i]) == Key(node, service.serviceName)
    requires forall j | 0 <= j < i :: LeaseKey(ls[j]) != Key(node, service.serviceName)
    ensures RegisteredLeases(ls, node, rloc, hostname, service, now) ==
            ls[i := Reregistered(ls[i], rloc, hostname, service, now)]
  {
    if i > 0 {
      RegisteredAt(ls[1..], node, rloc, hostname, service, now, i - 1);
      assert ls[i := Reregistered(ls[i], rloc, hostname, service, now)] ==
        [ls[0]] + ls[1..][i - 1 := Reregistered(ls[i], rloc, hostname, service, now)];
    }
  }

  lemma {:induction false} RegisteredMissing(ls: seq<SRPLease>, node: NodeId, rloc: u16, hostname: string,
                                             service: ServiceRecord, now: int)
    requires forall j | 0 <= j < |ls| :: LeaseKey(ls[j]) != Key(node, service.serviceName)
    ensures RegisteredLeases(ls, node, rloc, hostname, service, now) ==
            ls + [NewLease(node, rloc, hostname, service, now)]
  {
    if ls != [] { RegisteredMissing(ls[1..], node, rloc, hostname, service, now); }
  }

  /** The first lease of that node and service name stands at `i`. */
  predicate FirstLease(ls: seq<SRPLease>, node: NodeId, name: string, i: int) {
    && 0 <= i < |ls| && ls[i].nodeId == node && ls[i].service.serviceName == name
    && forall j | 0 <= j < i :: !(ls[j].nodeId == node && ls[j].service.serviceName == name)
  }

  class SRPServer {
    const registry: ServiceRegistry
    var leases: seq<SRPLease>

    ghost function Model(): State
      reads this, registry
    {
      State(leases, registry.records)
    }

    constructor (registry: ServiceRegistry)
      ensures this.registry == registry && leases == []
    {
      this.registry := registry;
      leases := [];
    }

    method RegisterLease(node: NodeId, rloc: u16, hostname: string, service: ServiceRecord, now: int)
      modifies this, registry
      ensures Model() == Apply(old(Model()), Register(node, rloc, hostname, service, now))
      ensures service in registry.records
      ensures forall i | FirstLease(old(leases), node, service.serviceName, i) ::
                var l := old(leases)[i];
                leases == old(leases)[i := SRPLease(hostname, l.nodeId, rloc, service.(registeredAt := now), now,
                                                    l.leaseDuration, l.keyLease, l.renewalCount + 1)]
      ensures (forall i :: !FirstLease(old(leases), node, service.serviceName, i)) ==>
                leases == old(leases) + [SRPLease(hostname, node, rloc, service.(registeredAt := now), now,
                                                  7_200_000, 1_209_600_000, 0)]
    {
      UpsertedHas(registry.records, service);
      for i := 0 to |leases|
        invariant Model() == old(Model())
        invariant forall j | 0 <= j < i :: LeaseKey(leases[j]) != Key(node, service.serviceName)
      {
        if leases[i].nodeId == node && leases[i].service.serviceName == service.serviceName {
          assert FirstLease(leases, node, service.serviceName, i);
          RegisteredAt(leases, node, rloc, hostname, service, now, i);
          leases := leases[i := Reregistered(leases[i], rloc, hostname, service, now)];
          registry.RegisterService(service);
          return;
        }
      }
      RegisteredMissing(leases, node, rloc, hostname, service, now);
      leases := leases + [NewLease(node, rloc, hostname, service, now)];
      registry.RegisterService(service);
    }

    method RenewLease(node: NodeId, now: int) returns (renewed: bool)
      modifies this, registry
      ensures Model() == Apply(old(Model()), Renew(node, now))
      ensures renewed <==> HasLease(old(leases), node)
      ensures |leases| == |old(leases)|
      ensures forall i | 0 <= i < |leases| ::
                var l := old(leases)[i];
                leases[i] == if l.nodeId != node then l
                             else l.(leaseStart := now, renewalCount := l.renewalCount + 1,
                                     service := l.service.(registeredAt := now))
    {
      renewed := false;
      ghost var s := Model();
      ghost var change := l => Renewed(l, now);
      for i := 0 to |leases|
        invariant |leases| == |s.leases| && Model() == Refreshed(s, node, change, i)
        invariant renewed <==> exists j :: 0 <= j < i && s.leases[j].nodeId == node
      {
        NotYetRefreshed(s, node, change, i, i);
        if leases[i].nodeId == node {
          leases := leases[i := Renewed(leases[i], now)];
          registry.RegisterService(leases[i].service);
          renewed := true;
        }
      }
      RefreshedLeases(s, node, change, |s.leases|);
    }

    method RemoveLeasesForNode(node: NodeId)
      modifies this, registry
      ensures Model() == Apply(old(Model()), RemoveNode(node))
      ensures forall l :: l in leases <==> l in old(leases) && l.nodeId != node
    {
      forall l { OthersExactly(leases, node, l); }
      var kept := KeepOthers(leases, node);
      KeptAllIff(leases, node);
      if |kept| != |leases| {
        leases := kept;
        registry.UnregisterNode(node);
      }
    }

    method TickAt(now: int)
      modifies this, registry
      ensures Model() == Apply(old(Model()), Tick(now))
      ensures forall l :: l in leases <==> l in old(leases) && ToMs(now - l.leaseStart) <= l.leaseDuration
    {
      forall l { LiveExactly(leases, now, l); }
      var expired := CollectExpired(leases, now);
      SweepFrom(expired, now);
    }

    /** Removes the expired leases from the last to the first, so that earlier positions stay valid. */
    method SweepFrom(expired: seq<nat>, now: int)
      requires ExpiredBelow(leases, expired, |expired|, |leases|, now)
      modifies this, registry
      ensures Model() == Apply(old(Model()), Tick(now))
    {
      hide Live, Swept, IsExpired, SweptDownTo, ExpiredBelow;
      ghost var s := Model();
      var a := |expired|;
      ghost var cut: nat := |leases|;
      SweepStarts(s, now);
      while a > 0
        invariant 0 <= a <= |expired| && cut <= |s.leases| && ExpiredBelow(s.leases, expired, a, cut, now)
        invariant SweptDownTo(s, Model(), cut, now)
      {
        a := a - 1;
        var i := expired[a];
        NextExpired(s.leases, expired, a, cut, now);
        SweepOne(s, Model(), i, cut, now);
        var lease := leases[i];
        registry.UnregisterService(lease.service.serviceName, lease.nodeId);
        leases := leases[..i] + leases[i + 1..];
        cut := i;
      }
      NoneExpired(s.leases, expired, cut, now);
      SweepEnds(s, Model(), cut, now);
    }

    method ForceExpireLease(node: NodeId)
      modifies this
      ensures Model() == Apply(old(Model()), ForceExpire(node))
      ensures |leases| == |old(leases)|
      ensures forall i | 0 <= i < |leases| ::
                var l := old(leases)[i];
                leases[i] == if l.nodeId != node then l
                             else l.(leaseStart := l.leaseStart - (l.leaseDuration + 1) * NS_PER_MS)
    {
      for i := 0 to |leases|
        invariant |leases| == |old(leases)|
        invariant forall j | 0 <= j < |leases| ::
          leases[j] == if j < i && old(leases)[j].nodeId == node then Aged(old(leases)[j]) else old(leases)[j]
      {
        if leases[i].nodeId == node {
          leases := leases[i := Aged(leases[i])];
        }
      }
    }

    method UpdateNodeRLOC(node: NodeId, rloc: u16, now: int)
      modifies this, registry
      ensures Model() == Apply(old(Model()), UpdateRloc(node, rloc, now))
      ensures |leases| == |old(leases)|
      ensures forall i | 0 <= i < |leases| ::
                var l := old(leases)[i];
                leases[i] == if l.nodeId != node then l
                             else l.(rloc16 := rloc, leaseStart := now,
                                     service := l.service.(rloc16 := rloc, registeredAt := now))
      ensures Agree(old(Model())) ==>
                var m := RecordMap(old(registry.records));
                RecordMap(registry.records) == map k | k in m :: if k.node == node then rloc else m[k]
    {
      ghost var s := Model();
      ghost var change := l => Moved(l, rloc, now);
      for i := 0 to |leases|
        invariant |leases| == |s.leases| && Model() == Refreshed(s, node, change, i)
      {
        NotYetRefreshed(s, node, change, i, i);
        if leases[i].nodeId == node {
          leases := leases[i := Moved(leases[i], rloc, now)];
          registry.RegisterService(leases[i].service);
        }
      }
      RefreshedLeases(s, node, change, |s.leases|);
      if Agree(s) { UpdateMovesNode(s, node, rloc, now); }
    }

    method HasActive(node: NodeId, now: int) returns (active: bool)
      ensures active <==> HasActiveLease(leases, node, now)
      ensures active <==> exists i :: 0 <= i < |leases| && leases[i].nodeId == node
                                      && ToMs(now - leases[i].leaseStart) <= leases[i].leaseDuration
    {
      for i := 0 to |leases|
        invariant forall j | 0 <= j < i :: !(leases[j].nodeId == node && !IsExpired(leases[j], now))
      {
        if leases[i].nodeId == node && !IsExpired(leases[i], now) { return true; }
      }
      return false;
    }
  }

  lemma OthersNone(node: NodeId)
    ensures LeasesWithoutNode([], node) == []
  {
  }

  lemma OthersNext(ls: seq<SRPLease>, i: nat, node: NodeId)
    requires i < |ls|
    ensures LeasesWithoutNode(ls[i..], node) ==
            (if ls[i].nodeId == node then [] else [ls[i]]) + LeasesWithoutNode(ls[i + 1..], node)
  {
    assert ls[i..][1..] == ls[i + 1..];
  }

  method KeepOthers(leases: seq<SRPLease>, node: NodeId) returns (kept: seq<SRPLease>)
    ensures kept == LeasesWithoutNode(leases, node)
  {
    hide LeasesWithoutNode;
    OthersNone(node);
    kept := [];
    for i := 0 to |leases|
      invariant LeasesWithoutNode(leases, node) == kept + LeasesWithoutNode(leases[i..], node)
    {
      OthersNext(leases, i, node);
      if leases[i].nodeId != node {
        kept := kept + [leases[i]];
      }
    }
    assert leases[|leases|..] == [];
  }

  /** Between two positions with no expired lease there is nothing to sweep. */
  lemma {:induction false} SweepSkips(rs: seq<ServiceRecord>, ls: seq<SRPLease>, i: nat, j: nat, now: int)
    requires i <= j <= |ls| && forall k | i <= k < j :: !IsExpired(ls[k], now)
    ensures Live(ls[i..], now) == ls[i..j] + Live(ls[j..], now)
    ensures Swept(rs, ls[i..], now) == Swept(rs, ls[j..], now)
    decreases j - i
  {
    if i < j {
      SweepSkips(rs, ls, i + 1, j, now);
      assert ls[i..][1..] == ls[i + 1..] && ls[i..j] == [ls[i]] + ls[i + 1..j];
    }
  }

  /** The first `k` positions are those of the expired leases before `cut`, in ascending order. */
  predicate ExpiredBelow(ls: seq<SRPLease>, positions: seq<nat>, k: nat, cut: nat, now: int) {
    && k <= |positions| && cut <= |ls|
    && (forall a | 0 <= a < k :: positions[a] < cut && IsExpired(ls[positions[a]], now))
    && (forall a, b | 0 <= a < b < k :: positions[a] < positions[b])
    && forall j | 0 <= j < cut && IsExpired(ls[j], now) :: Listed(positions, k, j)
  }

  predicate Listed(positions: seq<nat>, k: nat, j: nat)
    requires k <= |positions|
  {
    exists a :: 0 <= a < k && positions[a] == j
  }

  lemma ListedLonger(positions: seq<nat>, i: nat, j: nat)
    requires j == i || Listed(positions, |positions|, j)
    ensures Listed(positions + [i], |positions| + 1, j)
  {
    var more := positions + [i];
    if j == i {
      assert more[|positions|] == j;
    } else {
      var a :| 0 <= a < |positions| && positions[a] == j;
      assert more[a] == j;
    }
  }

  /** The last of them: nothing between it and `cut` is expired. */
  lemma NextExpired(ls: seq<SRPLease>, positions: seq<nat>, a: nat, cut: nat, now: int)
    requires ExpiredBelow(ls, positions, a + 1, cut, now)
    ensures var i := positions[a];
      && i < cut && IsExpired(ls[i], now) && (forall j | i + 1 <= j < cut :: !IsExpired(ls[j], now))
      && ExpiredBelow(ls, positions, a, i, now)
  {
    hide IsExpired;
  }

  lemma NoneExpired(ls: seq<SRPLease>, positions: seq<nat>, cut: nat, now: int)
    requires ExpiredBelow(ls, positions, 0, cut, now)
    ensures forall j | 0 <= j < cut :: !IsExpired(ls[j], now)
  {
  }

  lemma ExpiredGoesOn(ls: seq<SRPLease>, positions: seq<nat>, i: nat, now: int)
    requires ExpiredBelow(ls, positions, |positions|, i, now) && i < |ls|
    ensures var more := if IsExpired(ls[i], now) then positions + [i] else positions;
      ExpiredBelow(ls, more, |more|, i + 1, now)
  {
    hide IsExpired, Listed;
    if IsExpired(ls[i], now) {
      var more := positions + [i];
      forall j | 0 <= j < i + 1 && IsExpired(ls[j], now)
        ensures Listed(more, |more|, j)
      {
        ListedLonger(positions, i, j);
      }
    }
  }

  lemma NoneCollected(ls: seq<SRPLease>, now: int)
    ensures ExpiredBelow(ls, [], 0, 0, now)
  {
  }

  method CollectExpired(leases: seq<SRPLease>, now: int) returns (expired: seq<nat>)
    ensures ExpiredBelow(leases, expired, |expired|, |leases|, now)
  {
    hide IsExpired, ExpiredBelow;
    expired := [];
    NoneCollected(leases, now);
    for i := 0 to |leases|
      invariant ExpiredBelow(leases, expired, |expired|, i, now)
    {
      ExpiredGoesOn(leases, expired, i, now);
      if IsExpired(leases[i], now) {
        expired := expired + [i];
      }
    }
  }

  /** The server's state in mid-sweep: everything from `cut` on is done, nothing before it. */
  predicate SweptDownTo(s: State, t: State, cut: nat, now: int) {
    && cut <= |s.leases|
    && t.leases == s.leases[..cut] + Live(s.leases[cut..], now)
    && t.records == Swept(s.records, s.leases[cut..], now)
  }

  /** Removing the last expired lease before `cut`, at `i`. */
  lemma SweepOne(s: State, t: State, i: nat, cut: nat, now: int)
    requires SweptDownTo(s, t, cut, now) && i < cut && IsExpired(s.leases[i], now)
    requires forall j | i + 1 <= j < cut :: !IsExpired(s.leases[j], now)
    ensures i < |t.leases| && t.leases[i] == s.leases[i]
    ensures SweptDownTo(s, State(t.leases[..i] + t.leases[i + 1..], Without(t.records, LeaseKey(s.leases[i]))), i, now)
  {
    hide IsExpired, Live, Swept;
    SweepSkips(s.records, s.leases, i + 1, cut, now);
    SweepExpired(s.records, s.leases, i, now);
    RemoveBefore(s.leases, i, cut, Live(s.leases[cut..], now));
  }

  lemma RemoveBefore(ls: seq<SRPLease>, i: nat, cut: nat, tail: seq<SRPLease>)
    requires i < cut <= |ls|
    ensures var t := ls[..cut] + tail;
      t[i] == ls[i] && t[..i] + t[i + 1..] == ls[..i] + (ls[i + 1..cut] + tail)
  {
  }

  lemma SweepStarts(s: State, now: int)
    ensures SweptDownTo(s, s, |s.leases|, now)
  {
  }

  lemma SweepExpired(rs: seq<ServiceRecord>, ls: seq<SRPLease>, i: nat, now: int)
    requires i < |ls| && IsExpired(ls[i], now)
    ensures Live(ls[i..], now) == Live(ls[i + 1..], now)
    ensures Swept(rs, ls[i..], now) == Without(Swept(rs, ls[i + 1..], now), LeaseKey(ls[i]))
  {
    assert ls[i..][1..] == ls[i + 1..];
  }

  lemma SweepEnds(s: State, t: State, cut: nat, now: int)
    requires SweptDownTo(s, t, cut, now) && forall j | 0 <= j < cut :: !IsExpired(s.leases[j], now)
    ensures t == Apply(s, Tick(now))
  {
    SweepSkips(s.records, s.leases, 0, cut, now);
    assert s.leases[0..] == s.leases && s.leases[0..cut] == s.leases[..cut];
  }

  /** The record that a client of node `node` at address `rloc` registers. */
  function ClientRecord(node: NodeId, rloc: u16, name: string, serviceType: string, port: u16,
                        now: int): ServiceRecord
  {
    ServiceRecord(name, serviceType, node, rloc, port, now, 120_000, 0, 0, 0, "", false)
  }

  /** A client registers a record of its own node at its own address. */
  class SRPClient {
    const nodeId: NodeId
    const hostname: string
    const renewalInterval: int
    var currentRloc: u16
    var rlocChanged: bool
    var registered: bool
    var lastRegistration: int

    constructor (nodeId: NodeId, hostname: string, renewalInterval: int)
      ensures this.nodeId == nodeId && this.hostname == hostname && this.renewalInterval == renewalInterval
      ensures !registered && !rlocChanged && currentRloc == INVALID_RLOC16 && lastRegistration == 0
    {
      this.nodeId, this.hostname, this.renewalInterval := nodeId, hostname, renewalInterval;
      currentRloc, rlocChanged, registered, lastRegistration := INVALID_RLOC16, false, false, 0;
    }

    /** A renewal is needed once the address has changed or the interval has passed. */
    predicate NeedsRenewal(now: int)
      reads this
    {
      registered && (rlocChanged || ToMs(now - lastRegistration) > renewalInterval)
    }

    method OnRLOCChanged(rloc: u16)
      modifies this
      ensures currentRloc == rloc && rlocChanged && registered == old(registered)
      ensures lastRegistration == old(lastRegistration) && forall now :: NeedsRenewal(now) <==> registered
    {
      currentRloc, rlocChanged := rloc, true;
    }

    method RegisterWithServer(server: SRPServer, rloc: u16, name: string, serviceType: string, port: u16, now: int)
      requires Agree(server.Model())
      modifies this, server, server.registry
      ensures Agree(server.Model())
      ensures server.Model() == Apply(old(server.Model()),
                Register(nodeId, rloc, hostname, ClientRecord(nodeId, rloc, name, serviceType, port, now), now))
      ensures RecordMap(server.registry.records) == old(RecordMap(server.registry.records))[Key(nodeId, name) := rloc]
      ensures exists r :: r in server.registry.records && r.nodeId == nodeId && r.rloc16 == rloc
                && r.serviceName == name && r.serviceType == serviceType && r.port == port && r.registeredAt == now
      ensures registered && !rlocChanged && currentRloc == rloc && lastRegistration == now
      ensures forall t :: NeedsRenewal(t) <==> ToMs(t - now) > renewalInterval
    {
      var r := ClientRecord(nodeId, rloc, name, serviceType, port, now);
      ghost var op := Register(nodeId, rloc, hostname, r, now);
      ApplyKeepsAgree(server.Model(), op);
      UpsertedMap(server.registry.records, r);
      server.RegisterLease(nodeId, rloc, hostname, r, now);
      currentRloc, registered, lastRegistration, rlocChanged := rloc, true, now, false;
    }

    /** Renews the client's leases, if it has registered and the server still holds one. */
    method RenewWithServer(server: SRPServer, now: int) returns (ok: bool)
      requires Agree(server.Model())
      modifies this, server, server.registry
      ensures Agree(server.Model())
      ensures ok <==> old(registered) && HasLease(old(server.leases), nodeId)
      ensures server.Model() == if old(registered) then Apply(old(server.Model()), Renew(nodeId, now))
                               else old(server.Model())
      ensures lastRegistration == if ok then now else old(lastRegistration)
      ensures registered == old(registered) && rlocChanged == old(rlocChanged) && currentRloc == old(currentRloc)
    {
      if !registered { return false; }
      ApplyKeepsAgree(server.Model(), Renew(nodeId, now));
      ok := server.RenewLease(nodeId, now);
      if ok { lastRegistration := now; }
    }
  }
}
