/** The service registry of the border router (src/net/Discovery.cpp). */
module Discovery {
  import opened Types

  type NodeId = u16
  datatype Key = Key(node: NodeId, name: string)

  datatype ServiceRecord = ServiceRecord(
    serviceName: string, serviceType: string, nodeId: NodeId, rloc16: u16, port: u16,
    registeredAt: int, ttl: int, vendorId: u16, productId: u16, deviceType: u8,
    discriminator: string, commissioningOpen: bool)

  function KeyOf(r: ServiceRecord): Key {
    Key(r.nodeId, r.serviceName)
  }

  predicate DistinctRecords(rs: seq<ServiceRecord>) {
    forall i, j | 0 <= i < j < |rs| :: KeyOf(rs[i]) != KeyOf(rs[j])
  }

  /** The RLOC registered for each node and service name. */
  function RecordMap(rs: seq<ServiceRecord>): map<Key, u16> {
    if rs == [] then map[] else RecordMap(rs[1..])[KeyOf(rs[0]) := rs[0].rloc16]
  }

  /** The first record of the same key is overwritten; a new key is appended. */
  function Upserted(rs: seq<ServiceRecord>, r: ServiceRecord): seq<ServiceRecord> {
    if rs == [] then [r]
    else if KeyOf(rs[0]) == KeyOf(r) then [r] + rs[1..]
    else [rs[0]] + Upserted(rs[1..], r)
  }

  function Without(rs: seq<ServiceRecord>, k: Key): seq<ServiceRecord> {
    if rs == [] then [] else (if KeyOf(rs[0]) == k then [] else [rs[0]]) + Without(rs[1..], k)
  }

  function WithoutNode(rs: seq<ServiceRecord>, node: NodeId): seq<ServiceRecord> {
    if rs == [] then [] else (if rs[0].nodeId == node then [] else [rs[0]]) + WithoutNode(rs[1..], node)
  }

  predicate HasRecord(rs: seq<ServiceRecord>, node: NodeId) {
    exists i :: 0 <= i < |rs| && rs[i].nodeId == node
  }

  function DropNode(m: map<Key, u16>, node: NodeId): map<Key, u16> {
    map k | k in m && k.node != node :: m[k]
  }

  lemma {:induction false} RecordMapKeys(rs: seq<ServiceRecord>)
    ensures forall k :: k in RecordMap(rs) <==> exists i :: 0 <= i < |rs| && KeyOf(rs[i]) == k
  {
    if rs != [] {
      RecordMapKeys(rs[1..]);
      forall k
        ensures k in RecordMap(rs) <==> exists i :: 0 <= i < |rs| && KeyOf(rs[i]) == k
      {
        if k in RecordMap(rs[1..]) {
          var i :| 0 <= i < |rs[1..]| && KeyOf(rs[1..][i]) == k;
          assert KeyOf(rs[i + 1]) == k;
        }
        if i :| 0 <= i < |rs| && KeyOf(rs[i]) == k {
          if i > 0 { assert KeyOf(rs[1..][i - 1]) == k; }
        }
      }
    }
  }

  lemma ConsDistinct(r: ServiceRecord, rs: seq<ServiceRecord>)
    requires DistinctRecords(rs) && KeyOf(r) !in RecordMap(rs)
    ensures DistinctRecords([r] + rs)
  {
    RecordMapKeys(rs);
  }

  lemma TailDistinct(rs: seq<ServiceRecord>)
    requires DistinctRecords(rs) && rs != []
    ensures DistinctRecords(rs[1..]) && KeyOf(rs[0]) !in RecordMap(rs[1..])
  {
    RecordMapKeys(rs[1..]);
  }

  lemma {:induction false} RecordMapAt(rs: seq<ServiceRecord>, i: nat)
    requires DistinctRecords(rs) && i < |rs|
    ensures KeyOf(rs[i]) in RecordMap(rs) && RecordMap(rs)[KeyOf(rs[i])] == rs[i].rloc16
  {
    RecordMapKeys(rs);
    if i > 0 {
      TailDistinct(rs);
      RecordMapAt(rs[1..], i - 1);
      assert KeyOf(rs[0]) != KeyOf(rs[i]);
    }
  }

  lemma {:induction false} UpsertedMap(rs: seq<ServiceRecord>, r: ServiceRecord)
    requires DistinctRecords(rs)
    ensures RecordMap(Upserted(rs, r)) == RecordMap(rs)[KeyOf(r) := r.rloc16] && DistinctRecords(Upserted(rs, r))
  {
    if rs != [] {
      TailDistinct(rs);
      if KeyOf(rs[0]) == KeyOf(r) {
        ConsDistinct(r, rs[1..]);
      } else {
        UpsertedMap(rs[1..], r);
        ConsDistinct(rs[0], Upserted(rs[1..], r));
      }
    }
  }

  lemma RemoveAdded(m: map<Key, u16>, k: Key, x: u16)
    requires k !in m
    ensures m[k := x] - {k} == m - {k}
  {
  }

  lemma RemoveOthers(m: map<Key, u16>, k: Key, x: u16, e: set<Key>)
    requires k !in e
    ensures m[k := x] - e == (m - e)[k := x]
  {
  }

  lemma {:induction false} WithoutMap(rs: seq<ServiceRecord>, k: Key)
    requires DistinctRecords(rs)
    ensures RecordMap(Without(rs, k)) == RecordMap(rs) - {k} && DistinctRecords(Without(rs, k))
  {
    if rs != [] {
      TailDistinct(rs);
      WithoutMap(rs[1..], k);
      var m, rest := RecordMap(rs[1..]), Without(rs[1..], k);
      if KeyOf(rs[0]) == k {
        assert Without(rs, k) == rest;
        RemoveAdded(m, k, rs[0].rloc16);
      } else {
        ConsDistinct(rs[0], rest);
        assert Without(rs, k)[1..] == rest;
        RemoveOthers(m, KeyOf(rs[0]), rs[0].rloc16, {k});
      }
    }
  }

  lemma DropNodeUpdate(m: map<Key, u16>, k: Key, x: u16, node: NodeId)
    ensures DropNode(m[k := x], node) ==
            if k.node == node then DropNode(m, node) else DropNode(m, node)[k := x]
  {
  }

  lemma {:induction false} WithoutNodeMap(rs: seq<ServiceRecord>, node: NodeId)
    requires DistinctRecords(rs)
    ensures RecordMap(WithoutNode(rs, node)) == DropNode(RecordMap(rs), node) && DistinctRecords(WithoutNode(rs, node))
  {
    if rs != [] {
      TailDistinct(rs);
      WithoutNodeMap(rs[1..], node);
      DropNodeUpdate(RecordMap(rs[1..]), KeyOf(rs[0]), rs[0].rloc16, node);
      if rs[0].nodeId == node {
        assert WithoutNode(rs, node) == WithoutNode(rs[1..], node);
      } else {
        ConsDistinct(rs[0], WithoutNode(rs[1..], node));
        assert WithoutNode(rs, node)[1..] == WithoutNode(rs[1..], node);
      }
    }
  }

  lemma {:induction false} UpsertedAt(rs: seq<ServiceRecord>, r: ServiceRecord, i: nat)
    requires i < |rs| && KeyOf(rs[i]) == KeyOf(r) && forall j | 0 <= j < i :: KeyOf(rs[j]) != KeyOf(r)
    ensures Upserted(rs, r) == rs[i := r]
  {
    if i > 0 {
      UpsertedAt(rs[1..], r, i - 1);
      assert rs[i := r] == [rs[0]] + rs[1..][i - 1 := r];
    }
  }

  lemma {:induction false} UpsertedMissing(rs: seq<ServiceRecord>, r: ServiceRecord)
    requires forall j | 0 <= j < |rs| :: KeyOf(rs[j]) != KeyOf(r)
    ensures Upserted(rs, r) == rs + [r]
  {
    if rs != [] { UpsertedMissing(rs[1..], r); }
  }

  lemma {:induction false} UpsertedHas(rs: seq<ServiceRecord>, r: ServiceRecord)
    ensures r in Upserted(rs, r)
  {
    if rs != [] && KeyOf(rs[0]) != KeyOf(r) {
      UpsertedHas(rs[1..], r);
      assert r in Upserted(rs, r)[1..];
    }
  }

  /** Exactly the records of that key go, or of that node. */
  lemma {:induction false} WithoutExactly(rs: seq<ServiceRecord>, k: Key, node: NodeId, r: ServiceRecord)
    ensures r in Without(rs, k) <==> r in rs && !(r.nodeId == k.node && r.serviceName == k.name)
    ensures r in WithoutNode(rs, node) <==> r in rs && r.nodeId != node
  {
    if rs != [] { WithoutExactly(rs[1..], k, node, r); }
  }

  lemma WithoutNone(k: Key)
    ensures Without([], k) == []
  {
  }

  lemma WithoutNodeNone(node: NodeId)
    ensures WithoutNode([], node) == []
  {
  }

  lemma WithoutNext(rs: seq<ServiceRecord>, i: nat, k: Key)
    requires i < |rs|
    ensures Without(rs[i..], k) == (if KeyOf(rs[i]) == k then [] else [rs[i]]) + Without(rs[i + 1..], k)
  {
    assert rs[i..][1..] == rs[i + 1..];
  }

  lemma WithoutNodeNext(rs: seq<ServiceRecord>, i: nat, node: NodeId)
    requires i < |rs|
    ensures WithoutNode(rs[i..], node) ==
            (if rs[i].nodeId == node then [] else [rs[i]]) + WithoutNode(rs[i + 1..], node)
  {
    assert rs[i..][1..] == rs[i + 1..];
  }

  /** The first record of that node and name stands at `i`. */
  predicate FirstOf(rs: seq<ServiceRecord>, node: NodeId, name: string, i: int) {
    && 0 <= i < |rs| && rs[i].nodeId == node && rs[i].serviceName == name
    && forall j | 0 <= j < i :: !(rs[j].nodeId == node && rs[j].serviceName == name)
  }

  class ServiceRegistry {
    var records: seq<ServiceRecord>

    constructor ()
      ensures records == []
    {
      records := [];
    }

    method RegisterService(r: ServiceRecord)
      modifies this
      ensures records == Upserted(old(records), r)
      ensures forall i | FirstOf(old(records), r.nodeId, r.serviceName, i) :: records == old(records)[i := r]
      ensures (forall i :: !FirstOf(old(records), r.nodeId, r.serviceName, i)) ==> records == old(records) + [r]
    {
      for i := 0 to |records|
        invariant records == old(records) && forall j | 0 <= j < i :: KeyOf(records[j]) != KeyOf(r)
      {
        if records[i].serviceName == r.serviceName && records[i].nodeId == r.nodeId {
          assert FirstOf(records, r.nodeId, r.serviceName, i);
          UpsertedAt(records, r, i);
          records := records[i := r];
          return;
        }
      }
      UpsertedMissing(records, r);
      records := records + [r];
    }

    method UnregisterService(name: string, node: NodeId)
      modifies this
      ensures records == Without(old(records), Key(node, name))
      ensures forall r :: r in records <==> r in old(records) && !(r.nodeId == node && r.serviceName == name)
    {
      hide Without;
      WithoutNone(Key(node, name));
      var kept: seq<ServiceRecord> := [];
      for i := 0 to |records|
        invariant records == old(records)
        invariant Without(records, Key(node, name)) == kept + Without(records[i..], Key(node, name))
      {
        WithoutNext(records, i, Key(node, name));
        if !(records[i].serviceName == name && records[i].nodeId == node) {
          kept := kept + [records[i]];
        }
      }
      assert records[|records|..] == [];
      forall r { WithoutExactly(records, Key(node, name), node, r); }
      records := kept;
    }

    method UnregisterNode(node: NodeId)
      modifies this
      ensures records == WithoutNode(old(records), node)
      ensures forall r :: r in records <==> r in old(records) && r.nodeId != node
    {
      hide WithoutNode;
      WithoutNodeNone(node);
      var kept: seq<ServiceRecord> := [];
      for i := 0 to |records|
        invariant records == old(records)
        invariant WithoutNode(records, node) == kept + WithoutNode(records[i..], node)
      {
        WithoutNodeNext(records, i, node);
        if records[i].nodeId != node {
          kept := kept + [records[i]];
        }
      }
      assert records[|records|..] == [];
      forall r { WithoutExactly(records, Key(node, ""), node, r); }
      records := kept;
    }

    /** The first record of that name. */
    method Resolve(name: string) returns (r: Option<ServiceRecord>)
      ensures r == None ==> forall i | 0 <= i < |records| :: records[i].serviceName != name
      ensures r.Some? ==> exists i :: 0 <= i < |records| && records[i] == r.value && r.value.serviceName == name
                            && forall j | 0 <= j < i :: records[j].serviceName != name
    {
      for i := 0 to |records|
        invariant forall j | 0 <= j < i :: records[j].serviceName != name
      {
        if records[i].serviceName == name { return Some(records[i]); }
      }
      return None;
    }
  }
}
