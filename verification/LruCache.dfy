/** The least-recently-used cache: a dictionary over a doubly linked list
    (the LRUCache actor of ios/MatterAI/Core/Questions/Leetcode.swift). */
module LruCache {
  import opened Types

  type Data = seq<u8>
  datatype Entry = Entry(key: string, value: Data)

  // ---------------------------------------------------------------------
  // The cache as a list of entries, most recently used first.
  // ---------------------------------------------------------------------

  predicate Has(l: seq<Entry>, k: string) {
    exists i :: 0 <= i < |l| && l[i].key == k
  }

  predicate DistinctKeys(l: seq<Entry>) {
    forall i, j | 0 <= i < j < |l| :: l[i].key != l[j].key
  }

  /** The list without the entry of `k`. */
  function Drop(l: seq<Entry>, k: string): seq<Entry> {
    if l == [] then [] else (if l[0].key == k then [] else [l[0]]) + Drop(l[1..], k)
  }

  function Lookup(l: seq<Entry>, k: string): Option<Data> {
    if l == [] then None else if l[0].key == k then Some(l[0].value) else Lookup(l[1..], k)
  }

  function Truncate(l: seq<Entry>, capacity: int): seq<Entry> {
    if capacity <= 0 then [] else if |l| <= capacity then l else l[..capacity]
  }

  /** A hit moves the entry to the front; a miss changes nothing. */
  function AfterGet(l: seq<Entry>, k: string): seq<Entry> {
    match Lookup(l, k)
    case Some(v) => [Entry(k, v)] + Drop(l, k)
    case None => l
  }

  function AfterSet(l: seq<Entry>, k: string, v: Data, capacity: int): seq<Entry> {
    Truncate([Entry(k, v)] + Drop(l, k), capacity)
  }

  ghost predicate WellFormed(l: seq<Entry>, capacity: int) {
    DistinctKeys(l) && |l| <= if capacity < 0 then 0 else capacity
  }

  lemma {:induction false} DropAt(l: seq<Entry>, k: string, i: nat)
    requires DistinctKeys(l) && i < |l| && l[i].key == k
    ensures Drop(l, k) == l[..i] + l[i + 1..] && Lookup(l, k) == Some(l[i].value)
  {
    if i == 0 {
      assert forall j | 0 <= j < |l[1..]| :: l[1..][j].key != k;
      DropMissing(l[1..], k);
    } else {
      assert l[0].key != k;
      DropAt(l[1..], k, i - 1);
      assert l[..i] == [l[0]] + l[1..][..i - 1];
    }
  }

  lemma {:induction false} DropMissing(l: seq<Entry>, k: string)
    requires forall j | 0 <= j < |l| :: l[j].key != k
    ensures Drop(l, k) == l && Lookup(l, k) == None
  {
    if l != [] {
      assert forall j | 0 <= j < |l[1..]| :: l[1..][j].key != k;
      DropMissing(l[1..], k);
    }
  }

  lemma DropIs(l: seq<Entry>, k: string) returns (i: nat)
    requires DistinctKeys(l)
    ensures i <= |l| && (i < |l| ==> l[i].key == k) && (i < |l| <==> Has(l, k))
    ensures Drop(l, k) == if i < |l| then l[..i] + l[i + 1..] else l
    ensures Lookup(l, k) == if i < |l| then Some(l[i].value) else None
    ensures DistinctKeys(Drop(l, k)) && !Has(Drop(l, k), k)
  {
    if Has(l, k) {
      i :| 0 <= i < |l| && l[i].key == k;
      DropAt(l, k, i);
    } else {
      i := |l|;
      DropMissing(l, k);
    }
  }

  lemma GetKeepsWellFormed(l: seq<Entry>, k: string, capacity: int)
    requires WellFormed(l, capacity)
    ensures WellFormed(AfterGet(l, k), capacity)
  {
    var i := DropIs(l, k);
    if i < |l| {
      assert DistinctKeys([l[i]] + Drop(l, k));
    }
  }

  /** Where the entries of `l` stand once the one at `i` has moved to the front. */
  function Moved(l: seq<Entry>, i: nat): seq<Entry>
    requires i < |l|
  {
    [l[i]] + (l[..i] + l[i + 1..])
  }

  lemma MovedEntries(l: seq<Entry>, i: nat)
    requires DistinctKeys(l) && i < |l|
    ensures DistinctKeys(Moved(l, i)) && |Moved(l, i)| == |l|
    ensures forall j | 0 <= j < |l| :: Moved(l, i)[if j == i then 0 else if j < i then j + 1 else j] == l[j]
    ensures forall p | 0 <= p < |l| :: Moved(l, i)[p] == l[if p == 0 then i else if p - 1 < i then p - 1 else p]
  {
  }

  /** A get changes what is found for no key. */
  lemma GetKeepsLookups(l: seq<Entry>, k: string, x: string)
    requires DistinctKeys(l)
    ensures Lookup(AfterGet(l, k), x) == Lookup(l, x)
  {
    var i := DropIs(l, k);
    if i < |l| {
      assert AfterGet(l, k) == Moved(l, i);
      MovedKeepsLookups(l, i, x);
    }
  }

  lemma MovedKeepsLookups(l: seq<Entry>, i: nat, x: string)
    requires DistinctKeys(l) && i < |l|
    ensures Lookup(Moved(l, i), x) == Lookup(l, x)
  {
    MovedEntries(l, i);
    var j := DropIs(l, x);
    if j < |l| {
      DropAt(Moved(l, i), x, if j == i then 0 else if j < i then j + 1 else j);
    } else {
      DropMissing(Moved(l, i), x);
    }
  }

  /** A set key is found with its value, if there is room for one; and what is pushed out is only ever
      the least recently used entry. */
  lemma SetEvictsLeastRecent(l: seq<Entry>, k: string, v: Data, capacity: int)
    requires WellFormed(l, capacity)
    ensures WellFormed(AfterSet(l, k, v, capacity), capacity)
    ensures capacity > 0 ==> Lookup(AfterSet(l, k, v, capacity), k) == Some(v)
    ensures capacity > 0 ==>
              AfterSet(l, k, v, capacity) == [Entry(k, v)] +
                (if Has(l, k) || |l| < capacity then Drop(l, k) else l[..|l| - 1])
  {
    var i := DropIs(l, k);
    assert DistinctKeys([Entry(k, v)] + Drop(l, k));
  }

  datatype Op = OpGet(key: string) | OpSet(key: string, value: Data)

  function ApplyOp(l: seq<Entry>, op: Op, capacity: int): seq<Entry> {
    match op
    case OpGet(k) => AfterGet(l, k)
    case OpSet(k, v) => AfterSet(l, k, v, capacity)
  }

  function RunOps(l: seq<Entry>, ops: seq<Op>, capacity: int): seq<Entry>
    decreases |ops|
  {
    if ops == [] then l else RunOps(ApplyOp(l, ops[0], capacity), ops[1..], capacity)
  }

  /** `k` is held with value `v`, and only keys of `others` were used more recently. */
  ghost predicate HeldBehind(l: seq<Entry>, k: string, v: Data, others: set<string>) {
    exists i :: 0 <= i < |l| && l[i] == Entry(k, v) && forall j | 0 <= j < i :: l[j].key in others
  }

  lemma {:induction false} DistinctKeysCount(l: seq<Entry>, others: set<string>)
    requires DistinctKeys(l) && forall j | 0 <= j < |l| :: l[j].key in others
    ensures |l| <= |others|
  {
    if l != [] {
      var last := |l| - 1;
      forall j | 0 <= j < last
        ensures l[..last][j].key in others - {l[last].key}
      {
        assert l[j].key in others;
      }
      DistinctKeysCount(l[..last], others - {l[last].key});
    }
  }

  /** Using another key of `others` puts at most that key in front. */
  lemma FrontKeepsHeld(l: seq<Entry>, front: Entry, k: string, v: Data, others: set<string>) returns (p': nat)
    requires DistinctKeys(l) && HeldBehind(l, k, v, others) && front.key != k && front.key in others
    ensures var l' := [front] + Drop(l, front.key);
      p' < |l'| && l'[p'] == Entry(k, v) && DistinctKeys(l') && forall j | 0 <= j < p' :: l'[j].key in others
  {
    hide Drop, Lookup, Has, DistinctKeys;
    var p :| 0 <= p < |l| && l[p] == Entry(k, v) && forall j | 0 <= j < p :: l[j].key in others;
    var i := DropIs(l, front.key);
    ConsEntry(front, Drop(l, front.key));
    p' := if i < p then p else p + 1;
  }

  lemma ConsEntry(e: Entry, l: seq<Entry>)
    requires DistinctKeys(l) && !Has(l, e.key)
    ensures DistinctKeys([e] + l)
  {
  }

  lemma OpKeepsHeld(l: seq<Entry>, op: Op, capacity: int, k: string, v: Data, others: set<string>)
    requires WellFormed(l, capacity) && HeldBehind(l, k, v, others)
    requires op.key != k && op.key in others && |others| < capacity
    ensures HeldBehind(ApplyOp(l, op, capacity), k, v, others)
  {
    var i := DropIs(l, op.key);
    if op.OpSet? || i < |l| {
      var front := Entry(op.key, if op.OpGet? then l[i].value else op.value);
      var p' := FrontKeepsHeld(l, front, k, v, others);
      var l' := [front] + Drop(l, op.key);
      DistinctKeysCount(l'[..p'], others);
      assert ApplyOp(l, op, capacity) == if op.OpGet? then l' else Truncate(l', capacity);
      assert ApplyOp(l, op, capacity)[p'] == Entry(k, v);
    }
  }

  /** A key stays, with its value, while fewer than `capacity` other keys are used. */
  lemma {:induction false} RecentKeySurvives(l: seq<Entry>, ops: seq<Op>, capacity: int, k: string, v: Data,
                                             others: set<string>)
    requires WellFormed(l, capacity) && HeldBehind(l, k, v, others) && |others| < capacity
    requires forall i | 0 <= i < |ops| :: ops[i].key != k && ops[i].key in others
    ensures Lookup(RunOps(l, ops, capacity), k) == Some(v)
    decreases |ops|
  {
    if ops == [] {
      var p :| 0 <= p < |l| && l[p] == Entry(k, v) && forall j | 0 <= j < p :: l[j].key in others;
      DropAt(l, k, p);
    } else {
      OpKeepsHeld(l, ops[0], capacity, k, v, others);
      match ops[0] {
        case OpGet(x) => GetKeepsWellFormed(l, x, capacity);
        case OpSet(x, w) => SetEvictsLeastRecent(l, x, w, capacity);
      }
      RecentKeySurvives(ApplyOp(l, ops[0], capacity), ops[1..], capacity, k, v, others);
    }
  }

  /** A key just read or set, if it is held, stays with its value until as many other keys as the capacity
      have been used: being used is what makes an entry recent. */
  lemma UsedKeySurvives(l: seq<Entry>, use: Op, ops: seq<Op>, capacity: int, v: Data, others: set<string>)
    requires WellFormed(l, capacity) && |others| < capacity
    requires Lookup(ApplyOp(l, use, capacity), use.key) == Some(v)
    requires forall i | 0 <= i < |ops| :: ops[i].key != use.key && ops[i].key in others
    ensures Lookup(RunOps(l, [use] + ops, capacity), use.key) == Some(v)
  {
    var l' := ApplyOp(l, use, capacity);
    match use {
      case OpGet(k) =>
        GetKeepsWellFormed(l, k, capacity);
        GetKeepsLookups(l, k, k);
      case OpSet(k, w) => SetEvictsLeastRecent(l, k, w, capacity);
    }
    assert l'[0] == Entry(use.key, v);
    RecentKeySurvives(l', ops, capacity, use.key, v, others);
    assert ([use] + ops)[1..] == ops;
  }

  // ---------------------------------------------------------------------
  // The cache as the program keeps it.
  // ---------------------------------------------------------------------

  class Node {
    const key: string
    var value: Data
    var prev: Node?
    var next: Node?

    constructor (key: string, value: Data)
      ensures this.key == key && this.value == value && prev == null && next == null
    {
      this.key, this.value, prev, next := key, value, null, null;
    }
  }

  /** Using the entry at `i`. */
  lemma UseAt(l: seq<Entry>, k: string, i: nat)
    requires DistinctKeys(l) && i < |l| && l[i].key == k
    ensures Lookup(l, k) == Some(l[i].value) && AfterGet(l, k) == Moved(l, i)
    ensures Drop(l, k) == l[..i] + l[i + 1..]
  {
    DropAt(l, k, i);
  }

  lemma SetAt(l: seq<Entry>, k: string, v: Data, i: nat, capacity: int)
    requires DistinctKeys(l) && i < |l| <= capacity && l[i].key == k
    ensures AfterSet(l, k, v, capacity) == Moved(l[i := Entry(k, v)], i)
  {
    DropAt(l, k, i);
    var l' := l[i := Entry(k, v)];
    assert l'[..i] == l[..i] && l'[i + 1..] == l[i + 1..];
  }

  lemma GetMissing(l: seq<Entry>, k: string)
    requires !Has(l, k)
    ensures Lookup(l, k) == None && AfterGet(l, k) == l
  {
    DropMissing(l, k);
  }

  lemma SetMissing(l: seq<Entry>, k: string, v: Data, capacity: int)
    requires !Has(l, k)
    ensures AfterSet(l, k, v, capacity) == Truncate([Entry(k, v)] + l, capacity)
  {
    DropMissing(l, k);
  }

  ghost predicate DistinctNodes(nodes: seq<Node>) {
    forall i, j | 0 <= i < j < |nodes| :: nodes[i] != nodes[j]
  }

  /** The node at position `i`, or none beyond the ends. */
  ghost function NodeAt(nodes: seq<Node>, i: int): Node? {
    if 0 <= i < |nodes| then nodes[i] else null
  }

  /** The node at position `i` points to its neighbours. */
  ghost predicate Points(nodes: seq<Node>, i: int)
    requires 0 <= i < |nodes|
    reads nodes
  {
    nodes[i].prev == NodeAt(nodes, i - 1) && nodes[i].next == NodeAt(nodes, i + 1)
  }

  ghost predicate Chained(nodes: seq<Node>)
    reads nodes
  {
    forall i | 0 <= i < |nodes| :: Points(nodes, i)
  }

  /** The node at position `j` points to its neighbours as if the one at `i` were not there. */
  ghost predicate PointsPast(nodes: seq<Node>, j: int, i: int)
    requires 0 <= j < |nodes|
    reads nodes
  {
    && nodes[j].prev == NodeAt(nodes, if j == i + 1 then i - 1 else j - 1)
    && nodes[j].next == NodeAt(nodes, if j == i - 1 then i + 1 else j + 1)
  }

  ghost function EntriesOf(nodes: seq<Node>): (l: seq<Entry>)
    reads nodes
    ensures |l| == |nodes| && forall i | 0 <= i < |nodes| :: l[i] == Entry(nodes[i].key, nodes[i].value)
  {
    seq(|nodes|, i requires 0 <= i < |nodes| reads nodes => Entry(nodes[i].key, nodes[i].value))
  }

  /** The dictionary holds exactly these nodes, each under its key. */
  ghost predicate Indexed(cache: map<string, Node>, nodes: seq<Node>) {
    && (forall n | n in nodes :: n.key in cache && cache[n.key] == n)
    && (forall k | k in cache :: cache[k] in nodes && cache[k].key == k)
  }

  lemma IndexedMoved(cache: map<string, Node>, nodes: seq<Node>, i: nat)
    requires Indexed(cache, nodes) && i < |nodes|
    ensures Indexed(cache, [nodes[i]] + (nodes[..i] + nodes[i + 1..]))
  {
    var moved := [nodes[i]] + (nodes[..i] + nodes[i + 1..]);
    forall n
      ensures n in moved <==> n in nodes
    {
      assert nodes == nodes[..i] + [nodes[i]] + nodes[i + 1..];
    }
  }

  lemma IndexedAdded(cache: map<string, Node>, nodes: seq<Node>, node: Node)
    requires Indexed(cache, nodes) && node.key !in cache
    ensures Indexed(cache[node.key := node], [node] + nodes)
  {
  }

  lemma IndexedWithoutLast(cache: map<string, Node>, nodes: seq<Node>)
    requires Indexed(cache, nodes) && DistinctNodes(nodes) && nodes != []
    ensures Indexed(cache - {nodes[|nodes| - 1].key}, nodes[..|nodes| - 1])
  {
    var last := |nodes| - 1;
    var rest := nodes[..last];
    assert nodes == rest + [nodes[last]];
    forall n | n in rest
      ensures n in nodes && n != nodes[last] && n.key != nodes[last].key
    {
    }
  }

  /** There are as many keys as nodes. */
  lemma CountsAgree(cache: map<string, Node>, nodes: seq<Node>)
    requires Indexed(cache, nodes) && DistinctNodes(nodes)
    ensures |cache| == |nodes|
  {
    var keys := seq(|nodes|, i requires 0 <= i < |nodes| => nodes[i].key);
    forall i, j | 0 <= i < j < |keys|
      ensures keys[i] != keys[j]
    {
      assert nodes[i] in nodes && nodes[j] in nodes;
    }
    KeyCount(keys);
    forall k
      ensures k in cache <==> k in keys
    {
      if k in cache {
        var i :| 0 <= i < |nodes| && nodes[i] == cache[k];
        assert keys[i] == k;
      }
      if k in keys {
        var i :| 0 <= i < |keys| && keys[i] == k;
        assert nodes[i] in nodes;
      }
    }
    assert cache.Keys == set k | k in keys;
  }

  /** Taking the node at `i` out of a chain: its neighbours have been joined. */
  lemma ChainedWithout(nodes: seq<Node>, i: nat)
    requires i < |nodes|
    requires forall j | 0 <= j < |nodes| && j != i :: PointsPast(nodes, j, i)
    ensures Chained(nodes[..i] + nodes[i + 1..])
  {
    var rest := nodes[..i] + nodes[i + 1..];
    forall j | 0 <= j < |rest|
      ensures Points(rest, j)
    {
      var p := if j < i then j else j + 1;
      assert rest[j] == nodes[p] && PointsPast(nodes, p, i);
    }
  }

  lemma DistinctWithout(nodes: seq<Node>, i: nat)
    requires DistinctNodes(nodes) && i < |nodes|
    ensures DistinctNodes(nodes[..i] + nodes[i + 1..]) && nodes[i] !in nodes[..i] + nodes[i + 1..]
  {
  }

  /** The first and the last node, once the one at `i` is gone. */
  lemma EndsWithout(nodes: seq<Node>, i: nat)
    requires DistinctNodes(nodes) && i < |nodes|
    ensures var rest := nodes[..i] + nodes[i + 1..];
      && NodeAt(rest, 0) == (if nodes[i] == NodeAt(nodes, 0) then NodeAt(nodes, i + 1) else NodeAt(nodes, 0))
      && NodeAt(rest, |rest| - 1) ==
         (if nodes[i] == NodeAt(nodes, |nodes| - 1) then NodeAt(nodes, i - 1) else NodeAt(nodes, |nodes| - 1))
  {
    assert i > 0 ==> nodes[0] != nodes[i];
    assert i < |nodes| - 1 ==> nodes[i] != nodes[|nodes| - 1];
  }

  lemma EntriesMoved(nodes: seq<Node>, i: nat)
    requires i < |nodes|
    ensures EntriesOf([nodes[i]] + (nodes[..i] + nodes[i + 1..])) == Moved(EntriesOf(nodes), i)
  {
  }

  lemma EntryKeys(cache: map<string, Node>, nodes: seq<Node>)
    requires Indexed(cache, nodes) && DistinctNodes(nodes)
    ensures DistinctKeys(EntriesOf(nodes))
    ensures forall k | k !in cache :: !Has(EntriesOf(nodes), k)
  {
    forall i, j | 0 <= i < j < |nodes|
      ensures nodes[i].key != nodes[j].key
    {
      assert nodes[i] in nodes && nodes[j] in nodes;
    }
    forall k, i | k !in cache && 0 <= i < |nodes|
      ensures nodes[i].key != k
    {
      assert nodes[i] in nodes;
    }
  }

  class LRUCache {
    const capacity: int
    var cache: map<string, Node>
    var head: Node?
    var tail: Node?
    ghost var nodes: seq<Node>

    /** `nodes` are the nodes of the list, linked in order both ways. */
    ghost predicate Linked()
      reads this, nodes
    {
      && DistinctNodes(nodes) && Chained(nodes)
      && head == NodeAt(nodes, 0) && tail == NodeAt(nodes, |nodes| - 1)
    }

    ghost predicate Valid()
      reads this, nodes
    {
      Linked() && Indexed(cache, nodes) && |nodes| <= if capacity < 0 then 0 else capacity
    }

    ghost function Contents(): (l: seq<Entry>)
      reads this, nodes
    {
      EntriesOf(nodes)
    }

    constructor (capacity: int)
      ensures Valid() && this.capacity == capacity && Contents() == [] && nodes == []
    {
      this.capacity := capacity;
      cache, head, tail, nodes := map[], null, null, [];
    }

    method AddToFront(node: Node)
      requires Linked() && node !in nodes
      modifies this`head, this`tail, this`nodes, node`prev, node`next, (set n | n in nodes)`prev
      ensures Linked() && nodes == [node] + old(nodes)
    {
      ghost var before := nodes;
      node.next := head;
      node.prev := null;
      if head != null { head.prev := node; }
      head := node;
      if tail == null { tail := node; }
      nodes := [node] + nodes;
      forall i | 0 <= i < |nodes|
        ensures Points(nodes, i)
      {
        if i > 0 {
          assert nodes[i] == before[i - 1];
          assert old(Points(nodes, i - 1));
        }
      }
    }

    method Unlink(node: Node, ghost i: nat)
      requires Linked() && i < |nodes| && nodes[i] == node
      modifies this`head, this`tail, this`nodes, (set n | n in nodes)`prev, (set n | n in nodes)`next
      ensures Linked() && nodes == old(nodes)[..i] + old(nodes)[i + 1..] && node !in nodes
    {
      assert Points(nodes, i);
      if node.prev != null { node.prev.next := node.next; }
      if node.next != null { node.next.prev := node.prev; }
      if head == node { head := node.next; }
      if tail == node { tail := node.prev; }
      forall j | 0 <= j < |nodes| && j != i
        ensures PointsPast(nodes, j, i)
      {
        assert old(Points(nodes, j));
      }
      ChainedWithout(nodes, i);
      DistinctWithout(nodes, i);
      EndsWithout(nodes, i);
      nodes := nodes[..i] + nodes[i + 1..];
    }

    method MoveToFront(node: Node, ghost i: nat)
      requires Linked() && i < |nodes| && nodes[i] == node
      modifies this`head, this`tail, this`nodes, (set n | n in nodes)`prev, (set n | n in nodes)`next
      ensures Linked() && nodes == [node] + (old(nodes)[..i] + old(nodes)[i + 1..])
    {
      Unlink(node, i);
      AddToFront(node);
    }

    /** The entry at position `i` becomes the most recently used. */
    method Use(node: Node, ghost i: nat)
      requires Valid() && i < |nodes| && nodes[i] == node
      modifies this`head, this`tail, this`nodes, (set n | n in nodes)`prev, (set n | n in nodes)`next
      ensures Valid() && Contents() == Moved(old(Contents()), i)
      ensures forall n | n in nodes :: n in old(nodes)
    {
      ghost var before, l := nodes, Contents();
      IndexedMoved(cache, nodes, i);
      MoveToFront(node, i);
      assert EntriesOf(before) == l;
      EntriesMoved(before, i);
    }

    method Overwrite(node: Node, v: Data, ghost i: nat)
      requires Valid() && i < |nodes| && nodes[i] == node
      modifies node`value
      ensures Valid() && Contents() == old(Contents())[i := Entry(node.key, v)]
    {
      node.value := v;
      forall j | 0 <= j < |nodes|
        ensures Points(nodes, j)
      {
        assert old(Points(nodes, j));
      }
    }

    method Insert(node: Node)
      requires Valid() && node.key !in cache && node !in nodes
      modifies this`cache, this`head, this`tail, this`nodes, node`prev, node`next, (set n | n in nodes)`prev
      ensures Linked() && Indexed(cache, nodes) && nodes == [node] + old(nodes)
      ensures Contents() == [Entry(node.key, node.value)] + old(Contents())
    {
      hide DistinctNodes, Chained, Points, Indexed;
      IndexedAdded(cache, nodes, node);
      cache := cache[node.key := node];
      AddToFront(node);
    }

    method RemoveLRU()
      requires Linked() && Indexed(cache, nodes)
      modifies this`cache, this`head, this`tail, this`nodes, (set n | n in nodes)`prev, (set n | n in nodes)`next
      ensures Linked() && Indexed(cache, nodes)
      ensures nodes == if old(nodes) == [] then [] else old(nodes)[..|old(nodes)| - 1]
      ensures Contents() == if old(nodes) == [] then [] else old(Contents())[..|old(nodes)| - 1]
    {
      hide DistinctNodes, Chained, Points, Indexed;
      if tail == null { return; }
      var lru := tail;
      ghost var last := |nodes| - 1;
      IndexedWithoutLast(cache, nodes);
      cache := cache - {lru.key};
      Unlink(lru, last);
      assert nodes == old(nodes)[..last];
    }

    method EvictIfOver()
      requires Linked() && Indexed(cache, nodes) && |nodes| <= if capacity < 0 then 1 else capacity + 1
      modifies this`cache, this`head, this`tail, this`nodes, (set n | n in nodes)`prev, (set n | n in nodes)`next
      ensures Valid() && Contents() == Truncate(old(Contents()), capacity)
      ensures forall n | n in nodes :: n in old(nodes)
    {
      hide DistinctNodes, Chained, Points, Indexed;
      CountsAgree(cache, nodes);
      if |cache| > capacity {
        RemoveLRU();
      }
    }

    method Get(k: string) returns (v: Option<Data>)
      requires Valid()
      modifies this, nodes
      ensures Valid()
      ensures v == Lookup(old(Contents()), k)
      ensures Contents() == AfterGet(old(Contents()), k)
      ensures forall n | n in nodes :: n in old(nodes)
    {
      hide Drop, Lookup, Moved, AfterGet, Has, EntriesOf, DistinctKeys, DistinctNodes, Chained, Points;
      EntryKeys(cache, nodes);
      if k !in cache {
        GetMissing(Contents(), k);
        return None;
      }
      var node := cache[k];
      ghost var i :| 0 <= i < |nodes| && nodes[i] == node;
      UseAt(Contents(), k, i);
      Use(node, i);
      return Some(node.value);
    }

    method Set(k: string, v: Data)
      requires Valid()
      modifies this, nodes
      ensures Valid()
      ensures Contents() == AfterSet(old(Contents()), k, v, capacity)
      ensures forall n | n in nodes :: n in old(nodes) || fresh(n)
    {
      if k in cache {
        SetExisting(k, v);
      } else {
        SetNew(k, v);
      }
    }

    method SetExisting(k: string, v: Data)
      requires Valid() && k in cache
      modifies this, nodes
      ensures Valid()
      ensures Contents() == AfterSet(old(Contents()), k, v, capacity)
      ensures forall n | n in nodes :: n in old(nodes) || fresh(n)
    {
      EntryKeys(cache, nodes);
      var node := cache[k];
      ghost var i :| 0 <= i < |nodes| && nodes[i] == node;
      ghost var l := Contents();
      SetAt(l, k, v, i, capacity);
      Overwrite(node, v, i);
      Use(node, i);
    }

    method SetNew(k: string, v: Data)
      requires Valid() && k !in cache
      modifies this, nodes
      ensures Valid()
      ensures Contents() == AfterSet(old(Contents()), k, v, capacity)
      ensures forall n | n in nodes :: n in old(nodes) || fresh(n)
    {
      EntryKeys(cache, nodes);
      SetMissing(Contents(), k, v, capacity);
      var node := new Node(k, v);
      InsertAndEvict(node);
    }

    method InsertAndEvict(node: Node)
      requires Valid() && node.key !in cache && node !in nodes
      modifies this`cache, this`head, this`tail, this`nodes, node`prev, node`next,
               (set n | n in nodes)`prev, (set n | n in nodes)`next
      ensures Valid()
      ensures Contents() == Truncate([Entry(node.key, node.value)] + old(Contents()), capacity)
      ensures forall n | n in nodes :: n in old(nodes) || n == node
    {
      Insert(node);
      EvictIfOver();
    }
  }

  // ---------------------------------------------------------------------
  // Whole runs on the heap.
  // ---------------------------------------------------------------------

  /** What the gets of a run return. */
  function Answers(l: seq<Entry>, ops: seq<Op>, capacity: int): seq<Option<Data>>
    decreases |ops|
  {
    if ops == [] then []
    else
      var answer := if ops[0].OpGet? then [Lookup(l, ops[0].key)] else [];
      answer + Answers(ApplyOp(l, ops[0], capacity), ops[1..], capacity)
  }

  method Perform(c: LRUCache, op: Op) returns (answers: seq<Option<Data>>)
    requires c.Valid()
    modifies c, c.nodes
    ensures c.Valid() && c.Contents() == ApplyOp(old(c.Contents()), op, c.capacity)
    ensures forall n | n in c.nodes :: n in old(c.nodes) || fresh(n)
    ensures answers == if op.OpGet? then [Lookup(old(c.Contents()), op.key)] else []
  {
    match op
    case OpGet(k) =>
      var v := c.Get(k);
      answers := [v];
    case OpSet(k, v) =>
      c.Set(k, v);
      answers := [];
  }

  lemma NextOp(l: seq<Entry>, ops: seq<Op>, i: nat, capacity: int)
    requires i < |ops|
    ensures RunOps(l, ops[i..], capacity) == RunOps(ApplyOp(l, ops[i], capacity), ops[i + 1..], capacity)
    ensures Answers(l, ops[i..], capacity) ==
      (if ops[i].OpGet? then [Lookup(l, ops[i].key)] else [])
      + Answers(ApplyOp(l, ops[i], capacity), ops[i + 1..], capacity)
  {
    assert ops[i..][1..] == ops[i + 1..];
  }

  lemma NoOps(l: seq<Entry>, capacity: int)
    ensures RunOps(l, [], capacity) == l && Answers(l, [], capacity) == []
  {
  }

  /** Any run of gets and sets on a new cache: its contents and its answers are those of the list. */
  method Replay(capacity: int, ops: seq<Op>) returns (c: LRUCache, answers: seq<Option<Data>>)
    ensures fresh(c) && fresh(c.nodes) && c.capacity == capacity
    ensures c.Valid() && c.Contents() == RunOps([], ops, capacity)
    ensures answers == Answers([], ops, capacity)
  {
    hide RunOps, Answers, ApplyOp, Lookup, LRUCache.Valid, EntriesOf;
    c := new LRUCache(capacity);
    assert ops[0..] == ops;
    answers := [];
    for i := 0 to |ops|
      invariant fresh(c) && fresh(c.nodes) && c.Valid() && c.capacity == capacity
      invariant RunOps([], ops, capacity) == RunOps(c.Contents(), ops[i..], capacity)
      invariant Answers([], ops, capacity) == answers + Answers(c.Contents(), ops[i..], capacity)
    {
      NextOp(c.Contents(), ops, i, capacity);
      var more := Perform(c, ops[i]);
      assert forall k | 0 <= k < |c.nodes| :: c.nodes[k] in c.nodes;
      answers := answers + more;
    }
    assert ops[|ops|..] == [];
    NoOps(c.Contents(), capacity);
  }

  lemma {:induction false} KeyCount(keys: seq<string>)
    requires forall i, j | 0 <= i < j < |keys| :: keys[i] != keys[j]
    ensures |set k | k in keys| == |keys|
  {
    if keys != [] {
      var last := |keys| - 1;
      KeyCount(keys[..last]);
      assert (set k | k in keys) == (set k | k in keys[..last]) + {keys[last]};
    }
  }
}
