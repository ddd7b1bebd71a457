/** The simplified TLV codec of the simulated Matter stack (src/matter/TLV.cpp). */
module Tlv {
  import opened Types
  import opened Bytes

  const SIGNED_INT: u8 := 0x00
  const UNSIGNED_INT: u8 := 0x04
  const BOOLEAN: u8 := 0x08
  const FLOAT: u8 := 0x0A
  const UTF8_STRING: u8 := 0x0C
  const BYTE_STRING: u8 := 0x10
  const NULL: u8 := 0x14
  const STRUCTURE: u8 := 0x15
  const ARRAY: u8 := 0x16
  const LIST: u8 := 0x17
  const END_OF_CONTAINER: u8 := 0x18

  type ScalarBytes = b: seq<u8> | |b| <= 8

  datatype ScalarKind = Signed | Unsigned | Boolean
  datatype TextKind = Utf8 | Octets
  datatype ContainerKind = Structure | Array

  /** The calls of the writer; numbers are given by the bytes of their width. */
  datatype Call =
    | PutScalar(tag: u8, scalarKind: ScalarKind, value: ScalarBytes)
    | PutText(tag: u8, textKind: TextKind, text: seq<u8>)
    | PutNull(tag: u8)
    | Open(tag: u8, kind: ContainerKind)
    | Close

  /** An element as it is read: its tag, its type and the bytes of its value. */
  datatype Item = Item(elementType: u8, tag: u8, value: seq<u8>)

  /** The bit pattern of a 32-bit integer. */
  function Unsigned32(v: i32): u32 {
    if v < 0 then v + 0x1_0000_0000 else v
  }

  function Signed32(v: u32): i32 {
    if v >= 0x8000_0000 then v - 0x1_0000_0000 else v
  }

  function ElementType(c: Call): u8 {
    match c
    case PutScalar(_, Signed, _) => SIGNED_INT
    case PutScalar(_, Unsigned, _) => UNSIGNED_INT
    case PutScalar(_, Boolean, _) => BOOLEAN
    case PutText(_, Utf8, _) => UTF8_STRING
    case PutText(_, Octets, _) => BYTE_STRING
    case PutNull(_) => NULL
    case Open(_, Structure) => STRUCTURE
    case Open(_, Array) => ARRAY
    case Close => END_OF_CONTAINER
  }

  /** The element that a call means. */
  function Meaning(c: Call): Item {
    Item(ElementType(c), if c.Close? then 0 else c.tag,
         if c.PutScalar? then c.value else if c.PutText? then c.text else [])
  }

  predicate IsScalar(t: u8) {
    t == SIGNED_INT || t == UNSIGNED_INT || t == BOOLEAN || t == FLOAT
  }

  predicate IsString(t: u8) {
    t == UTF8_STRING || t == BYTE_STRING
  }

  predicate IsOpen(t: u8) {
    t == STRUCTURE || t == ARRAY || t == LIST
  }

  function Control(t: u8, tag: u8): (c: u8)
    requires t < 0x20
  {
    t + (tag % 8) * 0x20
  }

  /** The control byte and the length of the value, if it has one. */
  function Prefix(c: Call): seq<u8> {
    [Control(Meaning(c).elementType, Meaning(c).tag)]
    + (if c.PutScalar? then [|c.value|] else if c.PutText? then LengthBytes(|c.text|) else [])
  }

  /** The bytes that a call appends. */
  function Encoded(c: Call): seq<u8> {
    Prefix(c) + Meaning(c).value
  }

  /** A length as the writer casts it to sixteen bits. */
  function LengthBytes(n: nat): (b: seq<u8>)
    ensures |b| == 2 && Word(b[0], b[1]) == n % 0x1_0000
  {
    var len := n % 0x1_0000;
    [len % 0x100, len / 0x100]
  }

  function EncodedAll(calls: seq<Call>): seq<u8>
  {
    if calls == [] then [] else Encoded(calls[0]) + EncodedAll(calls[1..])
  }

  /** The octets of every call. */
  lemma OctetsOnTheWire(c: Call)
    ensures match c
      case PutScalar(tag, kind, value) =>
        Encoded(c) == [(match kind case Signed => 0x00 case Unsigned => 0x04 case Boolean => 0x08) + tag % 8 * 0x20,
                       |value|] + value
      case PutText(tag, kind, text) =>
        Encoded(c) == [(match kind case Utf8 => 0x0C case Octets => 0x10) + tag % 8 * 0x20,
                       |text| % 0x100, |text| / 0x100 % 0x100] + text
      case PutNull(tag) => Encoded(c) == [0x14 + tag % 8 * 0x20]
      case Open(tag, kind) => Encoded(c) == [(match kind case Structure => 0x15 case Array => 0x16) + tag % 8 * 0x20]
      case Close => Encoded(c) == [0x18]
  {
    hide Word;
    if c.PutText? { LengthOctets(|c.text|); }
  }

  lemma LengthOctets(n: nat)
    ensures LengthBytes(n) == [n % 0x100, n / 0x100 % 0x100]
  {
    var q, len := n / 0x1_0000, n % 0x1_0000;
    assert n == 0x1_0000 * q + len;
    assert n / 0x100 == 0x100 * q + len / 0x100;
  }

  class TLVWriter {
    var buffer: seq<u8>

    constructor (initial: seq<u8>)
      ensures buffer == initial
    {
      buffer := initial;
    }

    method WriteTagType(tag: u8, t: u8)
      requires t < 0x20
      modifies this
      ensures buffer == old(buffer) + [Control(t, tag)]
    {
      buffer := buffer + [t + (tag % 8) * 0x20];
    }

    method WriteUint8(tag: u8, value: u8)
      modifies this
      ensures buffer == old(buffer) + Encoded(PutScalar(tag, Unsigned, Le(value, 1)))
    {
      WriteTagType(tag, UNSIGNED_INT);
      buffer := buffer + [1];
      buffer := buffer + [value];
    }

    method WriteUint16(tag: u8, value: u16)
      modifies this
      ensures buffer == old(buffer) + Encoded(PutScalar(tag, Unsigned, Le(value, 2)))
    {
      WriteTagType(tag, UNSIGNED_INT);
      buffer := buffer + [2];
      buffer := PutLe(buffer, value, 2);
    }

    method WriteUint32(tag: u8, value: u32)
      modifies this
      ensures buffer == old(buffer) + Encoded(PutScalar(tag, Unsigned, Le(value, 4)))
    {
      WriteTagType(tag, UNSIGNED_INT);
      buffer := buffer + [4];
      buffer := PutLe(buffer, value, 4);
    }

    method WriteUint64(tag: u8, value: u64)
      modifies this
      ensures buffer == old(buffer) + Encoded(PutScalar(tag, Unsigned, Le(value, 8)))
    {
      WriteTagType(tag, UNSIGNED_INT);
      buffer := buffer + [8];
      buffer := PutLe(buffer, value, 8);
    }

    method WriteInt32(tag: u8, value: i32)
      modifies this
      ensures buffer == old(buffer) + Encoded(PutScalar(tag, Signed, Le(Unsigned32(value), 4)))
    {
      WriteTagType(tag, SIGNED_INT);
      buffer := buffer + [4];
      buffer := PutLe(buffer, Unsigned32(value), 4);
    }

    method WriteBool(tag: u8, value: bool)
      modifies this
      ensures buffer == old(buffer) + Encoded(PutScalar(tag, Boolean, [if value then 1 else 0]))
    {
      WriteTagType(tag, BOOLEAN);
      buffer := buffer + [1];
      buffer := buffer + [if value then 1 else 0];
    }

    method WriteString(tag: u8, value: seq<u8>)
      modifies this
      ensures buffer == old(buffer) + Encoded(PutText(tag, Utf8, value))
    {
      WriteTagType(tag, UTF8_STRING);
      buffer := buffer + LengthBytes(|value|);
      buffer := buffer + value;
    }

    method WriteBytes(tag: u8, value: seq<u8>)
      modifies this
      ensures buffer == old(buffer) + Encoded(PutText(tag, Octets, value))
    {
      WriteTagType(tag, BYTE_STRING);
      buffer := buffer + LengthBytes(|value|);
      buffer := buffer + value;
    }

    method WriteNull(tag: u8)
      modifies this
      ensures buffer == old(buffer) + Encoded(PutNull(tag))
    {
      WriteTagType(tag, NULL);
    }

    method WriteOpenStructure(tag: u8)
      modifies this
      ensures buffer == old(buffer) + Encoded(Open(tag, Structure))
    {
      WriteTagType(tag, STRUCTURE);
    }

    method WriteOpenArray(tag: u8)
      modifies this
      ensures buffer == old(buffer) + Encoded(Open(tag, Array))
    {
      WriteTagType(tag, ARRAY);
    }

    method WriteCloseContainer()
      modifies this
      ensures buffer == old(buffer) + Encoded(Close)
    {
      buffer := buffer + [END_OF_CONTAINER];
    }
  }

  // ---------------------------------------------------------------------
  // Reading.
  // ---------------------------------------------------------------------

  /** Where the value of the element at `pos` starts, and how long it says it is. */
  function ValueSpan(data: seq<u8>, pos: nat): (nat, nat)
    requires pos < |data|
  {
    var t := data[pos] % 0x20;
    if IsScalar(t) && pos + 1 < |data| then (pos + 2, data[pos + 1])
    else if IsString(t) && pos + 2 < |data| then (pos + 3, Word(data[pos + 1], data[pos + 2]))
    else (pos + 1, 0)
  }

  function StepPos(data: seq<u8>, pos: nat): (p: nat)
    requires pos < |data|
    ensures p > pos
  {
    ValueSpan(data, pos).0 + ValueSpan(data, pos).1
  }

  /** The cursor after leaving `depth` containers, or the end of the data. */
  function ExitPos(data: seq<u8>, pos: nat, depth: nat): nat
    decreases |data| - pos
  {
    if depth == 0 || pos >= |data| then pos
    else
      var t := data[pos] % 0x20;
      ExitPos(data, StepPos(data, pos),
              if IsOpen(t) then depth + 1 else if t == END_OF_CONTAINER then depth - 1 else depth)
  }

  class TLVReader {
    const data: seq<u8>
    var pos: nat
    var currentType: u8
    var currentTag: u8
    var valueOffset: nat
    var valueLen: nat

    constructor (data: seq<u8>)
      ensures this.data == data && pos == 0 && currentType == NULL && currentTag == 0 && valueOffset == valueLen == 0
    {
      this.data := data;
      pos, currentType, currentTag, valueOffset, valueLen := 0, NULL, 0, 0, 0;
    }

    method Next() returns (more: bool)
      modifies this
      ensures more <==> old(pos) < |data|
      ensures !more ==> pos == old(pos) && currentType == old(currentType)
      ensures more ==>
                && currentType == data[old(pos)] % 0x20 && currentTag == data[old(pos)] / 0x20
                && (valueOffset, valueLen) == ValueSpan(data, old(pos)) && pos == StepPos(data, old(pos))
      ensures more && currentType in {0x00, 0x04, 0x08, 0x0A} && old(pos) + 1 < |data| ==>
                valueOffset == old(pos) + 2 && valueLen == data[old(pos) + 1]
      ensures more && currentType in {0x0C, 0x10} && old(pos) + 2 < |data| ==>
                valueOffset == old(pos) + 3 && valueLen == Word(data[old(pos) + 1], data[old(pos) + 2])
      ensures more && (currentType !in {0x00, 0x04, 0x08, 0x0A, 0x0C, 0x10} || old(pos) + 1 >= |data|
                       || (currentType in {0x0C, 0x10} && old(pos) + 2 >= |data|)) ==>
                valueOffset == old(pos) + 1 && valueLen == 0
      ensures more ==> pos == valueOffset + valueLen
    {
      if pos >= |data| { return false; }
      var control := data[pos];
      pos := pos + 1;
      currentTag := (control / 0x20) % 8;
      currentType := control % 0x20;
      valueOffset := pos;
      valueLen := 0;
      if IsScalar(currentType) {
        if pos < |data| {
          valueLen := data[pos];
          pos := pos + 1;
          valueOffset := pos;
          pos := pos + valueLen;
        }
      } else if IsString(currentType) {
        if pos + 1 < |data| {
          var len: nat := Word(data[pos], data[pos + 1]);
          pos := pos + 2;
          valueOffset := pos;
          valueLen := len;
          pos := pos + len;
        }
      }
      return true;
    }

    method ExitContainer()
      modifies this
      ensures pos == ExitPos(data, old(pos), 1)
    {
      var depth := 1;
      while depth > 0 && pos < |data|
        invariant depth >= 0
        invariant ExitPos(data, pos, depth) == ExitPos(data, old(pos), 1)
        decreases |data| - pos
      {
        var more := Next();
        if more {
          if IsOpen(currentType) {
            depth := depth + 1;
          } else if currentType == END_OF_CONTAINER {
            depth := depth - 1;
          }
        } else {
          break;
        }
      }
    }
  }

  // ---------------------------------------------------------------------
  // Reading back what was written.
  // ---------------------------------------------------------------------

  /** What the codec can carry: tags of three bits, strings of sixteen-bit length. */
  predicate Carried(c: Call) {
    (c.Close? || c.tag < 8) && (c.PutText? ==> |c.text| < 0x1_0000)
  }

  /** The element read at `pos`, if its value is all there. */
  function ItemAt(data: seq<u8>, pos: nat): Option<Item>
    requires pos < |data|
  {
    var (offset, len) := ValueSpan(data, pos);
    if offset + len <= |data| then Some(Item(data[pos] % 0x20, data[pos] / 0x20, data[offset..offset + len])) else None
  }

  /** What the first bytes of an encoded call tell the reader. */
  lemma EncodedHead(c: Call, data: seq<u8>, pos: nat)
    requires At(data, pos, Encoded(c))
    ensures pos < |data| && data[pos] % 0x20 == ElementType(c) && data[pos] / 0x20 == Meaning(c).tag % 8
    ensures ValueSpan(data, pos) ==
            if c.PutScalar? then (pos + 2, |c.value|)
            else if c.PutText? then (pos + 3, |c.text| % 0x1_0000) else (pos + 1, 0)
    ensures |Prefix(c)| == if c.PutScalar? then 2 else if c.PutText? then 3 else 1
  {
    var e := Prefix(c);
    AtSplit(data, pos, e, Meaning(c).value);
    assert e[0] == Control(ElementType(c), Meaning(c).tag);
    if c.PutScalar? {
      assert e[1] == |c.value|;
    } else if c.PutText? {
      assert e[1] == LengthBytes(|c.text|)[0] && e[2] == LengthBytes(|c.text|)[1];
    }
  }

  /** One element is read back exactly, and the cursor moves just past it, whenever the codec can
      carry it. */
  lemma ElementRoundTrip(c: Call, data: seq<u8>, pos: nat)
    requires Carried(c) && At(data, pos, Encoded(c))
    ensures pos < |data| && ItemAt(data, pos) == Some(Meaning(c)) && StepPos(data, pos) == pos + |Encoded(c)|
  {
    hide Prefix, ValueSpan;
    EncodedHead(c, data, pos);
    AtSplit(data, pos, Prefix(c), Meaning(c).value);
    AtSlice(data, pos + |Prefix(c)|, Meaning(c).value);
  }

  /** And only then: an element alone in its buffer is read back as what was written exactly when
      its tag has three bits and its string is short enough. */
  lemma ElementRoundTripIff(c: Call)
    ensures Encoded(c) != [] && (ItemAt(Encoded(c), 0) == Some(Meaning(c)) <==> Carried(c))
  {
    var data := Encoded(c);
    EncodedHead(c, data, 0);
    if Carried(c) { ElementRoundTrip(c, data, 0); }
  }

  function ReadAll(data: seq<u8>, pos: nat): seq<Option<Item>>
    decreases |data| - pos
  {
    if pos >= |data| then [] else [ItemAt(data, pos)] + ReadAll(data, StepPos(data, pos))
  }

  function Meanings(calls: seq<Call>): seq<Option<Item>> {
    if calls == [] then [] else [Some(Meaning(calls[0]))] + Meanings(calls[1..])
  }

  /** Reading element by element returns the tags, types and values written, in order. */
  lemma {:induction false} ReadingReturnsWritten(calls: seq<Call>, data: seq<u8>, pos: nat)
    requires forall c | c in calls :: Carried(c)
    requires At(data, pos, EncodedAll(calls)) && pos + |EncodedAll(calls)| == |data|
    ensures ReadAll(data, pos) == Meanings(calls)
    decreases |calls|
  {
    hide Encoded, ItemAt, StepPos, At;
    if calls != [] {
      var e, rest := Encoded(calls[0]), EncodedAll(calls[1..]);
      AtSplit(data, pos, e, rest);
      ElementRoundTrip(calls[0], data, pos);
      ReadingReturnsWritten(calls[1..], data, pos + |e|);
      ReadOne(data, pos, pos + |e|, Meaning(calls[0]));
    }
  }

  lemma ReadOne(data: seq<u8>, pos: nat, next: nat, m: Item)
    requires pos < |data| && ItemAt(data, pos) == Some(m) && StepPos(data, pos) == next
    ensures ReadAll(data, pos) == [Some(m)] + ReadAll(data, next)
  {
  }

  // ---------------------------------------------------------------------
  // Skipping containers.
  // ---------------------------------------------------------------------

  /** A well-nested element: a value or null, or a container of elements. */
  datatype Tree = Leaf(call: Call) | Container(tag: u8, kind: ContainerKind, children: seq<Tree>)

  /** The calls that write a tree. */
  function Calls(t: Tree): seq<Call>
    decreases t, 1
  {
    match t
    case Leaf(c) => [c]
    case Container(tag, kind, children) => [Open(tag, kind)] + CallsOf(children) + [Close]
  }

  function CallsOf(ts: seq<Tree>): seq<Call>
    decreases ts, 0
  {
    if ts == [] then [] else Calls(ts[0]) + CallsOf(ts[1..])
  }

  predicate CarriedTree(t: Tree)
    decreases t
  {
    match t
    case Leaf(c) => Carried(c) && !c.Open? && !c.Close?
    case Container(tag, _, children) => tag < 8 && forall i | 0 <= i < |children| :: CarriedTree(children[i])
  }

  lemma {:induction false} CarriedCalls(t: Tree)
    requires CarriedTree(t)
    ensures forall c | c in Calls(t) :: Carried(c)
    decreases t, 1
  {
    if t.Container? { CarriedCallsOf(t.children); }
  }

  lemma {:induction false} CarriedCallsOf(ts: seq<Tree>)
    requires forall i | 0 <= i < |ts| :: CarriedTree(ts[i])
    ensures forall c | c in CallsOf(ts) :: Carried(c)
    decreases ts, 0
  {
    if ts != [] {
      CarriedCalls(ts[0]);
      CarriedCallsOf(ts[1..]);
    }
  }

  function DepthAfter(c: Call, depth: nat): nat
    requires depth > 0
  {
    if c.Open? then depth + 1 else if c.Close? then depth - 1 else depth
  }

  /** Read one after another from nesting depth `d`, the calls never close the outermost container
      before the last of them, and end at depth `e`. */
  predicate Stays(calls: seq<Call>, d: nat, e: nat)
    decreases |calls|
  {
    if calls == [] then d == e else d > 0 && Stays(calls[1..], DepthAfter(calls[0], d), e)
  }

  lemma {:induction false} StaysConcat(a: seq<Call>, b: seq<Call>, d: nat, e: nat, f: nat)
    requires Stays(a, d, e) && Stays(b, e, f)
    ensures Stays(a + b, d, f)
    decreases |a|
  {
    if a == [] {
      assert a + b == b;
    } else {
      assert (a + b)[0] == a[0] && (a + b)[1..] == a[1..] + b;
      StaysConcat(a[1..], b, DepthAfter(a[0], d), e, f);
    }
  }

  lemma StaysOne(c: Call, d: nat)
    requires d > 0
    ensures Stays([c], d, DepthAfter(c, d))
  {
    assert [c][1..] == [];
  }

  lemma {:induction false} TreeStays(t: Tree, d: nat)
    requires CarriedTree(t) && d > 0
    ensures Stays(Calls(t), d, d)
    decreases t, 1
  {
    match t
    case Leaf(c) => StaysOne(c, d);
    case Container(tag, kind, children) =>
      var open := Open(tag, kind);
      StaysOne(open, d);
      TreesStay(children, d + 1);
      StaysConcat([open], CallsOf(children), d, d + 1, d + 1);
      StaysOne(Close, d + 1);
      StaysConcat([open] + CallsOf(children), [Close], d, d + 1, d);
  }

  lemma {:induction false} TreesStay(ts: seq<Tree>, d: nat)
    requires (forall i | 0 <= i < |ts| :: CarriedTree(ts[i])) && d > 0
    ensures Stays(CallsOf(ts), d, d)
    decreases ts, 0
  {
    if ts != [] {
      TreeStays(ts[0], d);
      TreesStay(ts[1..], d);
      StaysConcat(Calls(ts[0]), CallsOf(ts[1..]), d, d, d);
    }
  }

  lemma SkipCall(c: Call, data: seq<u8>, pos: nat, depth: nat)
    requires Carried(c) && depth > 0 && At(data, pos, Encoded(c))
    ensures ExitPos(data, pos, depth) == ExitPos(data, pos + |Encoded(c)|, DepthAfter(c, depth))
  {
    ElementRoundTrip(c, data, pos);
    assert data[pos] % 0x20 == Meaning(c).elementType;
  }

  /** Skipping passes over what was written, as long as it stays inside. */
  lemma {:induction false} SkipCalls(calls: seq<Call>, data: seq<u8>, pos: nat, d: nat, e: nat)
    requires (forall c | c in calls :: Carried(c)) && Stays(calls, d, e) && At(data, pos, EncodedAll(calls))
    ensures ExitPos(data, pos, d) == ExitPos(data, pos + |EncodedAll(calls)|, e)
    decreases |calls|
  {
    hide Encoded, ExitPos, At;
    if calls != [] {
      AtSplit(data, pos, Encoded(calls[0]), EncodedAll(calls[1..]));
      SkipCall(calls[0], data, pos, d);
      SkipCalls(calls[1..], data, pos + |Encoded(calls[0])|, DepthAfter(calls[0], d), e);
    }
  }

  lemma OpenFirst(t: Tree)
    requires t.Container?
    ensures EncodedAll(Calls(t)) ==
            Encoded(Open(t.tag, t.kind)) + EncodedAll(Rest(t))
  {
    var open, rest := Open(t.tag, t.kind), Rest(t);
    assert Calls(t) == [open] + rest;
    assert Calls(t)[0] == open && Calls(t)[1..] == rest;
  }

  lemma SkipToClose(calls: seq<Call>, data: seq<u8>, pos: nat)
    requires (forall c | c in calls :: Carried(c)) && Stays(calls, 1, 0) && At(data, pos, EncodedAll(calls))
    ensures ExitPos(data, pos, 1) == pos + |EncodedAll(calls)|
  {
    SkipCalls(calls, data, pos, 1, 0);
  }

  /** The contents of a container, up to and with its close. */
  function Rest(t: Tree): seq<Call>
    requires t.Container?
  {
    CallsOf(t.children) + [Close]
  }

  lemma RestStays(t: Tree)
    requires t.Container? && CarriedTree(t)
    ensures Stays(Rest(t), 1, 0) && forall c | c in Rest(t) :: Carried(c)
  {
    CarriedCallsOf(t.children);
    TreesStay(t.children, 1);
    StaysOne(Close, 1);
    StaysConcat(CallsOf(t.children), [Close], 1, 1, 0);
  }

  lemma Opened(t: Tree, data: seq<u8>, pos: nat)
    requires t.Container? && CarriedTree(t) && At(data, pos, EncodedAll(Calls(t)))
    ensures pos < |data| && IsOpen(data[pos] % 0x20) && data[pos] / 0x20 == t.tag
    ensures At(data, StepPos(data, pos), EncodedAll(Rest(t)))
    ensures StepPos(data, pos) + |EncodedAll(Rest(t))| == pos + |EncodedAll(Calls(t))|
  {
    var open := Open(t.tag, t.kind);
    OpenFirst(t);
    AtSplit(data, pos, Encoded(open), EncodedAll(Rest(t)));
    ElementRoundTrip(open, data, pos);
  }

  /** Leaving a container just after opening it puts the cursor just past its matching close,
      wherever the container stands and however deeply its contents nest. */
  lemma ExitReachesMatchingClose(t: Tree, data: seq<u8>, pos: nat)
    requires t.Container? && CarriedTree(t) && At(data, pos, EncodedAll(Calls(t)))
    ensures pos < |data| && IsOpen(data[pos] % 0x20) && data[pos] / 0x20 == t.tag
    ensures ExitPos(data, StepPos(data, pos), 1) == pos + |EncodedAll(Calls(t))|
  {
    Opened(t, data, pos);
    RestStays(t);
    SkipToClose(Rest(t), data, StepPos(data, pos));
  }

  // ---------------------------------------------------------------------
  // The widening getters.
  // ---------------------------------------------------------------------

  function GetUint8(value: seq<u8>): u8 {
    if |value| < 1 then 0 else value[0]
  }

  function GetUint16(value: seq<u8>): u16 {
    if |value| < 2 then GetUint8(value) else Word(value[0], value[1])
  }

  function GetUint32(value: seq<u8>): u32 {
    if |value| < 4 then GetUint16(value)
    else Widths(); FromLeBound(value[..4]); FromLe(value[..4])
  }

  function GetUint64(value: seq<u8>): u64 {
    if |value| < 8 then GetUint32(value)
    else Widths(); FromLeBound(value[..8]); FromLe(value[..8])
  }

  function GetInt32(value: seq<u8>): i32 {
    Signed32(GetUint32(value))
  }

  /** Whatever the width an unsigned integer was written in, each getter returns it reduced to the
      getter's own width; so a wider or equal getter returns it unchanged. */
  lemma GettersReduceToWidth(v: nat, n: nat)
    requires (n == 1 || n == 2 || n == 4 || n == 8) && v < Pow256(n)
    ensures GetUint8(Le(v, n)) == v % 0x100 && GetUint16(Le(v, n)) == v % 0x1_0000
    ensures GetUint32(Le(v, n)) == v % 0x1_0000_0000 && GetUint64(Le(v, n)) == v
  {
    LeRoundTrip(v, n);
    Low(v, n, 1);
    if n >= 2 { Low(v, n, 2); WordOfTwo(Le(v, n)[..2]); }
    if n >= 4 { Low(v, n, 4); }
    if n == 8 { assert Le(v, n)[..8] == Le(v, n); }
    Widths();
  }

  lemma Low(v: nat, n: nat, k: nat)
    requires k <= n
    ensures FromLe(Le(v, n)[..k]) == v % Pow256(k)
  {
    LePrefix(v, n, k);
    FromLeBound(Le(v, k));
    LeSplit(v, k);
    ModOfSplit(v, Pow256(k), ShiftRight(v, k), FromLe(Le(v, k)));
  }

  /** A signed integer comes back with its sign. */
  lemma Int32RoundTrip(v: i32)
    ensures GetInt32(Le(Unsigned32(v), 4)) == v
  {
    Widths();
    GettersReduceToWidth(Unsigned32(v), 4);
  }
}
