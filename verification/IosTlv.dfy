/** The TLV codec of the iOS app (ios/MatterAI/Core/TLVCodec.cpp), whose control octet follows
    Appendix A.7 of the Matter Core Specification: the element type in the low five bits, the tag
    control in the high three. Floats are their bit patterns. */
module IosTlv {
  import opened Types
  import opened Bytes

  const SIGNED_INT_8: u8 := 0x00
  const UNSIGNED_INT_8: u8 := 0x04
  const BOOL_FALSE: u8 := 0x08
  const BOOL_TRUE: u8 := 0x09
  const FLOAT_32: u8 := 0x0A
  const FLOAT_64: u8 := 0x0B
  const UTF8_STRING_1: u8 := 0x0C
  const UTF8_STRING_2: u8 := 0x0D
  const BYTE_STRING_1: u8 := 0x10
  const BYTE_STRING_2: u8 := 0x11
  const NULL: u8 := 0x14
  const STRUCTURE: u8 := 0x15
  const ARRAY: u8 := 0x16
  const LIST: u8 := 0x17
  const END_CONTAINER: u8 := 0x18
  const CONTEXT_SPECIFIC: u8 := 0x20

  datatype Element = Element(
    elementType: u8, contextTag: Option<u8>, intVal: int, uintVal: nat, boolVal: bool,
    floatBits: nat, doubleBits: nat, strVal: seq<u8>, bytesVal: seq<u8>)

  /** The calls of the writer. */
  datatype Call =
    | StartStructure(tag: Option<u8>)
    | StartArray(tag: Option<u8>)
    | EndContainer
    | PutBool(tag: Option<u8>, b: bool)
    | PutInt(tag: Option<u8>, i: i64)
    | PutUint(tag: Option<u8>, u: u64)
    | PutFloat(tag: Option<u8>, bits: u32)
    | PutString(tag: Option<u8>, text: seq<u8>)
    | PutBytes(tag: Option<u8>, text: seq<u8>)
    | PutNull(tag: Option<u8>)

  /** What a reader should make of an element, given its type. */
  function Plain(t: u8, tag: Option<u8>): Element {
    Element(t, tag, 0, 0, t == BOOL_TRUE, 0, 0, [], [])
  }

  /** Code 0..3 of the width 1, 2, 4 or 8 of a number. */
  function Width(code: nat): nat {
    if code == 0 then 1 else if code == 1 then 2 else if code == 2 then 4 else 8
  }

  predicate FitsSigned(v: int, code: nat) {
    -Pow256(Width(code)) <= 2 * v < Pow256(Width(code))
  }

  predicate FitsUnsigned(v: nat, code: nat) {
    v < Pow256(Width(code))
  }

  /** The narrowest width that holds a signed integer. */
  function SignedCode(v: i64): (code: nat)
    ensures code < 4 && FitsSigned(v, code) && forall k: nat | k < code :: !FitsSigned(v, k)
  {
    Widths();
    if -0x80 <= v <= 0x7F then 0
    else if -0x8000 <= v <= 0x7FFF then 1
    else if -0x8000_0000 <= v <= 0x7FFF_FFFF then 2
    else 3
  }

  function UnsignedCode(v: u64): (code: nat)
    ensures code < 4 && FitsUnsigned(v, code) && forall k: nat | k < code :: !FitsUnsigned(v, k)
  {
    Widths();
    if v <= 0xFF then 0 else if v <= 0xFFFF then 1 else if v <= 0xFFFF_FFFF then 2 else 3
  }

  /** Strings of up to 255 bytes have a one-byte length, longer ones two bytes. */
  function LongForm(text: seq<u8>): u8 {
    if |text| <= 0xFF then 0 else 1
  }

  function TypeOf(c: Call): (t: u8)
    ensures t < 0x20
  {
    match c
    case StartStructure(_) => STRUCTURE
    case StartArray(_) => ARRAY
    case EndContainer => END_CONTAINER
    case PutBool(_, b) => if b then BOOL_TRUE else BOOL_FALSE
    case PutInt(_, v) => SIGNED_INT_8 + SignedCode(v)
    case PutUint(_, v) => UNSIGNED_INT_8 + UnsignedCode(v)
    case PutFloat(_, _) => FLOAT_32
    case PutString(_, s) => UTF8_STRING_1 + LongForm(s)
    case PutBytes(_, s) => BYTE_STRING_1 + LongForm(s)
    case PutNull(_) => NULL
  }

  function TagOf(c: Call): Option<u8> {
    if c.EndContainer? then None else c.tag
  }

  /** The element that a call means. */
  function Meaning(c: Call): Element {
    var e := Plain(TypeOf(c), TagOf(c));
    match c
    case PutInt(_, v) => e.(intVal := v)
    case PutUint(_, v) => e.(uintVal := v)
    case PutFloat(_, bits) => e.(floatBits := bits)
    case PutString(_, s) => e.(strVal := s)
    case PutBytes(_, s) => e.(bytesVal := s)
    case _ => e
  }

  /** The element holds what the call was given. */
  lemma MeaningHolds(c: Call)
    ensures var e := Meaning(c);
      && e.contextTag == (if c.EndContainer? then None else c.tag)
      && match c
         case PutBool(_, b) => e.boolVal == b
         case PutInt(_, v) => e.intVal == v
         case PutUint(_, v) => e.uintVal == v
         case PutFloat(_, bits) => e.floatBits == bits
         case PutString(_, s) => e.strVal == s && e.bytesVal == []
         case PutBytes(_, s) => e.bytesVal == s && e.strVal == []
         case _ => true
  {
  }

  // ---------------------------------------------------------------------
  // Bytes.
  // ---------------------------------------------------------------------

  /** How many bytes of a number follow the tag. */
  function FixedWidth(t: u8): nat {
    if t < 8 then Width(t % 4) else if t == FLOAT_32 then Width(2) else if t == FLOAT_64 then Width(3) else 0
  }

  /** How many bytes of a length follow the tag. */
  function LengthWidth(t: u8): nat {
    if t == UTF8_STRING_1 || t == BYTE_STRING_1 then 1
    else if t == UTF8_STRING_2 || t == BYTE_STRING_2 then 2
    else 0
  }

  /** The cast to an unsigned number of width w. */
  function Unsigned(v: int, w: nat): nat
    requires -Pow256(w) <= 2 * v < Pow256(w)
  {
    if v < 0 then v + Pow256(w) else v
  }

  function SignExtended(raw: nat, w: nat): int {
    if 2 * raw >= Pow256(w) then raw - Pow256(w) else raw
  }

  /** The number whose bytes follow the tag. */
  function NumberOf(c: Call): nat {
    match c
    case PutInt(_, v) => Unsigned(v, Width(SignedCode(v)))
    case PutUint(_, v) => v
    case PutFloat(_, bits) => bits
    case _ => 0
  }

  function TextOf(c: Call): seq<u8> {
    if c.PutString? || c.PutBytes? then c.text else []
  }

  function Head(t: u8, tag: Option<u8>): seq<u8>
    requires t < 0x20
  {
    if tag.Some? then [t + CONTEXT_SPECIFIC, tag.value] else [t]
  }

  function Body(c: Call): seq<u8> {
    var t := TypeOf(c);
    if LengthWidth(t) > 0 then Le(|TextOf(c)|, LengthWidth(t)) + TextOf(c) else Le(NumberOf(c), FixedWidth(t))
  }

  /** The bytes that a call appends. */
  function Encoded(c: Call): seq<u8> {
    Head(TypeOf(c), TagOf(c)) + Body(c)
  }

  function EncodedAll(calls: seq<Call>): seq<u8> {
    if calls == [] then [] else Encoded(calls[0]) + EncodedAll(calls[1..])
  }

  /** The octets of the calls without a value. */
  lemma OctetsOnTheWire(tag: Option<u8>, b: bool)
    ensures Encoded(StartStructure(tag)) == if tag.Some? then [0x35, tag.value] else [0x15]
    ensures Encoded(StartArray(tag)) == if tag.Some? then [0x36, tag.value] else [0x16]
    ensures Encoded(PutNull(tag)) == if tag.Some? then [0x34, tag.value] else [0x14]
    ensures Encoded(PutBool(tag, b)) ==
      if tag.Some? then [if b then 0x29 else 0x28, tag.value] else [if b then 0x09 else 0x08]
    ensures Encoded(EndContainer) == [0x18]
  {
    hide Pow256;
    assert Le(0, 0) == [];
  }

  /** The control octet of the calls with a value, the tag, and what follows. */
  lemma ValueOnTheWire(tag: Option<u8>, v: i64, u: u64, bits: u32, text: seq<u8>)
    ensures Encoded(PutInt(tag, v))[0] == (if tag.Some? then 0x20 else 0x00) + SignedCode(v)
    ensures Encoded(PutUint(tag, u)) == Head(0x04 + UnsignedCode(u), tag) + Le(u, Width(UnsignedCode(u)))
    ensures Encoded(PutFloat(tag, bits)) == Head(0x0A, tag) + Le(bits, 4)
    ensures Encoded(PutString(tag, text)) ==
      if |text| <= 255 then Head(0x0C, tag) + (Le(|text|, 1) + text) else Head(0x0D, tag) + (Le(|text|, 2) + text)
    ensures Encoded(PutBytes(tag, text)) ==
      if |text| <= 255 then Head(0x10, tag) + (Le(|text|, 1) + text) else Head(0x11, tag) + (Le(|text|, 2) + text)
  {
    hide Le, Pow256, FitsSigned, FitsUnsigned;
  }

  class Writer {
    var buffer: seq<u8>

    constructor ()
      ensures buffer == []
    {
      buffer := [];
    }

    method WriteControlAndTag(t: u8, tag: Option<u8>)
      requires t < 0x20
      modifies this
      ensures buffer == old(buffer) + Head(t, tag)
    {
      if tag.Some? {
        buffer := buffer + [t + CONTEXT_SPECIFIC];
        buffer := buffer + [tag.value];
      } else {
        buffer := buffer + [t];
      }
    }

    method WriteNumber(t: u8, tag: Option<u8>, v: nat, w: nat)
      requires t < 0x20
      modifies this
      ensures buffer == old(buffer) + (Head(t, tag) + Le(v, w))
    {
      WriteControlAndTag(t, tag);
      buffer := PutLe(buffer, v, w);
    }

    method WriteText(t: u8, tag: Option<u8>, text: seq<u8>, w: nat)
      requires t < 0x20
      modifies this
      ensures buffer == old(buffer) + (Head(t, tag) + (Le(|text|, w) + text))
    {
      WriteNumber(t, tag, |text|, w);
      buffer := buffer + text;
    }

    method WriteStructure(tag: Option<u8>)
      modifies this
      ensures buffer == old(buffer) + Encoded(StartStructure(tag))
    {
      WriteControlAndTag(STRUCTURE, tag);
    }

    method WriteArray(tag: Option<u8>)
      modifies this
      ensures buffer == old(buffer) + Encoded(StartArray(tag))
    {
      WriteControlAndTag(ARRAY, tag);
    }

    method WriteEnd()
      modifies this
      ensures buffer == old(buffer) + Encoded(EndContainer)
    {
      buffer := buffer + [END_CONTAINER];
    }

    method WriteBool(tag: Option<u8>, value: bool)
      modifies this
      ensures buffer == old(buffer) + Encoded(PutBool(tag, value))
    {
      WriteControlAndTag(if value then BOOL_TRUE else BOOL_FALSE, tag);
    }

    method WriteInt(tag: Option<u8>, value: i64)
      modifies this
      ensures buffer == old(buffer) + Encoded(PutInt(tag, value))
    {
      if -0x80 <= value <= 0x7F {
        WriteNumber(SIGNED_INT_8, tag, Unsigned(value, Width(0)), Width(0));
      } else if -0x8000 <= value <= 0x7FFF {
        WriteNumber(SIGNED_INT_8 + 1, tag, Unsigned(value, Width(1)), Width(1));
      } else if -0x8000_0000 <= value <= 0x7FFF_FFFF {
        WriteNumber(SIGNED_INT_8 + 2, tag, Unsigned(value, Width(2)), Width(2));
      } else {
        WriteNumber(SIGNED_INT_8 + 3, tag, Unsigned(value, Width(3)), Width(3));
      }
    }

    method WriteUint(tag: Option<u8>, value: u64)
      modifies this
      ensures buffer == old(buffer) + Encoded(PutUint(tag, value))
    {
      hide Le, Pow256, FitsUnsigned;
      if value <= 0xFF {
        WriteNumber(UNSIGNED_INT_8, tag, value, Width(0));
      } else if value <= 0xFFFF {
        WriteNumber(UNSIGNED_INT_8 + 1, tag, value, Width(1));
      } else if value <= 0xFFFF_FFFF {
        WriteNumber(UNSIGNED_INT_8 + 2, tag, value, Width(2));
      } else {
        WriteNumber(UNSIGNED_INT_8 + 3, tag, value, Width(3));
      }
    }

    method WriteFloat(tag: Option<u8>, bits: u32)
      modifies this
      ensures buffer == old(buffer) + Encoded(PutFloat(tag, bits))
    {
      WriteNumber(FLOAT_32, tag, bits, Width(2));
    }

    method WriteString(tag: Option<u8>, value: seq<u8>)
      modifies this
      ensures buffer == old(buffer) + Encoded(PutString(tag, value))
    {
      if |value| <= 0xFF {
        WriteText(UTF8_STRING_1, tag, value, 1);
      } else {
        WriteText(UTF8_STRING_2, tag, value, 2);
      }
    }

    method WriteBytes(tag: Option<u8>, value: seq<u8>)
      modifies this
      ensures buffer == old(buffer) + Encoded(PutBytes(tag, value))
    {
      if |value| <= 0xFF {
        WriteText(BYTE_STRING_1, tag, value, 1);
      } else {
        WriteText(BYTE_STRING_2, tag, value, 2);
      }
    }

    method WriteNull(tag: Option<u8>)
      modifies this
      ensures buffer == old(buffer) + Encoded(PutNull(tag))
    {
      WriteControlAndTag(NULL, tag);
    }
  }

  // ---------------------------------------------------------------------
  // Reading.
  // ---------------------------------------------------------------------

  /** The end of the data; a read past it, which throws; a string that runs past it, which the
      program does not check; or an element and where the next one starts. */
  datatype Outcome = End | Thrown | Overrun | Got(element: Element, next: nat)

  function NumberElement(t: u8, tag: Option<u8>, raw: nat): Element {
    var e := Plain(t, tag);
    if t < 4 then e.(intVal := SignExtended(raw, Width(t % 4)))
    else if t < 8 then e.(uintVal := raw)
    else if t == FLOAT_32 then e.(floatBits := raw)
    else if t == FLOAT_64 then e.(doubleBits := raw)
    else e
  }

  function TextElement(t: u8, tag: Option<u8>, text: seq<u8>): Element {
    var e := Plain(t, tag);
    if t == UTF8_STRING_1 || t == UTF8_STRING_2 then e.(strVal := text) else e.(bytesVal := text)
  }

  function BodyAt(data: seq<u8>, p: nat, t: u8, tag: Option<u8>): (o: Outcome)
    ensures !o.End? && (o.Got? ==> o.element.elementType == t)
  {
    var l, w := LengthWidth(t), FixedWidth(t);
    if p + (if l > 0 then l else w) > |data| then Thrown
    else if l == 0 then Got(NumberElement(t, tag, FromLe(data[p..p + w])), p + w)
    else
      var n := FromLe(data[p..p + l]);
      if p + l + n > |data| then Overrun else Got(TextElement(t, tag, data[p + l..p + l + n]), p + l + n)
  }

  /** The length of the control octet and the tag that follows it, if there is one. */
  function HeadLength(control: u8): nat {
    if control / 0x20 == 1 then 2 else 1
  }

  function StepAt(data: seq<u8>, pos: nat): (o: Outcome)
    ensures o.Got? ==> pos < o.next <= |data|
  {
    if pos >= |data| then End
    else if pos + HeadLength(data[pos]) > |data| then Thrown
    else
      BodyAt(data, pos + HeadLength(data[pos]), data[pos] % 0x20,
             if HeadLength(data[pos]) == 2 then Some(data[pos + 1]) else None)
  }

  function DepthChange(t: u8): int {
    if t == STRUCTURE || t == ARRAY || t == LIST then 1 else if t == END_CONTAINER then -1 else 0
  }

  lemma DepthChangeIs(t: u8)
    ensures DepthChange(t) == if t in {0x15, 0x16, 0x17} then 1 else if t == 0x18 then -1 else 0
  {
  }

  class Reader {
    const data: seq<u8>
    var offset: nat
    var depth: int
    var current: Element

    constructor (data: seq<u8>)
      ensures this.data == data && offset == 0 && depth == 0
    {
      this.data, offset, depth := data, 0, 0;
      current := Plain(SIGNED_INT_8, None);
    }

    /** Reads a number of `n` bytes, or throws. */
    method ReadNumber(n: nat) returns (v: Option<nat>)
      requires offset <= |data|
      modifies this`offset
      ensures old(offset) + n > |data| ==> v == None
      ensures old(offset) + n <= |data| ==> v == Some(FromLe(data[old(offset)..old(offset) + n]))
                                             && offset == old(offset) + n
    {
      var value: nat := 0;
      var start := offset;
      for i := 0 to n
        invariant offset == start + i <= |data| && value == FromLe(data[start..start + i])
      {
        if offset >= |data| { return None; }
        assert data[start..start + i + 1] == data[start..start + i] + [data[start + i]];
        FromLeAppend(data[start..start + i], data[start + i]);
        value := value + data[offset] * Pow256(i);
        offset := offset + 1;
      }
      return Some(value);
    }

    method Next() returns (o: Outcome)
      modifies this
      ensures o == StepAt(data, old(offset))
      ensures o.Got? ==> offset == o.next && current == o.element
                              && depth == old(depth) + DepthChange(o.element.elementType)
      ensures o.Got? ==> depth == old(depth) + (if o.element.elementType in {0x15, 0x16, 0x17} then 1
                                                else if o.element.elementType == 0x18 then -1 else 0)
      ensures o.End? ==> offset == old(offset) && depth == old(depth)
    {
      hide BodyAt, FromLe, DepthChange;
      if offset >= |data| { return End; }
      var control := data[offset];
      offset := offset + 1;
      var t := control % 0x20;
      var tag := None;
      if control / 0x20 == 1 {
        if offset >= |data| { return Thrown; }
        tag := Some(data[offset]);
        offset := offset + 1;
      }
      o := ReadBody(t, tag);
      if o.Got? {
        DepthChangeIs(t);
        depth := depth + DepthChange(t);
      }
    }

    method ReadBody(t: u8, tag: Option<u8>) returns (o: Outcome)
      requires offset <= |data|
      modifies this`offset, this`current
      ensures o == BodyAt(data, old(offset), t, tag)
      ensures o.Got? ==> offset == o.next && current == o.element
    {
      var lengthWidth := LengthWidth(t);
      if lengthWidth > 0 {
        var n := ReadNumber(lengthWidth);
        if n == None { return Thrown; }
        if offset + n.value > |data| { return Overrun; }
        current := TextElement(t, tag, data[offset..offset + n.value]);
        offset := offset + n.value;
      } else {
        var raw := ReadNumber(FixedWidth(t));
        if raw == None { return Thrown; }
        current := NumberElement(t, tag, raw.value);
      }
      return Got(current, offset);
    }
  }

  /** The elements from `pos` on, or the failure that stops the decoding. */
  function DecodedFrom(data: seq<u8>, pos: nat): Option<seq<Element>>
    decreases |data| - pos
  {
    match StepAt(data, pos)
    case End => Some([])
    case Got(e, next) => Prepend([e], DecodedFrom(data, next))
    case _ => None
  }

  function Prepend(a: seq<Element>, b: Option<seq<Element>>): Option<seq<Element>> {
    if b.Some? then Some(a + b.value) else None
  }

  lemma PrependTwice(a: seq<Element>, e: Element, b: Option<seq<Element>>)
    ensures Prepend(a, Prepend([e], b)) == Prepend(a + [e], b)
  {
    if b.Some? { assert a + ([e] + b.value) == a + [e] + b.value; }
  }

  function DepthFrom(data: seq<u8>, pos: nat): int
    decreases |data| - pos
  {
    match StepAt(data, pos)
    case Got(e, next) => DepthChange(e.elementType) + DepthFrom(data, next)
    case _ => 0
  }

  method DecodeAll(data: seq<u8>) returns (elements: Option<seq<Element>>, depth: int)
    ensures elements == DecodedFrom(data, 0)
    ensures elements.Some? ==> depth == DepthFrom(data, 0)
  {
    var found: seq<Element> := [];
    assert DecodedFrom(data, 0) == Prepend([], DecodedFrom(data, 0)) by {
      if DecodedFrom(data, 0).Some? { assert [] + DecodedFrom(data, 0).value == DecodedFrom(data, 0).value; }
    }
    var reader := new Reader(data);
    while true
      invariant fresh(reader) && reader.data == data
      invariant DecodedFrom(data, 0) == Prepend(found, DecodedFrom(data, reader.offset))
      invariant DepthFrom(data, 0) == reader.depth + DepthFrom(data, reader.offset)
      decreases |data| - reader.offset
    {
      var o := reader.Next();
      if o.Got? {
        PrependTwice(found, o.element, DecodedFrom(data, o.next));
        found := found + [o.element];
      } else if o.End? {
        assert found + [] == found;
        return Some(found), reader.depth;
      } else {
        return None, reader.depth;
      }
    }
  }

  // ---------------------------------------------------------------------
  // Round trip.
  // ---------------------------------------------------------------------

  predicate Carried(c: Call) {
    |TextOf(c)| < 0x1_0000
  }

  /** The number that was written is sign-extended or zero-extended to what was meant. */
  lemma NumberMeaning(c: Call)
    requires LengthWidth(TypeOf(c)) == 0
    ensures NumberOf(c) < Pow256(FixedWidth(TypeOf(c)))
    ensures NumberElement(TypeOf(c), TagOf(c), NumberOf(c)) == Meaning(c)
  {
    Widths();
  }

  lemma NumberRoundTrip(c: Call, data: seq<u8>, p: nat)
    requires LengthWidth(TypeOf(c)) == 0 && At(data, p, Body(c))
    ensures BodyAt(data, p, TypeOf(c), TagOf(c)) == Got(Meaning(c), p + |Body(c)|)
  {
    hide Le, FromLe, Pow256, NumberElement, NumberOf, TypeOf, TagOf, Meaning, At;
    NumberMeaning(c);
    LeRoundTrip(NumberOf(c), FixedWidth(TypeOf(c)));
    AtSlice(data, p, Body(c));
    AtFits(data, p, Body(c));
  }

  /** A double, which the writer never writes, is read from its eight bytes. */
  lemma DoubleIsRead(tag: Option<u8>, bits: u64, data: seq<u8>, pos: nat)
    requires At(data, pos, Head(0x0B, tag) + Le(bits, 8))
    ensures StepAt(data, pos) ==
      Got(Element(0x0B, tag, 0, 0, false, 0, bits, [], []), pos + |Head(0x0B, tag)| + 8)
  {
    hide Head, Le, FromLe, Pow256, At, StepAt;
    AtSplit(data, pos, Head(0x0B, tag), Le(bits, 8));
    HeadRoundTrip(0x0B, tag, data, pos);
    AtSlice(data, pos + |Head(0x0B, tag)|, Le(bits, 8));
    Widths();
    LeRoundTrip(bits, 8);
    AtFits(data, pos + |Head(0x0B, tag)|, Le(bits, 8));
  }

  lemma AtFits(data: seq<u8>, pos: nat, part: seq<u8>)
    requires At(data, pos, part)
    ensures pos + |part| <= |data|
  {
  }

  lemma TextMeaning(c: Call)
    requires LengthWidth(TypeOf(c)) > 0 && Carried(c)
    ensures TextElement(TypeOf(c), TagOf(c), TextOf(c)) == Meaning(c)
    ensures |TextOf(c)| < Pow256(LengthWidth(TypeOf(c)))
  {
    Widths();
  }

  lemma TextRoundTrip(c: Call, data: seq<u8>, p: nat)
    requires LengthWidth(TypeOf(c)) > 0 && Carried(c) && At(data, p, Body(c))
    ensures BodyAt(data, p, TypeOf(c), TagOf(c)) == Got(Meaning(c), p + |Body(c)|)
  {
    var l, text := LengthWidth(TypeOf(c)), TextOf(c);
    TextMeaning(c);
    LeRoundTrip(|text|, l);
    AtSplit(data, p, Le(|text|, l), text);
    AtSlice(data, p, Le(|text|, l));
    AtSlice(data, p + l, text);
  }

  lemma HeadRoundTrip(t: u8, tag: Option<u8>, data: seq<u8>, pos: nat)
    requires t < 0x20 && At(data, pos, Head(t, tag))
    ensures StepAt(data, pos) == BodyAt(data, pos + |Head(t, tag)|, t, tag)
  {
    hide BodyAt;
    var head := Head(t, tag);
    assert data[pos] == head[0];
    if tag.Some? {
      assert data[pos + 1] == head[1];
      assert data[pos] / 0x20 == 1;
    } else {
      assert data[pos] / 0x20 == 0;
    }
    assert HeadLength(data[pos]) == |head|;
  }

  lemma ElementRoundTrip(c: Call, data: seq<u8>, pos: nat)
    requires Carried(c) && At(data, pos, Encoded(c))
    ensures StepAt(data, pos) == Got(Meaning(c), pos + |Encoded(c)|)
  {
    hide Head, Body, BodyAt, StepAt, TypeOf, Meaning, LengthWidth, At;
    var head := Head(TypeOf(c), TagOf(c));
    AtSplit(data, pos, head, Body(c));
    HeadRoundTrip(TypeOf(c), TagOf(c), data, pos);
    if LengthWidth(TypeOf(c)) == 0 {
      NumberRoundTrip(c, data, pos + |head|);
    } else {
      TextRoundTrip(c, data, pos + |head|);
    }
  }

  function Meanings(calls: seq<Call>): seq<Element> {
    if calls == [] then [] else [Meaning(calls[0])] + Meanings(calls[1..])
  }

  /** Containers opened less containers closed. */
  function OpenCount(calls: seq<Call>): int {
    if calls == [] then 0
    else
      var c := calls[0];
      OpenCount(calls[1..]) + (if c.StartStructure? || c.StartArray? then 1 else if c.EndContainer? then -1 else 0)
  }

  /** Decoding whatever the writer wrote returns the same elements, and ends at a depth of opens less
      closes. */
  lemma {:induction false} DecodingReturnsWritten(calls: seq<Call>, data: seq<u8>, pos: nat)
    requires forall c | c in calls :: Carried(c)
    requires At(data, pos, EncodedAll(calls)) && pos + |EncodedAll(calls)| == |data|
    ensures DecodedFrom(data, pos) == Some(Meanings(calls)) && DepthFrom(data, pos) == OpenCount(calls)
    decreases |calls|
  {
    if calls != [] {
      var next := DecodeFirst(calls[0], EncodedAll(calls[1..]), data, pos);
      DecodingReturnsWritten(calls[1..], data, next);
      OpenCountFirst(calls);
    }
  }

  lemma OpenCountFirst(calls: seq<Call>)
    requires calls != []
    ensures OpenCount(calls) == OpenCount(calls[1..]) + DepthChange(TypeOf(calls[0]))
  {
  }

  lemma DecodeFirst(c: Call, rest: seq<u8>, data: seq<u8>, pos: nat) returns (next: nat)
    requires Carried(c) && At(data, pos, Encoded(c) + rest)
    ensures next == pos + |Encoded(c)| && At(data, next, rest)
    ensures DecodedFrom(data, pos) == Prepend([Meaning(c)], DecodedFrom(data, next))
    ensures DepthFrom(data, pos) == DepthChange(TypeOf(c)) + DepthFrom(data, next)
  {
    hide Encoded, StepAt, DecodedFrom, DepthFrom, At, TypeOf;
    AtSplit(data, pos, Encoded(c), rest);
    ElementRoundTrip(c, data, pos);
    next := pos + |Encoded(c)|;
    DecodeOne(data, pos, Meaning(c), next);
  }

  lemma DecodeOne(data: seq<u8>, pos: nat, e: Element, next: nat)
    requires StepAt(data, pos) == Got(e, next)
    ensures DecodedFrom(data, pos) == Prepend([e], DecodedFrom(data, next))
    ensures DepthFrom(data, pos) == DepthChange(e.elementType) + DepthFrom(data, next)
  {
  }

  /** When a read fails: past the end of the data in the tag, the number or the length; or with a text longer
      than the data that is left. */
  lemma FailureIff(data: seq<u8>, pos: nat)
    requires pos < |data|
    ensures var t, h := data[pos] % 0x20, pos + if data[pos] / 0x20 == 1 then 2 else 1;
      var l, w := if t in {0x0C, 0x10} then 1 else if t in {0x0D, 0x11} then 2 else 0,
                  if t in {0, 4} then 1 else if t in {1, 5} then 2 else if t in {2, 6, 0x0A} then 4
                  else if t in {3, 7, 0x0B} then 8 else 0;
      && (StepAt(data, pos) == Thrown <==> h + l + w > |data|)
      && (StepAt(data, pos) == Overrun <==>
            l > 0 && h + l <= |data| && h + l + FromLe(data[h..h + l]) > |data|)
  {
    hide FromLe, NumberElement, TextElement;
    WidthsAre(data[pos] % 0x20);
  }

  lemma WidthsAre(t: u8)
    ensures LengthWidth(t) == if t in {0x0C, 0x10} then 1 else if t in {0x0D, 0x11} then 2 else 0
    ensures FixedWidth(t) == if t in {0, 4} then 1 else if t in {1, 5} then 2 else if t in {2, 6, 0x0A} then 4
                             else if t in {3, 7, 0x0B} then 8 else 0
    ensures LengthWidth(t) == 0 || FixedWidth(t) == 0
  {
  }

  lemma EncodedShape(c: Call)
    ensures var e, t, h := Encoded(c), TypeOf(c), if TagOf(c).Some? then 2 else 1;
      && |e| == h + (if LengthWidth(t) > 0 then LengthWidth(t) + |TextOf(c)| else FixedWidth(t))
      && e != [] && e[0] % 0x20 == t && (e[0] / 0x20 == 1 <==> TagOf(c).Some?)
      && (LengthWidth(t) > 0 ==> e[h..h + LengthWidth(t)] == Le(|TextOf(c)|, LengthWidth(t)))
  {
    hide Le, TypeOf, LengthWidth, FixedWidth;
    var head, l := Head(TypeOf(c), TagOf(c)), LengthWidth(TypeOf(c));
    assert Encoded(c) == head + Body(c);
    assert Encoded(c)[0] == head[0];
    if l > 0 { assert Body(c)[..l] == Le(|TextOf(c)|, l); }
  }

  /** An encoded call cut anywhere is never read as an element: the reader runs into the end of the data. */
  lemma CutIsNotRead(c: Call, k: nat)
    requires Carried(c) && k < |Encoded(c)|
    ensures var o := StepAt(Encoded(c)[..k], 0); if k == 0 then o == End else o == Thrown || o == Overrun
  {
    hide Le, FromLe, Pow256, StepAt, Encoded, Meaning, TypeOf, LengthWidth, FixedWidth, Carried;
    if k == 0 {
      EndIsRead();
    } else {
      var whole, data, l := Encoded(c), Encoded(c)[..k], LengthWidth(TypeOf(c));
      EncodedShape(c);
      FailureIff(data, 0);
      WidthsAre(TypeOf(c));
      var h := if TagOf(c).Some? then 2 else 1;
      if l > 0 && h + l <= k {
        TextMeaning(c);
        LeRoundTrip(|TextOf(c)|, l);
        SliceOfPrefix(whole, k, h, h + l);
      }
    }
  }

  lemma SliceOfPrefix(s: seq<u8>, k: nat, i: nat, j: nat)
    requires i <= j <= k <= |s|
    ensures s[..k][i..j] == s[i..j]
  {
  }

  lemma EndIsRead()
    ensures StepAt([], 0) == End
  {
  }

  /** A call alone in its buffer is read back as the element it means exactly when the codec can carry
      it: a text that is too long for its sixteen-bit length is not. */
  lemma ElementRoundTripIff(c: Call)
    ensures StepAt(Encoded(c), 0) == Got(Meaning(c), |Encoded(c)|) <==> Carried(c)
  {
    if Carried(c) {
      ElementRoundTrip(c, Encoded(c), 0);
    } else {
      LongTextIsCut(c);
    }
  }

  lemma LongTextIsCut(c: Call)
    requires !Carried(c)
    ensures var o := StepAt(Encoded(c), 0); !(o.Got? && o.next == |Encoded(c)|)
  {
    hide Le, FromLe, Pow256, StepAt, Encoded, Head;
    var data, l := Encoded(c), LengthWidth(TypeOf(c));
    var h := if TagOf(c).Some? then 2 else 1;
    EncodedShape(c);
    Widths();
    FromLeBound(Le(|TextOf(c)|, l));
    if StepAt(data, 0).Got? { TextEnd(data, 0); }
  }

  /** A text that is read ends as far behind its length as that says. */
  lemma TextEnd(data: seq<u8>, pos: nat)
    requires pos < |data| && LengthWidth(data[pos] % 0x20) > 0 && StepAt(data, pos).Got?
    ensures var h, l := pos + if data[pos] / 0x20 == 1 then 2 else 1, LengthWidth(data[pos] % 0x20);
      h + l <= |data| && StepAt(data, pos).next == h + l + FromLe(data[h..h + l])
  {
    hide FromLe, NumberElement, TextElement;
  }
}
