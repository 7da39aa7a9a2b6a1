/** Messages described by field tables, and the bytes they stand for (nanopb: pb.h, pb_encode.c).
    Fields are static: no callbacks, pointers or extensions. */
module Protobuf {
  import opened Coding
  import opened Varints

  /** The data types, with the size of an integer in bytes or the room of a byte or string field. */
  datatype Kind =
    | BoolKind
    | VarintKind(size: nat)
    | UVarintKind(size: nat)
    | SVarintKind(size: nat)
    | Fixed32Kind
    | Fixed64Kind
    | BytesKind(capacity: nat)
    | StringKind(room: nat)
    | MessageKind(desc: Desc)
    | FixedBytesKind(length: nat)

  /** An optional field has a has-flag, or (proto3) is present when it is not zero. The members of a oneof
      share a selector, here the number `choice`. */
  datatype Label = Required | Optional(flagged: bool) | Repeated(max: nat) | Oneof(choice: nat)

  datatype Field = Field(tag: nat, kind: Kind, rule: Label)

  datatype Desc = Desc(fields: seq<Field>)

  datatype Value = BoolValue(b: bool) | IntValue(n: int) | BytesValue(bytes: seq<Byte>) | MessageValue(msg: Message)

  /** One field of a struct: a plain value, a flagged or selected one, or an array up to its count. */
  datatype Slot = One(v: Value) | Absent | Present(v: Value) | Many(items: seq<Value>)

  datatype Message = Message(slots: seq<Slot>)

  // ----- What a struct of a given description can hold -----

  predicate IntSize(size: nat) {
    size == 1 || size == 2 || size == 4 || size == 8
  }

  /** How many values an integer of that many bytes has. */
  function Span(size: nat): (r: nat)
    ensures r >= 2
  {
    if size == 1 then 0x100 else if size == 2 then 0x1_0000 else if size == 4 then TWO_TO_THE_32 else TWO_TO_THE_64
  }

  predicate SignedFits(size: nat, n: int) {
    -(Span(size) / 2) <= n < Span(size) / 2
  }

  predicate UnsignedFits(size: nat, n: int) {
    0 <= n < Span(size)
  }

  ghost predicate Shaped(kind: Kind, v: Value)
    decreases v
  {
    match kind
    case BoolKind => v.BoolValue?
    case VarintKind(size) => IntSize(size) && v.IntValue? && SignedFits(size, v.n)
    case UVarintKind(size) => IntSize(size) && v.IntValue? && UnsignedFits(size, v.n)
    case SVarintKind(size) => IntSize(size) && v.IntValue? && SignedFits(size, v.n)
    case Fixed32Kind => v.IntValue? && UnsignedFits(4, v.n)
    case Fixed64Kind => v.IntValue? && UnsignedFits(8, v.n)
    case BytesKind(_) => v.BytesValue?
    case StringKind(room) => v.BytesValue? && |v.bytes| <= room && 0 !in v.bytes
    case MessageKind(desc) => v.MessageValue? && ShapedMessage(desc, v.msg)
    case FixedBytesKind(length) => v.BytesValue? && |v.bytes| == length
  }

  ghost predicate ShapedSlot(f: Field, slot: Slot)
    decreases slot
  {
    match f.rule
    case Required => slot.One? && Shaped(f.kind, slot.v)
    case Optional(flagged) =>
      if flagged then slot.Absent? || (slot.Present? && Shaped(f.kind, slot.v))
      else slot.One? && Shaped(f.kind, slot.v)
    case Repeated(_) => slot.Many? && forall j :: 0 <= j < |slot.items| ==> Shaped(f.kind, slot.items[j])
    case Oneof(_) => slot.Absent? || (slot.Present? && Shaped(f.kind, slot.v))
  }

  /** At most one member of a oneof is selected. */
  ghost predicate OneSelected(d: Desc, m: Message)
    requires |m.slots| == |d.fields|
  {
    forall i, j :: 0 <= i < j < |d.fields| && d.fields[i].rule.Oneof? && d.fields[j].rule == d.fields[i].rule ==>
      m.slots[i].Absent? || m.slots[j].Absent?
  }

  ghost predicate ShapedMessage(d: Desc, m: Message)
    decreases m
  {
    && |m.slots| == |d.fields|
    && (forall i :: 0 <= i < |d.fields| ==> ShapedSlot(d.fields[i], m.slots[i]))
    && OneSelected(d, m)
  }

  // ----- What the encoder accepts -----

  ghost predicate Encodable(kind: Kind, v: Value)
    requires Shaped(kind, v)
    decreases v
  {
    match kind
    case BytesKind(capacity) => |v.bytes| <= capacity
    case MessageKind(desc) => EncodableMessage(desc, v.msg, |v.msg.slots|)
    case _ => true
  }

  /** The items of an array, up to the first `n`. */
  ghost predicate EncodableItems(kind: Kind, slot: Slot, n: nat)
    requires slot.Many? && n <= |slot.items|
    requires forall j :: 0 <= j < |slot.items| ==> Shaped(kind, slot.items[j])
    decreases slot, 0
  {
    forall j :: 0 <= j < n ==> Encodable(kind, slot.items[j])
  }

  ghost predicate EncodableSlot(f: Field, slot: Slot)
    requires ShapedSlot(f, slot)
    decreases slot, 1
  {
    if f.rule.Repeated? then |slot.items| <= f.rule.max && EncodableItems(f.kind, slot, |slot.items|)
    else slot.Absent? || (f.rule == Optional(false) && IsDefault(f.kind, slot.v)) || Encodable(f.kind, slot.v)
  }

  /** The first `n` fields of a message. */
  ghost predicate EncodableMessage(d: Desc, m: Message, n: nat)
    requires ShapedMessage(d, m) && n <= |m.slots|
    decreases m, n
  {
    forall i :: 0 <= i < n ==> EncodableSlot(d.fields[i], m.slots[i])
  }

  // ----- Default values -----

  /** pb_check_proto3_default_value: fixed-length bytes count as default only when they have no length. */
  predicate IsDefault(kind: Kind, v: Value)
    decreases v
  {
    match kind
    case BoolKind => v == BoolValue(false)
    case BytesKind(_) => v == BytesValue([])
    case StringKind(_) => v == BytesValue([])
    case MessageKind(desc) =>
      v.MessageValue? && |v.msg.slots| == |desc.fields|
      && forall i :: 0 <= i < |desc.fields| ==> IsDefaultSlot(desc.fields[i], v.msg.slots[i])
    case FixedBytesKind(length) => length == 0
    case _ => v == IntValue(0)
  }

  predicate IsDefaultSlot(f: Field, slot: Slot)
    decreases slot
  {
    match f.rule
    case Required => false
    case Repeated(_) => slot == Many([])
    case Oneof(_) => slot.Absent?
    case Optional(flagged) => if flagged then slot.Absent? else slot.One? && IsDefault(f.kind, slot.v)
  }

  /** pb_message_set_to_defaults */
  function DefaultValue(kind: Kind): Value
    decreases kind
  {
    match kind
    case BoolKind => BoolValue(false)
    case BytesKind(_) => BytesValue([])
    case StringKind(_) => BytesValue([])
    case MessageKind(desc) => MessageValue(DefaultMessage(desc))
    case FixedBytesKind(length) => BytesValue(seq(length, _ => 0))
    case _ => IntValue(0)
  }

  function DefaultSlot(f: Field): Slot
    decreases f
  {
    match f.rule
    case Required => One(DefaultValue(f.kind))
    case Optional(flagged) => if flagged then Absent else One(DefaultValue(f.kind))
    case Repeated(_) => Many([])
    case Oneof(_) => Absent
  }

  function DefaultMessage(d: Desc): (m: Message)
    ensures |m.slots| == |d.fields|
    decreases d
  {
    Message(seq(|d.fields|, i requires 0 <= i < |d.fields| => DefaultSlot(d.fields[i])))
  }

  // ----- The wire format -----

  const WIRE_VARINT := 0
  const WIRE_64BIT := 1
  const WIRE_STRING := 2
  const WIRE_32BIT := 5

  function WireType(kind: Kind): (w: nat)
    ensures w < 8
  {
    match kind
    case Fixed32Kind => WIRE_32BIT
    case Fixed64Kind => WIRE_64BIT
    case BytesKind(_) => WIRE_STRING
    case StringKind(_) => WIRE_STRING
    case MessageKind(_) => WIRE_STRING
    case FixedBytesKind(_) => WIRE_STRING
    case _ => WIRE_VARINT
  }

  predicate Packable(kind: Kind) {
    kind.BoolKind? || kind.VarintKind? || kind.UVarintKind? || kind.SVarintKind? || kind.Fixed32Kind? || kind.Fixed64Kind?
  }

  function ZigZag(n: int): nat {
    if n < 0 then -2 * n - 1 else 2 * n
  }

  function TagBytes(wire: nat, tag: nat): seq<Byte> {
    Varint(tag * 8 + wire)
  }

  ghost function EncodeValue(kind: Kind, v: Value): seq<Byte>
    requires Shaped(kind, v)
    decreases v
  {
    match kind
    case BoolKind => Varint(if v.b then 1 else 0)
    case VarintKind(_) => Varint(if v.n < 0 then v.n + TWO_TO_THE_64 else v.n)
    case UVarintKind(_) => Varint(v.n)
    case SVarintKind(_) => Varint(ZigZag(v.n))
    case Fixed32Kind => LittleEndian(v.n, 4)
    case Fixed64Kind => LittleEndian(v.n, 8)
    case MessageKind(desc) =>
      var body := EncodeMessage(desc, v.msg, |v.msg.slots|);
      Varint(|body|) + body
    case _ => Varint(|v.bytes|) + v.bytes
  }

  /** The first `n` items of an array, without tags. */
  ghost function EncodeItems(kind: Kind, slot: Slot, n: nat): seq<Byte>
    requires slot.Many? && n <= |slot.items|
    requires forall j :: 0 <= j < |slot.items| ==> Shaped(kind, slot.items[j])
    decreases slot, 0, n
  {
    if n == 0 then [] else EncodeItems(kind, slot, n - 1) + EncodeValue(kind, slot.items[n - 1])
  }

  /** The first `n` items of an array, each with its tag. */
  ghost function EncodeTagged(f: Field, slot: Slot, n: nat): seq<Byte>
    requires slot.Many? && n <= |slot.items|
    requires forall j :: 0 <= j < |slot.items| ==> Shaped(f.kind, slot.items[j])
    decreases slot, 0, n
  {
    if n == 0 then []
    else EncodeTagged(f, slot, n - 1) + TagBytes(WireType(f.kind), f.tag) + EncodeValue(f.kind, slot.items[n - 1])
  }

  ghost function EncodeSlot(f: Field, slot: Slot): seq<Byte>
    requires ShapedSlot(f, slot)
    decreases slot, 1
  {
    if slot.Many? then
      if slot.items == [] then []
      else if Packable(f.kind) then
        var body := EncodeItems(f.kind, slot, |slot.items|);
        TagBytes(WIRE_STRING, f.tag) + Varint(|body|) + body
      else EncodeTagged(f, slot, |slot.items|)
    else if slot.Absent? || (f.rule == Optional(false) && IsDefault(f.kind, slot.v)) then []
    else TagBytes(WireType(f.kind), f.tag) + EncodeValue(f.kind, slot.v)
  }

  /** The first `n` fields of a message. */
  ghost function EncodeMessage(d: Desc, m: Message, n: nat): seq<Byte>
    requires ShapedMessage(d, m) && n <= |m.slots|
    decreases m, n
  {
    if n == 0 then [] else EncodeMessage(d, m, n - 1) + EncodeSlot(d.fields[n - 1], m.slots[n - 1])
  }
}
