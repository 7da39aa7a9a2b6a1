/** What a decoder can leave in a struct, and how far it is from what an encoder is given. */
module PbStored {
  import opened Coding
  import opened Varints
  import opened Protobuf

  /** Field tables as the generator makes them: distinct tags that fit the wire format, valid integer sizes. */
  ghost predicate ProperKind(kind: Kind)
    decreases kind
  {
    match kind
    case VarintKind(size) => IntSize(size)
    case UVarintKind(size) => IntSize(size)
    case SVarintKind(size) => IntSize(size)
    case StringKind(room) => room >= 1
    case MessageKind(desc) => Proper(desc)
    case _ => true
  }

  ghost predicate Proper(d: Desc)
    decreases d
  {
    && (forall i :: 0 <= i < |d.fields| ==> ProperKind(d.fields[i].kind) && 0 < d.fields[i].tag < 0x2000_0000)
    && (forall i, j :: 0 <= i < j < |d.fields| ==> d.fields[i].tag != d.fields[j].tag)
  }

  /** A value that its storage holds: integers in range, bytes within capacity, strings with room for the
      terminator, counts within bounds. */
  ghost predicate Stored(kind: Kind, v: Value)
    decreases v
  {
    match kind
    case BytesKind(capacity) => v.BytesValue? && |v.bytes| <= capacity
    case StringKind(room) => v.BytesValue? && |v.bytes| < room && 0 !in v.bytes
    case MessageKind(desc) => v.MessageValue? && StoredMessage(desc, v.msg)
    case _ => Shaped(kind, v)
  }

  ghost predicate StoredSlot(f: Field, slot: Slot)
    decreases slot
  {
    match f.rule
    case Required => slot.One? && Stored(f.kind, slot.v)
    case Optional(flagged) =>
      if flagged then slot.Absent? || (slot.Present? && Stored(f.kind, slot.v))
      else slot.One? && Stored(f.kind, slot.v)
    case Repeated(max) =>
      slot.Many? && |slot.items| <= max && forall j :: 0 <= j < |slot.items| ==> Stored(f.kind, slot.items[j])
    case Oneof(_) => slot.Absent? || (slot.Present? && Stored(f.kind, slot.v))
  }

  ghost predicate StoredMessage(d: Desc, m: Message)
    decreases m
  {
    && |m.slots| == |d.fields|
    && (forall i :: 0 <= i < |d.fields| ==> StoredSlot(d.fields[i], m.slots[i]))
    && OneSelected(d, m)
  }

  /** Exactly the stored values are shaped, encodable and have terminated strings. */
  lemma {:induction false} StoredIsEncodable(kind: Kind, v: Value)
    requires Stored(kind, v)
    ensures Shaped(kind, v) && Encodable(kind, v)
    decreases v
  {
    if kind.MessageKind? {
      StoredMessageIsEncodable(kind.desc, v.msg);
    }
  }

  lemma {:induction false} StoredSlotIsEncodable(f: Field, slot: Slot)
    requires StoredSlot(f, slot)
    ensures ShapedSlot(f, slot) && EncodableSlot(f, slot)
    decreases slot
  {
    if slot.Many? {
      forall j | 0 <= j < |slot.items|
        ensures Shaped(f.kind, slot.items[j]) && Encodable(f.kind, slot.items[j])
      {
        StoredIsEncodable(f.kind, slot.items[j]);
      }
    } else if !slot.Absent? {
      StoredIsEncodable(f.kind, slot.v);
    }
  }

  lemma {:induction false} StoredMessageIsEncodable(d: Desc, m: Message)
    requires StoredMessage(d, m)
    ensures ShapedMessage(d, m) && EncodableMessage(d, m, |m.slots|)
    decreases m
  {
    forall i | 0 <= i < |d.fields|
      ensures ShapedSlot(d.fields[i], m.slots[i]) && EncodableSlot(d.fields[i], m.slots[i])
    {
      StoredSlotIsEncodable(d.fields[i], m.slots[i]);
    }
  }

  // ----- Defaults -----

  lemma {:induction false} DefaultIsStored(kind: Kind)
    requires ProperKind(kind)
    ensures Stored(kind, DefaultValue(kind))
    decreases kind
  {
    if kind.MessageKind? {
      DefaultMessageIsStored(kind.desc);
    }
  }

  lemma {:induction false} DefaultMessageIsStored(d: Desc)
    requires Proper(d)
    ensures StoredMessage(d, DefaultMessage(d))
    decreases d
  {
    forall i | 0 <= i < |d.fields|
      ensures StoredSlot(d.fields[i], DefaultMessage(d).slots[i])
    {
      DefaultIsStored(d.fields[i].kind);
    }
  }

  /** A field that is left out because it is zero decodes to what it was. */
  lemma {:induction false} DefaultIsUnique(kind: Kind, v: Value)
    requires Stored(kind, v) && IsDefault(kind, v)
    ensures v == DefaultValue(kind)
    decreases v
  {
    if kind.MessageKind? {
      forall i | 0 <= i < |kind.desc.fields|
        ensures v.msg.slots[i] == DefaultMessage(kind.desc).slots[i]
      {
        DefaultSlotIsUnique(kind.desc.fields[i], v.msg.slots[i]);
      }
      assert v.msg.slots == DefaultMessage(kind.desc).slots;
    }
  }

  lemma {:induction false} DefaultSlotIsUnique(f: Field, slot: Slot)
    requires StoredSlot(f, slot) && IsDefaultSlot(f, slot)
    ensures slot == DefaultSlot(f)
    decreases slot
  {
    if f.rule == Optional(false) {
      DefaultIsUnique(f.kind, slot.v);
    }
  }
}
