/** What a reader makes of the message of a writer whose field table may be another one (nanopb: pb_decode.c): fields
    are matched by their tags, what the reader does not know is passed over, and what the writer does not know, or
    leaves out, stays as it was. */
module PbReading {
  import opened Coding
  import opened Varints
  import opened Protobuf
  import opened PbStored
  import opened PbStreams

  // ----- The pieces of an encoding -----

  predicate Unpacked(f: Field) {
    f.rule.Repeated? && !Packable(f.kind)
  }

  /** A slot is encoded in pieces: one for a plain or packed field, one an item for an unpacked array, none
      for a field that is left out. */
  predicate HasPiece(f: Field, slot: Slot, j: nat) {
    if f.rule.Repeated? then slot.Many? && j < |slot.items| && (Packable(f.kind) ==> j == 0)
    else j == 0 && (slot.One? || slot.Present?) && !(f.rule == Optional(false) && IsDefault(f.kind, slot.v))
  }

  function PieceWire(f: Field): nat {
    if f.rule.Repeated? && Packable(f.kind) then WIRE_STRING else WireType(f.kind)
  }

  ghost function PieceBody(f: Field, slot: Slot, j: nat): seq<Byte>
    requires ShapedSlot(f, slot) && HasPiece(f, slot, j)
  {
    if f.rule.Repeated? && Packable(f.kind) then
      var body := EncodeItems(f.kind, slot, |slot.items|);
      Varint(|body|) + body
    else if f.rule.Repeated? then EncodeValue(f.kind, slot.items[j])
    else EncodeValue(f.kind, slot.v)
  }

  // ----- Which tables can read which -----

  /** A reader has room for whatever a writer of the other kind writes: a wider integer, more bytes, or a submessage
      whose table can read the other. */
  ghost predicate Takes(kind: Kind, sent: Kind)
    decreases kind
  {
    match kind
    case VarintKind(size) => sent.VarintKind? && sent.size <= size
    case UVarintKind(size) => sent.UVarintKind? && sent.size <= size
    case SVarintKind(size) => sent.SVarintKind? && sent.size <= size
    case BytesKind(capacity) => sent.BytesKind? && sent.capacity <= capacity
    case StringKind(room) => sent.StringKind? && sent.room <= room
    case MessageKind(desc) => sent.MessageKind? && TakesAll(desc, sent.desc)
    case _ => kind == sent
  }

  ghost predicate TakesField(f: Field, g: Field)
    decreases f
  {
    && f.tag == g.tag && Takes(f.kind, g.kind)
    && (f.rule == g.rule || (f.rule.Repeated? && g.rule.Repeated? && g.rule.max <= f.rule.max))
  }

  /** Fields with one tag agree, and what the reader requires, the writer has. */
  ghost predicate TakesAll(d: Desc, w: Desc)
    decreases d
  {
    && (forall k, p :: 0 <= k < |d.fields| && 0 <= p < |w.fields| && d.fields[k].tag == w.fields[p].tag ==>
          TakesField(d.fields[k], w.fields[p]))
    && (forall k :: 0 <= k < |d.fields| && d.fields[k].rule.Required? ==>
          exists p :: 0 <= p < |w.fields| && w.fields[p].tag == d.fields[k].tag)
  }

  /** Every table can read what it writes. */
  lemma {:induction false} TakesItself(d: Desc)
    requires Proper(d)
    ensures TakesAll(d, d)
    decreases d
  {
    forall k, p | 0 <= k < |d.fields| && 0 <= p < |d.fields| && d.fields[k].tag == d.fields[p].tag
      ensures TakesField(d.fields[k], d.fields[p])
    {
      assert k == p && ProperKind(d.fields[k].kind);
      KindTakesItself(d.fields[k].kind);
    }
  }

  lemma {:induction false} KindTakesItself(kind: Kind)
    requires ProperKind(kind)
    ensures Takes(kind, kind)
    decreases kind
  {
    if kind.MessageKind? {
      TakesItself(kind.desc);
    }
  }

  /** Where a table has a tag; its end if it does not. */
  function Position(fields: seq<Field>, tag: nat): (p: nat)
    ensures p <= |fields| && (p < |fields| ==> fields[p].tag == tag)
    ensures forall i :: 0 <= i < p ==> fields[i].tag != tag
  {
    if fields == [] || fields[0].tag == tag then 0
    else
      var p := Position(fields[1..], tag);
      assert forall i :: 1 <= i <= p ==> fields[i] == fields[1..][i - 1];
      1 + p
  }

  // ----- What is read -----

  predicate HoldsValue(slot: Slot) {
    slot.One? || slot.Present?
  }

  /** What the decoding of a value starts from. Only a submessage keeps any of it. */
  function StartValue(f: Field, cur: Slot): Value {
    if HoldsValue(cur) && !f.rule.Oneof? then cur.v else DefaultValue(f.kind)
  }

  /** A submessage is merged into what is there; any other value replaces it. */
  ghost function ReadValue(kind: Kind, sent: Kind, cur: Value, v: Value): Value
    decreases v
  {
    if kind.MessageKind? && sent.MessageKind? && cur.MessageValue? && v.MessageValue?
       && |cur.msg.slots| == |kind.desc.fields| && |v.msg.slots| == |sent.desc.fields|
    then MessageValue(Merged(kind.desc, cur.msg, sent.desc, v.msg, |sent.desc.fields|, 0))
    else v
  }

  /** The items of an array are read one by one, each from the default. */
  ghost function ReadItems(f: Field, g: Field, slot: Slot): (r: seq<Value>)
    requires slot.Many?
    ensures |r| == |slot.items|
    decreases slot, 0
  {
    seq(|slot.items|, j requires 0 <= j < |slot.items| =>
      ReadValue(f.kind, g.kind, DefaultValue(f.kind), slot.items[j]))
  }

  /** What a slot becomes when all of another has been read. */
  ghost function ReadSlot(f: Field, cur: Slot, g: Field, slot: Slot): Slot
    decreases slot, 1
  {
    match f.rule
    case Required => if HoldsValue(slot) then One(ReadValue(f.kind, g.kind, StartValue(f, cur), slot.v)) else cur
    case Optional(flagged) =>
      if HoldsValue(slot) then
        var v := ReadValue(f.kind, g.kind, StartValue(f, cur), slot.v);
        if flagged then Present(v) else One(v)
      else cur
    case Repeated(_) => if cur.Many? && slot.Many? then Many(cur.items + ReadItems(f, g, slot)) else cur
    case Oneof(_) => if HoldsValue(slot) then Present(ReadValue(f.kind, g.kind, StartValue(f, cur), slot.v)) else cur
  }

  /** Another member of the same oneof has been read among the first `i` fields. */
  ghost predicate Deselected(d: Desc, w: Desc, m: Message, i: nat, k: nat)
    requires |m.slots| == |w.fields| && i <= |w.fields| && k < |d.fields|
  {
    d.fields[k].rule.Oneof? &&
    exists q :: && 0 <= q < |d.fields| && q != k && d.fields[q].rule == d.fields[k].rule
                && var p := Position(w.fields, d.fields[q].tag); p < i && HasPiece(w.fields[p], m.slots[p], 0)
  }

  /** A reader's struct when the first `i` fields of a message, and `j` items of the next, have been read into it. */
  ghost function Merged(d: Desc, cur: Message, w: Desc, m: Message, i: nat, j: nat): (r: Message)
    requires |cur.slots| == |d.fields| && |m.slots| == |w.fields| && i <= |w.fields|
    requires j > 0 ==> i < |w.fields| && m.slots[i].Many? && j <= |m.slots[i].items|
    ensures |r.slots| == |d.fields|
    decreases m
  {
    Message(seq(|d.fields|, k requires 0 <= k < |d.fields| => MergedSlot(d, cur, w, m, i, j, k)))
  }

  ghost function MergedSlot(d: Desc, cur: Message, w: Desc, m: Message, i: nat, j: nat, k: nat): Slot
    requires |cur.slots| == |d.fields| && |m.slots| == |w.fields| && i <= |w.fields| && k < |d.fields|
    requires j > 0 ==> i < |w.fields| && m.slots[i].Many? && j <= |m.slots[i].items|
    decreases m, 0
  {
    var f, p := d.fields[k], Position(w.fields, d.fields[k].tag);
    if p < i && HasPiece(w.fields[p], m.slots[p], 0) then ReadSlot(f, cur.slots[k], w.fields[p], m.slots[p])
    else if p == i && j > 0 && cur.slots[k].Many? then
      Many(cur.slots[k].items + ReadItems(f, w.fields[p], m.slots[p])[..j])
    else if Deselected(d, w, m, i, k) then Absent
    else cur.slots[k]
  }

  // ----- Room for arrays -----

  /** No array grows over its bound. */
  ghost predicate HasRoom(d: Desc, cur: Message, w: Desc, m: Message)
    requires |cur.slots| == |d.fields| && |m.slots| == |w.fields|
    decreases m
  {
    forall k :: 0 <= k < |d.fields| ==>
      var p := Position(w.fields, d.fields[k].tag);
      p < |w.fields| && HasPiece(w.fields[p], m.slots[p], 0) ==>
        RoomInSlot(d.fields[k], cur.slots[k], w.fields[p], m.slots[p])
  }

  ghost predicate RoomInSlot(f: Field, cur: Slot, g: Field, slot: Slot)
    decreases slot
  {
    if f.rule.Repeated? then
      && cur.Many? && slot.Many? && |cur.items| + |slot.items| <= f.rule.max
      && forall j :: 0 <= j < |slot.items| ==> RoomInValue(f.kind, g.kind, DefaultValue(f.kind), slot.items[j])
    else HoldsValue(slot) ==> RoomInValue(f.kind, g.kind, StartValue(f, cur), slot.v)
  }

  ghost predicate RoomInValue(kind: Kind, sent: Kind, cur: Value, v: Value)
    decreases v
  {
    kind.MessageKind? && sent.MessageKind? && cur.MessageValue? && v.MessageValue?
    && |cur.msg.slots| == |kind.desc.fields| && |v.msg.slots| == |sent.desc.fields|
    ==> HasRoom(kind.desc, cur.msg, sent.desc, v.msg)
  }

  /** A struct at its defaults has room for all that a writer can send. */
  lemma {:induction false} DefaultHasRoom(d: Desc, w: Desc, m: Message)
    requires Proper(d) && TakesAll(d, w) && StoredMessage(w, m)
    ensures HasRoom(d, DefaultMessage(d), w, m)
    decreases m
  {
    hide Proper, Stored, ProperKind;
    forall k | 0 <= k < |d.fields|
      ensures var p := Position(w.fields, d.fields[k].tag);
              p < |w.fields| ==> RoomInSlot(d.fields[k], DefaultMessage(d).slots[k], w.fields[p], m.slots[p])
    {
      var p := Position(w.fields, d.fields[k].tag);
      if p < |w.fields| {
        assert TakesField(d.fields[k], w.fields[p]) && StoredSlot(w.fields[p], m.slots[p]);
        FieldIsProper(d, k);
        DefaultSlotHasRoom(d.fields[k], w.fields[p], m.slots[p]);
      }
    }
  }

  lemma FieldIsProper(d: Desc, k: nat)
    requires Proper(d) && k < |d.fields|
    ensures ProperKind(d.fields[k].kind) && 0 < d.fields[k].tag < 0x2000_0000
  {
  }

  lemma {:induction false} DefaultSlotHasRoom(f: Field, g: Field, slot: Slot)
    requires ProperKind(f.kind) && TakesField(f, g) && StoredSlot(g, slot)
    ensures RoomInSlot(f, DefaultSlot(f), g, slot)
    decreases slot
  {
    hide Proper, ProperKind, TakesAll, Takes, Stored, DefaultValue, RoomInValue;
    if slot.Many? {
      forall j | 0 <= j < |slot.items|
        ensures RoomInValue(f.kind, g.kind, DefaultValue(f.kind), slot.items[j])
      {
        DefaultValueHasRoom(f.kind, g.kind, slot.items[j]);
      }
    } else if HoldsValue(slot) {
      DefaultValueHasRoom(f.kind, g.kind, slot.v);
    }
  }

  lemma {:induction false} DefaultValueHasRoom(kind: Kind, sent: Kind, v: Value)
    requires ProperKind(kind) && Takes(kind, sent) && Stored(sent, v)
    ensures RoomInValue(kind, sent, DefaultValue(kind), v)
    decreases v
  {
    hide Proper, TakesAll, StoredMessage, DefaultMessage, HasRoom;
    if kind.MessageKind? {
      DefaultHasRoom(kind.desc, sent.desc, v.msg);
    }
  }

  // ----- Reading into defaults -----

  /** Values that are not submessages are read as they were sent. */
  lemma PlainIsRead(kind: Kind, sent: Kind, cur: Value, v: Value)
    requires !kind.MessageKind?
    ensures ReadValue(kind, sent, cur, v) == v
  {
  }

  lemma {:induction false} ReadIntoDefault(kind: Kind, v: Value)
    requires ProperKind(kind) && Stored(kind, v)
    ensures ReadValue(kind, kind, DefaultValue(kind), v) == v
    decreases v
  {
    hide Proper, StoredMessage, DefaultMessage, Merged;
    if kind.MessageKind? {
      StoredSize(kind.desc, v.msg);
      MergedIntoDefault(kind.desc, v.msg);
    }
  }

  lemma StoredSize(d: Desc, m: Message)
    requires StoredMessage(d, m)
    ensures |m.slots| == |d.fields|
  {
    hide StoredSlot;
  }

  /** A writer's message, read with its own table into a fresh struct, is that message. */
  lemma {:induction false} MergedIntoDefault(d: Desc, m: Message)
    requires Proper(d) && StoredMessage(d, m)
    ensures |m.slots| == |d.fields| && Merged(d, DefaultMessage(d), d, m, |d.fields|, 0) == m
    decreases m
  {
    hide Proper, StoredSlot, DefaultSlot, ReadSlot, HasPiece, Deselected;
    StoredSize(d, m);
    var r := Merged(d, DefaultMessage(d), d, m, |d.fields|, 0);
    forall k | 0 <= k < |d.fields|
      ensures r.slots[k] == m.slots[k]
    {
      FieldIsProper(d, k);
      OwnPosition(d, k);
      SlotIsStored(d, m, k);
      SlotIntoDefault(d.fields[k], m.slots[k]);
      if !HasPiece(d.fields[k], m.slots[k], 0) {
        NoPieceIsDefault(d.fields[k], m.slots[k]);
        if Deselected(d, d, m, |d.fields|, k) {
          DeselectedIsAbsent(d, d, m, |d.fields|, k);
        }
      }
      assert r.slots[k] == MergedSlot(d, DefaultMessage(d), d, m, |d.fields|, 0, k);
    }
    assert r.slots == m.slots;
  }

  lemma SlotIsStored(d: Desc, m: Message, k: nat)
    requires StoredMessage(d, m) && k < |d.fields|
    ensures |m.slots| == |d.fields| && StoredSlot(d.fields[k], m.slots[k])
  {
    hide StoredSlot;
  }

  lemma OwnPosition(d: Desc, k: nat)
    requires Proper(d) && k < |d.fields|
    ensures Position(d.fields, d.fields[k].tag) == k
  {
  }

  lemma DeselectedIsAbsent(d: Desc, w: Desc, m: Message, i: nat, k: nat)
    requires |m.slots| == |w.fields| && i <= |w.fields| && k < |d.fields| && Deselected(d, w, m, i, k)
    ensures DefaultSlot(d.fields[k]) == Absent
  {
  }

  /** A slot that is left out holds what a fresh struct holds. */
  lemma NoPieceIsDefault(f: Field, slot: Slot)
    requires StoredSlot(f, slot) && !HasPiece(f, slot, 0)
    ensures slot == DefaultSlot(f) && !f.rule.Required?
  {
    hide Stored, IsDefault, DefaultValue;
    if f.rule == Optional(false) {
      DefaultIsUnique(f.kind, slot.v);
    }
  }

  lemma {:induction false} SlotIntoDefault(f: Field, slot: Slot)
    requires ProperKind(f.kind) && StoredSlot(f, slot)
    ensures HasPiece(f, slot, 0) ==> ReadSlot(f, DefaultSlot(f), f, slot) == slot
    decreases slot
  {
    hide ProperKind, Stored, DefaultValue, ReadValue, IsDefault;
    if slot.Many? {
      forall j | 0 <= j < |slot.items|
        ensures ReadItems(f, f, slot)[j] == slot.items[j]
      {
        ReadIntoDefault(f.kind, slot.items[j]);
      }
      assert ReadItems(f, f, slot) == slot.items;
    } else if HoldsValue(slot) {
      ReadIntoDefault(f.kind, slot.v);
    }
  }

  /** Between tables of which one takes the other's messages: what both know is read as it was sent, and what only the
      reader knows stays as in a fresh struct. */
  lemma KnownIsRead(d: Desc, w: Desc, m: Message, k: nat)
    requires Proper(d) && TakesAll(d, w) && StoredMessage(w, m) && k < |d.fields|
    ensures |m.slots| == |w.fields|
    ensures var p := Position(w.fields, d.fields[k].tag);
            var slot := Merged(d, DefaultMessage(d), w, m, |w.fields|, 0).slots[k];
            if p == |w.fields| then slot == DefaultSlot(d.fields[k])
            else d.fields[k].kind == w.fields[p].kind || !d.fields[k].kind.MessageKind? ==> slot == m.slots[p]
  {
    hide Proper, StoredSlot, ReadSlot, HasPiece, Deselected, TakesField, DefaultSlot;
    StoredSize(w, m);
    FieldIsProper(d, k);
    var f, p := d.fields[k], Position(w.fields, d.fields[k].tag);
    if Deselected(d, w, m, |w.fields|, k) {
      DeselectedIsAbsent(d, w, m, |w.fields|, k);
    }
    if p < |w.fields| {
      SlotIsStored(w, m, p);
      assert TakesField(f, w.fields[p]);
      if f.kind == w.fields[p].kind || !f.kind.MessageKind? {
        KnownSlotIsRead(f, w.fields[p], m.slots[p]);
      }
    }
  }

  lemma KnownSlotIsRead(f: Field, g: Field, slot: Slot)
    requires ProperKind(f.kind) && TakesField(f, g) && StoredSlot(g, slot)
    requires f.kind == g.kind || !f.kind.MessageKind?
    ensures HasPiece(g, slot, 0) ==> ReadSlot(f, DefaultSlot(f), g, slot) == slot
    ensures !HasPiece(g, slot, 0) ==> slot == DefaultSlot(f)
  {
    hide ProperKind, Stored, DefaultValue, ReadValue, IsDefault, TakesAll, Takes;
    SameDefault(f.kind, g.kind);
    if !HasPiece(g, slot, 0) {
      NoPieceIsDefault(g, slot);
    } else if slot.Many? {
      forall j | 0 <= j < |slot.items|
        ensures ReadItems(f, g, slot)[j] == slot.items[j]
      {
        KnownValueIsRead(f.kind, g.kind, slot.items[j]);
      }
      assert ReadItems(f, g, slot) == slot.items;
    } else {
      KnownValueIsRead(f.kind, g.kind, slot.v);
    }
  }

  lemma KnownValueIsRead(kind: Kind, sent: Kind, v: Value)
    requires ProperKind(kind) && Stored(sent, v) && (kind == sent || !kind.MessageKind?)
    ensures ReadValue(kind, sent, DefaultValue(kind), v) == v
  {
    hide ProperKind, Stored, DefaultValue, ReadValue;
    if kind.MessageKind? {
      ReadIntoDefault(kind, v);
    } else {
      PlainIsRead(kind, sent, DefaultValue(kind), v);
    }
  }

  lemma SameDefault(kind: Kind, sent: Kind)
    requires Takes(kind, sent) && (kind == sent || !kind.MessageKind?)
    ensures DefaultValue(kind) == DefaultValue(sent)
  {
  }

  /** What a message is read on top of: plain values and the choice of a oneof are replaced, arrays are continued, and
      what is not sent stays, except that a oneof has one member at a time. */
  lemma ReadOnTop(d: Desc, cur: Message, w: Desc, m: Message, k: nat)
    requires TakesAll(d, w) && StoredMessage(w, m) && StoredMessage(d, cur) && k < |d.fields|
    ensures |m.slots| == |w.fields| && |cur.slots| == |d.fields|
    ensures var f, p := d.fields[k], Position(w.fields, d.fields[k].tag);
            var slot := Merged(d, cur, w, m, |w.fields|, 0).slots[k];
            if p < |w.fields| && HasPiece(w.fields[p], m.slots[p], 0) then
              !f.kind.MessageKind? ==>
                if f.rule.Repeated? then
                  cur.slots[k].Many? && m.slots[p].Many? && slot == Many(cur.slots[k].items + m.slots[p].items)
                else slot == m.slots[p]
            else if f.rule.Oneof? && OtherIsSent(d, w, m, k) then slot == Absent
            else slot == cur.slots[k]
  {
    hide StoredSlot, TakesField, ReadSlot, HasPiece;
    StoredSize(w, m);
    StoredSize(d, cur);
    var f, p := d.fields[k], Position(w.fields, d.fields[k].tag);
    assert Merged(d, cur, w, m, |w.fields|, 0).slots[k] == MergedSlot(d, cur, w, m, |w.fields|, 0, k);
    if p < |w.fields| && HasPiece(w.fields[p], m.slots[p], 0) {
      assert TakesField(f, w.fields[p]);
      SlotIsStored(w, m, p);
      SlotIsStored(d, cur, k);
      SlotOnTop(f, cur.slots[k], w.fields[p], m.slots[p]);
    }
  }

  /** The writer sends another member of the field's oneof. */
  ghost predicate OtherIsSent(d: Desc, w: Desc, m: Message, k: nat)
    requires |m.slots| == |w.fields| && k < |d.fields|
  {
    exists q :: && 0 <= q < |d.fields| && q != k && d.fields[q].rule == d.fields[k].rule
                && var p := Position(w.fields, d.fields[q].tag);
                   p < |w.fields| && HasPiece(w.fields[p], m.slots[p], 0)
  }

  lemma SlotOnTop(f: Field, cur: Slot, g: Field, slot: Slot)
    requires TakesField(f, g) && StoredSlot(g, slot) && StoredSlot(f, cur) && HasPiece(g, slot, 0)
    ensures f.rule.Repeated? ==> cur.Many? && slot.Many?
    ensures !f.kind.MessageKind? ==>
              ReadSlot(f, cur, g, slot) == if f.rule.Repeated? then Many(cur.items + slot.items) else slot
  {
    hide Stored, DefaultValue, ReadValue, IsDefault, TakesAll, Takes;
    if !f.kind.MessageKind? {
      if slot.Many? {
        forall j | 0 <= j < |slot.items|
          ensures ReadItems(f, g, slot)[j] == slot.items[j]
        {
          PlainIsRead(f.kind, g.kind, DefaultValue(f.kind), slot.items[j]);
        }
        assert ReadItems(f, g, slot) == slot.items;
      } else {
        PlainIsRead(f.kind, g.kind, StartValue(f, cur), slot.v);
      }
    }
  }

  /** A reader with some of a writer's fields left out can read its messages. */
  lemma PartTakes(d: Desc, w: Desc)
    requires Proper(w) && forall k :: 0 <= k < |d.fields| ==> d.fields[k] in w.fields
    ensures TakesAll(d, w)
  {
    hide ProperKind;
    forall k, p | 0 <= k < |d.fields| && 0 <= p < |w.fields| && d.fields[k].tag == w.fields[p].tag
      ensures TakesField(d.fields[k], w.fields[p])
    {
      var q :| 0 <= q < |w.fields| && w.fields[q] == d.fields[k];
      assert p == q && ProperKind(w.fields[q].kind);
      KindTakesItself(w.fields[q].kind);
    }
    forall k | 0 <= k < |d.fields| && d.fields[k].rule.Required?
      ensures exists p :: 0 <= p < |w.fields| && w.fields[p].tag == d.fields[k].tag
    {
      var q :| 0 <= q < |w.fields| && w.fields[q] == d.fields[k];
    }
  }
}
