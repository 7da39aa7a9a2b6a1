/** Encoding and then decoding a message, for every message a struct can hold. */
module PbRoundTrip {
  import opened Coding
  import opened Varints
  import opened Protobuf
  import opened PbStored
  import opened PbEncode
  import opened PbDecode
  import opened PbReading

  /** Every string has room for its terminator. */
  ghost predicate Terminated(kind: Kind, v: Value)
    requires Shaped(kind, v)
    decreases v
  {
    match kind
    case StringKind(room) => |v.bytes| < room
    case MessageKind(desc) => TerminatedMessage(desc, v.msg)
    case _ => true
  }

  ghost predicate TerminatedSlot(f: Field, slot: Slot)
    requires ShapedSlot(f, slot)
    decreases slot
  {
    if slot.Many? then forall j :: 0 <= j < |slot.items| ==> Terminated(f.kind, slot.items[j])
    else slot.Absent? || Terminated(f.kind, slot.v)
  }

  ghost predicate TerminatedMessage(d: Desc, m: Message)
    requires ShapedMessage(d, m)
    decreases m
  {
    forall i :: 0 <= i < |d.fields| ==> TerminatedSlot(d.fields[i], m.slots[i])
  }

  lemma {:induction false} DefaultFits(kind: Kind, v: Value)
    requires Shaped(kind, v) && IsDefault(kind, v) && ProperKind(kind)
    ensures Stored(kind, v)
    decreases v
  {
    if kind.MessageKind? {
      forall i | 0 <= i < |kind.desc.fields|
        ensures StoredSlot(kind.desc.fields[i], v.msg.slots[i])
      {
        var f, slot := kind.desc.fields[i], v.msg.slots[i];
        assert ShapedSlot(f, slot) && IsDefaultSlot(f, slot) && ProperKind(f.kind);
        if f.rule == Optional(false) {
          DefaultFits(f.kind, slot.v);
        }
      }
    }
  }

  /** What the encoder accepts is stored exactly when its strings are terminated. */
  lemma {:induction false} StoredIff(kind: Kind, v: Value)
    requires Shaped(kind, v) && Encodable(kind, v) && ProperKind(kind)
    ensures Stored(kind, v) <==> Terminated(kind, v)
    decreases v
  {
    if kind.MessageKind? {
      StoredMessageIff(kind.desc, v.msg);
    }
  }

  lemma {:induction false} StoredSlotIff(f: Field, slot: Slot)
    requires ShapedSlot(f, slot) && EncodableSlot(f, slot) && ProperKind(f.kind)
    ensures StoredSlot(f, slot) <==> TerminatedSlot(f, slot)
    decreases slot
  {
    if slot.Many? {
      forall j | 0 <= j < |slot.items|
        ensures Stored(f.kind, slot.items[j]) <==> Terminated(f.kind, slot.items[j])
      {
        StoredIff(f.kind, slot.items[j]);
      }
    } else if slot.Absent? {
    } else {
      if f.rule == Optional(false) && IsDefault(f.kind, slot.v) {
        DefaultFits(f.kind, slot.v);
        StoredIsEncodable(f.kind, slot.v);
      }
      StoredIff(f.kind, slot.v);
    }
  }

  lemma {:induction false} StoredMessageIff(d: Desc, m: Message)
    requires ShapedMessage(d, m) && EncodableMessage(d, m, |m.slots|) && Proper(d)
    ensures StoredMessage(d, m) <==> TerminatedMessage(d, m)
    decreases m
  {
    forall i | 0 <= i < |d.fields|
      ensures StoredSlot(d.fields[i], m.slots[i]) <==> TerminatedSlot(d.fields[i], m.slots[i])
    {
      StoredSlotIff(d.fields[i], m.slots[i]);
    }
  }

  /** The round trip: a message whose encoding fits the buffer decodes to itself exactly when its strings are
      terminated. */
  method RoundTrip(d: Desc, m: Message, room: nat) returns (encoded: bool, decoded: bool, result: Message)
    requires Proper(d) && ShapedMessage(d, m) && |EncodeMessage(d, m, |m.slots|)| < TWO_TO_THE_32
    ensures encoded <==> EncodableMessage(d, m, |m.slots|) && |EncodeMessage(d, m, |m.slots|)| <= room
    ensures encoded ==> (decoded && result == m <==> TerminatedMessage(d, m))
  {
    hide Proper, ShapedMessage, StoredMessage, EncodableMessage, EncodeMessage, TerminatedMessage, DefaultMessage, Merged,
         TakesAll;
    var bytes: seq<Byte>;
    encoded, bytes := EncodeToBuffer(d, m, room);
    decoded, result := false, m;
    if encoded {
      StoredMessageIff(d, m);
      DefaultMessageIsStored(d);
      ghost var sent := if StoredMessage(d, m) then m else DefaultMessage(d);
      TakesItself(d);
      MergedIntoDefault(d, sent);
      ghost var pieces;
      decoded, result, pieces := Decode(d, bytes, d, sent);
    }
  }

  /** Between two field tables of which the reader's can take what the writer's sends: every field that both know
      arrives as it was sent, fields that only the writer has are passed over, and fields that only the reader has stay
      at their defaults. */
  method Exchange(w: Desc, d: Desc, m: Message, room: nat) returns (encoded: bool, decoded: bool, result: Message)
    requires Proper(w) && Proper(d) && TakesAll(d, w)
    requires StoredMessage(w, m) && ShapedMessage(w, m) && |EncodeMessage(w, m, |m.slots|)| < TWO_TO_THE_32
    ensures encoded <==> |EncodeMessage(w, m, |m.slots|)| <= room
    ensures encoded ==> decoded && StoredMessage(d, result) && |result.slots| == |d.fields| && |m.slots| == |w.fields|
    ensures encoded ==> result == Merged(d, DefaultMessage(d), w, m, |w.fields|, 0)
    ensures encoded ==>
              forall k, p :: 0 <= k < |d.fields| && 0 <= p < |w.fields| && d.fields[k].tag == w.fields[p].tag
                             && (d.fields[k].kind == w.fields[p].kind || !d.fields[k].kind.MessageKind?) ==>
                result.slots[k] == m.slots[p]
    ensures encoded ==>
              forall k :: 0 <= k < |d.fields| && (forall p :: 0 <= p < |w.fields| ==> w.fields[p].tag != d.fields[k].tag) ==>
                result.slots[k] == DefaultSlot(d.fields[k])
  {
    hide Proper, ShapedMessage, StoredMessage, EncodableMessage, EncodeMessage, DefaultMessage, Merged, TakesAll, DefaultSlot;
    StoredMessageIsEncodable(w, m);
    var bytes: seq<Byte>;
    encoded, bytes := EncodeToBuffer(w, m, room);
    decoded, result := false, m;
    if encoded {
      ghost var pieces;
      decoded, result, pieces := Decode(d, bytes, w, m);
      forall k | 0 <= k < |d.fields|
        ensures var p := Position(w.fields, d.fields[k].tag);
                if p == |w.fields| then result.slots[k] == DefaultSlot(d.fields[k])
                else d.fields[k].kind == w.fields[p].kind || !d.fields[k].kind.MessageKind? ==>
                  result.slots[k] == m.slots[p]
      {
        KnownIsRead(d, w, m, k);
      }
      forall p, tag | 0 <= p < |w.fields| && w.fields[p].tag == tag
        ensures Position(w.fields, tag) == p
      {
        TagPosition(w, p, tag);
      }
    }
  }
}
