/** The encoder (nanopb: pb_encode.c). A stream either writes into a buffer or only counts; the sizing
    pass and the writing pass agree at every depth. */
module PbEncode {
  import opened Coding
  import opened Varints
  import opened Protobuf

  datatype OState = OState(written: nat, out: seq<Byte>)

  /** What every encoding step promises. It succeeds exactly when what it encodes is possible and fits, and
      then the stream has moved on by exactly these bytes, written or only counted. */
  predicate Emits(sizing: bool, maxSize: nat, a: OState, b: OState, ok: bool, possible: bool, bytes: seq<Byte>) {
    && (ok <==> possible && (sizing || a.written + |bytes| <= maxSize))
    && (ok ==> b == OState(a.written + |bytes|, if sizing then a.out else a.out + bytes))
  }

  lemma EmitsBoth(sizing: bool, maxSize: nat, a: OState, b: OState, c: OState, ok1: bool, ok2: bool,
                  possible1: bool, possible2: bool, bytes1: seq<Byte>, bytes2: seq<Byte>)
    requires Emits(sizing, maxSize, a, b, ok1, possible1, bytes1)
    requires ok1 ==> Emits(sizing, maxSize, b, c, ok2, possible2, bytes2)
    ensures Emits(sizing, maxSize, a, c, ok1 && ok2, possible1 && possible2, bytes1 + bytes2)
  {
    assert (a.out + bytes1) + bytes2 == a.out + (bytes1 + bytes2);
  }

  lemma EmitsNothing(sizing: bool, maxSize: nat, a: OState)
    requires sizing || a.written <= maxSize
    ensures Emits(sizing, maxSize, a, a, true, true, [])
  {
    assert a.out + [] == a.out;
  }

  class OStream {
    const sizing: bool            // no callback
    const maxSize: nat
    var bytesWritten: nat
    var out: seq<Byte>

    predicate Valid()
      reads this
    {
      sizing || bytesWritten <= maxSize
    }

    function State(): OState
      reads this
    {
      OState(bytesWritten, out)
    }

    constructor (sizing: bool, maxSize: nat, out: seq<Byte>)
      ensures Valid() && this.sizing == sizing && this.maxSize == maxSize && State() == OState(0, out)
    {
      this.sizing, this.maxSize, this.out, bytesWritten := sizing, maxSize, out, 0;
    }

    /** pb_write */
    method Write(buf: seq<Byte>) returns (ok: bool)
      requires Valid()
      modifies this
      ensures Valid() && Emits(sizing, maxSize, old(State()), State(), ok, true, buf)
    {
      if |buf| > 0 && !sizing {
        if bytesWritten + |buf| > maxSize {
          return false;
        }
        out := out + buf;
      }
      bytesWritten := bytesWritten + |buf|;
      return true;
    }

    /** pb_write of a size without data, on a sizing stream. */
    method CountOnly(size: nat) returns (ok: bool)
      requires Valid() && sizing
      modifies this
      ensures Valid() && ok && State() == OState(old(bytesWritten) + size, old(out))
    {
      bytesWritten := bytesWritten + size;
      return true;
    }

    /** pb_encode_varint */
    method WriteVarint(value: nat) returns (ok: bool)
      requires Valid()
      modifies this
      ensures Valid() && Emits(sizing, maxSize, old(State()), State(), ok, true, Varint(value))
    {
      hide Varint, GroupsSoFar, Emits;
      OneGroup(value);
      if value <= 0x7f {
        ok := Write([value]);
        return;
      }
      var buffer: seq<Byte> := [];
      var rest := value;
      while rest != 0
        invariant GroupsSoFar(buffer, rest, value)
        modifies {}
        decreases rest
      {
        GroupStep(buffer, rest, value);
        buffer := buffer + [LowGroup(rest)];
        rest := rest / 128;
      }
      LastGroup(buffer, value);
      var n := |buffer| - 1;
      buffer := buffer[n := buffer[n] % 128];
      ok := Write(buffer);
    }

    /** pb_encode_fixed32, pb_encode_fixed64 */
    method WriteFixed(value: nat, count: nat) returns (ok: bool)
      requires Valid()
      modifies this
      ensures Valid() && Emits(sizing, maxSize, old(State()), State(), ok, true, LittleEndian(value, count))
    {
      var bytes: seq<Byte> := [];
      var rest := value;
      for i := 0 to count
        invariant bytes + LittleEndian(rest, count - i) == LittleEndian(value, count)
      {
        assert bytes + LittleEndian(rest, count - i)
            == (bytes + [rest % 256]) + LittleEndian(rest / 256, count - i - 1);
        bytes := bytes + [rest % 256];
        rest := rest / 256;
      }
      assert bytes + [] == bytes;
      ok := Write(bytes);
    }

    /** pb_encode_tag */
    method WriteTag(wire: nat, tag: nat) returns (ok: bool)
      requires Valid()
      modifies this
      ensures Valid() && Emits(sizing, maxSize, old(State()), State(), ok, true, TagBytes(wire, tag))
    {
      ok := WriteVarint(tag * 8 + wire);
    }

    /** pb_encode_string */
    method WriteString(bytes: seq<Byte>) returns (ok: bool)
      requires Valid()
      modifies this
      ensures Valid() && Emits(sizing, maxSize, old(State()), State(), ok, true, Varint(|bytes|) + bytes)
    {
      hide Emits, Varint;
      ghost var a := State();
      ok := WriteVarint(|bytes|);
      ghost var b, first := State(), ok;
      if ok {
        ok := Write(bytes);
      }
      EmitsBoth(sizing, maxSize, a, b, State(), first, ok, true, true, Varint(|bytes|), bytes);
    }
  }

  function LowGroup(n: nat): Byte {
    n % 128 + 128
  }

  /** The groups written so far, each marked, and the rest of the value make up the value's encoding; at
      the end only the mark of the last group is too much. */
  ghost predicate GroupsSoFar(buffer: seq<Byte>, rest: nat, value: nat) {
    && (rest != 0 ==> buffer + Varint(rest) == Varint(value))
    && (rest == 0 ==> buffer != [] && buffer[|buffer| - 1] >= 128
                      && buffer[..|buffer| - 1] + [buffer[|buffer| - 1] - 128] == Varint(value))
  }

  lemma OneGroup(value: nat)
    ensures value < 128 ==> Varint(value) == [value]
    ensures value != 0 ==> GroupsSoFar([], value, value)
  {
    assert [] + Varint(value) == Varint(value);
  }

  /** One group of seven bits more. */
  lemma GroupStep(buffer: seq<Byte>, rest: nat, value: nat)
    requires rest != 0 && GroupsSoFar(buffer, rest, value)
    ensures GroupsSoFar(buffer + [LowGroup(rest)], rest / 128, value)
  {
    var more := buffer + [LowGroup(rest)];
    assert more[..|more| - 1] == buffer;
    if rest / 128 != 0 {
      assert more + Varint(rest / 128) == buffer + ([LowGroup(rest)] + Varint(rest / 128));
    } else {
      assert Varint(rest) == [rest];
    }
  }

  lemma LastGroup(buffer: seq<Byte>, value: nat)
    requires GroupsSoFar(buffer, 0, value)
    ensures buffer != [] && buffer[|buffer| - 1 := buffer[|buffer| - 1] % 128] == Varint(value)
  {
    var n := |buffer| - 1;
    assert buffer[n := buffer[n] % 128] == buffer[..n] + [buffer[n] - 128];
  }

  // ----- The mutually recursive encoders -----

  /** pb_encode: all fields in order, stopping at the first that fails. */
  method Encode(s: OStream, d: Desc, m: Message) returns (ok: bool)
    requires s.Valid() && ShapedMessage(d, m)
    modifies s
    ensures s.Valid()
    ensures Emits(s.sizing, s.maxSize, old(s.State()), s.State(), ok,
                  EncodableMessage(d, m, |m.slots|), EncodeMessage(d, m, |m.slots|))
    decreases m, 0
  {
    hide Emits, EncodableMessage, EncodeMessage, EncodableSlot, EncodeSlot;
    ghost var a := s.State();
    MessageShape(d, m);
    NoFields(d, m);
    EmitsNothing(s.sizing, s.maxSize, a);
    for i := 0 to |d.fields|
      invariant s.Valid()
      invariant Emits(s.sizing, s.maxSize, a, s.State(), true, EncodableMessage(d, m, i), EncodeMessage(d, m, i))
    {
      ghost var b := s.State();
      ok := EncodeField(s, d.fields[i], m.slots[i]);
      EmitsBoth(s.sizing, s.maxSize, a, b, s.State(), true, ok, EncodableMessage(d, m, i),
                EncodableSlot(d.fields[i], m.slots[i]), EncodeMessage(d, m, i), EncodeSlot(d.fields[i], m.slots[i]));
      OneMoreField(d, m, i);
      if !ok {
        PrefixFails(s.sizing, s.maxSize, a, s.State(), d, m, i + 1);
        return false;
      }
    }
    return true;
  }

  /** encode_basic_field */
  method EncodeField(s: OStream, f: Field, slot: Slot) returns (ok: bool)
    requires s.Valid() && ShapedSlot(f, slot)
    modifies s
    ensures s.Valid()
    ensures Emits(s.sizing, s.maxSize, old(s.State()), s.State(), ok, EncodableSlot(f, slot), EncodeSlot(f, slot))
    decreases slot, 1
  {
    hide Emits, Encodable, EncodeValue, EncodableItems, EncodeItems, EncodeTagged, IsDefault, Shaped;
    EmitsNothing(s.sizing, s.maxSize, s.State());
    match f.rule
    case Required =>
      ok := EncodeTagAndValue(s, f, slot.v);
    case Optional(flagged) =>
      if flagged {
        ok := true;
        if slot.Present? {
          ok := EncodeTagAndValue(s, f, slot.v);
        }
      } else {
        ok := true;
        if !IsDefault(f.kind, slot.v) {
          ok := EncodeTagAndValue(s, f, slot.v);
        }
      }
    case Repeated(_) =>
      ok := EncodeArray(s, f, slot);
    case Oneof(_) =>
      ok := true;
      if slot.Present? {
        ok := EncodeTagAndValue(s, f, slot.v);
      }
  }

  method EncodeTagAndValue(s: OStream, f: Field, v: Value) returns (ok: bool)
    requires s.Valid() && Shaped(f.kind, v)
    modifies s
    ensures s.Valid()
    ensures Emits(s.sizing, s.maxSize, old(s.State()), s.State(), ok, Encodable(f.kind, v),
                  TagBytes(WireType(f.kind), f.tag) + EncodeValue(f.kind, v))
    decreases v, 1
  {
    hide Emits, Encodable, EncodeValue, Shaped, TagBytes, WireType;
    ghost var a := s.State();
    ok := s.WriteTag(WireType(f.kind), f.tag);
    ghost var b, first := s.State(), ok;
    if ok {
      ok := EncodeOne(s, f.kind, v);
    }
    EmitsBoth(s.sizing, s.maxSize, a, b, s.State(), first, ok, true, Encodable(f.kind, v),
              TagBytes(WireType(f.kind), f.tag), EncodeValue(f.kind, v));
  }

  /** encode_array: packed where the type allows it. */
  method EncodeArray(s: OStream, f: Field, slot: Slot) returns (ok: bool)
    requires s.Valid() && ShapedSlot(f, slot) && f.rule.Repeated?
    modifies s
    ensures s.Valid()
    ensures Emits(s.sizing, s.maxSize, old(s.State()), s.State(), ok, EncodableSlot(f, slot), EncodeSlot(f, slot))
    decreases slot, 0, 2
  {
    hide Emits, Encodable, EncodeValue, EncodeItems, EncodeTagged, Shaped, TagBytes, Packable, EncodableItems;
    var count := |slot.items|;
    if count == 0 {
      EmptyArray(f, slot);
      EmitsNothing(s.sizing, s.maxSize, s.State());
      return true;
    }
    if count > f.rule.max {
      TooMany(s.sizing, s.maxSize, s.State(), f, slot);
      return false;
    }
    if Packable(f.kind) {
      ok := EncodePacked(s, f, slot);
    } else {
      ok := EncodeUnpacked(s, f, slot);
    }
  }

  /** A packed array: its size comes from arithmetic or from a sizing pass. */
  method EncodePacked(s: OStream, f: Field, slot: Slot) returns (ok: bool)
    requires s.Valid() && ShapedSlot(f, slot) && f.rule.Repeated? && Packable(f.kind)
    modifies s
    ensures s.Valid()
    ensures var body := EncodeItems(f.kind, slot, |slot.items|);
            Emits(s.sizing, s.maxSize, old(s.State()), s.State(), ok, EncodableItems(f.kind, slot, |slot.items|),
                  TagBytes(WIRE_STRING, f.tag) + Varint(|body|) + body)
    decreases slot, 0, 1
  {
    hide Emits, Encodable, EncodeValue, EncodeItems, Shaped, TagBytes, Varint, EncodableItems;
    ghost var a := s.State();
    ghost var body := EncodeItems(f.kind, slot, |slot.items|);
    PackableIsEncodable(f.kind, slot);
    ok := s.WriteTag(WIRE_STRING, f.tag);
    ghost var b, ok1 := s.State(), ok;
    if !ok {
      EmitsBoth(s.sizing, s.maxSize, a, b, b, false, false, true, true, TagBytes(WIRE_STRING, f.tag), Varint(|body|) + body);
      assert TagBytes(WIRE_STRING, f.tag) + (Varint(|body|) + body) == TagBytes(WIRE_STRING, f.tag) + Varint(|body|) + body;
      return;
    }
    var size: nat;
    if f.kind.Fixed32Kind? {
      size := 4 * |slot.items|;
      FixedItems(f.kind, slot, |slot.items|);
    } else if f.kind.Fixed64Kind? {
      size := 8 * |slot.items|;
      FixedItems(f.kind, slot, |slot.items|);
    } else {
      var sizes := new OStream(true, 0, []);
      var counted := EncodeElements(sizes, f.kind, slot);
      SizingSucceeds(0, OState(0, []), sizes.State(), counted, body);
      size := sizes.bytesWritten;
    }
    ok := s.WriteVarint(size);
    ghost var c, ok2 := s.State(), ok;
    EmitsBoth(s.sizing, s.maxSize, a, b, c, ok1, ok2, true, true, TagBytes(WIRE_STRING, f.tag), Varint(|body|));
    if ok {
      if s.sizing {
        ok := s.CountOnly(size);
        CountedEmits(s.maxSize, c, s.State(), body);
      } else {
        ok := EncodeElements(s, f.kind, slot);
      }
    }
    EmitsBoth(s.sizing, s.maxSize, a, c, s.State(), ok2, ok, true, true, TagBytes(WIRE_STRING, f.tag) + Varint(|body|), body);
  }

  /** The items of a packed array, one after the other. */
  method EncodeElements(s: OStream, kind: Kind, slot: Slot) returns (ok: bool)
    requires s.Valid() && slot.Many? && forall j :: 0 <= j < |slot.items| ==> Shaped(kind, slot.items[j])
    requires Packable(kind)
    modifies s
    ensures s.Valid()
    ensures Emits(s.sizing, s.maxSize, old(s.State()), s.State(), ok, true, EncodeItems(kind, slot, |slot.items|))
    decreases slot, 0, 0
  {
    hide Emits, Encodable, EncodeValue, EncodeItems, Shaped;
    ghost var a := s.State();
    NoItems(kind, slot);
    EmitsNothing(s.sizing, s.maxSize, a);
    for i := 0 to |slot.items|
      invariant s.Valid()
      invariant Emits(s.sizing, s.maxSize, a, s.State(), true, true, EncodeItems(kind, slot, i))
    {
      ghost var b := s.State();
      ok := EncodeOne(s, kind, slot.items[i]);
      PackableAlways(kind, slot.items[i]);
      EmitsBoth(s.sizing, s.maxSize, a, b, s.State(), true, ok, true, true, EncodeItems(kind, slot, i),
                EncodeValue(kind, slot.items[i]));
      OneMoreItem(kind, slot, i);
      if !ok {
        ItemsFail(s.sizing, s.maxSize, a, s.State(), kind, slot, i + 1);
        return false;
      }
    }
    return true;
  }

  /** The items of an unpacked array, each with its tag. */
  method EncodeUnpacked(s: OStream, f: Field, slot: Slot) returns (ok: bool)
    requires s.Valid() && ShapedSlot(f, slot) && f.rule.Repeated?
    modifies s
    ensures s.Valid()
    ensures Emits(s.sizing, s.maxSize, old(s.State()), s.State(), ok, EncodableItems(f.kind, slot, |slot.items|),
                  EncodeTagged(f, slot, |slot.items|))
    decreases slot, 0, 1
  {
    hide Emits, Encodable, EncodeValue, EncodeTagged, Shaped, TagBytes, WireType, EncodableItems;
    ghost var a := s.State();
    NoTaggedItems(f, slot);
    EmitsNothing(s.sizing, s.maxSize, a);
    for i := 0 to |slot.items|
      invariant s.Valid()
      invariant Emits(s.sizing, s.maxSize, a, s.State(), true, EncodableItems(f.kind, slot, i), EncodeTagged(f, slot, i))
    {
      ghost var b := s.State();
      ok := EncodeTagAndValue(s, f, slot.items[i]);
      EmitsBoth(s.sizing, s.maxSize, a, b, s.State(), true, ok, EncodableItems(f.kind, slot, i),
                Encodable(f.kind, slot.items[i]), EncodeTagged(f, slot, i),
                TagBytes(WireType(f.kind), f.tag) + EncodeValue(f.kind, slot.items[i]));
      OneMoreTagged(f, slot, i);
      if !ok {
        TaggedFail(s.sizing, s.maxSize, a, s.State(), f, slot, i + 1);
        return false;
      }
    }
    return true;
  }

  /** The field encoders of PB_ENCODERS. */
  method EncodeOne(s: OStream, kind: Kind, v: Value) returns (ok: bool)
    requires s.Valid() && Shaped(kind, v)
    modifies s
    ensures s.Valid()
    ensures Emits(s.sizing, s.maxSize, old(s.State()), s.State(), ok, Encodable(kind, v), EncodeValue(kind, v))
    decreases v, 0
  {
    hide Emits, EncodableMessage, EncodeMessage, ShapedMessage, Varint, LittleEndian;
    match kind
    case BoolKind => ok := s.WriteVarint(if v.b then 1 else 0);
    case VarintKind(_) => ok := s.WriteVarint(if v.n < 0 then v.n + TWO_TO_THE_64 else v.n);
    case UVarintKind(_) => ok := s.WriteVarint(v.n);
    case SVarintKind(_) => ok := s.WriteVarint(if v.n < 0 then -2 * v.n - 1 else 2 * v.n);
    case Fixed32Kind => ok := s.WriteFixed(v.n, 4);
    case Fixed64Kind => ok := s.WriteFixed(v.n, 8);
    case BytesKind(capacity) =>
      if |v.bytes| > capacity {
        Impossible(s.sizing, s.maxSize, s.State(), EncodeValue(kind, v));
        return false;
      }
      ok := s.WriteString(v.bytes);
    case StringKind(_) => ok := s.WriteString(v.bytes);
    case MessageKind(desc) => ok := EncodeSubmessage(s, desc, v.msg);
    case FixedBytesKind(_) => ok := s.WriteString(v.bytes);
  }

  /** pb_encode_submessage: a sizing pass, the size, then a writing pass into a substream of that size. The
      two passes agree, so the size written is right and the check at the end never fails. */
  method EncodeSubmessage(s: OStream, d: Desc, m: Message) returns (ok: bool)
    requires s.Valid() && ShapedMessage(d, m)
    modifies s
    ensures s.Valid()
    ensures var body := EncodeMessage(d, m, |m.slots|);
            Emits(s.sizing, s.maxSize, old(s.State()), s.State(), ok, EncodableMessage(d, m, |m.slots|),
                  Varint(|body|) + body)
    decreases m, 1
  {
    hide Emits, EncodableMessage, EncodeMessage, ShapedMessage, Varint;
    ghost var a := s.State();
    ghost var body := EncodeMessage(d, m, |m.slots|);
    ghost var possible := EncodableMessage(d, m, |m.slots|);
    var sizes := new OStream(true, 0, []);
    ok := Encode(sizes, d, m);
    SizingOutcome(0, OState(0, []), sizes.State(), ok, possible, body);
    if !ok {
      Impossible(s.sizing, s.maxSize, a, Varint(|body|) + body);
      return false;
    }
    var size := sizes.bytesWritten;
    ok := s.WriteVarint(size);
    ghost var b, ok1 := s.State(), ok;
    if !ok {
      EmitsBoth(s.sizing, s.maxSize, a, b, b, false, false, true, true, Varint(|body|), body);
      return false;
    }
    if s.sizing {
      ok := s.CountOnly(size);
      CountedEmits(s.maxSize, b, s.State(), body);
      EmitsBoth(s.sizing, s.maxSize, a, b, s.State(), true, true, true, true, Varint(|body|), body);
      return;
    }
    if s.bytesWritten + size > s.maxSize {
      NoRoom(s.maxSize, b, body);
      EmitsBoth(s.sizing, s.maxSize, a, b, b, true, false, true, true, Varint(|body|), body);
      return false;
    }
    var sub := new OStream(false, size, s.out);
    ghost var start := sub.State();
    var status := Encode(sub, d, m);
    ExactFit(size, start, sub.State(), status, body);
    s.bytesWritten := s.bytesWritten + sub.bytesWritten;
    s.out := sub.out;
    ok := status && sub.bytesWritten == size;
    SubmessageEmits(s.maxSize, b, s.State(), body);
    EmitsBoth(s.sizing, s.maxSize, a, b, s.State(), true, ok, true, true, Varint(|body|), body);
  }

  /** pb_get_encoded_size: the sizing pass gives the length of what the writing pass writes. */
  method GetEncodedSize(d: Desc, m: Message) returns (ok: bool, size: nat)
    requires ShapedMessage(d, m)
    ensures ok <==> EncodableMessage(d, m, |m.slots|)
    ensures ok ==> size == |EncodeMessage(d, m, |m.slots|)|
  {
    hide ShapedMessage, EncodableMessage, EncodeMessage;
    var s := new OStream(true, 0, []);
    ok := Encode(s, d, m);
    size := s.bytesWritten;
  }

  /** pb_encode into a buffer: it succeeds exactly when the message is encodable and the buffer has at least
      the encoded size, and then holds exactly the encoding. */
  method EncodeToBuffer(d: Desc, m: Message, room: nat) returns (ok: bool, bytes: seq<Byte>)
    requires ShapedMessage(d, m)
    ensures ok <==> EncodableMessage(d, m, |m.slots|) && |EncodeMessage(d, m, |m.slots|)| <= room
    ensures ok ==> bytes == EncodeMessage(d, m, |m.slots|)
  {
    hide ShapedMessage, EncodableMessage, EncodeMessage;
    var s := new OStream(false, room, []);
    ok := Encode(s, d, m);
    bytes := s.out;
  }

  // ----- Steps of the loops -----

  lemma MessageShape(d: Desc, m: Message)
    requires ShapedMessage(d, m)
    ensures |m.slots| == |d.fields| && forall i :: 0 <= i < |d.fields| ==> ShapedSlot(d.fields[i], m.slots[i])
  {
    hide ShapedSlot;
  }

  lemma NoFields(d: Desc, m: Message)
    requires ShapedMessage(d, m)
    ensures EncodableMessage(d, m, 0) && EncodeMessage(d, m, 0) == []
  {
    hide ShapedMessage;
  }

  lemma OneMoreField(d: Desc, m: Message, i: nat)
    requires ShapedMessage(d, m) && i < |m.slots|
    ensures |m.slots| == |d.fields| && ShapedSlot(d.fields[i], m.slots[i])
    ensures EncodeMessage(d, m, i + 1) == EncodeMessage(d, m, i) + EncodeSlot(d.fields[i], m.slots[i])
    ensures EncodableMessage(d, m, i + 1) <==> EncodableMessage(d, m, i) && EncodableSlot(d.fields[i], m.slots[i])
  {
    hide ShapedSlot, EncodeSlot, EncodableSlot;
  }

  lemma {:induction false} MoreFields(d: Desc, m: Message, i: nat, n: nat)
    requires ShapedMessage(d, m) && i <= n <= |m.slots|
    ensures |EncodeMessage(d, m, i)| <= |EncodeMessage(d, m, n)|
    ensures EncodableMessage(d, m, n) ==> EncodableMessage(d, m, i)
    decreases n
  {
    hide ShapedMessage, EncodeMessage, EncodableMessage;
    if i < n {
      MoreFields(d, m, i, n - 1);
      OneMoreField(d, m, n - 1);
    }
  }

  lemma PrefixFails(sizing: bool, maxSize: nat, a: OState, b: OState, d: Desc, m: Message, i: nat)
    requires ShapedMessage(d, m) && i <= |m.slots|
    requires Emits(sizing, maxSize, a, b, false, EncodableMessage(d, m, i), EncodeMessage(d, m, i))
    ensures Emits(sizing, maxSize, a, b, false, EncodableMessage(d, m, |m.slots|), EncodeMessage(d, m, |m.slots|))
  {
    hide ShapedMessage, EncodeMessage, EncodableMessage;
    MoreFields(d, m, i, |m.slots|);
  }

  lemma EmptyArray(f: Field, slot: Slot)
    requires ShapedSlot(f, slot) && f.rule.Repeated? && slot.items == []
    ensures EncodableSlot(f, slot) && EncodeSlot(f, slot) == []
  {
  }

  lemma TooMany(sizing: bool, maxSize: nat, a: OState, f: Field, slot: Slot)
    requires ShapedSlot(f, slot) && f.rule.Repeated? && |slot.items| > f.rule.max
    ensures Emits(sizing, maxSize, a, a, false, EncodableSlot(f, slot), EncodeSlot(f, slot))
  {
    hide EncodeSlot;
  }

  lemma Impossible(sizing: bool, maxSize: nat, a: OState, bytes: seq<Byte>)
    ensures Emits(sizing, maxSize, a, a, false, false, bytes)
  {
  }

  lemma NoRoom(maxSize: nat, a: OState, bytes: seq<Byte>)
    requires a.written + |bytes| > maxSize
    ensures Emits(false, maxSize, a, a, false, true, bytes)
  {
  }

  lemma PackableAlways(kind: Kind, v: Value)
    requires Packable(kind) && Shaped(kind, v)
    ensures Encodable(kind, v)
  {
  }

  lemma PackableIsEncodable(kind: Kind, slot: Slot)
    requires Packable(kind) && slot.Many? && forall j :: 0 <= j < |slot.items| ==> Shaped(kind, slot.items[j])
    ensures EncodableItems(kind, slot, |slot.items|)
  {
    hide Shaped, Encodable;
    forall j | 0 <= j < |slot.items|
      ensures Encodable(kind, slot.items[j])
    {
      PackableAlways(kind, slot.items[j]);
    }
  }

  lemma {:induction false} FixedItems(kind: Kind, slot: Slot, n: nat)
    requires slot.Many? && n <= |slot.items| && forall j :: 0 <= j < |slot.items| ==> Shaped(kind, slot.items[j])
    ensures kind.Fixed32Kind? ==> |EncodeItems(kind, slot, n)| == 4 * n
    ensures kind.Fixed64Kind? ==> |EncodeItems(kind, slot, n)| == 8 * n
    decreases n
  {
    hide Shaped, LittleEndian;
    if n > 0 {
      FixedItems(kind, slot, n - 1);
    }
  }

  lemma NoItems(kind: Kind, slot: Slot)
    requires slot.Many? && forall j :: 0 <= j < |slot.items| ==> Shaped(kind, slot.items[j])
    ensures EncodeItems(kind, slot, 0) == []
  {
    hide Shaped;
  }

  lemma OneMoreItem(kind: Kind, slot: Slot, i: nat)
    requires slot.Many? && i < |slot.items| && forall j :: 0 <= j < |slot.items| ==> Shaped(kind, slot.items[j])
    ensures EncodeItems(kind, slot, i + 1) == EncodeItems(kind, slot, i) + EncodeValue(kind, slot.items[i])
  {
    hide Shaped, EncodeValue;
  }

  lemma {:induction false} MoreItems(kind: Kind, slot: Slot, i: nat, n: nat)
    requires slot.Many? && i <= n <= |slot.items| && forall j :: 0 <= j < |slot.items| ==> Shaped(kind, slot.items[j])
    ensures |EncodeItems(kind, slot, i)| <= |EncodeItems(kind, slot, n)|
    decreases n
  {
    hide Shaped, EncodeItems;
    if i < n {
      MoreItems(kind, slot, i, n - 1);
      OneMoreItem(kind, slot, n - 1);
    }
  }

  lemma ItemsFail(sizing: bool, maxSize: nat, a: OState, b: OState, kind: Kind, slot: Slot, i: nat)
    requires slot.Many? && i <= |slot.items| && forall j :: 0 <= j < |slot.items| ==> Shaped(kind, slot.items[j])
    requires Emits(sizing, maxSize, a, b, false, true, EncodeItems(kind, slot, i))
    ensures Emits(sizing, maxSize, a, b, false, true, EncodeItems(kind, slot, |slot.items|))
  {
    hide Shaped, EncodeItems;
    MoreItems(kind, slot, i, |slot.items|);
  }

  lemma NoTaggedItems(f: Field, slot: Slot)
    requires slot.Many? && forall j :: 0 <= j < |slot.items| ==> Shaped(f.kind, slot.items[j])
    ensures EncodeTagged(f, slot, 0) == [] && EncodableItems(f.kind, slot, 0)
  {
    hide Shaped;
  }

  lemma OneMoreTagged(f: Field, slot: Slot, i: nat)
    requires slot.Many? && i < |slot.items| && forall j :: 0 <= j < |slot.items| ==> Shaped(f.kind, slot.items[j])
    ensures EncodeTagged(f, slot, i + 1)
         == EncodeTagged(f, slot, i) + (TagBytes(WireType(f.kind), f.tag) + EncodeValue(f.kind, slot.items[i]))
    ensures EncodableItems(f.kind, slot, i + 1) <==> EncodableItems(f.kind, slot, i) && Encodable(f.kind, slot.items[i])
  {
    hide Shaped, EncodeValue, TagBytes, Encodable, WireType;
    var t, v := TagBytes(WireType(f.kind), f.tag), EncodeValue(f.kind, slot.items[i]);
    assert EncodeTagged(f, slot, i) + t + v == EncodeTagged(f, slot, i) + (t + v);
  }

  lemma {:induction false} MoreTagged(f: Field, slot: Slot, i: nat, n: nat)
    requires slot.Many? && i <= n <= |slot.items| && forall j :: 0 <= j < |slot.items| ==> Shaped(f.kind, slot.items[j])
    ensures |EncodeTagged(f, slot, i)| <= |EncodeTagged(f, slot, n)|
    ensures EncodableItems(f.kind, slot, n) ==> EncodableItems(f.kind, slot, i)
    decreases n
  {
    hide Shaped, EncodeTagged, EncodableItems;
    if i < n {
      MoreTagged(f, slot, i, n - 1);
      OneMoreTagged(f, slot, n - 1);
    }
  }

  lemma TaggedFail(sizing: bool, maxSize: nat, a: OState, b: OState, f: Field, slot: Slot, i: nat)
    requires slot.Many? && i <= |slot.items| && forall j :: 0 <= j < |slot.items| ==> Shaped(f.kind, slot.items[j])
    requires Emits(sizing, maxSize, a, b, false, EncodableItems(f.kind, slot, i), EncodeTagged(f, slot, i))
    ensures Emits(sizing, maxSize, a, b, false, EncodableItems(f.kind, slot, |slot.items|),
                  EncodeTagged(f, slot, |slot.items|))
  {
    hide Shaped, EncodeTagged, EncodableItems;
    MoreTagged(f, slot, i, |slot.items|);
  }

  // ----- The two passes -----

  lemma SizingSucceeds(maxSize: nat, a: OState, b: OState, ok: bool, bytes: seq<Byte>)
    requires Emits(true, maxSize, a, b, ok, true, bytes)
    ensures ok && b.written == a.written + |bytes|
  {
  }

  lemma SizingOutcome(maxSize: nat, a: OState, b: OState, ok: bool, possible: bool, bytes: seq<Byte>)
    requires Emits(true, maxSize, a, b, ok, possible, bytes)
    ensures ok <==> possible
    ensures ok ==> b.written == a.written + |bytes|
  {
  }

  lemma CountedEmits(maxSize: nat, a: OState, b: OState, bytes: seq<Byte>)
    requires b == OState(a.written + |bytes|, a.out)
    ensures Emits(true, maxSize, a, b, true, true, bytes)
  {
  }

  /** A stream that starts empty and has exactly the encoded size always has room. */
  lemma ExactFit(size: nat, a: OState, b: OState, ok: bool, bytes: seq<Byte>)
    requires Emits(false, size, a, b, ok, true, bytes) && a.written == 0 && size == |bytes|
    ensures ok && b == OState(size, a.out + bytes)
  {
  }

  lemma SubmessageEmits(maxSize: nat, a: OState, b: OState, bytes: seq<Byte>)
    requires b == OState(a.written + |bytes|, a.out + bytes) && b.written <= maxSize
    ensures Emits(false, maxSize, a, b, true, true, bytes)
  {
  }
}
