/** The decoder (nanopb: pb_decode.c, pb_common.c): field by field from a table, into a struct that starts
    at its defaults. Whatever the input, a successful decode leaves only values that their storage holds;
    on an encoding it gives back exactly the message. */
module PbDecode {
  import opened Coding
  import opened Varints
  import opened Protobuf
  import opened PbStored
  import opened PbStreams
  import opened PbReading
  import opened PbWire

  const MAX_REQUIRED_FIELDS := 64

  // ----- The field iterator -----

  function CountRequired(fields: seq<Field>, n: nat): nat
    requires n <= |fields|
  {
    if n == 0 then 0 else CountRequired(fields, n - 1) + if fields[n - 1].rule.Required? then 1 else 0
  }

  /** pb_field_iter_t, without the data pointers: a position in the table, and how many required fields lie
      before it. */
  class FieldIter {
    const fields: seq<Field>
    var pos: nat
    var requiredIndex: nat

    ghost predicate Valid()
      reads this
    {
      && (fields != [] ==> pos < |fields|) && (fields == [] ==> pos == 0)
      && requiredIndex == CountRequired(fields, pos)
    }

    constructor (fields: seq<Field>)
      ensures Valid() && this.fields == fields && pos == 0
    {
      this.fields := fields;
      pos, requiredIndex := 0, 0;
    }

    /** pb_field_iter_next: wraps around at the end. */
    method Next() returns (more: bool)
      requires Valid()
      modifies this
      ensures Valid() && (more <==> old(pos) + 1 < |fields|)
      ensures pos == if more then old(pos) + 1 else 0
    {
      if fields == [] {
        return false;
      }
      var previous := fields[pos];
      pos := pos + 1;
      if pos == |fields| {
        pos, requiredIndex := 0, 0;
        return false;
      }
      if previous.rule.Required? {
        requiredIndex := requiredIndex + 1;
      }
      return true;
    }

    /** pb_field_iter_find: from the current position around the whole table. */
    method Find(tag: nat) returns (found: bool)
      requires Valid()
      modifies this
      ensures Valid()
      ensures found <==> exists i :: 0 <= i < |fields| && fields[i].tag == tag
      ensures found ==> pos < |fields| && fields[pos].tag == tag
    {
      if fields == [] {
        return false;
      }
      var start := pos;
      ghost var steps := 0;
      while true
        invariant Valid() && 0 <= steps < |fields|
        invariant pos == if start + steps < |fields| then start + steps else start + steps - |fields|
        invariant forall i :: start <= i < |fields| && i < start + steps ==> fields[i].tag != tag
        invariant forall i :: 0 <= i < start + steps - |fields| ==> fields[i].tag != tag
        decreases |fields| - steps
      {
        if fields[pos].tag == tag {
          return true;
        }
        var _ := Next();
        steps := steps + 1;
        if pos == start {
          return false;
        }
      }
    }

    /** The end of pb_decode_noinit: how many required fields the table has. */
    method CountAllRequired() returns (count: nat)
      requires Valid()
      modifies this
      ensures Valid() && count == CountRequired(fields, |fields|)
    {
      if fields == [] {
        return 0;
      }
      var lastRequired := false;
      while true
        invariant Valid()
        decreases |fields| - pos
      {
        count, lastRequired := requiredIndex, fields[pos].rule.Required?;
        ghost var at := pos;
        var more := Next();
        if !more {
          assert at == |fields| - 1 && count == CountRequired(fields, at);
          break;
        }
      }
      if lastRequired {
        count := count + 1;
      }
    }
  }

  // ----- Single values -----

  function ToSigned64(value: nat): int
    requires value < TWO_TO_THE_64
  {
    if value >= TWO_TO_THE_64 / 2 then value - TWO_TO_THE_64 else value
  }

  function ToSigned32(value: nat): int {
    var low := value % TWO_TO_THE_32;
    if low >= 0x8000_0000 then low - TWO_TO_THE_32 else low
  }

  /** A cast to a signed integer of that many bytes. */
  function CastSigned(size: nat, n: int): int {
    (n + Span(size) / 2) % Span(size) - Span(size) / 2
  }

  function UnZigZag(value: nat): int {
    if value % 2 == 1 then -(value / 2) - 1 else value / 2
  }

  lemma CastKeeps(size: nat, n: int)
    requires IntSize(size)
    ensures CastSigned(size, n) == n <==> SignedFits(size, n)
  {
  }

  lemma SignedRoundTrip(size: nat, n: int)
    requires IntSize(size) && SignedFits(size, n)
    ensures var u := if n < 0 then n + TWO_TO_THE_64 else n;
            && 0 <= u < TWO_TO_THE_64
            && (size == 8 ==> ToSigned64(u) == n)
            && (size < 8 ==> ToSigned32(u) == n)
  {
  }

  /** A C string ends at its first zero. */
  function UpToNul(bytes: seq<Byte>): (r: seq<Byte>)
    ensures |r| <= |bytes| && 0 !in r
    ensures 0 !in bytes ==> r == bytes
  {
    if bytes == [] || bytes[0] == 0 then [] else [bytes[0]] + UpToNul(bytes[1..])
  }

  /** What a value decodes from: all lengths in it fit 32 bits. */
  ghost predicate Comes(kind: Kind, v: Value, rest: seq<Byte>, input: seq<Byte>)
    requires Stored(kind, v)
  {
    StoredIsEncodable(kind, v);
    input == EncodeValue(kind, v) + rest && |EncodeValue(kind, v)| < TWO_TO_THE_32
  }

  ghost predicate ComesMessage(d: Desc, m: Message, input: seq<Byte>)
    requires StoredMessage(d, m)
  {
    StoredMessageIsEncodable(d, m);
    input == EncodeMessage(d, m, |m.slots|) && |input| < TWO_TO_THE_32
  }

  /** What any bytes say to a field of a kind. An integer of four bytes or fewer is taken from the low 32 bits, so that
      a negative one may come as its 32-bit complement too. */
  ghost predicate Says(kind: Kind, b: seq<Byte>, v: Value) {
    match kind
    case BoolKind => v == BoolValue(GroupSum(b) % TWO_TO_THE_32 != 0)
    case VarintKind(size) =>
      v.IntValue? && (v.n - GroupSum(b)) % (if size == 8 then TWO_TO_THE_64 else TWO_TO_THE_32) == 0
    case UVarintKind(_) => v == IntValue(GroupSum(b) % TWO_TO_THE_64)
    case SVarintKind(_) =>
      var u := GroupSum(b) % TWO_TO_THE_64;
      v == IntValue(if u % 2 == 0 then u / 2 else -(u / 2) - 1)
    case Fixed32Kind => v == IntValue(FromLittleEndian(b))
    case Fixed64Kind => v == IntValue(FromLittleEndian(b))
    case BytesKind(_) => v.BytesValue? && IsText(b, v.bytes)
    case StringKind(_) =>
      && v.BytesValue?
      && exists text :: IsText(b, text) && v.bytes <= text && (v.bytes == text || text[|v.bytes|] == 0)
    case FixedBytesKind(length) =>
      v.BytesValue? && |v.bytes| == length && (IsText(b, v.bytes) || (IsText(b, []) && forall x :: x in v.bytes ==> x == 0))
    case MessageKind(_) => v.MessageValue?
  }

  /** What a value is decoded on top of. A submessage in an array starts at its defaults, any other where the struct
      is. */
  function Beneath(kind: Kind, repeated: bool, current: Value): Value {
    if repeated then DefaultValue(kind) else current
  }

  /** A writer's value is coming, and the reader can take it. */
  ghost predicate Awaits(kind: Kind, cur: Value, sent: Kind, v: Value, rest: seq<Byte>, input: seq<Byte>)
    requires Stored(sent, v)
  {
    Takes(kind, sent) && RoomInValue(kind, sent, cur, v) && Comes(sent, v, rest, input)
  }

  /** The field decoders of PB_DECODERS. */
  method DecodeOne(s: IStream, kind: Kind, repeated: bool, current: Value, ghost sent: Kind, ghost v: Value,
                   ghost rest: seq<Byte>)
    returns (ok: bool, result: Value)
    requires ProperKind(kind) && (kind.MessageKind? && !repeated ==> Stored(kind, current))
    requires ProperKind(sent) && Stored(sent, v)
    modifies s
    ensures IsRest(s.input, old(s.input))
    ensures ok ==> Stored(kind, result)
    ensures ok ==> Body(WireType(kind), Took(old(s.input), s.input)) && Says(kind, Took(old(s.input), s.input), result)
    ensures Awaits(kind, Beneath(kind, repeated, current), sent, v, rest, old(s.input)) ==>
              ok && s.input == rest && result == ReadValue(kind, sent, Beneath(kind, repeated, current), v)
    decreases kind, 1
  {
    hide Awaits, ReadValue, Takes, Comes, IsVarint, GroupSum, FromLittleEndian, LittleEndian, IsText, EncodeMessage,
         StoredMessage, Proper, DefaultMessage, DefaultValue, Varint, UpToNul, Encodable, EncodeValue;
    if Awaits(kind, Beneath(kind, repeated, current), sent, v, rest, s.input) {
      PlainAwaited(kind, Beneath(kind, repeated, current), sent, v, rest, s.input);
    }
    match kind
    case BoolKind =>
      ok, result := DecodeBool(s, sent, v, rest);
    case VarintKind(_) =>
      ok, result := DecodeSigned(s, kind, sent, v, rest);
    case UVarintKind(_) =>
      ok, result := DecodeUnsigned(s, kind, sent, v, rest);
    case SVarintKind(_) =>
      ok, result := DecodeSigned(s, kind, sent, v, rest);
    case Fixed32Kind =>
      ok, result := DecodeFixedValue(s, kind, sent, v, rest);
    case Fixed64Kind =>
      ok, result := DecodeFixedValue(s, kind, sent, v, rest);
    case MessageKind(desc) =>
      ok, result := DecodeSubmessage(s, desc, repeated, current, sent, v, rest);
    case _ =>
      ok, result := DecodeBytes(s, kind, sent, v, rest);
  }

  lemma PlainAwaited(kind: Kind, cur: Value, sent: Kind, v: Value, rest: seq<Byte>, input: seq<Byte>)
    requires Stored(sent, v) && Awaits(kind, cur, sent, v, rest, input)
    ensures Takes(kind, sent) && Comes(sent, v, rest, input)
    ensures !kind.MessageKind? ==> ReadValue(kind, sent, cur, v) == v
  {
    hide Takes, Comes, RoomInValue, Stored;
  }

  /** pb_dec_bool */
  method DecodeBool(s: IStream, ghost sent: Kind, ghost v: Value, ghost rest: seq<Byte>) returns (ok: bool, result: Value)
    requires Stored(sent, v)
    modifies s
    ensures IsRest(s.input, old(s.input)) && result.BoolValue?
    ensures ok ==> IsVarint(Took(old(s.input), s.input)) && Says(BoolKind, Took(old(s.input), s.input), result)
    ensures Takes(BoolKind, sent) && Comes(sent, v, rest, old(s.input)) ==> ok && result == v && s.input == rest
    decreases BoolKind, 0
  {
    hide Varint, GroupSum, IsVarint;
    var n, eof := 0, false;
    ok, n, eof := s.DecodeVarint32(if sent.BoolKind? && v.b then 1 else 0, rest);
    result := BoolValue(n != 0);
  }

  /** pb_dec_fixed32, pb_dec_fixed64 */
  method DecodeFixedValue(s: IStream, kind: Kind, ghost sent: Kind, ghost v: Value, ghost rest: seq<Byte>)
    returns (ok: bool, result: Value)
    requires (kind.Fixed32Kind? || kind.Fixed64Kind?) && Stored(sent, v)
    modifies s
    ensures IsRest(s.input, old(s.input))
    ensures ok ==> Stored(kind, result)
    ensures ok ==> Body(WireType(kind), Took(old(s.input), s.input)) && Says(kind, Took(old(s.input), s.input), result)
    ensures Takes(kind, sent) && Comes(sent, v, rest, old(s.input)) ==> ok && result == v && s.input == rest
    decreases kind, 0
  {
    hide LittleEndian, FromLittleEndian;
    var n: nat;
    ok, n := s.DecodeFixed(if kind.Fixed32Kind? then 4 else 8, if Takes(kind, sent) then v.n else 0, rest);
    result := IntValue(n);
  }

  lemma SpanGrows(s: nat, t: nat)
    requires IntSize(s) && IntSize(t) && s <= t
    ensures Span(s) <= Span(t) && forall n :: SignedFits(s, n) ==> SignedFits(t, n)
  {
  }

  /** The number that a writer sends for a signed value. */
  function SentNumber(zigzag: bool, n: int): (r: nat)
    requires SignedFits(8, n)
    ensures r < TWO_TO_THE_64
  {
    if zigzag then ZigZag(n) else if n < 0 then n + TWO_TO_THE_64 else n
  }

  /** pb_dec_varint and pb_dec_svarint: a cast to the field's size must not change the number. */
  method DecodeSigned(s: IStream, kind: Kind, ghost sent: Kind, ghost v: Value, ghost rest: seq<Byte>)
    returns (ok: bool, result: Value)
    requires (kind.VarintKind? || kind.SVarintKind?) && ProperKind(kind) && ProperKind(sent) && Stored(sent, v)
    modifies s
    ensures IsRest(s.input, old(s.input))
    ensures ok ==> Stored(kind, result)
    ensures ok ==> IsVarint(Took(old(s.input), s.input)) && Says(kind, Took(old(s.input), s.input), result)
    ensures Takes(kind, sent) && Comes(sent, v, rest, old(s.input)) ==> ok && result == v && s.input == rest
    // Other encoders may send the 32-bit complement of a negative number.
    ensures (kind.VarintKind? && kind.size < 8 && Takes(kind, sent) && v.n < 0 &&
             old(s.input) == Varint(v.n + TWO_TO_THE_32) + rest) ==> ok && result == v && s.input == rest
    decreases kind, 0
  {
    hide Varint, CastSigned, GroupSum, IsVarint, Says, Comes, Takes, SentNumber, FromUnsigned, SignedFits;
    ghost var start := s.input;
    ghost var n0 := SentSigned(kind, sent, v, rest, s.input);
    var u: nat;
    ok, u := s.DecodeVarint(n0, rest);
    var n := FromUnsigned(kind, u);
    var clamped := CastSigned(kind.size, n);
    CastKeeps(kind.size, n);
    ok := ok && clamped == n;
    result := IntValue(clamped);
    if ok {
      SignedSays(kind, Took(start, s.input), u);
    }
  }

  function FromUnsigned(kind: Kind, u: nat): int
    requires (kind.VarintKind? || kind.SVarintKind?) && u < TWO_TO_THE_64
  {
    if kind.SVarintKind? then UnZigZag(u) else if kind.size == 8 then ToSigned64(u) else ToSigned32(u)
  }

  /** The number that comes for a signed value, in either form. */
  lemma SentSigned(kind: Kind, sent: Kind, v: Value, rest: seq<Byte>, input: seq<Byte>) returns (n: nat)
    requires (kind.VarintKind? || kind.SVarintKind?) && ProperKind(kind) && ProperKind(sent) && Stored(sent, v)
    ensures n < TWO_TO_THE_64
    ensures Takes(kind, sent) && Comes(sent, v, rest, input) ==>
              input == Varint(n) + rest && v.IntValue? && FromUnsigned(kind, n) == v.n && SignedFits(kind.size, v.n)
    ensures (kind.VarintKind? && kind.size < 8 && Takes(kind, sent) && v.n < 0 &&
             input == Varint(v.n + TWO_TO_THE_32) + rest) ==>
              input == Varint(n) + rest && v.IntValue? && FromUnsigned(kind, n) == v.n && SignedFits(kind.size, v.n)
  {
    hide Varint;
    n := 0;
    if Takes(kind, sent) {
      SpanGrows(sent.size, kind.size);
      SpanGrows(kind.size, 8);
      var long := SentNumber(kind.SVarintKind?, v.n);
      SentComesBack(kind, v.n);
      n := long;
      if kind.VarintKind? && kind.size < 8 && v.n < 0 && input == Varint(v.n + TWO_TO_THE_32) + rest {
        SpanGrows(kind.size, 4);
        n := v.n + TWO_TO_THE_32;
        OneVarint(n, long, rest, rest);
      }
    }
  }

  lemma SentComesBack(kind: Kind, n: int)
    requires (kind.VarintKind? || kind.SVarintKind?) && ProperKind(kind) && SignedFits(kind.size, n) && SignedFits(8, n)
    ensures FromUnsigned(kind, SentNumber(kind.SVarintKind?, n)) == n
    ensures kind.VarintKind? && kind.size < 8 && n < 0 ==> 0 <= n + TWO_TO_THE_32 && FromUnsigned(kind, n + TWO_TO_THE_32) == n
  {
    SignedRoundTrip(kind.size, n);
  }

  /** Two numbers that are written the same are one. */
  lemma OneVarint(a: nat, b: nat, rest: seq<Byte>, rest': seq<Byte>)
    ensures Varint(a) + rest == Varint(b) + rest' ==> a == b
  {
    hide GroupSum, Varint;
    if Varint(a) + rest == Varint(b) + rest' {
      VarintForm(a);
      VarintForm(b);
      OneEnd(Varint(a), Varint(b), rest, rest');
    }
  }

  lemma OneEnd(a: seq<Byte>, b: seq<Byte>, rest: seq<Byte>, rest': seq<Byte>)
    requires IsVarint(a) && IsVarint(b) && a + rest == b + rest'
    ensures a == b
  {
    var all := a + rest;
    assert forall i :: 0 <= i < |a| ==> all[i] == a[i];
    assert forall i :: 0 <= i < |b| ==> all[i] == b[i] by { assert all == b + rest'; }
    assert all[|a| - 1] < 128 && all[|b| - 1] < 128;
    assert a == all[..|a|] && b == all[..|b|];
  }

  lemma SignedSays(kind: Kind, b: seq<Byte>, u: nat)
    requires (kind.VarintKind? || kind.SVarintKind?) && ProperKind(kind) && u == GroupSum(b) % TWO_TO_THE_64
    ensures Says(kind, b, IntValue(FromUnsigned(kind, u)))
  {
    hide GroupSum, ToSigned64, ToSigned32;
    if kind.VarintKind? {
      if kind.size == 8 {
        SameLow64(GroupSum(b));
      } else {
        SameLow32(GroupSum(b));
      }
    }
  }

  lemma SameLow64(g: nat)
    ensures (ToSigned64(g % TWO_TO_THE_64) - g) % TWO_TO_THE_64 == 0
  {
    var q := g / TWO_TO_THE_64;
    assert g == q * TWO_TO_THE_64 + g % TWO_TO_THE_64;
  }

  /** The number less a multiple of 2^32, or less than that by one more. */
  lemma WholeWords(q: int, low: int, borrow: int)
    ensures ((low - borrow * TWO_TO_THE_32) - (q * TWO_TO_THE_32 + low)) % TWO_TO_THE_32 == 0
  {
    assert (low - borrow * TWO_TO_THE_32) - (q * TWO_TO_THE_32 + low) == (-q - borrow) * TWO_TO_THE_32;
  }

  lemma SameLow32(g: nat)
    ensures (ToSigned32(g % TWO_TO_THE_64) - g) % TWO_TO_THE_32 == 0
  {
    var u := g % TWO_TO_THE_64;
    var q, q' := g / TWO_TO_THE_64, u / TWO_TO_THE_32;
    var low := u % TWO_TO_THE_32;
    assert u == q' * TWO_TO_THE_32 + low;
    assert g == (q * TWO_TO_THE_32 + q') * TWO_TO_THE_32 + low;
    WholeWords(q * TWO_TO_THE_32 + q', low, 0);
    WholeWords(q * TWO_TO_THE_32 + q', low, 1);
  }

  /** pb_dec_uvarint */
  method DecodeUnsigned(s: IStream, kind: Kind, ghost sent: Kind, ghost v: Value, ghost rest: seq<Byte>)
    returns (ok: bool, result: Value)
    requires kind.UVarintKind? && ProperKind(kind) && ProperKind(sent) && Stored(sent, v)
    modifies s
    ensures IsRest(s.input, old(s.input))
    ensures ok ==> Stored(kind, result)
    ensures ok ==> IsVarint(Took(old(s.input), s.input)) && Says(kind, Took(old(s.input), s.input), result)
    ensures Takes(kind, sent) && Comes(sent, v, rest, old(s.input)) ==> ok && result == v && s.input == rest
    decreases kind, 0
  {
    hide Varint, GroupSum, IsVarint;
    ghost var n := 0;
    if Takes(kind, sent) {
      SpanGrows(sent.size, kind.size);
      SpanGrows(kind.size, 8);
      n := v.n;
    }
    var u: nat;
    ok, u := s.DecodeVarint(n, rest);
    var clamped := u % Span(kind.size);
    ok := ok && clamped == u;
    result := IntValue(clamped);
  }

  /** pb_dec_bytes, pb_dec_string, pb_dec_fixed_length_bytes */
  method DecodeBytes(s: IStream, kind: Kind, ghost sent: Kind, ghost v: Value, ghost rest: seq<Byte>)
    returns (ok: bool, result: Value)
    requires kind.BytesKind? || kind.StringKind? || kind.FixedBytesKind?
    requires ProperKind(kind) && Stored(sent, v)
    modifies s
    ensures IsRest(s.input, old(s.input))
    ensures ok ==> Stored(kind, result)
    ensures ok ==> Body(WIRE_STRING, Took(old(s.input), s.input)) && Says(kind, Took(old(s.input), s.input), result)
    ensures Takes(kind, sent) && Comes(sent, v, rest, old(s.input)) ==> ok && result == v && s.input == rest
    decreases kind, 0
  {
    hide Varint, GroupSum, IsVarint, IsText;
    var size: nat, eof: bool;
    ghost var start := s.input;
    ghost var sentBytes := if Takes(kind, sent) then v.bytes else [];
    ghost var body := sentBytes + rest;
    assert Varint(|sentBytes|) + sentBytes + rest == Varint(|sentBytes|) + body;
    ok, size, eof := s.DecodeVarint32(|sentBytes|, body);
    result := BytesValue([]);
    if !ok {
      return;
    }
    if kind.BytesKind? && size > kind.capacity {
      return false, result;
    }
    if kind.StringKind? && size + 1 > kind.room {
      return false, result;
    }
    if kind.FixedBytesKind? {
      if size == 0 {
        // An empty string stands for all zeros.
        NoText(start, s.input);
        result := BytesValue(seq(kind.length, _ => 0));
        return;
      }
      if size != kind.length {
        return false, result;
      }
    }
    var bytes: seq<Byte>;
    assert body[..|sentBytes|] == sentBytes && body[|sentBytes|..] == rest;
    if size <= |s.input| {
      ReadText(start, s.input, size);
    }
    ok, bytes := s.Read(size);
    result := BytesValue(if kind.StringKind? then UpToNul(bytes) else bytes);
    if ok && kind.StringKind? {
      NulEnds(bytes);
      assert IsText(Took(start, s.input), bytes);
    }
  }

  lemma NoText(start: seq<Byte>, input: seq<Byte>)
    requires IsRest(input, start) && IsVarint(Took(start, input)) && GroupSum(Took(start, input)) % TWO_TO_THE_32 == 0
    ensures IsText(Took(start, input), []) && Body(WIRE_STRING, Took(start, input))
  {
    hide GroupSum, IsVarint;
    var b := Took(start, input);
    assert b[..|b| - 0] == b && b[|b| - 0..] == [];
    assert IsText(b, []);
  }

  lemma {:induction false} NulEnds(bytes: seq<Byte>)
    ensures UpToNul(bytes) <= bytes && (UpToNul(bytes) == bytes || bytes[|UpToNul(bytes)|] == 0)
  {
    if bytes != [] && bytes[0] != 0 {
      NulEnds(bytes[1..]);
      assert bytes == [bytes[0]] + bytes[1..];
    }
  }

  /** pb_dec_submessage */
  method DecodeSubmessage(s: IStream, desc: Desc, repeated: bool, current: Value, ghost sent: Kind, ghost v: Value,
                          ghost rest: seq<Byte>)
    returns (ok: bool, result: Value)
    requires Proper(desc) && (!repeated ==> Stored(MessageKind(desc), current))
    requires ProperKind(sent) && Stored(sent, v)
    modifies s
    ensures IsRest(s.input, old(s.input))
    ensures ok ==> Stored(MessageKind(desc), result)
    ensures ok ==> Body(WIRE_STRING, Took(old(s.input), s.input))
    ensures Awaits(MessageKind(desc), Beneath(MessageKind(desc), repeated, current), sent, v, rest, old(s.input)) ==>
              && ok && s.input == rest
              && result == ReadValue(MessageKind(desc), sent, Beneath(MessageKind(desc), repeated, current), v)
    decreases desc, 1
  {
    hide Varint, EncodeMessage, StoredMessage, Proper, DefaultMessage, GroupSum, IsVarint, TakesAll, HasRoom, Merged, IsText;
    DefaultMessageIsStored(desc);
    ghost var w, m := desc, DefaultMessage(desc);
    if sent.MessageKind? {
      w, m := sent.desc, v.msg;
    }
    StoredMessageIsEncodable(w, m);
    StoredSize(w, m);
    var sub: IStream, msg: Message;
    ok, sub := s.MakeSubstream(EncodeMessage(w, m, |m.slots|), rest);
    msg := if repeated then DefaultMessage(desc) else current.msg;
    StoredSize(desc, msg);
    if ok {
      ghost var pieces;
      ok, msg, pieces := DecodeFields(sub, desc, msg, w, m);
    }
    result := MessageValue(msg);
  }

  // ----- One field -----

  /** Put a slot into a struct; selecting a member of a oneof deselects the others. */
  function Put(d: Desc, m: Message, i: nat, slot: Slot): (r: Message)
    requires i < |d.fields| == |m.slots|
    ensures |r.slots| == |m.slots|
  {
    Message(seq(|m.slots|, k requires 0 <= k < |m.slots| =>
      if k == i then slot
      else if d.fields[i].rule.Oneof? && d.fields[k].rule == d.fields[i].rule then Absent
      else m.slots[k]))
  }

  lemma PutIsStored(d: Desc, m: Message, i: nat, slot: Slot)
    requires StoredMessage(d, m) && i < |d.fields| && StoredSlot(d.fields[i], slot)
    ensures StoredMessage(d, Put(d, m, i, slot)) && Put(d, m, i, slot).slots[i] == slot
  {
    hide StoredSlot;
    var r := Put(d, m, i, slot);
    forall k | 0 <= k < |d.fields|
      ensures StoredSlot(d.fields[k], r.slots[k])
    {
      if k != i && d.fields[i].rule.Oneof? && d.fields[k].rule == d.fields[i].rule {
        AbsentIsStored(d.fields[k]);
      }
    }
  }

  lemma AbsentIsStored(f: Field)
    requires f.rule.Oneof?
    ensures StoredSlot(f, Absent)
  {
  }

  /** The wire type that a field's decoder goes by: its own, whatever the tag says, except that a packable array may
      come packed. */
  function UsedWire(f: Field, wire: nat): nat {
    if f.rule.Repeated? && wire == WIRE_STRING && Packable(f.kind) then WIRE_STRING else WireType(f.kind)
  }

  /** What a slot becomes when one piece of another has been read: an item of an unpacked array, else all of it. */
  ghost function AfterPiece(f: Field, cur: Slot, g: Field, slot: Slot, j: nat): Slot {
    if Unpacked(g) then
      if cur.Many? && slot.Many? && j < |slot.items| then
        Many(cur.items + [ReadValue(f.kind, g.kind, DefaultValue(f.kind), slot.items[j])])
      else cur
    else ReadSlot(f, cur, g, slot)
  }

  ghost predicate RoomForPiece(f: Field, cur: Slot, g: Field, slot: Slot, j: nat) {
    if Unpacked(g) then
      && f.rule.Repeated? && cur.Many? && |cur.items| < f.rule.max && slot.Many? && j < |slot.items|
      && RoomInValue(f.kind, g.kind, DefaultValue(f.kind), slot.items[j])
    else RoomInSlot(f, cur, g, slot)
  }

  /** The piece `j` of a writer's slot is coming, and the reader's slot can take it. */
  ghost predicate PieceAwaits(f: Field, wire: nat, cur: Slot, g: Field, slot: Slot, j: nat, rest: seq<Byte>,
                              input: seq<Byte>)
    requires StoredSlot(g, slot)
  {
    StoredSlotIsEncodable(g, slot);
    && TakesField(f, g) && HasPiece(g, slot, j) && wire == PieceWire(g) && RoomForPiece(f, cur, g, slot, j)
    && input == PieceBody(g, slot, j) + rest && |PieceBody(g, slot, j)| < TWO_TO_THE_32
  }

  /** decode_static_field */
  method DecodeField(s: IStream, d: Desc, i: nat, wire: nat, cur: Message, ghost g: Field, ghost slot: Slot,
                     ghost j: nat, ghost rest: seq<Byte>)
    returns (ok: bool, result: Message)
    requires Proper(d) && StoredMessage(d, cur) && i < |d.fields| == |cur.slots|
    requires ProperKind(g.kind) && StoredSlot(g, slot)
    modifies s
    ensures IsRest(s.input, old(s.input)) && |result.slots| == |d.fields|
    ensures ok ==> StoredMessage(d, result) && result == Put(d, cur, i, result.slots[i])
    ensures ok ==> Body(UsedWire(d.fields[i], wire), Took(old(s.input), s.input))
    ensures PieceAwaits(d.fields[i], wire, cur.slots[i], g, slot, j, rest, old(s.input)) ==>
              ok && s.input == rest && result == Put(d, cur, i, AfterPiece(d.fields[i], cur.slots[i], g, slot, j))
    decreases d, 0, 1
  {
    hide StoredMessage, Proper, Put, PieceAwaits, AfterPiece, StoredSlot, Body;
    StoredShape(d, cur, i);
    KindIsProper(d, i);
    ghost var start := s.input;
    result := cur;
    var slot': Slot;
    ok, slot' := DecodeSlot(s, d.fields[i], wire, cur.slots[i], g, slot, j, rest);
    if ok {
      result := Put(d, cur, i, slot');
      PutIsStored(d, cur, i, slot');
    }
  }

  /** The part of decode_static_field that depends on the field's rule. */
  method DecodeSlot(s: IStream, f: Field, wire: nat, cur: Slot, ghost g: Field, ghost slot: Slot, ghost j: nat,
                    ghost rest: seq<Byte>)
    returns (ok: bool, result: Slot)
    requires ProperKind(f.kind) && StoredSlot(f, cur) && ProperKind(g.kind) && StoredSlot(g, slot)
    modifies s
    ensures IsRest(s.input, old(s.input))
    ensures ok ==> StoredSlot(f, result) && Body(UsedWire(f, wire), Took(old(s.input), s.input))
    ensures PieceAwaits(f, wire, cur, g, slot, j, rest, old(s.input)) ==>
              ok && s.input == rest && result == AfterPiece(f, cur, g, slot, j)
    decreases f, 2
  {
    hide Stored, EncodeValue, EncodeItems, Packable, DefaultValue, IsDefault, Shaped, Takes, Body, ReadValue, RoomInValue,
         PieceAwaits, Awaits, AfterPiece, ProperKind, Says;
    result := cur;
    ghost var good := PieceAwaits(f, wire, cur, g, slot, j, rest, s.input);
    ghost var v := PieceValue(g, slot, j);
    if good {
      PieceIs(f, wire, cur, g, slot, j, rest, s.input);
    }
    var value: Value;
    match f.rule
    case Required =>
      ok, value := DecodeOne(s, f.kind, false, cur.v, g.kind, v, rest);
      result := One(value);
    case Optional(flagged) =>
      DefaultIsStored(f.kind);
      ok, value := DecodeOne(s, f.kind, false, if cur.Absent? then DefaultValue(f.kind) else cur.v, g.kind, v, rest);
      result := if flagged then Present(value) else One(value);
    case Repeated(max) =>
      ok, result := DecodeArray(s, f, wire, cur, g, slot, j, rest);
    case Oneof(_) =>
      DefaultIsStored(f.kind);
      // A submessage that is selected anew starts at its defaults.
      var start := if f.kind.MessageKind? || cur.Absent? then DefaultValue(f.kind) else cur.v;
      if good && !f.kind.MessageKind? {
        CurrentDoesNotMatter(f.kind, g.kind, start, DefaultValue(f.kind), v, rest, s.input);
      }
      ok, value := DecodeOne(s, f.kind, false, start, g.kind, v, rest);
      result := Present(value);
  }

  lemma CurrentDoesNotMatter(kind: Kind, sent: Kind, cur: Value, cur': Value, v: Value, rest: seq<Byte>, input: seq<Byte>)
    requires Stored(sent, v) && !kind.MessageKind?
    ensures Awaits(kind, cur, sent, v, rest, input) == Awaits(kind, cur', sent, v, rest, input)
    ensures ReadValue(kind, sent, cur, v) == ReadValue(kind, sent, cur', v)
  {
    hide Comes, Takes, Stored, HasRoom, ReadValue;
    PlainIsRead(kind, sent, cur, v);
    PlainIsRead(kind, sent, cur', v);
  }

  /** Arrays: packed, or one item at a time. */
  method DecodeArray(s: IStream, f: Field, wire: nat, cur: Slot, ghost g: Field, ghost slot: Slot, ghost j: nat,
                     ghost rest: seq<Byte>)
    returns (ok: bool, result: Slot)
    requires f.rule.Repeated? && ProperKind(f.kind) && StoredSlot(f, cur) && ProperKind(g.kind) && StoredSlot(g, slot)
    modifies s
    ensures IsRest(s.input, old(s.input))
    ensures ok ==> StoredSlot(f, result) && Body(UsedWire(f, wire), Took(old(s.input), s.input))
    ensures PieceAwaits(f, wire, cur, g, slot, j, rest, old(s.input)) ==>
              ok && s.input == rest && result == AfterPiece(f, cur, g, slot, j)
    decreases f, 1
  {
    hide Stored, EncodeValue, EncodeItems, Packable, DefaultValue, IsDefault, Shaped, Takes, Body, ReadValue, RoomInValue,
         PieceAwaits, Awaits, AfterPiece, ProperKind, Says, PackedComes;
    result := cur;
    if PieceAwaits(f, wire, cur, g, slot, j, rest, s.input) {
      PieceIs(f, wire, cur, g, slot, j, rest, s.input);
    }
    if wire == WIRE_STRING && Packable(f.kind) {
      var items: seq<Value>;
      ok, items := DecodePacked(s, f, cur.items, g, slot, rest);
      result := Many(items);
    } else {
      if |cur.items| >= f.rule.max {
        return false, result;
      }
      ghost var v := PieceValue(g, slot, j);
      var value: Value;
      ok, value := DecodeOne(s, f.kind, true, DefaultValue(f.kind), g.kind, v, rest);
      result := Many(cur.items + [value]);
    }
  }

  lemma KindIsProper(d: Desc, i: nat)
    requires Proper(d) && i < |d.fields|
    ensures ProperKind(d.fields[i].kind)
  {
  }

  lemma StoredShape(d: Desc, m: Message, i: nat)
    requires StoredMessage(d, m) && i < |d.fields|
    ensures |m.slots| == |d.fields| && StoredSlot(d.fields[i], m.slots[i])
  {
    hide StoredSlot;
  }

  /** The value that the next piece of a slot carries; some stored value where there is none. */
  ghost function PieceValue(f: Field, slot: Slot, j: nat): (v: Value)
    requires StoredSlot(f, slot) && ProperKind(f.kind)
    ensures Stored(f.kind, v)
  {
    DefaultIsStored(f.kind);
    if slot.Absent? || (slot.Many? && j >= |slot.items|) then DefaultValue(f.kind)
    else if slot.Many? then slot.items[j]
    else slot.v
  }

  /** What the piece that is coming holds, and what becomes of the slot with it. */
  lemma PieceIs(f: Field, wire: nat, cur: Slot, g: Field, slot: Slot, j: nat, rest: seq<Byte>, input: seq<Byte>)
    requires ProperKind(f.kind) && StoredSlot(f, cur) && ProperKind(g.kind) && StoredSlot(g, slot)
    requires PieceAwaits(f, wire, cur, g, slot, j, rest, input)
    ensures !f.rule.Repeated? ==>
              && Awaits(f.kind, StartValue(f, cur), g.kind, PieceValue(g, slot, j), rest, input)
              && AfterPiece(f, cur, g, slot, j)
                 == var v := ReadValue(f.kind, g.kind, StartValue(f, cur), PieceValue(g, slot, j));
                    match f.rule
                    case Optional(flagged) => (if flagged then Present(v) else One(v))
                    case Oneof(_) => Present(v)
                    case _ => One(v)
    ensures f.rule.Repeated? && Packable(f.kind) ==>
              && wire == WIRE_STRING && PackedComes(g, slot, rest, input) && TakesField(f, g)
              && |cur.items| + |slot.items| <= f.rule.max
              && AfterPiece(f, cur, g, slot, j) == Many(cur.items + slot.items)
    ensures f.rule.Repeated? && !Packable(f.kind) ==>
              && Awaits(f.kind, DefaultValue(f.kind), g.kind, PieceValue(g, slot, j), rest, input)
              && |cur.items| < f.rule.max
              && AfterPiece(f, cur, g, slot, j)
                 == Many(cur.items + [ReadValue(f.kind, g.kind, DefaultValue(f.kind), PieceValue(g, slot, j))])
  {
    StoredSlotIsEncodable(g, slot);
    PackableAlike(f, g);
    hide Stored, EncodeValue, EncodeItems, Shaped, DefaultValue, IsDefault, Varint, Takes, ReadValue, RoomInValue, Packable,
         ProperKind;
    if f.rule.Repeated? && Packable(f.kind) {
      PackableItems(f, g, slot);
    }
  }

  lemma PackableAlike(f: Field, g: Field)
    ensures TakesField(f, g) ==> Packable(f.kind) == Packable(g.kind)
  {
    if TakesField(f, g) {
      assert Takes(f.kind, g.kind);
    }
  }

  lemma PackableItems(f: Field, g: Field, slot: Slot)
    requires slot.Many? && Packable(f.kind)
    ensures ReadItems(f, g, slot) == slot.items
  {
    forall j | 0 <= j < |slot.items|
      ensures ReadItems(f, g, slot)[j] == slot.items[j]
    {
      PlainIsRead(f.kind, g.kind, DefaultValue(f.kind), slot.items[j]);
    }
  }

  // ----- Packed arrays -----

  ghost predicate PackedComes(f: Field, slot: Slot, rest: seq<Byte>, input: seq<Byte>)
    requires StoredSlot(f, slot)
  {
    StoredSlotIsEncodable(f, slot);
    && f.rule.Repeated? && Packable(f.kind)
    && var body := EncodeItems(f.kind, slot, |slot.items|);
       input == Varint(|body|) + body + rest && |body| < TWO_TO_THE_32
  }

  /** The items of a packed array join those that are there. */
  method DecodePacked(s: IStream, f: Field, before: seq<Value>, ghost g: Field, ghost slot: Slot, ghost rest: seq<Byte>)
    returns (ok: bool, items: seq<Value>)
    requires f.rule.Repeated? && Packable(f.kind) && ProperKind(f.kind) && StoredSlot(f, Many(before))
    requires ProperKind(g.kind) && StoredSlot(g, slot)
    modifies s
    ensures IsRest(s.input, old(s.input))
    ensures ok ==> StoredSlot(f, Many(items)) && before <= items && Body(WIRE_STRING, Took(old(s.input), s.input))
    ensures PackedComes(g, slot, rest, old(s.input)) && TakesField(f, g) && |before| + |slot.items| <= f.rule.max ==>
              ok && items == before + slot.items && s.input == rest
    decreases f, 0
  {
    hide EncodeValue, EncodeItems, Stored, Shaped, Varint, ItemsLeft, IsText, Says, Awaits, Packable, ProperKind, Takes;
    StoredSlotIsEncodable(g, slot);
    DefaultIsStored(g.kind);
    ghost var good :=
      PackedComes(g, slot, rest, s.input) && TakesField(f, g) && |before| + |slot.items| <= f.rule.max;
    ghost var whole := if good then slot else Many([]);
    ghost var body := EncodeItems(g.kind, whole, |whole.items|);
    items := before;
    var sub: IStream;
    ok, sub := s.MakeSubstream(body, rest);
    if !ok {
      return;
    }
    if good {
      AllItemsLeft(g.kind, slot);
    }
    ghost var n := 0;
    while sub.input != [] && |items| < f.rule.max
      invariant fresh(sub) && StoredSlot(f, Many(items)) && before <= items
      invariant IsRest(s.input, old(s.input)) && Body(WIRE_STRING, Took(old(s.input), s.input))
      invariant good ==> n <= |slot.items| && items == before + slot.items[..n] && ItemsLeft(g.kind, slot, n, sub.input)
      invariant good ==> s.input == rest
      decreases f.rule.max - |items|
    {
      ghost var v, tail := DefaultValue(g.kind), [];
      if good {
        tail := NextItem(g.kind, slot, n, sub.input);
        v := slot.items[n];
        PlainAwaits(f.kind, DefaultValue(f.kind), g.kind, v, tail, sub.input);
        assert slot.items[..n + 1] == slot.items[..n] + [v];
      }
      var value: Value;
      ok, value := DecodeOne(sub, f.kind, true, DefaultValue(f.kind), g.kind, v, tail);
      if !ok {
        return;
      }
      items := items + [value];
      n := n + 1;
    }
    if good {
      NoItemsLeft(g.kind, slot, n, sub.input);
    }
    ok := sub.input == [];
  }

  lemma PlainAwaits(kind: Kind, cur: Value, sent: Kind, v: Value, rest: seq<Byte>, input: seq<Byte>)
    requires Stored(sent, v) && Packable(kind) && Takes(kind, sent) && Comes(sent, v, rest, input)
    ensures Awaits(kind, cur, sent, v, rest, input) && ReadValue(kind, sent, cur, v) == v
  {
    hide Comes, Stored;
  }

  /** The bytes after the first `n` items. */
  ghost predicate ItemsLeft(kind: Kind, slot: Slot, n: nat, input: seq<Byte>)
    requires slot.Many? && n <= |slot.items| && forall k :: 0 <= k < |slot.items| ==> Shaped(kind, slot.items[k])
  {
    && EncodeItems(kind, slot, |slot.items|) == EncodeItems(kind, slot, n) + input
    && |EncodeItems(kind, slot, |slot.items|)| < TWO_TO_THE_32
  }

  lemma AllItemsLeft(kind: Kind, slot: Slot)
    requires slot.Many? && forall k :: 0 <= k < |slot.items| ==> Shaped(kind, slot.items[k])
    requires |EncodeItems(kind, slot, |slot.items|)| < TWO_TO_THE_32
    ensures ItemsLeft(kind, slot, 0, EncodeItems(kind, slot, |slot.items|))
  {
    hide Shaped;
  }

  lemma {:induction false} ItemsPrefix(kind: Kind, slot: Slot, i: nat, n: nat) returns (tail: seq<Byte>)
    requires slot.Many? && i <= n <= |slot.items| && forall k :: 0 <= k < |slot.items| ==> Shaped(kind, slot.items[k])
    ensures EncodeItems(kind, slot, n) == EncodeItems(kind, slot, i) + tail
    decreases n
  {
    hide Shaped, EncodeValue;
    if i == n {
      tail := [];
    } else {
      var t := ItemsPrefix(kind, slot, i, n - 1);
      tail := t + EncodeValue(kind, slot.items[n - 1]);
    }
  }

  lemma NextItem(kind: Kind, slot: Slot, n: nat, input: seq<Byte>) returns (tail: seq<Byte>)
    requires slot.Many? && n <= |slot.items| && forall k :: 0 <= k < |slot.items| ==> Stored(kind, slot.items[k])
    requires forall k :: 0 <= k < |slot.items| ==> Shaped(kind, slot.items[k])
    requires ItemsLeft(kind, slot, n, input) && input != []
    ensures n < |slot.items| && Comes(kind, slot.items[n], tail, input)
    ensures ItemsLeft(kind, slot, n + 1, tail)
  {
    hide Shaped, EncodeValue, Stored;
    assert n < |slot.items|;
    tail := ItemsPrefix(kind, slot, n + 1, |slot.items|);
    var head, v := EncodeItems(kind, slot, n), EncodeValue(kind, slot.items[n]);
    assert head + input == (head + v) + tail == head + (v + tail);
    SameSuffix(head, input, v + tail);
    StoredIsEncodable(kind, slot.items[n]);
  }

  lemma NoItemsLeft(kind: Kind, slot: Slot, n: nat, input: seq<Byte>)
    requires slot.Many? && n <= |slot.items| && forall k :: 0 <= k < |slot.items| ==> Shaped(kind, slot.items[k])
    requires Packable(kind) && ItemsLeft(kind, slot, n, input)
    ensures input == [] <==> n == |slot.items|
  {
    hide Shaped, EncodeValue;
    if n < |slot.items| {
      var tail := ItemsPrefix(kind, slot, n + 1, |slot.items|);
      PackableHasBytes(kind, slot.items[n]);
    }
  }

  lemma PackableHasBytes(kind: Kind, v: Value)
    requires Packable(kind) && Shaped(kind, v)
    ensures |EncodeValue(kind, v)| >= 1
  {
  }

  // ----- All fields -----

  /** What has been consumed of an encoding when the first `i` fields and `j` pieces of the next are done. */
  ghost function Consumed(w: Desc, m: Message, i: nat, j: nat): seq<Byte>
    requires StoredMessage(w, m) && At(w, m, i, j)
  {
    StoredMessageIsEncodable(w, m);
    EncodeMessage(w, m, i) + if j > 0 then EncodeTagged(w.fields[i], m.slots[i], j) else []
  }

  ghost predicate At(w: Desc, m: Message, i: nat, j: nat)
    requires |m.slots| == |w.fields|
  {
    && i <= |w.fields|
    && (j > 0 ==> i < |w.fields| && Unpacked(w.fields[i]) && m.slots[i].Many? && j <= |m.slots[i].items|)
  }

  /** Every required field that the writer sends among its first `i` has been seen. */
  ghost predicate SeenUpTo(d: Desc, w: Desc, i: nat, seen: set<nat>) {
    forall k | 0 <= k < |d.fields| && d.fields[k].rule.Required? && Position(w.fields, d.fields[k].tag) < i ::
      CountRequired(d.fields, k) < MAX_REQUIRED_FIELDS ==> CountRequired(d.fields, k) in seen
  }

  /** The decoder is on its way through the encoding of `m`. */
  ghost predicate Decoding(d: Desc, dest: Message, w: Desc, m: Message, i: nat, j: nat, input: seq<Byte>, cur: Message,
                           seen: set<nat>)
    requires StoredMessage(w, m) && |dest.slots| == |d.fields|
  {
    StoredMessageIsEncodable(w, m);
    && At(w, m, i, j)
    && EncodeMessage(w, m, |m.slots|) == Consumed(w, m, i, j) + input
    && |EncodeMessage(w, m, |m.slots|)| < TWO_TO_THE_32
    && cur == Merged(d, dest, w, m, i, j) && SeenUpTo(d, w, i, seen)
  }

  /** A field as it stands in the input: its head, the tag and wire type that the head says, and its body. */
  datatype Piece = Piece(head: seq<Byte>, tag: nat, wire: nat, body: seq<Byte>)

  ghost function PieceBytes(pieces: seq<Piece>): seq<Byte> {
    if pieces == [] then []
    else
      var n := |pieces| - 1;
      PieceBytes(pieces[..n]) + (pieces[n].head + pieces[n].body)
  }

  /** The input falls into pieces, each with a body of the wire type that its field goes by, or, for a field that is
      not in the table, of the one in its head. */
  ghost predicate FallsInto(d: Desc, input: seq<Byte>, pieces: seq<Piece>, left: seq<Byte>) {
    && input == PieceBytes(pieces) + left
    && forall p :: p in pieces ==> IsHead(p.head, p.tag, p.wire) && Body(WireFor(d, p.tag, p.wire), p.body)
  }

  function WireFor(d: Desc, tag: nat, wire: nat): nat {
    var k := Position(d.fields, tag);
    if k < |d.fields| then UsedWire(d.fields[k], wire) else wire
  }

  ghost predicate Occurs(pieces: seq<Piece>, tag: nat) {
    exists p :: p in pieces && p.tag == tag
  }

  /** Every required field, as far as they are counted, is there. */
  ghost predicate RequiredOccur(d: Desc, pieces: seq<Piece>) {
    forall k | 0 <= k < |d.fields| && d.fields[k].rule.Required? ::
      CountRequired(d.fields, k) < MAX_REQUIRED_FIELDS ==> Occurs(pieces, d.fields[k].tag)
  }

  /** Some other member of the field's oneof occurs. */
  ghost predicate MateOccurs(d: Desc, pieces: seq<Piece>, k: nat)
    requires k < |d.fields|
  {
    d.fields[k].rule.Oneof? &&
    exists q :: 0 <= q < |d.fields| && d.fields[q].rule == d.fields[k].rule && Occurs(pieces, d.fields[q].tag)
  }

  /** What does not occur in the input stays. */
  ghost predicate OthersStay(d: Desc, dest: Message, pieces: seq<Piece>, cur: Message)
    requires |dest.slots| == |d.fields|
  {
    && |cur.slots| == |d.fields|
    && forall k :: 0 <= k < |d.fields| && !Occurs(pieces, d.fields[k].tag) && !MateOccurs(d, pieces, k) ==>
         cur.slots[k] == dest.slots[k]
  }

  /** Only fields that occur count as seen. */
  ghost predicate SeenOccurs(d: Desc, pieces: seq<Piece>, seen: set<nat>) {
    forall q :: q in seen ==> SeenAs(d, pieces, q)
  }

  ghost predicate SeenAs(d: Desc, pieces: seq<Piece>, q: nat) {
    exists k :: 0 <= k < |d.fields| && d.fields[k].rule.Required? && CountRequired(d.fields, k) == q
                && Occurs(pieces, d.fields[k].tag)
  }

  /** A zero where a tag should be ends a message. */
  ghost predicate EndsHere(left: seq<Byte>) {
    left == [] || exists n :: 0 < n <= |left| && IsVarint(left[..n]) && GroupSum(left[..n]) % TWO_TO_THE_32 == 0
  }

  /** pb_decode_noinit: the encoding of a writer's message is merged into the struct. Of any other input too, what is
      accepted falls into fields, with all required ones among them. */
  method DecodeFields(s: IStream, d: Desc, dest: Message, ghost w: Desc, ghost m: Message)
    returns (ok: bool, result: Message, ghost pieces: seq<Piece>)
    requires Proper(d) && StoredMessage(d, dest) && |dest.slots| == |d.fields|
    requires Proper(w) && StoredMessage(w, m) && |m.slots| == |w.fields|
    modifies s
    ensures |s.input| <= |old(s.input)|
    ensures ok ==> StoredMessage(d, result)
    ensures ComesMessage(w, m, old(s.input)) && TakesAll(d, w) && HasRoom(d, dest, w, m) ==>
              ok && result == Merged(d, dest, w, m, |w.fields|, 0)
    ensures ok ==> exists left :: FallsInto(d, old(s.input), pieces, left) && EndsHere(left)
    ensures ok ==> RequiredOccur(d, pieces)
    ensures ok ==> OthersStay(d, dest, pieces, result)
    decreases d, 0, 2
  {
    hide Proper, StoredMessage, EncodeMessage, Decoding, StoredSlot, CountRequired, DefaultMessage, TagBytes, TakesAll, HasRoom,
         Merged, IsHead, Body, Sent, Account, PieceAwaits, Varint, IsVarint, GroupSum, Put, PieceFollows;
    result := dest;
    var iter := new FieldIter(d.fields);
    var seen: set<nat> := {};
    pieces := [];
    ghost var start, i: nat, j: nat := s.input, 0, 0;
    ghost var end := s.input;
    ghost var good := ComesMessage(w, m, s.input) && TakesAll(d, w) && HasRoom(d, dest, w, m);
    if good {
      StartDecoding(d, dest, w, m, s.input);
    }
    NothingReadYet(d, dest, start);
    while s.input != []
      invariant iter.Valid() && fresh(iter) && iter.fields == d.fields && |s.input| <= |start|
      invariant StoredMessage(d, result) && |result.slots| == |d.fields|
      invariant good ==> Decoding(d, dest, w, m, i, j, s.input, result, seen)
      invariant end == s.input && Account(d, dest, start, pieces, end, result, seen)
      decreases |s.input|
    {
      ghost var t: nat, wt: nat, body, rest := 1, 0, [], [];
      if good {
        i, j := NextPiece(d, dest, w, m, i, j, s.input, result, seen);
        body, rest := PieceIsNext(d, dest, w, m, i, j, s.input, result, seen);
        t, wt := w.fields[i].tag, PieceWire(w.fields[i]);
      }
      var got, wire, tag, eof := s.DecodeTag(t, wt, body + rest);
      if !got {
        if eof {
          ZeroEnds(end, s.input);
          break;
        }
        return false, result, pieces;
      }
      ghost var middle, old' := s.input, seen;
      var found := iter.Find(tag);
      if !found {
        if good {
          UnknownIsSent(d, dest, w, m, i, j, body, rest, result, seen);
        }
        ok := s.SkipField(wire, body, rest);
        if !ok {
          return;
        }
        if good {
          i, j := PieceSkipped(d, dest, w, m, i, j, body, rest, result, seen);
        }
        pieces := UnknownTaken(d, dest, start, pieces, result, seen, end, middle, s.input, tag, wire);
      } else {
        var at := iter.pos;
        if d.fields[at].rule.Required? && iter.requiredIndex < MAX_REQUIRED_FIELDS {
          seen := seen + {iter.requiredIndex};
        }
        ghost var cur, g, slot := result, if good then w.fields[i] else d.fields[at],
                                  if good then m.slots[i] else result.slots[at];
        SourceIsStored(d, result, at, w, m, i, good);
        if good {
          FieldIsComing(d, dest, w, m, at, i, j, body, rest, result, old');
        }
        ok, result := DecodeField(s, d, at, wire, result, g, slot, j, rest);
        if !ok {
          return;
        }
        if good {
          i, j := PieceDone(d, dest, w, m, at, i, j, body, rest, cur, old', seen);
        }
        pieces := KnownTaken(d, dest, start, pieces, cur, result, old', seen, at, end, middle, s.input, wire);
      }
      end := s.input;
    }
    AccountMeans(d, dest, start, pieces, end, result, seen);
    assert EndsHere(end);
    if good {
      AllDecoded(d, dest, w, m, i, j, s.input, result, seen);
      SeenIsEnough(d, w, seen);
    }
    ok := CheckRequired(iter, seen);
    if ok {
      AllRequiredOccur(d, pieces, seen);
    }
  }

  /** The end of pb_decode_noinit: every required field, up to the limit, must have been seen. */
  method CheckRequired(iter: FieldIter, seen: set<nat>) returns (ok: bool)
    requires iter.Valid()
    modifies iter
    ensures ok <==> forall q :: 0 <= q < CountRequired(iter.fields, |iter.fields|) && q < MAX_REQUIRED_FIELDS ==> q in seen
  {
    hide CountRequired;
    var count := iter.CountAllRequired();
    if count > MAX_REQUIRED_FIELDS {
      count := MAX_REQUIRED_FIELDS;
    }
    for q := 0 to count
      invariant forall p :: 0 <= p < q ==> p in seen
    {
      if q !in seen {
        return false;
      }
    }
    ok := true;
  }

  // ----- Any input -----

  /** What has been read so far falls into pieces, and the struct and the required fields seen go with them. */
  ghost predicate Account(d: Desc, dest: Message, start: seq<Byte>, pieces: seq<Piece>, input: seq<Byte>, cur: Message,
                          seen: set<nat>)
    requires |dest.slots| == |d.fields|
  {
    FallsInto(d, start, pieces, input) && OthersStay(d, dest, pieces, cur) && SeenOccurs(d, pieces, seen)
  }

  lemma AccountMeans(d: Desc, dest: Message, start: seq<Byte>, pieces: seq<Piece>, input: seq<Byte>, cur: Message,
                     seen: set<nat>)
    requires |dest.slots| == |d.fields| && Account(d, dest, start, pieces, input, cur, seen)
    ensures FallsInto(d, start, pieces, input) && OthersStay(d, dest, pieces, cur) && SeenOccurs(d, pieces, seen)
    ensures EndsHere([])
  {
    hide FallsInto, OthersStay, SeenOccurs;
  }

  lemma UnknownTaken(d: Desc, dest: Message, start: seq<Byte>, pieces: seq<Piece>, cur: Message, seen: set<nat>,
                     before: seq<Byte>, middle: seq<Byte>, after: seq<Byte>, tag: nat, wire: nat)
    returns (more: seq<Piece>)
    requires |dest.slots| == |d.fields| && Account(d, dest, start, pieces, before, cur, seen)
    requires IsRest(middle, before) && IsHead(Took(before, middle), tag, wire)
    requires IsRest(after, middle) && Body(wire, Took(middle, after))
    requires forall k :: 0 <= k < |d.fields| ==> d.fields[k].tag != tag
    ensures Account(d, dest, start, more, after, cur, seen)
  {
    hide FallsInto, OthersStay, SeenOccurs, IsHead, Body;
    var p := Piece(Took(before, middle), tag, wire, Took(middle, after));
    UnknownRead(d, dest, pieces, cur, seen, p);
    OnePieceMore(d, start, pieces, before, middle, after, p);
    more := pieces + [p];
  }

  lemma KnownTaken(d: Desc, dest: Message, start: seq<Byte>, pieces: seq<Piece>, cur: Message, result: Message,
                   seen: set<nat>, seen': set<nat>, at: nat, before: seq<Byte>, middle: seq<Byte>, after: seq<Byte>,
                   wire: nat)
    returns (more: seq<Piece>)
    requires Proper(d) && |dest.slots| == |d.fields| == |cur.slots| == |result.slots| && at < |d.fields|
    requires Account(d, dest, start, pieces, before, cur, seen) && result == Put(d, cur, at, result.slots[at])
    requires seen' <= seen + if d.fields[at].rule.Required? then {CountRequired(d.fields, at)} else {}
    requires IsRest(middle, before) && IsHead(Took(before, middle), d.fields[at].tag, wire)
    requires IsRest(after, middle) && Body(UsedWire(d.fields[at], wire), Took(middle, after))
    ensures Account(d, dest, start, more, after, result, seen')
  {
    hide FallsInto, OthersStay, SeenOccurs, IsHead, Body, Proper, Put, CountRequired, UsedWire, WireFor;
    var p := Piece(Took(before, middle), d.fields[at].tag, wire, Took(middle, after));
    KnownRead(d, dest, pieces, cur, result, seen, seen', at, p);
    WireForField(d, at, wire);
    OnePieceMore(d, start, pieces, before, middle, after, p);
    more := pieces + [p];
  }

  lemma NothingReadYet(d: Desc, dest: Message, start: seq<Byte>)
    requires |dest.slots| == |d.fields|
    ensures Account(d, dest, start, [], start, dest, {}) && EndsHere([])
  {
  }

  lemma ZeroEnds(before: seq<Byte>, after: seq<Byte>)
    requires IsRest(after, before) && IsVarint(Took(before, after))
    requires GroupSum(Took(before, after)) % TWO_TO_THE_32 == 0
    ensures EndsHere(before)
  {
    hide GroupSum;
    var n := |before| - |after|;
    assert before[..n] == Took(before, after);
  }

  lemma OnePieceMore(d: Desc, start: seq<Byte>, pieces: seq<Piece>, before: seq<Byte>, middle: seq<Byte>, after: seq<Byte>,
                     p: Piece)
    requires FallsInto(d, start, pieces, before) && IsRest(middle, before) && IsRest(after, middle)
    requires p.head == Took(before, middle) && p.body == Took(middle, after)
    requires IsHead(p.head, p.tag, p.wire) && Body(WireFor(d, p.tag, p.wire), p.body)
    ensures FallsInto(d, start, pieces + [p], after)
  {
    hide IsHead, Body, WireFor;
    TookTwice(before, middle, after);
    assert before == Took(before, after) + after;
    assert (pieces + [p])[..|pieces|] == pieces;
    assert PieceBytes(pieces + [p]) == PieceBytes(pieces) + (p.head + p.body);
    assert start == PieceBytes(pieces) + ((p.head + p.body) + after) == PieceBytes(pieces + [p]) + after;
  }

  lemma WireForField(d: Desc, at: nat, wire: nat)
    requires Proper(d) && at < |d.fields|
    ensures WireFor(d, d.fields[at].tag, wire) == UsedWire(d.fields[at], wire)
  {
    hide Proper, UsedWire;
    OwnPosition(d, at);
  }

  lemma MoreOccurs(pieces: seq<Piece>, p: Piece, tag: nat)
    ensures Occurs(pieces + [p], tag) <==> Occurs(pieces, tag) || p.tag == tag
  {
    if Occurs(pieces, tag) {
      var q :| q in pieces && q.tag == tag;
      assert q in pieces + [p];
    }
    assert p in pieces + [p];
  }

  lemma MoreMatesOccur(d: Desc, pieces: seq<Piece>, p: Piece, k: nat)
    requires k < |d.fields| && MateOccurs(d, pieces, k)
    ensures MateOccurs(d, pieces + [p], k)
  {
    hide Occurs;
    var q :| 0 <= q < |d.fields| && d.fields[q].rule == d.fields[k].rule && Occurs(pieces, d.fields[q].tag);
    MoreOccurs(pieces, p, d.fields[q].tag);
  }

  lemma MoreSeen(d: Desc, pieces: seq<Piece>, seen: set<nat>, p: Piece)
    requires SeenOccurs(d, pieces, seen)
    ensures SeenOccurs(d, pieces + [p], seen)
  {
    hide CountRequired, Occurs;
    forall q | q in seen
      ensures SeenAs(d, pieces + [p], q)
    {
      assert SeenAs(d, pieces, q);
      var k :| 0 <= k < |d.fields| && d.fields[k].rule.Required? && CountRequired(d.fields, k) == q
               && Occurs(pieces, d.fields[k].tag);
      MoreOccurs(pieces, p, d.fields[k].tag);
    }
  }

  lemma UnknownRead(d: Desc, dest: Message, pieces: seq<Piece>, cur: Message, seen: set<nat>, p: Piece)
    requires |dest.slots| == |d.fields| && OthersStay(d, dest, pieces, cur) && SeenOccurs(d, pieces, seen)
    ensures OthersStay(d, dest, pieces + [p], cur) && SeenOccurs(d, pieces + [p], seen)
  {
    hide Occurs, MateOccurs, SeenOccurs;
    MoreSeen(d, pieces, seen, p);
    forall k | 0 <= k < |d.fields| && !Occurs(pieces + [p], d.fields[k].tag) && !MateOccurs(d, pieces + [p], k)
      ensures cur.slots[k] == dest.slots[k]
    {
      MoreOccurs(pieces, p, d.fields[k].tag);
      if MateOccurs(d, pieces, k) {
        MoreMatesOccur(d, pieces, p, k);
      }
    }
  }

  lemma KnownRead(d: Desc, dest: Message, pieces: seq<Piece>, cur: Message, result: Message, seen: set<nat>,
                  seen': set<nat>, at: nat, p: Piece)
    requires |dest.slots| == |d.fields| == |cur.slots| == |result.slots| && at < |d.fields| && p.tag == d.fields[at].tag
    requires OthersStay(d, dest, pieces, cur) && SeenOccurs(d, pieces, seen)
    requires result == Put(d, cur, at, result.slots[at])
    requires seen' <= seen + if d.fields[at].rule.Required? then {CountRequired(d.fields, at)} else {}
    ensures OthersStay(d, dest, pieces + [p], result) && SeenOccurs(d, pieces + [p], seen')
  {
    hide Occurs, MateOccurs, SeenAs, CountRequired, Put;
    MoreSeen(d, pieces, seen, p);
    MoreOccurs(pieces, p, d.fields[at].tag);
    if d.fields[at].rule.Required? {
      assert SeenAs(d, pieces + [p], CountRequired(d.fields, at)) by { SeenAsIs(d, pieces + [p], at); }
    }
    UnknownRead(d, dest, pieces, cur, seen, p);
    forall k | 0 <= k < |d.fields| && !Occurs(pieces + [p], d.fields[k].tag) && !MateOccurs(d, pieces + [p], k)
      ensures result.slots[k] == dest.slots[k]
    {
      if d.fields[at].rule.Oneof? && d.fields[k].rule == d.fields[at].rule {
        MateIs(d, pieces + [p], k, at);
      }
      PutElsewhere(d, cur, at, result.slots[at], k);
    }
  }

  lemma SeenAsIs(d: Desc, pieces: seq<Piece>, at: nat)
    requires at < |d.fields| && d.fields[at].rule.Required? && Occurs(pieces, d.fields[at].tag)
    ensures SeenAs(d, pieces, CountRequired(d.fields, at))
  {
    hide CountRequired, Occurs;
  }

  lemma MateIs(d: Desc, pieces: seq<Piece>, k: nat, at: nat)
    requires k < |d.fields| && at < |d.fields| && d.fields[k].rule.Oneof? && d.fields[at].rule == d.fields[k].rule
    requires Occurs(pieces, d.fields[at].tag)
    ensures MateOccurs(d, pieces, k)
  {
    hide Occurs;
  }

  lemma PutElsewhere(d: Desc, m: Message, at: nat, slot: Slot, k: nat)
    requires at < |d.fields| == |m.slots| && k < |d.fields| && k != at
    requires !(d.fields[at].rule.Oneof? && d.fields[k].rule == d.fields[at].rule)
    ensures Put(d, m, at, slot).slots[k] == m.slots[k]
  {
  }

  lemma {:induction false} CountGrows(fields: seq<Field>, i: nat, n: nat)
    requires i < n <= |fields|
    ensures CountRequired(fields, i) + (if fields[i].rule.Required? then 1 else 0) <= CountRequired(fields, n)
    decreases n
  {
    if i < n - 1 {
      CountGrows(fields, i, n - 1);
    }
  }

  /** What the check of required fields passes has all of them. */
  lemma AllRequiredOccur(d: Desc, pieces: seq<Piece>, seen: set<nat>)
    requires SeenOccurs(d, pieces, seen)
    requires forall q :: 0 <= q < CountRequired(d.fields, |d.fields|) && q < MAX_REQUIRED_FIELDS ==> q in seen
    ensures RequiredOccur(d, pieces)
  {
    hide CountRequired, Occurs;
    forall k | 0 <= k < |d.fields| && d.fields[k].rule.Required? && CountRequired(d.fields, k) < MAX_REQUIRED_FIELDS
      ensures Occurs(pieces, d.fields[k].tag)
    {
      var q := CountRequired(d.fields, k);
      CountGrows(d.fields, k, |d.fields|);
      assert q in seen && SeenAs(d, pieces, q);
      var i :| 0 <= i < |d.fields| && d.fields[i].rule.Required? && CountRequired(d.fields, i) == q
               && Occurs(pieces, d.fields[i].tag);
      if i < k {
        CountGrows(d.fields, i, k);
      } else if k < i {
        CountGrows(d.fields, k, i);
      }
    }
  }

  /** The required field with a given number. */
  lemma {:induction false} RequiredAt(fields: seq<Field>, q: nat, n: nat) returns (k: nat)
    requires n <= |fields| && q < CountRequired(fields, n)
    ensures k < n && fields[k].rule.Required? && CountRequired(fields, k) == q
    decreases n
  {
    if q < CountRequired(fields, n - 1) {
      k := RequiredAt(fields, q, n - 1);
    } else {
      k := n - 1;
    }
  }

  /** A writer that has all required fields sends them. */
  lemma SeenIsEnough(d: Desc, w: Desc, seen: set<nat>)
    requires TakesAll(d, w) && SeenUpTo(d, w, |w.fields|, seen)
    ensures forall q :: 0 <= q < CountRequired(d.fields, |d.fields|) && q < MAX_REQUIRED_FIELDS ==> q in seen
  {
    hide CountRequired, TakesField;
    forall q | 0 <= q < CountRequired(d.fields, |d.fields|) && q < MAX_REQUIRED_FIELDS
      ensures q in seen
    {
      var k := RequiredAt(d.fields, q, |d.fields|);
      var p :| 0 <= p < |w.fields| && w.fields[p].tag == d.fields[k].tag;
      assert Position(w.fields, d.fields[k].tag) <= p;
    }
  }

  // ----- Along the encoding of a writer's message -----

  lemma StartDecoding(d: Desc, dest: Message, w: Desc, m: Message, input: seq<Byte>)
    requires |dest.slots| == |d.fields| && StoredMessage(w, m) && |m.slots| == |w.fields| && ComesMessage(w, m, input)
    ensures Decoding(d, dest, w, m, 0, 0, input, dest, {})
  {
    hide StoredSlot, ReadSlot;
    StoredMessageIsEncodable(w, m);
    hide ShapedMessage;
    var r := Merged(d, dest, w, m, 0, 0);
    forall k | 0 <= k < |d.fields|
      ensures r.slots[k] == dest.slots[k]
    {
      assert r.slots[k] == MergedSlot(d, dest, w, m, 0, 0, k);
    }
    assert dest.slots == r.slots;
  }

  lemma {:induction false} EncodePrefix(w: Desc, m: Message, i: nat, n: nat) returns (tail: seq<Byte>)
    requires ShapedMessage(w, m) && i <= n <= |m.slots|
    ensures EncodeMessage(w, m, n) == EncodeMessage(w, m, i) + tail
    decreases n
  {
    hide ShapedMessage;
    if i == n {
      tail := [];
    } else {
      var t := EncodePrefix(w, m, i, n - 1);
      SlotShape(w, m, n - 1);
      tail := t + EncodeSlot(w.fields[n - 1], m.slots[n - 1]);
    }
  }

  lemma SlotShape(w: Desc, m: Message, i: nat)
    requires ShapedMessage(w, m) && i < |m.slots|
    ensures |m.slots| == |w.fields| && ShapedSlot(w.fields[i], m.slots[i])
  {
    hide ShapedSlot;
  }

  lemma {:induction false} TaggedPrefix(f: Field, slot: Slot, i: nat, n: nat) returns (tail: seq<Byte>)
    requires slot.Many? && i <= n <= |slot.items| && forall k :: 0 <= k < |slot.items| ==> Shaped(f.kind, slot.items[k])
    ensures EncodeTagged(f, slot, n) == EncodeTagged(f, slot, i) + tail
    decreases n
  {
    hide Shaped, EncodeValue, TagBytes;
    if i == n {
      tail := [];
    } else {
      var t := TaggedPrefix(f, slot, i, n - 1);
      tail := t + (TagBytes(WireType(f.kind), f.tag) + EncodeValue(f.kind, slot.items[n - 1]));
    }
  }

  /** A slot without a piece has no bytes and is not required. */
  lemma NoPieceNoBytes(f: Field, slot: Slot)
    requires StoredSlot(f, slot) && !HasPiece(f, slot, 0)
    ensures ShapedSlot(f, slot) && EncodeSlot(f, slot) == [] && !f.rule.Required?
  {
    StoredSlotIsEncodable(f, slot);
    hide Stored, Shaped, EncodeValue, EncodeItems, IsDefault, DefaultValue;
  }

  /** Moving over a slot whose pieces are all done. */
  lemma SkipSlot(d: Desc, dest: Message, w: Desc, m: Message, i: nat, j: nat, input: seq<Byte>, cur: Message, seen: set<nat>)
    requires StoredMessage(d, dest) && |dest.slots| == |d.fields| && Proper(d) && Proper(w) && TakesAll(d, w)
    requires StoredMessage(w, m) && |m.slots| == |w.fields| && Decoding(d, dest, w, m, i, j, input, cur, seen)
    requires i < |w.fields| && !HasPiece(w.fields[i], m.slots[i], j)
    ensures Decoding(d, dest, w, m, i + 1, 0, input, cur, seen)
  {
    hide *;
    DecodingIs(d, dest, w, m, i, j, input, cur, seen);
    SkippedBytes(w, m, i, j);
    AtStart(w, m, i + 1);
    if j == 0 {
      MergedSkips(d, dest, w, m, i);
    } else {
      MergedItems(d, dest, w, m, i);
    }
    SeenSkips(d, w, i, seen);
    MakeDecoding(d, dest, w, m, i + 1, 0, input, cur, seen);
  }

  lemma AtStart(w: Desc, m: Message, i: nat)
    requires |m.slots| == |w.fields| && i <= |w.fields|
    ensures At(w, m, i, 0)
  {
  }

  lemma DecodingIs(d: Desc, dest: Message, w: Desc, m: Message, i: nat, j: nat, input: seq<Byte>, cur: Message, seen: set<nat>)
    requires |dest.slots| == |d.fields| && StoredMessage(w, m) && |m.slots| == |w.fields|
    requires Decoding(d, dest, w, m, i, j, input, cur, seen)
    ensures ShapedMessage(w, m) && At(w, m, i, j) && |EncodeMessage(w, m, |m.slots|)| < TWO_TO_THE_32
    ensures EncodeMessage(w, m, |m.slots|) == Consumed(w, m, i, j) + input
    ensures (j > 0 ==> i < |w.fields| && m.slots[i].Many?) && cur == Merged(d, dest, w, m, i, j) && SeenUpTo(d, w, i, seen)
  {
    StoredMessageIsEncodable(w, m);
    hide StoredMessage, EncodeMessage, Merged, SeenUpTo, ShapedMessage, Consumed, Unpacked;
  }

  /** Its bytes have all been consumed. */
  lemma SkippedBytes(w: Desc, m: Message, i: nat, j: nat)
    requires StoredMessage(w, m) && |m.slots| == |w.fields| && At(w, m, i, j) && ShapedMessage(w, m)
    requires i < |w.fields| && !HasPiece(w.fields[i], m.slots[i], j)
    ensures At(w, m, i + 1, 0) && Consumed(w, m, i + 1, 0) == Consumed(w, m, i, j) && !w.fields[i].rule.Required?
    ensures j > 0 ==> Unpacked(w.fields[i]) && m.slots[i].Many? && j == |m.slots[i].items|
  {
    hide ShapedMessage, StoredSlot, EncodeSlot, EncodeTagged, HasPiece, Unpacked, StoredMessage;
    var f, slot := w.fields[i], m.slots[i];
    StoredShape(w, m, i);
    SlotShape(w, m, i);
    assert EncodeMessage(w, m, i + 1) == EncodeMessage(w, m, i) + EncodeSlot(f, slot);
    if j == 0 {
      NoPieceNoBytes(f, slot);
    } else {
      AllPiecesDone(f, slot, j);
    }
    NotRequired(f, slot, j);
  }

  lemma AllPiecesDone(f: Field, slot: Slot, j: nat)
    requires ShapedSlot(f, slot) && Unpacked(f) && slot.Many? && 0 < j <= |slot.items| && !HasPiece(f, slot, j)
    ensures j == |slot.items| && EncodeSlot(f, slot) == EncodeTagged(f, slot, j)
  {
    hide EncodeTagged, Shaped;
  }

  lemma NotRequired(f: Field, slot: Slot, j: nat)
    requires StoredSlot(f, slot) && !HasPiece(f, slot, j) && (j > 0 ==> Unpacked(f))
    ensures !f.rule.Required?
  {
    hide Stored, IsDefault;
  }

  lemma SeenSkips(d: Desc, w: Desc, i: nat, seen: set<nat>)
    requires TakesAll(d, w) && i < |w.fields| && !w.fields[i].rule.Required? && SeenUpTo(d, w, i, seen)
    ensures SeenUpTo(d, w, i + 1, seen)
  {
    hide CountRequired, Takes;
    forall k | && 0 <= k < |d.fields| && d.fields[k].rule.Required? && Position(w.fields, d.fields[k].tag) < i + 1
               && CountRequired(d.fields, k) < MAX_REQUIRED_FIELDS
      ensures CountRequired(d.fields, k) in seen
    {
      var p := Position(w.fields, d.fields[k].tag);
      assert TakesField(d.fields[k], w.fields[p]);
      assert p < i;
    }
  }

  /** Only a selected member of the oneof can deselect another. */
  lemma DeselectedStep(d: Desc, w: Desc, m: Message, i: nat, k: nat)
    requires |m.slots| == |w.fields| && i < |w.fields| && k < |d.fields|
    requires forall q | 0 <= q < |d.fields| && q != k && d.fields[k].rule.Oneof? && d.fields[q].rule == d.fields[k].rule ::
               Position(w.fields, d.fields[q].tag) == i ==> !HasPiece(w.fields[i], m.slots[i], 0)
    ensures Deselected(d, w, m, i + 1, k) == Deselected(d, w, m, i, k)
  {
    hide HasPiece;
  }

  lemma MergedSkips(d: Desc, dest: Message, w: Desc, m: Message, i: nat)
    requires |dest.slots| == |d.fields| && |m.slots| == |w.fields| && i < |w.fields| && !HasPiece(w.fields[i], m.slots[i], 0)
    ensures Merged(d, dest, w, m, i + 1, 0) == Merged(d, dest, w, m, i, 0)
  {
    hide HasPiece, ReadSlot, Deselected;
    forall k | 0 <= k < |d.fields|
      ensures MergedSlot(d, dest, w, m, i + 1, 0, k) == MergedSlot(d, dest, w, m, i, 0, k)
    {
      DeselectedStep(d, w, m, i, k);
    }
    SameMerged(d, dest, w, m, i + 1, 0, i, 0);
  }

  lemma SameMerged(d: Desc, dest: Message, w: Desc, m: Message, i: nat, j: nat, i': nat, j': nat)
    requires |dest.slots| == |d.fields| && |m.slots| == |w.fields| && i <= |w.fields| && i' <= |w.fields|
    requires j > 0 ==> i < |w.fields| && m.slots[i].Many? && j <= |m.slots[i].items|
    requires j' > 0 ==> i' < |w.fields| && m.slots[i'].Many? && j' <= |m.slots[i'].items|
    requires forall k :: 0 <= k < |d.fields| ==> MergedSlot(d, dest, w, m, i, j, k) == MergedSlot(d, dest, w, m, i', j', k)
    ensures Merged(d, dest, w, m, i, j) == Merged(d, dest, w, m, i', j')
  {
    hide MergedSlot;
    assert Merged(d, dest, w, m, i, j).slots == Merged(d, dest, w, m, i', j').slots;
  }

  lemma ArrayIsRead(d: Desc, dest: Message, w: Desc, k: nat, p: nat)
    requires StoredMessage(d, dest) && TakesAll(d, w) && k < |d.fields| && p < |w.fields|
    requires d.fields[k].tag == w.fields[p].tag && w.fields[p].rule.Repeated?
    ensures |dest.slots| == |d.fields| && d.fields[k].rule.Repeated? && dest.slots[k].Many?
  {
    hide Takes, Stored;
    assert TakesField(d.fields[k], w.fields[p]);
    StoredShape(d, dest, k);
  }

  /** With all items of an array, its field is done. */
  lemma MergedItems(d: Desc, dest: Message, w: Desc, m: Message, i: nat)
    requires StoredMessage(d, dest) && |dest.slots| == |d.fields| && TakesAll(d, w)
    requires |m.slots| == |w.fields| && i < |w.fields| && Unpacked(w.fields[i]) && m.slots[i].Many? && m.slots[i].items != []
    ensures Merged(d, dest, w, m, i, |m.slots[i].items|) == Merged(d, dest, w, m, i + 1, 0)
  {
    hide ReadItems, StoredMessage, TakesAll, Deselected;
    var n := |m.slots[i].items|;
    forall k | 0 <= k < |d.fields|
      ensures MergedSlot(d, dest, w, m, i, n, k) == MergedSlot(d, dest, w, m, i + 1, 0, k)
    {
      var p := Position(w.fields, d.fields[k].tag);
      if p == i {
        ArrayIsRead(d, dest, w, k, p);
        var items := ReadItems(d.fields[k], w.fields[p], m.slots[p]);
        assert items[..n] == items;
      } else {
        ArraysDeselectNothing(d, dest, w, m, i, k);
      }
    }
    SameMerged(d, dest, w, m, i, n, i + 1, 0);
  }

  lemma ArraysDeselectNothing(d: Desc, dest: Message, w: Desc, m: Message, i: nat, k: nat)
    requires StoredMessage(d, dest) && |dest.slots| == |d.fields| && TakesAll(d, w) && k < |d.fields|
    requires |m.slots| == |w.fields| && i < |w.fields| && Unpacked(w.fields[i])
    ensures Deselected(d, w, m, i + 1, k) == Deselected(d, w, m, i, k)
  {
    hide HasPiece, StoredMessage, TakesAll, Deselected;
    forall q | 0 <= q < |d.fields| && Position(w.fields, d.fields[q].tag) == i
      ensures d.fields[q].rule.Repeated?
    {
      ArrayIsRead(d, dest, w, q, i);
    }
    DeselectedStep(d, w, m, i, k);
  }

  /** Find the next piece: slots that are left out, or done, are passed over. */
  lemma {:induction false} NextPiece(d: Desc, dest: Message, w: Desc, m: Message, i: nat, j: nat, input: seq<Byte>,
                                     cur: Message, seen: set<nat>)
    returns (i': nat, j': nat)
    requires StoredMessage(d, dest) && |dest.slots| == |d.fields| && Proper(d) && Proper(w) && TakesAll(d, w)
    requires StoredMessage(w, m) && |m.slots| == |w.fields| && Decoding(d, dest, w, m, i, j, input, cur, seen)
    requires input != []
    ensures Decoding(d, dest, w, m, i', j', input, cur, seen)
    ensures i' < |w.fields| && HasPiece(w.fields[i'], m.slots[i'], j')
    decreases |w.fields| - i
  {
    hide HasPiece, StoredMessage, Decoding, Proper, TakesAll;
    DecodingFacts(d, dest, w, m, i, j, input, cur, seen);
    if HasPiece(w.fields[i], m.slots[i], j) {
      i', j' := i, j;
    } else {
      SkipSlot(d, dest, w, m, i, j, input, cur, seen);
      i', j' := NextPiece(d, dest, w, m, i + 1, 0, input, cur, seen);
    }
  }

  lemma DecodingFacts(d: Desc, dest: Message, w: Desc, m: Message, i: nat, j: nat, input: seq<Byte>, cur: Message,
                      seen: set<nat>)
    requires |dest.slots| == |d.fields| && StoredMessage(w, m) && |m.slots| == |w.fields|
    requires Decoding(d, dest, w, m, i, j, input, cur, seen)
    ensures i <= |w.fields| && (input != [] ==> i < |w.fields|)
  {
    hide StoredSlot, Merged;
    StoredMessageIsEncodable(w, m);
    hide ShapedMessage;
  }

  /** The bytes of a piece: its tag, its body, and what follows. */
  lemma PieceIsNext(d: Desc, dest: Message, w: Desc, m: Message, i: nat, j: nat, input: seq<Byte>, cur: Message,
                    seen: set<nat>)
    returns (body: seq<Byte>, rest: seq<Byte>)
    requires |dest.slots| == |d.fields| && StoredMessage(w, m) && |m.slots| == |w.fields| && Proper(w)
    requires Decoding(d, dest, w, m, i, j, input, cur, seen)
    requires i < |w.fields| && HasPiece(w.fields[i], m.slots[i], j)
    ensures input == TagBytes(PieceWire(w.fields[i]), w.fields[i].tag) + (body + rest)
    ensures PieceFollows(d, dest, w, m, i, j, body, rest, cur, seen)
    ensures 0 < w.fields[i].tag < 0x2000_0000 && PieceWire(w.fields[i]) < 8
  {
    hide HasPiece, StoredSlot, EncodeSlot, PieceBody, TagBytes, PieceWire, EncodeTagged, Unpacked, SeenUpTo, Merged;
    StoredMessageIsEncodable(w, m);
    hide ShapedMessage;
    var f, slot := w.fields[i], m.slots[i];
    StoredShape(w, m, i);
    SlotShape(w, m, i);
    var tail := EncodePrefix(w, m, i + 1, |m.slots|);
    var head := EncodeMessage(w, m, i);
    assert EncodeMessage(w, m, i + 1) == head + EncodeSlot(f, slot);
    var before, after := SlotSplit(f, slot, j);
    body := PieceBody(f, slot, j);
    rest := after + tail;
    var tag := TagBytes(PieceWire(f), f.tag);
    assert Consumed(w, m, i, j) == head + before;
    assert head + (before + (tag + body) + after) + tail == (head + before) + (tag + (body + rest));
    SameSuffix(head + before, input, tag + (body + rest));
    WireIsSmall(f);
  }

  lemma WireIsSmall(f: Field)
    ensures PieceWire(f) < 8
  {
  }

  /** A slot's bytes around its piece `j`. */
  lemma SlotSplit(f: Field, slot: Slot, j: nat) returns (before: seq<Byte>, after: seq<Byte>)
    requires ShapedSlot(f, slot) && HasPiece(f, slot, j)
    ensures EncodeSlot(f, slot) == before + (TagBytes(PieceWire(f), f.tag) + PieceBody(f, slot, j)) + after
    ensures !Unpacked(f) ==> j == 0 && before == [] && after == []
    ensures Unpacked(f) ==> slot.Many? && j < |slot.items| && before == EncodeTagged(f, slot, j)
    ensures j == 0 ==> before == []
    ensures Unpacked(f) ==> EncodeTagged(f, slot, j + 1) == before + (TagBytes(PieceWire(f), f.tag) + PieceBody(f, slot, j))
  {
    hide Shaped, EncodeValue, EncodeItems, TagBytes, IsDefault, Varint, Packable;
    if Unpacked(f) {
      before := EncodeTagged(f, slot, j);
      after := TaggedPrefix(f, slot, j + 1, |slot.items|);
      TaggedStep(f, slot, j);
    } else {
      before, after := [], [];
      assert EncodeSlot(f, slot) == TagBytes(PieceWire(f), f.tag) + PieceBody(f, slot, j);
    }
  }

  lemma TaggedStep(f: Field, slot: Slot, j: nat)
    requires slot.Many? && j < |slot.items| && forall k :: 0 <= k < |slot.items| ==> Shaped(f.kind, slot.items[k])
    ensures EncodeTagged(f, slot, j + 1)
         == EncodeTagged(f, slot, j) + (TagBytes(WireType(f.kind), f.tag) + EncodeValue(f.kind, slot.items[j]))
  {
    hide Shaped, EncodeValue, TagBytes;
  }

  /** What is known between reading a piece's tag and decoding its body. */
  ghost predicate PieceFollows(d: Desc, dest: Message, w: Desc, m: Message, i: nat, j: nat, body: seq<Byte>,
                               rest: seq<Byte>, cur: Message, seen: set<nat>)
    requires |dest.slots| == |d.fields| && StoredMessage(w, m) && |m.slots| == |w.fields|
    requires i < |w.fields| && HasPiece(w.fields[i], m.slots[i], j)
  {
    StoredMessageIsEncodable(w, m);
    && At(w, m, i, j) && body == PieceBody(w.fields[i], m.slots[i], j)
    && cur == Merged(d, dest, w, m, i, j) && SeenUpTo(d, w, i, seen)
    && |EncodeMessage(w, m, |m.slots|)| < TWO_TO_THE_32 && |body| < TWO_TO_THE_32
    && EncodeMessage(w, m, |m.slots|)
       == Consumed(w, m, i, j) + (TagBytes(PieceWire(w.fields[i]), w.fields[i].tag) + body) + rest
  }

  /** A field that the reader does not know has the body that its head promises. */
  lemma UnknownIsSent(d: Desc, dest: Message, w: Desc, m: Message, i: nat, j: nat, body: seq<Byte>, rest: seq<Byte>,
                      cur: Message, seen: set<nat>)
    requires |dest.slots| == |d.fields| && StoredMessage(w, m) && |m.slots| == |w.fields|
    requires i < |w.fields| && HasPiece(w.fields[i], m.slots[i], j)
    requires PieceFollows(d, dest, w, m, i, j, body, rest, cur, seen)
    ensures Sent(PieceWire(w.fields[i]), body)
  {
    hide HasPiece, StoredSlot, PieceBody, TagBytes, PieceWire, EncodeMessage, SeenUpTo, Merged, Sent, Consumed;
    StoredMessageIsEncodable(w, m);
    hide ShapedMessage;
    SlotShape(w, m, i);
    PieceIsSent(w.fields[i], m.slots[i], j);
  }

  /** Where the writer is after a piece. */
  lemma StepOver(d: Desc, dest: Message, w: Desc, m: Message, i: nat, j: nat, body: seq<Byte>, rest: seq<Byte>, cur: Message,
                 seen: set<nat>)
    requires |dest.slots| == |d.fields| && StoredMessage(w, m) && |m.slots| == |w.fields|
    requires i < |w.fields| && HasPiece(w.fields[i], m.slots[i], j)
    requires PieceFollows(d, dest, w, m, i, j, body, rest, cur, seen)
    ensures ShapedMessage(w, m)
    ensures var (i', j') := NextAt(w, i, j);
            && At(w, m, i', j') && |EncodeMessage(w, m, |m.slots|)| < TWO_TO_THE_32
            && EncodeMessage(w, m, |m.slots|) == Consumed(w, m, i', j') + rest
  {
    StoredMessageIsEncodable(w, m);
    hide HasPiece, StoredSlot, EncodeSlot, PieceBody, TagBytes, PieceWire, EncodeTagged, StoredMessage, Merged, SeenUpTo,
         ShapedMessage, EncodeMessage, Unpacked;
    SlotShape(w, m, i);
    AdvancesOver(w, m, i, j);
  }

  lemma AdvancesOver(w: Desc, m: Message, i: nat, j: nat)
    requires StoredMessage(w, m) && |m.slots| == |w.fields| && At(w, m, i, j)
    requires i < |w.fields| && HasPiece(w.fields[i], m.slots[i], j) && ShapedSlot(w.fields[i], m.slots[i])
    ensures var (i', j') := NextAt(w, i, j);
            && At(w, m, i', j')
            && Consumed(w, m, i', j')
               == Consumed(w, m, i, j)
                  + (TagBytes(PieceWire(w.fields[i]), w.fields[i].tag) + PieceBody(w.fields[i], m.slots[i], j))
  {
    hide HasPiece, StoredSlot, EncodeSlot, PieceBody, TagBytes, PieceWire, EncodeTagged, StoredMessage, Unpacked, ShapedSlot;
    StoredMessageIsEncodable(w, m);
    hide ShapedMessage;
    var f, slot := w.fields[i], m.slots[i];
    var before, after := SlotSplit(f, slot, j);
    if Unpacked(f) {
      assert Consumed(w, m, i, j) == EncodeMessage(w, m, i) + before;
      assert At(w, m, i, j + 1);
    } else {
      assert EncodeMessage(w, m, i + 1) == EncodeMessage(w, m, i) + EncodeSlot(f, slot);
    }
  }

  function NextAt(w: Desc, i: nat, j: nat): (nat, nat)
    requires i < |w.fields|
  {
    if Unpacked(w.fields[i]) then (i, j + 1) else (i + 1, 0)
  }

  lemma MakeDecoding(d: Desc, dest: Message, w: Desc, m: Message, i: nat, j: nat, input: seq<Byte>, cur: Message,
                     seen: set<nat>)
    requires |dest.slots| == |d.fields| && StoredMessage(w, m) && |m.slots| == |w.fields| && At(w, m, i, j)
    requires ShapedMessage(w, m) && |EncodeMessage(w, m, |m.slots|)| < TWO_TO_THE_32
    requires EncodeMessage(w, m, |m.slots|) == Consumed(w, m, i, j) + input
    requires cur == Merged(d, dest, w, m, i, j) && SeenUpTo(d, w, i, seen)
    ensures Decoding(d, dest, w, m, i, j, input, cur, seen)
  {
    hide StoredMessage, EncodeMessage, Merged, SeenUpTo, ShapedMessage;
  }

  /** A skipped piece changes nothing. */
  lemma PieceSkipped(d: Desc, dest: Message, w: Desc, m: Message, i: nat, j: nat, body: seq<Byte>, rest: seq<Byte>,
                     cur: Message, seen: set<nat>)
    returns (i': nat, j': nat)
    requires |dest.slots| == |d.fields| && StoredMessage(w, m) && |m.slots| == |w.fields| && Proper(w)
    requires i < |w.fields| && HasPiece(w.fields[i], m.slots[i], j)
    requires PieceFollows(d, dest, w, m, i, j, body, rest, cur, seen)
    requires forall k :: 0 <= k < |d.fields| ==> d.fields[k].tag != w.fields[i].tag
    ensures Decoding(d, dest, w, m, i', j', rest, cur, seen)
  {
    hide HasPiece, StoredMessage, PieceFollows, EncodeMessage, ShapedMessage, Merged, Consumed, SeenUpTo, Deselected;
    StepOver(d, dest, w, m, i, j, body, rest, cur, seen);
    FollowsFacts(d, dest, w, m, i, j, body, rest, cur, seen);
    var next := NextAt(w, i, j);
    i', j' := next.0, next.1;
    forall k | 0 <= k < |d.fields|
      ensures Position(w.fields, d.fields[k].tag) != i
    {
    }
    UnknownSeen(d, w, i, i', seen);
    UnknownMerges(d, dest, w, m, i, j);
    MakeDecoding(d, dest, w, m, i', j', rest, cur, seen);
  }

  lemma FollowsFacts(d: Desc, dest: Message, w: Desc, m: Message, i: nat, j: nat, body: seq<Byte>, rest: seq<Byte>,
                     cur: Message, seen: set<nat>)
    requires |dest.slots| == |d.fields| && StoredMessage(w, m) && |m.slots| == |w.fields|
    requires i < |w.fields| && HasPiece(w.fields[i], m.slots[i], j)
    requires PieceFollows(d, dest, w, m, i, j, body, rest, cur, seen)
    ensures At(w, m, i, j) && cur == Merged(d, dest, w, m, i, j) && SeenUpTo(d, w, i, seen)
    ensures Unpacked(w.fields[i]) ==> m.slots[i].Many? && j < |m.slots[i].items|
    ensures !Unpacked(w.fields[i]) ==> j == 0
  {
    hide StoredMessage, EncodeMessage, ShapedMessage, Merged, Consumed, SeenUpTo, IsDefault;
  }

  lemma UnknownSeen(d: Desc, w: Desc, i: nat, i': nat, seen: set<nat>)
    requires SeenUpTo(d, w, i, seen) && i <= i' <= i + 1
    requires forall k :: 0 <= k < |d.fields| ==> Position(w.fields, d.fields[k].tag) != i
    ensures SeenUpTo(d, w, i', seen)
  {
    hide CountRequired;
  }

  lemma UnknownMerges(d: Desc, dest: Message, w: Desc, m: Message, i: nat, j: nat)
    requires |dest.slots| == |d.fields| && |m.slots| == |w.fields| && i < |w.fields|
    requires if Unpacked(w.fields[i]) then m.slots[i].Many? && j < |m.slots[i].items| else j == 0
    requires forall k :: 0 <= k < |d.fields| ==> Position(w.fields, d.fields[k].tag) != i
    ensures var (i', j') := NextAt(w, i, j); Merged(d, dest, w, m, i', j') == Merged(d, dest, w, m, i, j)
  {
    hide HasPiece, ReadSlot, Deselected, ReadItems, Unpacked;
    var (i', j') := NextAt(w, i, j);
    forall k | 0 <= k < |d.fields|
      ensures MergedSlot(d, dest, w, m, i', j', k) == MergedSlot(d, dest, w, m, i, j, k)
    {
      DeselectedStep(d, w, m, i, k);
    }
    SameMerged(d, dest, w, m, i', j', i, j);
  }

  lemma SourceIsStored(d: Desc, result: Message, at: nat, w: Desc, m: Message, i: nat, good: bool)
    requires Proper(d) && StoredMessage(d, result) && at < |d.fields| == |result.slots|
    requires good ==> Proper(w) && StoredMessage(w, m) && i < |w.fields| == |m.slots|
    ensures good ==> ProperKind(w.fields[i].kind) && StoredSlot(w.fields[i], m.slots[i])
    ensures ProperKind(d.fields[at].kind) && StoredSlot(d.fields[at], result.slots[at])
  {
    hide Proper, StoredMessage, StoredSlot;
    KindIsProper(d, at);
    StoredShape(d, result, at);
    if good {
      KindIsProper(w, i);
      StoredShape(w, m, i);
    }
  }

  lemma FieldIsComing(d: Desc, dest: Message, w: Desc, m: Message, at: nat, i: nat, j: nat, body: seq<Byte>,
                      rest: seq<Byte>, cur: Message, seen: set<nat>)
    requires StoredMessage(d, dest) && |dest.slots| == |d.fields| && StoredMessage(w, m) && |m.slots| == |w.fields|
    requires Proper(w) && TakesAll(d, w) && HasRoom(d, dest, w, m)
    requires i < |w.fields| && HasPiece(w.fields[i], m.slots[i], j)
    requires PieceFollows(d, dest, w, m, i, j, body, rest, cur, seen)
    requires at < |d.fields| && d.fields[at].tag == w.fields[i].tag
    ensures |cur.slots| == |d.fields| && StoredSlot(w.fields[i], m.slots[i])
    ensures PieceAwaits(d.fields[at], PieceWire(w.fields[i]), cur.slots[at], w.fields[i], m.slots[i], j, rest, body + rest)
  {
    hide StoredMessage, StoredSlot, PieceBody, PieceWire, EncodeMessage, SeenUpTo, TagBytes, Consumed, TakesAll, HasRoom,
         ReadSlot, ReadItems, Deselected, HasPiece, TakesField, RoomForPiece, Proper;
    StoredShape(w, m, i);
    FollowsFacts(d, dest, w, m, i, j, body, rest, cur, seen);
    FieldTakes(d, w, at, i);
    RoomIsThere(d, dest, w, m, at, i, j);
    StoredSlotIsEncodable(w.fields[i], m.slots[i]);
    BodyIs(d, dest, w, m, i, j, body, rest, cur, seen);
  }

  lemma BodyIs(d: Desc, dest: Message, w: Desc, m: Message, i: nat, j: nat, body: seq<Byte>, rest: seq<Byte>,
               cur: Message, seen: set<nat>)
    requires |dest.slots| == |d.fields| && StoredMessage(w, m) && |m.slots| == |w.fields|
    requires i < |w.fields| && HasPiece(w.fields[i], m.slots[i], j) && ShapedSlot(w.fields[i], m.slots[i])
    requires PieceFollows(d, dest, w, m, i, j, body, rest, cur, seen)
    ensures body == PieceBody(w.fields[i], m.slots[i], j) && |body| < TWO_TO_THE_32
  {
    hide StoredMessage, PieceBody, PieceWire, EncodeMessage, SeenUpTo, TagBytes, Consumed, Merged, HasPiece, ShapedMessage;
  }

  lemma FieldTakes(d: Desc, w: Desc, at: nat, i: nat)
    requires TakesAll(d, w) && at < |d.fields| && i < |w.fields| && d.fields[at].tag == w.fields[i].tag
    ensures TakesField(d.fields[at], w.fields[i])
  {
    hide TakesField;
  }

  lemma TagPosition(w: Desc, i: nat, tag: nat)
    requires Proper(w) && i < |w.fields|
    ensures Position(w.fields, tag) == i <==> w.fields[i].tag == tag
  {
  }

  lemma RoomIsThere(d: Desc, dest: Message, w: Desc, m: Message, at: nat, i: nat, j: nat)
    requires StoredMessage(d, dest) && |dest.slots| == |d.fields| && |m.slots| == |w.fields|
    requires Proper(w) && TakesAll(d, w) && HasRoom(d, dest, w, m) && At(w, m, i, j)
    requires i < |w.fields| && HasPiece(w.fields[i], m.slots[i], j) && at < |d.fields|
    requires d.fields[at].tag == w.fields[i].tag && StoredSlot(w.fields[i], m.slots[i])
    ensures RoomForPiece(d.fields[at], Merged(d, dest, w, m, i, j).slots[at], w.fields[i], m.slots[i], j)
  {
    TagPosition(w, i, d.fields[at].tag);
    FieldTakes(d, w, at, i);
    StoredShape(d, dest, at);
    hide Proper, TakesAll, StoredMessage, ReadItems, ReadSlot, RoomInValue, Takes, Stored, IsDefault, Packable, Deselected,
         DefaultValue;
    FirstPiece(w.fields[i], m.slots[i], j);
    assert RoomInSlot(d.fields[at], dest.slots[at], w.fields[i], m.slots[i]);
    assert Merged(d, dest, w, m, i, j).slots[at] == MergedSlot(d, dest, w, m, i, j, at);
    NotYetDeselected(d, w, m, i, at);
  }

  lemma FirstPiece(f: Field, slot: Slot, j: nat)
    requires HasPiece(f, slot, j)
    ensures HasPiece(f, slot, 0)
  {
  }

  lemma NotYetDeselected(d: Desc, w: Desc, m: Message, i: nat, k: nat)
    requires |m.slots| == |w.fields| && i <= |w.fields| && k < |d.fields|
    ensures Deselected(d, w, m, i, k) ==> d.fields[k].rule.Oneof?
  {
  }

  /** After a piece: one step further. */
  lemma PieceDone(d: Desc, dest: Message, w: Desc, m: Message, at: nat, i: nat, j: nat, body: seq<Byte>, rest: seq<Byte>,
                  cur: Message, seen: set<nat>, seen': set<nat>)
    returns (i': nat, j': nat)
    requires Proper(d) && StoredMessage(d, dest) && |dest.slots| == |d.fields| && |cur.slots| == |d.fields|
    requires Proper(w) && StoredMessage(w, m) && |m.slots| == |w.fields| && TakesAll(d, w)
    requires i < |w.fields| && HasPiece(w.fields[i], m.slots[i], j)
    requires PieceFollows(d, dest, w, m, i, j, body, rest, cur, seen) && seen <= seen'
    requires at < |d.fields| && d.fields[at].tag == w.fields[i].tag
    requires d.fields[at].rule.Required? && CountRequired(d.fields, at) < MAX_REQUIRED_FIELDS ==>
               CountRequired(d.fields, at) in seen'
    ensures Decoding(d, dest, w, m, i', j', rest,
                     Put(d, cur, at, AfterPiece(d.fields[at], cur.slots[at], w.fields[i], m.slots[i], j)), seen')
  {
    hide HasPiece, StoredMessage, PieceFollows, EncodeMessage, ShapedMessage, Merged, Consumed, SeenUpTo, Proper, TakesAll,
         Put, AfterPiece, CountRequired;
    StepOver(d, dest, w, m, i, j, body, rest, cur, seen);
    FollowsFacts(d, dest, w, m, i, j, body, rest, cur, seen);
    var next := NextAt(w, i, j);
    i', j' := next.0, next.1;
    KnownSeen(d, w, at, i, i', seen, seen');
    if Unpacked(w.fields[i]) {
      ItemPut(d, dest, w, m, at, i, j);
    } else {
      WholePut(d, dest, w, m, at, i);
    }
    MakeDecoding(d, dest, w, m, i', j', rest, Merged(d, dest, w, m, i', j'), seen');
  }

  lemma KnownSeen(d: Desc, w: Desc, at: nat, i: nat, i': nat, seen: set<nat>, seen': set<nat>)
    requires Proper(d) && Proper(w) && SeenUpTo(d, w, i, seen) && seen <= seen' && i <= i' <= i + 1 && i < |w.fields|
    requires at < |d.fields| && d.fields[at].tag == w.fields[i].tag
    requires d.fields[at].rule.Required? && CountRequired(d.fields, at) < MAX_REQUIRED_FIELDS ==>
               CountRequired(d.fields, at) in seen'
    ensures SeenUpTo(d, w, i', seen')
  {
    hide CountRequired, Proper;
    forall k | && 0 <= k < |d.fields| && d.fields[k].rule.Required? && Position(w.fields, d.fields[k].tag) < i'
               && CountRequired(d.fields, k) < MAX_REQUIRED_FIELDS
      ensures CountRequired(d.fields, k) in seen'
    {
      if Position(w.fields, d.fields[k].tag) == i {
        OneTag(d, at, k);
      }
    }
  }

  lemma OneTag(d: Desc, at: nat, i: nat)
    requires Proper(d) && at < |d.fields| && i < |d.fields| && d.fields[at].tag == d.fields[i].tag
    ensures at == i
  {
  }

  /** One more item of an array. */
  lemma ItemPut(d: Desc, dest: Message, w: Desc, m: Message, at: nat, i: nat, j: nat)
    requires Proper(d) && StoredMessage(d, dest) && |dest.slots| == |d.fields| && Proper(w) && TakesAll(d, w)
    requires |m.slots| == |w.fields| && At(w, m, i, j) && at < |d.fields|
    requires i < |w.fields| && Unpacked(w.fields[i]) && m.slots[i].Many? && j < |m.slots[i].items|
    requires d.fields[at].tag == w.fields[i].tag
    ensures var cur := Merged(d, dest, w, m, i, j);
            Put(d, cur, at, AfterPiece(d.fields[at], cur.slots[at], w.fields[i], m.slots[i], j))
            == Merged(d, dest, w, m, i, j + 1)
  {
    ArrayIsRead(d, dest, w, at, i);
    TagPosition(w, i, d.fields[at].tag);
    hide Proper, StoredMessage, TakesAll, ReadSlot, HasPiece, Deselected, ReadValue;
    var cur, f, g, slot := Merged(d, dest, w, m, i, j), d.fields[at], w.fields[i], m.slots[i];
    var r := Put(d, cur, at, AfterPiece(f, cur.slots[at], g, slot, j));
    NotYetDeselected(d, w, m, i, at);
    var items := ReadItems(f, g, slot);
    assert items[..j + 1] == items[..j] + [items[j]];
    assert dest.slots[at].items + items[..j] + [items[j]] == dest.slots[at].items + items[..j + 1];
    assert dest.slots[at].items + [] == dest.slots[at].items;
    assert items[..0] == [] && cur.slots[at] == MergedSlot(d, dest, w, m, i, j, at);
    assert cur.slots[at] == Many(dest.slots[at].items + items[..j]);
    forall k | 0 <= k < |d.fields|
      ensures r.slots[k] == MergedSlot(d, dest, w, m, i, j + 1, k)
    {
      if k != at {
        OtherTag(d, w, at, i, k);
        assert cur.slots[k] == MergedSlot(d, dest, w, m, i, j, k);
      }
    }
    assert r.slots == Merged(d, dest, w, m, i, j + 1).slots;
  }

  lemma OtherTag(d: Desc, w: Desc, at: nat, i: nat, k: nat)
    requires Proper(d) && at < |d.fields| && i < |w.fields| && d.fields[at].tag == w.fields[i].tag && k < |d.fields| && k != at
    ensures Position(w.fields, d.fields[k].tag) != i
  {
    hide Proper;
    if d.fields[k].tag == d.fields[at].tag {
      OneTag(d, at, k);
    }
  }

  /** A whole field. */
  lemma WholePut(d: Desc, dest: Message, w: Desc, m: Message, at: nat, i: nat)
    requires Proper(d) && StoredMessage(d, dest) && |dest.slots| == |d.fields| && Proper(w) && TakesAll(d, w)
    requires StoredMessage(w, m) && |m.slots| == |w.fields| && at < |d.fields|
    requires i < |w.fields| && !Unpacked(w.fields[i]) && HasPiece(w.fields[i], m.slots[i], 0)
    requires d.fields[at].tag == w.fields[i].tag
    ensures var cur := Merged(d, dest, w, m, i, 0);
            Put(d, cur, at, AfterPiece(d.fields[at], cur.slots[at], w.fields[i], m.slots[i], 0))
            == Merged(d, dest, w, m, i + 1, 0)
  {
    TagPosition(w, i, d.fields[at].tag);
    hide Proper, StoredMessage, TakesAll, ReadSlot, HasPiece, Deselected, AfterPiece, MergedSlot;
    var cur := Merged(d, dest, w, m, i, 0);
    var r := Put(d, cur, at, AfterPiece(d.fields[at], cur.slots[at], w.fields[i], m.slots[i], 0));
    forall k | 0 <= k < |d.fields|
      ensures r.slots[k] == MergedSlot(d, dest, w, m, i + 1, 0, k)
    {
      if k == at {
        ReadAtLast(d, dest, w, m, at, i);
      } else {
        OtherTag(d, w, at, i, k);
        OtherSlot(d, dest, w, m, at, i, k);
      }
    }
    assert r.slots == Merged(d, dest, w, m, i + 1, 0).slots;
  }

  /** The slot that is read: before, it is as it was, or deselected, and then what it was does not matter. */
  lemma ReadAtLast(d: Desc, dest: Message, w: Desc, m: Message, at: nat, i: nat)
    requires TakesAll(d, w) && |dest.slots| == |d.fields| && |m.slots| == |w.fields| && at < |d.fields| && i < |w.fields|
    requires !Unpacked(w.fields[i]) && HasPiece(w.fields[i], m.slots[i], 0)
    requires Position(w.fields, d.fields[at].tag) == i
    ensures var cur := Merged(d, dest, w, m, i, 0);
            AfterPiece(d.fields[at], cur.slots[at], w.fields[i], m.slots[i], 0) == MergedSlot(d, dest, w, m, i + 1, 0, at)
  {
    FieldTakes(d, w, at, i);
    hide TakesAll, Deselected, ReadValue, Takes, IsDefault;
    NotYetDeselected(d, w, m, i, at);
    assert Merged(d, dest, w, m, i, 0).slots[at] == MergedSlot(d, dest, w, m, i, 0, at);
  }

  /** The other slots: a member of the same oneof is deselected, and the writer did not select two. */
  lemma OtherSlot(d: Desc, dest: Message, w: Desc, m: Message, at: nat, i: nat, k: nat)
    requires TakesAll(d, w) && StoredMessage(w, m) && |dest.slots| == |d.fields| && |m.slots| == |w.fields|
    requires at < |d.fields| && i < |w.fields| && k < |d.fields| && k != at && HasPiece(w.fields[i], m.slots[i], 0)
    requires Position(w.fields, d.fields[at].tag) == i && Position(w.fields, d.fields[k].tag) != i
    requires forall q :: 0 <= q < |d.fields| && q != at ==> Position(w.fields, d.fields[q].tag) != i
    ensures MergedSlot(d, dest, w, m, i + 1, 0, k)
         == if d.fields[at].rule.Oneof? && d.fields[k].rule == d.fields[at].rule then Absent
            else MergedSlot(d, dest, w, m, i, 0, k)
  {
    hide TakesAll, StoredMessage, ReadSlot, HasPiece;
    var p := Position(w.fields, d.fields[k].tag);
    if d.fields[at].rule.Oneof? && d.fields[k].rule == d.fields[at].rule {
      if p < i && HasPiece(w.fields[p], m.slots[p], 0) {
        TwoSelected(d, w, m, at, i, k, p);
      }
    }
  }

  lemma TwoSelected(d: Desc, w: Desc, m: Message, at: nat, i: nat, k: nat, p: nat)
    requires TakesAll(d, w) && StoredMessage(w, m) && |m.slots| == |w.fields|
    requires at < |d.fields| && k < |d.fields| && p < i < |w.fields|
    requires d.fields[at].rule.Oneof? && d.fields[k].rule == d.fields[at].rule
    requires d.fields[at].tag == w.fields[i].tag && d.fields[k].tag == w.fields[p].tag
    ensures !HasPiece(w.fields[p], m.slots[p], 0) || !HasPiece(w.fields[i], m.slots[i], 0)
  {
    FieldTakes(d, w, at, i);
    FieldTakes(d, w, k, p);
    hide TakesAll, StoredSlot, Takes, IsDefault;
    assert m.slots[p].Absent? || m.slots[i].Absent?;
  }

  /** With nothing left to read, everything has been decoded. */
  lemma {:induction false} AllDecoded(d: Desc, dest: Message, w: Desc, m: Message, i: nat, j: nat, input: seq<Byte>,
                                      cur: Message, seen: set<nat>)
    requires StoredMessage(d, dest) && |dest.slots| == |d.fields| && Proper(d) && Proper(w) && TakesAll(d, w)
    requires StoredMessage(w, m) && |m.slots| == |w.fields| && Decoding(d, dest, w, m, i, j, input, cur, seen)
    requires input == []
    ensures cur == Merged(d, dest, w, m, |w.fields|, 0) && SeenUpTo(d, w, |w.fields|, seen)
    decreases |w.fields| - i
  {
    hide HasPiece, StoredMessage, SeenUpTo, Proper, TakesAll, Merged, EncodeMessage, ShapedMessage, Consumed;
    DecodingFacts(d, dest, w, m, i, j, input, cur, seen);
    if i < |w.fields| {
      PiecesHaveBytes(d, dest, w, m, i, j, input, cur, seen);
      SkipSlot(d, dest, w, m, i, j, input, cur, seen);
      AllDecoded(d, dest, w, m, i + 1, 0, input, cur, seen);
    }
  }

  lemma PiecesHaveBytes(d: Desc, dest: Message, w: Desc, m: Message, i: nat, j: nat, input: seq<Byte>, cur: Message,
                        seen: set<nat>)
    requires |dest.slots| == |d.fields| && StoredMessage(w, m) && |m.slots| == |w.fields| && Proper(w)
    requires Decoding(d, dest, w, m, i, j, input, cur, seen) && i < |w.fields|
    ensures HasPiece(w.fields[i], m.slots[i], j) ==> input != []
  {
    hide HasPiece, StoredMessage, Decoding, Proper, PieceFollows, Varint;
    if HasPiece(w.fields[i], m.slots[i], j) {
      var body, rest := PieceIsNext(d, dest, w, m, i, j, input, cur, seen);
      assert |TagBytes(PieceWire(w.fields[i]), w.fields[i].tag)| >= 1;
    }
  }

  // ----- The whole decoder -----

  /** pb_decode */
  method Decode(d: Desc, input: seq<Byte>, ghost w: Desc, ghost m: Message)
    returns (ok: bool, result: Message, ghost pieces: seq<Piece>)
    requires Proper(d) && Proper(w) && StoredMessage(w, m)
    ensures |m.slots| == |w.fields|
    ensures ok ==> StoredMessage(d, result)
    ensures ComesMessage(w, m, input) && TakesAll(d, w) ==>
              ok && result == Merged(d, DefaultMessage(d), w, m, |w.fields|, 0)
    ensures ok ==> exists left :: FallsInto(d, input, pieces, left) && EndsHere(left)
    ensures ok ==> RequiredOccur(d, pieces)
    ensures ok ==> OthersStay(d, DefaultMessage(d), pieces, result)
  {
    hide Proper, StoredMessage, DefaultMessage, TakesAll, HasRoom, Merged, FallsInto, EndsHere, OthersStay, CountRequired,
         Occurs, EncodeMessage;
    StoredSize(w, m);
    DefaultMessageIsStored(d);
    if TakesAll(d, w) {
      DefaultHasRoom(d, w, m);
    }
    var s := new IStream(input);
    ok, result, pieces := DecodeFields(s, d, DefaultMessage(d), w, m);
  }
}
