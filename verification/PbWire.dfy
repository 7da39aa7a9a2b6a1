/** What the bytes of an encoding say, to any reader of the wire format (nanopb: pb_encode.c). */
module PbWire {
  import opened Coding
  import opened Varints
  import opened Protobuf
  import opened PbStored
  import opened PbStreams
  import opened PbReading

  // ----- Numbers -----

  /** Integers are written in groups of seven bits, the least significant first, and no longer than need be. A negative
      one is the 64-bit complement, whatever the size of its field, or, in zigzag form, an odd number. */
  lemma NumberOnWire(kind: Kind, v: Value)
    requires Shaped(kind, v) && (kind.VarintKind? || kind.UVarintKind? || kind.SVarintKind?)
    ensures IsVarint(EncodeValue(kind, v))
    ensures kind.VarintKind? ==> GroupSum(EncodeValue(kind, v)) == if v.n < 0 then v.n + 0x1_0000_0000_0000_0000 else v.n
    ensures kind.UVarintKind? ==> GroupSum(EncodeValue(kind, v)) == v.n
    ensures kind.SVarintKind? ==> GroupSum(EncodeValue(kind, v)) == if v.n < 0 then -2 * v.n - 1 else 2 * v.n
    ensures |EncodeValue(kind, v)| > 1 ==> EncodeValue(kind, v)[|EncodeValue(kind, v)| - 1] != 0
  {
    hide GroupSum, IsVarint, Varint;
    match kind
    case VarintKind(_) => VarintForm(if v.n < 0 then v.n + TWO_TO_THE_64 else v.n);
    case UVarintKind(_) => VarintForm(v.n);
    case SVarintKind(_) => VarintForm(ZigZag(v.n));
  }

  lemma BoolOnWire(v: Value)
    requires v.BoolValue?
    ensures EncodeValue(BoolKind, v) == if v.b then [1] else [0]
  {
  }

  /** Fixed numbers are written with the least significant byte first. */
  lemma FixedOnWire(kind: Kind, v: Value, i: nat)
    requires Shaped(kind, v) && (kind.Fixed32Kind? || kind.Fixed64Kind?)
    ensures |EncodeValue(kind, v)| == if kind.Fixed32Kind? then 4 else 8
    ensures i < |EncodeValue(kind, v)| ==> EncodeValue(kind, v)[i] == v.n / Pow256(i) % 0x100
  {
    hide LittleEndian, Pow256;
    if i < |EncodeValue(kind, v)| {
      ByteOfFixed(v.n, |EncodeValue(kind, v)|, i);
    }
  }

  lemma {:induction false} ByteOfFixed(n: nat, count: nat, i: nat)
    requires i < count
    ensures LittleEndian(n, count)[i] == n / Pow256(i) % 0x100
  {
    hide Pow256;
    if i == 0 {
      assert Pow256(0) == 1 by { NoBytes(); }
    } else {
      ByteOfFixed(n / 256, count - 1, i - 1);
      MoreBytes(n, i - 1);
    }
  }

  lemma NoBytes()
    ensures Pow256(0) == 1
  {
  }

  lemma MoreBytes(n: nat, i: nat)
    ensures n / 256 / Pow256(i) == n / Pow256(i + 1)
  {
    var p := Pow256(i);
    assert Pow256(i + 1) == 256 * p;
    DivideTwice(n, p);
  }

  lemma DivideTwice(n: nat, p: nat)
    requires p >= 1
    ensures n / 256 / p == n / (256 * p)
  {
    var m := n / 256;
    var q, r := m / p, m % p;
    assert m == q * p + r;
    assert n == 256 * m + n % 256;
    assert 256 * (q * p) == q * (256 * p);
    OneQuotient(n, 256 * p, q, 256 * r + n % 256);
  }

  lemma OneQuotient(n: nat, d: nat, q: nat, r: nat)
    requires d > 0 && n == q * d + r && r < d
    ensures n / d == q
  {
    var q', r' := n / d, n % d;
    assert n == q' * d + r';
    Distribute(q', q, d);
    if q < q' {
      AtLeastOnce(q' - q, d);
    } else if q' < q {
      AtLeastOnce(q - q', d);
      Distribute(q, q', d);
    }
  }

  lemma Distribute(a: int, b: int, d: nat)
    ensures (a - b) * d == a * d - b * d
  {
  }

  lemma AtLeastOnce(e: nat, d: nat)
    requires e >= 1
    ensures e * d >= d
  {
  }

  // ----- Across descriptions -----

  /** A number that fits a narrow field is written the same into a wider one, signed or unsigned alike where both hold
      it; so a reader need not know the size of the writer's field. */
  lemma WiderIsSame(s: nat, t: nat, v: Value)
    requires IntSize(s) && IntSize(t) && s <= t
    ensures Shaped(VarintKind(s), v) ==>
              Shaped(VarintKind(t), v) && EncodeValue(VarintKind(s), v) == EncodeValue(VarintKind(t), v)
    ensures Shaped(UVarintKind(s), v) ==>
              Shaped(UVarintKind(t), v) && EncodeValue(UVarintKind(s), v) == EncodeValue(UVarintKind(t), v)
    ensures Shaped(SVarintKind(s), v) ==>
              Shaped(SVarintKind(t), v) && EncodeValue(SVarintKind(s), v) == EncodeValue(SVarintKind(t), v)
    ensures Shaped(VarintKind(s), v) && v.n >= 0 ==>
              Shaped(UVarintKind(t), v) && EncodeValue(VarintKind(s), v) == EncodeValue(UVarintKind(t), v)
    ensures Shaped(VarintKind(s), v) && v.n < 0 ==> |EncodeValue(VarintKind(s), v)| == 10
  {
    hide Varint;
    if Shaped(VarintKind(s), v) && v.n < 0 {
      LongForm(v.n + TWO_TO_THE_64);
    }
  }

  lemma LongForm(n: nat)
    requires 0x8000_0000_0000_0000 <= n < TWO_TO_THE_64
    ensures |Varint(n)| == 10
  {
    hide Varint;
    VarintSizes(n);
    AtLeast(n, 9);
  }

  lemma {:induction false} AtLeast(n: nat, k: nat)
    requires n >= Weight(k)
    ensures |Varint(n)| > k
  {
    if k > 0 {
      NextWeight(k - 1);
      AtLeast(n / 128, k - 1);
    }
  }

  // ----- Heads and bodies -----

  /** A head says the tag, and the wire type in its low three bits. */
  lemma HeadOnWire(wire: nat, tag: nat)
    requires wire < 8 && 0 < tag < 0x2000_0000
    ensures IsHead(TagBytes(wire, tag), tag, wire)
  {
    hide GroupSum, IsVarint, Varint;
    VarintForm(tag * 8 + wire);
  }

  /** Integers and booleans have wire type 0, eight fixed bytes 1, whatever has a length in front 2, and four fixed
      bytes 5. */
  lemma WireOfPiece(f: Field)
    ensures f.rule.Repeated? && !f.kind.MessageKind? && !f.kind.BytesKind? && !f.kind.StringKind? && !f.kind.FixedBytesKind?
            ==> PieceWire(f) == 2
    ensures f.kind.MessageKind? || f.kind.BytesKind? || f.kind.StringKind? || f.kind.FixedBytesKind? ==> PieceWire(f) == 2
    ensures !f.rule.Repeated? && (f.kind.BoolKind? || f.kind.VarintKind? || f.kind.UVarintKind? || f.kind.SVarintKind?)
            ==> PieceWire(f) == 0
    ensures !f.rule.Repeated? && f.kind.Fixed64Kind? ==> PieceWire(f) == 1
    ensures !f.rule.Repeated? && f.kind.Fixed32Kind? ==> PieceWire(f) == 5
  {
  }

  lemma TextIsSent(text: seq<Byte>)
    requires |text| < TWO_TO_THE_32
    ensures IsText(Varint(|text|) + text, text) && Sent(WIRE_STRING, Varint(|text|) + text)
  {
    hide GroupSum, IsVarint, Varint;
    VarintForm(|text|);
    LengthInFront(Varint(|text|), text);
  }

  lemma LengthInFront(head: seq<Byte>, text: seq<Byte>)
    requires IsVarint(head) && GroupSum(head) == |text| < TWO_TO_THE_32
    ensures IsText(head + text, text)
  {
    hide GroupSum, IsVarint;
    assert (head + text)[..|head|] == head && (head + text)[|head|..] == text;
  }

  /** Bytes, strings and submessages stand behind their length. */
  lemma TextOnWire(kind: Kind, v: Value)
    requires Shaped(kind, v) && |EncodeValue(kind, v)| < TWO_TO_THE_32
    ensures kind.BytesKind? || kind.StringKind? || kind.FixedBytesKind? ==> IsText(EncodeValue(kind, v), v.bytes)
    ensures kind.MessageKind? ==> IsText(EncodeValue(kind, v), EncodeMessage(kind.desc, v.msg, |v.msg.slots|))
  {
    hide IsText, Varint, EncodeMessage, ShapedMessage;
    match kind
    case BytesKind(_) => TextIsSent(v.bytes);
    case StringKind(_) => TextIsSent(v.bytes);
    case FixedBytesKind(_) => TextIsSent(v.bytes);
    case MessageKind(desc) => TextIsSent(EncodeMessage(desc, v.msg, |v.msg.slots|));
    case _ =>
  }

  /** The body of a value is one of its wire type. */
  lemma ValueIsSent(kind: Kind, v: Value)
    requires Shaped(kind, v) && |EncodeValue(kind, v)| < TWO_TO_THE_32
    ensures Sent(WireType(kind), EncodeValue(kind, v))
  {
    hide IsText, Varint, EncodeMessage, ShapedMessage, IsVarint, GroupSum;
    match kind
    case BoolKind => VarintForm(if v.b then 1 else 0);
    case VarintKind(_) => NumberOnWire(kind, v);
    case UVarintKind(_) => NumberOnWire(kind, v);
    case SVarintKind(_) => NumberOnWire(kind, v);
    case Fixed32Kind =>
    case Fixed64Kind =>
    case MessageKind(desc) => TextIsSent(EncodeMessage(desc, v.msg, |v.msg.slots|));
    case _ => TextIsSent(v.bytes);
  }

  /** So is every piece of a field, with the length of a packed array in front of its items. */
  lemma PieceIsSent(f: Field, slot: Slot, j: nat)
    requires ShapedSlot(f, slot) && HasPiece(f, slot, j) && |PieceBody(f, slot, j)| < TWO_TO_THE_32
    ensures Sent(PieceWire(f), PieceBody(f, slot, j))
  {
    hide Sent, Varint, EncodeItems, EncodeValue, Shaped, IsDefault;
    if f.rule.Repeated? && Packable(f.kind) {
      TextIsSent(EncodeItems(f.kind, slot, |slot.items|));
    } else {
      ValueIsSent(f.kind, if f.rule.Repeated? then slot.items[j] else slot.v);
    }
  }

  // ----- What is left out -----

  /** Without a has-flag, exactly the zero values of plain fields are left out; with one, or in a required field or a
      oneof, none is. */
  lemma ZeroIsLeftOut(f: Field, slot: Slot)
    requires ShapedSlot(f, slot) && !f.rule.Repeated? && (slot.One? || slot.Present?)
    requires !f.kind.MessageKind? && !f.kind.FixedBytesKind?
    ensures EncodeSlot(f, slot) == [] <==>
            && f.rule == Optional(false)
            && (slot.v == BoolValue(false) || slot.v == IntValue(0) || slot.v == BytesValue([]))
  {
    hide Varint, EncodeValue;
    assert |TagBytes(WireType(f.kind), f.tag)| >= 1;
  }
}
