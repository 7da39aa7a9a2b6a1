/** Input streams and the decoding of single numbers (nanopb: pb_decode.c). */
module PbStreams {
  import opened Coding
  import opened Varints
  import opened Protobuf

  /** A group past the 32nd bit may only repeat the sign. */
  predicate ExtendsSign(value: nat, b: Byte, bitpos: nat) {
    b % 128 == 0 || (value / 0x8000_0000 != 0 && b == if bitpos < 63 then 0xff else 1)
  }

  /** Bytes that a length stands in front of. */
  ghost predicate IsText(b: seq<Byte>, text: seq<Byte>) {
    && |text| <= |b| && b[|b| - |text|..] == text
    && IsVarint(b[..|b| - |text|]) && GroupSum(b[..|b| - |text|]) % TWO_TO_THE_32 == |text|
  }

  /** The body of a field, by the wire type that its tag names. */
  ghost predicate Body(wire: nat, b: seq<Byte>) {
    if wire == WIRE_VARINT then IsVarint(b)
    else if wire == WIRE_64BIT then |b| == 8
    else if wire == WIRE_STRING then exists text :: IsText(b, text)
    else wire == WIRE_32BIT && |b| == 4
  }

  /** One that a writer sends: its length, if any, is not longer than need be. */
  ghost predicate Sent(wire: nat, b: seq<Byte>) {
    if wire == WIRE_STRING then exists text: seq<Byte> :: |text| < TWO_TO_THE_32 && b == Varint(|text|) + text
    else Body(wire, b)
  }

  class IStream {
    var input: seq<Byte>          // what is left

    constructor (input: seq<Byte>)
      ensures this.input == input
    {
      this.input := input;
    }

    /** pb_readbyte */
    method ReadByte() returns (ok: bool, b: Byte)
      modifies this
      ensures ok <==> old(input) != []
      ensures ok ==> b == old(input)[0] && input == old(input)[1..]
      ensures !ok ==> input == old(input)
    {
      if input == [] {
        return false, 0;
      }
      ok, b := true, input[0];
      input := input[1..];
    }

    /** pb_read */
    method Read(count: nat) returns (ok: bool, bytes: seq<Byte>)
      modifies this
      ensures ok <==> count <= |old(input)|
      ensures ok ==> bytes == old(input)[..count] && input == old(input)[count..]
      ensures !ok ==> input == old(input) && bytes == []
    {
      if |input| < count {
        return false, [];
      }
      ok, bytes := true, input[..count];
      input := input[count..];
    }

    /** pb_decode_varint: at most ten groups, modulo 2^64. */
    method DecodeVarint(ghost n: nat, ghost rest: seq<Byte>) returns (ok: bool, value: nat)
      modifies this
      ensures IsRest(input, old(input)) && value < TWO_TO_THE_64
      ensures ok ==>
                && IsVarint(Took(old(input), input)) && |Took(old(input), input)| <= 10
                && value == GroupSum(Took(old(input), input)) % TWO_TO_THE_64
      ensures !ok ==> forall i | 1 <= i <= 10 && i <= |old(input)| :: !IsVarint(old(input)[..i])
      ensures n < TWO_TO_THE_64 && old(input) == Varint(n) + rest ==> ok && value == n && input == rest
    {
      hide Varint, Weight, Reading, GroupSum, IsVarint, Groups64, AddGroup64;
      ghost var start := input;
      ghost var good := n < TWO_TO_THE_64 && input == Varint(n) + rest;
      ghost var q: nat, k: nat := n, 0;
      var bitpos := 0;
      value := 0;
      StartReading(n, rest, input);
      NothingTaken(input);
      assert Groups64(start, input, 0, 0) by { NoGroups(input); }
      while true
        invariant Groups64(start, input, value, k) && IsRest(input, start)
        invariant value < TWO_TO_THE_64 && bitpos == 7 * k && k <= 10
        invariant good ==> Reading(n, rest, input, value, q, k) && (k == 0 || q > 0)
        decreases |input|
      {
        if good {
          TenGroups(n, rest, input, value, q, k);
        }
        if bitpos >= 64 {
          NoneEnded64(start, input, value, k);
          return false, value;
        }
        if good {
          ReadGroup64(n, rest, input, value, q, k);
        }
        ghost var before := input;
        var got, b := ReadByte();
        if !got {
          NoneEnded64(start, input, value, k);
          return false, value;
        }
        OneMoreGroup64(start, before, value, k);
        value := AddGroup64(value, b, bitpos / 7);
        bitpos := bitpos + 7;
        q, k := q / 128, k + 1;
        if b < 128 {
          break;
        }
      }
      if good {
        DoneReading(n, rest, input, value, q, k);
      }
      ok := true;
    }

    /** pb_decode_varint32_eof: with the overflow checks of a 32-bit result. */
    method DecodeVarint32(ghost n: nat, ghost rest: seq<Byte>) returns (ok: bool, value: nat, eof: bool)
      modifies this
      ensures IsRest(input, old(input)) && (ok ==> |input| < |old(input)|) && value < TWO_TO_THE_32
      ensures ok ==>
                && IsVarint(Took(old(input), input)) && value == GroupSum(Took(old(input), input)) % TWO_TO_THE_32
      ensures eof ==> !ok && old(input) == []
      ensures n < TWO_TO_THE_32 && old(input) == Varint(n) + rest ==> ok && value == n && input == rest
    {
      hide Varint, Weight, Reading, GroupSum;
      ghost var start := input;
      ghost var good := n < TWO_TO_THE_32 && input == Varint(n) + rest;
      ghost var q: nat, k: nat := n, 0;
      eof, value := false, 0;
      StartReading(n, rest, input);
      NothingTaken(input);
      if good {
        NextGroup(n, rest, input, 0, q, k);
      }
      var got, b := ReadByte();
      if !got {
        return false, 0, input == [];
      }
      GroupRead(start, start, 0);
      value := b % 128;
      FirstWeight();
      q, k := q / 128, 1;
      if b < 128 {
        if good {
          DoneReading(n, rest, input, value, q, k);
        }
        return true, value, false;
      }
      ok, value := MoreGroups32(value, n, rest, q, start);
    }

    /** The multibyte case of pb_decode_varint32_eof. */
    method MoreGroups32(first: nat, ghost n: nat, ghost rest: seq<Byte>, ghost q0: nat, ghost start: seq<Byte>)
      returns (ok: bool, value: nat)
      requires first < 128 && Groups32(start, input, first, 1)
      modifies this
      ensures IsRest(input, start) && |input| <= |old(input)| && value < TWO_TO_THE_32
      ensures ok ==> IsVarint(Took(start, input)) && value == GroupSum(Took(start, input)) % TWO_TO_THE_32
      ensures n < TWO_TO_THE_32 && Reading(n, rest, old(input), first, q0, 1) && q0 > 0 ==>
                ok && value == n && input == rest
    {
      hide Varint, Weight, Reading, AddGroup, GroupSum, ExtendsSign, IsVarint, Groups32;
      Groups32IsRest(start, input, first, 1);
      ghost var good := n < TWO_TO_THE_32 && Reading(n, rest, input, first, q0, 1) && q0 > 0;
      ghost var q, k: nat := q0, 1;
      var bitpos, b := 7, 0;
      value := first;
      while true
        invariant Groups32(start, input, value, k) && IsRest(input, start) && |input| <= |old(input)|
        invariant value < TWO_TO_THE_32 && bitpos == 7 * k && k >= 1
        invariant good ==> Reading(n, rest, input, value, q, k) && q > 0
        decreases |input|
      {
        if good {
          FiveGroups(n, rest, input, value, q, k);
          ReadGroup32(n, rest, input, value, q, k);
        }
        ghost var before := input;
        var got: bool;
        got, b := ReadByte();
        if !got {
          return false, value;
        }
        OneMoreGroup32(start, before, value, k);
        if bitpos >= 32 {
          if !ExtendsSign(value, b, bitpos) {
            return false, value;
          }
        } else {
          value := AddGroup(value, b, bitpos / 7);
        }
        bitpos := bitpos + 7;
        q, k := q / 128, k + 1;
        if b < 128 {
          break;
        }
      }
      if good {
        DoneReading(n, rest, input, value, q, k);
      }
      if bitpos == 35 && b / 16 % 8 != 0 {
        return false, value;
      }
      ok := true;
    }

    /** pb_decode_tag: a zero ends the message. */
    method DecodeTag(ghost t: nat, ghost w: nat, ghost rest: seq<Byte>)
      returns (ok: bool, wire: nat, tag: nat, eof: bool)
      modifies this
      ensures IsRest(input, old(input)) && (ok ==> |input| < |old(input)|)
      ensures ok ==> IsHead(Took(old(input), input), tag, wire)
      ensures !ok && eof && old(input) != [] ==>
                IsVarint(Took(old(input), input)) && GroupSum(Took(old(input), input)) % TWO_TO_THE_32 == 0
      ensures 0 < t < 0x2000_0000 && w < 8 && old(input) == TagBytes(w, t) + rest ==>
                ok && wire == w && tag == t && input == rest
    {
      hide Varint, GroupSum;
      var temp: nat;
      wire, tag := 0, 0;
      ok, temp, eof := DecodeVarint32(t * 8 + w, rest);
      if !ok {
        return;
      }
      if temp == 0 {
        return false, 0, 0, true;
      }
      tag, wire := temp / 8, temp % 8;
    }

    /** pb_decode_fixed32, pb_decode_fixed64 */
    method DecodeFixed(count: nat, ghost n: nat, ghost rest: seq<Byte>) returns (ok: bool, value: nat)
      requires count == 4 || count == 8
      modifies this
      ensures IsRest(input, old(input)) && value < Span(count)
      ensures ok <==> count <= |old(input)|
      ensures ok ==> |Took(old(input), input)| == count && value == FromLittleEndian(Took(old(input), input))
      ensures n < Span(count) && old(input) == LittleEndian(n, count) + rest ==> ok && value == n && input == rest
    {
      var bytes: seq<Byte>;
      ok, bytes := Read(count);
      if !ok {
        return false, 0;
      }
      value := FromLittleEndian(bytes);
      Pow256Spans();
      FixedBound(bytes);
      if n < Span(count) {
        FixedRoundTrip(n, count);
      }
      assert (LittleEndian(n, count) + rest)[..count] == LittleEndian(n, count);
    }

    /** pb_make_string_substream */
    method MakeSubstream(ghost body: seq<Byte>, ghost rest: seq<Byte>) returns (ok: bool, sub: IStream)
      modifies this
      ensures fresh(sub) && IsRest(input, old(input)) && |sub.input| + |input| <= |old(input)|
      ensures ok ==> IsText(Took(old(input), input), sub.input)
      ensures |body| < TWO_TO_THE_32 && old(input) == Varint(|body|) + body + rest ==>
                ok && sub.input == body && input == rest
    {
      hide Varint, GroupSum, IsVarint;
      ghost var start := input;
      assert Varint(|body|) + body + rest == Varint(|body|) + (body + rest);
      var size, _ := 0, false;
      var eof: bool;
      ok, size, eof := DecodeVarint32(|body|, body + rest);
      if !ok || |input| < size {
        sub := new IStream([]);
        return false, sub;
      }
      assert (body + rest)[..|body|] == body && (body + rest)[|body|..] == rest;
      ReadText(start, input, size);
      sub := new IStream(input[..size]);
      input := input[size..];
    }

    /** pb_skip_field: over exactly the body of a field of that wire type. */
    method SkipField(wire: nat, ghost body: seq<Byte>, ghost rest: seq<Byte>) returns (ok: bool)
      modifies this
      ensures IsRest(input, old(input))
      ensures ok ==> Body(wire, Took(old(input), input))
      ensures Sent(wire, body) && old(input) == body + rest ==> ok && input == rest
    {
      hide Varint, GroupSum;
      if wire == WIRE_VARINT {
        ok := SkipVarint(body, rest);
      } else if wire == WIRE_64BIT {
        ok := SkipBytes(8);
        assert |body| == 8 ==> (body + rest)[8..] == rest;
      } else if wire == WIRE_STRING {
        ok := SkipString(body, rest);
      } else if wire == WIRE_32BIT {
        ok := SkipBytes(4);
        assert |body| == 4 ==> (body + rest)[4..] == rest;
      } else {
        ok := false;
      }
    }

    method SkipBytes(count: nat) returns (ok: bool)
      modifies this
      ensures ok <==> count <= |old(input)|
      ensures input == if ok then old(input)[count..] else old(input)
      ensures IsRest(input, old(input)) && (ok ==> |Took(old(input), input)| == count)
    {
      var bytes;
      ok, bytes := Read(count);
    }

    /** pb_skip_varint */
    method SkipVarint(ghost body: seq<Byte>, ghost rest: seq<Byte>) returns (ok: bool)
      modifies this
      ensures IsRest(input, old(input))
      ensures ok ==> IsVarint(Took(old(input), input))
      ensures IsVarint(body) && old(input) == body + rest ==> ok && input == rest
    {
      ghost var start := input;
      NothingTaken(input);
      while true
        invariant IsRest(input, start) && forall i :: 0 <= i < |Took(start, input)| ==> Took(start, input)[i] >= 128
        invariant IsVarint(body) && start == body + rest ==> |Took(start, input)| < |body|
        decreases |input|
      {
        ghost var before := input;
        var got, b := ReadByte();
        if !got {
          return false;
        }
        TookOne(start, before);
        if b < 128 {
          if IsVarint(body) && start == body + rest {
            assert b == body[|Took(start, before)|];
            assert (body + rest)[|body|..] == rest;
          }
          return true;
        }
        assert IsVarint(body) && start == body + rest ==> b == body[|Took(start, before)|];
      }
    }

    /** pb_skip_string */
    method SkipString(ghost body: seq<Byte>, ghost rest: seq<Byte>) returns (ok: bool)
      modifies this
      ensures IsRest(input, old(input))
      ensures ok ==> Body(WIRE_STRING, Took(old(input), input))
      ensures Sent(WIRE_STRING, body) && old(input) == body + rest ==> ok && input == rest
    {
      hide Varint, GroupSum, IsVarint;
      ghost var start := input;
      ghost var text: seq<Byte> := [];
      if Sent(WIRE_STRING, body) {
        text :| |text| < TWO_TO_THE_32 && body == Varint(|text|) + text;
        assert body + rest == Varint(|text|) + (text + rest);
        assert (text + rest)[|text|..] == rest;
      }
      var size, eof := 0, false;
      ok, size, eof := DecodeVarint32(|text|, text + rest);
      if !ok || |input| < size {
        return false;
      }
      ReadText(start, input, size);
      ok := SkipBytes(size);
    }
  }

  /** The head of a field: its tag, with the wire type in the low three bits. */
  ghost predicate IsHead(b: seq<Byte>, tag: nat, wire: nat) {
    IsVarint(b) && wire < 8 && tag * 8 + wire > 0 && GroupSum(b) % TWO_TO_THE_32 == tag * 8 + wire
  }

  /** A length and as many bytes. */
  lemma ReadText(start: seq<Byte>, input: seq<Byte>, size: nat)
    requires IsRest(input, start) && size <= |input|
    requires IsVarint(Took(start, input)) && size == GroupSum(Took(start, input)) % TWO_TO_THE_32
    ensures IsRest(input[size..], start) && IsText(Took(start, input[size..]), input[..size])
    ensures Body(WIRE_STRING, Took(start, input[size..]))
  {
    hide GroupSum, IsVarint;
    assert Took(input, input[size..]) == input[..size];
    assert IsRest(input[size..], input);
    TookTwice(start, input, input[size..]);
    var b := Took(start, input[size..]);
    assert b == Took(start, input) + input[..size];
    assert b[..|b| - size] == Took(start, input) && b[|b| - size..] == input[..size];
    assert IsText(b, input[..size]);
  }

  lemma Pow256Spans()
    ensures Pow256(4) == Span(4) && Pow256(8) == Span(8)
  {
    assert Pow256(2) == 256 * Pow256(1);
    assert Pow256(4) == 256 * Pow256(3) && Pow256(3) == 256 * Pow256(2);
    assert Pow256(6) == 256 * Pow256(5) && Pow256(5) == 256 * Pow256(4);
    assert Pow256(8) == 256 * Pow256(7) && Pow256(7) == 256 * Pow256(6);
  }
}
