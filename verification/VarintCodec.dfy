/** Reading and writing varints and length-prefixed strings (util/coding.cc). */
module VarintCodec {
  import opened Coding
  import opened Varints

  function LengthPrefixed(b: seq<Byte>): seq<Byte> {
    Varint(|b|) + b
  }

  /** Bytes that stand for a number: groups of seven bits, all marked but the last. */
  predicate SaysNumber(b: seq<Byte>, n: nat) {
    IsVarint(b) && GroupSum(b) == n
  }

  /** Bytes that stand for a string: its length, then the string. */
  ghost predicate SaysText(b: seq<Byte>, text: seq<Byte>) {
    exists k: nat :: k <= |b| && SaysNumber(b[..k], |text|) && b[k..] == text
  }

  /** Bytes that are read as a number, of 32 or of 64 bits. */
  predicate Reads32(b: seq<Byte>, n: nat) {
    IsVarint(b) && |b| <= 5 && n == GroupSum(b) % TWO_TO_THE_32
  }

  predicate Reads64(b: seq<Byte>, n: nat) {
    IsVarint(b) && |b| <= 10 && n == GroupSum(b) % TWO_TO_THE_64
  }

  /** Bytes that are read as a string: a length of at most five bytes, modulo 2^32, and as many bytes. */
  ghost predicate ReadsAs(b: seq<Byte>, text: seq<Byte>) {
    exists k: nat :: k <= |b| && Reads32(b[..k], |text|) && b[k..] == text
  }

  lemma TextTaken(input: seq<Byte>, before: seq<Byte>, len: nat)
    requires IsRest(before, input) && Reads32(Took(input, before), len) && len <= |before|
    ensures IsRest(before[len..], input) && ReadsAs(Took(input, before[len..]), before[..len])
  {
    hide GroupSum, IsVarint;
    assert IsRest(before[len..], before) && Took(before, before[len..]) == before[..len];
    TookTwice(input, before, before[len..]);
    var b, k := Took(input, before[len..]), |Took(input, before)|;
    assert b[..k] == Took(input, before) && b[k..] == before[..len];
  }

  lemma NumberForm(n: nat)
    ensures SaysNumber(Varint(n), n)
  {
    hide GroupSum, IsVarint;
    VarintForm(n);
  }

  lemma TextForm(text: seq<Byte>)
    ensures SaysText(LengthPrefixed(text), text)
  {
    hide SaysNumber, Varint;
    NumberForm(|text|);
    var b, k := LengthPrefixed(text), |Varint(|text|)|;
    assert b[..k] == Varint(|text|) && b[k..] == text;
  }

  /** EncodeVarint32, written out by size. */
  method EncodeVarint32(v: Word) returns (r: seq<Byte>)
    ensures r == Varint(v)
  {
    hide Varint;
    var b1, b2, b3, b4 := v / 0x80, v / 0x4000, v / 0x20_0000, v / 0x1000_0000;
    if v < 0x80 {
      VarintStep(v);
      r := [v];
    } else if v < 0x4000 {
      Varint2(v);
      r := [v % 128 + 128, b1];
    } else if v < 0x20_0000 {
      Varint3(v);
      r := [v % 128 + 128, b1 % 128 + 128, b2];
    } else if v < 0x1000_0000 {
      Varint4(v);
      r := [v % 128 + 128, b1 % 128 + 128, b2 % 128 + 128, b3];
    } else {
      Varint5(v);
      r := [v % 128 + 128, b1 % 128 + 128, b2 % 128 + 128, b3 % 128 + 128, b4];
    }
  }

  lemma VarintStep(n: nat)
    ensures n < 128 ==> Varint(n) == [n]
    ensures n >= 128 ==> Varint(n) == [n % 128 + 128] + Varint(n / 128)
  {
  }

  lemma Varint2(v: nat)
    requires 0x80 <= v < 0x4000
    ensures Varint(v) == [v % 128 + 128, v / 0x80]
  {
    hide Varint;
    VarintStep(v);
    VarintStep(v / 0x80);
  }

  lemma Varint3(v: nat)
    requires 0x4000 <= v < 0x20_0000
    ensures Varint(v) == [v % 128 + 128, v / 0x80 % 128 + 128, v / 0x4000]
  {
    hide Varint;
    VarintStep(v);
    Varint2(v / 0x80);
    assert v / 0x80 / 0x80 == v / 0x4000;
  }

  lemma Varint4(v: nat)
    requires 0x20_0000 <= v < 0x1000_0000
    ensures Varint(v) == [v % 128 + 128, v / 0x80 % 128 + 128, v / 0x4000 % 128 + 128, v / 0x20_0000]
  {
    hide Varint;
    VarintStep(v);
    Varint3(v / 0x80);
    assert v / 0x80 / 0x80 == v / 0x4000 && v / 0x80 / 0x4000 == v / 0x20_0000;
  }

  lemma Varint5(v: Word)
    requires 0x1000_0000 <= v
    ensures Varint(v) == [v % 128 + 128, v / 0x80 % 128 + 128, v / 0x4000 % 128 + 128, v / 0x20_0000 % 128 + 128,
                          v / 0x1000_0000]
  {
    hide Varint;
    VarintStep(v);
    Varint4(v / 0x80);
    assert v / 0x80 / 0x80 == v / 0x4000 && v / 0x80 / 0x4000 == v / 0x20_0000;
    assert v / 0x80 / 0x20_0000 == v / 0x1000_0000;
  }

  /** GetVarint32Ptr: at most five groups. */
  method GetVarint32(input: seq<Byte>, ghost n: nat, ghost rest: seq<Byte>)
    returns (ok: bool, value: nat, left: seq<Byte>)
    ensures |left| <= |input| && value < TWO_TO_THE_32 && (ok ==> |left| < |input|)
    ensures n < TWO_TO_THE_32 && input == Varint(n) + rest ==> ok && value == n && left == rest
    // On any input: a varint of at most five bytes is read where there is one.
    ensures ok ==> IsRest(left, input) && Reads32(Took(input, left), value)
    ensures !ok ==> forall i | 1 <= i <= 5 && i <= |input| :: !IsVarint(input[..i])
  {
    hide Varint, Weight, Reading, GroupSum, IsVarint, Groups32, AddGroup;
    ghost var good := n < TWO_TO_THE_32 && input == Varint(n) + rest;
    ghost var q: nat, k: nat := n, 0;
    left, value := input, 0;
    StartReading(n, rest, input);
    NoGroups(input);
    var shift := 0;
    while shift <= 28 && left != []
      invariant |left| + k == |input| && value < TWO_TO_THE_32 && shift == 7 * k
      invariant Groups32(input, left, value, k)
      invariant good ==> Reading(n, rest, left, value, q, k) && (k == 0 || q > 0)
      decreases |left|
    {
      if good {
        ReadGroup32(n, rest, left, value, q, k);
      }
      OneMoreGroup32(input, left, value, k);
      var b := left[0];
      left := left[1..];
      value := AddGroup(value, b, shift / 7);
      q, k := q / 128, k + 1;
      if b < 128 {
        if good {
          DoneReading(n, rest, left, value, q, k);
        }
        return true, value, left;
      }
      shift := shift + 7;
    }
    if good {
      StillReading(n, rest, left, value, q, k);
    }
    NoneEnded32(input, left, value, k);
    ok := false;
  }

  /** The loop never stops early on an encoding of a 32-bit number. */
  lemma StillReading(n: nat, rest: seq<Byte>, left: seq<Byte>, value: nat, q: nat, k: nat)
    requires n < TWO_TO_THE_32 && Reading(n, rest, left, value, q, k) && (k == 0 || q > 0)
    ensures 7 * k <= 28 && left != []
  {
    hide Weight;
    if k > 0 {
      FiveGroups(n, rest, left, value, q, k);
    }
  }

  /** EncodeVarint64: group by group. */
  method EncodeVarint64(v: nat) returns (r: seq<Byte>)
    requires v < TWO_TO_THE_64
    ensures r == Varint(v)
  {
    hide Varint;
    r := [];
    var left := v;
    while left >= 128
      invariant r + Varint(left) == Varint(v)
    {
      VarintStep(left);
      assert (r + [left % 128 + 128]) + Varint(left / 128) == r + ([left % 128 + 128] + Varint(left / 128));
      r := r + [left % 128 + 128];
      left := left / 128;
    }
    VarintStep(left);
    r := r + [left];
  }

  /** GetVarint64Ptr: at most ten groups. */
  method GetVarint64(input: seq<Byte>, ghost n: nat, ghost rest: seq<Byte>)
    returns (ok: bool, value: nat, left: seq<Byte>)
    ensures |left| <= |input| && value < TWO_TO_THE_64 && (ok ==> |left| < |input|)
    ensures n < TWO_TO_THE_64 && input == Varint(n) + rest ==> ok && value == n && left == rest
    // On any input: a varint of at most ten bytes is read where there is one.
    ensures ok ==> IsRest(left, input) && Reads64(Took(input, left), value)
    ensures !ok ==> forall i | 1 <= i <= 10 && i <= |input| :: !IsVarint(input[..i])
  {
    hide Varint, Weight, Reading, GroupSum, IsVarint, Groups64, AddGroup64;
    ghost var good := n < TWO_TO_THE_64 && input == Varint(n) + rest;
    ghost var q: nat, k: nat := n, 0;
    left, value := input, 0;
    StartReading(n, rest, input);
    NoGroups(input);
    var shift := 0;
    while shift <= 63 && left != []
      invariant |left| + k == |input| && value < TWO_TO_THE_64 && shift == 7 * k
      invariant Groups64(input, left, value, k)
      invariant good ==> Reading(n, rest, left, value, q, k) && (k == 0 || q > 0)
      decreases |left|
    {
      if good {
        ReadGroup64(n, rest, left, value, q, k);
      }
      OneMoreGroup64(input, left, value, k);
      var b := left[0];
      left := left[1..];
      value := AddGroup64(value, b, shift / 7);
      q, k := q / 128, k + 1;
      if b < 128 {
        if good {
          DoneReading(n, rest, left, value, q, k);
        }
        return true, value, left;
      }
      shift := shift + 7;
    }
    if good {
      StillReading64(n, rest, left, value, q, k);
    }
    NoneEnded64(input, left, value, k);
    ok := false;
  }

  lemma StillReading64(n: nat, rest: seq<Byte>, left: seq<Byte>, value: nat, q: nat, k: nat)
    requires n < TWO_TO_THE_64 && Reading(n, rest, left, value, q, k) && (k == 0 || q > 0)
    ensures 7 * k <= 63 && left != []
  {
    hide Weight;
    TenGroups(n, rest, left, value, q, k);
  }

  /** GetLengthPrefixedSlice */
  method GetLengthPrefixed(input: seq<Byte>, ghost b: seq<Byte>, ghost rest: seq<Byte>)
    returns (ok: bool, slice: seq<Byte>, left: seq<Byte>)
    ensures |left| <= |input|
    ensures |b| < TWO_TO_THE_32 && input == LengthPrefixed(b) + rest ==> ok && slice == b && left == rest
    ensures ok ==> IsRest(left, input) && ReadsAs(Took(input, left), slice)
  {
    hide Varint, GroupSum, IsVarint;
    assert LengthPrefixed(b) + rest == Varint(|b|) + (b + rest);
    var len: nat;
    ok, len, left := GetVarint32(input, |b|, b + rest);
    if !ok || |left| < len {
      return false, [], left;
    }
    assert (b + rest)[..|b|] == b && (b + rest)[|b|..] == rest;
    ghost var before := left;
    slice, left := left[..len], left[len..];
    TextTaken(input, before, len);
  }
}
