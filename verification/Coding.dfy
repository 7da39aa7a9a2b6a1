/** Byte-level encodings (util/coding.cc, util/crc32c.h). */
module Coding {

  type Byte = x: int | 0 <= x < 256

  const TWO_TO_THE_32 := 0x1_0000_0000

  type Word = x: int | 0 <= x < TWO_TO_THE_32

  function LowByte(n: int): Byte {
    n % 256
  }

  function LittleEndian(n: nat, count: nat): (r: seq<Byte>)
    ensures |r| == count
  {
    if count == 0 then [] else [LowByte(n)] + LittleEndian(n / 256, count - 1)
  }

  function FromLittleEndian(bytes: seq<Byte>): nat {
    if bytes == [] then 0 else (bytes[0] as int) + 256 * FromLittleEndian(bytes[1..])
  }

  function Pow256(count: nat): (p: nat)
    ensures p >= 1
  {
    if count == 0 then 1 else 256 * Pow256(count - 1)
  }

  lemma {:induction false} FixedRoundTrip(n: nat, count: nat)
    requires n < Pow256(count)
    ensures FromLittleEndian(LittleEndian(n, count)) == n
  {
    if count > 0 {
      FixedRoundTrip(n / 256, count - 1);
      assert LittleEndian(n, count)[1..] == LittleEndian(n / 256, count - 1);
    }
  }

  lemma {:induction false} FixedBound(bytes: seq<Byte>)
    ensures FromLittleEndian(bytes) < Pow256(|bytes|)
  {
    if bytes != [] {
      FixedBound(bytes[1..]);
    }
  }

  /** EncodeFixed32 */
  function EncodeFixed32(x: Word): (r: seq<Byte>)
    ensures |r| == 4
  {
    LittleEndian(x, 4)
  }

  function DecodeFixed32(b: seq<Byte>): Word
    requires |b| >= 4
  {
    FixedBound(b[..4]);
    FourBytes();
    FromLittleEndian(b[..4])
  }

  lemma FourBytes()
    ensures Pow256(4) == TWO_TO_THE_32
  {
    assert Pow256(2) == 256 * Pow256(1);
    assert Pow256(4) == 256 * Pow256(3) && Pow256(3) == 256 * Pow256(2);
  }

  lemma Fixed32RoundTrip(x: Word, rest: seq<Byte>)
    ensures DecodeFixed32(EncodeFixed32(x) + rest) == x
  {
    FourBytes();
    FixedRoundTrip(x, 4);
    assert (EncodeFixed32(x) + rest)[..4] == LittleEndian(x, 4);
  }

  lemma LittleEndianStep(b: Byte, q: nat, count: nat)
    ensures LittleEndian(b + 256 * q, count + 1) == [b] + LittleEndian(q, count)
  {
    LowByteOf(b, q);
    var n := b + 256 * q;
    assert LittleEndian(n, count + 1) == [LowByte(n)] + LittleEndian(n / 256, count);
  }

  lemma LowByteOf(b: Byte, q: nat)
    ensures (b + 256 * q) / 256 == q && (b + 256 * q) % 256 == b
  {
  }

  /** Eight bytes are the low four and then the high four. */
  lemma EightIsTwiceFour(low: Word, high: Word)
    ensures LittleEndian(low + TWO_TO_THE_32 * high, 8) == EncodeFixed32(low) + EncodeFixed32(high)
  {
    var q1, q2, q3 := low / 256, low / 256 / 256, low / 256 / 256 / 256;
    FourSteps(low % 256, q1 % 256, q2 % 256, q3, high, 4);
    FourSteps(low % 256, q1 % 256, q2 % 256, q3, 0, 0);
  }

  lemma FourSteps(b0: Byte, b1: Byte, b2: Byte, b3: Byte, q: nat, count: nat)
    ensures LittleEndian(b0 + 256 * (b1 + 256 * (b2 + 256 * (b3 + 256 * q))), count + 4)
         == [b0, b1, b2, b3] + LittleEndian(q, count)
  {
    hide LittleEndian;
    LittleEndianStep(b3, q, count);
    LittleEndianStep(b2, b3 + 256 * q, count + 1);
    LittleEndianStep(b1, b2 + 256 * (b3 + 256 * q), count + 2);
    LittleEndianStep(b0, b1 + 256 * (b2 + 256 * (b3 + 256 * q)), count + 3);
  }

  /** The number that four bytes stand for, the lowest first. */
  function LowFirst(r: seq<Byte>, at: nat): nat
    requires at + 4 <= |r|
  {
    (r[at] as int) + 0x100 * (r[at + 1] as int) + 0x1_0000 * (r[at + 2] as int) + 0x100_0000 * (r[at + 3] as int)
  }

  lemma FirstByte(x: Byte, rest: seq<Byte>)
    ensures FromLittleEndian([x] + rest) == x + 256 * FromLittleEndian(rest)
  {
    assert ([x] + rest)[1..] == rest;
  }

  lemma DecodeIsLowFirst(b: seq<Byte>, at: nat)
    requires at + 4 <= |b|
    ensures DecodeFixed32(b[at..]) == LowFirst(b, at)
  {
    hide FromLittleEndian;
    var word := b[at..][..4];
    var w3 := [b[at + 3]];
    var w2 := [b[at + 2]] + w3;
    var w1 := [b[at + 1]] + w2;
    assert word == [b[at]] + w1;
    FirstByte(b[at], w1);
    FirstByte(b[at + 1], w2);
    FirstByte(b[at + 2], w3);
    assert w3 == [b[at + 3]] + [];
    FirstByte(b[at + 3], []);
  }

  lemma Fixed32Form(x: Word)
    ensures LowFirst(EncodeFixed32(x), 0) == x
  {
    hide LittleEndian;
    var q1, q2, q3 := x / 256, x / 256 / 256, x / 256 / 256 / 256;
    FourSteps(x % 256, q1 % 256, q2 % 256, q3, 0, 0);
  }

  /** crc32c::Mask: rotate right by 15 bits and add a constant. */
  function Mask(crc: Word): Word {
    (crc / 0x8000 + crc % 0x8000 * 0x2_0000 + 0xa282_ead8) % TWO_TO_THE_32
  }

  /** crc32c::Unmask */
  function Unmask(masked: Word): Word {
    var rot := (masked - 0xa282_ead8) % TWO_TO_THE_32;
    rot / 0x2_0000 + rot % 0x2_0000 * 0x8000
  }

  lemma UnmaskUndoesMask(crc: Word)
    ensures Unmask(Mask(crc)) == crc
  {
    var high, low := crc / 0x8000, crc % 0x8000;
    assert crc == high * 0x8000 + low;
    var rotated := high + low * 0x2_0000;
    ShiftedBack(rotated, 0xa282_ead8);
    RotatedBack(high, low);
  }

  lemma ShiftedBack(x: Word, delta: nat)
    ensures ((x + delta) % TWO_TO_THE_32 - delta) % TWO_TO_THE_32 == x
  {
    var q := (x + delta) / TWO_TO_THE_32;
    assert (x + delta) % TWO_TO_THE_32 - delta == x - q * TWO_TO_THE_32;
  }

  lemma RotatedBack(high: nat, low: nat)
    requires high < 0x2_0000
    ensures (high + low * 0x2_0000) / 0x2_0000 == low && (high + low * 0x2_0000) % 0x2_0000 == high
  {
  }

  // ----- Pieces of byte strings -----

  /** The bytes of a string literal. */
  function Ascii(text: string): (r: seq<Byte>)
    ensures |r| == |text|
  {
    seq(|text|, i requires 0 <= i < |text| => text[i] as int % 256)
  }

  lemma Regroup(a: seq<Byte>, b: seq<Byte>, c: seq<Byte>)
    ensures (a + b) + c == a + (b + c)
  {
  }

  lemma SameSuffix(head: seq<Byte>, a: seq<Byte>, b: seq<Byte>)
    requires head + a == head + b
    ensures a == b
  {
    assert a == (head + a)[|head|..] && b == (head + b)[|head|..];
  }
}
