/** The tables of util/crc32c.cc are those of the Castagnoli polynomial, and what the strided form computes with
    them is the remainder taken one bit at a time (section 12.1 of RFC 3720). */
module Castagnoli {
  import opened Crc32c

  const POLYNOMIAL: Word := 0x82f6_3b78

  /** One bit of the division: shift out the lowest bit, and subtract the divisor if it was set. */
  function BitStep(x: Word): Word {
    if Odd(x) then Xor(Half(x), POLYNOMIAL) else Half(x)
  }

  predicate Odd(x: Word) {
    x & 1 == 1
  }

  function Half(x: Word): Word {
    x >> 1
  }

  function Steps(n: nat, x: Word): Word {
    if n == 0 then x else BitStep(Steps(n - 1, x))
  }

  /** The remainder, bit by bit. */
  function BitWise(l: Word, data: seq<Word>): Word {
    if data == [] then l else Steps(8, BitWise(l, data[..|data| - 1]) ^ data[|data| - 1])
  }

  /** Eight bits for a byte, and sixteen bytes for the stride tables. */
  function CastagnoliTables(): Tables {
    Tables(b => Steps(8, b), b => Steps(128, Up(b, 3)), b => Steps(128, Up(b, 2)), b => Steps(128, Up(b, 1)),
           b => Steps(128, Up(b, 0)))
  }

  lemma HalfIsLinear(a: Word, b: Word)
    ensures Half(Xor(a, b)) == Xor(Half(a), Half(b))
  {
  }

  lemma OddOfSum(a: Word, b: Word)
    ensures Odd(Xor(a, b)) <==> Odd(a) != Odd(b)
  {
  }

  lemma BitStepIsLinear(a: Word, b: Word)
    ensures BitStep(Xor(a, b)) == Xor(BitStep(a), BitStep(b))
  {
    HalfIsLinear(a, b);
    OddOfSum(a, b);
    hide Half, Odd, Xor;
    var x, y, p := Half(a), Half(b), POLYNOMIAL;
    if Odd(a) && Odd(b) {
      Exchange(x, p, y, p);
      XorZero(p);
      XorZero(Xor(x, y));
    } else if Odd(a) {
      Associates(x, p, y);
      Associates(x, y, p);
      Commutes(p, y);
    } else if Odd(b) {
      Associates(x, y, p);
    }
  }

  lemma {:induction false} StepsAreLinear(n: nat, a: Word, b: Word)
    ensures Steps(n, Xor(a, b)) == Xor(Steps(n, a), Steps(n, b))
  {
    hide BitStep, Xor;
    if n > 0 {
      StepsAreLinear(n - 1, a, b);
      BitStepIsLinear(Steps(n - 1, a), Steps(n - 1, b));
    }
  }

  lemma {:induction false} StepsAdd(m: nat, n: nat, x: Word)
    ensures Steps(m + n, x) == Steps(m, Steps(n, x))
  {
    hide BitStep;
    if m > 0 {
      StepsAdd(m - 1, n, x);
    }
  }

  lemma EightSteps(x: Word)
    ensures Steps(8, x) == BitStep(BitStep(BitStep(BitStep(BitStep(BitStep(BitStep(BitStep(x))))))))
  {
    hide BitStep;
    assert Steps(2, x) == BitStep(Steps(1, x)) && Steps(1, x) == BitStep(Steps(0, x));
    assert Steps(4, x) == BitStep(Steps(3, x)) && Steps(3, x) == BitStep(Steps(2, x));
    assert Steps(6, x) == BitStep(Steps(5, x)) && Steps(5, x) == BitStep(Steps(4, x));
    assert Steps(8, x) == BitStep(Steps(7, x)) && Steps(7, x) == BitStep(Steps(6, x));
  }

  lemma HalfTwice(x: Word)
    ensures Half(Half(Half(Half(Half(Half(Half(Half(x)))))))) == Down(x)
  {
  }

  lemma LowByteIsEven(x: Word)
    requires x & 0xff == 0
    ensures !Odd(x) && !Odd(Half(x)) && !Odd(Half(Half(x))) && !Odd(Half(Half(Half(x))))
    ensures !Odd(Half(Half(Half(Half(x))))) && !Odd(Half(Half(Half(Half(Half(x))))))
    ensures !Odd(Half(Half(Half(Half(Half(Half(x))))))) && !Odd(Half(Half(Half(Half(Half(Half(Half(x))))))))
  {
  }

  /** With nothing in the low byte, eight bits are a shift. */
  lemma HighBytesMove(x: Word)
    requires x & 0xff == 0
    ensures Steps(8, x) == Down(x)
  {
    EightSteps(x);
    LowByteIsEven(x);
    HalfTwice(x);
    hide Half, Odd, Xor, Down, Steps;
  }

  lemma LowAndHigh(x: Word)
    ensures Xor(Lane(x, 0), x & 0xffff_ff00) == x && (x & 0xffff_ff00) & 0xff == 0 && Down(x & 0xffff_ff00) == Down(x)
  {
  }

  lemma ZeroIsEightSteps(x: Word)
    ensures Zero(CastagnoliTables(), x) == Steps(8, x)
  {
    LowAndHigh(x);
    hide Xor, Lane, Down, Steps;
    HighBytesMove(x & 0xffff_ff00);
    StepsAreLinear(8, Lane(x, 0), x & 0xffff_ff00);
  }

  lemma {:induction false} ZerosAreSteps(n: nat, x: Word)
    ensures Zeros(CastagnoliTables(), n, x) == Steps(8 * n, x)
  {
    hide Steps, Zero;
    if n == 0 {
      NoSteps(x);
    } else {
      ZerosAreSteps(n - 1, x);
      ZeroIsEightSteps(Steps(8 * (n - 1), x));
      StepsAdd(8, 8 * (n - 1), x);
    }
  }

  lemma NoSteps(x: Word)
    ensures Steps(0, x) == x
  {
  }

  /** The hypotheses of the strided form hold of these tables. */
  lemma TablesFit()
    ensures LinearBytes(CastagnoliTables()) && StrideTables(CastagnoliTables())
  {
    hide Steps, Zeros, Xor;
    var t := CastagnoliTables();
    forall a, b | IsByte(a) && IsByte(b)
      ensures t.bytes(Xor(a, b)) == Xor(t.bytes(a), t.bytes(b))
    {
      StepsAreLinear(8, a, b);
    }
    forall b | IsByte(b)
      ensures t.stride3(b) == Zeros(t, 16, Up(b, 0)) && t.stride2(b) == Zeros(t, 16, Up(b, 1))
      ensures t.stride1(b) == Zeros(t, 16, Up(b, 2)) && t.stride0(b) == Zeros(t, 16, Up(b, 3))
    {
      ZerosAreSteps(16, Up(b, 0));
      ZerosAreSteps(16, Up(b, 1));
      ZerosAreSteps(16, Up(b, 2));
      ZerosAreSteps(16, Up(b, 3));
    }
  }

  /** The table for single bytes is linear, so these eight entries determine it. */
  lemma ByteEntries()
    ensures var t := CastagnoliTables().bytes;
            && t(1) == 0xf26b_8303 && t(2) == 0xe13b_70f7 && t(4) == 0xc79a_971f && t(8) == 0x8ad9_58cf
            && t(16) == 0x105e_c76f && t(32) == 0x20bd_8ede && t(64) == 0x417b_1dbc && t(128) == 0x82f6_3b78
  {
    hide Steps;
    EightSteps(1);
    EightSteps(2);
    EightSteps(4);
    EightSteps(8);
    EightSteps(16);
    EightSteps(32);
    EightSteps(64);
    EightSteps(128);
  }

  lemma {:induction false} ByteWiseIsBitWise(l: Word, data: seq<Word>)
    requires Bytes(data)
    ensures ByteWise(CastagnoliTables(), l, data) == BitWise(l, data)
  {
    hide Steps, Step, Zero, IsByte;
    if data != [] {
      var n := |data| - 1;
      assert Bytes(data[..n]);
      ByteWiseIsBitWise(l, data[..n]);
      var before := ByteWise(CastagnoliTables(), l, data[..n]);
      StepIsZero(CastagnoliTables(), before, data[n]);
      ZeroIsEightSteps(Xor(before, data[n]));
    }
  }

  /** crc32c::Value, wherever the data stands in memory. */
  method Value(data: seq<Word>, address: nat) returns (r: Word)
    requires Bytes(data)
    ensures r == BitWise(0xffff_ffff, data) ^ 0xffff_ffff
  {
    hide Steps, LinearBytes, StrideTables, ByteWise, Bytes;
    TablesFit();
    r := Extend(CastagnoliTables(), 0, data, address);
    ByteWiseIsBitWise(ONES, data);
  }

  lemma {:induction false} BitWiseGoesOn(l: Word, a: seq<Word>, b: seq<Word>)
    ensures BitWise(l, a + b) == BitWise(BitWise(l, a), b)
    decreases |b|
  {
    hide Steps;
    if b == [] {
      assert a + b == a;
    } else {
      var n := |b| - 1;
      assert (a + b)[..|a + b| - 1] == a + b[..n];
      BitWiseGoesOn(l, a, b[..n]);
    }
  }

  /** Extending the checksum of one buffer by another is the checksum of both. */
  method ValueOfBoth(a: seq<Word>, b: seq<Word>, address: nat) returns (r: Word)
    requires Bytes(a) && Bytes(b)
    ensures r == BitWise(0xffff_ffff, a + b) ^ 0xffff_ffff
  {
    hide Steps, LinearBytes, StrideTables, ByteWise, Bytes, BitWise;
    TablesFit();
    var first := Value(a, address);
    r := Extend(CastagnoliTables(), first, b, address + |a|);
    Twice(BitWise(ONES, a));
    ByteWiseIsBitWise(BitWise(ONES, a), b);
    BitWiseGoesOn(ONES, a, b);
  }

  lemma Twice(x: Word)
    ensures Xor(Xor(x, ONES), ONES) == x
  {
  }
}
