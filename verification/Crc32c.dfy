/** CRC-32C (util/crc32c.cc; section 12.1 of RFC 3720): the strided form, four interleaved partial
    checksums over 4-byte words, computes what the byte-at-a-time form computes. The tables are
    parameters, with the relations that make them CRC tables. */
module Crc32c {

  type Word = bv32

  /** kByteExtensionTable and kStrideExtensionTable0 to 3. */
  datatype Tables = Tables(bytes: Word -> Word, stride0: Word -> Word, stride1: Word -> Word,
                           stride2: Word -> Word, stride3: Word -> Word)

  const ONES: Word := 0xffff_ffff

  predicate IsByte(b: Word) {
    b <= 0xff
  }

  predicate Bytes(data: seq<Word>) {
    forall i :: 0 <= i < |data| ==> IsByte(data[i])
  }

  // ----- Operations on words, named so that proofs can treat them as given -----

  function Xor(a: Word, b: Word): Word {
    a ^ b
  }

  /** Byte lane `i` of a word, from the lowest. */
  function Lane(x: Word, i: nat): Word
    requires i < 4
  {
    if i == 0 then x & 0xff
    else if i == 1 then (x >> 8) & 0xff
    else if i == 2 then (x >> 16) & 0xff
    else x >> 24
  }

  function Down(x: Word): Word {
    x >> 8
  }

  function Up(b: Word, i: nat): Word
    requires i < 4
  {
    if i == 0 then b else if i == 1 then b << 8 else if i == 2 then b << 16 else b << 24
  }

  lemma Commutes(a: Word, b: Word)
    ensures Xor(a, b) == Xor(b, a)
  {
  }

  lemma Associates(a: Word, b: Word, c: Word)
    ensures Xor(Xor(a, b), c) == Xor(a, Xor(b, c))
  {
  }

  lemma XorZero(a: Word)
    ensures Xor(a, 0) == a && Xor(0, a) == a && Xor(a, a) == 0
  {
  }

  lemma Exchange(p: Word, q: Word, r: Word, s: Word)
    ensures Xor(Xor(p, q), Xor(r, s)) == Xor(Xor(p, r), Xor(q, s))
  {
    hide Xor;
    Associates(p, q, Xor(r, s));
    Associates(q, r, s);
    Commutes(q, r);
    Associates(r, q, s);
    Associates(p, r, Xor(q, s));
  }

  /** Advance a checksum by one zero byte. */
  function Zero(t: Tables, x: Word): Word {
    Xor(t.bytes(Lane(x, 0)), Down(x))
  }

  function Zeros(t: Tables, n: nat, x: Word): Word {
    if n == 0 then x else Zero(t, Zeros(t, n - 1, x))
  }

  /** One byte at a time (STEP1). */
  function Step(t: Tables, l: Word, b: Word): Word {
    Xor(t.bytes(Xor(Lane(l, 0), b)), Down(l))
  }

  function ByteWise(t: Tables, l: Word, data: seq<Word>): Word {
    if data == [] then l else Step(t, ByteWise(t, l, data[..|data| - 1]), data[|data| - 1])
  }

  /** The byte table is linear over exclusive or. */
  ghost predicate LinearBytes(t: Tables) {
    forall a, b :: IsByte(a) && IsByte(b) ==> t.bytes(Xor(a, b)) == Xor(t.bytes(a), t.bytes(b))
  }

  /** Each stride table is its byte lane advanced by sixteen zero bytes. */
  ghost predicate StrideTables(t: Tables) {
    forall b :: IsByte(b) ==>
      && t.stride3(b) == Zeros(t, 16, Up(b, 0))
      && t.stride2(b) == Zeros(t, 16, Up(b, 1))
      && t.stride1(b) == Zeros(t, 16, Up(b, 2))
      && t.stride0(b) == Zeros(t, 16, Up(b, 3))
  }

  function Stride(t: Tables, x: Word): Word {
    Xor(Xor(Xor(t.stride3(Lane(x, 0)), t.stride2(Lane(x, 1))), t.stride1(Lane(x, 2))), t.stride0(Lane(x, 3)))
  }

  /** Four bytes as a little-endian word. */
  function Pack(b0: Word, b1: Word, b2: Word, b3: Word): Word {
    b0 | (b1 << 8) | (b2 << 16) | (b3 << 24)
  }

  /** ReadUint32LE */
  function ReadWord(data: seq<Word>, p: nat): Word
    requires p + 4 <= |data|
  {
    Pack(data[p], data[p + 1], data[p + 2], data[p + 3])
  }

  // ----- Linearity -----

  lemma ZeroIsLinear(t: Tables, a: Word, b: Word)
    requires LinearBytes(t)
    ensures Zero(t, Xor(a, b)) == Xor(Zero(t, a), Zero(t, b))
  {
    LowBytes(a, b);
    hide Xor, Lane, Down, IsByte;
    Exchange(t.bytes(Lane(a, 0)), t.bytes(Lane(b, 0)), Down(a), Down(b));
  }

  lemma LowBytes(a: Word, b: Word)
    ensures Lane(Xor(a, b), 0) == Xor(Lane(a, 0), Lane(b, 0)) && Down(Xor(a, b)) == Xor(Down(a), Down(b))
    ensures IsByte(Lane(a, 0)) && IsByte(Lane(b, 0))
  {
  }

  lemma {:induction false} ZerosAreLinear(t: Tables, n: nat, a: Word, b: Word)
    requires LinearBytes(t)
    ensures Zeros(t, n, Xor(a, b)) == Xor(Zeros(t, n, a), Zeros(t, n, b))
  {
    hide Zero, LinearBytes, Xor;
    if n > 0 {
      ZerosAreLinear(t, n - 1, a, b);
      ZeroIsLinear(t, Zeros(t, n - 1, a), Zeros(t, n - 1, b));
    }
  }

  lemma {:induction false} ZerosAdd(t: Tables, m: nat, n: nat, x: Word)
    ensures Zeros(t, m + n, x) == Zeros(t, m, Zeros(t, n, x))
  {
    hide Zero;
    if m > 0 {
      ZerosAdd(t, m - 1, n, x);
    }
  }

  lemma ZeroOfNothing(t: Tables)
    requires LinearBytes(t)
    ensures t.bytes(0) == 0
  {
    XorZero(0);
    XorZero(t.bytes(0));
    assert IsByte(0);
    hide Xor;
    assert t.bytes(Xor(0, 0)) == Xor(t.bytes(0), t.bytes(0));
  }

  /** A step is an exclusive or into the low byte, and then a zero byte. */
  lemma StepIsZero(t: Tables, l: Word, b: Word)
    requires IsByte(b)
    ensures Step(t, l, b) == Zero(t, Xor(l, b))
  {
    ByteIntoWord(l, b);
    hide Xor, Lane, Down, IsByte;
  }

  lemma ByteIntoWord(l: Word, b: Word)
    requires IsByte(b)
    ensures Lane(Xor(l, b), 0) == Xor(Lane(l, 0), b) && Down(Xor(l, b)) == Down(l)
  {
  }

  /** A higher byte moves down as a zero byte passes. */
  lemma HighByteMoves(t: Tables, l: Word, x: Word)
    requires LinearBytes(t) && Lane(x, 0) == 0
    ensures Zero(t, Xor(l, x)) == Xor(Zero(t, l), Down(x))
  {
    hide Xor, Lane, Down, LinearBytes;
    ZeroIsLinear(t, l, x);
    ZeroOfNothing(t);
    XorZero(Down(x));
  }

  /** The bytes above the lowest, and above the lowest two. */
  function Above1(b1: Word, b2: Word, b3: Word): Word {
    (b1 << 8) ^ (b2 << 16) ^ (b3 << 24)
  }

  function Above2(b2: Word, b3: Word): Word {
    (b2 << 8) ^ (b3 << 16)
  }

  lemma PackParts(b0: Word, b1: Word, b2: Word, b3: Word)
    requires IsByte(b0) && IsByte(b1) && IsByte(b2) && IsByte(b3)
    ensures Pack(b0, b1, b2, b3) == Xor(b0, Above1(b1, b2, b3))
  {
  }

  lemma Above1Parts(b1: Word, b2: Word, b3: Word)
    requires IsByte(b1) && IsByte(b2) && IsByte(b3)
    ensures Lane(Above1(b1, b2, b3), 0) == 0 && Down(Above1(b1, b2, b3)) == Xor(b1, Above2(b2, b3))
  {
  }

  lemma Above2Parts(b2: Word, b3: Word)
    requires IsByte(b2) && IsByte(b3)
    ensures Lane(Above2(b2, b3), 0) == 0 && Down(Above2(b2, b3)) == Xor(b2, Up(b3, 1))
    ensures Lane(Up(b3, 1), 0) == 0 && Down(Up(b3, 1)) == b3
  {
  }

  /** Four byte steps are one word step (STEP4W). */
  lemma FourSteps(t: Tables, l: Word, b0: Word, b1: Word, b2: Word, b3: Word)
    requires LinearBytes(t) && IsByte(b0) && IsByte(b1) && IsByte(b2) && IsByte(b3)
    ensures Step(t, Step(t, Step(t, Step(t, l, b0), b1), b2), b3) == Zeros(t, 4, Xor(l, Pack(b0, b1, b2, b3)))
  {
    hide Zero, Step, LinearBytes, Xor, Lane, Down, Up, Pack, Above1, Above2, IsByte;
    PackParts(b0, b1, b2, b3);
    Above1Parts(b1, b2, b3);
    Above2Parts(b2, b3);
    Associates(l, b0, Above1(b1, b2, b3));
    var h1, h2 := Above1(b1, b2, b3), Above2(b2, b3);
    var l1 := Step(t, l, b0);
    var l2 := Step(t, l1, b1);
    var l3 := Step(t, l2, b2);
    StepIsZero(t, l, b0);
    StepIsZero(t, l1, b1);
    StepIsZero(t, l2, b2);
    StepIsZero(t, l3, b3);
    HighByteMoves(t, Xor(l, b0), h1);
    Associates(l1, b1, h2);
    HighByteMoves(t, Xor(l1, b1), h2);
    Associates(l2, b2, Up(b3, 1));
    HighByteMoves(t, Xor(l2, b2), Up(b3, 1));
    FourZeros(t, Xor(Xor(l, b0), h1));
  }

  lemma FourZeros(t: Tables, x: Word)
    ensures Zeros(t, 4, x) == Zero(t, Zero(t, Zero(t, Zero(t, x))))
  {
    hide Zero;
    assert Zeros(t, 2, x) == Zero(t, Zeros(t, 1, x));
    assert Zeros(t, 4, x) == Zero(t, Zeros(t, 3, x)) && Zeros(t, 3, x) == Zero(t, Zeros(t, 2, x));
  }

  /** The stride tables together advance a whole word by sixteen zero bytes. */
  lemma StrideIsSixteen(t: Tables, x: Word)
    requires LinearBytes(t) && StrideTables(t)
    ensures Stride(t, x) == Zeros(t, 16, x)
  {
    hide Zeros, LinearBytes, Xor, Lane, Up, IsByte;
    var a, b, c, d := Up(Lane(x, 0), 0), Up(Lane(x, 1), 1), Up(Lane(x, 2), 2), Up(Lane(x, 3), 3);
    Lanes(x);
    ZerosAreLinear(t, 16, Xor(Xor(a, b), c), d);
    ZerosAreLinear(t, 16, Xor(a, b), c);
    ZerosAreLinear(t, 16, a, b);
  }

  lemma Lanes(x: Word)
    ensures forall i :: 0 <= i < 4 ==> IsByte(Lane(x, i))
    ensures x == Xor(Xor(Xor(Up(Lane(x, 0), 0), Up(Lane(x, 1), 1)), Up(Lane(x, 2), 2)), Up(Lane(x, 3), 3))
  {
  }

  // ----- Four partial checksums -----

  /** What four partial checksums stand for: each runs four bytes behind the next. */
  function Combined(t: Tables, c0: Word, c1: Word, c2: Word, c3: Word): Word {
    Zeros(t, 4, Xor(Zeros(t, 4, Xor(Zeros(t, 4, Xor(Zeros(t, 4, c0), c1)), c2)), c3))
  }

  function Sum4(a: Word, b: Word, c: Word, d: Word): Word {
    Xor(Xor(Xor(a, b), c), d)
  }

  lemma CombinedSum(t: Tables, c0: Word, c1: Word, c2: Word, c3: Word)
    requires LinearBytes(t)
    ensures Combined(t, c0, c1, c2, c3)
         == Sum4(Zeros(t, 16, c0), Zeros(t, 12, c1), Zeros(t, 8, c2), Zeros(t, 4, c3))
  {
    hide Zeros, LinearBytes, Xor;
    ZerosAreLinear(t, 4, Zeros(t, 4, c0), c1);
    ZerosAdd(t, 4, 4, c0);
    var x8, y4 := Zeros(t, 8, c0), Zeros(t, 4, c1);
    ZerosAreLinear(t, 4, Xor(x8, y4), c2);
    ZerosAreLinear(t, 4, x8, y4);
    ZerosAdd(t, 4, 8, c0);
    ZerosAdd(t, 4, 4, c1);
    var x12, y8, z4 := Zeros(t, 12, c0), Zeros(t, 8, c1), Zeros(t, 4, c2);
    ZerosAreLinear(t, 4, Xor(Xor(x12, y8), z4), c3);
    ZerosAreLinear(t, 4, Xor(x12, y8), z4);
    ZerosAreLinear(t, 4, x12, y8);
    ZerosAdd(t, 4, 12, c0);
    ZerosAdd(t, 4, 8, c1);
    ZerosAdd(t, 4, 4, c2);
  }

  lemma ZerosOfSum(t: Tables, a: Word, b: Word, c: Word, d: Word)
    requires LinearBytes(t)
    ensures Zeros(t, 4, Sum4(a, b, c, d)) == Sum4(Zeros(t, 4, a), Zeros(t, 4, b), Zeros(t, 4, c), Zeros(t, 4, d))
  {
    hide Zeros, LinearBytes, Xor;
    ZerosAreLinear(t, 4, Xor(Xor(a, b), c), d);
    ZerosAreLinear(t, 4, Xor(a, b), c);
    ZerosAreLinear(t, 4, a, b);
  }

  /** STEP4: one word into the oldest partial checksum, which becomes the newest. */
  lemma LaneTurns(t: Tables, c0: Word, c1: Word, c2: Word, c3: Word, w: Word)
    requires LinearBytes(t) && StrideTables(t)
    ensures Combined(t, c1, c2, c3, Xor(w, Stride(t, c0))) == Zeros(t, 4, Xor(Combined(t, c0, c1, c2, c3), w))
  {
    hide Zeros, LinearBytes, StrideTables, Combined, Stride, Xor, Sum4;
    var x := Zeros(t, 16, c0);
    StrideIsSixteen(t, c0);
    CombinedSum(t, c0, c1, c2, c3);
    CombinedSum(t, c1, c2, c3, Xor(w, x));
    ZerosAreLinear(t, 4, w, x);
    ZerosAreLinear(t, 4, Combined(t, c0, c1, c2, c3), w);
    ZerosOfSum(t, x, Zeros(t, 12, c1), Zeros(t, 8, c2), Zeros(t, 4, c3));
    ZerosAdd(t, 4, 12, c1);
    ZerosAdd(t, 4, 8, c2);
    ZerosAdd(t, 4, 4, c3);
    Shuffle(Zeros(t, 4, x), Zeros(t, 16, c1), Zeros(t, 12, c2), Zeros(t, 8, c3), Zeros(t, 4, w));
  }

  lemma Shuffle(a: Word, b: Word, c: Word, d: Word, w: Word)
    ensures Sum4(b, c, d, Xor(w, a)) == Xor(Sum4(a, b, c, d), w)
  {
    hide Xor;
    var rest := Xor(Xor(b, c), d);
    Associates(a, b, c);
    Associates(a, Xor(b, c), d);
    Commutes(w, a);
    Associates(rest, a, w);
    Commutes(rest, a);
  }

  lemma ByteStep(t: Tables, l: Word, data: seq<Word>, p: nat)
    requires p < |data|
    ensures ByteWise(t, l, data[..p + 1]) == Step(t, ByteWise(t, l, data[..p]), data[p])
  {
    hide Step;
    assert data[..p + 1][..p] == data[..p];
  }

  lemma WordStep(t: Tables, l: Word, data: seq<Word>, p: nat)
    requires LinearBytes(t) && Bytes(data) && p + 4 <= |data|
    ensures ByteWise(t, l, data[..p + 4]) == Zeros(t, 4, Xor(ByteWise(t, l, data[..p]), ReadWord(data, p)))
  {
    hide Zeros, LinearBytes, Step, ByteWise, Pack, Xor, IsByte;
    ByteStep(t, l, data, p);
    ByteStep(t, l, data, p + 1);
    ByteStep(t, l, data, p + 2);
    ByteStep(t, l, data, p + 3);
    FourSteps(t, ByteWise(t, l, data[..p]), data[p], data[p + 1], data[p + 2], data[p + 3]);
  }

  /** Extend, without hardware support, for a buffer at any address. */
  method Extend(t: Tables, crc: Word, data: seq<Word>, address: nat) returns (r: Word)
    requires LinearBytes(t) && StrideTables(t) && Bytes(data)
    ensures r == Xor(ByteWise(t, Xor(crc, ONES), data), ONES)
  {
    hide Zeros, LinearBytes, StrideTables, Combined, Stride, Step, ReadWord, ByteWise, Bytes, Xor;
    var p := 0;
    var l := Xor(crc, ONES);
    ghost var start := l;
    NothingYet(t, l, data);
    var x := (4 - address % 4) % 4;
    if x <= |data| {
      while p != x
        invariant p <= x && l == ByteWise(t, start, data[..p])
        decreases x - p
      {
        ByteStep(t, start, data, p);
        l := Step(t, l, data[p]);
        p := p + 1;
      }
    }
    if |data| - p >= 16 {
      var crc0, crc1 := Xor(ReadWord(data, p), l), ReadWord(data, p + 4);
      var crc2, crc3 := ReadWord(data, p + 8), ReadWord(data, p + 12);
      FirstWords(t, start, data, p, l);
      p := p + 16;
      while |data| - p >= 16
        invariant p <= |data| && Combined(t, crc0, crc1, crc2, crc3) == ByteWise(t, start, data[..p])
        decreases |data| - p
      {
        NextWord(t, start, data, p, crc0, crc1, crc2, crc3);
        crc0 := Xor(ReadWord(data, p), Stride(t, crc0));
        NextWord(t, start, data, p + 4, crc1, crc2, crc3, crc0);
        crc1 := Xor(ReadWord(data, p + 4), Stride(t, crc1));
        NextWord(t, start, data, p + 8, crc2, crc3, crc0, crc1);
        crc2 := Xor(ReadWord(data, p + 8), Stride(t, crc2));
        NextWord(t, start, data, p + 12, crc3, crc0, crc1, crc2);
        crc3 := Xor(ReadWord(data, p + 12), Stride(t, crc3));
        p := p + 16;
      }
      while |data| - p >= 4
        invariant p <= |data| && Combined(t, crc0, crc1, crc2, crc3) == ByteWise(t, start, data[..p])
        decreases |data| - p
      {
        NextWord(t, start, data, p, crc0, crc1, crc2, crc3);
        crc0 := Xor(ReadWord(data, p), Stride(t, crc0));
        var tmp := crc0;
        crc0 := crc1;
        crc1 := crc2;
        crc2 := crc3;
        crc3 := tmp;
        p := p + 4;
      }
      l := CombineLanes(t, crc0, crc1, crc2, crc3);
    }
    while p != |data|
      invariant p <= |data| && l == ByteWise(t, start, data[..p])
      decreases |data| - p
    {
      ByteStep(t, start, data, p);
      l := Step(t, l, data[p]);
      p := p + 1;
    }
    assert data[..|data|] == data;
    r := Xor(l, ONES);
  }

  /** STEP4W for the four partial results. */
  method CombineLanes(t: Tables, c0: Word, c1: Word, c2: Word, c3: Word) returns (l: Word)
    ensures l == Combined(t, c0, c1, c2, c3)
  {
    hide Zeros, Zero, Xor;
    l := 0;
    XorZero(c0);
    l := WordTimes(t, Xor(c0, l));
    Commutes(l, c1);
    l := WordTimes(t, Xor(c1, l));
    Commutes(l, c2);
    l := WordTimes(t, Xor(c2, l));
    Commutes(l, c3);
    l := WordTimes(t, Xor(c3, l));
  }

  method WordTimes(t: Tables, x: Word) returns (w: Word)
    ensures w == Zeros(t, 4, x)
  {
    hide Zero;
    w := x;
    for i := 0 to 4
      invariant w == Zeros(t, i, x)
    {
      w := Zero(t, w);
    }
  }

  lemma NothingYet(t: Tables, l: Word, data: seq<Word>)
    ensures ByteWise(t, l, data[..0]) == l
  {
  }

  lemma FirstWords(t: Tables, start: Word, data: seq<Word>, p: nat, l: Word)
    requires LinearBytes(t) && Bytes(data) && p + 16 <= |data| && l == ByteWise(t, start, data[..p])
    ensures Combined(t, Xor(ReadWord(data, p), l), ReadWord(data, p + 4), ReadWord(data, p + 8), ReadWord(data, p + 12))
         == ByteWise(t, start, data[..p + 16])
  {
    hide Zeros, LinearBytes, ReadWord, ByteWise, Bytes, Xor;
    WordStep(t, start, data, p);
    WordStep(t, start, data, p + 4);
    WordStep(t, start, data, p + 8);
    WordStep(t, start, data, p + 12);
    Commutes(ReadWord(data, p), l);
  }

  lemma NextWord(t: Tables, start: Word, data: seq<Word>, p: nat, c0: Word, c1: Word, c2: Word, c3: Word)
    requires LinearBytes(t) && StrideTables(t) && Bytes(data) && p + 4 <= |data|
    requires Combined(t, c0, c1, c2, c3) == ByteWise(t, start, data[..p])
    ensures Combined(t, c1, c2, c3, Xor(ReadWord(data, p), Stride(t, c0))) == ByteWise(t, start, data[..p + 4])
  {
    hide Zeros, LinearBytes, StrideTables, Combined, Stride, ReadWord, ByteWise, Bytes, Xor;
    LaneTurns(t, c0, c1, c2, c3, ReadWord(data, p));
    WordStep(t, start, data, p);
  }
}
