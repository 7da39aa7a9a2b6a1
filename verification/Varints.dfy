/** Variable-length and fixed-length numbers, as both libraries write them (util/coding.cc of LevelDB,
    pb_encode.c and pb_decode.c of nanopb). */
module Varints {
  import opened Coding

  const TWO_TO_THE_64: nat := 0x1_0000_0000_0000_0000

  lemma EightBytes()
    ensures Pow256(8) == TWO_TO_THE_64
  {
    FourBytes();
    assert Pow256(6) == 256 * Pow256(5) && Pow256(5) == 256 * Pow256(4);
    assert Pow256(8) == 256 * Pow256(7) && Pow256(7) == 256 * Pow256(6);
  }

  /** Base 128, least significant group first, with a mark on every byte but the last. */
  function Varint(n: nat): (r: seq<Byte>)
    ensures |r| >= 1
  {
    if n < 128 then [n] else [n % 128 + 128] + Varint(n / 128)
  }

  // ----- Varints -----

  /** The weight of a group of seven bits. */
  function Weight(k: nat): (w: nat)
    ensures w >= 1
  {
    if k == 0 then 1 else 128 * Weight(k - 1)
  }

  lemma {:induction false} VarintLength(n: nat, k: nat)
    requires k >= 1 && n < Weight(k)
    ensures |Varint(n)| <= k
  {
    if n >= 128 {
      NextWeight(k - 1);
      VarintLength(n / 128, k - 1);
    }
  }

  /** A 32-bit number takes at most five bytes, a 64-bit number at most ten. */
  lemma VarintSizes(n: nat)
    ensures n < TWO_TO_THE_32 ==> |Varint(n)| <= 5
    ensures n < TWO_TO_THE_64 ==> |Varint(n)| <= 10
  {
    hide Weight, Varint;
    Weights();
    if n < TWO_TO_THE_32 {
      VarintLength(n, 5);
    }
    if n < TWO_TO_THE_64 {
      VarintLength(n, 10);
    }
  }

  lemma FirstWeight()
    ensures Weight(0) == 1 && Weight(1) == 128
  {
  }

  lemma Weights()
    ensures Weight(5) == 0x8_0000_0000 && Weight(4) == 0x1000_0000
    ensures Weight(10) >= TWO_TO_THE_64
  {
    assert Weight(2) == 128 * Weight(1);
    assert Weight(4) == 128 * Weight(3) && Weight(3) == 128 * Weight(2);
    assert Weight(6) == 128 * Weight(5) && Weight(5) == 128 * Weight(4);
    assert Weight(8) == 128 * Weight(7) && Weight(7) == 128 * Weight(6);
    assert Weight(10) == 128 * Weight(9) && Weight(9) == 128 * Weight(8);
  }

  lemma {:induction false} WeightsGrow(j: nat, k: nat)
    requires j <= k
    ensures Weight(j) <= Weight(k)
  {
    if j < k {
      WeightsGrow(j, k - 1);
    }
  }

  /** After `k` groups of the encoding of `n`, `value` holds the low part and `q` is still to come. */
  ghost predicate Reading(n: nat, rest: seq<Byte>, input: seq<Byte>, value: nat, q: nat, k: nat) {
    && n == value + Weight(k) * q
    && (k == 0 || q > 0 ==> input == Varint(q) + rest)
    && (k > 0 && q == 0 ==> input == rest && value == n)
  }

  lemma StartReading(n: nat, rest: seq<Byte>, input: seq<Byte>)
    ensures input == Varint(n) + rest ==> Reading(n, rest, input, 0, n, 0)
  {
  }

  lemma TenGroups(n: nat, rest: seq<Byte>, input: seq<Byte>, value: nat, q: nat, k: nat)
    requires n < TWO_TO_THE_64 && Reading(n, rest, input, value, q, k)
    ensures k == 0 || q > 0 ==> 7 * k < 64
  {
    hide Weight, Varint;
    if k >= 10 && q > 0 {
      Weights();
      WeightsGrow(10, k);
      WholeFits(Weight(k), q);
    }
  }

  lemma FiveGroups(n: nat, rest: seq<Byte>, input: seq<Byte>, value: nat, q: nat, k: nat)
    requires n < TWO_TO_THE_32 && Reading(n, rest, input, value, q, k)
    ensures q > 0 ==> 7 * k < 32 && (7 * k == 28 ==> q < 16)
  {
    hide Weight, Varint;
    Weights();
    if q > 0 {
      WholeFits(Weight(k), q);
      if k >= 5 {
        WeightsGrow(5, k);
      } else if k == 4 {
        assert Weight(k) * q == 0x1000_0000 * q;
      }
    }
  }

  lemma WholeFits(w: nat, q: nat)
    requires q > 0
    ensures w * q >= w
  {
  }

  lemma SplitGroup(w: nat, q: nat)
    ensures w * q == w * (q % 128) + 128 * w * (q / 128)
  {
    assert q == q % 128 + 128 * (q / 128);
    assert w * (q % 128 + 128 * (q / 128)) == w * (q % 128) + w * (128 * (q / 128));
    assert w * (128 * (q / 128)) == 128 * w * (q / 128);
  }

  lemma DoneReading(n: nat, rest: seq<Byte>, input: seq<Byte>, value: nat, q: nat, k: nat)
    requires Reading(n, rest, input, value, q, k) && k > 0 && q == 0
    ensures input == rest && value == n
  {
  }

  /** One group more. */
  lemma NextGroup(n: nat, rest: seq<Byte>, input: seq<Byte>, value: nat, q: nat, k: nat)
    requires Reading(n, rest, input, value, q, k) && (k == 0 || q > 0)
    ensures input != [] && (input[0] < 128 <==> q < 128) && input[0] % 128 == q % 128
    ensures value + input[0] % 128 * Weight(k) <= n
    ensures Reading(n, rest, input[1..], value + input[0] % 128 * Weight(k), q / 128, k + 1)
  {
    hide Weight;
    NextWeight(k);
    SplitGroup(Weight(k), q);
    assert Weight(k) * (q % 128) == q % 128 * Weight(k);
    assert Weight(k + 1) * (q / 128) == 128 * Weight(k) * (q / 128);
    assert Weight(k + 1) * (q / 128) >= 0 by { ProductIsNat(Weight(k + 1), q / 128); }
    if q < 128 {
      assert input == [q] + rest;
    } else {
      assert input == [q % 128 + 128] + (Varint(q / 128) + rest);
    }
  }

  lemma NextWeight(k: nat)
    ensures Weight(k + 1) == 128 * Weight(k)
  {
  }

  lemma ProductIsNat(a: nat, b: nat)
    ensures a * b >= 0
  {
  }

  // ----- What the bytes say -----

  /** A mark on every byte but the last. */
  predicate IsVarint(b: seq<Byte>) {
    b != [] && b[|b| - 1] < 128 && forall i :: 0 <= i < |b| - 1 ==> b[i] >= 128
  }

  /** The sum of the groups of seven bits, each with its weight. */
  function GroupSum(b: seq<Byte>): nat {
    if b == [] then 0
    else
      var n := |b| - 1;
      ProductIsNat(b[n] % 128, Weight(n));
      GroupSum(b[..n]) + b[n] % 128 * Weight(n)
  }

  lemma GroupSumOneMore(b: seq<Byte>, x: Byte)
    ensures GroupSum(b + [x]) == GroupSum(b) + x % 128 * Weight(|b|)
  {
    hide Weight;
    assert (b + [x])[..|b|] == b;
  }

  lemma {:induction false} GroupSumFront(x: Byte, b: seq<Byte>)
    ensures GroupSum([x] + b) == x % 128 + 128 * GroupSum(b)
  {
    hide Weight;
    if b == [] {
      GroupSumOneMore([], x);
      assert [] + [x] == [x] + [];
      FirstWeight();
    } else {
      var n := |b| - 1;
      var init, y := b[..n], b[n];
      assert b == init + [y] && [x] + b == ([x] + init) + [y];
      GroupSumFront(x, init);
      GroupSumOneMore(init, y);
      GroupSumOneMore([x] + init, y);
      NextWeight(n);
      LaterGroup(y % 128, Weight(n));
    }
  }

  lemma LaterGroup(y: nat, w: nat)
    ensures y * (128 * w) == 128 * (y * w)
  {
  }

  /** The form of the encoding: it is marked as it should be, its groups add up to the number, and no byte of it is
      wasted. */
  lemma {:induction false} VarintForm(n: nat)
    ensures IsVarint(Varint(n)) && GroupSum(Varint(n)) == n
    ensures |Varint(n)| > 1 ==> Varint(n)[|Varint(n)| - 1] != 0
  {
    hide GroupSum, IsVarint;
    if n < 128 {
      SingleGroup(n);
    } else {
      VarintForm(n / 128);
      LastIsNotZero(n / 128);
      OneGroupBefore(n % 128 + 128, Varint(n / 128));
      assert (n % 128 + 128) % 128 + 128 * (n / 128) == n;
    }
  }

  lemma LastIsNotZero(n: nat)
    requires |Varint(n)| > 1 ==> Varint(n)[|Varint(n)| - 1] != 0
    ensures n > 0 ==> Varint(n)[|Varint(n)| - 1] != 0
  {
  }

  lemma SingleGroup(n: Byte)
    requires n < 128
    ensures IsVarint([n]) && GroupSum([n]) == n
  {
    GroupSumFront(n, []);
    assert [n] + [] == [n];
  }

  lemma OneGroupBefore(x: Byte, b: seq<Byte>)
    requires x >= 128 && IsVarint(b)
    ensures IsVarint([x] + b) && GroupSum([x] + b) == x % 128 + 128 * GroupSum(b)
    ensures ([x] + b)[|[x] + b| - 1] == b[|b| - 1]
  {
    hide GroupSum;
    GroupSumFront(x, b);
  }

  // ----- What has been read -----

  /** One stretch of input is what another ends with. */
  ghost predicate IsRest(after: seq<Byte>, before: seq<Byte>) {
    |after| <= |before| && before[|before| - |after|..] == after
  }

  /** What was read between the two. */
  ghost function Took(before: seq<Byte>, after: seq<Byte>): seq<Byte>
    requires |after| <= |before|
  {
    before[..|before| - |after|]
  }

  lemma TookTwice(a: seq<Byte>, b: seq<Byte>, c: seq<Byte>)
    requires IsRest(b, a) && IsRest(c, b)
    ensures IsRest(c, a) && Took(a, c) == Took(a, b) + Took(b, c)
  {
    var n, m := |a| - |b|, |b| - |c|;
    assert a == a[..n] + b && b == b[..m] + c;
    assert a == (a[..n] + b[..m]) + c;
    assert a[..n + m] == a[..n] + b[..m];
  }

  lemma TookOne(a: seq<Byte>, b: seq<Byte>)
    requires IsRest(b, a) && b != []
    ensures IsRest(b[1..], a) && Took(a, b[1..]) == Took(a, b) + [b[0]]
  {
    assert Took(b, b[1..]) == [b[0]];
    assert IsRest(b[1..], b);
    TookTwice(a, b, b[1..]);
  }

  function Joined(parts: seq<seq<Byte>>): seq<Byte> {
    if parts == [] then [] else Joined(parts[..|parts| - 1]) + parts[|parts| - 1]
  }

  lemma NothingJoined(input: seq<Byte>)
    ensures IsRest(input, input) && Took(input, input) == Joined([])
  {
  }

  lemma JoinedOneMore(start: seq<Byte>, before: seq<Byte>, after: seq<Byte>, parts: seq<seq<Byte>>)
    requires IsRest(before, start) && Took(start, before) == Joined(parts) && IsRest(after, before)
    ensures IsRest(after, start) && Took(start, after) == Joined(parts + [Took(before, after)])
  {
    TookTwice(start, before, after);
    assert (parts + [Took(before, after)])[..|parts|] == parts;
  }

  /** Group `k` of a 32-bit number. */
  function AddGroup(value: nat, b: Byte, k: nat): (r: nat)
    ensures r < TWO_TO_THE_32
  {
    ProductIsNat(b % 128, Weight(k));
    (value + b % 128 * Weight(k)) % TWO_TO_THE_32
  }

  /** Group `k` of a 64-bit number. */
  function AddGroup64(value: nat, b: Byte, k: nat): (r: nat)
    ensures r < TWO_TO_THE_64
  {
    ProductIsNat(b % 128, Weight(k));
    (value + b % 128 * Weight(k)) % TWO_TO_THE_64
  }

  lemma ModularSum(a: nat, x: nat)
    ensures (a % TWO_TO_THE_32 + x) % TWO_TO_THE_32 == (a + x) % TWO_TO_THE_32
    ensures (a % TWO_TO_THE_64 + x) % TWO_TO_THE_64 == (a + x) % TWO_TO_THE_64
  {
  }

  /** One more group of a number that is read. */
  lemma GroupRead(start: seq<Byte>, input: seq<Byte>, value: nat)
    requires IsRest(input, start) && input != []
    ensures IsRest(input[1..], start) && Took(start, input[1..]) == Took(start, input) + [input[0]]
    ensures input[0] % 128 * Weight(|Took(start, input)|) >= 0
    ensures var x := input[0] % 128 * Weight(|Took(start, input)|);
            && (value == GroupSum(Took(start, input)) % TWO_TO_THE_32 ==>
                  (value + x) % TWO_TO_THE_32 == GroupSum(Took(start, input[1..])) % TWO_TO_THE_32)
            && (value == GroupSum(Took(start, input)) % TWO_TO_THE_64 ==>
                  (value + x) % TWO_TO_THE_64 == GroupSum(Took(start, input[1..])) % TWO_TO_THE_64)
  {
    hide Weight, GroupSum;
    TookOne(start, input);
    var taken := Took(start, input);
    GroupSumOneMore(taken, input[0]);
    ProductIsNat(input[0] % 128, Weight(|taken|));
    ModularSum(GroupSum(taken), input[0] % 128 * Weight(|taken|));
  }

  /** Groups past the 32nd bit do not count. */
  lemma {:induction false} HighWeight(k: nat)
    requires k >= 5
    ensures Weight(k) % TWO_TO_THE_32 == 0
  {
    hide Weight;
    Weights();
    if k > 5 {
      HighWeight(k - 1);
      NextWeight(k - 1);
    }
  }

  lemma WholeMultiple(value: nat, q: nat)
    requires value < TWO_TO_THE_32
    ensures (value + q * TWO_TO_THE_32) % TWO_TO_THE_32 == value
  {
  }

  lemma HighGroup(value: nat, x: nat, k: nat)
    requires k >= 5 && value < TWO_TO_THE_32
    ensures x * Weight(k) >= 0 && (value + x * Weight(k)) % TWO_TO_THE_32 == value
  {
    hide Weight;
    HighWeight(k);
    var q := Weight(k) / TWO_TO_THE_32;
    assert Weight(k) == q * TWO_TO_THE_32;
    assert x * Weight(k) == (x * q) * TWO_TO_THE_32;
    ProductIsNat(x, q);
    WholeMultiple(value, x * q);
  }

  lemma NothingTaken(input: seq<Byte>)
    ensures IsRest(input, input) && Took(input, input) == [] && GroupSum(Took(input, input)) == 0
  {
  }

  lemma ReadGroup64(n: nat, rest: seq<Byte>, input: seq<Byte>, value: nat, q: nat, k: nat)
    requires n < TWO_TO_THE_64 && Reading(n, rest, input, value, q, k) && (k == 0 || q > 0)
    ensures input != [] && (input[0] < 128 <==> q < 128)
    ensures Reading(n, rest, input[1..], AddGroup64(value, input[0], k), q / 128, k + 1)
  {
    hide Weight, Varint, Reading;
    NextGroup(n, rest, input, value, q, k);
    ProductIsNat(input[0] % 128, Weight(k));
  }

  lemma ReadGroup32(n: nat, rest: seq<Byte>, input: seq<Byte>, value: nat, q: nat, k: nat)
    requires n < TWO_TO_THE_32 && Reading(n, rest, input, value, q, k) && (k == 0 || q > 0)
    ensures input != [] && (input[0] < 128 <==> q < 128) && input[0] % 128 == q % 128
    ensures Reading(n, rest, input[1..], AddGroup(value, input[0], k), q / 128, k + 1)
  {
    hide Weight, Varint, Reading;
    NextGroup(n, rest, input, value, q, k);
    ProductIsNat(input[0] % 128, Weight(k));
  }

  /** What has been read when `k` marked groups of a 64-bit number have been. */
  ghost predicate Groups64(start: seq<Byte>, input: seq<Byte>, value: nat, k: nat) {
    && IsRest(input, start) && |Took(start, input)| == k
    && value == GroupSum(Took(start, input)) % TWO_TO_THE_64
    && forall i :: 0 <= i < k ==> Took(start, input)[i] >= 128
  }

  lemma NoGroups(input: seq<Byte>)
    ensures Groups32(input, input, 0, 0) && Groups64(input, input, 0, 0)
  {
  }

  lemma OneMoreGroup64(start: seq<Byte>, input: seq<Byte>, value: nat, k: nat)
    requires Groups64(start, input, value, k) && input != []
    ensures var b := input[0]; var value' := AddGroup64(value, b, k);
            && IsRest(input[1..], start) && |Took(start, input[1..])| == k + 1
            && (b >= 128 ==> Groups64(start, input[1..], value', k + 1))
            && (b < 128 ==>
                  IsVarint(Took(start, input[1..])) && value' == GroupSum(Took(start, input[1..])) % TWO_TO_THE_64)
  {
    hide GroupSum, Weight;
    GroupRead(start, input, value);
  }

  /** What has been read when `k` marked groups of a 32-bit number have been. */
  ghost predicate Groups32(start: seq<Byte>, input: seq<Byte>, value: nat, k: nat) {
    && IsRest(input, start) && |Took(start, input)| == k
    && value == GroupSum(Took(start, input)) % TWO_TO_THE_32
    && forall i :: 0 <= i < k ==> Took(start, input)[i] >= 128
  }

  lemma Groups32IsRest(start: seq<Byte>, input: seq<Byte>, value: nat, k: nat)
    requires Groups32(start, input, value, k)
    ensures IsRest(input, start)
  {
    hide GroupSum;
  }

  lemma OneMoreGroup32(start: seq<Byte>, input: seq<Byte>, value: nat, k: nat)
    requires Groups32(start, input, value, k) && input != [] && value < TWO_TO_THE_32
    ensures IsRest(input[1..], start)
    ensures var b := input[0]; var value' := if k >= 5 then value else AddGroup(value, b, k);
            && (b >= 128 ==> Groups32(start, input[1..], value', k + 1))
            && (b < 128 ==>
                  IsVarint(Took(start, input[1..])) && value' == GroupSum(Took(start, input[1..])) % TWO_TO_THE_32)
  {
    hide GroupSum, Weight, AddGroup;
    GroupRead(start, input, value);
    AddGroupIs(value, input[0], k);
    if k >= 5 {
      HighGroup(value, input[0] % 128, k);
    }
  }

  lemma AddGroupIs(value: nat, b: Byte, k: nat)
    ensures b % 128 * Weight(k) >= 0
    ensures AddGroup(value, b, k) == (value + b % 128 * Weight(k)) % TWO_TO_THE_32
  {
    hide Weight;
    ProductIsNat(b % 128, Weight(k));
  }

  /** Marked groups alone are no varint. */
  lemma NoneEnded32(input: seq<Byte>, left: seq<Byte>, value: nat, k: nat)
    requires Groups32(input, left, value, k)
    ensures k + |left| == |input|
    ensures forall i | 1 <= i <= k && i <= |input| :: !IsVarint(input[..i])
  {
    hide GroupSum;
    AllMarked(input, left, k);
  }

  lemma NoneEnded64(input: seq<Byte>, left: seq<Byte>, value: nat, k: nat)
    requires Groups64(input, left, value, k)
    ensures k + |left| == |input|
    ensures forall i | 1 <= i <= k && i <= |input| :: !IsVarint(input[..i])
  {
    hide GroupSum;
    AllMarked(input, left, k);
  }

  lemma AllMarked(input: seq<Byte>, left: seq<Byte>, k: nat)
    requires IsRest(left, input) && |Took(input, left)| == k && forall i :: 0 <= i < k ==> Took(input, left)[i] >= 128
    ensures forall i | 1 <= i <= k && i <= |input| :: !IsVarint(input[..i])
  {
    forall i | 1 <= i <= k && i <= |input|
      ensures !IsVarint(input[..i])
    {
      assert input[..i][i - 1] == Took(input, left)[i - 1];
    }
  }
}
