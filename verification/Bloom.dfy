/** The Bloom filter policy (util/bloom.cc), over any hash function, and its use on internal keys
    (db/dbformat.cc: InternalFilterPolicy). */
module Blooms {
  import opened Coding
  import opened FilterBlocks
  import opened Bytewise

  /** A policy's settings: bits for each key, and how many probes. */
  datatype Settings = Settings(hash: seq<Byte> -> Word, bitsPerKey: nat, probes: nat)

  predicate Proper(s: Settings) {
    1 <= s.probes <= 30
  }

  // ----- Bits of a byte array -----

  /** b & (1 << i) */
  predicate HasBit(b: nat, i: nat) {
    if i == 0 then b % 2 == 1 else HasBit(b / 2, i - 1)
  }

  /** b | (1 << i) */
  function WithBit(b: nat, i: nat): nat {
    if i == 0 then (if b % 2 == 1 then b else b + 1) else 2 * WithBit(b / 2, i - 1) + b % 2
  }

  lemma {:induction false} WithBitIs(b: nat, i: nat, j: nat)
    ensures HasBit(WithBit(b, i), j) <==> j == i || HasBit(b, j)
  {
    if i > 0 && j > 0 {
      WithBitIs(b / 2, i - 1, j - 1);
    }
  }

  lemma {:induction false} WithBitFits(b: nat, i: nat, n: nat)
    requires b < Power2(n) && i < n
    ensures WithBit(b, i) < Power2(n)
  {
    var half, low, whole := b / 2, b % 2, Power2(n - 1);
    assert b == 2 * half + low && Power2(n) == 2 * whole;
    assert half < whole;
    if i > 0 {
      WithBitFits(half, i - 1, n - 1);
      assert WithBit(b, i) == 2 * WithBit(half, i - 1) + low;
    }
  }

  function OrBit(b: Byte, i: nat): (r: Byte)
    requires i < 8
  {
    EightBits();
    WithBitFits(b, i, 8);
    WithBit(b, i)
  }

  lemma EightBits()
    ensures Power2(8) == 256
  {
    assert Power2(4) == 16;
    assert Power2(8) == 16 * Power2(4);
  }

  predicate Bit(field: seq<Byte>, p: nat)
    requires p < 8 * |field|
  {
    HasBit(field[p / 8], p % 8)
  }

  function SetBit(field: seq<Byte>, p: nat): (r: seq<Byte>)
    requires p < 8 * |field|
    ensures |r| == |field|
  {
    field[p / 8 := OrBit(field[p / 8], p % 8)]
  }

  lemma SetBitIs(field: seq<Byte>, p: nat, q: nat)
    requires p < 8 * |field| && q < 8 * |field|
    ensures Bit(SetBit(field, p), q) <==> q == p || Bit(field, q)
  {
    if q / 8 == p / 8 {
      WithBitIs(field[p / 8], p % 8, q % 8);
    }
  }

  // ----- Probes -----

  /** Rotate right by 17 bits. */
  function Delta(h: Word): Word {
    h / 0x2_0000 + h % 0x2_0000 * 0x8000
  }

  function NextProbe(h: Word, delta: Word): Word {
    (h + delta) % TWO_TO_THE_32
  }

  /** Position `p` is among `n` probes from a hash on. */
  predicate Probes(h: Word, delta: Word, n: nat, bits: nat, p: nat)
    requires bits > 0
    decreases n
  {
    n > 0 && (h % bits == p || Probes(NextProbe(h, delta), delta, n - 1, bits, p))
  }

  function Marked(field: seq<Byte>, h: Word, delta: Word, n: nat): (r: seq<Byte>)
    requires field != []
    ensures |r| == |field|
    decreases n
  {
    if n == 0 then field else Marked(SetBit(field, h % (8 * |field|)), NextProbe(h, delta), delta, n - 1)
  }

  predicate AllSet(field: seq<Byte>, h: Word, delta: Word, n: nat)
    requires field != []
    decreases n
  {
    n == 0 || (Bit(field, h % (8 * |field|)) && AllSet(field, NextProbe(h, delta), delta, n - 1))
  }

  lemma {:induction false} MarkedBits(field: seq<Byte>, h: Word, delta: Word, n: nat, p: nat)
    requires field != [] && p < 8 * |field|
    ensures Bit(Marked(field, h, delta, n), p) <==> Bit(field, p) || Probes(h, delta, n, 8 * |field|, p)
    decreases n
  {
    hide Bit, SetBit;
    if n > 0 {
      SetBitIs(field, h % (8 * |field|), p);
      MarkedBits(SetBit(field, h % (8 * |field|)), NextProbe(h, delta), delta, n - 1, p);
    }
  }

  lemma {:induction false} AllSetIff(field: seq<Byte>, h: Word, delta: Word, n: nat)
    requires field != []
    ensures AllSet(field, h, delta, n) <==>
            forall p: nat :: p < 8 * |field| && Probes(h, delta, n, 8 * |field|, p) ==> Bit(field, p)
    decreases n
  {
    hide Bit;
    if n > 0 {
      AllSetIff(field, NextProbe(h, delta), delta, n - 1);
      var first := h % (8 * |field|);
      assert Probes(h, delta, n, 8 * |field|, first);
      assert forall p: nat :: p < 8 * |field| ==>
          (Probes(h, delta, n, 8 * |field|, p) <==>
             first == p || Probes(NextProbe(h, delta), delta, n - 1, 8 * |field|, p));
    }
  }

  // ----- Filters -----

  function FilterBytesFor(s: Settings, n: nat): (bytes: nat)
    ensures bytes >= 8
  {
    ((if n * s.bitsPerKey < 64 then 64 else n * s.bitsPerKey) + 7) / 8
  }

  function MarkedAll(s: Settings, field: seq<Byte>, keys: seq<seq<Byte>>): (r: seq<Byte>)
    requires field != []
    ensures |r| == |field|
  {
    if keys == [] then field
    else
      var h := s.hash(keys[|keys| - 1]);
      Marked(MarkedAll(s, field, keys[..|keys| - 1]), h, Delta(h), s.probes)
  }

  /** The filter of some keys: their bits, and the number of probes. */
  function Create(s: Settings, keys: seq<seq<Byte>>): seq<Byte>
    requires Proper(s)
  {
    MarkedAll(s, seq(FilterBytesFor(s, |keys|), _ => 0), keys) + [s.probes]
  }

  predicate MayMatch(s: Settings, key: seq<Byte>, filter: seq<Byte>) {
    if |filter| < 2 then false
    else
      var k := filter[|filter| - 1];
      k > 30 || AllSet(filter[..|filter| - 1], s.hash(key), Delta(s.hash(key)), k)
  }

  /** A filter has exactly the bits that some key probes. */
  lemma {:induction false} MarkedAllBits(s: Settings, field: seq<Byte>, keys: seq<seq<Byte>>, p: nat)
    requires field != [] && p < 8 * |field|
    ensures Bit(MarkedAll(s, field, keys), p) <==>
            || Bit(field, p)
            || exists k :: k in keys && Probes(s.hash(k), Delta(s.hash(k)), s.probes, 8 * |field|, p)
  {
    hide Bit, Probes, Marked;
    if keys != [] {
      var n := |keys| - 1;
      var h := s.hash(keys[n]);
      MarkedAllBits(s, field, keys[..n], p);
      MarkedBits(MarkedAll(s, field, keys[..n]), h, Delta(h), s.probes, p);
      assert forall k :: k in keys <==> k in keys[..n] || k == keys[n];
    }
  }

  lemma ZeroHasNoBits()
    ensures forall i: nat :: !HasBit(0, i)
  {
    forall i: nat
      ensures !HasBit(0, i)
    {
      ZeroHasNoBit(i);
    }
  }

  lemma {:induction false} ZeroHasNoBit(i: nat)
    ensures !HasBit(0, i)
  {
    if i > 0 {
      ZeroHasNoBit(i - 1);
    }
  }

  /** A key may match a filter exactly when all its probes are bits that the filter's keys probe; so the filter
      matches each of its keys. */
  lemma MayMatchIff(s: Settings, keys: seq<seq<Byte>>, x: seq<Byte>)
    requires Proper(s)
    ensures var bits := 8 * FilterBytesFor(s, |keys|);
            MayMatch(s, x, Create(s, keys)) <==>
              forall p: nat :: p < bits && Probes(s.hash(x), Delta(s.hash(x)), s.probes, bits, p) ==>
                exists k :: k in keys && Probes(s.hash(k), Delta(s.hash(k)), s.probes, bits, p)
    ensures x in keys ==> MayMatch(s, x, Create(s, keys))
  {
    hide Probes, AllSet, MarkedAll, Bit;
    var zeros: seq<Byte> := seq(FilterBytesFor(s, |keys|), _ => 0);
    var field := MarkedAll(s, zeros, keys);
    var filter := Create(s, keys);
    assert filter[..|filter| - 1] == field;
    AllSetIff(field, s.hash(x), Delta(s.hash(x)), s.probes);
    forall p: nat | p < 8 * |zeros|
      ensures Bit(field, p) <==> exists k :: k in keys && Probes(s.hash(k), Delta(s.hash(k)), s.probes, 8 * |zeros|, p)
    {
      MarkedAllBits(s, zeros, keys, p);
      NoBits(zeros, p);
    }
  }

  // ----- Which bits, in closed form -----

  /** The position of probe `j`: double hashing, modulo 2^32. */
  function ProbeAt(h: Word, j: nat, bits: nat): nat
    requires bits > 0
  {
    var delta := h / 131072 + h % 131072 * 32768;
    (h + j * delta) % 0x1_0000_0000 % bits
  }

  /** A filter has a bit for every position, at least 64 of them and at least as many as the settings ask for, rounded
      up to bytes; then the number of probes. The bits that are set are the probes of its keys. */
  lemma FilterForm(s: Settings, keys: seq<seq<Byte>>, p: nat)
    requires Proper(s)
    ensures var r := Create(s, keys); var bits := 8 * (|r| - 1);
            && bits >= 64 && bits >= |keys| * s.bitsPerKey && (bits > 64 ==> bits < |keys| * s.bitsPerKey + 8)
            && r[|r| - 1] == s.probes
            && (p < bits ==>
                  (HasBit(r[p / 8], p % 8) <==>
                   exists k, j: nat :: k in keys && j < s.probes && ProbeAt(s.hash(k), j, bits) == p))
  {
    hide Probes, MarkedAll, HasBit, ProbeAt;
    var zeros: seq<Byte> := seq(FilterBytesFor(s, |keys|), _ => 0);
    var r, bits := Create(s, keys), 8 * |zeros|;
    if p < bits {
      MarkedAllBits(s, zeros, keys, p);
      NoBits(zeros, p);
      assert r[p / 8] == MarkedAll(s, zeros, keys)[p / 8];
      forall k | k in keys
        ensures Probes(s.hash(k), Delta(s.hash(k)), s.probes, bits, p) <==>
                exists j: nat :: j < s.probes && ProbeAt(s.hash(k), j, bits) == p
      {
        ProbesAre(s.hash(k), s.probes, bits, p);
      }
    }
  }

  lemma ProbesAre(h: Word, n: nat, bits: nat, p: nat)
    requires bits > 0
    ensures Probes(h, Delta(h), n, bits, p) <==> exists j: nat :: j < n && ProbeAt(h, j, bits) == p
  {
    hide Probes;
    ProbesFrom(h, Delta(h), n, bits, p);
    assert forall j: nat :: ProbeAt(h, j, bits) == Later(h, Delta(h), j) % bits;
  }

  /** The hash after `j` steps. */
  function Later(h: Word, delta: Word, j: nat): Word {
    (h + j * delta) % TWO_TO_THE_32
  }

  lemma {:induction false} ProbesFrom(h: Word, delta: Word, n: nat, bits: nat, p: nat)
    requires bits > 0
    ensures Probes(h, delta, n, bits, p) <==> exists j: nat :: j < n && Later(h, delta, j) % bits == p
    decreases n
  {
    hide Later, NextProbe;
    NoStep(h, delta);
    if n > 0 {
      var next := NextProbe(h, delta);
      ProbesFrom(next, delta, n - 1, bits, p);
      if j: nat :| j < n - 1 && Later(next, delta, j) % bits == p {
        OneStep(h, delta, j);
        assert Later(h, delta, j + 1) % bits == p;
      }
      if i: nat :| i < n && Later(h, delta, i) % bits == p {
        if i > 0 {
          OneStep(h, delta, i - 1);
          assert Later(next, delta, i - 1) % bits == p;
        }
      }
    }
  }

  lemma NoStep(h: Word, delta: Word)
    ensures Later(h, delta, 0) == h
  {
  }

  lemma OneStep(h: Word, delta: Word, j: nat)
    ensures Later(NextProbe(h, delta), delta, j) == Later(h, delta, j + 1)
  {
    assert (j + 1) * delta == delta + j * delta;
    Wraps(h + delta, j * delta);
  }

  lemma Wraps(a: nat, b: int)
    ensures (a % TWO_TO_THE_32 + b) % TWO_TO_THE_32 == (a + b) % TWO_TO_THE_32
  {
  }

  lemma NoBits(field: seq<Byte>, p: nat)
    requires p < 8 * |field| && forall i :: 0 <= i < |field| ==> field[i] == 0
    ensures !Bit(field, p)
  {
    ZeroHasNoBits();
  }

  /** CreateFilter appends the filter of the keys. */
  method CreateFilter(s: Settings, keys: seq<seq<Byte>>, dst: seq<Byte>) returns (r: seq<Byte>)
    requires Proper(s)
    ensures r == dst + Create(s, keys)
  {
    hide Bit, SetBit;
    var bits := |keys| * s.bitsPerKey;
    if bits < 64 {
      bits := 64;
    }
    var bytes := (bits + 7) / 8;
    bits := bytes * 8;
    var field: seq<Byte> := seq(bytes, _ => 0);
    ghost var zeros := field;
    assert keys[..0] == [];
    for i := 0 to |keys|
      invariant |field| == bytes && field == MarkedAll(s, zeros, keys[..i])
    {
      var h: Word := s.hash(keys[i]);
      var delta := Delta(h);
      ghost var whole := Marked(field, h, delta, s.probes);
      for j := 0 to s.probes
        invariant |field| == bytes && Marked(field, h, delta, s.probes - j) == whole
      {
        field := SetBit(field, h % bits);
        h := NextProbe(h, delta);
      }
      assert keys[..i + 1][..i] == keys[..i];
    }
    assert keys[..|keys|] == keys;
    r := dst + (field + [s.probes]);
  }

  method KeyMayMatch(s: Settings, key: seq<Byte>, filter: seq<Byte>) returns (may: bool)
    ensures may == MayMatch(s, key, filter)
  {
    hide Bit;
    var len := |filter|;
    if len < 2 {
      return false;
    }
    var field := filter[..len - 1];
    var bits := (len - 1) * 8;
    var k := filter[len - 1];
    if k > 30 {
      return true;
    }
    var h: Word := s.hash(key);
    var delta := Delta(h);
    for j := 0 to k
      invariant AllSet(field, s.hash(key), delta, k) == AllSet(field, h, delta, k - j)
    {
      if !Bit(field, h % bits) {
        return false;
      }
      h := NextProbe(h, delta);
    }
    return true;
  }

  function Itself(key: seq<Byte>): seq<Byte> {
    key
  }

  /** The policy on plain keys. */
  function PolicyOf(s: Settings): Policy
    requires Proper(s)
  {
    Policy(Ascii("leveldb.BuiltinBloomFilter2"), keys => Create(s, keys), (key, filter) => MayMatch(s, key, filter))
  }

  /** InternalFilterPolicy: the policy sees only user keys. */
  function OnUserKeys(policy: Policy): Policy {
    Policy(policy.name, keys => policy.create(UserKeys(keys)), (key, filter) => policy.mayMatch(UserKey(key), filter))
  }

  function UserKeys(keys: seq<seq<Byte>>): seq<seq<Byte>> {
    seq(|keys|, i requires 0 <= i < |keys| => UserKey(keys[i]))
  }

  lemma BloomHasNoFalseNegatives(s: Settings)
    requires Proper(s)
    ensures NoFalseNegatives(PolicyOf(s), Itself)
  {
    hide Create, MayMatch;
    forall keys: seq<seq<Byte>>, k: seq<Byte> | k in keys
      ensures MayMatch(s, k, Create(s, keys))
    {
      MayMatchIff(s, keys, k);
    }
  }

  /** On internal keys a filter matches every key with the user key of one it was made of. */
  lemma UserKeysHaveNoFalseNegatives(policy: Policy)
    requires NoFalseNegatives(policy, Itself)
    ensures NoFalseNegatives(OnUserKeys(policy), UserKey)
  {
    hide UserKey;
    forall keys: seq<seq<Byte>>, k, x | k in keys && UserKey(x) == UserKey(k)
      ensures OnUserKeys(policy).mayMatch(x, OnUserKeys(policy).create(keys))
    {
      var i :| 0 <= i < |keys| && keys[i] == k;
      assert UserKeys(keys)[i] == UserKey(k);
      assert UserKey(k) in UserKeys(keys) && Itself(UserKey(x)) == Itself(UserKey(k));
      assert policy.mayMatch(UserKey(x), policy.create(UserKeys(keys)));
    }
  }

  /** So the filter that tables ship with has none: the hypothesis that table lookups make of a policy. */
  lemma BloomOnUserKeys(s: Settings)
    requires Proper(s)
    ensures NoFalseNegatives(OnUserKeys(PolicyOf(s)), UserKey)
  {
    hide NoFalseNegatives;
    BloomHasNoFalseNegatives(s);
    UserKeysHaveNoFalseNegatives(PolicyOf(s));
  }
}
