/** Table blocks (table/block_builder.cc, table/block.cc): keys are stored without the prefix they share
    with the key before, except at restart points. Keys are ordered by any comparator. */
module Blocks {
  import opened Coding
  import opened Varints
  import opened VarintCodec

  /** What a comparator says: whether the first key comes before the second. */
  type Order = (seq<Byte>, seq<Byte>) -> bool

  ghost predicate Transitive(less: Order) {
    forall a, b, c :: less(a, b) && less(b, c) ==> less(a, c)
  }

  datatype KeyValue = KeyValue(key: seq<Byte>, value: seq<Byte>)

  /** What a block holds: its entries, how much each shares with the one before, and which entries are
      restart points. */
  datatype Layout = Layout(entries: seq<KeyValue>, shared: seq<nat>, restarts: seq<nat>)

  function EntryBytes(e: KeyValue, shared: nat): (r: seq<Byte>)
    requires shared <= |e.key|
    ensures |r| >= 3
  {
    Varint(shared) + Varint(|e.key| - shared) + Varint(|e.value|) + e.key[shared..] + e.value
  }

  predicate SharesPrefix(b: Layout, i: nat)
    requires i < |b.entries| == |b.shared|
  {
    && b.shared[i] <= |b.entries[i].key|
    && (i == 0 ==> b.shared[i] == 0)
    && (i > 0 ==> b.shared[i] <= |b.entries[i - 1].key|
                  && b.entries[i].key[..b.shared[i]] == b.entries[i - 1].key[..b.shared[i]])
  }

  /** What a layout says of its entries. */
  predicate ProperEntries(b: Layout) {
    && |b.entries| == |b.shared|
    && (forall i :: 0 <= i < |b.entries| ==> SharesPrefix(b, i))
    && (forall i :: 0 <= i < |b.entries| ==>
          |b.entries[i].key| < TWO_TO_THE_32 && |b.entries[i].value| < TWO_TO_THE_32)
  }

  /** And of its restart points. */
  predicate ProperRestarts(b: Layout)
    requires |b.entries| == |b.shared|
  {
    && |b.restarts| > 0 && b.restarts[0] == 0
    && (forall j, k :: 0 <= j < k < |b.restarts| ==> b.restarts[j] < b.restarts[k])
    && (forall j :: 0 <= j < |b.restarts| ==>
          b.restarts[j] <= |b.entries| && (b.restarts[j] < |b.entries| ==> b.shared[b.restarts[j]] == 0))
    && (forall j :: 1 <= j < |b.restarts| ==> b.restarts[j] < |b.entries|)
  }

  predicate Proper(b: Layout) {
    ProperEntries(b) && ProperRestarts(b)
  }

  /** Nothing is left that the entry could share with the one before. */
  predicate SharesAll(b: Layout, i: nat)
    requires 0 < i < |b.entries| == |b.shared|
  {
    var before, key, n := b.entries[i - 1].key, b.entries[i].key, b.shared[i];
    n < |before| && n < |key| ==> before[n] != key[n]
  }

  /** Restart points stand one interval apart, and between them as much is shared as can be. */
  ghost predicate Regular(b: Layout, interval: nat)
    requires |b.entries| == |b.shared| && b.restarts != []
  {
    && (forall j :: 0 < j < |b.restarts| ==> b.restarts[j] == b.restarts[j - 1] + interval)
    && b.restarts[|b.restarts| - 1] <= |b.entries| <= b.restarts[|b.restarts| - 1] + interval
    && forall i :: 0 < i < |b.entries| && i !in b.restarts ==> SharesAll(b, i)
  }

  ghost predicate Ascending(less: Order, entries: seq<KeyValue>) {
    forall i, j :: 0 <= i < j < |entries| ==> less(entries[i].key, entries[j].key)
  }

  /** The bytes of the first `n` entries. */
  function Data(b: Layout, n: nat): seq<Byte>
    requires Proper(b) && n <= |b.entries|
  {
    if n == 0 then []
    else
      assert SharesPrefix(b, n - 1);
      Data(b, n - 1) + EntryBytes(b.entries[n - 1], b.shared[n - 1])
  }

  /** Where an entry starts. */
  function Offset(b: Layout, i: nat): nat
    requires Proper(b) && i <= |b.entries|
  {
    |Data(b, i)|
  }

  /** The restart array: the offsets of the first `n` restart points. */
  function RestartBytes(b: Layout, n: nat): (r: seq<Byte>)
    requires Proper(b) && n <= |b.restarts|
    ensures |r| == 4 * n
  {
    if n == 0 then [] else RestartBytes(b, n - 1) + LittleEndian(Offset(b, b.restarts[n - 1]), 4)
  }

  function Finished(b: Layout): seq<Byte>
    requires Proper(b)
  {
    Data(b, |b.entries|) + RestartBytes(b, |b.restarts|) + LittleEndian(|b.restarts|, 4)
  }

  // ----- Building -----

  class BlockBuilder {
    const restartInterval: nat
    const less: Order
    var buffer: seq<Byte>
    var restarts: seq<nat>
    var counter: nat
    var lastKey: seq<Byte>
    ghost var layout: Layout

    ghost predicate Valid()
      reads this
    {
      && restartInterval >= 1 && Transitive(less) && Proper(layout) && Ascending(less, layout.entries)
      && buffer == Data(layout, |layout.entries|)
      && |restarts| == |layout.restarts|
      && (forall j :: 0 <= j < |restarts| ==> restarts[j] == Offset(layout, layout.restarts[j]))
      && lastKey == (if layout.entries == [] then [] else layout.entries[|layout.entries| - 1].key)
      && Regular(layout, restartInterval)
      && counter == |layout.entries| - layout.restarts[|layout.restarts| - 1]
    }

    constructor (restartInterval: nat, less: Order)
      requires restartInterval >= 1 && Transitive(less)
      ensures Valid() && this.restartInterval == restartInterval && this.less == less && layout.entries == []
      ensures Size() == 8
    {
      hide Data, ProperEntries, ProperRestarts, Ascending, Transitive, RestartBytes, Regular;
      EmptyIsProper(less, restartInterval);
      this.restartInterval, this.less := restartInterval, less;
      buffer, restarts, counter, lastKey := [], [0], 0, [];
      layout := Layout([], [], [0]);
    }

    /** CurrentSizeEstimate: how long the finished block would be. */
    function Size(): nat
      reads this
    {
      |buffer| + |restarts| * 4 + 4
    }

    predicate Empty()
      reads this
    {
      buffer == []
    }

    lemma EmptyMeansNoEntries()
      requires Valid()
      ensures Empty() <==> layout.entries == []
    {
      hide RestartBytes, EntryBytes;
      OffsetsGrow(layout, 0, |layout.entries|);
    }

    lemma SizeIs()
      requires Valid()
      ensures Size() == |Finished(layout)|
    {
    }

    /** Start over, with an empty block. */
    method Reset()
      requires restartInterval >= 1 && Transitive(less)
      modifies this
      ensures Valid() && layout.entries == [] && Size() == 8
    {
      hide Data, ProperEntries, ProperRestarts, Ascending, Transitive, RestartBytes, Regular;
      EmptyIsProper(less, restartInterval);
      buffer, restarts, counter, lastKey := [], [0], 0, [];
      layout := Layout([], [], [0]);
    }

    /** Append an entry whose key is above all before it. */
    method Add(key: seq<Byte>, value: seq<Byte>)
      requires Valid() && |key| < TWO_TO_THE_32 && |value| < TWO_TO_THE_32
      requires layout.entries != [] ==> less(lastKey, key)
      modifies this
      ensures Valid() && layout.entries == old(layout.entries) + [KeyValue(key, value)]
      ensures lastKey == key && Size() <= old(Size()) + |key| + |value| + 19
    {
      hide Data, RestartBytes, EntryBytes, Ascending, Proper, Transitive, Regular;
      EntryIsShort(KeyValue(key, value));
      ghost var before := layout;
      RestartBounds(before);
      RegularFacts(before, restartInterval);
      var shared := 0;
      ghost var restart := false;
      if counter < restartInterval {
        shared := SharedLength(lastKey, key);
      } else {
        restarts := restarts + [|buffer|];
        counter := 0;
        restart := true;
        LastRestart(layout, |layout.restarts| - 1);
      }
      ghost var e := KeyValue(key, value);
      AppendEntry(key, value, shared);
      assert key[..shared] + key[shared..] == key;
      lastKey := lastKey[..shared] + key[shared..];
      counter := counter + 1;
      layout := Extended(before, e, shared, restart);
      ExtendedIsProper(less, before, e, shared, restart);
      ExtendedIsRegular(before, e, shared, restart, restartInterval);
      ExtendedData(before, e, shared, restart, buffer);
    }

    /** The bytes of one entry. */
    method AppendEntry(key: seq<Byte>, value: seq<Byte>, shared: nat)
      requires shared <= |key| < TWO_TO_THE_32 && |value| < TWO_TO_THE_32
      modifies this`buffer
      ensures buffer == old(buffer) + EntryBytes(KeyValue(key, value), shared)
    {
      hide Varint;
      var nonShared := |key| - shared;
      var first := EncodeVarint32(shared);
      var second := EncodeVarint32(nonShared);
      var third := EncodeVarint32(|value|);
      ghost var start := buffer;
      buffer := buffer + first;
      buffer := buffer + second;
      buffer := buffer + third;
      buffer := buffer + key[shared..];
      buffer := buffer + value;
      assert buffer == start + (first + second + third + key[shared..] + value);
    }

    method Finish() returns (block: seq<Byte>)
      requires Valid() && |Finished(layout)| < TWO_TO_THE_32
      modifies this`buffer
      ensures block == Finished(layout)
    {
      hide Data, EntryBytes, LittleEndian;
      OffsetsFit(layout);
      for i := 0 to |restarts|
        invariant buffer == Data(layout, |layout.entries|) + RestartBytes(layout, i)
      {
        assert restarts[i] == Offset(layout, layout.restarts[i]);
        buffer := buffer + EncodeFixed32(restarts[i]);
      }
      buffer := buffer + EncodeFixed32(|restarts|);
      block := buffer;
    }
  }

  lemma EmptyIsProper(less: Order, interval: nat)
    ensures var b := Layout([], [], [0]);
            Proper(b) && Ascending(less, b.entries) && Data(b, 0) == [] && Regular(b, interval)
  {
  }

  lemma RegularFacts(b: Layout, interval: nat)
    requires Proper(b) && Regular(b, interval)
    ensures b.restarts != [] && b.restarts[|b.restarts| - 1] <= |b.entries| <= b.restarts[|b.restarts| - 1] + interval
    ensures b.entries == [] ==> b.restarts[|b.restarts| - 1] == 0
  {
  }

  /** The three sizes of an entry take at most five bytes each. */
  lemma EntryIsShort(e: KeyValue)
    requires |e.key| < TWO_TO_THE_32 && |e.value| < TWO_TO_THE_32
    ensures forall shared: nat :: shared <= |e.key| ==> |EntryBytes(e, shared)| <= |e.key| + |e.value| + 15
  {
    forall shared: nat | shared <= |e.key|
      ensures |EntryBytes(e, shared)| <= |e.key| + |e.value| + 15
    {
      VarintSizes(shared);
      VarintSizes(|e.key| - shared);
      VarintSizes(|e.value|);
    }
  }

  /** How much of the last key to share. */
  method SharedLength(last: seq<Byte>, key: seq<Byte>) returns (shared: nat)
    ensures shared <= |last| && shared <= |key| && last[..shared] == key[..shared]
    ensures shared < |last| && shared < |key| ==> last[shared] != key[shared]
  {
    var minLength := if |last| < |key| then |last| else |key|;
    shared := 0;
    while shared < minLength && last[shared] == key[shared]
      invariant shared <= minLength && last[..shared] == key[..shared]
    {
      shared := shared + 1;
    }
  }

  lemma LastRestart(b: Layout, j: nat)
    requires Proper(b) && j < |b.restarts|
    ensures b.entries != [] ==> b.restarts[j] < |b.entries|
  {
  }

  lemma RestartBounds(b: Layout)
    requires Proper(b)
    ensures forall j :: 0 <= j < |b.restarts| ==> b.restarts[j] <= |b.entries|
    ensures |b.restarts| > 0 && |b.entries| == |b.shared|
  {
  }

  function Extended(b: Layout, e: KeyValue, shared: nat, restart: bool): Layout {
    Layout(b.entries + [e], b.shared + [shared], if restart then b.restarts + [|b.entries|] else b.restarts)
  }

  lemma ExtendedIsProper(less: Order, b: Layout, e: KeyValue, shared: nat, restart: bool)
    requires Proper(b) && |e.key| < TWO_TO_THE_32 && |e.value| < TWO_TO_THE_32 && shared <= |e.key|
    requires b.entries == [] ==> shared == 0 && !restart
    requires b.entries != [] ==>
               var last := b.entries[|b.entries| - 1].key;
               shared <= |last| && e.key[..shared] == last[..shared]
    requires restart ==> shared == 0 && b.restarts[|b.restarts| - 1] < |b.entries|
    requires Transitive(less) && Ascending(less, b.entries)
    requires b.entries != [] ==> less(b.entries[|b.entries| - 1].key, e.key)
    ensures Proper(Extended(b, e, shared, restart)) && Ascending(less, b.entries + [e])
  {
    hide ProperEntries, ProperRestarts, Ascending, Transitive;
    ExtendedEntries(b, e, shared, restart);
    ExtendedRestarts(b, e, shared, restart);
    ExtendedAscends(less, b.entries, e);
  }

  /** A restart point comes after a whole interval; any other entry shares all that it can. */
  lemma ExtendedIsRegular(b: Layout, e: KeyValue, shared: nat, restart: bool, interval: nat)
    requires Proper(b) && Regular(b, interval) && interval > 0
    requires var since := |b.entries| - b.restarts[|b.restarts| - 1]; restart <==> since >= interval
    requires !restart && b.entries != [] ==>
               var last := b.entries[|b.entries| - 1].key;
               shared < |last| && shared < |e.key| ==> last[shared] != e.key[shared]
    ensures Regular(Extended(b, e, shared, restart), interval)
  {
    hide ProperEntries, ProperRestarts, SharesAll;
    SameLengths(b);
    var n := Extended(b, e, shared, restart);
    if restart {
      assert n.restarts[..|b.restarts|] == b.restarts;
      assert n.restarts[|n.restarts| - 1] == |b.entries|;
    }
    forall i | 0 < i < |n.entries| && i !in n.restarts
      ensures SharesAll(n, i)
    {
      ExtendedShares(b, e, shared, restart, i);
    }
  }

  lemma ExtendedShares(b: Layout, e: KeyValue, shared: nat, restart: bool, i: nat)
    requires |b.entries| == |b.shared| && 0 < i <= |b.entries| && i !in Extended(b, e, shared, restart).restarts
    requires forall j :: 0 < j < |b.entries| && j !in b.restarts ==> SharesAll(b, j)
    requires !restart && b.entries != [] ==>
               var last := b.entries[|b.entries| - 1].key;
               shared < |last| && shared < |e.key| ==> last[shared] != e.key[shared]
    ensures SharesAll(Extended(b, e, shared, restart), i)
  {
    var n := Extended(b, e, shared, restart);
    assert restart ==> n.restarts[|b.restarts|] == |b.entries|;
    if i < |b.entries| {
      assert i !in b.restarts;
      assert SharesAll(b, i);
      assert n.entries[i - 1] == b.entries[i - 1] && n.entries[i] == b.entries[i] && n.shared[i] == b.shared[i];
    }
  }

  lemma ExtendedEntries(b: Layout, e: KeyValue, shared: nat, restart: bool)
    requires ProperEntries(b) && |e.key| < TWO_TO_THE_32 && |e.value| < TWO_TO_THE_32 && shared <= |e.key|
    requires b.entries == [] ==> shared == 0
    requires b.entries != [] ==>
               var last := b.entries[|b.entries| - 1].key;
               shared <= |last| && e.key[..shared] == last[..shared]
    ensures ProperEntries(Extended(b, e, shared, restart))
  {
    var n := Extended(b, e, shared, restart);
    forall i | 0 <= i < |n.entries|
      ensures SharesPrefix(n, i)
    {
      if i < |b.entries| {
        assert SharesPrefix(b, i);
      }
    }
  }

  lemma ExtendedRestarts(b: Layout, e: KeyValue, shared: nat, restart: bool)
    requires |b.entries| == |b.shared| && ProperRestarts(b) && (b.entries == [] ==> shared == 0 && !restart)
    requires restart ==> shared == 0 && b.restarts[|b.restarts| - 1] < |b.entries|
    ensures ProperRestarts(Extended(b, e, shared, restart))
  {
  }

  lemma ExtendedAscends(less: Order, entries: seq<KeyValue>, e: KeyValue)
    requires Transitive(less) && Ascending(less, entries)
    requires entries != [] ==> less(entries[|entries| - 1].key, e.key)
    ensures Ascending(less, entries + [e])
  {
    var more := entries + [e];
    forall i, j | 0 <= i < j < |more|
      ensures less(more[i].key, more[j].key)
    {
      if j == |entries| && i < j - 1 {
        assert less(entries[i].key, entries[j - 1].key);
      }
    }
  }

  lemma {:induction false} SameData(b: Layout, c: Layout, n: nat)
    requires Proper(b) && Proper(c) && n <= |b.entries| && b.entries <= c.entries && b.shared <= c.shared
    ensures Data(b, n) == Data(c, n)
  {
    hide Proper, EntryBytes, SharesPrefix;
    if n > 0 {
      SameData(b, c, n - 1);
      Share(b, n - 1);
      Share(c, n - 1);
      assert b.entries[n - 1] == c.entries[n - 1] && b.shared[n - 1] == c.shared[n - 1];
    }
  }

  lemma Share(b: Layout, i: nat)
    requires Proper(b) && i < |b.entries|
    ensures |b.shared| == |b.entries| && b.shared[i] <= |b.entries[i].key|
    ensures Data(b, i + 1) == Data(b, i) + EntryBytes(b.entries[i], b.shared[i])
  {
    hide EntryBytes;
    assert SharesPrefix(b, i);
  }

  lemma ExtendedData(b: Layout, e: KeyValue, shared: nat, restart: bool, buffer: seq<Byte>)
    requires Proper(b) && Proper(Extended(b, e, shared, restart)) && shared <= |e.key|
    requires buffer == Data(b, |b.entries|) + EntryBytes(e, shared)
    ensures var n := Extended(b, e, shared, restart);
            && buffer == Data(n, |n.entries|)
            && forall i :: 0 <= i <= |b.entries| ==> Offset(n, i) == Offset(b, i)
  {
    hide Proper, EntryBytes, SharesPrefix, Data;
    var n := Extended(b, e, shared, restart);
    forall i | 0 <= i <= |b.entries|
      ensures Data(n, i) == Data(b, i)
    {
      SameLengths(b);
      SameData(b, n, i);
    }
    SameLengths(b);
    Share(n, |b.entries|);
  }

  lemma SameLengths(b: Layout)
    requires Proper(b)
    ensures |b.entries| == |b.shared| && b.restarts != []
  {
  }

  lemma {:induction false} OffsetsGrow(b: Layout, i: nat, j: nat)
    requires Proper(b) && i <= j <= |b.entries|
    ensures Offset(b, i) + 3 * (j - i) <= Offset(b, j)
    decreases j
  {
    hide Proper, SharesPrefix, EntryBytes;
    if i < j {
      OffsetsGrow(b, i, j - 1);
      EntryHasBytes(b, j - 1);
    }
  }

  lemma EntryHasBytes(b: Layout, i: nat)
    requires Proper(b) && i < |b.entries|
    ensures Offset(b, i + 1) >= Offset(b, i) + 3
  {
    assert SharesPrefix(b, i);
  }

  lemma OffsetsFit(b: Layout)
    requires Proper(b) && |Finished(b)| < TWO_TO_THE_32
    ensures forall j :: 0 <= j < |b.restarts| ==> Offset(b, b.restarts[j]) < TWO_TO_THE_32
    ensures |b.restarts| < TWO_TO_THE_32
  {
    hide EntryBytes, Data, LittleEndian;
    forall j | 0 <= j < |b.restarts|
      ensures Offset(b, b.restarts[j]) < TWO_TO_THE_32
    {
      OffsetsGrow(b, b.restarts[j], |b.entries|);
    }
  }
}
