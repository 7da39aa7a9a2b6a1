/** Reading a finished block (table/block.cc): a cursor over exactly the entries that were added. */
module BlockIters {
  import opened Coding
  import opened Varints
  import opened VarintCodec
  import opened Blocks

  /** The three sizes, by the short path when each takes one byte. */
  method ReadSizes(input: seq<Byte>, ghost a: nat, ghost b: nat, ghost c: nat, ghost tail: seq<Byte>)
    returns (ok: bool, shared: nat, nonShared: nat, valueLength: nat, left: seq<Byte>)
    requires |input| >= 3
    ensures |left| <= |input|
    ensures a < TWO_TO_THE_32 && b < TWO_TO_THE_32 && c < TWO_TO_THE_32 &&
            input == Varint(a) + (Varint(b) + (Varint(c) + tail)) ==>
              ok && shared == a && nonShared == b && valueLength == c && left == tail
  {
    hide Varint, Reads32, IsVarint;
    ok, shared, nonShared, valueLength, left := true, 0, 0, 0, input;
    if input[0] < 128 && input[1] < 128 && input[2] < 128 {
      SmallVarint(a, Varint(b) + (Varint(c) + tail));
      SmallVarint(b, Varint(c) + tail);
      SmallVarint(c, tail);
      shared, nonShared, valueLength, left := input[0], input[1], input[2], input[3..];
    } else {
      ok, shared, left := GetVarint32(left, a, Varint(b) + (Varint(c) + tail));
      if ok {
        ok, nonShared, left := GetVarint32(left, b, Varint(c) + tail);
      }
      if ok {
        ok, valueLength, left := GetVarint32(left, c, tail);
      }
    }
  }

  /** DecodeEntry: the three sizes at `p`, and where the key delta starts. */
  method DecodeEntry(data: seq<Byte>, p: nat, limit: nat, ghost e: KeyValue, ghost share: nat, ghost rest: seq<Byte>)
    returns (ok: bool, shared: nat, nonShared: nat, valueLength: nat, at: nat)
    requires p <= limit <= |data| && share <= |e.key| < TWO_TO_THE_32 && |e.value| < TWO_TO_THE_32
    ensures ok ==> at + nonShared + valueLength <= limit
    ensures data[p..limit] == EntryBytes(e, share) + rest ==>
              && ok && shared == share && nonShared == |e.key| - share && valueLength == |e.value|
              && data[at..at + nonShared] == e.key[share..]
              && data[at + nonShared..at + nonShared + valueLength] == e.value
              && at + nonShared + valueLength == p + |EntryBytes(e, share)|
  {
    hide Varint, EntryBytes;
    var input := data[p..limit];
    ghost var tail := e.key[share..] + e.value + rest;
    ghost var good := input == EntryBytes(e, share) + rest;
    EntryParts(e, share, rest);
    EntryIsLong(e, share, rest);
    ok, shared, nonShared, valueLength, at := false, 0, 0, 0, p;
    if limit - p < 3 {
      return;
    }
    var left: seq<Byte>;
    ok, shared, nonShared, valueLength, left := ReadSizes(input, share, |e.key| - share, |e.value|, tail);
    at := limit - |left|;
    ok := ok && |left| >= nonShared + valueLength;
    if good {
      TailParts(data, p, limit, at, e, share, rest, input);
    }
  }

  lemma EntryParts(e: KeyValue, share: nat, rest: seq<Byte>)
    requires share <= |e.key|
    ensures EntryBytes(e, share) + rest
         == Varint(share) + (Varint(|e.key| - share) + (Varint(|e.value|) + (e.key[share..] + e.value + rest)))
  {
    hide Varint;
    var a, b, c := Varint(share), Varint(|e.key| - share), Varint(|e.value|);
    var k, v := e.key[share..], e.value;
    assert a + b + c + k + v + rest == a + (b + (c + (k + v + rest)));
  }

  lemma EntryIsLong(e: KeyValue, share: nat, rest: seq<Byte>)
    requires share <= |e.key|
    ensures |EntryBytes(e, share) + rest| >= 3
  {
  }

  /** A varint that starts with an unmarked byte is that byte. */
  lemma SmallVarint(n: nat, rest: seq<Byte>)
    ensures (Varint(n) + rest)[0] < 128 ==> (Varint(n) + rest)[0] == n && (Varint(n) + rest)[1..] == rest
  {
  }

  lemma TailParts(data: seq<Byte>, p: nat, limit: nat, at: nat, e: KeyValue, share: nat, rest: seq<Byte>, input: seq<Byte>)
    requires p <= at <= limit <= |data| && share <= |e.key| && input == data[p..limit]
    requires input == EntryBytes(e, share) + rest
    requires |e.key[share..] + e.value + rest| == limit - at
    ensures |e.key| - share + |e.value| <= limit - at
    ensures data[at..at + (|e.key| - share)] == e.key[share..]
    ensures data[at + (|e.key| - share)..at + (|e.key| - share) + |e.value|] == e.value
    ensures at + (|e.key| - share) + |e.value| == p + |EntryBytes(e, share)|
  {
    hide Varint;
    var k, v := e.key[share..], e.value;
    var head := Varint(share) + Varint(|e.key| - share) + Varint(|e.value|);
    assert EntryBytes(e, share) + rest == head + (k + v + rest);
    SliceAfter(data, p, limit, at, head, k + v + rest);
    SliceFront(data, at, limit, k, v, rest);
  }

  lemma SliceAfter(data: seq<Byte>, p: nat, limit: nat, at: nat, head: seq<Byte>, tail: seq<Byte>)
    requires p <= at <= limit <= |data| && data[p..limit] == head + tail && |tail| == limit - at
    ensures data[at..limit] == tail && |head| == at - p
  {
    assert |data[p..limit]| == |head| + |tail|;
    SliceOfSlice(data, p, at, limit);
    AfterHead(head, tail);
  }

  lemma SliceOfSlice(data: seq<Byte>, a: nat, b: nat, c: nat)
    requires a <= b <= c <= |data|
    ensures data[a..c][b - a..] == data[b..c]
  {
    var x, y := data[a..c][b - a..], data[b..c];
    forall q | 0 <= q < c - b
      ensures x[q] == y[q]
    {
      assert x[q] == data[a..c][b - a + q] == data[b + q];
    }
  }

  lemma PartOfSlice(data: seq<Byte>, a: nat, c: nat, i: nat, j: nat)
    requires i <= j && a + j <= c <= |data|
    ensures data[a..c][i..j] == data[a + i..a + j]
  {
    var x, y := data[a..c][i..j], data[a + i..a + j];
    forall q | 0 <= q < j - i
      ensures x[q] == y[q]
    {
      assert x[q] == data[a..c][i + q] == data[a + i + q];
    }
  }

  lemma Parts(k: seq<Byte>, v: seq<Byte>, rest: seq<Byte>)
    ensures (k + v + rest)[0..|k|] == k && (k + v + rest)[|k|..|k| + |v|] == v
  {
  }

  lemma AfterHead(head: seq<Byte>, tail: seq<Byte>)
    ensures (head + tail)[|head|..] == tail
  {
  }

  lemma SliceFront(data: seq<Byte>, at: nat, limit: nat, k: seq<Byte>, v: seq<Byte>, rest: seq<Byte>)
    requires at <= limit <= |data| && data[at..limit] == k + v + rest
    ensures |k| + |v| <= limit - at && data[at..at + |k|] == k && data[at + |k|..at + |k| + |v|] == v
  {
    assert |data[at..limit]| == |k| + |v| + |rest|;
    PartOfSlice(data, at, limit, 0, |k|);
    PartOfSlice(data, at, limit, |k|, |k| + |v|);
    Parts(k, v, rest);
  }

  class BlockIter {
    const data: seq<Byte>
    const restartsAt: nat         // where the entries end and the restart array starts
    const numRestarts: nat
    const less: Order
    ghost const layout: Layout
    var current: nat
    var restartIndex: nat
    var key: seq<Byte>
    var valueStart: nat
    var valueSize: nat
    ghost var at: nat             // the entry it stands at; the number of entries when it is not valid

    /** The block is what the builder finished. */
    ghost predicate Holds() {
      && Transitive(less) && Ascending(less, layout.entries)
      && Proper(layout) && data == Finished(layout) && |data| < TWO_TO_THE_32
      && restartsAt == Offset(layout, |layout.entries|) && numRestarts == |layout.restarts|
    }

    ghost predicate StandsAt(i: nat)
      requires Holds()
      reads this
    {
      && i <= |layout.entries|
      && (i == |layout.entries| ==> current == restartsAt)
      && (i < |layout.entries| ==>
            && current == Offset(layout, i) && key == layout.entries[i].key
            && valueStart + valueSize == Offset(layout, i + 1) <= |data|
            && data[valueStart..valueStart + valueSize] == layout.entries[i].value
            && restartIndex < numRestarts && layout.restarts[restartIndex] <= i)
    }

    ghost predicate Valid()
      reads this
    {
      Holds() && StandsAt(at)
    }

    predicate IsValid()
      reads this
    {
      current < restartsAt
    }

    lemma ValidMeansEntry()
      requires Valid()
      ensures IsValid() <==> at < |layout.entries|
    {
      hide Data, RestartBytes, Ascending, Transitive, Finished, EntryBytes;
      OffsetsGrow(layout, at, |layout.entries|);
    }

    /** key() and value() */
    method Entry() returns (e: KeyValue)
      requires Valid() && at < |layout.entries|
      ensures e == layout.entries[at]
    {
      hide Data, RestartBytes, Ascending, Transitive, Finished, EntryBytes;
      e := KeyValue(key, data[valueStart..valueStart + valueSize]);
    }

    /** The next entry to parse is entry `i`, and the key at hand has what it shares. */
    ghost predicate Before(i: nat)
      requires Holds()
      reads this
    {
      && i <= |layout.entries| && valueStart + valueSize == Offset(layout, i)
      && restartIndex < numRestarts && layout.restarts[restartIndex] <= i
      && (i < |layout.entries| ==>
            var share := layout.shared[i];
            && share <= |key| && share <= |layout.entries[i].key| && key[..share] == layout.entries[i].key[..share])
    }

    constructor (less: Order, block: seq<Byte>, ghost layout: Layout)
      requires Transitive(less) && Ascending(less, layout.entries)
      requires Proper(layout) && block == Finished(layout) && |block| < TWO_TO_THE_32
      ensures Valid() && this.layout == layout && this.less == less && at == |layout.entries|
    {
      hide Data, RestartBytes, Ascending, Transitive;
      BlockSize(layout);
      this.less, this.data, this.layout := less, block, layout;
      var count := DecodeFixed32(block[|block| - 4..]);
      numRestarts := count;
      restartsAt := |block| - (1 + count) * 4;
      current, restartIndex := |block| - (1 + count) * 4, count;
      key, valueStart, valueSize, at := [], 0, 0, |layout.entries|;
    }

    method GetRestartPoint(index: nat) returns (offset: nat)
      requires Holds() && index < numRestarts
      ensures layout.restarts[index] <= |layout.entries| && offset == Offset(layout, layout.restarts[index])
    {
      hide Data, RestartBytes;
      RestartAt(layout, index);
      offset := DecodeFixed32(data[restartsAt + index * 4..]);
    }

    method SeekToRestartPoint(index: nat)
      requires Holds() && index < numRestarts
      modifies this`key, this`restartIndex, this`valueStart, this`valueSize
      ensures layout.restarts[index] <= |layout.entries| && Before(layout.restarts[index]) && restartIndex == index
    {
      hide Data, RestartBytes, Ascending, Transitive;
      key := [];
      restartIndex := index;
      var offset := GetRestartPoint(index);
      valueStart, valueSize := offset, 0;
    }

    /** ParseNextKey */
    method ParseNextKey(ghost i: nat) returns (more: bool)
      requires Holds() && Before(i)
      modifies this
      ensures Valid() && at == i && (more <==> i < |layout.entries|)
    {
      hide Data, RestartBytes, Ascending, EntryBytes, Proper, Transitive, Finished;
      Bounds(layout);
      at := i;
      current := valueStart + valueSize;
      OffsetsGrow(layout, i, |layout.entries|);
      if current >= restartsAt {
        current := restartsAt;
        restartIndex := numRestarts;
        return false;
      }
      var ok, shared, nonShared, valueLength, p;
      ghost var e, share := layout.entries[i], layout.shared[i];
      ghost var rest := EntryAt(layout, i, data, restartsAt);
      ok, shared, nonShared, valueLength, p := DecodeEntry(data, current, restartsAt, e, share, rest);
      assert ok && |key| >= shared;
      assert e.key[..share] + e.key[share..] == e.key;
      key := key[..shared] + data[p..p + nonShared];
      valueStart, valueSize := p + nonShared, valueLength;
      assert StandsAt(i);
      AdvanceRestart(i);
      more := true;
    }

    /** Keep the restart index at the last restart point before the current entry. */
    method AdvanceRestart(ghost i: nat)
      requires Holds() && i < |layout.entries| && StandsAt(i)
      modifies this`restartIndex
      ensures StandsAt(i)
    {
      hide Data, RestartBytes, Ascending, Transitive, Finished;
      while restartIndex + 1 < numRestarts
        invariant StandsAt(i)
        decreases numRestarts - restartIndex
      {
        var point := GetRestartPoint(restartIndex + 1);
        if point >= current {
          break;
        }
        if layout.restarts[restartIndex + 1] > i {
          OffsetsGrow(layout, i, layout.restarts[restartIndex + 1]);
        }
        restartIndex := restartIndex + 1;
      }
    }

    method SeekToFirst()
      requires Valid()
      modifies this
      ensures Valid() && at == 0
    {
      hide Data, RestartBytes, Ascending, Transitive, Finished, EntryBytes;
      SeekToRestartPoint(0);
      var _ := ParseNextKey(0);
    }

    /** The entry after the current one shares its prefix with the current key. */
    method Next()
      requires Valid() && at < |layout.entries|
      modifies this
      ensures Valid() && at == old(at) + 1
    {
      hide Data, RestartBytes, Ascending, Transitive, Finished, EntryBytes;
      ReadyForNext();
      var _ := ParseNextKey(at + 1);
    }

    lemma ReadyForNext()
      requires Valid() && at < |layout.entries|
      ensures Before(at + 1)
    {
      hide Data, RestartBytes, Ascending, Transitive, Finished, EntryBytes;
      if at + 1 < |layout.entries| {
        assert SharesPrefix(layout, at + 1);
      }
    }

    method SeekToLast()
      requires Valid()
      modifies this
      ensures Valid() && at == if layout.entries == [] then 0 else |layout.entries| - 1
    {
      hide Data, RestartBytes, Ascending, Transitive, Finished, EntryBytes;
      ghost var n := |layout.entries|;
      SeekToRestartPoint(numRestarts - 1);
      ghost var i := layout.restarts[numRestarts - 1];
      var more := ParseNextKey(i);
      while more && valueStart + valueSize < restartsAt
        invariant Valid() && (more <==> at < n) && (n > 0 ==> more)
        decreases n - at
      {
        OffsetsGrow(layout, at + 1, n);
        ReadyForNext();
        more := ParseNextKey(at + 1);
      }
      if n > 0 && at + 1 < n {
        OffsetsGrow(layout, at + 1, n);
      }
    }

    /** Back up to a restart point before the current entry, then forward to the entry just before it. */
    method Prev()
      requires Valid() && at < |layout.entries|
      modifies this
      ensures Valid() && at == if old(at) == 0 then |layout.entries| else old(at) - 1
    {
      hide Data, RestartBytes, Ascending, Transitive, Finished, EntryBytes;
      ghost var i := at;
      var original := current;
      var point := GetRestartPoint(restartIndex);
      while point >= original
        invariant Holds() && StandsAt(i) && at == i && original == Offset(layout, i)
        invariant layout.restarts[restartIndex] <= |layout.entries|
        invariant point == Offset(layout, layout.restarts[restartIndex])
        decreases restartIndex
      {
        if layout.restarts[restartIndex] < i {
          OffsetsGrow(layout, layout.restarts[restartIndex], i);
        }
        if restartIndex == 0 {
          current, restartIndex := restartsAt, numRestarts;
          at := |layout.entries|;
          return;
        }
        EarlierRestart(layout, restartIndex);
        restartIndex := restartIndex - 1;
        point := GetRestartPoint(restartIndex);
      }
      ghost var from := layout.restarts[restartIndex];
      if from >= i {
        OffsetsGrow(layout, i, from);
      }
      SeekToRestartPoint(restartIndex);
      ScanUpTo(original, from, i);
    }

    /** Parse entries until one ends where entry `i` starts. */
    method ScanUpTo(original: nat, ghost from: nat, ghost i: nat)
      requires Holds() && Before(from) && from < i < |layout.entries| && original == Offset(layout, i)
      modifies this
      ensures Valid() && at == i - 1
    {
      hide Data, RestartBytes, Ascending, Finished, EntryBytes, Proper, Transitive;
      var more := ParseNextKey(from);
      while more && valueStart + valueSize < original
        invariant Valid() && more && from <= at < i
        decreases i - at
      {
        ReadyForNext();
        more := ParseNextKey(at + 1);
      }
      if at + 1 < i {
        OffsetsGrow(layout, at + 1, i);
      }
    }

    /** Whether the key at a restart point, which shares nothing, is below the target. */
    method RestartIsBelow(mid: nat, target: seq<Byte>) returns (below: bool)
      requires Holds() && 1 <= mid < numRestarts
      ensures layout.restarts[mid] < |layout.entries|
      ensures below <==> less(layout.entries[layout.restarts[mid]].key, target)
    {
      hide Data, RestartBytes, Finished, EntryBytes, Proper, Transitive, Ascending;
      Bounds(layout);
      RestartFacts(layout, mid);
      var offset := GetRestartPoint(mid);
      ghost var i := layout.restarts[mid];
      ghost var rest := EntryAt(layout, i, data, restartsAt);
      var ok, shared, nonShared, valueLength, p :=
        DecodeEntry(data, offset, restartsAt, layout.entries[i], layout.shared[i], rest);
      assert layout.entries[i].key[0..] == layout.entries[i].key;
      assert ok && shared == 0;
      below := less(data[p..p + nonShared], target);
    }

    /** Binary search among the restart points, then a scan: the first entry at or after the target. */
    method Seek(target: seq<Byte>)
      requires Valid()
      modifies this
      ensures Valid() && forall j :: 0 <= j < at ==> less(layout.entries[j].key, target)
      ensures at < |layout.entries| ==> !less(layout.entries[at].key, target)
    {
      hide Data, RestartBytes, Finished, EntryBytes, Proper, Transitive;
      Bounds(layout);
      var left: nat, right: nat := 0, numRestarts - 1;
      while left < right
        invariant Holds() && left <= right < numRestarts
        invariant left > 0 ==> layout.restarts[left] < |layout.entries|
                               && less(layout.entries[layout.restarts[left]].key, target)
      {
        var mid := (left + right + 1) / 2;
        var below := RestartIsBelow(mid, target);
        if below {
          left := mid;
        } else {
          right := mid - 1;
        }
      }
      SeekToRestartPoint(left);
      ghost var from := layout.restarts[left];
      BelowStart(less, layout, left, target);
      var more := ParseNextKey(from);
      while more && less(key, target)
        invariant Valid() && (more <==> at < |layout.entries|)
        invariant forall j :: 0 <= j < at ==> less(layout.entries[j].key, target)
        decreases |layout.entries| - at
      {
        ReadyForNext();
        more := ParseNextKey(at + 1);
      }
    }
  }

  lemma Bounds(b: Layout)
    requires Proper(b)
    ensures |b.entries| == |b.shared| && |b.restarts| > 0 && b.restarts[0] == 0
    ensures forall i :: 0 <= i < |b.entries| ==>
              |b.entries[i].key| < TWO_TO_THE_32 && |b.entries[i].value| < TWO_TO_THE_32 && b.shared[i] <= |b.entries[i].key|
  {
    forall i | 0 <= i < |b.entries|
      ensures b.shared[i] <= |b.entries[i].key|
    {
      assert SharesPrefix(b, i);
    }
  }

  lemma RestartFacts(b: Layout, j: nat)
    requires Proper(b) && 1 <= j < |b.restarts|
    ensures b.restarts[j] < |b.entries| == |b.shared| && b.shared[b.restarts[j]] == 0
  {
  }

  lemma EarlierRestart(b: Layout, j: nat)
    requires Proper(b) && 1 <= j < |b.restarts|
    ensures b.restarts[j - 1] < b.restarts[j]
  {
  }

  lemma BelowStart(less: Order, b: Layout, left: nat, target: seq<Byte>)
    requires Transitive(less) && Proper(b) && Ascending(less, b.entries) && left < |b.restarts|
    requires left > 0 ==> b.restarts[left] < |b.entries| && less(b.entries[b.restarts[left]].key, target)
    ensures b.restarts[left] <= |b.entries|
    ensures forall j :: 0 <= j < b.restarts[left] ==> less(b.entries[j].key, target)
  {
    hide SharesPrefix;
    var r := b.restarts[left];
    if left > 0 {
      assert forall j :: 0 <= j < r ==> less(b.entries[j].key, b.entries[r].key);
    }
  }

  lemma {:induction false} DataPrefix(b: Layout, i: nat, n: nat) returns (tail: seq<Byte>)
    requires Proper(b) && i <= n <= |b.entries|
    ensures Data(b, n) == Data(b, i) + tail
    decreases n
  {
    hide Proper, EntryBytes, Data;
    if i == n {
      tail := [];
      assert Data(b, i) + [] == Data(b, i);
    } else {
      var t := DataPrefix(b, i, n - 1);
      Share(b, n - 1);
      var e := EntryBytes(b.entries[n - 1], b.shared[n - 1]);
      tail := t + e;
      assert (Data(b, i) + t) + e == Data(b, i) + (t + e);
    }
  }

  /** An entry's bytes stand at its offset. */
  lemma EntryAt(b: Layout, i: nat, data: seq<Byte>, limit: nat) returns (rest: seq<Byte>)
    requires Proper(b) && i < |b.entries| == |b.shared| && b.shared[i] <= |b.entries[i].key|
    requires data == Finished(b) && limit == Offset(b, |b.entries|)
    ensures Offset(b, i) <= limit <= |data|
    ensures data[Offset(b, i)..limit] == EntryBytes(b.entries[i], b.shared[i]) + rest
    ensures Offset(b, i + 1) == Offset(b, i) + |EntryBytes(b.entries[i], b.shared[i])|
  {
    hide Proper, EntryBytes, Data, RestartBytes;
    rest := DataPrefix(b, i + 1, |b.entries|);
    Share(b, i);
    var head, e := Data(b, i), EntryBytes(b.entries[i], b.shared[i]);
    assert data[..limit] == Data(b, |b.entries|) == head + (e + rest);
    assert data[|head|..limit] == data[..limit][|head|..] == e + rest;
  }

  lemma BlockSize(b: Layout)
    requires Proper(b) && |Finished(b)| < TWO_TO_THE_32
    ensures var block := Finished(b);
            && |block| == Offset(b, |b.entries|) + 4 * |b.restarts| + 4
            && DecodeFixed32(block[|block| - 4..]) == |b.restarts|
  {
    hide Data, RestartBytes, LittleEndian, Proper;
    var block := Finished(b);
    assert block[|block| - 4..] == LittleEndian(|b.restarts|, 4);
    Fixed32RoundTrip(|b.restarts|, []);
    assert LittleEndian(|b.restarts|, 4) + [] == LittleEndian(|b.restarts|, 4);
  }

  lemma {:induction false} RestartPrefix(b: Layout, j: nat, n: nat) returns (tail: seq<Byte>)
    requires Proper(b) && j <= n <= |b.restarts|
    ensures RestartBytes(b, n) == RestartBytes(b, j) + tail
    decreases n
  {
    hide Data, LittleEndian;
    if j == n {
      tail := [];
    } else {
      var t := RestartPrefix(b, j, n - 1);
      tail := t + LittleEndian(Offset(b, b.restarts[n - 1]), 4);
    }
  }

  lemma RestartAt(b: Layout, j: nat)
    requires Proper(b) && j < |b.restarts| && |Finished(b)| < TWO_TO_THE_32
    ensures b.restarts[j] <= |b.entries|
    ensures var limit := Offset(b, |b.entries|);
            && limit + j * 4 + 4 <= |Finished(b)|
            && DecodeFixed32(Finished(b)[limit + j * 4..]) == Offset(b, b.restarts[j])
  {
    hide Data, LittleEndian, DecodeFixed32, EntryBytes;
    var block, limit := Finished(b), Offset(b, |b.entries|);
    var tail := RestartPrefix(b, j + 1, |b.restarts|);
    var word := LittleEndian(Offset(b, b.restarts[j]), 4);
    OffsetsFit(b);
    var after := tail + LittleEndian(|b.restarts|, 4);
    assert RestartBytes(b, j + 1) == RestartBytes(b, j) + word;
    hide RestartBytes;
    assert block == Data(b, |b.entries|) + RestartBytes(b, j) + (word + after);
    assert block[limit + j * 4..] == word + after;
    Fixed32RoundTrip(Offset(b, b.restarts[j]), after);
  }

  // ----- The bytes of a block, part by part -----

  /** An entry: what it shares with the key before, the rest of its length, the length of its value, then the rest
      of the key and the value. */
  lemma EntryForm(b: Layout, i: nat) returns (shared: seq<Byte>, unshared: seq<Byte>, length: seq<Byte>)
    requires Proper(b) && i < |b.entries| == |b.shared| && b.shared[i] <= |b.entries[i].key|
    requires |Finished(b)| < TWO_TO_THE_32
    ensures SaysNumber(shared, b.shared[i]) && SaysNumber(unshared, |b.entries[i].key| - b.shared[i])
    ensures SaysNumber(length, |b.entries[i].value|)
    ensures Offset(b, i) <= Offset(b, i + 1) <= |Finished(b)|
    ensures Finished(b)[Offset(b, i)..Offset(b, i + 1)]
         == shared + unshared + length + b.entries[i].key[b.shared[i]..] + b.entries[i].value
  {
    hide Proper, Data, RestartBytes, SaysNumber, Varint, Finished;
    var e, n, block, limit := b.entries[i], b.shared[i], Finished(b), Offset(b, |b.entries|);
    NumberForm(n);
    NumberForm(|e.key| - n);
    NumberForm(|e.value|);
    shared, unshared, length := Varint(n), Varint(|e.key| - n), Varint(|e.value|);
    var rest := EntryAt(b, i, block, limit);
    AtFront(block, Offset(b, i), limit, EntryBytes(e, n), rest);
  }

  lemma AtFront(data: seq<Byte>, from: nat, limit: nat, front: seq<Byte>, rest: seq<Byte>)
    requires from <= limit <= |data| && data[from..limit] == front + rest
    ensures from + |front| <= |data| && data[from..from + |front|] == front
  {
    assert data[from..from + |front|] == data[from..limit][..|front|];
  }

  /** The block ends with where the restart points stand, four bytes each, and with how many there are. */
  lemma BlockForm(b: Layout)
    requires Proper(b) && |Finished(b)| < TWO_TO_THE_32
    ensures var r := Finished(b); var n := |r| - 4;
            && n >= 4 * |b.restarts| && LowFirst(r, n) == |b.restarts|
            && forall j :: 0 <= j < |b.restarts| ==>
                 b.restarts[j] <= |b.entries| && LowFirst(r, n - 4 * (|b.restarts| - j)) == Offset(b, b.restarts[j])
  {
    hide Proper, Data, RestartBytes, DecodeFixed32, Finished, LowFirst;
    var r := Finished(b);
    BlockSize(b);
    DecodeIsLowFirst(r, |r| - 4);
    forall j | 0 <= j < |b.restarts|
      ensures b.restarts[j] <= |b.entries|
      ensures LowFirst(r, |r| - 4 - 4 * (|b.restarts| - j)) == Offset(b, b.restarts[j])
    {
      RestartAt(b, j);
      DecodeIsLowFirst(r, Offset(b, |b.entries|) + j * 4);
    }
  }
}
