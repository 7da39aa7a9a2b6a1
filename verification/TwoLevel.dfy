/** The two-level iterator (table/two_level_iterator.cc): an index of blocks, some perhaps empty, read as one run of
    entries. It serves tables and the files of a sorted level alike. */
module TwoLevelIterators {
  import opened Coding
  import opened Blocks
  import InternalKeys

  /** The blocks that an index points to, one after the other. `open` gives a block's entries for its handle. */
  function Run(index: seq<KeyValue>, open: seq<Byte> -> seq<KeyValue>, n: nat): seq<KeyValue>
    requires n <= |index|
  {
    if n == 0 then [] else Run(index, open, n - 1) + open(index[n - 1].value)
  }

  /** Each index key is at or after the keys of its block, and before those of later blocks. */
  ghost predicate Separated(less: Order, index: seq<KeyValue>, open: seq<Byte> -> seq<KeyValue>) {
    && (forall i, e :: 0 <= i < |index| && e in open(index[i].value) ==> !less(index[i].key, e.key))
    && (forall i, j, e :: 0 <= i < j < |index| && e in open(index[j].value) ==> less(index[i].key, e.key))
  }

  /** A total preorder: what is below one of two keys is below the other, or the other is between them. */
  ghost predicate Ordering(less: Order) {
    && Transitive(less)
    && (forall a, b, c :: less(a, c) ==> less(a, b) || less(b, c))
    && (forall a :: !less(a, a))
  }

  /** A child's seek: the first entry at or after a key. */
  function SeekIn(less: Order, entries: seq<KeyValue>, k: seq<Byte>): (p: nat)
    ensures p <= |entries|
    ensures forall j :: 0 <= j < p ==> less(entries[j].key, k)
    ensures p < |entries| ==> !less(entries[p].key, k)
  {
    if entries == [] || !less(entries[0].key, k) then 0
    else
      var p := SeekIn(less, entries[1..], k);
      assert forall j :: 1 <= j <= p ==> entries[j] == entries[1..][j - 1];
      1 + p
  }

  lemma {:induction false} RunGrows(index: seq<KeyValue>, open: seq<Byte> -> seq<KeyValue>, m: nat, n: nat)
    requires m <= n <= |index|
    ensures Run(index, open, m) <= Run(index, open, n)
    decreases n
  {
    if m < n {
      RunGrows(index, open, m, n - 1);
    }
  }

  /** Where a block's entries stand in the whole run. */
  lemma BlockInRun(index: seq<KeyValue>, open: seq<Byte> -> seq<KeyValue>, b: nat)
    requires b < |index|
    ensures var start, all := |Run(index, open, b)|, Run(index, open, |index|);
            && |Run(index, open, b + 1)| == start + |open(index[b].value)| <= |all|
            && forall p :: 0 <= p < |open(index[b].value)| ==> all[start + p] == open(index[b].value)[p]
  {
    RunGrows(index, open, b + 1, |index|);
    var all, part := Run(index, open, |index|), Run(index, open, b + 1);
    assert all[..|part|] == part;
  }

  class TwoLevelIterator {
    const less: Order
    const index: seq<KeyValue>
    const open: seq<Byte> -> seq<KeyValue>
    var indexPos: nat                              // past the end of the index it is not valid
    var data: InternalKeys.Option<seq<KeyValue>>   // the block being read, if any
    var dataPos: nat
    var dataHandle: seq<Byte>                      // its handle

    /** The block being read is the one the index stands at. */
    ghost predicate Valid()
      reads this
    {
      && indexPos <= |index| && (data.Some? ==> indexPos < |index| && dataPos < |data.value|) && Loaded()
      && (data.Some? ==> dataHandle == index[indexPos].value)
    }

    ghost predicate Loaded()
      reads this
    {
      data.Some? ==> data.value == open(dataHandle) && dataPos <= |data.value|
    }

    ghost function Entries(): seq<KeyValue> {
      Run(index, open, |index|)
    }

    /** The position in the run; past its end the iterator is not valid. */
    ghost function Position(): nat
      reads this
      requires indexPos <= |index|
    {
      if data.None? then |Entries()| else |Run(index, open, indexPos)| + dataPos
    }

    constructor (less: Order, index: seq<KeyValue>, open: seq<Byte> -> seq<KeyValue>)
      ensures Valid() && this.less == less && this.index == index && this.open == open
      ensures Position() == |Entries()|
    {
      this.less, this.index, this.open := less, index, open;
      indexPos, data, dataPos, dataHandle := |index|, InternalKeys.None, 0, [];
    }

    /** key() and value() */
    method Entry() returns (e: KeyValue)
      requires Valid() && data.Some?
      ensures Position() < |Entries()| && e == Entries()[Position()]
    {
      BlockInRun(index, open, indexPos);
      e := data.value[dataPos];
    }

    /** The block that the index stands at; one that is already open is kept. */
    method InitDataBlock()
      requires indexPos <= |index| && Loaded()
      modifies this`data, this`dataPos, this`dataHandle
      ensures Loaded() && (data.Some? <==> indexPos < |index|)
      ensures data.Some? ==> dataHandle == index[indexPos].value && data.value == open(dataHandle)
    {
      if indexPos >= |index| {
        data := InternalKeys.None;
      } else {
        var handle := index[indexPos].value;
        if data.None? || handle != dataHandle {
          data, dataPos, dataHandle := InternalKeys.Some(open(handle)), 0, handle;
        }
      }
    }

    /** From the end of a block on to the first entry of the next block that has one. */
    method SkipEmptyDataBlocksForward(ghost at: nat)
      requires indexPos <= |index| && Loaded()
      requires data.Some? ==> indexPos < |index| && dataHandle == index[indexPos].value
      requires data.None? ==> indexPos == |index|
      requires at == if data.None? then |Entries()| else |Run(index, open, indexPos)| + dataPos
      modifies this
      ensures Valid() && Position() == at
    {
      hide Run;
      while data.None? || dataPos >= |data.value|
        invariant indexPos <= |index| && Loaded()
        invariant data.Some? ==> indexPos < |index| && dataHandle == index[indexPos].value
        invariant data.None? ==> indexPos == |index|
        invariant at == if data.None? then |Entries()| else |Run(index, open, indexPos)| + dataPos
        decreases |index| - indexPos, data.Some?
      {
        if indexPos >= |index| {
          data := InternalKeys.None;
          return;
        }
        BlockInRun(index, open, indexPos);
        indexPos := indexPos + 1;
        InitDataBlock();
        if data.Some? {
          dataPos := 0;
        }
      }
    }

    /** From before a block back to the last entry of the previous block that has one. */
    method SkipEmptyDataBlocksBackward(ghost at: int)
      requires indexPos <= |index| && Loaded()
      requires data.Some? ==>
                 && indexPos < |index| && dataHandle == index[indexPos].value
                 && (dataPos < |data.value| ==> at == |Run(index, open, indexPos)| + dataPos)
                 && (dataPos >= |data.value| ==> at == |Run(index, open, indexPos)| - 1)
      requires data.None? ==> indexPos == |index| && at == -1
      modifies this
      ensures Valid() && Position() == if at < 0 then |Entries()| else at
    {
      hide Run;
      while data.None? || dataPos >= |data.value|
        invariant indexPos <= |index| && Loaded()
        invariant data.Some? ==>
                    && indexPos < |index| && dataHandle == index[indexPos].value
                    && (dataPos < |data.value| ==> at == |Run(index, open, indexPos)| + dataPos)
                    && (dataPos >= |data.value| ==> at == |Run(index, open, indexPos)| - 1)
        invariant data.None? ==> indexPos == |index| && at == -1
        decreases if data.None? then 0 else indexPos + 1
      {
        if indexPos >= |index| {
          data := InternalKeys.None;
          return;
        }
        StartOfRun(index, open);
        if indexPos == 0 {
          indexPos := |index|;
        } else {
          indexPos := indexPos - 1;
          BlockInRun(index, open, indexPos);
        }
        InitDataBlock();
        if data.Some? {
          dataPos := if |data.value| == 0 then 0 else |data.value| - 1;
        }
      }
    }

    method SeekToFirst()
      requires Valid()
      modifies this
      ensures Valid() && Position() == 0
    {
      hide Run;
      StartOfRun(index, open);
      indexPos := 0;
      InitDataBlock();
      if data.Some? {
        dataPos := 0;
      }
      SkipEmptyDataBlocksForward(0);
    }

    method SeekToLast()
      requires Valid()
      modifies this
      ensures Valid() && Position() == if Entries() == [] then 0 else |Entries()| - 1
    {
      hide Run;
      StartOfRun(index, open);
      indexPos := if |index| == 0 then 0 else |index| - 1;
      InitDataBlock();
      if data.Some? {
        BlockInRun(index, open, indexPos);
        dataPos := if |data.value| == 0 then 0 else |data.value| - 1;
      }
      SkipEmptyDataBlocksBackward(|Entries()| - 1);
    }

    method Next()
      requires Valid() && data.Some?
      modifies this
      ensures Valid() && Position() == old(Position()) + 1
    {
      hide Run;
      ghost var at := Position() + 1;
      dataPos := dataPos + 1;
      SkipEmptyDataBlocksForward(at);
    }

    method Prev()
      requires Valid() && data.Some?
      modifies this
      ensures Valid() && Position() == if old(Position()) == 0 then |Entries()| else old(Position()) - 1
    {
      hide Run;
      ghost var at := Position() - 1;
      dataPos := if dataPos == 0 then |data.value| else dataPos - 1;
      SkipEmptyDataBlocksBackward(at);
    }

    /** The first entry at or after a key. */
    method Seek(target: seq<Byte>)
      requires Valid() && Ordering(less) && Separated(less, index, open)
      modifies this
      ensures Valid() && Position() <= |Entries()|
      ensures forall j :: 0 <= j < Position() ==> less(Entries()[j].key, target)
      ensures Position() < |Entries()| ==> !less(Entries()[Position()].key, target)
    {
      hide Run, SeekIn, Ordering, Separated, Transitive;
      indexPos := SeekIn(less, index, target);
      InitDataBlock();
      if data.Some? {
        dataPos := SeekIn(less, data.value, target);
      }
      ghost var b, p := indexPos, if data.Some? then dataPos else 0;
      ghost var at := if data.None? then |Entries()| else |Run(index, open, b)| + p;
      SoughtBlock(less, index, open, target, b, p);
      SkipEmptyDataBlocksForward(at);
      assert Position() == at;
    }
  }

  lemma StartOfRun(index: seq<KeyValue>, open: seq<Byte> -> seq<KeyValue>)
    ensures Run(index, open, 0) == []
  {
  }

  /** The block and the place of an entry of the run. */
  lemma {:induction false} WhereInRun(index: seq<KeyValue>, open: seq<Byte> -> seq<KeyValue>, n: nat, i: nat)
    returns (b: nat, p: nat)
    requires n <= |index| && i < |Run(index, open, n)|
    ensures b < n && p < |open(index[b].value)| && i == |Run(index, open, b)| + p
  {
    if i < |Run(index, open, n - 1)| {
      b, p := WhereInRun(index, open, n - 1, i);
    } else {
      b, p := n - 1, i - |Run(index, open, n - 1)|;
    }
  }

  lemma SameBlock(index: seq<KeyValue>, open: seq<Byte> -> seq<KeyValue>, b: nat, c: nat)
    requires b <= |index| && c <= |index|
    ensures c < b ==> |Run(index, open, c + 1)| <= |Run(index, open, b)|
    ensures b <= c ==> |Run(index, open, b)| <= |Run(index, open, c)|
  {
    if c < b {
      RunGrows(index, open, c + 1, b);
    } else {
      RunGrows(index, open, b, c);
    }
  }

  lemma Between(less: Order, a: seq<Byte>, b: seq<Byte>, c: seq<Byte>)
    requires Ordering(less)
    ensures less(a, c) ==> less(a, b) || less(b, c)
    ensures less(a, b) && less(b, c) ==> less(a, c)
  {
  }

  /** Everything before the place sought is below the key, and what follows it is not. */
  lemma SoughtBlock(less: Order, index: seq<KeyValue>, open: seq<Byte> -> seq<KeyValue>, k: seq<Byte>, b: nat, p: nat)
    requires Ordering(less) && Separated(less, index, open) && b == SeekIn(less, index, k)
    requires p == if b < |index| then SeekIn(less, open(index[b].value), k) else 0
    ensures var all := Run(index, open, |index|); var at := |Run(index, open, b)| + p;
            && at <= |all|
            && (forall j :: 0 <= j < at ==> less(all[j].key, k))
            && (at < |all| ==> !less(all[at].key, k))
  {
    hide Run, SeekIn;
    var all := Run(index, open, |index|);
    var at := |Run(index, open, b)| + p;
    RunGrows(index, open, b, |index|);
    if b < |index| {
      BlockInRun(index, open, b);
    }
    forall j | 0 <= j < at
      ensures less(all[j].key, k)
    {
      if j < |Run(index, open, b)| {
        var c, q := WhereInRun(index, open, b, j);
        BlockInRun(index, open, c);
        var e := open(index[c].value)[q];
        assert all[j] == e && e in open(index[c].value) && less(index[c].key, k) && !less(index[c].key, e.key);
        Between(less, index[c].key, e.key, k);
      } else {
        assert all[j] == open(index[b].value)[j - |Run(index, open, b)|];
      }
    }
    if at < |all| {
      var c, q := WhereInRun(index, open, |index|, at);
      BlockInRun(index, open, c);
      var e := open(index[c].value)[q];
      assert all[at] == e && e in open(index[c].value);
      SameBlock(index, open, b, c);
      if c > b {
        assert less(index[b].key, e.key) && !less(index[b].key, k);
        Between(less, index[b].key, e.key, k);
      }
    }
  }
}
