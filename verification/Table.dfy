/** Tables (table/table_builder.cc, table/table.cc, table/format.cc): data blocks, an index of keys that separate
    them, and a filter; a lookup in a table finds what a scan of all its entries would. */
module Tables {
  import opened Coding
  import opened Varints
  import opened VarintCodec
  import opened Blocks
  import opened BlockIters
  import opened Bytewise
  import opened FilterBlocks
  import opened Footers
  import LogFormat
  import InternalKeys

  /** A data block and where it is in the file. */
  datatype Stored = Stored(layout: Layout, offset: nat)

  const NO_COMPRESSION: Byte := 0

  /** A block with its trailer: the type, and the masked checksum of contents and type. */
  function RawBlock(crc: LogFormat.Checksum, contents: seq<Byte>): (r: seq<Byte>)
    ensures |r| == |contents| + 5
  {
    contents + [NO_COMPRESSION] + EncodeFixed32(Mask(crc(contents + [NO_COMPRESSION])))
  }

  /** After the contents one byte of type, and four of checksum over both. */
  lemma TrailerForm(crc: LogFormat.Checksum, contents: seq<Byte>)
    ensures var r := RawBlock(crc, contents); var n := |contents|;
            |r| == n + 5 && r[..n] == contents && r[n] == 0 && LowFirst(r, n + 1) == Mask(crc(contents + [0]))
  {
    hide Mask, EncodeFixed32, LowFirst, DecodeFixed32;
    var r, n := RawBlock(crc, contents), |contents|;
    var word := EncodeFixed32(Mask(crc(contents + [0])));
    assert r[n + 1..] == word + [];
    Fixed32RoundTrip(Mask(crc(contents + [0])), []);
    DecodeIsLowFirst(r, n + 1);
  }

  ghost predicate KeysAreLong(entries: seq<KeyValue>) {
    forall i :: 0 <= i < |entries| ==> |entries[i].key| >= 8
  }

  /** A raw block in a file. */
  ghost predicate RawAt(crc: LogFormat.Checksum, file: seq<Byte>, offset: nat, contents: seq<Byte>) {
    offset + |contents| + 5 <= |file| && file[offset..offset + |contents| + 5] == RawBlock(crc, contents)
  }

  ghost predicate BlockAt(crc: LogFormat.Checksum, file: seq<Byte>, b: Stored) {
    && Proper(b.layout) && b.layout.entries != [] && |Finished(b.layout)| < TWO_TO_THE_32
    && b.offset < TWO_TO_THE_64 && RawAt(crc, file, b.offset, Finished(b.layout))
  }

  ghost predicate AllAt(crc: LogFormat.Checksum, file: seq<Byte>, blocks: seq<Stored>) {
    forall i :: 0 <= i < |blocks| ==> BlockAt(crc, file, blocks[i])
  }

  /** The entries of all blocks, in order. */
  function AllEntries(blocks: seq<Stored>): seq<KeyValue> {
    if blocks == [] then [] else AllEntries(blocks[..|blocks| - 1]) + blocks[|blocks| - 1].layout.entries
  }

  function FirstKey(b: Stored): seq<Byte>
    requires b.layout.entries != []
  {
    b.layout.entries[0].key
  }

  function LastKey(b: Stored): seq<Byte>
    requires b.layout.entries != []
  {
    b.layout.entries[|b.layout.entries| - 1].key
  }

  /** A key between the last of a block and the first after it, as short as the comparator makes it. One that is
      not the last itself has a user key strictly between theirs. */
  ghost predicate Separates(s: seq<Byte>, last: seq<Byte>, next: InternalKeys.Option<seq<Byte>>) {
    && (s == last || Less(UserKey(last), UserKey(s)))
    && (next.Some? ==> InternalLess(s, next.value) && (s == last || Less(UserKey(s), UserKey(next.value))))
    && if next.Some? then IsSeparator(s, last, next.value) else IsSuccessor(s, last)
  }

  function NextFirst(blocks: seq<Stored>, i: nat, after: InternalKeys.Option<seq<Byte>>): InternalKeys.Option<seq<Byte>>
    requires i < |blocks| && forall j :: 0 <= j < |blocks| ==> blocks[j].layout.entries != []
  {
    if i + 1 < |blocks| then InternalKeys.Some(FirstKey(blocks[i + 1])) else after
  }

  /** Index entry `i` is a separator after block `i`, and says where the block is. */
  ghost predicate Indexed(index: seq<KeyValue>, blocks: seq<Stored>, after: InternalKeys.Option<seq<Byte>>)
    requires forall j :: 0 <= j < |blocks| ==> Proper(blocks[j].layout) && blocks[j].layout.entries != []
  {
    && |index| <= |blocks|
    && forall i :: 0 <= i < |index| ==>
         && index[i].value == HandleBytes(Handle(blocks[i].offset, |Finished(blocks[i].layout)|))
         && Separates(index[i].key, LastKey(blocks[i]), NextFirst(blocks, i, after))
  }

  /** Every block has a filter for its offset. */
  ghost predicate Covered(groups: seq<seq<seq<Byte>>>, blocks: seq<Stored>) {
    forall i :: 0 <= i < |blocks| ==> blocks[i].offset / 2048 < |groups|
  }

  /** The keys of each block are among those of the filter for its offset. */
  ghost predicate Filtered(groups: seq<seq<seq<Byte>>>, blocks: seq<Stored>) {
    forall i, e :: 0 <= i < |blocks| && e in blocks[i].layout.entries && blocks[i].offset / FILTER_BASE < |groups| ==>
      e.key in groups[blocks[i].offset / FILTER_BASE]
  }

  // ----- The order of internal keys -----

  lemma InternalOrder(a: seq<Byte>, b: seq<Byte>, c: seq<Byte>)
    ensures InternalLess(a, b) && InternalLess(b, c) ==> InternalLess(a, c)
    ensures InternalLess(a, c) ==> InternalLess(a, b) || InternalLess(b, c)
    ensures !(InternalLess(a, b) && InternalLess(b, a)) && !InternalLess(a, a)
  {
    hide Less, UserKey, Trailer;
    var x, y, z := UserKey(a), UserKey(b), UserKey(c);
    OneOfThree(x, y);
    OneOfThree(y, z);
    OneOfThree(x, x);
    if Less(x, y) && Less(y, z) {
      LessChains(x, y, z);
    }
    if Less(x, z) && Less(y, x) {
      LessChains(y, x, z);
    }
    if Less(x, z) && Less(z, y) {
      LessChains(x, z, y);
    }
  }

  lemma UserOrder(a: seq<Byte>, b: seq<Byte>)
    ensures Less(UserKey(a), UserKey(b)) ==> InternalLess(a, b)
    ensures InternalLess(a, b) ==> !Less(UserKey(b), UserKey(a))
    ensures Less(UserKey(a), UserKey(b)) ==> UserKey(a) != UserKey(b)
  {
    hide Less, UserKey, Trailer;
    OneOfThree(UserKey(a), UserKey(b));
  }

  // ----- A table under construction -----

  /** The file so far and its blocks; the entries of the current block; the index so far, which lacks the last
      block while that is pending. */
  datatype Building = Building(file: seq<Byte>, blocks: seq<Stored>, current: seq<KeyValue>, index: seq<KeyValue>,
                               pending: bool, lastKey: seq<Byte>, handle: Handle)

  function AfterBlocks(t: Building): InternalKeys.Option<seq<Byte>> {
    if t.current == [] then InternalKeys.None else InternalKeys.Some(t.current[0].key)
  }

  ghost predicate Consistent(crc: LogFormat.Checksum, t: Building) {
    && AllAt(crc, t.file, t.blocks)
    && Ascending(InternalLess, AllEntries(t.blocks) + t.current) && KeysAreLong(AllEntries(t.blocks) + t.current)
    && Indexed(t.index, t.blocks, AfterBlocks(t))
    && if t.pending then
         && t.blocks != [] && t.current == [] && |t.index| == |t.blocks| - 1
         && var last := t.blocks[|t.blocks| - 1];
            t.lastKey == LastKey(last) && t.handle == Handle(last.offset, |Finished(last.layout)|)
       else
         && |t.index| == |t.blocks|
         && (t.current == [] ==> t.blocks == [])
         && (t.current != [] ==> t.lastKey == t.current[|t.current| - 1].key)
  }

  lemma BlocksAreFull(crc: LogFormat.Checksum, file: seq<Byte>, blocks: seq<Stored>)
    requires AllAt(crc, file, blocks)
    ensures forall i :: 0 <= i < |blocks| ==> Proper(blocks[i].layout) && blocks[i].layout.entries != []
  {
    hide Proper, Finished;
  }

  lemma OneMoreBlock(blocks: seq<Stored>, b: Stored)
    ensures AllEntries(blocks + [b]) == AllEntries(blocks) + b.layout.entries
  {
    assert (blocks + [b])[..|blocks|] == blocks;
  }

  /** The last entry so far has the last key. */
  lemma LastEntry(crc: LogFormat.Checksum, t: Building)
    requires Consistent(crc, t)
    ensures var all := AllEntries(t.blocks) + t.current;
            && (all == [] <==> !t.pending && t.current == [])
            && (all != [] ==> all[|all| - 1].key == t.lastKey && |t.lastKey| >= 8)
  {
    hide Proper, Finished, InternalLess, AllAt, Indexed, Ascending, HandleBytes;
    var all := AllEntries(t.blocks) + t.current;
    BlocksAreFull(crc, t.file, t.blocks);
    if t.pending {
      var n := |t.blocks| - 1;
      assert t.blocks == t.blocks[..n] + [t.blocks[n]];
      OneMoreBlock(t.blocks[..n], t.blocks[n]);
      assert all == AllEntries(t.blocks[..n]) + t.blocks[n].layout.entries;
    } else if t.current == [] {
      assert t.blocks == [];
    }
  }

  lemma AscendsOneMore(entries: seq<KeyValue>, e: KeyValue)
    requires Ascending(InternalLess, entries)
    requires entries != [] ==> InternalLess(entries[|entries| - 1].key, e.key)
    ensures Ascending(InternalLess, entries + [e])
  {
    hide InternalLess;
    InternalLessIsTransitive();
    forall i | 0 <= i < |entries|
      ensures InternalLess(entries[i].key, e.key)
    {
      assert i < |entries| - 1 ==> InternalLess(entries[i].key, entries[|entries| - 1].key);
    }
  }

  /** The index has what was pending, under a key that separates it from the next one. */
  ghost predicate IndexReady(t: Building, index: seq<KeyValue>, key: seq<Byte>) {
    if t.pending then
      && |index| == |t.index| + 1 && index[..|t.index|] == t.index
      && index[|t.index|].value == HandleBytes(t.handle)
      && Separates(index[|t.index|].key, t.lastKey, InternalKeys.Some(key))
    else index == t.index
  }

  /** TableBuilder::Add, once the index has what was pending. */
  lemma EntryAdded(crc: LogFormat.Checksum, t: Building, index: seq<KeyValue>, e: KeyValue)
    requires Consistent(crc, t) && |e.key| >= 8
    requires t.pending || t.current != [] ==> InternalLess(t.lastKey, e.key)
    requires IndexReady(t, index, e.key)
    ensures Consistent(crc, t.(current := t.current + [e], index := index, pending := false, lastKey := e.key))
  {
    hide Proper, Finished, InternalLess, AllAt, IndexReady, Indexed, KeysAreLong;
    BlocksAreFull(crc, t.file, t.blocks);
    LastEntry(crc, t);
    var all := AllEntries(t.blocks) + t.current;
    AscendsOneMore(all, e);
    LongOneMore(all, e);
    assert AllEntries(t.blocks) + (t.current + [e]) == all + [e];
    IndexGrows(crc, t, index, e);
  }

  lemma LongOneMore(entries: seq<KeyValue>, e: KeyValue)
    requires KeysAreLong(entries) && |e.key| >= 8
    ensures KeysAreLong(entries + [e])
  {
  }

  lemma IndexGrows(crc: LogFormat.Checksum, t: Building, index: seq<KeyValue>, e: KeyValue)
    requires Consistent(crc, t) && IndexReady(t, index, e.key)
    ensures |index| == |t.blocks|
    ensures Indexed(index, t.blocks, AfterBlocks(t.(current := t.current + [e])))
  {
    hide Proper, Finished, InternalLess, HandleBytes, AllAt, Separates, Ascending, KeysAreLong;
    BlocksAreFull(crc, t.file, t.blocks);
    if t.pending {
      assert forall i :: 0 <= i < |t.index| ==> index[i] == index[..|t.index|][i] == t.index[i];
    }
  }

  /** TableBuilder::Flush */
  lemma BlockFlushed(crc: LogFormat.Checksum, t: Building, layout: Layout)
    requires Consistent(crc, t) && t.current != [] && layout.entries == t.current
    requires Proper(layout) && |Finished(layout)| < TWO_TO_THE_32 && |t.file| < TWO_TO_THE_64
    ensures Consistent(crc, t.(file := t.file + RawBlock(crc, Finished(layout)),
                               blocks := t.blocks + [Stored(layout, |t.file|)], current := [], pending := true,
                               handle := Handle(|t.file|, |Finished(layout)|)))
  {
    hide Proper, Finished, InternalLess, RawBlock, HandleBytes, AllAt, Indexed, Ascending, KeysAreLong;
    var b := Stored(layout, |t.file|);
    BlocksAreFull(crc, t.file, t.blocks);
    OneMoreBlock(t.blocks, b);
    assert AllEntries(t.blocks + [b]) + [] == AllEntries(t.blocks) + t.current;
    BlockAdded(crc, t.file, t.blocks, layout);
    StillIndexed(t.index, t.blocks, b, AfterBlocks(t));
  }

  lemma BlockAdded(crc: LogFormat.Checksum, file: seq<Byte>, blocks: seq<Stored>, layout: Layout)
    requires AllAt(crc, file, blocks) && |file| < TWO_TO_THE_64
    requires Proper(layout) && layout.entries != [] && |Finished(layout)| < TWO_TO_THE_32
    ensures AllAt(crc, file + RawBlock(crc, Finished(layout)), blocks + [Stored(layout, |file|)])
  {
    hide Proper, Finished, RawBlock;
    var b := Stored(layout, |file|);
    var file' := file + RawBlock(crc, Finished(layout));
    FileGrows(crc, file, blocks, RawBlock(crc, Finished(layout)));
    assert file'[b.offset..b.offset + |Finished(layout)| + 5] == RawBlock(crc, Finished(layout));
    assert BlockAt(crc, file', b);
  }

  /** The first key of the current block is that of the block it becomes. */
  lemma StillIndexed(index: seq<KeyValue>, blocks: seq<Stored>, b: Stored, after: InternalKeys.Option<seq<Byte>>)
    requires forall j :: 0 <= j < |blocks| ==> Proper(blocks[j].layout) && blocks[j].layout.entries != []
    requires Proper(b.layout) && b.layout.entries != [] && after == InternalKeys.Some(FirstKey(b))
    requires Indexed(index, blocks, after)
    ensures Indexed(index, blocks + [b], InternalKeys.None)
  {
    hide Proper, Finished, HandleBytes, Separates;
    assert forall i :: 0 <= i < |blocks| ==> (blocks + [b])[i] == blocks[i];
  }

  lemma FileGrows(crc: LogFormat.Checksum, file: seq<Byte>, blocks: seq<Stored>, more: seq<Byte>)
    requires AllAt(crc, file, blocks)
    ensures AllAt(crc, file + more, blocks)
  {
    hide Proper, Finished, RawBlock;
    forall i | 0 <= i < |blocks|
      ensures BlockAt(crc, file + more, blocks[i])
    {
      assert BlockAt(crc, file, blocks[i]);
      var b := blocks[i];
      var end := b.offset + |Finished(b.layout)| + 5;
      assert (file + more)[b.offset..end] == file[b.offset..end];
    }
  }

  /** Separators ascend: the one before is before the first key of the last block. */
  lemma IndexAscends(crc: LogFormat.Checksum, t: Building, s: seq<Byte>)
    requires Consistent(crc, t) && t.pending && t.index != []
    requires s == t.lastKey || Less(UserKey(t.lastKey), UserKey(s))
    ensures InternalLess(t.index[|t.index| - 1].key, s)
  {
    hide Proper, Finished, InternalLess, RawBlock, HandleBytes, Less, UserKey, IsSeparator, IsSuccessor;
    BlocksAreFull(crc, t.file, t.blocks);
    var n := |t.blocks| - 1;
    var before, b := t.index[n - 1].key, t.blocks[n];
    assert Separates(before, LastKey(t.blocks[n - 1]), InternalKeys.Some(FirstKey(b)));
    BlockAscends(crc, t, n);
    UserOrder(t.lastKey, s);
    InternalOrder(before, FirstKey(b), t.lastKey);
    InternalOrder(before, t.lastKey, s);
  }

  /** Where a block's entries start among all of them. */
  function StartOf(blocks: seq<Stored>, b: nat): nat
    requires b <= |blocks|
  {
    |AllEntries(blocks[..b])|
  }

  lemma {:induction false} EntryOfBlock(blocks: seq<Stored>, b: nat, p: nat)
    requires b < |blocks| && p < |blocks[b].layout.entries|
    ensures StartOf(blocks, b) + p < |AllEntries(blocks)|
    ensures AllEntries(blocks)[StartOf(blocks, b) + p] == blocks[b].layout.entries[p]
    ensures StartOf(blocks, b + 1) == StartOf(blocks, b) + |blocks[b].layout.entries|
    decreases |blocks|
  {
    var n := |blocks| - 1;
    assert blocks == blocks[..n] + [blocks[n]];
    OneMoreBlock(blocks[..n], blocks[n]);
    if b < n {
      EntryOfBlock(blocks[..n], b, p);
      assert blocks[..n][..b] == blocks[..b] && blocks[..n][..b + 1] == blocks[..b + 1];
    } else {
      assert blocks[..b + 1] == blocks;
    }
  }

  lemma BlockAscends(crc: LogFormat.Checksum, t: Building, n: nat)
    requires Consistent(crc, t) && n == |t.blocks| - 1
    ensures Proper(t.blocks[n].layout) && t.blocks[n].layout.entries != []
    ensures var b := t.blocks[n]; FirstKey(b) == LastKey(b) || InternalLess(FirstKey(b), LastKey(b))
  {
    hide Proper, Finished, InternalLess, RawBlock, AllEntries, StartOf;
    BlocksAreFull(crc, t.file, t.blocks);
    EntryOfBlock(t.blocks, n, 0);
    EntryOfBlock(t.blocks, n, |t.blocks[n].layout.entries| - 1);
    AscendsBetween(AllEntries(t.blocks) + t.current, StartOf(t.blocks, n),
                   StartOf(t.blocks, n) + |t.blocks[n].layout.entries| - 1);
  }

  lemma AscendsBetween(entries: seq<KeyValue>, i: nat, j: nat)
    requires Ascending(InternalLess, entries) && i <= j < |entries|
    ensures entries[i].key == entries[j].key || InternalLess(entries[i].key, entries[j].key)
  {
    hide InternalLess;
  }

  /** The filter block has the keys of every block, and waits with those of the current one. */
  ghost predicate FilterHolds(filter: FilterBlockBuilder?, file: seq<Byte>, blocks: seq<Stored>, current: seq<KeyValue>)
    reads filter
  {
    filter != null ==>
      && filter.Valid() && |filter.groups| == |file| / FILTER_BASE
      && Filtered(filter.Groups(), blocks)
      && (forall i :: 0 <= i < |blocks| ==> blocks[i].offset <= |file|)
      && forall e :: e in current ==> e.key in filter.pending
  }

  method AddFilterKey(filter: FilterBlockBuilder?, key: seq<Byte>, ghost value: seq<Byte>, ghost file: seq<Byte>,
                      ghost blocks: seq<Stored>, ghost current: seq<KeyValue>)
    requires FilterHolds(filter, file, blocks, current)
    modifies filter
    ensures FilterHolds(filter, file, blocks, current + [KeyValue(key, value)])
  {
    hide FilterBlockBuilder.Valid;
    if filter != null {
      ghost var before := filter.Groups();
      filter.AddKey(key);
      GroupsGrow(before, filter.Groups(), blocks);
    }
  }

  /** Groups that only gain keys still have those of every block. */
  lemma GroupsGrow(before: seq<seq<seq<Byte>>>, after: seq<seq<seq<Byte>>>, blocks: seq<Stored>)
    requires Filtered(before, blocks) && |before| <= |after|
    requires forall g, k :: 0 <= g < |before| && k in before[g] ==> k in after[g]
    requires |before| < |after| ==> forall i :: 0 <= i < |blocks| ==> blocks[i].offset / FILTER_BASE < |before|
    ensures Filtered(after, blocks)
  {
    forall i, e | 0 <= i < |blocks| && e in blocks[i].layout.entries && blocks[i].offset / FILTER_BASE < |after|
      ensures e.key in after[blocks[i].offset / FILTER_BASE]
    {
      assert e.key in before[blocks[i].offset / FILTER_BASE];
    }
  }

  /** The current block has been written, and the next one starts where the file now ends. */
  method StartFilter(filter: FilterBlockBuilder?, length: nat, ghost file: seq<Byte>, ghost blocks: seq<Stored>,
                     ghost current: seq<KeyValue>, ghost b: Stored, ghost file': seq<Byte>)
    requires FilterHolds(filter, file, blocks, current)
    requires b.layout.entries == current && b.offset == |file| <= |file'| == length
    modifies filter
    ensures FilterHolds(filter, file', blocks + [b], [])
    ensures filter != null ==> filter.TotalSize() == old(filter.TotalSize())
  {
    hide FilterBlockBuilder.Valid, FilterBlockBuilder.TotalSize;
    if filter != null {
      ghost var before := filter.Groups();
      CurrentIsFiltered(before, blocks, b);
      BlocksInside(blocks, file);
      filter.StartBlock(length);
      GroupsGrow(before, filter.Groups(), blocks + [b]);
    }
  }

  lemma BlocksInside(blocks: seq<Stored>, file: seq<Byte>)
    requires forall i :: 0 <= i < |blocks| ==> blocks[i].offset <= |file|
    ensures forall i :: 0 <= i < |blocks| ==> blocks[i].offset / FILTER_BASE <= |file| / FILTER_BASE
  {
  }

  lemma CurrentIsFiltered(groups: seq<seq<seq<Byte>>>, blocks: seq<Stored>, b: Stored)
    requires Filtered(groups, blocks)
    requires b.offset / FILTER_BASE < |groups| ==>
               forall e :: e in b.layout.entries ==> e.key in groups[b.offset / FILTER_BASE]
    ensures Filtered(groups, blocks + [b])
  {
  }

  lemma NothingBuilt(crc: LogFormat.Checksum, t: Building)
    requires t.blocks == [] && t.current == [] && t.index == [] && !t.pending
    ensures Consistent(crc, t)
  {
    hide InternalLess;
  }

  class TableBuilder {
    const crc: LogFormat.Checksum
    const blockSize: nat
    const dataBlock: BlockBuilder
    const indexBlock: BlockBuilder
    const filterBlock: FilterBlockBuilder?
    var file: seq<Byte>
    var lastKey: seq<Byte>
    var pendingIndexEntry: bool
    var pendingHandle: Handle
    ghost var blocks: seq<Stored>

    ghost function Now(): Building
      reads this, dataBlock, indexBlock
    {
      Building(file, blocks, dataBlock.layout.entries, indexBlock.layout.entries, pendingIndexEntry, lastKey,
               pendingHandle)
    }

    /** All entries added so far. */
    ghost function Entries(): seq<KeyValue>
      reads this, dataBlock
    {
      AllEntries(blocks) + dataBlock.layout.entries
    }

    ghost predicate Builders()
      reads this, dataBlock, indexBlock
    {
      && dataBlock != indexBlock && dataBlock.Valid() && indexBlock.Valid()
      && dataBlock.less == InternalLess && indexBlock.less == InternalLess
      && dataBlock.Size() < TWO_TO_THE_32 && indexBlock.Size() < TWO_TO_THE_32
    }

    ghost predicate Valid()
      reads this, dataBlock, indexBlock, filterBlock
    {
      Builders() && Consistent(crc, Now()) && FilterHolds(filterBlock, file, blocks, dataBlock.layout.entries)
    }

    constructor (crc: LogFormat.Checksum, blockSize: nat, restartInterval: nat, policy: InternalKeys.Option<Policy>)
      requires restartInterval >= 1
      ensures Valid() && fresh(dataBlock) && fresh(indexBlock) && (filterBlock != null ==> fresh(filterBlock))
      ensures this.crc == crc && (filterBlock == null <==> policy.None?)
      ensures filterBlock != null ==> filterBlock.policy == policy.value
      ensures Entries() == [] && this.blockSize == blockSize
      ensures dataBlock.restartInterval == restartInterval && indexBlock.restartInterval == 1
    {
      hide Consistent, InternalLess, BlockBuilder.Valid, FilterBlockBuilder.Valid;
      InternalLessIsTransitive();
      this.crc, this.blockSize := crc, blockSize;
      var data := new BlockBuilder(restartInterval, InternalLess);
      var index := new BlockBuilder(1, InternalLess);
      dataBlock, indexBlock := data, index;
      if policy.Some? {
        var filter := new FilterBlockBuilder(policy.value);
        filter.StartBlock(0);
        filterBlock := filter;
      } else {
        filterBlock := null;
      }
      file, lastKey, pendingIndexEntry, pendingHandle, blocks := [], [], false, Handle(0, 0), [];
      new;
      NothingBuilt(crc, Now());
    }

    /** The index entry of the pending block, under a key that separates it from what comes next. */
    method AddIndexEntry(separator: seq<Byte>)
      requires Builders() && Consistent(crc, Now()) && pendingIndexEntry
      requires separator == lastKey || Less(UserKey(lastKey), UserKey(separator))
      requires |separator| <= |lastKey| && indexBlock.Size() + |lastKey| + 39 < TWO_TO_THE_32
      requires pendingHandle.offset < TWO_TO_THE_64 && pendingHandle.size < TWO_TO_THE_64
      modifies indexBlock
      ensures Builders()
      ensures indexBlock.layout.entries
           == old(indexBlock.layout.entries) + [KeyValue(separator, HandleBytes(pendingHandle))]
    {
      hide Consistent, BlockBuilder.Valid, Less, UserKey, HandleBytes, InternalLess;
      IndexGoesOn(separator);
      var handle := EncodeHandle(pendingHandle);
      HandleIsShort(pendingHandle);
      indexBlock.Add(separator, handle);
    }

    lemma IndexGoesOn(separator: seq<Byte>)
      requires Builders() && Consistent(crc, Now()) && pendingIndexEntry
      requires separator == lastKey || Less(UserKey(lastKey), UserKey(separator))
      ensures indexBlock.layout.entries != [] ==> InternalLess(indexBlock.lastKey, separator)
    {
      hide Consistent, Less, UserKey, InternalLess, Proper, Ascending, Data, RestartBytes;
      if indexBlock.layout.entries != [] {
        IndexAscends(crc, Now(), separator);
      }
    }

    /** What restart offsets and block handles can count. */
    predicate Room(key: seq<Byte>, value: seq<Byte>)
      reads this, dataBlock, indexBlock
    {
      && dataBlock.Size() + |key| + |value| + 19 < TWO_TO_THE_32
      && indexBlock.Size() + |lastKey| + 39 < TWO_TO_THE_32
      && |file| + TWO_TO_THE_32 + 5 < TWO_TO_THE_64
    }

    /** Add an entry whose key is above all before it. The current block is written exactly when it has reached
        the block size. */
    method Add(key: seq<Byte>, value: seq<Byte>)
      requires Valid() && |key| >= 8 && Room(key, value)
      requires Entries() != [] ==> InternalLess(lastKey, key)
      modifies this, dataBlock, indexBlock, filterBlock
      ensures Valid() && Entries() == old(Entries()) + [KeyValue(key, value)]
      ensures var current := old(dataBlock.layout.entries) + [KeyValue(key, value)];
              if dataBlock.layout.entries == [] then
                && |blocks| == |old(blocks)| + 1 && blocks[..|old(blocks)|] == old(blocks)
                && blocks[|old(blocks)|].layout.entries == current
                && Proper(blocks[|old(blocks)|].layout) && |Finished(blocks[|old(blocks)|].layout)| >= blockSize
              else
                blocks == old(blocks) && dataBlock.layout.entries == current && dataBlock.Size() < blockSize
    {
      hide Consistent, BlockBuilder.Valid, FilterHolds, InternalLess, Less, UserKey, HandleBytes, Finished, Proper;
      AddToBlock(key, value);
      SizeOf(dataBlock);
      if dataBlock.Size() >= blockSize {
        Flush();
      }
    }

    /** Add, up to the decision whether the block is full. */
    method AddToBlock(key: seq<Byte>, value: seq<Byte>)
      requires Valid() && |key| >= 8 && Room(key, value)
      requires Entries() != [] ==> InternalLess(lastKey, key)
      modifies this`lastKey, this`pendingIndexEntry, dataBlock, indexBlock, filterBlock
      ensures Valid() && Entries() == old(Entries()) + [KeyValue(key, value)]
      ensures dataBlock.layout.entries == old(dataBlock.layout.entries) + [KeyValue(key, value)]
    {
      hide Consistent, BlockBuilder.Valid, FilterHolds, InternalLess, IndexReady;
      ghost var before := Now();
      AddPending(key);
      AddFilterKey(filterBlock, key, value, file, blocks, dataBlock.layout.entries);
      lastKey := key;
      dataBlock.Add(key, value);
      EntryAdded(crc, before, indexBlock.layout.entries, KeyValue(key, value));
      assert Entries() == AllEntries(blocks) + before.current + [KeyValue(key, value)];
    }

    /** The index entry that has waited for this key. */
    method AddPending(key: seq<Byte>)
      requires Builders() && Consistent(crc, Now()) && |key| >= 8 && indexBlock.Size() + |lastKey| + 39 < TWO_TO_THE_32
      requires Entries() != [] ==> InternalLess(lastKey, key)
      modifies this`pendingIndexEntry, indexBlock
      ensures Builders() && !pendingIndexEntry && IndexReady(old(Now()), indexBlock.layout.entries, key)
      ensures old(pendingIndexEntry) || dataBlock.layout.entries != [] ==> InternalLess(lastKey, key)
      ensures dataBlock.layout.entries != [] ==> dataBlock.lastKey == lastKey
    {
      hide Consistent, BlockBuilder.Valid, InternalLess, Less, UserKey, HandleBytes;
      LastEntry(crc, Now());
      PendingFacts(crc, Now());
      DataLastKey();
      if pendingIndexEntry {
        var separator := InternalSeparator(lastKey, key);
        AddIndexEntry(separator);
        pendingIndexEntry := false;
      }
    }

    lemma DataLastKey()
      requires Builders() && Consistent(crc, Now())
      ensures dataBlock.layout.entries != [] ==> dataBlock.lastKey == lastKey && !pendingIndexEntry
    {
      hide Proper, Ascending, Data, InternalLess, AllAt, Indexed, KeysAreLong;
    }

    /** Write the current block, if it has entries; its index entry waits for the next key. */
    method Flush()
      requires Valid() && |file| + TWO_TO_THE_32 + 5 < TWO_TO_THE_64
      modifies this, dataBlock, filterBlock
      ensures Valid() && Entries() == old(Entries()) && dataBlock.layout.entries == []
      ensures lastKey == old(lastKey) && |file| <= |old(file)| + TWO_TO_THE_32 + 5
      ensures blocks == if old(dataBlock.layout.entries) == [] then old(blocks)
                        else old(blocks) + [Stored(old(dataBlock.layout), |old(file)|)]
      ensures filterBlock != null ==> filterBlock.TotalSize() == old(filterBlock.TotalSize())
    {
      hide Consistent, BlockBuilder.Valid, FilterHolds, InternalLess, Finished, RawBlock;
      dataBlock.EmptyMeansNoEntries();
      if dataBlock.Empty() {
        return;
      }
      ghost var before, layout := Now(), dataBlock.layout;
      dataBlock.SizeIs();
      LayoutIsProper(dataBlock);
      pendingHandle := WriteBlock(dataBlock);
      blocks := blocks + [Stored(layout, |before.file|)];
      pendingIndexEntry := true;
      BlockFlushed(crc, before, layout);
      StartFilter(filterBlock, |file|, before.file, before.blocks, before.current, Stored(layout, |before.file|), file);
      OneMoreBlock(before.blocks, Stored(layout, |before.file|));
    }

    /** Write a finished block, and start it over. */
    method WriteBlock(block: BlockBuilder) returns (h: Handle)
      requires block.Valid() && block.Size() < TWO_TO_THE_32
      modifies this`file, block
      ensures file == old(file) + RawBlock(crc, Finished(old(block.layout)))
      ensures h == Handle(|old(file)|, |Finished(old(block.layout))|)
      ensures block.Valid() && block.layout.entries == [] && block.Size() == 8
    {
      hide Finished, RawBlock;
      block.SizeIs();
      BuilderFacts(block);
      var raw := block.Finish();
      h := WriteRawBlock(raw);
      block.Reset();
    }

    /** Write contents with their trailer. */
    method WriteRawBlock(contents: seq<Byte>) returns (h: Handle)
      modifies this`file
      ensures file == old(file) + RawBlock(crc, contents) && h == Handle(|old(file)|, |contents|)
    {
      h := Handle(|file|, |contents|);
      file := file + contents;
      file := file + ([NO_COMPRESSION] + EncodeFixed32(Mask(crc(contents + [NO_COMPRESSION]))));
    }

    ghost function PolicyUsed(): InternalKeys.Option<Policy> {
      if filterBlock == null then InternalKeys.None else InternalKeys.Some(filterBlock.policy)
    }

    /** What handles and offsets can count until the file is finished. */
    ghost predicate FinishRoom()
      reads this, dataBlock, indexBlock, filterBlock
    {
      && Room([], []) && |file| + 8 * TWO_TO_THE_32 < TWO_TO_THE_64
      && (filterBlock != null ==>
            && filterBlock.TotalSize() + (|file| + TWO_TO_THE_32) / 512 + 16 < TWO_TO_THE_32
            && |filterBlock.policy.name| + 64 < TWO_TO_THE_32)
    }

    /** The rest of the file: the last data block, the filter block, the metaindex, the index and the footer. */
    method Finish() returns (ghost parts: Parts)
      requires Valid() && FinishRoom()
      modifies this, dataBlock, indexBlock, filterBlock
      ensures AllEntries(blocks) == old(Entries()) && Complete(crc, file, blocks, PolicyUsed(), parts)
    {
      hide Consistent, BlockBuilder.Valid, FilterBlockBuilder.Valid, Described, FilterWritten, BlockWritten, FooterBytes;
      Flush();
      var filterHandle;
      ghost var groups;
      filterHandle, groups := FinishFilter();
      ghost var withFilter := file;
      var metaHandle;
      ghost var meta;
      metaHandle, meta := FinishMeta(filterHandle);
      ghost var withMeta := file;
      var indexHandle;
      ghost var index;
      indexHandle, index := FinishIndex();
      ghost var withIndex := file;
      parts := Parts(index, meta, indexHandle, metaHandle, filterHandle, groups);
      BlockFits(crc, withMeta, metaHandle, meta);
      BlockFits(crc, withIndex, indexHandle, index);
      var footer := EncodeFooter(metaHandle, indexHandle);
      file := file + footer;
      FilterStays(crc, withFilter, file, PolicyUsed(), filterHandle, groups);
      BlockStays(crc, withMeta, file, metaHandle, meta);
      BlockStays(crc, withIndex, file, indexHandle, index);
      DescribedGrows(crc, withIndex, index, blocks, footer);
    }

    /** The filter block, if there is one. */
    method FinishFilter() returns (filterHandle: Handle, ghost groups: seq<seq<seq<Byte>>>)
      requires Valid() && dataBlock.layout.entries == [] && |file| < TWO_TO_THE_64
      requires filterBlock != null ==> filterBlock.TotalSize() + |file| / 512 + 15 < TWO_TO_THE_32
      modifies this`file, filterBlock
      ensures Builders() && Consistent(crc, Now()) && |file| <= |old(file)| + TWO_TO_THE_32 + 5
      ensures HandleFits(filterHandle) && FilterWritten(crc, file, PolicyUsed(), filterHandle, groups)
      ensures filterBlock != null ==> Filtered(groups, blocks) && Covered(groups, blocks)
    {
      hide Consistent, BlockBuilder.Valid, FilterBlockBuilder.Valid, RawAt, FilterBlock, RawBlock, Filtered, Covered;
      filterHandle, groups := Handle(0, 0), [];
      if filterBlock != null {
        groups := if filterBlock.pending == [] then filterBlock.groups else filterBlock.Groups();
        assert 4 * (|file| / FILTER_BASE) <= |file| / 512;
        ghost var before := Now();
        NonEmptyBlocks(crc, before);
        FewerGroups(filterBlock.groups, filterBlock.pending, blocks);
        AllCovered(filterBlock.groups, filterBlock.pending, blocks, file);
        var contents := filterBlock.Finish();
        filterHandle := WriteRawBlock(contents);
        ConsistentGrows(crc, before, RawBlock(crc, contents));
        JustWritten(crc, before.file, contents);
      }
    }

    /** The metaindex: where the filter block is, under its policy's name. */
    method FinishMeta(filterHandle: Handle) returns (metaHandle: Handle, ghost meta: Layout)
      requires Builders() && Consistent(crc, Now()) && HandleFits(filterHandle) && |file| < TWO_TO_THE_64
      requires PolicyUsed().Some? ==> |PolicyUsed().value.name| + 64 < TWO_TO_THE_32
      modifies this`file
      ensures Builders() && Consistent(crc, Now())
      ensures old(file) <= file && |file| <= |old(file)| + TWO_TO_THE_32 + 5
      ensures BlockWritten(crc, file, metaHandle, meta)
      ensures meta.entries == MetaEntries(PolicyUsed(), filterHandle)
    {
      hide Consistent, BlockBuilder.Valid, RawBlock, Finished, HandleBytes, RawAt, Proper;
      ghost var before := Now();
      BuilderFacts(dataBlock);
      var metaBlock := new BlockBuilder(dataBlock.restartInterval, InternalLess);
      if filterBlock != null {
        var handle := EncodeHandle(filterHandle);
        HandleIsShort(filterHandle);
        metaBlock.Add(FilterKey(filterBlock.policy), handle);
      }
      meta := metaBlock.layout;
      SizeOf(metaBlock);
      LayoutIsProper(metaBlock);
      metaHandle := WriteBlock(metaBlock);
      ConsistentGrows(crc, before, RawBlock(crc, Finished(meta)));
      JustWritten(crc, before.file, Finished(meta));
    }

    /** The index, with the entry that still waits. */
    method FinishIndex() returns (indexHandle: Handle, ghost index: Layout)
      requires Builders() && Consistent(crc, Now()) && dataBlock.layout.entries == [] && |file| < TWO_TO_THE_64
      requires indexBlock.Size() + |lastKey| + 39 < TWO_TO_THE_32
      modifies this`file, this`pendingIndexEntry, indexBlock
      ensures old(file) <= file && Described(crc, file, index, blocks)
      ensures BlockWritten(crc, file, indexHandle, index)
    {
      hide Consistent, BlockBuilder.Valid, Described, RawAt, RawBlock, Finished, Less, UserKey, InternalLess, HandleBytes;
      ghost var before := Now();
      LastEntry(crc, before);
      PendingFacts(crc, before);
      if pendingIndexEntry {
        var successor := InternalSuccessor(lastKey);
        AddIndexEntry(successor);
        pendingIndexEntry := false;
      }
      index := indexBlock.layout;
      SizeOf(indexBlock);
      IndexFacts(indexBlock);
      indexHandle := WriteBlock(indexBlock);
      IndexDone(crc, before, index, RawBlock(crc, Finished(index)));
      JustWritten(crc, before.file, Finished(index));
    }
  }

  lemma SizeOf(block: BlockBuilder)
    requires block.Valid()
    ensures Proper(block.layout) && block.Size() == |Finished(block.layout)|
  {
    hide Finished;
    block.SizeIs();
  }

  // ----- A finished file -----

  /** What a finished file has besides its data blocks, and where. */
  datatype Parts = Parts(index: Layout, meta: Layout, indexHandle: Handle, metaHandle: Handle, filterHandle: Handle,
                         groups: seq<seq<seq<Byte>>>)

  function FilterKey(policy: Policy): seq<Byte> {
    Ascii("filter.") + policy.name
  }

  function MetaEntries(policy: InternalKeys.Option<Policy>, filterHandle: Handle): seq<KeyValue> {
    if policy.None? then [] else [KeyValue(FilterKey(policy.value), HandleBytes(filterHandle))]
  }

  /** A finished block where a handle says. */
  ghost predicate BlockWritten(crc: LogFormat.Checksum, file: seq<Byte>, h: Handle, layout: Layout) {
    && Proper(layout) && h.offset < TWO_TO_THE_64 && h.size == |Finished(layout)| < TWO_TO_THE_32
    && RawAt(crc, file, h.offset, Finished(layout))
  }

  ghost predicate FilterWritten(crc: LogFormat.Checksum, file: seq<Byte>, policy: InternalKeys.Option<Policy>, h: Handle,
                                groups: seq<seq<seq<Byte>>>) {
    && HandleFits(h)
    && (policy.Some? ==>
          && RawAt(crc, file, h.offset, FilterBlock(policy.value, groups))
          && h.size == |FilterBlock(policy.value, groups)| < TWO_TO_THE_32)
  }

  /** A whole table: its data blocks, a filter for each if there is a policy, the metaindex that says where the
      filters are, the index, and the footer that says where these two are. */
  ghost predicate Complete(crc: LogFormat.Checksum, file: seq<Byte>, blocks: seq<Stored>,
                           policy: InternalKeys.Option<Policy>, p: Parts) {
    && Described(crc, file, p.index, blocks)
    && FilterWritten(crc, file, policy, p.filterHandle, p.groups)
    && (policy.Some? ==> Filtered(p.groups, blocks) && Covered(p.groups, blocks))
    && BlockWritten(crc, file, p.metaHandle, p.meta) && p.meta.entries == MetaEntries(policy, p.filterHandle)
    && BlockWritten(crc, file, p.indexHandle, p.index)
    && HandleFits(p.metaHandle) && HandleFits(p.indexHandle)
    && |file| >= 48 && file[|file| - 48..] == FooterBytes(p.metaHandle, p.indexHandle)
  }

  lemma BlockFits(crc: LogFormat.Checksum, file: seq<Byte>, h: Handle, layout: Layout)
    requires BlockWritten(crc, file, h, layout)
    ensures HandleFits(h)
  {
    hide Proper, Finished, RawAt;
  }

  lemma BlockStays(crc: LogFormat.Checksum, file: seq<Byte>, longer: seq<Byte>, h: Handle, layout: Layout)
    requires BlockWritten(crc, file, h, layout) && file <= longer
    ensures BlockWritten(crc, longer, h, layout)
  {
    hide Proper, Finished, RawAt;
    StillThere(crc, file, longer, h.offset, Finished(layout));
  }

  lemma FilterStays(crc: LogFormat.Checksum, file: seq<Byte>, longer: seq<Byte>, policy: InternalKeys.Option<Policy>,
                    h: Handle, groups: seq<seq<seq<Byte>>>)
    requires FilterWritten(crc, file, policy, h, groups) && file <= longer
    ensures FilterWritten(crc, longer, policy, h, groups)
  {
    hide RawAt, FilterBlock;
    if policy.Some? {
      StillThere(crc, file, longer, h.offset, FilterBlock(policy.value, groups));
    }
  }

  lemma DescribedGrows(crc: LogFormat.Checksum, file: seq<Byte>, index: Layout, blocks: seq<Stored>, more: seq<Byte>)
    requires Described(crc, file, index, blocks)
    ensures Described(crc, file + more, index, blocks)
  {
    hide Proper, Finished, InternalLess, AllAt, Indexed, KeysAreLong, Ascending, AllEntries;
    BlocksAreFull(crc, file, blocks);
    FileGrows(crc, file, blocks, more);
  }

  lemma NonEmptyBlocks(crc: LogFormat.Checksum, t: Building)
    requires Consistent(crc, t)
    ensures forall i :: 0 <= i < |t.blocks| ==> t.blocks[i].layout.entries != []
  {
    hide Proper, Finished, InternalLess, AllAt, Indexed, KeysAreLong, Ascending, AllEntries;
    BlocksAreFull(crc, t.file, t.blocks);
  }

  /** A block past all finished filters has its keys waiting, so that there will be a filter for them. */
  lemma AllCovered(groups: seq<seq<seq<Byte>>>, pending: seq<seq<Byte>>, blocks: seq<Stored>, file: seq<Byte>)
    requires Filtered(groups + [pending], blocks) && |groups| == |file| / FILTER_BASE
    requires forall i :: 0 <= i < |blocks| ==> blocks[i].offset <= |file| && blocks[i].layout.entries != []
    ensures Covered(if pending == [] then groups else groups + [pending], blocks)
  {
    forall i | 0 <= i < |blocks|
      ensures blocks[i].offset / FILTER_BASE <= |groups|
      ensures blocks[i].offset / FILTER_BASE == |groups| ==> pending != []
    {
      var e := blocks[i].layout.entries[0];
      if blocks[i].offset / FILTER_BASE == |groups| {
        assert e.key in (groups + [pending])[|groups|];
      }
    }
  }

  lemma IndexFacts(block: BlockBuilder)
    requires block.Valid()
    ensures Proper(block.layout) && Ascending(block.less, block.layout.entries)
  {
  }

  lemma FewerGroups(groups: seq<seq<seq<Byte>>>, pending: seq<seq<Byte>>, blocks: seq<Stored>)
    requires Filtered(groups + [pending], blocks)
    ensures Filtered(groups, blocks)
  {
    forall i, e | 0 <= i < |blocks| && e in blocks[i].layout.entries && blocks[i].offset / FILTER_BASE < |groups|
      ensures e.key in groups[blocks[i].offset / FILTER_BASE]
    {
      assert e.key in (groups + [pending])[blocks[i].offset / FILTER_BASE];
    }
  }

  lemma JustWritten(crc: LogFormat.Checksum, file: seq<Byte>, contents: seq<Byte>)
    ensures RawAt(crc, file + RawBlock(crc, contents), |file|, contents)
  {
    hide RawBlock;
  }

  lemma StillThere(crc: LogFormat.Checksum, file: seq<Byte>, longer: seq<Byte>, offset: nat, contents: seq<Byte>)
    requires file <= longer && RawAt(crc, file, offset, contents)
    ensures RawAt(crc, longer, offset, contents)
  {
    hide RawBlock;
    assert longer[offset..offset + |contents| + 5] == file[offset..offset + |contents| + 5];
  }

  lemma ConsistentGrows(crc: LogFormat.Checksum, t: Building, more: seq<Byte>)
    requires Consistent(crc, t)
    ensures Consistent(crc, t.(file := t.file + more))
  {
    hide Proper, Finished, InternalLess, AllAt, Indexed, KeysAreLong, Ascending;
    BlocksAreFull(crc, t.file, t.blocks);
    FileGrows(crc, t.file, t.blocks, more);
  }

  /** The last index entry only has to be at or after the last key. */
  lemma IndexDone(crc: LogFormat.Checksum, t: Building, index: Layout, more: seq<Byte>)
    requires Consistent(crc, t) && t.current == []
    requires Proper(index) && Ascending(InternalLess, index.entries) && |Finished(index)| < TWO_TO_THE_32
    requires if t.pending then
               && |index.entries| == |t.index| + 1 && index.entries[..|t.index|] == t.index
               && index.entries[|t.index|].value == HandleBytes(t.handle)
               && Separates(index.entries[|t.index|].key, t.lastKey, InternalKeys.None)
             else index.entries == t.index
    ensures Described(crc, t.file + more, index, t.blocks)
  {
    hide Proper, Finished, InternalLess, AllAt, KeysAreLong, Ascending, HandleBytes, Separates;
    BlocksAreFull(crc, t.file, t.blocks);
    FileGrows(crc, t.file, t.blocks, more);
    assert AllEntries(t.blocks) + [] == AllEntries(t.blocks);
    if t.pending {
      var entries := index.entries;
      assert forall i :: 0 <= i < |t.index| ==> entries[i] == entries[..|t.index|][i] == t.index[i];
    }
  }

  lemma LayoutIsProper(block: BlockBuilder)
    requires block.Valid()
    ensures Proper(block.layout)
  {
  }

  lemma BuilderFacts(block: BlockBuilder)
    requires block.Valid()
    ensures block.restartInterval >= 1 && Transitive(block.less) && Proper(block.layout)
  {
  }

  /** What is pending is a block of the file. */
  lemma PendingFacts(crc: LogFormat.Checksum, t: Building)
    requires Consistent(crc, t)
    ensures t.pending ==> t.current == [] && t.handle.offset < TWO_TO_THE_64 && t.handle.size < TWO_TO_THE_32
  {
    hide Proper, Finished, InternalLess, RawBlock;
    if t.pending {
      assert BlockAt(crc, t.file, t.blocks[|t.blocks| - 1]);
    }
  }

  /** A finished table: every block is where its index entry says, under a key that separates it from the next. */
  ghost predicate Described(crc: LogFormat.Checksum, file: seq<Byte>, index: Layout, blocks: seq<Stored>) {
    && AllAt(crc, file, blocks)
    && Ascending(InternalLess, AllEntries(blocks)) && KeysAreLong(AllEntries(blocks))
    && Proper(index) && Ascending(InternalLess, index.entries) && |Finished(index)| < TWO_TO_THE_32
    && |index.entries| == |blocks| && Indexed(index.entries, blocks, InternalKeys.None)
  }
}
