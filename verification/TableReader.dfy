/** Looking a key up in a finished table (table/table.cc, table/format.cc). */
module TableReaders {
  import opened Coding
  import opened Varints
  import opened VarintCodec
  import opened Blocks
  import opened BlockIters
  import opened Bytewise
  import opened FilterBlocks
  import opened Footers
  import opened Tables
  import Blooms
  import opened TwoLevelIterators
  import LogFormat
  import InternalKeys

  /** ReadBlock: the contents of a raw block, after a look at its checksum if asked to. */
  method ReadBlock(crc: LogFormat.Checksum, file: seq<Byte>, h: Handle, verify: bool, ghost contents: seq<Byte>)
    returns (ok: bool, block: seq<Byte>)
    ensures RawAt(crc, file, h.offset, contents) && h.size == |contents| ==> ok && block == contents
    // Nothing is taken for a block that its checksum does not vouch for.
    ensures ok && verify ==>
              && h.offset + h.size + 5 <= |file|
              && Unmask(DecodeFixed32(file[h.offset + h.size + 1..])) == crc(block + [NO_COMPRESSION])
  {
    hide Mask, Unmask, EncodeFixed32, DecodeFixed32;
    var n := h.size;
    block := [];
    if h.offset + n + 5 > |file| {
      return false, [];
    }
    var data := file[h.offset..h.offset + n + 5];
    assert data[..n + 1] == data[..n] + [data[n]];
    RawParts(crc, contents);
    if verify {
      var stored := Unmask(DecodeFixed32(data[n + 1..]));
      SameStored(file, h.offset, n);
      if crc(data[..n + 1]) != stored {
        return false, [];
      }
    }
    if data[n] != NO_COMPRESSION {
      return false, [];
    }
    return true, data[..n];
  }

  lemma RawParts(crc: LogFormat.Checksum, contents: seq<Byte>)
    ensures var raw, n := RawBlock(crc, contents), |contents|;
            && raw[..n] == contents && raw[n] == NO_COMPRESSION && raw[..n + 1] == contents + [NO_COMPRESSION]
            && Unmask(DecodeFixed32(raw[n + 1..])) == crc(contents + [NO_COMPRESSION])
  {
    hide Mask, Unmask, EncodeFixed32, DecodeFixed32;
    var raw, n := RawBlock(crc, contents), |contents|;
    var sum := crc(contents + [NO_COMPRESSION]);
    assert raw[n + 1..] == EncodeFixed32(Mask(sum)) + [];
    Fixed32RoundTrip(Mask(sum), []);
    UnmaskUndoesMask(sum);
  }

  lemma SameStored(file: seq<Byte>, offset: nat, n: nat)
    requires offset + n + 5 <= |file|
    ensures DecodeFixed32(file[offset..offset + n + 5][n + 1..]) == DecodeFixed32(file[offset + n + 1..])
  {
    assert file[offset..offset + n + 5][n + 1..][..4] == file[offset + n + 1..][..4];
  }

  // ----- The first entry at or after a key -----

  ghost predicate FirstAtOrAfter(entries: seq<KeyValue>, k: seq<Byte>, i: nat) {
    && i <= |entries|
    && (forall j :: 0 <= j < i ==> InternalLess(entries[j].key, k))
    && (i < |entries| ==> !InternalLess(entries[i].key, k))
  }

  lemma {:induction false} FirstExists(entries: seq<KeyValue>, k: seq<Byte>, from: nat) returns (i: nat)
    requires from <= |entries| && forall j :: 0 <= j < from ==> InternalLess(entries[j].key, k)
    ensures FirstAtOrAfter(entries, k, i)
    decreases |entries| - from
  {
    hide InternalLess;
    if from < |entries| && InternalLess(entries[from].key, k) {
      i := FirstExists(entries, k, from + 1);
    } else {
      i := from;
    }
  }

  /** The index key sought: all blocks before its block are below the key. */
  lemma EarlierBlocksAreBelow(crc: LogFormat.Checksum, file: seq<Byte>, index: Layout, blocks: seq<Stored>,
                              k: seq<Byte>, b: nat, i: nat)
    requires Described(crc, file, index, blocks) && b <= |blocks| && i < StartOf(blocks, b)
    requires forall j :: 0 <= j < b ==> InternalLess(index.entries[j].key, k)
    ensures i < |AllEntries(blocks)| && InternalLess(AllEntries(blocks)[i].key, k)
  {
    hide Proper, Finished, InternalLess, RawBlock, HandleBytes, StartOf, AllEntries, IsSeparator, IsSuccessor;
    BlocksAreFull(crc, file, blocks);
    var c, p := WhereIs(blocks, b, i);
    var last := |blocks[c].layout.entries| - 1;
    EntryOfBlock(blocks, c, p);
    EntryOfBlock(blocks, c, last);
    var all := AllEntries(blocks);
    AscendsBetween(all, StartOf(blocks, c) + p, StartOf(blocks, c) + last);
    var s := index.entries[c].key;
    assert Separates(s, LastKey(blocks[c]), NextFirst(blocks, c, InternalKeys.None));
    UserOrder(LastKey(blocks[c]), s);
    InternalOrder(LastKey(blocks[c]), s, k);
    InternalOrder(all[i].key, LastKey(blocks[c]), k);
  }

  /** The block and the place in it of an entry. */
  lemma {:induction false} WhereIs(blocks: seq<Stored>, b: nat, i: nat) returns (c: nat, p: nat)
    requires b <= |blocks| && i < StartOf(blocks, b)
    ensures c < b && p < |blocks[c].layout.entries| && i == StartOf(blocks, c) + p
  {
    assert b > 0;
    assert blocks[..b][..b - 1] == blocks[..b - 1];
    if i < StartOf(blocks, b - 1) {
      c, p := WhereIs(blocks, b - 1, i);
    } else {
      c, p := b - 1, i - StartOf(blocks, b - 1);
    }
  }

  /** What a seek in the sought block finds is what a scan of all entries finds; and if the whole block is below
      the key, no entry has its user key, since the index key was shortened. */
  lemma BlockAnswers(crc: LogFormat.Checksum, file: seq<Byte>, index: Layout, blocks: seq<Stored>, k: seq<Byte>,
                     b: nat, p: nat)
    requires Described(crc, file, index, blocks) && b < |blocks|
    requires forall j :: 0 <= j < b ==> InternalLess(index.entries[j].key, k)
    requires !InternalLess(index.entries[b].key, k) && FirstAtOrAfter(blocks[b].layout.entries, k, p)
    ensures var all, entries := AllEntries(blocks), blocks[b].layout.entries; var i := StartOf(blocks, b) + p;
            && FirstAtOrAfter(all, k, i)
            && (p < |entries| ==> i < |all| && all[i] == entries[p])
            && (p == |entries| && i < |all| ==> UserKey(all[i].key) != UserKey(k))
  {
    hide Proper, Finished, InternalLess, RawBlock, HandleBytes, StartOf, AllEntries, Described, Less, UserKey;
    var all, entries := AllEntries(blocks), blocks[b].layout.entries;
    var i := StartOf(blocks, b) + p;
    forall j | 0 <= j < i
      ensures j < |all| && InternalLess(all[j].key, k)
    {
      if j < StartOf(blocks, b) {
        EarlierBlocksAreBelow(crc, file, index, blocks, k, b, j);
      } else {
        EntryOfBlock(blocks, b, j - StartOf(blocks, b));
      }
    }
    if p < |entries| {
      EntryOfBlock(blocks, b, p);
    } else {
      NextBlockIsPast(crc, file, index, blocks, k, b);
    }
  }

  lemma NextBlockIsPast(crc: LogFormat.Checksum, file: seq<Byte>, index: Layout, blocks: seq<Stored>, k: seq<Byte>,
                        b: nat)
    requires Described(crc, file, index, blocks) && b < |blocks| && !InternalLess(index.entries[b].key, k)
    requires forall q :: 0 <= q < |blocks[b].layout.entries| ==> InternalLess(blocks[b].layout.entries[q].key, k)
    ensures var all := AllEntries(blocks); var i := StartOf(blocks, b) + |blocks[b].layout.entries|;
            i <= |all| && (i < |all| ==> !InternalLess(all[i].key, k) && UserKey(all[i].key) != UserKey(k))
  {
    hide Proper, Finished, InternalLess, RawBlock, HandleBytes, StartOf, AllEntries, Less, UserKey, IsSeparator, IsSuccessor;
    BlocksAreFull(crc, file, blocks);
    var all := AllEntries(blocks);
    var last := |blocks[b].layout.entries| - 1;
    EntryOfBlock(blocks, b, last);
    if b + 1 < |blocks| {
      var s := index.entries[b].key;
      assert Separates(s, LastKey(blocks[b]), NextFirst(blocks, b, InternalKeys.None));
      EntryOfBlock(blocks, b + 1, 0);
      ShortenedKey(s, LastKey(blocks[b]), FirstKey(blocks[b + 1]), k);
    } else {
      WholeIs(blocks);
    }
  }

  lemma WholeIs(blocks: seq<Stored>)
    ensures StartOf(blocks, |blocks|) == |AllEntries(blocks)|
  {
    assert blocks[..|blocks|] == blocks;
  }

  /** A key between the last key of a block and its separator shares no user key with the next block. */
  lemma ShortenedKey(s: seq<Byte>, last: seq<Byte>, next: seq<Byte>, k: seq<Byte>)
    requires Separates(s, last, InternalKeys.Some(next)) && InternalLess(last, k) && !InternalLess(s, k)
    ensures !InternalLess(next, k) && UserKey(next) != UserKey(k)
  {
    hide InternalLess, Less, UserKey, IsSeparator, IsSuccessor;
    assert s != last;
    UserOrder(s, k);
    OneOfThree(UserKey(k), UserKey(s));
    OneOfThree(UserKey(k), UserKey(next));
    if Less(UserKey(k), UserKey(s)) {
      LessChains(UserKey(k), UserKey(s), UserKey(next));
    }
    UserOrder(k, next);
    InternalOrder(k, next, k);
  }

  lemma PastAllBlocks(crc: LogFormat.Checksum, file: seq<Byte>, index: Layout, blocks: seq<Stored>, k: seq<Byte>)
    requires Described(crc, file, index, blocks)
    requires forall j :: 0 <= j < |blocks| ==> InternalLess(index.entries[j].key, k)
    ensures FirstAtOrAfter(AllEntries(blocks), k, |AllEntries(blocks)|)
  {
    hide Described, InternalLess, StartOf, AllEntries;
    WholeIs(blocks);
    forall j | 0 <= j < |AllEntries(blocks)|
      ensures InternalLess(AllEntries(blocks)[j].key, k)
    {
      EarlierBlocksAreBelow(crc, file, index, blocks, k, |blocks|, j);
    }
  }

  // ----- Lookups -----

  /** Whether a lookup of `k` that reports `found` answers as a scan would: it reports an entry of the user key
      exactly when the first entry at or after `k` has it, and reports nothing but that first entry. */
  ghost predicate Answers(entries: seq<KeyValue>, k: seq<Byte>, found: InternalKeys.Option<KeyValue>) {
    exists i: nat :: FirstAtOrAfter(entries, k, i)
      && (found.Some? ==> i < |entries| && found.value == entries[i])
      && (found.Some? && UserKey(found.value.key) == UserKey(k) <==> i < |entries| && UserKey(entries[i].key) == UserKey(k))
  }

  lemma AnswerIs(entries: seq<KeyValue>, k: seq<Byte>, found: InternalKeys.Option<KeyValue>, i: nat)
    requires FirstAtOrAfter(entries, k, i)
    requires found.Some? ==> i < |entries| && found.value == entries[i]
    requires found.None? && i < |entries| ==> UserKey(entries[i].key) != UserKey(k)
    ensures Answers(entries, k, found)
  {
  }

  class Table {
    const crc: LogFormat.Checksum
    const file: seq<Byte>
    const index: seq<Byte>
    const filter: FilterBlockReader?
    ghost const layout: Layout
    ghost const blocks: seq<Stored>
    ghost const groups: seq<seq<seq<Byte>>>

    ghost predicate Valid()
      reads filter
    {
      && Described(crc, file, layout, blocks) && index == Finished(layout)
      && (filter != null ==>
            && filter.Valid() && filter.Reads(groups) && Filtered(groups, blocks)
            && NoFalseNegatives(filter.policy, UserKey))
    }

    /** The index and the filter as read. */
    constructor (crc: LogFormat.Checksum, file: seq<Byte>, index: seq<Byte>, filter: FilterBlockReader?,
                 ghost layout: Layout, ghost blocks: seq<Stored>, ghost groups: seq<seq<seq<Byte>>>)
      requires Described(crc, file, layout, blocks) && index == Finished(layout)
      requires filter != null ==>
                 && filter.Valid() && filter.Reads(groups) && Filtered(groups, blocks)
                 && NoFalseNegatives(filter.policy, UserKey)
      ensures Valid() && this.blocks == blocks && this.file == file && this.crc == crc && this.filter == filter
    {
      this.crc, this.file, this.index, this.filter := crc, file, index, filter;
      this.layout, this.blocks, this.groups := layout, blocks, groups;
    }

    /** Table::InternalGet: seek the index, ask the filter, seek the block. */
    method InternalGet(k: seq<Byte>, verify: bool) returns (ok: bool, found: InternalKeys.Option<KeyValue>)
      requires Valid()
      ensures ok && Answers(AllEntries(blocks), k, found)
    {
      hide Described, InternalLess, Finished, NoFalseNegatives, Filtered, Answers, HandleBytes, AllEntries, BlockAt, FilterBytes;
      ok, found := true, InternalKeys.None;
      var valid, entry, b := SeekIndex(k);
      if !valid {
        return;
      }
      EntryIsHandle(crc, file, layout, blocks, b);
      ghost var handle := Handle(blocks[b].offset, |Finished(blocks[b].layout)|);
      assert HandleBytes(handle) + [] == HandleBytes(handle);
      var decoded, h, left := DecodeHandle(entry.value, handle, []);
      var may := true;
      if filter != null && decoded {
        may := filter.KeyMayMatch(h.offset, k, groups);
      }
      if !may {
        NotInBlock(filter.policy, groups, blocks, b, k);
        RefusedRightly(crc, file, layout, blocks, b, k);
      } else {
        ok, found := SeekInBlock(h, k, verify, b);
      }
    }

    /** The first index entry at or after the key; when there is none, the whole table is below it. */
    method SeekIndex(k: seq<Byte>) returns (valid: bool, entry: KeyValue, ghost b: nat)
      requires Valid()
      ensures !valid ==> Answers(AllEntries(blocks), k, InternalKeys.None)
      ensures |layout.entries| == |blocks|
      ensures valid ==>
                && b < |blocks| && entry == layout.entries[b] && !InternalLess(layout.entries[b].key, k)
                && forall j :: 0 <= j < b ==> InternalLess(layout.entries[j].key, k)
    {
      hide Described, InternalLess, Finished, Proper, FirstAtOrAfter, Answers, AllEntries;
      IndexIsBlock(crc, file, layout, blocks);
      InternalLessIsTransitive();
      var iiter := new BlockIter(InternalLess, index, layout);
      iiter.Seek(k);
      iiter.ValidMeansEntry();
      valid, entry, b := iiter.IsValid(), KeyValue([], []), iiter.at;
      if valid {
        entry := iiter.Entry();
      } else {
        PastAllBlocks(crc, file, layout, blocks, k);
        AnswerIs(AllEntries(blocks), k, InternalKeys.None, |AllEntries(blocks)|);
      }
    }

    /** BlockReader, and the seek in the block. */
    method SeekInBlock(h: Handle, k: seq<Byte>, verify: bool, ghost b: nat)
      returns (ok: bool, found: InternalKeys.Option<KeyValue>)
      requires Valid() && b < |blocks| && BlockAt(crc, file, blocks[b])
      requires h == Handle(blocks[b].offset, |Finished(blocks[b].layout)|)
      requires |layout.entries| == |blocks| && !InternalLess(layout.entries[b].key, k)
      requires forall j :: 0 <= j < b ==> InternalLess(layout.entries[j].key, k)
      ensures ok && Answers(AllEntries(blocks), k, found)
    {
      hide Described, InternalLess, Finished, Proper, Answers, RawAt, NoFalseNegatives, Filtered, AllEntries;
      var contents: seq<Byte>;
      ok, contents := ReadBlock(crc, file, h, verify, Finished(blocks[b].layout));
      BlockIsAscending(crc, file, layout, blocks, b);
      found := FirstInBlock(contents, k, blocks[b].layout);
      BlockAnswer(crc, file, layout, blocks, k, b, found);
    }
  }

  /** A fresh iterator over a block, sought to a key. */
  method FirstInBlock(block: seq<Byte>, k: seq<Byte>, ghost layout: Layout) returns (found: InternalKeys.Option<KeyValue>)
    requires Proper(layout) && Ascending(InternalLess, layout.entries)
    requires block == Finished(layout) && |block| < TWO_TO_THE_32
    ensures FirstIn(layout.entries, k, found)
  {
    hide InternalLess, Finished, Proper, Ascending;
    InternalLessIsTransitive();
    var biter := new BlockIter(InternalLess, block, layout);
    biter.Seek(k);
    biter.ValidMeansEntry();
    found := InternalKeys.None;
    if biter.IsValid() {
      var entry := biter.Entry();
      found := InternalKeys.Some(entry);
    }
    assert FirstAtOrAfter(layout.entries, k, biter.at);
  }

  ghost predicate FirstIn(entries: seq<KeyValue>, k: seq<Byte>, found: InternalKeys.Option<KeyValue>) {
    exists p: nat :: FirstAtOrAfter(entries, k, p)
      && found == if p < |entries| then InternalKeys.Some(entries[p]) else InternalKeys.None
  }

  lemma BlockAnswer(crc: LogFormat.Checksum, file: seq<Byte>, index: Layout, blocks: seq<Stored>, k: seq<Byte>,
                    b: nat, found: InternalKeys.Option<KeyValue>)
    requires Described(crc, file, index, blocks) && b < |blocks| == |index.entries|
    requires forall j :: 0 <= j < b ==> InternalLess(index.entries[j].key, k)
    requires !InternalLess(index.entries[b].key, k) && FirstIn(blocks[b].layout.entries, k, found)
    ensures Answers(AllEntries(blocks), k, found)
  {
    hide Described, InternalLess, UserKey, Answers, AllEntries, StartOf, FirstAtOrAfter;
    var entries := blocks[b].layout.entries;
    var p: nat :| FirstAtOrAfter(entries, k, p)
      && found == if p < |entries| then InternalKeys.Some(entries[p]) else InternalKeys.None;
    BlockAnswers(crc, file, index, blocks, k, b, p);
    PlaceInBlock(entries, k, p);
    AnswerIs(AllEntries(blocks), k, found, StartOf(blocks, b) + p);
  }

  lemma PlaceInBlock(entries: seq<KeyValue>, k: seq<Byte>, p: nat)
    requires FirstAtOrAfter(entries, k, p)
    ensures p <= |entries|
  {
  }

  /** What a reader's policy has to do with the one the table was built with: one name means one policy. */
  ghost predicate Agree(written: InternalKeys.Option<Policy>, reader: InternalKeys.Option<Policy>) {
    reader.Some? ==>
      && NoFalseNegatives(reader.value, UserKey)
      && (written.Some? && written.value.name == reader.value.name ==> written == reader)
  }

  /** Table::Open: the footer, the index and the filter, from the bytes of a file alone. */
  method Open(crc: LogFormat.Checksum, file: seq<Byte>, policy: InternalKeys.Option<Policy>, verify: bool,
              ghost blocks: seq<Stored>, ghost written: InternalKeys.Option<Policy>, ghost p: Parts)
    returns (ok: bool, table: Table?)
    requires Complete(crc, file, blocks, written, p) && Agree(written, policy)
    ensures ok && table != null && fresh(table) && table.Valid() && table.blocks == blocks
    // The filter is used if there is one of this name.
    ensures table.filter != null <==> policy.Some? && written.Some? && policy.value.name == written.value.name
  {
    hide Described, FilterWritten, BlockWritten, Agree, Finished, NoFalseNegatives, Covered, FooterBytes, MetaEntries;
    var metaHandle, indexHandle;
    ok, metaHandle, indexHandle := ReadFooter(file, p.metaHandle, p.indexHandle);
    var index: seq<Byte>;
    BlockIsThere(crc, file, indexHandle, p.index);
    ok, index := ReadBlock(crc, file, indexHandle, verify, Finished(p.index));
    var filter := ReadMeta(crc, file, metaHandle, policy, verify, blocks, written, p);
    if filter != null {
      AgreeMeans(written, policy);
    }
    table := new Table(crc, file, index, filter, p.index, blocks, p.groups);
  }

  lemma BlockIsThere(crc: LogFormat.Checksum, file: seq<Byte>, h: Handle, layout: Layout)
    requires BlockWritten(crc, file, h, layout)
    ensures Proper(layout) && |Finished(layout)| < TWO_TO_THE_32
    ensures RawAt(crc, file, h.offset, Finished(layout)) && h.size == |Finished(layout)|
  {
    hide Proper, Finished, RawAt;
  }

  lemma AgreeMeans(written: InternalKeys.Option<Policy>, reader: InternalKeys.Option<Policy>)
    requires Agree(written, reader) && reader.Some?
    ensures NoFalseNegatives(reader.value, UserKey)
    ensures written.Some? && written.value.name == reader.value.name ==> written == reader
  {
    hide NoFalseNegatives;
  }

  /** Table::ReadMeta and ReadFilter: look the policy's name up in the metaindex, and read the filter it has. */
  method ReadMeta(crc: LogFormat.Checksum, file: seq<Byte>, metaHandle: Handle, policy: InternalKeys.Option<Policy>,
                  verify: bool, ghost blocks: seq<Stored>, ghost written: InternalKeys.Option<Policy>, ghost p: Parts)
    returns (filter: FilterBlockReader?)
    requires FilterWritten(crc, file, written, p.filterHandle, p.groups) && Agree(written, policy)
    requires BlockWritten(crc, file, metaHandle, p.meta) && p.meta.entries == MetaEntries(written, p.filterHandle)
    ensures filter != null <==> policy.Some? && written.Some? && policy.value.name == written.value.name
    ensures filter != null ==> fresh(filter) && filter.Valid() && filter.policy == policy.value && filter.Reads(p.groups)
  {
    hide BlockWritten, Agree, Finished, FilterBlock, RawAt, FilterKey, HandleBytes, Proper, NoFalseNegatives, Less;
    filter := null;
    if policy.None? {
      return;
    }
    BlockIsThere(crc, file, metaHandle, p.meta);
    AgreeMeans(written, policy);
    var ok, contents := ReadBlock(crc, file, metaHandle, verify, Finished(p.meta));
    LessIsTransitive();
    var iter := new BlockIter(Less, contents, p.meta);
    var key := FilterKey(policy.value);
    SameNames(written, policy);
    iter.Seek(key);
    iter.ValidMeansEntry();
    OneOfThree(key, key);
    if iter.IsValid() {
      var entry := iter.Entry();
      if entry.key == key {
        assert HandleBytes(p.filterHandle) + [] == HandleBytes(p.filterHandle);
        var decoded, h, left := DecodeHandle(entry.value, p.filterHandle, []);
        ok, contents := ReadBlock(crc, file, h, verify, FilterBlock(policy.value, p.groups));
        filter := new FilterBlockReader(policy.value, contents, p.groups);
      }
    }
  }

  lemma LessIsTransitive()
    ensures Transitive(Less)
  {
    hide Less;
    forall a, b, c | Less(a, b) && Less(b, c)
      ensures Less(a, c)
    {
      LessChains(a, b, c);
    }
  }

  /** The keys of the metaindex tell the names apart. */
  lemma SameNames(written: InternalKeys.Option<Policy>, reader: InternalKeys.Option<Policy>)
    ensures written.Some? && reader.Some? && FilterKey(written.value) == FilterKey(reader.value) ==>
              written.value.name == reader.value.name
    ensures written.Some? && reader.Some? && written.value.name == reader.value.name ==>
              FilterKey(written.value) == FilterKey(reader.value)
  {
    if written.Some? && reader.Some? && FilterKey(written.value) == FilterKey(reader.value) {
      SameSuffix(Ascii("filter."), written.value.name, reader.value.name);
    }
  }

  /** Finishing a table, opening the file from its bytes and looking a key up answers as a scan of the entries added
      would, whatever policy the reader has: the same one, another one, or none. */
  method FinishAndGet(builder: TableBuilder, policy: InternalKeys.Option<Policy>, k: seq<Byte>, verify: bool)
    returns (ok: bool, found: InternalKeys.Option<KeyValue>)
    requires builder.Valid() && builder.FinishRoom() && Agree(builder.PolicyUsed(), policy)
    modifies builder, builder.dataBlock, builder.indexBlock, builder.filterBlock
    ensures ok && Answers(old(builder.Entries()), k, found)
  {
    hide Complete, Agree, Answers, AllEntries, TableBuilder.Valid, TableBuilder.FinishRoom;
    ghost var parts := builder.Finish();
    var table: Table?;
    ok, table := Open(builder.crc, builder.file, policy, verify, builder.blocks, builder.PolicyUsed(), parts);
    ok, found := table.InternalGet(k, verify);
  }

  /** The same with the Bloom filter of any settings, with no hypothesis about it, and with a reader that has it or
      has no policy. */
  method FinishAndGetBloom(builder: TableBuilder, settings: Blooms.Settings, filtered: bool, k: seq<Byte>, verify: bool)
    returns (ok: bool, found: InternalKeys.Option<KeyValue>)
    requires builder.Valid() && builder.FinishRoom() && Blooms.Proper(settings) && builder.filterBlock != null
    requires builder.filterBlock.policy == Blooms.OnUserKeys(Blooms.PolicyOf(settings))
    modifies builder, builder.dataBlock, builder.indexBlock, builder.filterBlock
    ensures ok && Answers(old(builder.Entries()), k, found)
  {
    hide NoFalseNegatives, Answers, TableBuilder.Valid, TableBuilder.FinishRoom;
    Blooms.BloomOnUserKeys(settings);
    var policy := if filtered then InternalKeys.Some(builder.filterBlock.policy) else InternalKeys.None;
    ok, found := FinishAndGet(builder, policy, k, verify);
  }

  lemma IndexIsBlock(crc: LogFormat.Checksum, file: seq<Byte>, index: Layout, blocks: seq<Stored>)
    requires Described(crc, file, index, blocks)
    ensures Proper(index) && Ascending(InternalLess, index.entries) && |Finished(index)| < TWO_TO_THE_32
    ensures |index.entries| == |blocks|
  {
    hide Proper, Ascending, Finished, AllAt;
  }

  lemma EntryIsHandle(crc: LogFormat.Checksum, file: seq<Byte>, index: Layout, blocks: seq<Stored>, b: nat)
    requires Described(crc, file, index, blocks) && b < |blocks|
    ensures |index.entries| == |blocks| && Proper(blocks[b].layout) && BlockAt(crc, file, blocks[b])
    ensures |Finished(blocks[b].layout)| < TWO_TO_THE_32 && blocks[b].offset < TWO_TO_THE_64
    ensures index.entries[b].value == HandleBytes(Handle(blocks[b].offset, |Finished(blocks[b].layout)|))
  {
    hide Proper, Ascending, Finished, RawAt, HandleBytes, Separates;
    assert BlockAt(crc, file, blocks[b]);
  }

  lemma BlockIsAscending(crc: LogFormat.Checksum, file: seq<Byte>, index: Layout, blocks: seq<Stored>, b: nat)
    requires Described(crc, file, index, blocks) && b < |blocks|
    ensures Ascending(InternalLess, blocks[b].layout.entries)
  {
    hide Proper, Finished, InternalLess, AllAt, Indexed, AllEntries, StartOf;
    var entries := blocks[b].layout.entries;
    forall i, j | 0 <= i < j < |entries|
      ensures InternalLess(entries[i].key, entries[j].key)
    {
      EntryOfBlock(blocks, b, i);
      EntryOfBlock(blocks, b, j);
    }
  }

  /** The filter has no false negatives: a block that may not match holds no entry of the user key. */
  lemma NotInBlock(policy: Policy, groups: seq<seq<seq<Byte>>>, blocks: seq<Stored>, b: nat, k: seq<Byte>)
    requires NoFalseNegatives(policy, UserKey) && Filtered(groups, blocks) && b < |blocks|
    requires var g := blocks[b].offset / FILTER_BASE;
             g < |groups| && !policy.mayMatch(k, FilterBytes(policy, groups[g]))
    ensures forall e :: e in blocks[b].layout.entries ==> UserKey(e.key) != UserKey(k)
  {
    hide UserKey, NoFalseNegatives, FilterBytes;
    forall e | e in blocks[b].layout.entries
      ensures UserKey(e.key) != UserKey(k)
    {
      var g := blocks[b].offset / FILTER_BASE;
      assert e.key in groups[g];
      if UserKey(k) == UserKey(e.key) {
        HeldKeysMatch(policy, UserKey, groups[g], e.key, k);
      }
    }
  }

  lemma RefusedRightly(crc: LogFormat.Checksum, file: seq<Byte>, index: Layout, blocks: seq<Stored>, b: nat, k: seq<Byte>)
    requires Described(crc, file, index, blocks) && b < |blocks| == |index.entries|
    requires forall j :: 0 <= j < b ==> InternalLess(index.entries[j].key, k)
    requires !InternalLess(index.entries[b].key, k)
    requires forall e :: e in blocks[b].layout.entries ==> UserKey(e.key) != UserKey(k)
    ensures Answers(AllEntries(blocks), k, InternalKeys.None)
  {
    hide Described, InternalLess, UserKey, Answers, AllEntries, StartOf;
    var entries := blocks[b].layout.entries;
    var p := FirstExists(entries, k, 0);
    BlockAnswers(crc, file, index, blocks, k, b, p);
    AnswerIs(AllEntries(blocks), k, InternalKeys.None, StartOf(blocks, b) + p);
  }

  /** Table::NewIterator: the two-level iterator over a finished table reads all its entries in order, and its index
      keys are what a seek in it needs. */
  lemma TableIsSeparated(crc: LogFormat.Checksum, file: seq<Byte>, index: Layout, blocks: seq<Stored>,
                         open: seq<Byte> -> seq<KeyValue>)
    requires Described(crc, file, index, blocks) && |index.entries| == |blocks|
    requires forall i :: 0 <= i < |blocks| ==> open(index.entries[i].value) == blocks[i].layout.entries
    ensures Run(index.entries, open, |index.entries|) == AllEntries(blocks)
    ensures Separated(InternalLess, index.entries, open) && Ordering(InternalLess)
  {
    hide Described, Less, UserKey, Trailer, AllEntries, StartOf, Run;
    InternalIsOrdering();
    RunIsAll(index.entries, blocks, open, |blocks|);
    assert blocks[..|blocks|] == blocks;
    forall i, e | 0 <= i < |blocks| && e in blocks[i].layout.entries
      ensures !InternalLess(index.entries[i].key, e.key)
    {
      var p :| 0 <= p < |blocks[i].layout.entries| && blocks[i].layout.entries[p] == e;
      SeparatorIsAtOrAfter(crc, file, index, blocks, i, p);
    }
    forall i, j, e | 0 <= i < j < |blocks| && e in blocks[j].layout.entries
      ensures InternalLess(index.entries[i].key, e.key)
    {
      var p :| 0 <= p < |blocks[j].layout.entries| && blocks[j].layout.entries[p] == e;
      SeparatorIsBefore(crc, file, index, blocks, i, j, p);
    }
  }

  lemma InternalIsOrdering()
    ensures Ordering(InternalLess)
  {
    hide Less, UserKey, Trailer;
    InternalLessIsTransitive();
    forall a, b, c
      ensures InternalLess(a, c) ==> InternalLess(a, b) || InternalLess(b, c)
    {
      InternalOrder(a, b, c);
    }
    forall a
      ensures !InternalLess(a, a)
    {
      InternalOrder(a, a, a);
    }
  }

  lemma {:induction false} RunIsAll(index: seq<KeyValue>, blocks: seq<Stored>, open: seq<Byte> -> seq<KeyValue>, n: nat)
    requires n <= |blocks| == |index|
    requires forall i :: 0 <= i < |blocks| ==> open(index[i].value) == blocks[i].layout.entries
    ensures Run(index, open, n) == AllEntries(blocks[..n])
  {
    if n > 0 {
      RunIsAll(index, blocks, open, n - 1);
      assert blocks[..n][..n - 1] == blocks[..n - 1];
    }
  }

  lemma SeparatorIsAtOrAfter(crc: LogFormat.Checksum, file: seq<Byte>, index: Layout, blocks: seq<Stored>, i: nat, p: nat)
    requires Described(crc, file, index, blocks) && i < |blocks| && p < |blocks[i].layout.entries|
    ensures |index.entries| == |blocks| && !InternalLess(index.entries[i].key, blocks[i].layout.entries[p].key)
  {
    hide Proper, Finished, InternalLess, RawBlock, HandleBytes, StartOf, AllEntries, Less, UserKey, IsSeparator, IsSuccessor;
    BlocksAreFull(crc, file, blocks);
    var last := |blocks[i].layout.entries| - 1;
    var s, k := index.entries[i].key, blocks[i].layout.entries[p].key;
    assert Separates(s, LastKey(blocks[i]), NextFirst(blocks, i, InternalKeys.None));
    EntryOfBlock(blocks, i, p);
    EntryOfBlock(blocks, i, last);
    AscendsBetween(AllEntries(blocks), StartOf(blocks, i) + p, StartOf(blocks, i) + last);
    UserOrder(LastKey(blocks[i]), s);
    InternalOrder(s, k, LastKey(blocks[i]));
    InternalOrder(LastKey(blocks[i]), s, LastKey(blocks[i]));
  }

  lemma SeparatorIsBefore(crc: LogFormat.Checksum, file: seq<Byte>, index: Layout, blocks: seq<Stored>, i: nat, j: nat,
                          p: nat)
    requires Described(crc, file, index, blocks) && i < j < |blocks| && p < |blocks[j].layout.entries|
    ensures |index.entries| == |blocks| && InternalLess(index.entries[i].key, blocks[j].layout.entries[p].key)
  {
    hide Described, InternalLess, StartOf, AllEntries;
    SeparatorBeforeNext(crc, file, index, blocks, i);
    EntryOfBlock(blocks, i + 1, 0);
    EntryOfBlock(blocks, j, p);
    StartsAscend(blocks, i + 1, j);
    EntriesAscend(crc, file, index, blocks, StartOf(blocks, i + 1), StartOf(blocks, j) + p);
    InternalOrder(index.entries[i].key, FirstKey(blocks[i + 1]), blocks[j].layout.entries[p].key);
  }

  lemma SeparatorBeforeNext(crc: LogFormat.Checksum, file: seq<Byte>, index: Layout, blocks: seq<Stored>, i: nat)
    requires Described(crc, file, index, blocks) && i + 1 < |blocks|
    ensures |index.entries| == |blocks| && blocks[i + 1].layout.entries != []
    ensures InternalLess(index.entries[i].key, FirstKey(blocks[i + 1]))
  {
    hide Proper, Finished, InternalLess, RawAt, HandleBytes, AllEntries, Ascending, KeysAreLong, IsSeparator, IsSuccessor;
    BlocksAreFull(crc, file, blocks);
    assert Separates(index.entries[i].key, LastKey(blocks[i]), NextFirst(blocks, i, InternalKeys.None));
  }

  lemma EntriesAscend(crc: LogFormat.Checksum, file: seq<Byte>, index: Layout, blocks: seq<Stored>, i: nat, j: nat)
    requires Described(crc, file, index, blocks) && i <= j < |AllEntries(blocks)|
    ensures var all := AllEntries(blocks); all[i].key == all[j].key || InternalLess(all[i].key, all[j].key)
  {
    hide Proper, Finished, InternalLess, AllAt, Indexed, AllEntries;
    AscendsBetween(AllEntries(blocks), i, j);
  }

  lemma {:induction false} StartsAscend(blocks: seq<Stored>, i: nat, j: nat)
    requires i <= j <= |blocks|
    ensures StartOf(blocks, i) <= StartOf(blocks, j)
    decreases j
  {
    if i < j {
      StartsAscend(blocks, i, j - 1);
      assert blocks[..j][..j - 1] == blocks[..j - 1];
    }
  }
}
