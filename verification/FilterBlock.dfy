/** The filter block of a table (table/filter_block.cc): one filter for each 2 KB of data, and no false
    negatives as long as the filter policy has none. */
module FilterBlocks {
  import opened Coding

  const FILTER_BASE_LG: nat := 11
  const FILTER_BASE: nat := 2048

  datatype Policy = Policy(name: seq<Byte>, create: seq<seq<Byte>> -> seq<Byte>,
                           mayMatch: (seq<Byte>, seq<Byte>) -> bool)

  /** A filter matches every key that looks the same as one it was made of. */
  ghost predicate NoFalseNegatives(policy: Policy, view: seq<Byte> -> seq<Byte>) {
    forall keys, k, x :: k in keys && view(x) == view(k) ==> policy.mayMatch(x, policy.create(keys))
  }

  function FilterBytes(policy: Policy, keys: seq<seq<Byte>>): seq<Byte> {
    if keys == [] then [] else policy.create(keys)
  }

  /** The first `n` filters. */
  function Filters(policy: Policy, groups: seq<seq<seq<Byte>>>, n: nat): seq<Byte>
    requires n <= |groups|
  {
    if n == 0 then [] else Filters(policy, groups, n - 1) + FilterBytes(policy, groups[n - 1])
  }

  /** Where the first `n` filters start. */
  function Offsets(policy: Policy, groups: seq<seq<seq<Byte>>>, n: nat): (r: seq<Byte>)
    requires n <= |groups|
    ensures |r| == 4 * n
  {
    if n == 0 then [] else Offsets(policy, groups, n - 1) + LittleEndian(|Filters(policy, groups, n - 1)|, 4)
  }

  function FilterBlock(policy: Policy, groups: seq<seq<seq<Byte>>>): seq<Byte> {
    Filters(policy, groups, |groups|) + Offsets(policy, groups, |groups|)
    + LittleEndian(|Filters(policy, groups, |groups|)|, 4) + [FILTER_BASE_LG]
  }

  /** All keys one after the other. */
  function Flat(keys: seq<seq<Byte>>): seq<Byte> {
    if keys == [] then [] else Flat(keys[..|keys| - 1]) + keys[|keys| - 1]
  }

  // ----- Building -----

  class FilterBlockBuilder {
    const policy: Policy
    var keys: seq<Byte>                  // flattened keys
    var start: seq<nat>                  // where each key starts
    var result: seq<Byte>
    var filterOffsets: seq<nat>
    ghost var groups: seq<seq<seq<Byte>>> // the keys of each filter so far
    ghost var pending: seq<seq<Byte>>     // the keys since

    ghost predicate Valid()
      reads this
    {
      && |filterOffsets| == |groups| && result == Filters(policy, groups, |groups|)
      && (forall i :: 0 <= i < |groups| ==> filterOffsets[i] == |Filters(policy, groups, i)|)
      && KeysValid()
    }

    ghost predicate KeysValid()
      reads this
    {
      && |start| == |pending| && keys == Flat(pending)
      && (forall i :: 0 <= i < |start| ==> start[i] == |Flat(pending[..i])|)
    }

    /** All groups of keys, with the keys that wait for a filter. */
    ghost function Groups(): seq<seq<seq<Byte>>>
      reads this
    {
      groups + [pending]
    }

    /** How long all filters will be. */
    ghost function TotalSize(): nat
      reads this
    {
      |result| + |FilterBytes(policy, pending)|
    }

    constructor (policy: Policy)
      ensures Valid() && this.policy == policy && groups == [] && pending == []
    {
      this.policy := policy;
      keys, start, result, filterOffsets, groups, pending := [], [], [], [], [], [];
    }

    /** A data block starts at an offset: its keys go to the filter of that offset. */
    method StartBlock(blockOffset: nat)
      requires Valid() && blockOffset / FILTER_BASE >= |groups|
      modifies this
      ensures Valid() && |groups| == blockOffset / FILTER_BASE && TotalSize() == old(TotalSize())
      ensures |groups| == |old(groups)| ==> pending == old(pending) && groups == old(groups)
      ensures |groups| > |old(groups)| ==>
                && pending == [] && old(Groups()) <= groups
                && forall i :: |old(groups)| < i < |groups| ==> groups[i] == []
    {
      hide Filters, Flat;
      var filterIndex := blockOffset / FILTER_BASE;
      while filterIndex > |filterOffsets|
        invariant Valid() && |groups| <= filterIndex && TotalSize() == old(TotalSize())
        invariant |groups| == |old(groups)| ==> pending == old(pending) && groups == old(groups)
        invariant |groups| > |old(groups)| ==>
                    && pending == [] && old(Groups()) <= groups
                    && forall i :: |old(groups)| < i < |groups| ==> groups[i] == []
        decreases filterIndex - |filterOffsets|
      {
        GenerateFilter();
      }
    }

    method AddKey(key: seq<Byte>)
      requires Valid()
      modifies this`keys, this`start, this`pending
      ensures Valid() && pending == old(pending) + [key]
    {
      hide Filters;
      FlatOneMore(pending, key);
      start := start + [|keys|];
      keys := keys + key;
      pending := pending + [key];
    }

    method GenerateFilter()
      requires Valid()
      modifies this
      ensures Valid() && pending == [] && groups == old(groups) + [old(pending)]
      ensures result == old(result) + FilterBytes(policy, old(pending)) && TotalSize() == old(TotalSize())
    {
      hide Flat;
      FiltersOneMore(policy, groups, pending);
      NoKeys();
      var numKeys := |start|;
      filterOffsets := filterOffsets + [|result|];
      if numKeys > 0 {
        var tmpKeys := SplitKeys();
        result := result + policy.create(tmpKeys);
      }
      groups := groups + [pending];
      keys, start, pending := [], [], [];
    }

    /** Cut the flattened keys apart again. */
    method SplitKeys() returns (tmpKeys: seq<seq<Byte>>)
      requires KeysValid()
      ensures tmpKeys == pending
    {
      hide Filters;
      var ends := start + [|keys|];
      tmpKeys := [];
      for i := 0 to |start|
        invariant tmpKeys == pending[..i]
      {
        FlatParts(pending, i);
        assert ends[i + 1] == |Flat(pending[..i + 1])| by {
          assert i + 1 == |pending| ==> pending[..i + 1] == pending;
        }
        tmpKeys := tmpKeys + [keys[ends[i]..ends[i + 1]]];
      }
    }

    method Finish() returns (contents: seq<Byte>)
      requires Valid() && TotalSize() < TWO_TO_THE_32
      modifies this
      ensures contents == FilterBlock(policy, old(if pending == [] then groups else Groups()))
      ensures |contents| <= old(TotalSize()) + 4 * (|old(groups)| + 1) + 5
    {
      hide Flat, Filters;
      if start != [] {
        GenerateFilter();
      }
      ghost var all := groups;
      var arrayOffset := |result|;
      contents := result;
      FiltersGrowTo(policy, all);
      for i := 0 to |filterOffsets|
        modifies {}
        invariant contents == Filters(policy, all, |all|) + Offsets(policy, all, i)
      {
        assert filterOffsets[i] == |Filters(policy, all, i)|;
        contents := contents + EncodeFixed32(filterOffsets[i]);
      }
      contents := contents + EncodeFixed32(arrayOffset) + [FILTER_BASE_LG];
    }
  }

  lemma NoKeys()
    ensures Flat([]) == []
  {
  }

  lemma FlatOneMore(keys: seq<seq<Byte>>, key: seq<Byte>)
    ensures Flat(keys + [key]) == Flat(keys) + key
    ensures forall i :: 0 <= i <= |keys| ==> (keys + [key])[..i] == keys[..i]
  {
    assert (keys + [key])[..|keys|] == keys;
  }

  lemma {:induction false} FlatPrefix(keys: seq<seq<Byte>>, i: nat)
    requires i <= |keys|
    ensures Flat(keys[..i]) <= Flat(keys)
  {
    if i == |keys| {
      assert keys[..i] == keys;
    } else {
      var n := |keys| - 1;
      FlatPrefix(keys[..n], i);
      assert keys[..n][..i] == keys[..i];
    }
  }

  /** A key stands in the flattened keys between the ends of the keys before it and itself. */
  lemma FlatParts(keys: seq<seq<Byte>>, i: nat)
    requires i < |keys|
    ensures |Flat(keys[..i])| <= |Flat(keys[..i + 1])| <= |Flat(keys)|
    ensures Flat(keys)[|Flat(keys[..i])|..|Flat(keys[..i + 1])|] == keys[i]
    ensures keys[..i + 1] == keys[..i] + [keys[i]]
  {
    FlatPrefix(keys, i + 1);
    assert keys[..i + 1][..i] == keys[..i];
    assert Flat(keys[..i + 1]) == Flat(keys[..i]) + keys[i];
  }

  lemma {:induction false} SameFilters(policy: Policy, a: seq<seq<seq<Byte>>>, b: seq<seq<seq<Byte>>>, n: nat)
    requires n <= |a| && a <= b
    ensures Filters(policy, a, n) == Filters(policy, b, n)
  {
    if n > 0 {
      SameFilters(policy, a, b, n - 1);
    }
  }

  lemma FiltersOneMore(policy: Policy, groups: seq<seq<seq<Byte>>>, keys: seq<seq<Byte>>)
    ensures var all := groups + [keys];
            && Filters(policy, all, |all|) == Filters(policy, groups, |groups|) + FilterBytes(policy, keys)
            && forall i :: 0 <= i <= |groups| ==> Filters(policy, all, i) == Filters(policy, groups, i)
  {
    forall i | 0 <= i <= |groups|
      ensures Filters(policy, groups + [keys], i) == Filters(policy, groups, i)
    {
      SameFilters(policy, groups, groups + [keys], i);
    }
  }

  lemma {:induction false} FiltersGrow(policy: Policy, groups: seq<seq<seq<Byte>>>, i: nat, n: nat)
    requires i <= n <= |groups|
    ensures Filters(policy, groups, i) <= Filters(policy, groups, n)
    decreases n
  {
    if i < n {
      FiltersGrow(policy, groups, i, n - 1);
    }
  }

  lemma FiltersGrowTo(policy: Policy, groups: seq<seq<seq<Byte>>>)
    ensures forall i :: 0 <= i <= |groups| ==>
              |Filters(policy, groups, i)| <= |Filters(policy, groups, |groups|)|
  {
    forall i | 0 <= i <= |groups|
      ensures |Filters(policy, groups, i)| <= |Filters(policy, groups, |groups|)|
    {
      FiltersGrow(policy, groups, i, |groups|);
    }
  }

  // ----- Reading -----

  /** 1 << n */
  function Power2(n: nat): (p: nat)
    ensures p >= 1
  {
    if n == 0 then 1 else 2 * Power2(n - 1)
  }

  lemma FilterBase()
    ensures Power2(FILTER_BASE_LG) == FILTER_BASE
  {
    assert Power2(3) == 8;
    assert Power2(6) == 8 * Power2(3);
    assert Power2(9) == 8 * Power2(6);
    assert Power2(11) == 4 * Power2(9);
  }

  class FilterBlockReader {
    const policy: Policy
    const contents: seq<Byte>
    var arrayOffset: nat
    var num: nat
    var baseLg: nat

    ghost predicate Valid()
      reads this
    {
      num == 0 || arrayOffset + 4 * num + 5 <= |contents|
    }

    /** Too short or inconsistent contents read as no filters. */
    constructor (policy: Policy, contents: seq<Byte>, ghost groups: seq<seq<seq<Byte>>>)
      ensures Valid() && this.policy == policy && this.contents == contents
      ensures contents == FilterBlock(policy, groups) && |contents| < TWO_TO_THE_32 ==> Reads(groups)
    {
      hide Filters, Offsets;
      this.policy, this.contents := policy, contents;
      arrayOffset, num, baseLg := 0, 0, 0;
      new;
      BlockEnds(policy, groups);
      var n := |contents|;
      if n < 5 {
        return;
      }
      baseLg := contents[n - 1];
      var lastWord := DecodeFixed32(contents[n - 5..]);
      if lastWord > n - 5 {
        return;
      }
      arrayOffset := lastWord;
      num := (n - 5 - lastWord) / 4;
    }

    /** The reader reads a block that was made of these groups of keys. */
    ghost predicate Reads(groups: seq<seq<seq<Byte>>>)
      reads this
    {
      && contents == FilterBlock(policy, groups) && |contents| < TWO_TO_THE_32
      && arrayOffset == |Filters(policy, groups, |groups|)| && num == |groups| && baseLg == FILTER_BASE_LG
    }

    /** Whether a block at an offset may hold a key: what the policy says of the filter for that offset, and yes
        where there is no filter. */
    method KeyMayMatch(blockOffset: nat, key: seq<Byte>, ghost groups: seq<seq<seq<Byte>>>) returns (may: bool)
      requires Valid()
      ensures Reads(groups) ==>
                may == (blockOffset / FILTER_BASE < |groups| ==>
                             policy.mayMatch(key, FilterBytes(policy, groups[blockOffset / FILTER_BASE])))
    {
      hide Filters, FilterBlock, FilterBytes, DecodeFixed32;
      FilterBase();
      var index := blockOffset / Power2(baseLg);
      if index >= num {
        return true;
      }
      var first := DecodeFixed32(contents[arrayOffset + index * 4..]);
      var limit := DecodeFixed32(contents[arrayOffset + index * 4 + 4..]);
      FilterOf(groups, index);
      if first <= limit <= arrayOffset {
        return policy.mayMatch(key, contents[first..limit]);
      } else if first == limit {
        return false;
      }
      return true;
    }

    lemma FilterOf(groups: seq<seq<seq<Byte>>>, index: nat)
      requires Valid() && index < num
      ensures var first := DecodeFixed32(contents[arrayOffset + index * 4..]);
              var limit := DecodeFixed32(contents[arrayOffset + index * 4 + 4..]);
              Reads(groups) ==>
                && index < |groups| && first <= limit <= arrayOffset
                && contents[first..limit] == FilterBytes(policy, groups[index])
    {
      hide Filters, Offsets, FilterBlock, FilterBytes, DecodeFixed32;
      if Reads(groups) {
        OffsetAt(policy, groups, index);
        OffsetAt(policy, groups, index + 1);
        FilterAt(policy, groups, index);
      }
    }
  }

  lemma BlockEnds(policy: Policy, groups: seq<seq<seq<Byte>>>)
    ensures var block := FilterBlock(policy, groups); var n := |block|;
            && n == |Filters(policy, groups, |groups|)| + 4 * |groups| + 5 && block[n - 1] == FILTER_BASE_LG
            && (n < TWO_TO_THE_32 ==> DecodeFixed32(block[n - 5..]) == |Filters(policy, groups, |groups|)|)
  {
    hide Filters, Offsets, LittleEndian;
    var block, filters := FilterBlock(policy, groups), Filters(policy, groups, |groups|);
    var n := |block|;
    assert block[n - 5..] == LittleEndian(|filters|, 4) + [FILTER_BASE_LG];
    if n < TWO_TO_THE_32 {
      Fixed32RoundTrip(|filters|, [FILTER_BASE_LG]);
    }
  }

  lemma {:induction false} OffsetsPrefix(policy: Policy, groups: seq<seq<seq<Byte>>>, i: nat, n: nat)
    returns (tail: seq<Byte>)
    requires i <= n <= |groups|
    ensures Offsets(policy, groups, n) == Offsets(policy, groups, i) + tail
    ensures i < n ==> exists more: seq<Byte> :: tail == LittleEndian(|Filters(policy, groups, i)|, 4) + more
    decreases n
  {
    hide Filters, LittleEndian;
    if i == n {
      tail := [];
    } else {
      var t := OffsetsPrefix(policy, groups, i, n - 1);
      var word := LittleEndian(|Filters(policy, groups, n - 1)|, 4);
      tail := t + word;
      Regroup(Offsets(policy, groups, i), t, word);
      if i < n - 1 {
        var more: seq<Byte> :| t == LittleEndian(|Filters(policy, groups, i)|, 4) + more;
        Regroup(LittleEndian(|Filters(policy, groups, i)|, 4), more, word);
      } else {
        assert t == [] && tail == word + [];
      }
    }
  }

  /** The word that tells where filter `i` starts; the one after the last tells where they all end. */
  lemma OffsetAt(policy: Policy, groups: seq<seq<seq<Byte>>>, i: nat)
    requires i <= |groups| && |FilterBlock(policy, groups)| < TWO_TO_THE_32
    ensures var block, all := FilterBlock(policy, groups), |Filters(policy, groups, |groups|)|;
            all + i * 4 + 4 <= |block| && DecodeFixed32(block[all + i * 4..]) == |Filters(policy, groups, i)|
  {
    hide Filters, Offsets, LittleEndian;
    var block, filters := FilterBlock(policy, groups), Filters(policy, groups, |groups|);
    FiltersGrow(policy, groups, i, |groups|);
    var word := LittleEndian(|Filters(policy, groups, i)|, 4);
    var tail := OffsetsPrefix(policy, groups, i, |groups|);
    var last := LittleEndian(|filters|, 4) + [FILTER_BASE_LG];
    assert block == filters + Offsets(policy, groups, i) + (tail + last);
    assert block[|filters| + i * 4..] == tail + last;
    if i < |groups| {
      var more: seq<Byte> :| tail == word + more;
      Regroup(word, more, last);
      Fixed32RoundTrip(|Filters(policy, groups, i)|, more + last);
    } else {
      assert tail == [] && tail + last == last;
      Fixed32RoundTrip(|filters|, [FILTER_BASE_LG]);
    }
  }

  lemma FilterAt(policy: Policy, groups: seq<seq<seq<Byte>>>, i: nat)
    requires i < |groups|
    ensures var block := FilterBlock(policy, groups);
            var first, limit := |Filters(policy, groups, i)|, |Filters(policy, groups, i + 1)|;
            && first <= limit <= |Filters(policy, groups, |groups|)| <= |block|
            && block[first..limit] == FilterBytes(policy, groups[i])
  {
    hide FilterBytes, LittleEndian, Offsets;
    FiltersGrow(policy, groups, i + 1, |groups|);
    var block, filters := FilterBlock(policy, groups), Filters(policy, groups, |groups|);
    var limit := |Filters(policy, groups, i + 1)|;
    assert block[..limit] == filters[..limit] == Filters(policy, groups, i + 1);
  }

  /** The block ends with where each filter starts and where the last one ends, four bytes each, and with the
      logarithm of 2048. */
  lemma FilterForm(policy: Policy, groups: seq<seq<seq<Byte>>>, i: nat)
    requires i < |groups| && |FilterBlock(policy, groups)| < TWO_TO_THE_32
    ensures var r := FilterBlock(policy, groups); var n := |r| - 5;
            && n >= 4 * |groups| && r[|r| - 1] == 11
            && var first, limit := LowFirst(r, n - 4 * (|groups| - i)), LowFirst(r, n - 4 * (|groups| - i) + 4);
               && first <= limit <= n
               && r[first..limit] == if groups[i] == [] then [] else policy.create(groups[i])
  {
    hide Filters, Offsets, FilterBlock, DecodeFixed32, LowFirst;
    var r, all := FilterBlock(policy, groups), |Filters(policy, groups, |groups|)|;
    BlockEnds(policy, groups);
    OffsetAt(policy, groups, i);
    OffsetAt(policy, groups, i + 1);
    DecodeIsLowFirst(r, all + i * 4);
    DecodeIsLowFirst(r, all + (i + 1) * 4);
    FilterAt(policy, groups, i);
  }

  /** No false negatives: a block that holds a key may match it, and any key that looks the same. */
  lemma HeldKeysMatch(policy: Policy, view: seq<Byte> -> seq<Byte>, keys: seq<seq<Byte>>, k: seq<Byte>, x: seq<Byte>)
    requires NoFalseNegatives(policy, view) && k in keys && view(x) == view(k)
    ensures policy.mayMatch(x, FilterBytes(policy, keys))
  {
    assert keys != [];
  }
}
