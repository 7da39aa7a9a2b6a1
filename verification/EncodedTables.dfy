/** The two halves of a table lookup joined: what a table of encoded internal keys answers is what the store
    reads from the table's entries (table/table.cc, db/table_cache.cc, db/version_set.cc: SaveValue). */
module EncodedTables {
  import opened InternalKeys
  import opened Versions
  import opened Coding
  import opened Blocks
  import opened FilterBlocks
  import opened Tables
  import opened TableReaders
  import Bytewise

  /** The bytes that user keys and values stand for. */
  datatype Embedding = Embedding(key: Key -> seq<Byte>, value: string -> seq<Byte>)

  /** Bytewise order agrees with the order of the user keys in question. */
  ghost predicate OrderKept(m: Embedding, keys: set<Key>) {
    forall a, b :: a in keys && b in keys ==> (Bytewise.Less(m.key(a), m.key(b)) <==> a < b)
  }

  /** InternalKey: the user key and the packed trailer. */
  function EncodeKey(m: Embedding, k: IKey): seq<Byte> {
    Bytewise.InternalKey(m.key(k.user), Pack(k.sequence, k.typ))
  }

  function EncodeEntry(m: Embedding, e: Entry): KeyValue {
    KeyValue(EncodeKey(m, e.ikey), m.value(e.val))
  }

  function EncodeEntries(m: Embedding, es: seq<Entry>): (r: seq<KeyValue>)
    ensures |r| == |es|
  {
    seq(|es|, i requires 0 <= i < |es| => EncodeEntry(m, es[i]))
  }

  lemma EncodedParts(m: Embedding, k: IKey)
    requires k.sequence <= MAX_SEQUENCE
    ensures Bytewise.UserKey(EncodeKey(m, k)) == m.key(k.user)
    ensures Bytewise.Trailer(EncodeKey(m, k)) == Pack(k.sequence, k.typ)
  {
    Bytewise.InternalKeyParts(m.key(k.user), Pack(k.sequence, k.typ));
  }

  /** Two user keys in question are the same exactly when their bytes are. */
  lemma SameBytes(m: Embedding, keys: set<Key>, a: Key, b: Key)
    requires OrderKept(m, keys) && a in keys && b in keys
    ensures m.key(a) == m.key(b) <==> a == b
  {
    hide Bytewise.Less;
    Bytewise.OneOfThree(m.key(a), m.key(a));
    assert a != b ==> Bytewise.Less(m.key(a), m.key(b)) || Bytewise.Less(m.key(b), m.key(a));
  }

  /** The comparator on encoded keys is the order of internal keys. */
  lemma EncodedOrder(m: Embedding, keys: set<Key>, a: IKey, b: IKey)
    requires OrderKept(m, keys) && a.user in keys && b.user in keys
    requires a.sequence <= MAX_SEQUENCE && b.sequence <= MAX_SEQUENCE
    ensures Bytewise.InternalLess(EncodeKey(m, a), EncodeKey(m, b)) <==> Less(a, b)
  {
    hide Bytewise.Less, Bytewise.UserKey, Bytewise.Trailer, EncodeKey;
    EncodedParts(m, a);
    EncodedParts(m, b);
    SameBytes(m, keys, a.user, b.user);
    CompareIsLess(a, b);
    if a.user == b.user {
      Bytewise.OneOfThree(m.key(a.user), m.key(b.user));
    }
  }

  /** The user keys of some entries and one more. */
  ghost function KeysOf(es: seq<Entry>, k: Key): set<Key> {
    (set e | e in es :: e.User()) + {k}
  }

  lemma EncodedSeek(m: Embedding, es: seq<Entry>, k: Key, s: nat, i: nat)
    requires OrderKept(m, KeysOf(es, k)) && s <= MAX_SEQUENCE && forall e :: e in es ==> e.Seq() <= MAX_SEQUENCE
    requires FirstAtOrAfter(EncodeEntries(m, es), EncodeKey(m, SeekKey(k, s)), i)
    ensures i == SeekIndex(es, SeekKey(k, s))
  {
    hide OrderKept, Bytewise.InternalLess, EncodeKey;
    var j, entries, target := SeekIndex(es, SeekKey(k, s)), EncodeEntries(m, es), EncodeKey(m, SeekKey(k, s));
    forall n | 0 <= n < |es|
      ensures Bytewise.InternalLess(entries[n].key, target) <==> Less(es[n].ikey, SeekKey(k, s))
    {
      assert es[n] in es;
      EncodedOrder(m, KeysOf(es, k), es[n].ikey, SeekKey(k, s));
    }
    assert i < |es| ==> !Less(es[i].ikey, SeekKey(k, s));
    assert j < |es| ==> !Bytewise.InternalLess(entries[j].key, target);
  }

  /** What a lookup of the encoded key reports is the entry the store would read, and nothing is reported of the
      user key when the store would read nothing. */
  lemma AnswersAsTableGet(m: Embedding, f: File, k: Key, s: nat, found: Option<KeyValue>)
    requires OrderKept(m, KeysOf(f.entries, k)) && s <= MAX_SEQUENCE
    requires forall e :: e in f.entries ==> e.Seq() <= MAX_SEQUENCE
    requires Answers(EncodeEntries(m, f.entries), EncodeKey(m, SeekKey(k, s)), found)
    ensures var hit := TableGet(f, k, s);
            && (hit.Some? <==> found.Some? && Bytewise.UserKey(found.value.key) == m.key(k))
            && (hit.Some? ==> found.value == EncodeEntry(m, hit.value))
  {
    hide OrderKept, Bytewise.InternalLess, EncodeKey, Bytewise.UserKey, FirstAtOrAfter;
    var entries, target := EncodeEntries(m, f.entries), EncodeKey(m, SeekKey(k, s));
    var i: nat :| FirstAtOrAfter(entries, target, i)
      && (found.Some? ==> i < |entries| && found.value == entries[i])
      && (found.Some? && Bytewise.UserKey(found.value.key) == Bytewise.UserKey(target) <==>
          i < |entries| && Bytewise.UserKey(entries[i].key) == Bytewise.UserKey(target));
    EncodedSeek(m, f.entries, k, s, i);
    EncodedParts(m, SeekKey(k, s));
    if i < |entries| {
      assert f.entries[i] in f.entries;
      EncodedParts(m, f.entries[i].ikey);
      SameBytes(m, KeysOf(f.entries, k), f.entries[i].User(), k);
    }
  }

  /** A table built from encoded entries, opened and looked up with the internal key for (k, s), answers as the
      store's lookup in those entries. */
  method GetFromTable(builder: TableBuilder, policy: Option<Policy>, ghost m: Embedding, ghost f: File, ghost k: Key,
                      ghost s: nat, key: seq<Byte>, verify: bool)
    returns (ok: bool, found: Option<KeyValue>)
    requires builder.Valid() && builder.FinishRoom() && Agree(builder.PolicyUsed(), policy)
    requires builder.Entries() == EncodeEntries(m, f.entries) && key == EncodeKey(m, SeekKey(k, s))
    requires OrderKept(m, KeysOf(f.entries, k)) && s <= MAX_SEQUENCE
    requires forall e :: e in f.entries ==> e.Seq() <= MAX_SEQUENCE
    modifies builder, builder.dataBlock, builder.indexBlock, builder.filterBlock
    ensures ok
    ensures var hit := TableGet(f, k, s);
            && (hit.Some? <==> found.Some? && Bytewise.UserKey(found.value.key) == m.key(k))
            && (hit.Some? ==> found.value == EncodeEntry(m, hit.value))
  {
    hide Agree, Answers, TableBuilder.Valid, TableBuilder.FinishRoom, OrderKept, EncodeKey, EncodeEntries, TableGet, SeekIndex;
    ok, found := FinishAndGet(builder, policy, key, verify);
    AnswersAsTableGet(m, f, k, s, found);
  }
}
