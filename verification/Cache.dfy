/** The reference-counted LRU cache (util/cache.cc): one shard, with its hash table. */
module Caches {
  import opened Coding

  /** LRUHandle, without its links: the lists are sequences here. */
  class Handle {
    const key: seq<Byte>
    const hash: Word
    const value: string
    const charge: nat
    var inCache: bool
    var refs: nat

    constructor (key: seq<Byte>, hash: Word, value: string, charge: nat)
      ensures this.key == key && this.hash == hash && this.value == value && this.charge == charge
      ensures !inCache && refs == 1
    {
      this.key, this.hash, this.value, this.charge := key, hash, value, charge;
      inCache, refs := false, 1;
    }
  }

  predicate Matches(h: Handle, key: seq<Byte>, hash: Word) {
    h.key == key && h.hash == hash
  }

  ghost predicate NoDuplicates(s: seq<Handle>) {
    forall i, j :: 0 <= i < j < |s| ==> s[i] != s[j]
  }

  // ----- The hash table -----

  predicate PowerOfTwo(n: nat) {
    n == 1 || (n > 1 && n % 2 == 0 && PowerOfTwo(n / 2))
  }

  /** The bucket of a hash. The table masks with the length less one, which for a power of two is this. */
  function BucketOf(hash: Word, length: nat): (b: nat)
    requires length > 0
    ensures b < length
  {
    hash % length
  }

  /** Where a key is in a bucket, the end of the bucket when it is not there (FindPointer). */
  function FindIn(bucket: seq<Handle>, key: seq<Byte>, hash: Word): (i: nat)
    ensures i <= |bucket|
    ensures forall j :: 0 <= j < i ==> !Matches(bucket[j], key, hash)
    ensures i < |bucket| ==> Matches(bucket[i], key, hash)
  {
    if bucket == [] || Matches(bucket[0], key, hash) then 0
    else
      var i := FindIn(bucket[1..], key, hash);
      assert forall j :: 1 <= j <= i ==> bucket[j] == bucket[1..][j - 1];
      1 + i
  }

  /** Buckets hold exactly the given handles, each once and where its hash says. */
  ghost predicate Holds(buckets: seq<seq<Handle>>, contents: set<Handle>) {
    && |buckets| > 0
    && (forall b :: 0 <= b < |buckets| ==> NoDuplicates(buckets[b]))
    && (forall b, h :: 0 <= b < |buckets| && h in buckets[b] ==> h in contents && BucketOf(h.hash, |buckets|) == b)
    && (forall h :: h in contents ==> h in buckets[BucketOf(h.hash, |buckets|)])
  }

  /** No two handles for one key. */
  ghost predicate OnePerKey(contents: set<Handle>) {
    forall h, g :: h in contents && g in contents && Matches(g, h.key, h.hash) ==> g == h
  }

  class HandleTable {
    var buckets: seq<seq<Handle>>
    var elems: nat
    ghost var contents: set<Handle>

    ghost predicate Valid()
      reads this
    {
      Holds(buckets, contents) && OnePerKey(contents) && elems == |contents| && PowerOfTwo(|buckets|)
    }

    constructor ()
      ensures Valid() && contents == {}
    {
      buckets, elems, contents := [[], [], [], []], 0, {};
      new;
      assert PowerOfTwo(2) && PowerOfTwo(4);
    }

    method Lookup(key: seq<Byte>, hash: Word) returns (h: Handle?)
      requires Valid()
      ensures h == null ==> forall g :: g in contents ==> !Matches(g, key, hash)
      ensures h != null ==> h in contents && Matches(h, key, hash)
    {
      var b := BucketOf(hash, |buckets|);
      var i := FindIn(buckets[b], key, hash);
      if i < |buckets[b]| {
        h := buckets[b][i];
        assert h in buckets[b];
      } else {
        h := null;
        forall g | g in contents
          ensures !Matches(g, key, hash)
        {
          assert g in buckets[BucketOf(g.hash, |buckets|)];
        }
      }
    }

    /** Put a handle in, in the place of the one for the same key if there is one. */
    method Insert(h: Handle) returns (was: Handle?)
      requires Valid() && h !in contents
      modifies this
      ensures Valid()
      ensures was == null ==> forall g :: g in old(contents) ==> !Matches(g, h.key, h.hash)
      ensures was != null ==> was in old(contents) && Matches(was, h.key, h.hash)
      ensures contents == old(contents) - (if was == null then {} else {was}) + {h}
    {
      hide Holds, OnePerKey, PowerOfTwo, Matches, FindIn, BucketOf, NoDuplicates;
      SomeBucket(buckets, contents);
      var b := BucketOf(h.hash, |buckets|);
      var i := FindIn(buckets[b], h.key, h.hash);
      if i < |buckets[b]| {
        was := buckets[b][i];
        InContents(buckets, contents, b, i);
        Replaced(buckets, contents, b, i, h);
        buckets := buckets[b := buckets[b][i := h]];
        contents := contents - {was} + {h};
      } else {
        was := null;
        NotThere(buckets, contents, h.key, h.hash);
        AppendNew(h);
      }
    }

    /** The part of Insert for a key that is not there. */
    method AppendNew(h: Handle)
      requires Valid() && h !in contents && forall g :: g in contents ==> !Matches(g, h.key, h.hash)
      modifies this
      ensures Valid() && contents == old(contents) + {h}
    {
      hide Holds, OnePerKey, PowerOfTwo, Matches;
      SomeBucket(buckets, contents);
      var b := BucketOf(h.hash, |buckets|);
      Appended(buckets, contents, b, h);
      buckets := buckets[b := buckets[b] + [h]];
      contents := contents + {h};
      elems := elems + 1;
      if elems > |buckets| {
        Resize();
      }
    }

    method Remove(key: seq<Byte>, hash: Word) returns (was: Handle?)
      requires Valid()
      modifies this
      ensures Valid()
      ensures was == null ==> forall g :: g in old(contents) ==> !Matches(g, key, hash)
      ensures was != null ==> was in old(contents) && Matches(was, key, hash)
      ensures contents == old(contents) - (if was == null then {} else {was})
    {
      var b := BucketOf(hash, |buckets|);
      var i := FindIn(buckets[b], key, hash);
      if i < |buckets[b]| {
        was := buckets[b][i];
        assert was in buckets[b];
        Unlinked(buckets, contents, b, i);
        buckets := buckets[b := buckets[b][..i] + buckets[b][i + 1..]];
        contents := contents - {was};
        elems := elems - 1;
      } else {
        was := null;
        NotThere(buckets, contents, key, hash);
      }
    }

    /** Move every handle to a table with at least as many buckets as handles. */
    method Resize()
      requires Valid()
      modifies this
      ensures Valid() && contents == old(contents) && elems == old(elems) && |buckets| >= elems
    {
      hide Holds, PowerOfTwo, OnePerKey;
      var length := 4;
      FourBuckets();
      while length < elems
        modifies {}
        invariant PowerOfTwo(length) && length >= 4
      {
        DoubleBuckets(length);
        length := length * 2;
      }
      var larger := seq(length, _ => []);
      ghost var moved: set<Handle> := {};
      var count := 0;
      NothingMoved(buckets, contents, larger);
      for b := 0 to |buckets|
        modifies {}
        invariant |larger| == length && Holds(larger, moved) && Moved(buckets, contents, moved, b, 0) && count == |moved|
      {
        for i := 0 to |buckets[b]|
          modifies {}
          invariant |larger| == length && Holds(larger, moved) && Moved(buckets, contents, moved, b, i) && count == |moved|
        {
          var h := buckets[b][i];
          MovedOneMore(buckets, contents, moved, b, i);
          var at := BucketOf(h.hash, length);
          Prepended(larger, moved, at, h);
          larger := larger[at := [h] + larger[at]];
          moved := moved + {h};
          count := count + 1;
        }
        BucketMoved(buckets, contents, moved, b);
      }
      AllMoved(buckets, contents, moved);
      assert elems == count;
      buckets := larger;
    }
  }

  lemma FourBuckets()
    ensures PowerOfTwo(4)
  {
    assert PowerOfTwo(2);
  }

  lemma DoubleBuckets(n: nat)
    requires PowerOfTwo(n)
    ensures PowerOfTwo(n * 2)
  {
    assert n * 2 / 2 == n;
  }

  lemma SomeBucket(buckets: seq<seq<Handle>>, contents: set<Handle>)
    requires Holds(buckets, contents)
    ensures |buckets| > 0
  {
  }

  lemma InContents(buckets: seq<seq<Handle>>, contents: set<Handle>, b: nat, i: nat)
    requires Holds(buckets, contents) && b < |buckets| && i < |buckets[b]|
    ensures buckets[b][i] in contents && BucketOf(buckets[b][i].hash, |buckets|) == b
  {
    assert buckets[b][i] in buckets[b];
  }

  lemma NotThere(buckets: seq<seq<Handle>>, contents: set<Handle>, key: seq<Byte>, hash: Word)
    requires Holds(buckets, contents)
    requires var bucket := buckets[BucketOf(hash, |buckets|)]; FindIn(bucket, key, hash) == |bucket|
    ensures forall g :: g in contents ==> !Matches(g, key, hash)
  {
    forall g | g in contents
      ensures !Matches(g, key, hash)
    {
      assert g in buckets[BucketOf(g.hash, |buckets|)];
    }
  }

  /** One bucket changes: what it holds decides what all hold. */
  lemma OneBucket(buckets: seq<seq<Handle>>, contents: set<Handle>, b: nat, bucket: seq<Handle>, contents': set<Handle>)
    requires Holds(buckets, contents) && b < |buckets| && NoDuplicates(bucket)
    requires forall h :: h in contents' <==>
               if BucketOf(h.hash, |buckets|) == b then h in bucket else h in contents
    requires forall h :: h in bucket ==> BucketOf(h.hash, |buckets|) == b
    ensures Holds(buckets[b := bucket], contents')
  {
    hide NoDuplicates, BucketOf;
  }

  lemma Replaced(buckets: seq<seq<Handle>>, contents: set<Handle>, b: nat, i: nat, h: Handle)
    requires Holds(buckets, contents) && OnePerKey(contents) && b < |buckets| && i < |buckets[b]|
    requires Matches(buckets[b][i], h.key, h.hash) && b == BucketOf(h.hash, |buckets|) && h !in contents
    ensures var was := buckets[b][i]; var contents' := contents - {was} + {h};
            && Holds(buckets[b := buckets[b][i := h]], contents') && OnePerKey(contents') && |contents'| == |contents|
  {
    hide BucketOf;
    var was := buckets[b][i];
    var bucket := buckets[b][i := h];
    assert was in buckets[b];
    assert forall g :: g in bucket ==> g == h || g in buckets[b];
    forall g | g in contents - {was} + {h} && BucketOf(g.hash, |buckets|) == b
      ensures g in bucket
    {
      if g == h {
        assert bucket[i] == h;
      } else {
        var j :| 0 <= j < |buckets[b]| && buckets[b][j] == g;
        assert bucket[j] == g;
      }
    }
    assert forall j, k :: 0 <= j < k < |bucket| ==> bucket[j] != bucket[k];
    OneBucket(buckets, contents, b, bucket, contents - {was} + {h});
  }

  lemma Appended(buckets: seq<seq<Handle>>, contents: set<Handle>, b: nat, h: Handle)
    requires Holds(buckets, contents) && OnePerKey(contents) && b == BucketOf(h.hash, |buckets|) && h !in contents
    requires forall g :: g in contents ==> !Matches(g, h.key, h.hash)
    ensures Holds(buckets[b := buckets[b] + [h]], contents + {h}) && OnePerKey(contents + {h})
  {
    hide BucketOf;
    var bucket := buckets[b] + [h];
    assert h !in buckets[b];
    OneBucket(buckets, contents, b, bucket, contents + {h});
  }

  lemma Prepended(buckets: seq<seq<Handle>>, contents: set<Handle>, b: nat, h: Handle)
    requires Holds(buckets, contents) && |buckets| > 0 && b == BucketOf(h.hash, |buckets|) && h !in contents
    ensures Holds(buckets[b := [h] + buckets[b]], contents + {h})
  {
    hide BucketOf;
    assert h !in buckets[b];
    OneBucket(buckets, contents, b, [h] + buckets[b], contents + {h});
  }

  lemma Unlinked(buckets: seq<seq<Handle>>, contents: set<Handle>, b: nat, i: nat)
    requires Holds(buckets, contents) && OnePerKey(contents) && b < |buckets| && i < |buckets[b]|
    ensures var was := buckets[b][i]; var contents' := contents - {was};
            && Holds(buckets[b := buckets[b][..i] + buckets[b][i + 1..]], contents') && OnePerKey(contents')
            && |contents'| == |contents| - 1
  {
    hide BucketOf, Matches, NoDuplicates;
    var was := buckets[b][i];
    InContents(buckets, contents, b, i);
    RemovedAt(buckets[b], i);
    OneBucket(buckets, contents, b, buckets[b][..i] + buckets[b][i + 1..], contents - {was});
  }

  lemma RemovedAt(s: seq<Handle>, i: nat)
    requires NoDuplicates(s) && i < |s|
    ensures NoDuplicates(s[..i] + s[i + 1..])
    ensures forall h :: h in s[..i] + s[i + 1..] <==> h in s && h != s[i]
  {
    var r := s[..i] + s[i + 1..];
    assert forall j :: 0 <= j < |r| ==> r[j] == s[if j < i then j else j + 1];
    forall h | h in s && h != s[i]
      ensures h in r
    {
      var j :| 0 <= j < |s| && s[j] == h;
      assert r[if j < i then j else j - 1] == h;
    }
  }

  // ----- Resizing -----

  /** The handles of the first `b` buckets and of the first `i` places of the next have been moved. */
  ghost predicate Moved(buckets: seq<seq<Handle>>, contents: set<Handle>, moved: set<Handle>, b: nat, i: nat)
    requires |buckets| > 0
  {
    && b <= |buckets| && (if b < |buckets| then i <= |buckets[b]| else i == 0)
    && moved <= contents
    && forall h :: h in contents ==>
         var c := BucketOf(h.hash, |buckets|);
         (h in moved <==> c < b || (c == b && h in buckets[b][..i]))
  }

  lemma NothingMoved(buckets: seq<seq<Handle>>, contents: set<Handle>, empty: seq<seq<Handle>>)
    requires Holds(buckets, contents) && |empty| > 0 && forall b :: 0 <= b < |empty| ==> empty[b] == []
    ensures |buckets| > 0 && Holds(empty, {}) && Moved(buckets, contents, {}, 0, 0)
  {
  }

  lemma MovedOneMore(buckets: seq<seq<Handle>>, contents: set<Handle>, moved: set<Handle>, b: nat, i: nat)
    requires Holds(buckets, contents) && Moved(buckets, contents, moved, b, i) && b < |buckets| && i < |buckets[b]|
    ensures var h := buckets[b][i];
            h !in moved && Moved(buckets, contents, moved + {h}, b, i + 1) && |moved + {h}| == |moved| + 1
  {
    hide BucketOf;
    var h := buckets[b][i];
    assert h in buckets[b];
    assert buckets[b][..i + 1] == buckets[b][..i] + [h];
  }

  lemma BucketMoved(buckets: seq<seq<Handle>>, contents: set<Handle>, moved: set<Handle>, b: nat)
    requires Holds(buckets, contents) && b < |buckets| && Moved(buckets, contents, moved, b, |buckets[b]|)
    ensures Moved(buckets, contents, moved, b + 1, 0)
  {
    hide BucketOf;
    assert buckets[b][..|buckets[b]|] == buckets[b];
  }

  lemma AllMoved(buckets: seq<seq<Handle>>, contents: set<Handle>, moved: set<Handle>)
    requires Holds(buckets, contents) && Moved(buckets, contents, moved, |buckets|, 0)
    ensures moved == contents
  {
  }

  // ----- Lists of handles -----

  /** LRU_Remove: take a handle off its list. */
  function Without(s: seq<Handle>, h: Handle): seq<Handle> {
    if s == [] then [] else if s[0] == h then s[1..] else [s[0]] + Without(s[1..], h)
  }

  lemma {:induction false} WithoutIs(s: seq<Handle>, h: Handle)
    requires NoDuplicates(s)
    ensures NoDuplicates(Without(s, h))
    ensures forall x :: x in Without(s, h) <==> x in s && x != h
    ensures h !in s ==> Without(s, h) == s
    ensures Charges(Without(s, h)) == Charges(s) - if h in s then h.charge else 0
  {
    if s != [] {
      TailHasNoDuplicates(s);
      if s[0] != h {
        WithoutIs(s[1..], h);
        HeadStaysFirst(s[0], Without(s[1..], h));
      }
    }
  }

  lemma TailHasNoDuplicates(s: seq<Handle>)
    requires s != [] && NoDuplicates(s)
    ensures NoDuplicates(s[1..]) && s[0] !in s[1..]
    ensures forall x :: x in s <==> x == s[0] || x in s[1..]
  {
  }

  lemma HeadStaysFirst(h: Handle, rest: seq<Handle>)
    requires NoDuplicates(rest) && h !in rest
    ensures NoDuplicates([h] + rest)
  {
  }

  lemma OneMoreHandle(s: seq<Handle>, h: Handle)
    requires NoDuplicates(s) && h !in s
    ensures NoDuplicates(s + [h])
    ensures forall x :: x in s + [h] <==> x in s || x == h
  {
  }

  function Charges(s: seq<Handle>): int {
    if s == [] then 0 else s[0].charge + Charges(s[1..])
  }

  lemma {:induction false} ChargesOneMore(s: seq<Handle>, h: Handle)
    ensures Charges(s + [h]) == Charges(s) + h.charge
  {
    if s == [] {
      assert s + [h] == [h];
    } else {
      assert (s + [h])[1..] == s[1..] + [h];
      ChargesOneMore(s[1..], h);
    }
  }

  // ----- What a cache holds -----

  /** The handles in the cache that no client uses, oldest first, and those in use; the handles whose deleters
      have run, in order; the references that clients hold; every handle ever made; and the usage. */
  datatype State = State(lru: seq<Handle>, inUse: seq<Handle>, deleted: seq<Handle>, held: multiset<Handle>,
                         all: set<Handle>, usage: int)

  ghost predicate InCache(s: State, h: Handle) {
    h in s.lru || h in s.inUse
  }

  /** The references of a handle: its clients' and the cache's own. */
  ghost function Refs(s: State, h: Handle): nat {
    s.held[h] + if InCache(s, h) then 1 else 0
  }

  ghost function Cached(s: State): set<Handle> {
    (set h | h in s.lru) + (set h | h in s.inUse)
  }

  /** Each handle of the cache is on one list, the one its clients decide; the usage is the charge of the cache;
      a deleter has run for exactly the handles without references, once each. */
  ghost predicate Sound(s: State) {
    && NoDuplicates(s.lru) && NoDuplicates(s.inUse) && NoDuplicates(s.deleted)
    && (forall h :: h in s.lru ==> h in s.all && h !in s.inUse && h !in s.held)
    && (forall h :: h in s.inUse ==> h in s.all && h in s.held)
    && (forall h :: h in s.held ==> h in s.all)
    && (forall h :: h in s.deleted ==> h in s.all)
    && (forall h :: h in s.all ==> (h in s.deleted <==> h !in s.held && !InCache(s, h)))
    && s.usage == Charges(s.lru) + Charges(s.inUse)
  }

  // ----- What the operations do -----

  /** A client takes a reference on a handle of the cache. */
  ghost function Taken(s: State, e: Handle): State {
    s.(lru := Without(s.lru, e), inUse := if e in s.lru then s.inUse + [e] else s.inUse, held := s.held + multiset{e})
  }

  /** A client gives a reference back. */
  ghost function Released(s: State, e: Handle): State {
    if s.held[e] != 1 then s.(held := s.held - multiset{e})
    else if e in s.inUse then
      s.(lru := s.lru + [e], inUse := Without(s.inUse, e), held := s.held - multiset{e})
    else s.(deleted := s.deleted + [e], held := s.held - multiset{e})
  }

  /** A handle leaves the cache. */
  ghost function Erased(s: State, e: Handle): State {
    s.(lru := Without(s.lru, e), inUse := Without(s.inUse, e),
       deleted := if e in s.held then s.deleted else s.deleted + [e], usage := s.usage - e.charge)
  }

  /** A new handle, which its maker holds. */
  ghost function Added(s: State, e: Handle, cached: bool): State {
    var t := s.(held := s.held + multiset{e}, all := s.all + {e});
    if cached then t.(inUse := s.inUse + [e], usage := s.usage + e.charge) else t
  }

  /** Oldest first, handles leave until the rest fits. */
  ghost function Evicted(s: State, capacity: nat): State
    decreases |s.lru|
  {
    if s.usage > capacity && s.lru != [] then
      FirstLeaves(s.lru);
      Evicted(Erased(s, s.lru[0]), capacity)
    else s
  }

  ghost function Pruned(s: State): State
    decreases |s.lru|
  {
    if s.lru != [] then
      FirstLeaves(s.lru);
      Pruned(Erased(s, s.lru[0]))
    else s
  }

  lemma FirstLeaves(s: seq<Handle>)
    requires s != []
    ensures Without(s, s[0]) == s[1..]
  {
  }

  lemma SameCached(s: State, t: State)
    requires Sound(s) && Sound(t)
    requires s.all == t.all && forall h :: h in s.all ==> (InCache(s, h) <==> InCache(t, h))
    ensures Cached(s) == Cached(t)
  {
    hide NoDuplicates, Charges;
    forall h | h in Cached(s)
      ensures h in Cached(t)
    {
      assert InCache(s, h);
    }
    forall h | h in Cached(t)
      ensures h in Cached(s)
    {
      assert InCache(t, h);
    }
  }

  lemma TakenIsSound(s: State, e: Handle)
    requires Sound(s) && InCache(s, e)
    ensures Sound(Taken(s, e)) && Cached(Taken(s, e)) == Cached(s)
    ensures forall h :: h in s.all ==> (InCache(Taken(s, e), h) <==> InCache(s, h))
  {
    hide NoDuplicates, Without, Charges, Cached;
    WithoutIs(s.lru, e);
    if e in s.lru {
      OneMoreHandle(s.inUse, e);
      ChargesOneMore(s.inUse, e);
    }
    var t := Taken(s, e);
    assert NoDuplicates(t.lru) && NoDuplicates(t.inUse) && NoDuplicates(t.deleted);
    SameCached(s, t);
  }

  lemma ReleasedIsSound(s: State, e: Handle)
    requires Sound(s) && e in s.held
    ensures Sound(Released(s, e)) && Cached(Released(s, e)) == Cached(s)
    ensures forall h :: h in s.all ==> (InCache(Released(s, e), h) <==> InCache(s, h))
  {
    if s.held[e] == 1 && e in s.inUse {
      LastInUse(s, e);
    } else if s.held[e] == 1 {
      LastOfAll(s, e);
    } else {
      OneOfMany(s, e);
    }
    hide *;
    SameCached(s, Released(s, e));
  }

  lemma OneOfMany(s: State, e: Handle)
    requires Sound(s) && e in s.held && s.held[e] != 1
    ensures Sound(Released(s, e))
    ensures forall h :: h in s.all ==> (InCache(Released(s, e), h) <==> InCache(s, h))
  {
    hide NoDuplicates, Charges, Cached;
    StillHeld(s.held, e);
    assert forall h :: InCache(Released(s, e), h) <==> InCache(s, h);
  }

  lemma StillHeld(held: multiset<Handle>, e: Handle)
    requires e in held && held[e] != 1
    ensures forall h :: h in held - multiset{e} <==> h in held
  {
    assert held[e] >= 2;
  }

  lemma LastInUse(s: State, e: Handle)
    requires Sound(s) && s.held[e] == 1 && e in s.inUse
    ensures Sound(Released(s, e))
    ensures forall h :: h in s.all ==> (InCache(Released(s, e), h) <==> InCache(s, h))
  {
    hide NoDuplicates, Without, Charges, Cached;
    WithoutIs(s.inUse, e);
    OneMoreHandle(s.lru, e);
    ChargesOneMore(s.lru, e);
    assert NoDuplicates(Released(s, e).lru) && NoDuplicates(Released(s, e).inUse);
  }

  lemma LastOfAll(s: State, e: Handle)
    requires Sound(s) && s.held[e] == 1 && e !in s.inUse
    ensures Sound(Released(s, e))
    ensures forall h :: h in s.all ==> (InCache(Released(s, e), h) <==> InCache(s, h))
  {
    hide NoDuplicates, Charges, Cached;
    assert e !in s.deleted;
    OneMoreHandle(s.deleted, e);
    assert NoDuplicates(Released(s, e).deleted);
  }

  lemma ErasedIsSound(s: State, e: Handle)
    requires Sound(s) && InCache(s, e)
    ensures Sound(Erased(s, e)) && Cached(Erased(s, e)) == Cached(s) - {e}
    ensures forall h :: h in s.all ==> (InCache(Erased(s, e), h) <==> InCache(s, h) && h != e)
  {
    ErasedIsSoundToo(s, e);
    hide Sound, Without;
    WithoutCached(s, e);
  }

  lemma WithoutCached(s: State, e: Handle)
    requires Sound(s)
    ensures Cached(Erased(s, e)) == Cached(s) - {e}
  {
    hide NoDuplicates, Without, Charges;
    WithoutIs(s.lru, e);
    WithoutIs(s.inUse, e);
    forall h | h in Cached(Erased(s, e))
      ensures h in Cached(s) - {e}
    {
      assert InCache(Erased(s, e), h);
    }
    forall h | h in Cached(s) - {e}
      ensures h in Cached(Erased(s, e))
    {
      assert InCache(s, h);
    }
  }

  lemma ErasedIsSoundToo(s: State, e: Handle)
    requires Sound(s) && InCache(s, e)
    ensures Sound(Erased(s, e))
    ensures forall h :: h in s.all ==> (InCache(Erased(s, e), h) <==> InCache(s, h) && h != e)
  {
    hide NoDuplicates, Without, Charges;
    WithoutIs(s.lru, e);
    WithoutIs(s.inUse, e);
    if e !in s.held {
      assert e !in s.deleted;
      OneMoreHandle(s.deleted, e);
    }
    var t := Erased(s, e);
    assert NoDuplicates(t.lru) && NoDuplicates(t.inUse) && NoDuplicates(t.deleted);
  }

  lemma AddedIsSound(s: State, e: Handle, cached: bool)
    requires Sound(s) && e !in s.all
    ensures Sound(Added(s, e, cached)) && Cached(Added(s, e, cached)) == Cached(s) + if cached then {e} else {}
    ensures forall h :: h in s.all + {e} ==> (InCache(Added(s, e, cached), h) <==> InCache(s, h) || (cached && h == e))
  {
    hide NoDuplicates, Charges;
    OneMoreHandle(s.inUse, e);
    ChargesOneMore(s.inUse, e);
  }

  /** What eviction does: the oldest handles leave, and no more of them than needed, until the rest fits or
      nothing can leave; handles in use stay. */
  lemma {:induction false} EvictedFits(s: State, capacity: nat) returns (n: nat)
    requires Sound(s)
    ensures var t := Evicted(s, capacity);
            && Sound(t) && (t.usage <= capacity || t.lru == [])
            && n <= |s.lru| && t.lru == s.lru[n..] && t.deleted == s.deleted + s.lru[..n]
            && t.inUse == s.inUse && t.held == s.held && t.all == s.all
            && if n == 0 then t == s else t.usage + s.lru[n - 1].charge > capacity
    decreases |s.lru|
  {
    hide Sound, Cached, Erased, InCache;
    if s.usage > capacity && s.lru != [] {
      var e := s.lru[0];
      FirstErased(s);
      var m := EvictedFits(Erased(s, e), capacity);
      n := m + 1;
      FirstThenRest(s.deleted, s.lru, m);
    } else {
      n := 0;
    }
  }

  lemma FirstThenRest(done: seq<Handle>, s: seq<Handle>, m: nat)
    requires m + 1 <= |s|
    ensures s[1..][m..] == s[m + 1..] && done + [s[0]] + s[1..][..m] == done + s[..m + 1]
    ensures m > 0 ==> s[1..][m - 1] == s[m]
  {
  }

  /** The oldest unused handle leaves from the front, and its deleter runs. */
  lemma FirstErased(s: State)
    requires Sound(s) && s.lru != []
    ensures var e := s.lru[0];
            && InCache(s, e) && Sound(Erased(s, e))
            && Erased(s, e) == s.(lru := s.lru[1..], deleted := s.deleted + [e], usage := s.usage - e.charge)
  {
    var e := s.lru[0];
    assert e in s.lru;
    ErasedIsSound(s, e);
    FirstLeaves(s.lru);
    WithoutIs(s.inUse, e);
  }

  /** Pruning empties the LRU list, deleting what was on it, oldest first. */
  lemma {:induction false} PrunedIs(s: State)
    requires Sound(s)
    ensures var t := Pruned(s);
            Sound(t) && t.lru == [] && t.inUse == s.inUse && t.held == s.held && t.deleted == s.deleted + s.lru
    decreases |s.lru|
  {
    hide Sound, Cached, Erased, InCache, Without;
    if s.lru != [] {
      var e := s.lru[0];
      FirstErased(s);
      PrunedIs(Erased(s, e));
      assert s.lru == [e] + s.lru[1..];
      assert s.deleted + [e] + s.lru[1..] == s.deleted + s.lru;
    }
  }

  lemma EmptyIsSound(s: State)
    requires s == State([], [], [], multiset{}, {}, 0)
    ensures Sound(s) && Cached(s) == {} && CountsMatch(s)
  {
  }

  // ----- Least recently used -----

  /** The unused handles stand in the order in which clients let go of them: `since` says when a handle was last
      let go of by its last client. */
  ghost predicate InOrderOfUse(lru: seq<Handle>, since: map<Handle, nat>, clock: nat) {
    && (forall i :: 0 <= i < |lru| ==> lru[i] in since && since[lru[i]] < clock)
    && (forall i, j :: 0 <= i < j < |lru| ==> since[lru[i]] < since[lru[j]])
  }

  lemma {:induction false} WithoutKeepsOrder(s: seq<Handle>, h: Handle, since: map<Handle, nat>, clock: nat)
    requires InOrderOfUse(s, since, clock)
    ensures InOrderOfUse(Without(s, h), since, clock)
    ensures forall x :: x in Without(s, h) ==> x in s
  {
    if s != [] {
      var rest := s[1..];
      assert forall i :: 0 <= i < |rest| ==> rest[i] == s[i + 1];
      if s[0] != h {
        WithoutKeepsOrder(rest, h, since, clock);
        FirstStaysOldest(s, Without(rest, h), since, clock);
      }
    }
  }

  lemma FirstStaysOldest(s: seq<Handle>, part: seq<Handle>, since: map<Handle, nat>, clock: nat)
    requires s != [] && InOrderOfUse(s, since, clock) && InOrderOfUse(part, since, clock)
    requires forall x :: x in part ==> x in s[1..]
    ensures InOrderOfUse([s[0]] + part, since, clock)
  {
    var t := [s[0]] + part;
    forall j | 1 <= j < |t|
      ensures since[t[0]] < since[t[j]]
    {
      assert t[j] == part[j - 1] && part[j - 1] in part;
      var i :| 0 <= i < |s[1..]| && s[1..][i] == t[j];
      assert s[i + 1] == t[j];
    }
  }

  /** Whoever is let go of now goes to the end. */
  lemma LetGoLast(s: seq<Handle>, h: Handle, since: map<Handle, nat>, clock: nat)
    requires InOrderOfUse(s, since, clock) && h !in s
    ensures InOrderOfUse(s, since[h := clock], clock + 1)
    ensures InOrderOfUse(s + [h], since[h := clock], clock + 1)
  {
    assert forall i :: 0 <= i < |s| ==> s[i] in s;
  }

  lemma ReleaseKeepsOrder(s: State, e: Handle, since: map<Handle, nat>, clock: nat)
    requires Sound(s) && InOrderOfUse(s.lru, since, clock) && e in s.held
    ensures var t := Released(s, e);
            if e in t.held then InOrderOfUse(t.lru, since, clock)
            else InOrderOfUse(t.lru, since[e := clock], clock + 1)
  {
    hide NoDuplicates, InOrderOfUse, Charges, Without;
    LetGoLast(s.lru, e, since, clock);
  }

  lemma ErasedDeletes(s: State, e: Handle)
    ensures forall x :: x in Erased(s, e).deleted ==> x in s.deleted || x == e
  {
  }

  lemma AddedDeletes(s: State, e: Handle, cached: bool)
    ensures Added(s, e, cached).deleted == s.deleted
  {
  }

  lemma ErasedKeepsOrder(s: State, e: Handle, since: map<Handle, nat>, clock: nat)
    requires InOrderOfUse(s.lru, since, clock)
    ensures InOrderOfUse(Erased(s, e).lru, since, clock)
  {
    WithoutKeepsOrder(s.lru, e, since, clock);
  }

  /** Eviction takes the handles that have been unused for longest. */
  lemma EvictedAreOldest(s: State, capacity: nat, since: map<Handle, nat>, clock: nat)
    requires Sound(s) && InOrderOfUse(s.lru, since, clock)
    ensures InOrderOfUse(Evicted(s, capacity).lru, since, clock)
    ensures forall x, y :: x in Evicted(s, capacity).deleted && x !in s.deleted && y in Evicted(s, capacity).lru ==>
              x in since && y in since && since[x] < since[y]
  {
    hide Sound, Evicted;
    var n := EvictedFits(s, capacity);
    var gone, kept := s.lru[..n], s.lru[n..];
    assert forall i :: 0 <= i < |kept| ==> kept[i] == s.lru[n + i];
    forall x, y | x in Evicted(s, capacity).deleted && x !in s.deleted && y in kept
      ensures x in since && y in since && since[x] < since[y]
    {
      assert x in gone;
      var i :| 0 <= i < n && gone[i] == x;
      var j :| 0 <= j < |kept| && kept[j] == y;
      assert s.lru[i] == x && s.lru[n + j] == y;
    }
  }

  // ----- The cache -----

  /** The fields of each handle say what the cache's state says. */
  ghost predicate CountsMatch(s: State)
    reads s.all
  {
    forall h :: h in s.all ==> (h.inCache <==> InCache(s, h)) && h.refs == Refs(s, h)
  }

  class LRUCache {
    const capacity: nat
    var usage: int
    var lru: seq<Handle>
    var inUse: seq<Handle>
    const table: HandleTable
    var deleted: seq<Handle>
    ghost var held: multiset<Handle>
    ghost var all: set<Handle>
    ghost var clock: nat
    ghost var since: map<Handle, nat>

    ghost function Now(): State
      reads this
    {
      State(lru, inUse, deleted, held, all, usage)
    }

    /** The hash table holds exactly the handles in the cache, and the LRU list ascends by when its handles were let
        go of. */
    ghost predicate Valid()
      reads this, table, all
    {
      && Sound(Now()) && CountsMatch(Now()) && table.Valid() && table.contents == Cached(Now())
      && InOrderOfUse(lru, since, clock)
    }

    constructor (capacity: nat)
      ensures Valid() && fresh(table) && this.capacity == capacity
      ensures Now() == State([], [], [], multiset{}, {}, 0)
    {
      this.capacity := capacity;
      usage, lru, inUse, deleted, held, all := 0, [], [], [], multiset{}, {};
      clock, since := 0, map[];
      table := new HandleTable();
      new;
      EmptyIsSound(Now());
    }

    method Ref(e: Handle)
      requires Sound(Now()) && CountsMatch(Now()) && InCache(Now(), e)
      modifies this`lru, this`inUse, this`held, e
      ensures Now() == Taken(old(Now()), e) && Sound(Now()) && CountsMatch(Now())
    {
      hide Sound, Cached, Without;
      TakenIsSound(Now(), e);
      MembersExist(Now(), e);
      if e.refs == 1 && e.inCache {
        lru := Without(lru, e);
        inUse := inUse + [e];
      }
      e.refs := e.refs + 1;
      held := held + multiset{e};
    }

    /** Drop one reference: the last of all runs the deleter; the last but the cache's own puts the handle at
        the new end of the LRU list. */
    method Unref(e: Handle)
      requires e.refs > 0 && (e.inCache ==> e.refs >= 2)
      modifies this`lru, this`inUse, this`deleted, e
      ensures e.refs == old(e.refs) - 1 && e.inCache == old(e.inCache)
      ensures deleted == old(deleted) + if e.refs == 0 then [e] else []
      ensures lru == old(lru) + if e.inCache && e.refs == 1 then [e] else []
      ensures inUse == if e.inCache && e.refs == 1 then Without(old(inUse), e) else old(inUse)
    {
      e.refs := e.refs - 1;
      if e.refs == 0 {
        deleted := deleted + [e];
      } else if e.inCache && e.refs == 1 {
        inUse := Without(inUse, e);
        lru := lru + [e];
      }
    }

    method Lookup(key: seq<Byte>, hash: Word) returns (e: Handle?)
      requires Valid()
      modifies this`lru, this`inUse, this`held, all
      ensures Valid()
      ensures e == null ==> Now() == old(Now()) && forall g :: g in Cached(Now()) ==> !Matches(g, key, hash)
      ensures e != null ==> e in old(Cached(Now())) && Matches(e, key, hash) && Now() == Taken(old(Now()), e)
    {
      hide Sound, CountsMatch, Cached, InOrderOfUse;
      e := table.Lookup(key, hash);
      if e != null {
        CachedIs(Now(), e);
        MembersExist(Now(), e);
        TakenIsSound(Now(), e);
        WithoutKeepsOrder(lru, e, since, clock);
        Ref(e);
      }
    }

    /** A client gives back a reference it holds. The clock ticks when nobody holds the handle any more. */
    method Release(e: Handle)
      requires Valid() && e in held
      modifies this`lru, this`inUse, this`deleted, this`held, this`clock, this`since, all
      ensures Valid() && Now() == Released(old(Now()), e)
      ensures e in held ==> since == old(since) && clock == old(clock)
      ensures e !in held ==> since == old(since)[e := old(clock)] && clock == old(clock) + 1
    {
      hide Sound, CountsMatch, Cached, Released, InOrderOfUse, HandleTable.Valid;
      ReleaseKeepsOrder(Now(), e, since, clock);
      ReleasedIsSound(Now(), e);
      DropReference(e);
      if e !in held {
        since, clock := since[e := clock], clock + 1;
      }
    }

    method DropReference(e: Handle)
      requires Sound(Now()) && CountsMatch(Now()) && e in held
      modifies this`lru, this`inUse, this`deleted, this`held, all
      ensures Now() == Released(old(Now()), e) && CountsMatch(Now())
    {
      hide Sound, Cached, Without;
      MembersExist(Now(), e);
      ReleasedIsSound(Now(), e);
      ghost var before := Now();
      held := held - multiset{e};
      Unref(e);
      assert Now() == Released(before, e);
      assert CountsMatch(Now());
    }

    /** The handle, already out of the hash table, leaves the cache. */
    method FinishErase(e: Handle)
      requires Sound(Now()) && CountsMatch(Now()) && InCache(Now(), e)
      modifies this`lru, this`inUse, this`deleted, this`usage, all
      ensures Now() == Erased(old(Now()), e) && Sound(Now()) && CountsMatch(Now())
    {
      hide Sound, Cached, Without;
      MembersExist(Now(), e);
      ErasedIsSound(Now(), e);
      lru, inUse := Without(lru, e), Without(inUse, e);
      e.inCache := false;
      usage := usage - e.charge;
      Unref(e);
    }

    method Erase(key: seq<Byte>, hash: Word)
      requires Valid()
      modifies this`lru, this`inUse, this`deleted, this`usage, table, all
      ensures Valid()
      ensures (forall g :: g in old(Cached(Now())) ==> !Matches(g, key, hash)) ==> Now() == old(Now())
      ensures forall g :: g in old(Cached(Now())) && Matches(g, key, hash) ==> Now() == Erased(old(Now()), g)
    {
      hide Sound, CountsMatch, Cached, Erased, InCache, InOrderOfUse;
      ghost var before := Now();
      OnlyMatch(table);
      var e := table.Remove(key, hash);
      if e != null {
        ErasedKeepsOrder(before, e, since, clock);
        CachedIs(before, e);
        ErasedIsSound(before, e);
        FinishErase(e);
      }
    }

    /** Make a handle, which the caller holds; cache it, in the place of one for the same key; and let the
        oldest handles leave until the cache fits its capacity. */
    method Insert(key: seq<Byte>, hash: Word, value: string, charge: nat) returns (e: Handle, ghost was: Handle?)
      requires Valid()
      modifies this`lru, this`inUse, this`deleted, this`usage, this`held, this`all, table, all
      ensures Valid() && fresh(e) && Matches(e, key, hash) && e.value == value && e.charge == charge
      ensures was == null ==>
                && (capacity > 0 ==> forall g :: g in old(Cached(Now())) ==> !Matches(g, key, hash))
                && Now() == Evicted(Added(old(Now()), e, capacity > 0), capacity)
      ensures was != null ==>
                && capacity > 0 && was in old(Cached(Now())) && Matches(was, key, hash)
                && Now() == Evicted(Erased(Added(old(Now()), e, true), was), capacity)
      // Whatever is evicted has been unused for longer than every unused handle that stays.
      ensures forall x, y :: x in deleted && x !in old(deleted) && x != was && y in lru ==>
                x in since && y in since && since[x] < since[y]
    {
      hide Sound, CountsMatch, Cached, Erased, InCache, Added, Evicted, HandleTable.Valid, InOrderOfUse;
      StoredHandlesExist(Now());
      e := new Handle(key, hash, value, charge);
      ghost var before := Now();
      AddHandle(e);
      was := null;
      if capacity > 0 {
        was := PutInTable(e);
      }
      if was != null {
        ErasedDeletes(Added(before, e, true), was);
      }
      AddedDeletes(before, e, capacity > 0);
      EvictedAreOldest(Now(), capacity, since, clock);
      Evict();
    }

    /** The hash table's part of Insert. */
    method PutInTable(e: Handle) returns (ghost was: Handle?)
      requires Sound(Now()) && CountsMatch(Now()) && table.Valid()
      requires e !in table.contents && Cached(Now()) == table.contents + {e} && InOrderOfUse(lru, since, clock)
      modifies this`lru, this`inUse, this`deleted, this`usage, table, all
      ensures Valid()
      ensures was == null ==>
                Now() == old(Now()) && forall g :: g in old(table.contents) ==> !Matches(g, e.key, e.hash)
      ensures was != null ==>
                was in old(table.contents) && Matches(was, e.key, e.hash) && Now() == Erased(old(Now()), was)
    {
      hide Sound, CountsMatch, Cached, Erased, InCache, HandleTable.Valid, Matches, InOrderOfUse;
      ghost var before := table.contents;
      var other := table.Insert(e);
      was := other;
      if other != null {
        ErasedKeepsOrder(Now(), other, since, clock);
        OneForAnother(before, e, other);
        CachedIs(Now(), other);
        ErasedIsSound(Now(), other);
        FinishErase(other);
      }
    }

    /** The first part of Insert: the handle's counts and its place on a list. */
    method AddHandle(e: Handle)
      requires Sound(Now()) && CountsMatch(Now()) && e !in all && !e.inCache && e.refs == 1
      modifies this`inUse, this`usage, this`held, this`all, e
      ensures Now() == Added(old(Now()), e, capacity > 0) && Sound(Now()) && CountsMatch(Now())
      ensures Cached(Now()) == Cached(old(Now())) + (if capacity > 0 then {e} else {}) && all == old(all) + {e}
    {
      hide Sound, Cached;
      AddedIsSound(Now(), e, capacity > 0);
      NewHandle(Now(), e);
      held, all := held + multiset{e}, all + {e};
      if capacity > 0 {
        e.refs := e.refs + 1;
        e.inCache := true;
        inUse := inUse + [e];
        usage := usage + e.charge;
      }
    }

    /** Let the oldest handle go. */
    method EraseOldest()
      requires Valid() && lru != []
      modifies this`lru, this`inUse, this`deleted, this`usage, table, all
      ensures Valid() && Now() == Erased(old(Now()), old(lru[0])) && |lru| < |old(lru)|
    {
      hide Sound, CountsMatch, Cached, Erased, InCache, InOrderOfUse;
      ghost var before := Now();
      var oldest := lru[0];
      ErasedKeepsOrder(before, oldest, since, clock);
      OnlyMatch(table);
      OldestIsCached(before);
      FirstErased(before);
      ErasedIsSound(before, oldest);
      var e := table.Remove(oldest.key, oldest.hash);
      assert e == oldest;
      FinishErase(e);
    }

    /** The loop at the end of Insert. */
    method Evict()
      requires Valid()
      modifies this`lru, this`inUse, this`deleted, this`usage, table, all
      ensures Valid() && Now() == Evicted(old(Now()), capacity)
    {
      hide Sound, CountsMatch, Cached, Erased, InCache, Without;
      while usage > capacity && lru != []
        invariant Valid() && held == old(held) && all == old(all)
        invariant Evicted(Now(), capacity) == Evicted(old(Now()), capacity)
        decreases |lru|
      {
        EraseOldest();
      }
    }

    method Prune()
      requires Valid()
      modifies this`lru, this`inUse, this`deleted, this`usage, table, all
      ensures Valid() && Now() == Pruned(old(Now()))
    {
      hide Sound, CountsMatch, Cached, Erased, InCache, Without;
      while lru != []
        invariant Valid() && held == old(held) && all == old(all)
        invariant Pruned(Now()) == Pruned(old(Now()))
        decreases |lru|
      {
        EraseOldest();
      }
    }
  }

  lemma OneForAnother(before: set<Handle>, e: Handle, was: Handle)
    requires was in before && e !in before
    ensures before + {e} - {was} == before - {was} + {e}
  {
  }

  lemma StoredHandlesExist(s: State)
    requires Sound(s)
    ensures Cached(s) <= s.all
  {
  }

  lemma OldestIsCached(s: State)
    requires s.lru != []
    ensures s.lru[0] in Cached(s) && InCache(s, s.lru[0])
  {
  }

  lemma NewHandle(s: State, e: Handle)
    requires Sound(s) && e !in s.all
    ensures e !in s.held && e !in s.deleted && !InCache(s, e)
  {
  }

  lemma CachedIs(s: State, e: Handle)
    ensures e in Cached(s) <==> InCache(s, e)
  {
  }

  /** A key has at most one handle in the table. */
  lemma OnlyMatch(table: HandleTable)
    requires table.Valid()
    ensures OnePerKey(table.contents)
  {
  }

  lemma MembersExist(s: State, e: Handle)
    requires Sound(s)
    ensures InCache(s, e) ==> e in s.all && (e in s.lru <==> e !in s.held)
    ensures e !in s.lru ==> Without(s.lru, e) == s.lru
    ensures e !in s.inUse ==> Without(s.inUse, e) == s.inUse
    ensures e in s.held ==> e in s.all
  {
    WithoutIs(s.lru, e);
    WithoutIs(s.inUse, e);
  }
}
