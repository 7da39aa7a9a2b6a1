/** DBIter (db/db_iter.cc): a cursor over the live user keys at one sequence number, driven by the
    merging iterator over everything stored. */
module DbIters {
  import opened InternalKeys
  import opened Cursors
  import opened MergingIterators

  /** Which user keys a movement may land on. */
  datatype Bound = Anywhere | From(k: Key) | After(k: Key) | Before(k: Key)

  predicate InBound(b: Bound, k: Key) {
    match b
    case Anywhere => true
    case From(x) => k >= x
    case After(x) => k > x
    case Before(x) => k < x
  }

  /** The first live user key within the bound, with its value; None when there is none. */
  ghost predicate FirstLive(E: set<Entry>, s: nat, b: Bound, r: Option<(Key, string)>) {
    && (r.None? ==> forall k :: InBound(b, k) ==> Read(E, k, s) == None)
    && (r.Some? ==> InBound(b, r.value.0) && Read(E, r.value.0, s) == Some(r.value.1)
                    && forall k :: InBound(b, k) && k < r.value.0 ==> Read(E, k, s) == None)
  }

  ghost predicate LastLive(E: set<Entry>, s: nat, b: Bound, r: Option<(Key, string)>) {
    && (r.None? ==> forall k :: InBound(b, k) ==> Read(E, k, s) == None)
    && (r.Some? ==> InBound(b, r.value.0) && Read(E, r.value.0, s) == Some(r.value.1)
                    && forall k :: InBound(b, k) && k > r.value.0 ==> Read(E, k, s) == None)
  }

  /** A movement has only one answer. */
  lemma OneAnswer(E: set<Entry>, s: nat, b: Bound, r: Option<(Key, string)>, r': Option<(Key, string)>)
    ensures FirstLive(E, s, b, r) && FirstLive(E, s, b, r') ==> r == r'
    ensures LastLive(E, s, b, r) && LastLive(E, s, b, r') ==> r == r'
  {
    hide Read;
    if r.Some? && r'.Some? {
      assert r.value.0 < r'.value.0 || r.value.0 == r'.value.0 || r'.value.0 < r.value.0;
    }
  }

  /** Stepping back and then forward, or forward and then back, returns to where the cursor was. */
  lemma TurningReturns(E: set<Entry>, s: nat, here: (Key, string), there: (Key, string))
    requires Read(E, here.0, s) == Some(here.1)
    ensures LastLive(E, s, Before(here.0), Some(there)) ==> FirstLive(E, s, After(there.0), Some(here))
    ensures FirstLive(E, s, After(here.0), Some(there)) ==> LastLive(E, s, Before(there.0), Some(here))
  {
    hide Read;
    if LastLive(E, s, Before(here.0), Some(there)) {
      assert forall k :: InBound(After(there.0), k) && k < here.0 ==> InBound(Before(here.0), k) && k > there.0;
    }
    if FirstLive(E, s, After(here.0), Some(there)) {
      assert forall k :: InBound(Before(there.0), k) && k > here.0 ==> InBound(After(here.0), k) && k < there.0;
    }
  }

  class DBIter {
    const iter: MergingIterator
    const sequence: nat
    var savedKey: Option<Key>    // None stands for a cleared string
    var savedValue: string
    var direction: Direction
    var valid: bool

    ghost function Entries(): set<Entry> {
      iter.Entries()
    }

    /** What key() and value() return, None when the iterator is not valid. */
    ghost function Current(): Option<(Key, string)>
      reads this, iter
      requires iter.InBounds()
      requires valid && direction == Forward ==> iter.Key().Some?
      requires valid && direction == Reverse ==> savedKey.Some?
    {
      if !valid then None
      else if direction == Forward then Some((iter.Key().value.User(), iter.Key().value.val))
      else Some((savedKey.value, savedValue))
    }

    /** Going forward, the inner iterator stands at the entry being shown; going backward, at the last
        visible entry of a smaller user key. */
    ghost predicate Valid()
      reads this, iter
    {
      && iter.Valid() && UniqueSeqs(Entries())
      && (valid && direction == Forward ==> iter.Key().Some? && Shown(Entries(), sequence, iter.Key().value))
      && (valid && direction == Reverse ==>
            && savedKey.Some? && BackedUp(Entries(), sequence, savedKey.value, iter.Key())
            && Read(Entries(), savedKey.value, sequence) == Some(savedValue))
    }

    constructor (iter: MergingIterator, sequence: nat)
      requires iter.Valid() && UniqueSeqs(iter.Entries())
      ensures Valid() && this.iter == iter && this.sequence == sequence && Current() == None
    {
      this.iter := iter;
      this.sequence := sequence;
      savedKey, savedValue, direction, valid := None, "", Forward, false;
    }

    method SeekToFirst()
      requires Valid()
      modifies this, iter
      ensures Valid() && FirstLive(Entries(), sequence, Anywhere, Current())
    {
      hide UniqueSeqs, Read, FirstAbove, Scanning, FirstLive, Shown, BackedUp, ProperChildren, MergingIterator.Aligned;
      direction := Forward;
      savedValue := "";
      iter.SeekToFirst();
      ScanStarts(Entries(), sequence, Anywhere, Bottom, iter.Key(), savedKey);
      if iter.Key().Some? {
        FindNextUserEntry(false, Anywhere);
      } else {
        valid := false;
      }
    }

    method Seek(target: Key)
      requires Valid()
      modifies this, iter
      ensures Valid() && FirstLive(Entries(), sequence, From(target), Current())
    {
      hide UniqueSeqs, Read, FirstAbove, Scanning, FirstLive, Shown, BackedUp, ProperChildren, MergingIterator.Aligned;
      direction := Forward;
      savedValue, savedKey := "", None;
      iter.Seek(SeekKey(target, sequence));
      ScanStarts(Entries(), sequence, From(target), At(SeekKey(target, sequence)), iter.Key(), savedKey);
      if iter.Key().Some? {
        FindNextUserEntry(false, From(target));
      } else {
        valid := false;
      }
    }

    method SeekToLast()
      requires Valid()
      modifies this, iter
      ensures Valid() && LastLive(Entries(), sequence, Anywhere, Current())
    {
      hide UniqueSeqs, Read, LastBelow, Collected, LastLive, Shown, BackedUp, ProperChildren, MergingIterator.Aligned;
      direction := Reverse;
      savedValue := "";
      iter.SeekToLast();
      NothingCollected(Entries(), sequence);
      FindPrevUserEntry(Anywhere, Top);
    }

    method Next()
      requires Valid() && Current().Some?
      modifies this, iter
      ensures Valid() && FirstLive(Entries(), sequence, After(old(Current().value.0)), Current())
    {
      hide UniqueSeqs, Read, FirstAbove, Scanning, FirstLive, Shown, BackedUp, ProperChildren, MergingIterator.Aligned;
      ghost var key := Current().value.0;
      if direction == Reverse {
        direction := Forward;
        ghost var at := iter.Key();
        if iter.Key().None? {
          iter.SeekToFirst();
        } else {
          iter.Next();
        }
        ScanTurnsForward(Entries(), sequence, key, savedValue, at, iter.Key());
        if iter.Key().None? {
          valid := false;
          savedKey := None;
          return;
        }
      } else {
        savedKey := Some(iter.Key().value.User());
        ScanContinues(Entries(), sequence, iter.Key().value);
      }
      FindNextUserEntry(true, After(key));
    }

    method FindNextUserEntry(startSkipping: bool, ghost b: Bound)
      requires iter.Valid() && UniqueSeqs(Entries()) && direction == Forward && iter.Key().Some?
      requires Scanning(Entries(), sequence, b, startSkipping, savedKey, iter.Key().value)
      modifies this, iter
      ensures Valid() && direction == Forward && FirstLive(Entries(), sequence, b, Current())
    {
      hide UniqueSeqs, Read, FirstAbove, Scanning, FirstLive, Shown, BackedUp, ProperChildren, MergingIterator.Aligned;
      var skipping := startSkipping;
      while iter.Key().Some?
        invariant iter.Valid() && direction == Forward
        invariant iter.Key().Some? ==> Scanning(Entries(), sequence, b, skipping, savedKey, iter.Key().value)
        invariant iter.Key().None? ==> FirstLive(Entries(), sequence, b, None)
        decreases EntriesFrom(Entries(), iter.Key())
      {
        ghost var before := iter.Key();
        var e := iter.Key().value;
        ScanFacts(Entries(), sequence, b, skipping, savedKey, e);
        if e.Seq() <= sequence {
          if e.ikey.typ.Deletion? {
            ScanMeetsDeletion(Entries(), sequence, b, skipping, savedKey, e);
            savedKey, skipping := Some(e.User()), true;
          } else if skipping && e.User() <= savedKey.value {
            // Entry hidden.
          } else {
            ScanFinds(Entries(), sequence, b, skipping, savedKey, e);
            valid := true;
            savedKey := None;
            return;
          }
        }
        iter.Next();
        ScanStep(Entries(), sequence, b, skipping, savedKey, e, iter.Key());
        FewerFrom(Entries(), e, iter.Key());
      }
      savedKey := None;
      valid := false;
    }

    method Prev()
      requires Valid() && Current().Some?
      modifies this, iter
      ensures Valid() && LastLive(Entries(), sequence, Before(old(Current().value.0)), Current())
    {
      hide UniqueSeqs, Read, LastBelow, Collected, LastLive, Shown, BackedUp, ProperChildren, MergingIterator.Aligned;
      ghost var key := Current().value.0;
      if direction == Forward {
        savedKey := Some(iter.Key().value.User());
        ShownIsStored(Entries(), sequence, iter.Key().value);
        while true
          invariant iter.Valid() && valid && direction == Forward && savedKey == Some(key)
          invariant iter.Key().Some? && iter.Key().value.User() >= key && iter.Key().value in Entries()
          decreases EntriesUpTo(Entries(), iter.Key())
        {
          ghost var before := iter.Key().value;
          iter.Prev();
          StoredWhenLast(Entries(), At(before.ikey), iter.Key());
          FewerUpTo(Entries(), before, iter.Key());
          if iter.Key().None? {
            NothingBefore(Entries(), sequence, key, before);
            valid := false;
            savedKey, savedValue := None, "";
            return;
          }
          if iter.Key().value.User() < savedKey.value {
            ReachedBefore(Entries(), sequence, key, before, iter.Key().value);
            break;
          }
        }
        direction := Reverse;
      } else {
        ReadyBefore(Entries(), sequence, key, iter.Key());
      }
      FindPrevUserEntry(Before(key), CutAfter(iter.Key()));
    }

    method FindPrevUserEntry(ghost b: Bound, ghost start: Cut)
      requires iter.Valid() && UniqueSeqs(Entries()) && direction == Reverse && (b.Anywhere? || b.Before?)
      requires LastBelow(Entries(), start, iter.Key())
      requires Collected(Entries(), sequence, b, start, Deletion, None, "")
      modifies this, iter
      ensures Valid() && LastLive(Entries(), sequence, b, Current())
    {
      hide UniqueSeqs, Read, LastBelow, Collected, LastLive, Shown, BackedUp, ProperChildren, MergingIterator.Aligned;
      var valueType := Deletion;
      ghost var cut := start;
      SavedDoesNotMatter(Entries(), sequence, b, start, savedKey, savedValue);
      while iter.Key().Some?
        invariant iter.Valid() && direction == Reverse
        invariant LastBelow(Entries(), cut, iter.Key())
        invariant valueType.Value? ==> savedKey.Some?
        invariant Collected(Entries(), sequence, b, cut, valueType, savedKey, savedValue)
        decreases EntriesUpTo(Entries(), iter.Key())
      {
        var e := iter.Key().value;
        StoredWhenLast(Entries(), cut, iter.Key());
        if e.Seq() <= sequence {
          if valueType.Value? && e.User() < savedKey.value {
            break;
          }
          CollectVisible(Entries(), sequence, b, cut, valueType, savedKey, savedValue, e);
          valueType := e.ikey.typ;
          if valueType.Deletion? {
            savedKey, savedValue := None, "";
          } else {
            savedKey, savedValue := Some(e.User()), e.val;
          }
        } else {
          CollectInvisible(Entries(), sequence, b, cut, valueType, savedKey, savedValue, e);
        }
        cut := At(e.ikey);
        iter.Prev();
        FewerUpTo(Entries(), e, iter.Key());
      }
      CollectionEnds(Entries(), sequence, b, cut, valueType, savedKey, savedValue, iter.Key());
      if valueType.Deletion? {
        valid := false;
        savedKey, savedValue := None, "";
        direction := Forward;
      } else {
        valid := true;
      }
    }
  }

  // ----- Positions -----

  /** The entry shown going forward: the newest visible entry of its user key, and a value. */
  ghost predicate Shown(E: set<Entry>, s: nat, e: Entry) {
    NewestAt(E, e.User(), s, e) && e.ikey.typ.Value?
  }

  /** The last visible entry of a user key below `k`. */
  ghost predicate BackedUp(E: set<Entry>, s: nat, k: Key, r: Option<Entry>) {
    && (r.None? ==> forall x :: x in E && x.Seq() <= s ==> x.User() >= k)
    && (r.Some? ==> r.value in E && r.value.User() < k && r.value.Seq() <= s
                    && forall x :: x in E && x.Seq() <= s && x.User() < k ==> LessEq(x.ikey, r.value.ikey))
  }

  // ----- Scanning forward -----

  /** The entry at hand belongs to a user key at or before the one being skipped. */
  predicate Leading(skipping: bool, skip: Option<Key>, e: Entry) {
    skipping && skip.Some? && e.User() <= skip.value
  }

  /** The inner iterator stands at `e`. While the scan has not passed the key being skipped, no key up
      to it is live within the bound and no visible entry of a smaller key is left. After that, no key
      before `e`'s is live within the bound and no visible entry of `e`'s key has been passed. */
  ghost predicate Scanning(E: set<Entry>, s: nat, b: Bound, skipping: bool, skip: Option<Key>, e: Entry) {
    && e in E && !b.Before? && (skipping ==> skip.Some?)
    && if Leading(skipping, skip, e) then
         && (forall k :: k > skip.value ==> InBound(b, k))
         && (forall k :: k <= skip.value && InBound(b, k) ==> Read(E, k, s) == None)
         && (forall x :: x in E && x.Seq() <= s && LessEq(e.ikey, x.ikey) ==> x.User() >= skip.value)
       else
         && (forall k :: k >= e.User() ==> InBound(b, k))
         && (forall k :: k < e.User() && InBound(b, k) ==> Read(E, k, s) == None)
         && (forall x :: x in E && Visible(x, e.User(), s) ==> !Less(x.ikey, e.ikey))
  }

  lemma FirstVisibleIsNewest(E: set<Entry>, s: nat, e: Entry)
    requires e in E && e.Seq() <= s
    requires forall x :: x in E && Visible(x, e.User(), s) ==> !Less(x.ikey, e.ikey)
    ensures NewestAt(E, e.User(), s, e)
  {
  }

  lemma ScanStarts(E: set<Entry>, s: nat, b: Bound, cut: Cut, r: Option<Entry>, skip: Option<Key>)
    requires FirstAbove(E, cut, r)
    requires (b == Anywhere && cut == Bottom) || (b.From? && cut == At(SeekKey(b.k, s)))
    ensures r.Some? ==> Scanning(E, s, b, false, skip, r.value)
    ensures r.None? ==> FirstLive(E, s, b, None)
  {
    hide Read;
    forall k | InBound(b, k) && (r.None? || k < r.value.User())
      ensures Read(E, k, s) == None
    {
      assert NothingAt(E, k, s);
      ReadIsNothing(E, k, s);
    }
    if r.Some? {
      StartsInBound(E, s, b, cut, r.value);
    }
  }

  lemma StartsInBound(E: set<Entry>, s: nat, b: Bound, cut: Cut, e: Entry)
    requires FirstAbove(E, cut, Some(e))
    requires (b == Anywhere && cut == Bottom) || (b.From? && cut == At(SeekKey(b.k, s)))
    ensures InBound(b, e.User())
    ensures forall x :: x in E && Visible(x, e.User(), s) ==> !Less(x.ikey, e.ikey)
  {
    forall x | x in E && Visible(x, e.User(), s)
      ensures !Less(x.ikey, e.ikey)
    {
      assert !Below(cut, x.ikey);
    }
  }

  lemma ScanFacts(E: set<Entry>, s: nat, b: Bound, skipping: bool, skip: Option<Key>, e: Entry)
    requires Scanning(E, s, b, skipping, skip, e)
    ensures e in E && (skipping ==> skip.Some?)
  {
  }

  lemma ScanMeetsDeletion(E: set<Entry>, s: nat, b: Bound, skipping: bool, skip: Option<Key>, e: Entry)
    requires UniqueSeqs(E) && Scanning(E, s, b, skipping, skip, e) && e.Seq() <= s && e.ikey.typ.Deletion?
    ensures Scanning(E, s, b, true, Some(e.User()), e)
  {
    hide Read;
    if !Leading(skipping, skip, e) {
      FirstVisibleIsNewest(E, s, e);
      ReadIsNewest(E, e.User(), s, e);
    } else {
      assert e.User() == skip.value;
    }
  }

  lemma ScanFinds(E: set<Entry>, s: nat, b: Bound, skipping: bool, skip: Option<Key>, e: Entry)
    requires UniqueSeqs(E) && Scanning(E, s, b, skipping, skip, e) && e.Seq() <= s && e.ikey.typ.Value?
    requires !Leading(skipping, skip, e)
    ensures Shown(E, s, e) && FirstLive(E, s, b, Some((e.User(), e.val)))
  {
    hide Read;
    FirstVisibleIsNewest(E, s, e);
    ReadIsNewest(E, e.User(), s, e);
  }

  /** Moving on from an entry that is invisible or skipped. */
  lemma ScanStep(E: set<Entry>, s: nat, b: Bound, skipping: bool, skip: Option<Key>, e: Entry, r: Option<Entry>)
    requires Scanning(E, s, b, skipping, skip, e) && FirstAbove(E, Past(e.ikey), r)
    requires e.Seq() > s || Leading(skipping, skip, e)
    ensures r.Some? ==> Scanning(E, s, b, skipping, skip, r.value)
    ensures r.None? ==> FirstLive(E, s, b, None)
  {
    hide Read;
    if r.Some? && Leading(skipping, skip, r.value) {
      assert LessEq(e.ikey, r.value.ikey);
      forall x | x in E && x.Seq() <= s && LessEq(r.value.ikey, x.ikey)
        ensures x.User() >= skip.value
      {
        assert LessEq(e.ikey, x.ikey);
      }
    } else {
      forall k | InBound(b, k) && (r.None? || k < r.value.User())
        ensures Read(E, k, s) == None
      {
        if k > e.User() || k == e.User() {
          if !(Leading(skipping, skip, e) && k <= skip.value) {
            NothingPassed(E, s, b, skipping, skip, e, r, k);
            ReadIsNothing(E, k, s);
          }
        }
      }
      if r.Some? {
        NotYetSeen(E, s, b, skipping, skip, e, r.value);
      }
    }
  }

  lemma NothingPassed(E: set<Entry>, s: nat, b: Bound, skipping: bool, skip: Option<Key>, e: Entry,
                      r: Option<Entry>, k: Key)
    requires Scanning(E, s, b, skipping, skip, e) && FirstAbove(E, Past(e.ikey), r)
    requires e.Seq() > s || Leading(skipping, skip, e)
    requires r.None? || k < r.value.User()
    requires k >= e.User() && !(Leading(skipping, skip, e) && k <= skip.value)
    ensures NothingAt(E, k, s)
  {
    hide Read;
    forall x | x in E
      ensures Below(Past(e.ikey), x.ikey) || x.User() > k
    {
    }
  }

  lemma NotYetSeen(E: set<Entry>, s: nat, b: Bound, skipping: bool, skip: Option<Key>, e: Entry, e': Entry)
    requires Scanning(E, s, b, skipping, skip, e) && FirstAbove(E, Past(e.ikey), Some(e'))
    requires e.Seq() > s || Leading(skipping, skip, e)
    requires !Leading(skipping, skip, e')
    ensures forall k :: k >= e'.User() ==> InBound(b, k)
    ensures forall x :: x in E && Visible(x, e'.User(), s) ==> !Less(x.ikey, e'.ikey)
  {
    hide Read;
    assert Less(e.ikey, e'.ikey);
    forall x | x in E && Visible(x, e'.User(), s)
      ensures !Less(x.ikey, e'.ikey)
    {
      if Leading(skipping, skip, e) {
        assert x.User() > e.User();
        assert !Below(Past(e.ikey), x.ikey);
      } else if x.User() == e.User() {
        assert !Less(x.ikey, e.ikey) && x != e;
      }
    }
  }

  lemma ScanContinues(E: set<Entry>, s: nat, e: Entry)
    requires Shown(E, s, e)
    ensures Scanning(E, s, After(e.User()), true, Some(e.User()), e)
  {
    hide Read;
  }

  /** Turning forward: the inner iterator steps from before the entries of the shown key into them. */
  lemma ScanTurnsForward(E: set<Entry>, s: nat, key: Key, value: string, at: Option<Entry>, r: Option<Entry>)
    requires BackedUp(E, s, key, at) && FirstAbove(E, CutAfter(at), r) && Read(E, key, s) == Some(value)
    ensures r.Some? ==> Scanning(E, s, After(key), true, Some(key), r.value)
    ensures r.None? ==> FirstLive(E, s, After(key), None)
  {
    hide Read;
    var n := NewestExists(E, key, s);
    if n.None? {
      ReadIsNothing(E, key, s);
      assert false;
    } else {
      assert !Below(CutAfter(at), n.value.ikey);
      assert r.Some? && LessEq(r.value.ikey, n.value.ikey);
      forall x | x in E && x.Seq() <= s && LessEq(r.value.ikey, x.ikey)
        ensures x.User() >= key
      {
        if at.Some? {
          assert Less(at.value.ikey, r.value.ikey);
        }
      }
    }
  }

  // ----- Scanning backward -----

  /** The entries within the bound that a backward scan down to the cut has passed. */
  ghost function Passed(E: set<Entry>, b: Bound, cut: Cut): set<Entry> {
    set x | x in E && InBound(b, x.User()) && !Below(cut, x.ikey)
  }

  /** Among the passed entries no key is live, or exactly the saved key is, with the saved value, and
      then no visible entry of a smaller key has been passed. */
  ghost predicate Collected(E: set<Entry>, s: nat, b: Bound, cut: Cut, typ: ValueType, savedKey: Option<Key>, val: string) {
    && (forall k: IKey :: Below(cut, k) ==> InBound(b, k.user))
    && (typ.Deletion? ==> forall k :: Read(Passed(E, b, cut), k, s) == None)
    && (typ.Value? ==>
          && savedKey.Some? && InBound(b, savedKey.value)
          && Read(Passed(E, b, cut), savedKey.value, s) == Some(val)
          && (forall k :: k != savedKey.value ==> Read(Passed(E, b, cut), k, s) == None)
          && (forall x :: x in E && x.Seq() <= s && x.User() < savedKey.value ==> Below(cut, x.ikey)))
  }

  function CutAfter(r: Option<Entry>): Cut {
    if r.None? then Bottom else Past(r.value.ikey)
  }

  lemma NothingPassedYet(E: set<Entry>, s: nat, b: Bound, cut: Cut)
    requires forall x :: x in Passed(E, b, cut) ==> x.Seq() > s
    requires forall k: IKey :: Below(cut, k) ==> InBound(b, k.user)
    ensures Collected(E, s, b, cut, Deletion, None, "")
  {
    hide Read;
    forall k
      ensures Read(Passed(E, b, cut), k, s) == None
    {
      ReadIsNothing(Passed(E, b, cut), k, s);
    }
  }

  lemma SavedDoesNotMatter(E: set<Entry>, s: nat, b: Bound, cut: Cut, savedKey: Option<Key>, val: string)
    requires Collected(E, s, b, cut, Deletion, None, "")
    ensures Collected(E, s, b, cut, Deletion, savedKey, val)
  {
    hide Read, Passed;
  }

  lemma NothingCollected(E: set<Entry>, s: nat)
    ensures Collected(E, s, Anywhere, Top, Deletion, None, "")
  {
    hide Read;
    NothingPassedYet(E, s, Anywhere, Top);
  }

  /** Turning backward: the inner iterator has reached the last entry before those of the shown key. */
  lemma ReachedBefore(E: set<Entry>, s: nat, key: Key, before: Entry, r: Entry)
    requires before.User() >= key && LastBelow(E, At(before.ikey), Some(r)) && r.User() < key
    ensures LastBelow(E, Past(r.ikey), Some(r))
    ensures Collected(E, s, Before(key), Past(r.ikey), Deletion, None, "")
  {
    hide Read;
    assert forall x :: x in E && x.User() < key ==> Below(At(before.ikey), x.ikey);
    NothingPassedYet(E, s, Before(key), Past(r.ikey));
  }

  lemma NothingBefore(E: set<Entry>, s: nat, key: Key, before: Entry)
    requires before.User() >= key && LastBelow(E, At(before.ikey), None)
    ensures LastLive(E, s, Before(key), None)
  {
    hide Read;
    forall k | k < key
      ensures Read(E, k, s) == None
    {
      assert forall x :: x in E ==> !Below(At(before.ikey), x.ikey);
      ReadIsNothing(E, k, s);
    }
  }

  /** Already going backward: the inner iterator stands where the next backward scan starts. */
  lemma ReadyBefore(E: set<Entry>, s: nat, key: Key, at: Option<Entry>)
    requires BackedUp(E, s, key, at)
    ensures LastBelow(E, CutAfter(at), at)
    ensures Collected(E, s, Before(key), CutAfter(at), Deletion, None, "")
  {
    hide Read;
    NothingPassedYet(E, s, Before(key), CutAfter(at));
  }

  lemma ShownIsStored(E: set<Entry>, s: nat, e: Entry)
    requires Shown(E, s, e)
    ensures e in E
  {
  }

  lemma StoredWhenLast(E: set<Entry>, cut: Cut, r: Option<Entry>)
    requires LastBelow(E, cut, r)
    ensures r.Some? ==> r.value in E && Below(cut, r.value.ikey)
  {
  }

  lemma PassedOneMore(E: set<Entry>, b: Bound, cut: Cut, e: Entry)
    requires LastBelow(E, cut, Some(e)) && InBound(b, e.User()) && forall x :: x in E && x.ikey == e.ikey ==> x == e
    ensures Passed(E, b, At(e.ikey)) == Passed(E, b, cut) + {e}
    ensures forall x :: x in Passed(E, b, cut) ==> Less(e.ikey, x.ikey)
  {
    forall x | x in E
      ensures !Below(At(e.ikey), x.ikey) <==> (!Below(cut, x.ikey) || x == e)
      ensures !Below(cut, x.ikey) ==> Less(e.ikey, x.ikey)
    {
      if !Below(cut, x.ikey) {
        AboveTheCut(cut, e.ikey, x.ikey);
      }
    }
  }

  lemma AboveTheCut(cut: Cut, low: IKey, high: IKey)
    requires Below(cut, low) && !Below(cut, high)
    ensures Less(low, high)
  {
  }

  lemma KeysAreUnique(E: set<Entry>, e: Entry)
    requires UniqueSeqs(E) && e in E
    ensures forall x :: x in E && x.ikey == e.ikey ==> x == e
  {
  }

  lemma PassedUnique(E: set<Entry>, b: Bound, cut: Cut)
    requires UniqueSeqs(E)
    ensures UniqueSeqs(Passed(E, b, cut))
  {
  }

  /** Passing an entry changes no answer but possibly its own key's. */
  lemma OtherAnswersStay(E: set<Entry>, s: nat, b: Bound, cut: Cut, e: Entry, k: Key)
    requires UniqueSeqs(E) && LastBelow(E, cut, Some(e)) && InBound(b, e.User()) && !Visible(e, k, s)
    ensures Read(Passed(E, b, At(e.ikey)), k, s) == Read(Passed(E, b, cut), k, s)
  {
    hide Read, UniqueSeqs, Passed, LastBelow;
    StoredWhenLast(E, cut, Some(e));
    KeysAreUnique(E, e);
    PassedOneMore(E, b, cut, e);
    PassedUnique(E, b, At(e.ikey));
    PassedUnique(E, b, cut);
    ReadSame(Passed(E, b, At(e.ikey)), Passed(E, b, cut), k, s);
  }

  lemma PassedIsNewest(E: set<Entry>, s: nat, b: Bound, cut: Cut, e: Entry)
    requires UniqueSeqs(E) && LastBelow(E, cut, Some(e)) && InBound(b, e.User()) && e.Seq() <= s
    ensures Read(Passed(E, b, At(e.ikey)), e.User(), s) == ValueOf(e)
  {
    hide Read, UniqueSeqs, Passed, LastBelow;
    StoredWhenLast(E, cut, Some(e));
    KeysAreUnique(E, e);
    PassedOneMore(E, b, cut, e);
    PassedUnique(E, b, At(e.ikey));
    assert NewestAt(Passed(E, b, At(e.ikey)), e.User(), s, e);
    ReadIsNewest(Passed(E, b, At(e.ikey)), e.User(), s, e);
  }

  /** A live key among the passed entries has an entry there, so the next entry back is not above it. */
  lemma PassedIsAhead(E: set<Entry>, s: nat, b: Bound, cut: Cut, e: Entry, k: Key)
    requires UniqueSeqs(E) && LastBelow(E, cut, Some(e)) && InBound(b, e.User())
    requires Read(Passed(E, b, cut), k, s) != None
    ensures e.User() <= k
  {
    hide Read, UniqueSeqs, Passed, LastBelow;
    StoredWhenLast(E, cut, Some(e));
    KeysAreUnique(E, e);
    PassedOneMore(E, b, cut, e);
    var n := NewestExists(Passed(E, b, cut), k, s);
    if n.None? {
      ReadIsNothing(Passed(E, b, cut), k, s);
    }
  }

  lemma CollectVisible(E: set<Entry>, s: nat, b: Bound, cut: Cut, typ: ValueType, savedKey: Option<Key>, val: string, e: Entry)
    requires UniqueSeqs(E) && LastBelow(E, cut, Some(e)) && Collected(E, s, b, cut, typ, savedKey, val)
    requires (b.Anywhere? || b.Before?) && e.Seq() <= s && (typ.Value? ==> savedKey.Some? && e.User() >= savedKey.value)
    ensures Collected(E, s, b, At(e.ikey), e.ikey.typ, if e.ikey.typ.Value? then Some(e.User()) else None,
                      if e.ikey.typ.Value? then e.val else "")
  {
    hide Read, UniqueSeqs, Passed, LastBelow;
    StoredWhenLast(E, cut, Some(e));
    if typ.Value? {
      PassedIsAhead(E, s, b, cut, e, savedKey.value);
    }
    PassedIsNewest(E, s, b, cut, e);
    forall k | k != e.User()
      ensures Read(Passed(E, b, At(e.ikey)), k, s) == None
    {
      OtherAnswersStay(E, s, b, cut, e, k);
    }
  }

  lemma CollectInvisible(E: set<Entry>, s: nat, b: Bound, cut: Cut, typ: ValueType, savedKey: Option<Key>, val: string, e: Entry)
    requires UniqueSeqs(E) && LastBelow(E, cut, Some(e)) && Collected(E, s, b, cut, typ, savedKey, val)
    requires (b.Anywhere? || b.Before?) && e.Seq() > s
    ensures Collected(E, s, b, At(e.ikey), typ, savedKey, val)
  {
    hide Read, UniqueSeqs, Passed;
    forall k
      ensures Read(Passed(E, b, At(e.ikey)), k, s) == Read(Passed(E, b, cut), k, s)
    {
      OtherAnswersStay(E, s, b, cut, e, k);
    }
    if typ.Value? {
      forall x | x in E && x.Seq() <= s && x.User() < savedKey.value
        ensures Below(At(e.ikey), x.ikey)
      {
        assert Below(cut, x.ikey);
      }
    }
  }

  /** Where nothing visible within the bound lies below the cut, the passed entries give the answer. */
  lemma PassedIsAll(E: set<Entry>, s: nat, b: Bound, cut: Cut, k: Key)
    requires UniqueSeqs(E) && InBound(b, k)
    requires forall x :: x in E && Visible(x, k, s) ==> !Below(cut, x.ikey)
    ensures Read(Passed(E, b, cut), k, s) == Read(E, k, s)
  {
    hide Read, UniqueSeqs;
    PassedUnique(E, b, cut);
    ReadSame(Passed(E, b, cut), E, k, s);
  }

  lemma CollectionEnds(E: set<Entry>, s: nat, b: Bound, cut: Cut, typ: ValueType, savedKey: Option<Key>, val: string,
                       r: Option<Entry>)
    requires UniqueSeqs(E) && LastBelow(E, cut, r) && Collected(E, s, b, cut, typ, savedKey, val)
    requires r.Some? ==> typ.Value? && savedKey.Some? && r.value.Seq() <= s && r.value.User() < savedKey.value
    ensures typ.Deletion? ==> LastLive(E, s, b, None)
    ensures typ.Value? ==>
              && savedKey.Some? && BackedUp(E, s, savedKey.value, r) && Read(E, savedKey.value, s) == Some(val)
              && LastLive(E, s, b, Some((savedKey.value, val)))
  {
    hide Read, UniqueSeqs, Passed;
    forall k | InBound(b, k) && (typ.Value? ==> k >= savedKey.value)
      ensures Read(Passed(E, b, cut), k, s) == Read(E, k, s)
    {
      PassedIsAll(E, s, b, cut, k);
    }
  }
}
