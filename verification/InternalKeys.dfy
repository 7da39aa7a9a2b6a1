/** Internal keys and entries (db/dbformat.h, db/dbformat.cc) and what a read at a snapshot means.

    A user key is an `int`: the store only ever compares user keys, and a run touches finitely many
    of them, so any user comparator's order on those keys embeds in the integers. */
module InternalKeys {

  datatype Option<+T> = None | Some(value: T)

  type Key = int

  const MAX_SEQUENCE: nat := 0x100_0000_0000_0000 - 1

  // Numbered 0 and 1 in the source; Value is also the type to seek with.
  datatype ValueType = Deletion | Value

  datatype IKey = IKey(user: Key, sequence: nat, typ: ValueType)

  datatype Entry = Entry(ikey: IKey, val: string) {
    function User(): Key { ikey.user }
    function Seq(): nat { ikey.sequence }
  }

  /** The 64-bit trailer of an internal key: sequence number in the high 56 bits, type in the low 8. */
  function Pack(sequence: nat, typ: ValueType): nat {
    sequence * 256 + if typ.Value? then 1 else 0
  }

  /** InternalKeyComparator::Compare: increasing user key, then decreasing packed trailer. */
  function Compare(a: IKey, b: IKey): int {
    if a.user != b.user then
      if a.user < b.user then -1 else 1
    else if Pack(a.sequence, a.typ) > Pack(b.sequence, b.typ) then -1
    else if Pack(a.sequence, a.typ) < Pack(b.sequence, b.typ) then 1
    else 0
  }

  /** The same order without packing. */
  predicate Less(a: IKey, b: IKey) {
    || a.user < b.user
    || (a.user == b.user &&
        (a.sequence > b.sequence || (a.sequence == b.sequence && a.typ.Value? && b.typ.Deletion?)))
  }

  predicate LessEq(a: IKey, b: IKey) {
    a == b || Less(a, b)
  }

  lemma CompareIsLess(a: IKey, b: IKey)
    ensures Compare(a, b) < 0 <==> Less(a, b)
    ensures Compare(a, b) == 0 <==> a == b
    ensures Compare(a, b) > 0 <==> Less(b, a)
  {
    if a.sequence < b.sequence {
      assert Pack(a.sequence, a.typ) < Pack(b.sequence, b.typ);
    } else if a.sequence > b.sequence {
      assert Pack(a.sequence, a.typ) > Pack(b.sequence, b.typ);
    }
  }

  /** The key a lookup of `user` at snapshot `sequence` seeks to: before every entry it may return. */
  function SeekKey(user: Key, sequence: nat): IKey {
    IKey(user, sequence, Value)
  }

  predicate Sorted(es: seq<Entry>) {
    forall i, j :: 0 <= i < j < |es| ==> Less(es[i].ikey, es[j].ikey)
  }

  ghost function Elements(es: seq<Entry>): set<Entry> {
    set e | e in es
  }

  /** Iterator seek: the position of the first entry at or after `target`. */
  function SeekIndex(es: seq<Entry>, target: IKey): (i: nat)
    ensures i <= |es|
    ensures forall j :: 0 <= j < i ==> Less(es[j].ikey, target)
    ensures i < |es| ==> !Less(es[i].ikey, target)
  {
    if es == [] || !Less(es[0].ikey, target) then 0
    else
      var r := SeekIndex(es[1..], target);
      assert forall j :: 1 <= j < r + 1 ==> es[j] == es[1..][j - 1];
      r + 1
  }

  // ----- What a read at a snapshot means -----

  predicate Visible(e: Entry, k: Key, s: nat) {
    e.User() == k && e.Seq() <= s
  }

  /** `e` is the newest entry of `k` in `E` whose sequence number is at most `s`. */
  ghost predicate NewestAt(E: set<Entry>, k: Key, s: nat, e: Entry) {
    && e in E && Visible(e, k, s)
    && forall x :: x in E && Visible(x, k, s) ==> x.Seq() <= e.Seq()
  }

  ghost predicate NothingAt(E: set<Entry>, k: Key, s: nat) {
    forall x :: x in E ==> !Visible(x, k, s)
  }

  ghost predicate UniqueSeqs(E: set<Entry>) {
    forall x, y :: x in E && y in E && x.Seq() == y.Seq() ==> x == y
  }

  function ValueOf(e: Entry): Option<string> {
    if e.ikey.typ.Value? then Some(e.val) else None
  }

  /** The meaning of a read: the value of the newest visible write, None if that write is a
      deletion or if there is none. */
  ghost function Read(E: set<Entry>, k: Key, s: nat): Option<string> {
    if exists e :: NewestAt(E, k, s, e) then
      var e :| NewestAt(E, k, s, e);
      ValueOf(e)
    else
      None
  }

  lemma ReadIsNewest(E: set<Entry>, k: Key, s: nat, e: Entry)
    requires UniqueSeqs(E) && NewestAt(E, k, s, e)
    ensures Read(E, k, s) == ValueOf(e)
  {
    forall x | NewestAt(E, k, s, x)
      ensures x == e
    {
      assert x.Seq() <= e.Seq() && e.Seq() <= x.Seq();
    }
  }

  lemma {:induction false} NewestExists(E: set<Entry>, k: Key, s: nat) returns (found: Option<Entry>)
    ensures found.None? ==> NothingAt(E, k, s)
    ensures found.Some? ==> NewestAt(E, k, s, found.value)
    decreases |E|
  {
    if E == {} {
      found := None;
    } else {
      var x :| x in E;
      var rest := NewestExists(E - {x}, k, s);
      if Visible(x, k, s) && (rest.None? || rest.value.Seq() < x.Seq()) {
        found := Some(x);
      } else {
        found := rest;
      }
    }
  }

  lemma ReadIsNothing(E: set<Entry>, k: Key, s: nat)
    requires NothingAt(E, k, s)
    ensures Read(E, k, s) == None
  {
  }

  /** Two stores with the same newest entry for a read give the same answer. */
  lemma ReadSame(E: set<Entry>, F: set<Entry>, k: Key, s: nat)
    requires UniqueSeqs(E) && UniqueSeqs(F)
    requires forall e :: e in E && Visible(e, k, s) ==> e in F
    requires forall e :: e in F && Visible(e, k, s) ==> e in E
    ensures Read(E, k, s) == Read(F, k, s)
  {
    var n := NewestExists(E, k, s);
    if n.Some? {
      assert NewestAt(F, k, s, n.value);
      ReadIsNewest(E, k, s, n.value);
      ReadIsNewest(F, k, s, n.value);
    } else {
      ReadIsNothing(F, k, s);
    }
  }

  /** Seeking a sorted run of entries to (k, s) finds the newest visible entry of k, if any. */
  lemma SeekFindsNewest(es: seq<Entry>, k: Key, s: nat)
    requires Sorted(es)
    ensures var i := SeekIndex(es, SeekKey(k, s));
            if i < |es| && es[i].User() == k
            then NewestAt(Elements(es), k, s, es[i])
            else NothingAt(Elements(es), k, s)
  {
    var i := SeekIndex(es, SeekKey(k, s));
    forall x | x in es && Visible(x, k, s)
      ensures i < |es| && es[i].User() == k && x.Seq() <= es[i].Seq()
    {
      var j :| 0 <= j < |es| && es[j] == x;
      assert i <= j;
      if i < j {
        assert Less(es[i].ikey, es[j].ikey);
      }
    }
  }

  /** MemTable::Add: the skip list keeps entries in internal-key order. */
  function InsertSorted(es: seq<Entry>, e: Entry): seq<Entry> {
    var i := SeekIndex(es, e.ikey);
    es[..i] + [e] + es[i..]
  }

  lemma InsertKeepsSorted(es: seq<Entry>, e: Entry)
    requires Sorted(es)
    requires forall x :: x in es ==> x.ikey != e.ikey
    ensures Sorted(InsertSorted(es, e))
    ensures Elements(InsertSorted(es, e)) == Elements(es) + {e}
  {
    var i := SeekIndex(es, e.ikey);
    SuffixIsLarger(es, e, i);
    SpliceSorted(es, e, i);
    assert es == es[..i] + es[i..];
  }

  lemma SuffixIsLarger(es: seq<Entry>, e: Entry, i: nat)
    requires Sorted(es) && i <= |es|
    requires forall x :: x in es ==> x.ikey != e.ikey
    requires i < |es| ==> !Less(es[i].ikey, e.ikey)
    ensures forall j :: i <= j < |es| ==> Less(e.ikey, es[j].ikey)
  {
    forall j | i <= j < |es|
      ensures Less(e.ikey, es[j].ikey)
    {
      assert es[i] in es && es[i].ikey != e.ikey;
      if i < j {
        assert Less(es[i].ikey, es[j].ikey);
      }
    }
  }

  lemma SpliceSorted(es: seq<Entry>, e: Entry, i: nat)
    requires Sorted(es) && i <= |es|
    requires forall j :: 0 <= j < i ==> Less(es[j].ikey, e.ikey)
    requires forall j :: i <= j < |es| ==> Less(e.ikey, es[j].ikey)
    ensures Sorted(es[..i] + [e] + es[i..])
  {
    var r := es[..i] + [e] + es[i..];
    hide Less;
    assert forall j :: 0 <= j < i ==> r[j] == es[j];
    assert r[i] == e;
    assert forall j :: i < j < |r| ==> r[j] == es[j - 1];
  }
}
