/** The operations of a write batch (db/write_batch.cc), the entries they become (db/memtable.cc) and
    what they mean for the readers of the store. */
module Operations {
  import opened InternalKeys

  datatype Op = Put(key: Key, val: string) | Delete(key: Key)

  function EntryOf(op: Op, sequence: nat): Entry {
    match op
    case Put(k, v) => Entry(IKey(k, sequence, Value), v)
    case Delete(k) => Entry(IKey(k, sequence, Deletion), "")
  }

  /** What a key holds after some operations, performed in order on what it held before. */
  function AfterOps(ops: seq<Op>, k: Key, before: Option<string>): Option<string> {
    if ops == [] then before
    else
      var op := ops[|ops| - 1];
      if op.key != k then AfterOps(ops[..|ops| - 1], k, before)
      else if op.Put? then Some(op.val) else None
  }

  /** The entries of a batch whose first operation has the given sequence number. */
  ghost function EntriesOf(ops: seq<Op>, first: nat): set<Entry> {
    set i | 0 <= i < |ops| :: EntryOf(ops[i], first + i)
  }

  lemma NoOps(history: set<Entry>, last: nat)
    ensures EntriesOf([], last + 1) == {}
    ensures forall k, before :: AfterOps([], k, before) == before
  {
  }

  /** The newest entry of all decides exactly the reads that see it. */
  lemma InsertAnswer(E: set<Entry>, e: Entry, last: nat, k: Key, s: nat)
    requires UniqueSeqs(E) && e.Seq() == last + 1 && forall x :: x in E ==> x.Seq() <= last
    ensures UniqueSeqs(E + {e})
    ensures Read(E + {e}, k, s) == if Visible(e, k, s) then ValueOf(e) else Read(E, k, s)
  {
    hide Read;
    if Visible(e, k, s) {
      assert NewestAt(E + {e}, k, s, e);
      ReadIsNewest(E + {e}, k, s, e);
    } else {
      ReadSame(E, E + {e}, k, s);
    }
  }

  lemma OneMoreOp(before: set<Entry>, history: set<Entry>, ops: seq<Op>, i: nat, last: nat)
    requires i < |ops| && UniqueSeqs(history) && forall e :: e in history ==> e.Seq() <= last + i
    requires history == before + EntriesOf(ops[..i], last + 1)
    requires forall k :: Read(history, k, last + i) == AfterOps(ops[..i], k, Read(before, k, last))
    requires forall k, s: nat :: s <= last ==> Read(history, k, s) == Read(before, k, s)
    ensures var e := EntryOf(ops[i], last + i + 1);
            && history + {e} == before + EntriesOf(ops[..i + 1], last + 1)
            && (forall k :: Read(history + {e}, k, last + i + 1) == AfterOps(ops[..i + 1], k, Read(before, k, last)))
            && (forall k, s: nat :: s <= last ==> Read(history + {e}, k, s) == Read(before, k, s))
  {
    hide Read, AfterOps, UniqueSeqs;
    var e := EntryOf(ops[i], last + i + 1);
    EntriesOfOneMore(ops, i, last + 1);
    forall k
      ensures Read(history + {e}, k, last + i + 1) == AfterOps(ops[..i + 1], k, Read(before, k, last))
    {
      InsertAnswer(history, e, last + i, k, last + i + 1);
      NothingInBetween(history, k, last + i);
      AfterOneMoreOp(ops, i, k, Read(before, k, last));
    }
    forall k, s: nat | s <= last
      ensures Read(history + {e}, k, s) == Read(before, k, s)
    {
      InsertAnswer(history, e, last + i, k, s);
    }
  }

  lemma EntriesOfOneMore(ops: seq<Op>, i: nat, first: nat)
    requires i < |ops|
    ensures EntriesOf(ops[..i + 1], first) == EntriesOf(ops[..i], first) + {EntryOf(ops[i], first + i)}
  {
    var a, b := EntriesOf(ops[..i], first), EntriesOf(ops[..i + 1], first);
    forall e | e in b
      ensures e in a + {EntryOf(ops[i], first + i)}
    {
      var j :| 0 <= j < i + 1 && e == EntryOf(ops[..i + 1][j], first + j);
      assert j < i ==> ops[..i][j] == ops[j];
    }
    forall e | e in a + {EntryOf(ops[i], first + i)}
      ensures e in b
    {
      if e in a {
        var j :| 0 <= j < i && e == EntryOf(ops[..i][j], first + j);
        assert ops[..i + 1][j] == ops[j];
      } else {
        assert ops[..i + 1][i] == ops[i];
      }
    }
  }

  lemma NothingInBetween(history: set<Entry>, k: Key, last: nat)
    requires UniqueSeqs(history) && forall e :: e in history ==> e.Seq() <= last
    ensures Read(history, k, last + 1) == Read(history, k, last)
  {
    hide Read;
    var n := NewestExists(history, k, last);
    if n.Some? {
      assert NewestAt(history, k, last + 1, n.value);
      ReadIsNewest(history, k, last, n.value);
      ReadIsNewest(history, k, last + 1, n.value);
    } else {
      ReadIsNothing(history, k, last);
      ReadIsNothing(history, k, last + 1);
    }
  }

  lemma AfterOneMoreOp(ops: seq<Op>, i: nat, k: Key, before: Option<string>)
    requires i < |ops|
    ensures AfterOps(ops[..i + 1], k, before)
         == if ops[i].key == k then ValueOf(EntryOf(ops[i], 0)) else AfterOps(ops[..i], k, before)
  {
    assert ops[..i + 1][..i] == ops[..i];
  }
}
