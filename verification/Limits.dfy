/** Where the guarantees end: concrete versions for which the code, as written, loses an answer. */
module Limits {
  import opened InternalKeys
  import opened Versions
  import opened CompactionInputs
  import opened CompactionMeaning
  import opened VersionEdits
  import opened StateMachine
  import opened Builders
  import opened Safety

  function Put(k: Key, sequence: nat): Entry {
    Entry(IKey(k, sequence, Value), "v")
  }

  function Marker(k: Key, sequence: nat): Entry {
    Entry(IKey(k, sequence, Deletion), "")
  }

  function Table(number: nat, es: seq<Entry>): File
    requires es != []
  {
    File(number, 1, es[0].ikey, es[|es| - 1].ikey, es)
  }

  // ----- A continuation in the lower level -----

  // Level 1 holds key 1. Level 2 holds two files: the first ends with a deletion marker of key 5, the
  // second starts with the older value of key 5.

  const UPPER := Table(3, [Put(1, 30)])
  const FIRST := Table(4, [Put(1, 20), Marker(5, 10)])
  const SECOND := Table(5, [Put(5, 3)])

  const CONTINUED: Levels := [[], [UPPER], [FIRST, SECOND], [], [], [], []]

  const CHOICE := Inputs(1, [UPPER], [FIRST])

  /** With an empty level 0, validity is about single levels and pairs of levels. */
  lemma SparseIsValid(v: Levels)
    requires |v| == NUM_LEVELS && v[0] == []
    requires forall l :: 1 <= l < NUM_LEVELS ==> AllWellFormed(v[l]) && InBuilderOrder(v[l]) && LevelSorted(v[l])
    requires forall l, m, f, g :: 0 <= l < m < NUM_LEVELS && f in v[l] && g in v[m] ==>
               FileNewer(f, g) && f.number != g.number
    requires forall l, f, g :: 0 <= l < NUM_LEVELS && f in v[l] && g in v[l] && f.number == g.number ==> f == g
    ensures ValidLevels(v)
  {
    hide AllWellFormed, LevelSorted, FileNewer;
    assert AllWellFormed(v[0]) by { NoneIsWellFormed(); }
  }

  lemma NoneIsWellFormed()
    ensures AllWellFormed([]) && LevelSorted([]) && InBuilderOrder([])
  {
  }

  lemma OneIsOrdered(f: File)
    requires WellFormed(f)
    ensures AllWellFormed([f]) && LevelSorted([f]) && InBuilderOrder([f])
  {
    assert forall g :: g in [f] ==> g == f;
  }

  lemma TwoAreOrdered(f: File, g: File)
    requires WellFormed(f) && WellFormed(g) && Before(f, g) && BySmallest(f, g)
    ensures AllWellFormed([f, g]) && LevelSorted([f, g]) && InBuilderOrder([f, g])
  {
    hide WellFormed, Before, BySmallest;
    assert forall h :: h in [f, g] ==> h == f || h == g;
  }

  lemma ContinuedTables()
    ensures WellFormed(UPPER) && WellFormed(FIRST) && WellFormed(SECOND)
    ensures Before(FIRST, SECOND) && BySmallest(FIRST, SECOND)
    ensures FileNewer(UPPER, FIRST) && FileNewer(UPPER, SECOND)
    ensures UPPER.number == 3 && FIRST.number == 4 && SECOND.number == 5
  {
  }

  lemma ContinuedIsValid()
    ensures ValidLevels(CONTINUED)
  {
    hide WellFormed, Before, BySmallest, FileNewer, AllWellFormed, InBuilderOrder, LevelSorted;
    var v := CONTINUED;
    ContinuedTables();
    NoneIsWellFormed();
    OneIsOrdered(UPPER);
    TwoAreOrdered(FIRST, SECOND);
    ContinuedMembers();
    SparseIsValid(v);
  }

  lemma ContinuedMembers()
    ensures forall l: nat, f: File :: l < NUM_LEVELS && f in CONTINUED[l] <==>
              (l == 1 && f == UPPER) || (l == 2 && (f == FIRST || f == SECOND))
  {
    assert UPPER in CONTINUED[1] && FIRST in CONTINUED[2] && SECOND in CONTINUED[2];
  }

  lemma FourSeqs()
    ensures UniqueSeqs({Put(1, 30), Put(1, 20), Marker(5, 10), Put(5, 3)})
  {
  }

  lemma ContinuedEntries()
    ensures VersionEntries(CONTINUED) == {Put(1, 30), Put(1, 20), Marker(5, 10), Put(5, 3)}
  {
    ContinuedMembers();
    ContinuedTableEntries();
    assert forall e :: e in VersionEntries(CONTINUED) <==>
        exists l: nat, f: File :: l < NUM_LEVELS && f in CONTINUED[l] && e in f.entries;
    assert UPPER in CONTINUED[1] && FIRST in CONTINUED[2] && SECOND in CONTINUED[2];
  }

  lemma ContinuedTableEntries()
    ensures forall e :: e in UPPER.entries <==> e == Put(1, 30)
    ensures forall e :: e in FIRST.entries <==> e == Put(1, 20) || e == Marker(5, 10)
    ensures forall e :: e in SECOND.entries <==> e == Put(5, 3)
  {
    assert FIRST.entries[0] == Put(1, 20) && FIRST.entries[1] == Marker(5, 10) && SECOND.entries[0] == Put(5, 3);
    assert UPPER.entries[0] == Put(1, 30);
  }

  lemma ChoiceEntries()
    ensures InputEntries(CHOICE) == {Put(1, 30), Put(1, 20), Marker(5, 10)}
  {
    ContinuedTableEntries();
    assert forall f :: f in CHOICE.upper <==> f == UPPER;
    assert forall f :: f in CHOICE.lower <==> f == FIRST;
    assert forall e :: e in FileEntries(CHOICE.upper) <==> e in UPPER.entries;
    assert forall e :: e in FileEntries(CHOICE.lower) <==> e in FIRST.entries;
  }

  lemma LeftOutEntries()
    ensures OtherFiles(CONTINUED, CHOICE) == {Put(5, 3)}
  {
    ContinuedMembers();
    ContinuedTableEntries();
    assert forall f :: f in CHOICE.upper <==> f == UPPER;
    assert forall f :: f in CHOICE.lower <==> f == FIRST;
    assert SECOND in CONTINUED[2] && SECOND.number != FIRST.number;
    assert Put(5, 3) in SECOND.entries;
  }

  /** In this valid version, the choice is the one SetupOtherInputs makes: closed, gapless, and complete for
      its range. Yet a left-out file continues its last lower input. */
  lemma ContinuedChoice()
    ensures ValidLevels(CONTINUED)
    ensures Closed(CONTINUED, CHOICE) && Gapless(CHOICE) && InputsInOrder(CHOICE)
    ensures CHOICE.lower == Overlapping(CONTINUED[2], UserLo(CHOICE.upper), UserHi(CHOICE.upper))
    ensures ContinuedBy(CONTINUED, CHOICE, SECOND)
  {
    ContinuedIsValid();
    hide ValidLevels;
    var all := CHOICE.upper + CHOICE.lower;
    assert all == [UPPER, FIRST];
    assert [UPPER, FIRST][..1] == [UPPER];
    assert SmallestKey(all) == UPPER.smallest;
    assert LargestKey([UPPER]) == UPPER.largest;
    assert LargestKey(all) == FIRST.largest;
    forall p | 1 <= p <= 5
      ensures CoversKey(all, p)
    {
      assert FIRST in all && InUserRange(FIRST, p);
    }
    assert [FIRST, SECOND][..1] == [FIRST];
    assert Overlapping([FIRST], Some(1), Some(1)) == [FIRST];
    assert FIRST in CONTINUED[2] && SECOND in CONTINUED[2] && UPPER in CONTINUED[1];
  }

  /** Compacting the choice brings key 5 back: deleted before, present after, for every reader. */
  lemma ContinuationBringsBack(s: nat)
    requires s >= 40
    ensures Read(VersionEntries(CONTINUED), 5, s) == None
    ensures Read(Kept(CONTINUED, 1, InputEntries(CHOICE), 40) + OtherFiles(CONTINUED, CHOICE), 5, s) == Some("v")
    ensures Resurrects(CONTINUED, 1, InputEntries(CHOICE), OtherFiles(CONTINUED, CHOICE), 40)
  {
    hide Read, UniqueSeqs, VersionEntries, InputEntries, OtherFiles, Kept;
    ContinuedEntries();
    ChoiceEntries();
    LeftOutEntries();
    MarkerIsDropped();
    FourSeqs();
    var inputs, rest := InputEntries(CHOICE), OtherFiles(CONTINUED, CHOICE);
    var before, after := VersionEntries(CONTINUED), Kept(CONTINUED, 1, inputs, 40) + rest;
    FewerAreUnique(before, after);
    assert NewestAt(before, 5, s, Marker(5, 10)) && NewestAt(after, 5, s, Put(5, 3));
    ReadIsNewest(before, 5, s, Marker(5, 10));
    ReadIsNewest(after, 5, s, Put(5, 3));
    assert inputs + rest == before;
    assert ResurrectsKey(CONTINUED, 1, inputs, rest, 40, 5, Marker(5, 10), Put(5, 3));
  }

  lemma MarkerIsDropped()
    ensures !DeeperCovers(CONTINUED, 1, 5)
    ensures var kept := Kept(CONTINUED, 1, InputEntries(CHOICE), 40);
            kept <= InputEntries(CHOICE) && Marker(5, 10) !in kept
  {
    hide InputEntries;
    ContinuedMembers();
    assert Obsolete(CONTINUED, 1, Marker(5, 10), 40);
  }

  lemma FewerAreUnique(E: set<Entry>, F: set<Entry>)
    requires UniqueSeqs(E) && F <= E
    ensures UniqueSeqs(F)
  {
  }

  /** The same compaction while the memtable holds a newer write of key 5: no reader of the store sees a loss, so
      the outputs are installed, but the tables alone bring the deleted value back. A crash that cuts the newer
      write from the log then shows it. */
  lemma MemoryHidesLoss()
    ensures !Resurrects(CONTINUED, 1, InputEntries(CHOICE), {Put(5, 35)} + OtherFiles(CONTINUED, CHOICE), 40)
    ensures Resurrects(CONTINUED, 1, InputEntries(CHOICE), OtherFiles(CONTINUED, CHOICE), 40)
    ensures forall s: nat :: s >= 40 ==>
              && Read(VersionEntries(CONTINUED), 5, s) == None
              && Read(Kept(CONTINUED, 1, InputEntries(CHOICE), 40) + OtherFiles(CONTINUED, CHOICE), 5, s) == Some("v")
  {
    hide Read, VersionEntries, InputEntries, OtherFiles, Kept, DeeperCovers;
    forall s: nat | s >= 40
      ensures Read(VersionEntries(CONTINUED), 5, s) == None
      ensures Read(Kept(CONTINUED, 1, InputEntries(CHOICE), 40) + OtherFiles(CONTINUED, CHOICE), 5, s) == Some("v")
      ensures Resurrects(CONTINUED, 1, InputEntries(CHOICE), OtherFiles(CONTINUED, CHOICE), 40)
    {
      ContinuationBringsBack(s);
    }
    assert Resurrects(CONTINUED, 1, InputEntries(CHOICE), OtherFiles(CONTINUED, CHOICE), 40) by {
      ContinuationBringsBack(40);
    }
    ChoiceEntries();
    forall k, d, x
      ensures !ResurrectsKey(CONTINUED, 1, InputEntries(CHOICE), {Put(5, 35)} + OtherFiles(CONTINUED, CHOICE), 40, k, d, x)
    {
      assert Put(5, 35) in InputEntries(CHOICE) + ({Put(5, 35)} + OtherFiles(CONTINUED, CHOICE));
      assert Visible(Put(5, 35), 5, 40);
    }
  }

  // ----- A flush into the gap of a manual compaction -----

  // Level 1 holds keys 1 and 10 in two files. A manual compaction of [1, 10] takes both; nothing covers
  // the keys between. A flush of key 5 then goes to level 2, where the output will span 1 to 10.

  const LOW := Table(3, [Put(1, 1)])
  const HIGH := Table(4, [Put(10, 2)])
  const FLUSHED := Table(6, [Put(5, 3)])
  const OUTPUT := Table(7, [Put(1, 1), Put(10, 2)])

  const APART: Levels := [[], [LOW, HIGH], [], [], [], [], []]

  const BOTH := Inputs(1, [LOW, HIGH], [])

  lemma ApartTables()
    ensures WellFormed(LOW) && WellFormed(HIGH) && Before(LOW, HIGH) && BySmallest(LOW, HIGH)
    ensures LOW.number == 3 && HIGH.number == 4
    ensures forall e :: e in LOW.entries <==> e == Put(1, 1)
    ensures forall e :: e in HIGH.entries <==> e == Put(10, 2)
  {
    assert LOW.entries[0] == Put(1, 1) && HIGH.entries[0] == Put(10, 2);
  }

  lemma ApartIsValid()
    ensures ValidLevels(APART)
  {
    hide WellFormed, Before, BySmallest, FileNewer, AllWellFormed, InBuilderOrder, LevelSorted;
    ApartTables();
    NoneIsWellFormed();
    TwoAreOrdered(LOW, HIGH);
    assert forall f :: f in [LOW, HIGH] ==> f == LOW || f == HIGH;
    SparseIsValid(APART);
  }

  /** The version after the flush. */
  ghost function Filled(): Levels {
    ApplyEdit(APART, AddingEdit({}, 2, [FLUSHED]))
  }

  /** In this valid version the manual choice is closed but not gapless, and the level choice allows a flush
      into its gap. The version stays valid. */
  lemma ManualLeavesGap()
    ensures ValidLevels(APART)
    ensures BOTH.upper == Overlapping(APART[1], Some(1), Some(10)) && Closed(APART, BOTH) && InputsInOrder(BOTH)
    ensures !Gapless(BOTH)
    ensures WellFormed(FLUSHED) && NewestFile(APART, FLUSHED) && RoomAt(APART, 2, FLUSHED)
    ensures ValidLevels(Filled()) && FLUSHED in Filled()[2]
  {
    ApartIsValid();
    ManualChoice();
    FlushIntoGap();
    hide ValidLevels, NewestFile, RoomAt, WellFormed;
    FlushedVersion(APART, 2, FLUSHED);
  }

  lemma ManualChoice()
    ensures BOTH.upper == Overlapping(APART[1], Some(1), Some(10)) && Closed(APART, BOTH) && InputsInOrder(BOTH)
    ensures !Gapless(BOTH)
  {
    var all := BOTH.upper + BOTH.lower;
    assert all == [LOW, HIGH] && [LOW, HIGH][..1] == [LOW];
    assert Overlapping([LOW], Some(1), Some(10)) == [LOW];
    assert all[..1] == [LOW] && SmallestKey([LOW]) == LOW.smallest && LargestKey([LOW]) == LOW.largest;
    assert SmallestKey(all) == LOW.smallest;
    assert LargestKey(all) == HIGH.largest;
    assert !CoversKey(all, 5);
    assert LOW in APART[1] && HIGH in APART[1];
    assert UserLo(all) == Some(1) && UserHi(all) == Some(10);
    assert UpperClosed(APART[1], BOTH.upper);
    assert LowerClosed(APART[2], BOTH.upper, BOTH.lower);
  }

  lemma FlushIntoGap()
    ensures WellFormed(FLUSHED) && NewestFile(APART, FLUSHED) && RoomAt(APART, 2, FLUSHED)
  {
    ApartTables();
    assert FLUSHED.entries[0] == Put(5, 3);
    ApartMembers();
  }

  lemma ApartMembers()
    ensures forall l: nat, f: File :: l < NUM_LEVELS && f in APART[l] <==> l == 1 && (f == LOW || f == HIGH)
  {
    assert LOW in APART[1] && HIGH in APART[1];
  }

  /** Installing the output then breaks the version: the output spans the flushed file. */
  lemma GapBreaksLevel()
    ensures OutputsFrom(Filled(), BOTH, [OUTPUT]) && !OutputsFit(Filled(), BOTH, [OUTPUT])
    ensures !ValidLevels(ApplyEdit(Filled(), AddingEdit(InputDeletions(BOTH), 2, [OUTPUT])))
  {
    hide ValidLevels, Closed, StillClosed, OutputsFrom, OutputsFit, RoomAt, WellFormed, ApplyEdit, AddingEdit,
         InputDeletions, VersionEntries, UniqueSeqs, NewestFile;
    ManualLeavesGap();
    FlushedVersion(APART, 2, FLUSHED);
    LevelFacts(Filled());
    ClosedIsStillClosed(APART, BOTH);
    RoomMeetsNone(APART, BOTH, 2, FLUSHED);
    FlushStaysClosed(APART, BOTH, 2, FLUSHED, Filled());
    FilledEntries();
    OutputIsFromInputs();
    SpansFlushed();
    InstallKeepsValidIff(Filled(), BOTH, [OUTPUT]);
  }

  lemma OneFileEntries(f: File)
    ensures FileEntries([f]) == Elements(f.entries)
  {
    assert forall g :: g in [f] <==> g == f;
  }

  lemma TwoFileEntries(f: File, g: File)
    ensures FileEntries([f, g]) == Elements(f.entries) + Elements(g.entries)
  {
    assert forall h :: h in [f, g] <==> h == f || h == g;
  }

  lemma GapEntries()
    ensures FileEntries([OUTPUT]) == InputEntries(BOTH) == {Put(1, 1), Put(10, 2)}
  {
    hide FileEntries;
    ApartTables();
    OneFileEntries(OUTPUT);
    TwoFileEntries(LOW, HIGH);
    assert FileEntries([]) == {} by { NothingStored(); }
    assert OUTPUT.entries[0] == Put(1, 1) && OUTPUT.entries[1] == Put(10, 2);
  }

  lemma NothingStored()
    ensures FileEntries([]) == {}
  {
  }

  lemma FilledMembers()
    ensures |Filled()| == NUM_LEVELS
    ensures forall l: nat, f: File {:trigger f in Filled()[l]} :: l < NUM_LEVELS ==>
              (f in Filled()[l] <==> (l == 1 && (f == LOW || f == HIGH)) || (l == 2 && f == FLUSHED))
  {
    hide ValidLevels, RoomAt, WellFormed, ApplyEdit, AddingEdit, NewestFile, VersionEntries;
    ManualLeavesGap();
    FlushedVersion(APART, 2, FLUSHED);
    ApartMembers();
    LevelFacts(Filled());
    var v' := ApplyEdit(APART, AddingEdit({}, 2, [FLUSHED]));
    forall l: nat, f: File | l < NUM_LEVELS
      ensures f in Filled()[l] <==> (l == 1 && (f == LOW || f == HIGH)) || (l == 2 && f == FLUSHED)
    {
      assert f in v'[l] <==> (l == 2 && f == FLUSHED) || f in APART[l];
      assert f in APART[l] <==> l == 1 && (f == LOW || f == HIGH);
    }
  }

  lemma FilledEntries()
    ensures UniqueSeqs(VersionEntries(Filled()))
  {
    hide Filled;
    FilledMembers();
    ApartTables();
    assert FLUSHED.entries[0] == Put(5, 3);
    forall x, y | x in VersionEntries(Filled()) && y in VersionEntries(Filled()) && x.Seq() == y.Seq()
      ensures x == y
    {
      assert x == Put(1, 1) || x == Put(10, 2) || x == Put(5, 3);
      assert y == Put(1, 1) || y == Put(10, 2) || y == Put(5, 3);
    }
  }

  lemma OutputIsFromInputs()
    ensures |Filled()| == NUM_LEVELS && OutputsFrom(Filled(), BOTH, [OUTPUT])
  {
    hide Filled, InputEntries, FileEntries, InputDeletions;
    FilledMembers();
    GapEntries();
    OutputIsTable();
    assert forall o :: o in [OUTPUT] ==> o == OUTPUT;
    assert LOW.number == 3 && HIGH.number == 4 && FLUSHED.number == 6;
  }

  lemma OutputIsTable()
    ensures WellFormed(OUTPUT) && OUTPUT.number == 7
  {
    assert OUTPUT.entries[0] == Put(1, 1) && OUTPUT.entries[1] == Put(10, 2);
  }

  lemma SpansFlushed()
    ensures !OutputsFit(Filled(), BOTH, [OUTPUT])
  {
    hide Filled;
    FilledMembers();
    assert OUTPUT in [OUTPUT] && Survives(Filled(), InputDeletions(BOTH), 2, FLUSHED);
    assert !Before(OUTPUT, FLUSHED) && !Before(FLUSHED, OUTPUT);
  }

  /** The drop rules keep everything, and the output holds it. */
  lemma OutputIsKept()
    ensures FileEntries([OUTPUT]) == Kept(APART, 1, InputEntries(BOTH), 2)
  {
    hide FileEntries, InputEntries;
    GapEntries();
    var inputs := InputEntries(BOTH);
    forall e | e in inputs
      ensures !Dropped(APART, 1, inputs, e, 2)
    {
    }
  }

  lemma SeekAtFirst(es: seq<Entry>, target: IKey)
    requires es != [] && !Less(es[0].ikey, target)
    ensures SeekIndex(es, target) == 0
  {
  }

  lemma SeekPastFirst(es: seq<Entry>, target: IKey)
    requires |es| == 2 && Less(es[0].ikey, target) && !Less(es[1].ikey, target)
    ensures SeekIndex(es, target) == 1
  {
    SeekAtFirst(es[1..], target);
  }

  /** A search of that level looks only in the output, whose range covers key 5, and misses the flushed
      value. */
  lemma GapHidesValue(s: nat)
    requires s >= 3
    ensures !Less(OUTPUT.largest, SeekKey(5, s)) && OUTPUT.smallest.user <= 5 <= OUTPUT.largest.user
    ensures TableGet(OUTPUT, 5, s) == None
    ensures TableGet(FLUSHED, 5, s) == Some(Put(5, 3))
  {
    SeekPastFirst(OUTPUT.entries, SeekKey(5, s));
    SeekAtFirst(FLUSHED.entries, SeekKey(5, s));
  }
}
