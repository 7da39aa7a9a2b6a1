/** A flush while a compaction is pending: exactly when it can spoil the installation of the outputs. */
module GapFlushes {
  import opened InternalKeys
  import opened Versions
  import opened Builders
  import opened CompactionInputs
  import opened CompactionMeaning
  import opened VersionEdits
  import opened StateMachine
  import opened Safety
  import opened PendingCompactions

  ghost function KeptEntries(p: Pending): set<Entry> {
    Kept(p.base, p.inputs.level, InputEntries(p.inputs), p.smallestSnapshot)
  }

  /** The entries have user keys on both sides of the file. */
  ghost predicate Straddles(entries: set<Entry>, g: File) {
    exists x, y :: x in entries && y in entries && x.User() < g.smallest.user && g.largest.user < y.User()
  }

  /** Ways to split what the compaction keeps into new files. */
  ghost predicate SplitOf(a: Sys, outs: seq<File>)
    requires a.db.pending.Some? && |a.db.levels| == NUM_LEVELS && a.db.pending.value.inputs.level + 1 < NUM_LEVELS
  {
    OutputsFrom(a.db.levels, a.db.pending.value.inputs, outs) && FileEntries(outs) == KeptEntries(a.db.pending.value)
  }

  /** Some split makes the version invalid when it is installed now. */
  ghost predicate CanBreak(a: Sys)
    requires a.db.pending.Some? && |a.db.levels| == NUM_LEVELS && a.db.pending.value.inputs.level + 1 < NUM_LEVELS
  {
    exists outs :: SplitOf(a, outs) && !ValidLevels(Installed(a, outs).db.levels)
  }

  ghost predicate StraddledIn(v: Levels, c: Inputs, kept: set<Entry>, g: File)
    requires |v| == NUM_LEVELS && c.level + 1 < NUM_LEVELS
  {
    g in v[c.level + 1] && g !in c.lower && Straddles(kept, g)
  }

  /** Installing can break the version exactly when a file that stays in the lower level lies between
      entries that the compaction keeps. */
  lemma CanBreakIff(a: Sys)
    requires Inv(a) && a.db.pending.Some?
    ensures |a.db.levels| == NUM_LEVELS && a.db.pending.value.inputs.level + 1 < NUM_LEVELS
    ensures var p := a.db.pending.value;
            CanBreak(a) <==> exists g :: StraddledIn(a.db.levels, p.inputs, KeptEntries(p), g)
  {
    hide Inv, ValidLevels, StillClosed, OutputsFrom, OutputsFit, KeptEntries, Straddles, MemoryInv, UniqueSeqs,
         VersionEntries, InputDeletions, ApplyEdit, AddingEdit, FileEntries;
    StateFacts(a);
    PendingFacts(a);
    var v, c, kept := a.db.levels, a.db.pending.value.inputs, KeptEntries(a.db.pending.value);
    if CanBreak(a) {
      var outs :| SplitOf(a, outs) && !ValidLevels(Installed(a, outs).db.levels);
      InstalledVersion(v, c, outs);
      var g := MisfitIsStraddled(v, c, outs, kept);
      assert StraddledIn(v, c, kept, g);
    }
    if g :| StraddledIn(v, c, kept, g) {
      StraddlesSome(kept, g);
      var outs := OneOutput(a);
      OneOutputSpans(v, c, outs, kept, g);
      InstalledVersion(v, c, outs);
      assert SplitOf(a, outs) && !ValidLevels(Installed(a, outs).db.levels);
    }
  }

  lemma StraddlesSome(entries: set<Entry>, g: File)
    requires Straddles(entries, g)
    ensures entries != {}
  {
  }

  /** An output that does not fit has entries on both sides of a file in a gap between the inputs. */
  lemma MisfitIsStraddled(v: Levels, c: Inputs, outs: seq<File>, kept: set<Entry>) returns (g: File)
    requires ValidLevels(v) && StillClosed(v, c) && OutputsFrom(v, c, outs) && FileEntries(outs) == kept
    requires !OutputsFit(v, c, outs)
    ensures g in v[c.level + 1] && g !in c.lower && Straddles(kept, g)
  {
    hide ValidLevels, StillClosed, Survives, InputDeletions, Before, Straddles;
    LevelFacts(v);
    ClosedFacts(v, c);
    var o: File;
    o, g :| o in outs && Survives(v, InputDeletions(c), c.level + 1, g) && !Before(o, g) && !Before(g, o);
    SurvivesIsLeftOut(v, c, c.level + 1, g);
    if !Overlaps(g, UserLo(c.upper), UserHi(c.upper)) {
      OutputsStandApart(v, c, outs, o, g);
    }
    LowerFacts(v, c);
    InputsAreWellFormed(v, c);
    WellFormedMember(v[c.level + 1], g);
    WellFormedMember(outs, o);
    MisfitSpans(c, outs, o, g);
  }

  lemma MisfitSpans(c: Inputs, outs: seq<File>, o: File, g: File)
    requires o in outs && WellFormed(o) && WellFormed(g) && AllInputsWellFormed(c) && MeetsNone(c, g)
    requires FileEntries(outs) <= InputEntries(c) && !Before(o, g) && !Before(g, o)
    ensures Straddles(FileEntries(outs), g)
  {
    var x, y := o.entries[0], o.entries[|o.entries| - 1];
    assert x in o.entries && y in o.entries;
    assert x in FileEntries(outs) && y in FileEntries(outs);
    InputIsApart(c, x, g);
    InputIsApart(c, y, g);
    EntryInRange(g, g.entries[0]);
  }

  lemma InputIsApart(c: Inputs, e: Entry, g: File)
    requires e in InputEntries(c) && MeetsNone(c, g) && AllInputsWellFormed(c)
    ensures e.User() < g.smallest.user || g.largest.user < e.User()
  {
    var f :| f in c.upper + c.lower && e in f.entries;
    EntryInRange(f, e);
  }

  /** The split with everything in one file. */
  lemma OneOutput(a: Sys) returns (outs: seq<File>)
    requires Inv(a) && a.db.pending.Some? && |a.db.levels| == NUM_LEVELS
    requires a.db.pending.value.inputs.level + 1 < NUM_LEVELS && KeptEntries(a.db.pending.value) != {}
    ensures SplitOf(a, outs) && |outs| == 1
  {
    hide Inv, ValidLevels, StillClosed, MemoryInv, VersionEntries, Hidden, Obsolete, Sorted;
    var p, v := a.db.pending.value, a.db.levels;
    var kept := KeptEntries(p);
    StateFacts(a);
    PendingFacts(a);
    InputsAreInVersion(v, p.inputs);
    var es := SortedSeqOf(kept);
    var f := File(a.db.nextFile, 0, es[0].ikey, es[|es| - 1].ikey, es);
    outs := [f];
    assert es[|es| - 1] in Elements(es);
    KeyIsBounded(a, es[|es| - 1]);
    assert forall o :: o in outs <==> o == f;
    assert FileEntries(outs) == Elements(es);
    NumbersAreBelow(a);
  }

  lemma InputsAreInVersion(v: Levels, c: Inputs)
    requires |v| == NUM_LEVELS && StillClosed(v, c)
    ensures InputEntries(c) <= VersionEntries(v)
  {
    hide StillClosed;
    forall e | e in InputEntries(c)
      ensures e in VersionEntries(v)
    {
      var l, f := InputFile(v, c, e);
    }
  }

  lemma KeyIsBounded(a: Sys, e: Entry)
    requires Inv(a) && e in VersionEntries(a.db.levels)
    ensures e.Seq() <= MAX_SEQUENCE
  {
    hide MemoryInv, FileInv, SnapshotInv, AnswersInv, PendingInv, ManifestInv, UniqueSeqs, VersionEntries;
    assert e in Store(a.db);
  }

  lemma NumbersAreBelow(a: Sys)
    requires Inv(a)
    ensures forall l, g {:trigger g in a.db.levels[l]} ::
              0 <= l < |a.db.levels| && g in a.db.levels[l] ==> g.number < a.db.nextFile
  {
    hide MemoryInv, SnapshotInv, AnswersInv, PendingInv, ManifestInv, HistoryInv, ValidLevels;
  }

  lemma {:induction false} SortedSeqOf(s: set<Entry>) returns (es: seq<Entry>)
    requires UniqueSeqs(s)
    ensures Sorted(es) && Elements(es) == s
    ensures s != {} ==> es != []
  {
    hide InsertSorted;
    if s == {} {
      es := [];
    } else {
      var e :| e in s;
      es := SortedSeqOf(s - {e});
      forall x | x in es
        ensures x.ikey != e.ikey
      {
        assert x in Elements(es);
      }
      InsertKeepsSorted(es, e);
      es := InsertSorted(es, e);
      assert e in Elements(es);
    }
  }

  lemma OneOutputSpans(v: Levels, c: Inputs, outs: seq<File>, kept: set<Entry>, g: File)
    requires ValidLevels(v) && StillClosed(v, c) && OutputsFrom(v, c, outs) && FileEntries(outs) == kept && |outs| == 1
    requires StraddledIn(v, c, kept, g)
    ensures !OutputsFit(v, c, outs)
  {
    hide ValidLevels, StillClosed, Survives, InputDeletions, DistinctNumbers, PairwiseBefore, OutputsFrom;
    LevelFacts(v);
    ClosedFacts(v, c);
    var x, y :| x in kept && y in kept && x.User() < g.smallest.user && g.largest.user < y.User();
    var o := outs[0];
    assert forall f :: f in outs ==> f == o;
    assert x in o.entries && y in o.entries;
    SurvivesIsLeftOut(v, c, c.level + 1, g);
    assert WellFormed(o) by { OutputIsWellFormed(v, c, outs, o); }
    EntryInRange(o, x);
    EntryInRange(o, y);
    assert o in outs && !Before(o, g) && !Before(g, o);
  }

  lemma OutputIsWellFormed(v: Levels, c: Inputs, outs: seq<File>, o: File)
    requires |v| == NUM_LEVELS && c.level + 1 < NUM_LEVELS && OutputsFrom(v, c, outs) && o in outs
    ensures WellFormed(o)
  {
    hide WellFormed, DistinctNumbers, PairwiseBefore, Survives;
  }

  /** A flush makes a pending compaction breakable exactly when it lands in the compaction's lower level,
      between entries that the compaction keeps. Everywhere else it is harmless. */
  lemma FlushCanBreakIff(a: Sys, b: Sys, level: nat, f: File)
    requires Inv(a) && Next(a, b, Flush(level, f)) && a.db.pending.Some?
    ensures Inv(b) && b.db.pending == a.db.pending && |a.db.levels| == |b.db.levels| == NUM_LEVELS
    ensures a.db.pending.value.inputs.level + 1 < NUM_LEVELS
    ensures CanBreak(b) <==>
            || CanBreak(a)
            || (level == a.db.pending.value.inputs.level + 1 && Straddles(KeptEntries(a.db.pending.value), f))
  {
    hide Inv, ValidLevels, MemoryInv, UniqueSeqs, VersionEntries, CanBreak, Straddles, KeptEntries, WellFormed, RoomAt,
         NewestFile, ApplyEdit, AddingEdit, StillClosed, ImmEntries, FileEntries;
    StepKeepsInv(a, b, Flush(level, f));
    StateFacts(a);
    PendingFacts(a);
    FlushedFile(a, level, f);
    FlushedVersion(a.db.levels, level, f);
    CanBreakIff(a);
    CanBreakIff(b);
    var p := a.db.pending.value;
    var kept := KeptEntries(p);
    NewFileIsNoInput(a, f);
    forall g
      ensures StraddledIn(b.db.levels, p.inputs, kept, g) <==>
              || StraddledIn(a.db.levels, p.inputs, kept, g)
              || (level == p.inputs.level + 1 && g == f && Straddles(kept, f))
    {
      assert g in b.db.levels[p.inputs.level + 1] <==>
          (level == p.inputs.level + 1 && g == f) || g in a.db.levels[p.inputs.level + 1];
    }
    if level == p.inputs.level + 1 && Straddles(kept, f) {
      assert StraddledIn(b.db.levels, p.inputs, kept, f);
    }
  }

  lemma NewFileIsNoInput(a: Sys, f: File)
    requires Inv(a) && a.db.pending.Some? && f.number == a.db.nextFile
    ensures f !in a.db.pending.value.inputs.lower
  {
    hide Inv, ValidLevels, MemoryInv, UniqueSeqs, VersionEntries;
    StateFacts(a);
    PendingFacts(a);
    NumbersAreBelow(a);
    LowerFacts(a.db.levels, a.db.pending.value.inputs);
  }

  /** With gapless inputs no flush is ever harmful. */
  lemma GaplessCannotBreak(a: Sys)
    requires Inv(a) && a.db.pending.Some?
    ensures |a.db.levels| == NUM_LEVELS && a.db.pending.value.inputs.level + 1 < NUM_LEVELS
    ensures a.db.pending.value.inputs.upper != []
    ensures Gapless(a.db.pending.value.inputs) ==> !CanBreak(a)
  {
    hide Inv, ValidLevels, StillClosed, Closed, OutputsFrom, OutputsFit, MemoryInv, UniqueSeqs, VersionEntries,
         ApplyEdit, AddingEdit, FileEntries, KeptEntries, Gapless, InputDeletions;
    StateFacts(a);
    PendingFacts(a);
    var v, c := a.db.levels, a.db.pending.value.inputs;
    ClosedFacts(v, c);
    if Gapless(c) && CanBreak(a) {
      var outs :| SplitOf(a, outs) && !ValidLevels(Installed(a, outs).db.levels);
      GaplessStaysClosed(v, c);
      ClosedOutputsFit(v, c, outs);
      InstalledVersion(v, c, outs);
    }
  }
}
