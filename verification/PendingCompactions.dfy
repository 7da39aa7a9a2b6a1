/** From the choice of a compaction to its installation: what the steps in between cannot spoil. */
module PendingCompactions {
  import opened InternalKeys
  import opened Versions
  import opened Builders
  import opened CompactionInputs
  import opened CompactionMeaning
  import opened VersionEdits
  import opened StateMachine
  import opened Safety

  lemma StateFacts(a: Sys)
    requires Inv(a)
    ensures ValidLevels(a.db.levels) && |a.db.levels| == NUM_LEVELS
    ensures UniqueSeqs(Store(a.db)) && UniqueSeqs(VersionEntries(a.db.levels))
    ensures MemoryInv(a.db.mem, a.db.imm, VersionEntries(a.db.levels))
    ensures a.db.lastSequence < MAX_SEQUENCE
  {
    MemoryIsNewer(a);
    hide ValidLevels, SnapshotInv, AnswersInv, PendingInv, ManifestInv, MemoryInv, VersionEntries, UniqueSeqs;
    assert FileInv(a.db.levels, a.db.nextFile);
    assert ValidLevels(a.db.levels);
    LevelFacts(a.db.levels);
  }

  lemma PendingFacts(a: Sys)
    requires Inv(a) && a.db.pending.Some?
    ensures var p := a.db.pending.value;
            && |a.db.levels| == NUM_LEVELS && StillClosed(a.db.levels, p.inputs) && ValidLevels(p.base)
            && p.inputs.level + 1 < NUM_LEVELS && p.smallestSnapshot < MAX_SEQUENCE
  {
    hide FileInv, AnswersInv, ManifestInv, MemoryInv, ValidLevels, DeeperKept, UniqueSeqs;
  }

  /** When no left-out file continues the last lower input, installing keeps every answer. */
  lemma NoContinuationIsEnough(a: Sys)
    requires Inv(a) && a.db.pending.Some?
    ensures |a.db.levels| == NUM_LEVELS && a.db.pending.value.inputs.level + 1 < NUM_LEVELS
    ensures var p := a.db.pending.value;
            NoContinuation(a.db.levels, p.inputs) ==>
              !Resurrects(a.db.levels, p.inputs.level, InputEntries(p.inputs),
                          Memory(a.db) + OtherFiles(a.db.levels, p.inputs), p.smallestSnapshot)
  {
    hide Inv, ValidLevels, StillClosed, NoContinuation, MemoryInv, VersionEntries, UniqueSeqs, InputEntries, OtherFiles,
         Memory, MemoryNewer, Resurrects;
    var p := a.db.pending.value;
    StateFacts(a);
    PendingFacts(a);
    MemoryIsNewer(a);
    if NoContinuation(a.db.levels, p.inputs) {
      ClosedNeverResurrects(a.db.levels, p.inputs, Memory(a.db), p.smallestSnapshot);
    }
  }

  /** A file that meets no input does not continue their last lower key. */
  lemma MeetsNoneDoesNotContinue(v: Levels, c: Inputs, f: File)
    requires |v| == NUM_LEVELS && c.level + 1 < NUM_LEVELS && WellFormed(f) && MeetsNone(c, f)
    requires AllWellFormed(c.lower)
    ensures !ContinuedBy(v, c, f)
  {
    hide SmallestKey, LargestKey;
    if c.lower != [] {
      RangeBounds(c.lower);
      var last :| last in c.lower && last.largest == LargestKey(c.lower);
      assert last in c.upper + c.lower;
      EntryInRange(last, last.entries[0]);
      EntryInRange(f, f.entries[0]);
    }
  }

  /** No step brings in a continuation while the compaction is pending: only flushes change the version
      then, and what they bring into the lower level meets none of the inputs. */
  lemma StepAddsNoContinuation(a: Sys, b: Sys, step: Step)
    requires Inv(a) && Next(a, b, step) && a.db.pending.Some? && b.db.pending.Some?
    ensures b.db.pending.value.inputs == a.db.pending.value.inputs
    ensures |a.db.levels| == |b.db.levels| == NUM_LEVELS && a.db.pending.value.inputs.level + 1 < NUM_LEVELS
    ensures NoContinuation(a.db.levels, a.db.pending.value.inputs) ==>
              NoContinuation(b.db.levels, a.db.pending.value.inputs)
  {
    hide Inv, ContinuedBy, StillClosed, ValidLevels, ApplyEdit, AddingEdit, OutputsOf, Resurrects, RoomAt,
         WellFormed, MemoryInv, UniqueSeqs, VersionEntries, InputDeletions;
    StateFacts(a);
    PendingFacts(a);
    match step
    case Flush(level, f) =>
      if NoContinuation(a.db.levels, a.db.pending.value.inputs) {
        FlushAddsNoContinuation(a, b, level, f);
      }
    case FlushEmpty =>
      EmptyEditChangesNothing(a.db.levels);
    case _ =>
  }

  lemma FlushAddsNoContinuation(a: Sys, b: Sys, level: nat, f: File)
    requires Inv(a) && Next(a, b, Flush(level, f)) && a.db.pending.Some?
    requires |a.db.levels| == |b.db.levels| == NUM_LEVELS && a.db.pending.value.inputs.level + 1 < NUM_LEVELS
    requires NoContinuation(a.db.levels, a.db.pending.value.inputs)
    ensures NoContinuation(b.db.levels, a.db.pending.value.inputs)
  {
    hide Inv, StillClosed, ValidLevels, ApplyEdit, AddingEdit, RoomAt, WellFormed, MemoryInv, UniqueSeqs, VersionEntries,
         Continues, MeetsNone, NewestFile, AllWellFormed, FileEntries, ImmEntries, LargestKey;
    var v, v', c := a.db.levels, b.db.levels, a.db.pending.value.inputs;
    StateFacts(a);
    PendingFacts(a);
    FlushedFile(a, level, f);
    FlushedVersion(v, level, f);
    InputsAreWellFormed(v, c);
    ClosedFacts(v, c);
    LowerIsWellFormed(c);
    forall g
      ensures !ContinuedBy(v', c, g)
    {
      assert !ContinuedBy(v, c, g);
      if level == c.level + 1 && g == f {
        RoomMeetsNone(v, c, level, f);
        MeetsNoneDoesNotContinue(v', c, f);
      }
    }
  }

  lemma LowerIsWellFormed(c: Inputs)
    requires AllInputsWellFormed(c)
    ensures AllWellFormed(c.lower)
  {
    hide WellFormed;
  }

  /** The same compaction is pending from state i to state j of a run. */
  ghost predicate PendingThroughout(run: seq<Sys>, i: nat, j: nat) {
    i <= j < |run| && forall m :: i <= m <= j ==> run[m].db.pending.Some?
  }

  /** A compaction chosen without a continuation can be installed at any later point at which it is
      still pending, whatever was written, flushed or snapshotted meanwhile. */
  lemma {:induction false} ChosenSafelyStaysSafe(run: seq<Sys>, i: nat, j: nat)
    requires Run(run) && PendingThroughout(run, i, j)
    requires |run[i].db.levels| == NUM_LEVELS && run[i].db.pending.value.inputs.level + 1 < NUM_LEVELS
    requires NoContinuation(run[i].db.levels, run[i].db.pending.value.inputs)
    ensures |run[j].db.levels| == NUM_LEVELS && run[j].db.pending.value.inputs == run[i].db.pending.value.inputs
    ensures NoContinuation(run[j].db.levels, run[j].db.pending.value.inputs)
    ensures var a, p := run[j], run[j].db.pending.value;
            !Resurrects(a.db.levels, p.inputs.level, InputEntries(p.inputs),
                        Memory(a.db) + OtherFiles(a.db.levels, p.inputs), p.smallestSnapshot)
    decreases j
  {
    hide Inv, Next, NoContinuation, Resurrects, InputEntries, OtherFiles, Memory;
    RunKeepsInv(run, j);
    if i < j {
      ChosenSafelyStaysSafe(run, i, j - 1);
      RunKeepsInv(run, j - 1);
      assert Steps(run[j - 1], run[j - 1 + 1]);
      var step :| Next(run[j - 1], run[j], step);
      StepAddsNoContinuation(run[j - 1], run[j], step);
    }
    NoContinuationIsEnough(run[j]);
  }

  /** So a compaction that was picked, with gapless inputs that nothing continues, can be installed at any
      later point, however its outputs are split. */
  lemma PickedSafelyInstalls(run: seq<Sys>, i: nat, j: nat, outs: seq<File>)
    requires Run(run) && PendingThroughout(run, i, j)
    requires |run[i].db.levels| == NUM_LEVELS && run[i].db.pending.value.inputs.level + 1 < NUM_LEVELS
    requires NoContinuation(run[i].db.levels, run[i].db.pending.value.inputs)
    requires run[i].db.pending.value.inputs.upper != [] && Gapless(run[i].db.pending.value.inputs)
    requires OutputsOf(run[j].db.pending.value, outs)
    ensures |run[j].db.levels| == NUM_LEVELS && Next(run[j], Installed(run[j], outs), Install(outs))
    ensures Inv(Installed(run[j], outs))
  {
    hide Inv, Run, NoContinuation, Resurrects, InputEntries, OtherFiles, Memory, OutputsOf, OutputsFit, Gapless;
    ChosenSafelyStaysSafe(run, i, j);
    RunKeepsInv(run, j);
    InstallKeepsInvIff(run[j], outs);
    GaplessAlwaysFits(run[j], outs);
  }
}
