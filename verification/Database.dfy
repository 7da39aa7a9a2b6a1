/** The store as an object (db/db_impl.cc: DBImpl). Each method is what one thread does while it holds
    the mutex; its contract says which step of the state machine it is. */
module Database {
  import opened InternalKeys
  import opened Operations
  import opened Versions
  import opened Builders
  import opened Manifest
  import opened CompactionInputs
  import opened CompactionMeaning
  import opened CompactionWork
  import opened VersionEdits
  import opened StateMachine
  import opened Safety
  import opened PendingCompactions
  import opened Cursors
  import opened MergingIterators
  import opened DbIters
  import opened StoreIterators

  class DBImpl {
    var mem: seq<Entry>
    var imm: Option<seq<Entry>>
    var levels: Levels
    var lastSequence: nat
    var inserted: nat
    var snapshots: seq<nat>
    var nextFile: nat
    var pending: Option<Pending>
    var manifest: seq<Edit>
    ghost var history: set<Entry>
    ghost var horizon: nat

    ghost function State(): Sys
      reads this
    {
      Sys(Db(mem, imm, levels, lastSequence, inserted, snapshots, nextFile, pending), history, horizon, manifest)
    }

    ghost predicate Valid()
      reads this
    {
      Inv(State()) && (pending.Some? ==> InputsInOrder(pending.value.inputs))
    }

    constructor ()
      ensures Valid() && Init(State())
    {
      mem, imm, levels := [], None, EMPTY_VERSION;
      lastSequence, inserted, snapshots, nextFile := 0, 0, [], 4;
      pending, manifest, history, horizon := None, FIRST_EDITS, {}, 0;
      new;
      InitSatisfiesInv(State());
    }

    // ----- Writing -----

    /** MemTableInserter, for one operation of the group being written. */
    method InsertOne(op: Op)
      requires Valid() && lastSequence + inserted + 1 < MAX_SEQUENCE
      modifies this`mem, this`inserted, this`history
      ensures Valid() && Next(old(State()), State(), Insert(EntryOf(op, old(lastSequence + inserted) + 1)))
      ensures inserted == old(inserted) + 1
      ensures history == old(history) + {EntryOf(op, old(lastSequence + inserted) + 1)}
    {
      hide Inv, InsertSorted;
      ghost var a := State();
      var e := EntryOf(op, lastSequence + inserted + 1);
      mem := InsertSorted(mem, e);
      inserted := inserted + 1;
      history := history + {e};
      StepKeepsInv(a, State(), Insert(e));
    }

    /** The part of Write that follows BuildBatchGroup: the group goes to the memtable only if the log
        accepted it, but its sequence numbers are used up either way. */
    method ApplyGroup(ops: seq<Op>, logged: bool)
      requires Valid() && inserted == 0 && lastSequence + |ops| + 1 < MAX_SEQUENCE
      modifies this`mem, this`inserted, this`history, this`lastSequence
      ensures Valid() && inserted == 0 && lastSequence == old(lastSequence) + |ops|
      ensures history == old(history) + if logged then EntriesOf(ops, old(lastSequence) + 1) else {}
      // Every reader of the new last sequence number sees the whole group, in order.
      ensures logged ==> forall k :: Read(history, k, lastSequence)
                                  == AfterOps(ops, k, Read(old(history), k, old(lastSequence)))
      // No reader of an earlier one sees any of it.
      ensures forall k, s: nat :: s <= old(lastSequence) ==> Read(history, k, s) == Read(old(history), k, s)
    {
      hide Inv, Next, Read, EntriesOf, AfterOps;
      ghost var before := State();
      if logged {
        NoOps(history, lastSequence);
        for i := 0 to |ops|
          invariant Valid() && inserted == i && lastSequence == old(lastSequence)
          invariant history == old(history) + EntriesOf(ops[..i], lastSequence + 1)
          invariant forall k :: Read(history, k, lastSequence + i) == AfterOps(ops[..i], k, Read(old(history), k, lastSequence))
          invariant forall k, s: nat :: s <= lastSequence ==> Read(history, k, s) == Read(old(history), k, s)
        {
          ghost var a := State();
          HistoryBounds(a);
          OneMoreOp(old(history), history, ops, i, lastSequence);
          InsertOne(ops[i]);
        }
        assert ops[..|ops|] == ops;
      }
      Publish(|ops|);
    }

    /** SetLastSequence, when a group is done. */
    method Publish(count: nat)
      requires Valid() && inserted <= count && lastSequence + count < MAX_SEQUENCE
      modifies this`lastSequence, this`inserted
      ensures Valid() && Next(old(State()), State(), Step.Publish(count))
      ensures lastSequence == old(lastSequence) + count && inserted == 0
    {
      hide Inv;
      ghost var a := State();
      lastSequence := lastSequence + count;
      inserted := 0;
      StepKeepsInv(a, State(), Step.Publish(count));
    }

    /** MakeRoomForWrite, when the memtable is full and there is no immutable one. */
    method SwitchMemTable()
      requires Valid() && imm.None? && inserted == 0
      modifies this
      ensures Valid() && Next(old(State()), State(), Rotate)
    {
      hide Inv;
      ghost var a := State();
      imm, mem := Some(mem), [];
      nextFile := nextFile + 1;
      StepKeepsInv(a, State(), Rotate);
    }

    // ----- Snapshots and reads -----

    method GetSnapshot() returns (s: nat)
      requires Valid()
      modifies this`snapshots
      ensures Valid() && Next(old(State()), State(), TakeSnapshot)
      ensures s == lastSequence && snapshots == old(snapshots) + [s]
    {
      hide Inv;
      ghost var a := State();
      s := lastSequence;
      snapshots := snapshots + [s];
      StepKeepsInv(a, State(), TakeSnapshot);
    }

    method ReleaseSnapshot(i: nat)
      requires Valid() && i < |snapshots|
      modifies this`snapshots
      ensures Valid() && Next(old(State()), State(), StateMachine.ReleaseSnapshot(i))
    {
      hide Inv;
      ghost var a := State();
      snapshots := snapshots[..i] + snapshots[i + 1..];
      StepKeepsInv(a, State(), StateMachine.ReleaseSnapshot(i));
    }

    /** DBImpl::Get: memtable, immutable memtable, current version, stopping at the first hit. The
        answer is the newest write at or below the snapshot, over everything ever written. */
    method Get(k: Key, snapshot: Option<nat>) returns (r: Option<string>)
      requires Valid() && (snapshot.Some? ==> snapshot.value in snapshots)
      ensures r == Read(history, k, if snapshot.Some? then snapshot.value else lastSequence)
    {
      hide Inv, Read, NewestAt, NothingAt, MemoryInv, VersionEntries;
      var s := if snapshot.Some? then snapshot.value else lastSequence;
      StateFacts(State());
      ReadableIsExact(State(), k, s);
      var hit := MemGet(mem, k, s);
      if hit.None? && imm.Some? {
        hit := MemGet(imm.value, k, s);
      }
      if hit.None? {
        hit := Versions.Get(levels, k, s);
      }
      FirstHitAnswers(State(), k, s, hit);
      r := if hit.Some? then ValueOf(hit.value) else None;
    }

    /** DBImpl::NewIterator: a cursor over the merged memtables and tables, at a fixed sequence number. */
    method NewIterator(snapshot: Option<nat>) returns (r: DBIter)
      requires Valid() && (snapshot.Some? ==> snapshot.value in snapshots)
      ensures fresh(r) && fresh(r.iter) && r.Valid() && r.Current() == None
      ensures r.sequence == if snapshot.Some? then snapshot.value else lastSequence
      // What it visits is what the history holds at that sequence number.
      ensures forall k :: Read(r.Entries(), k, r.sequence) == Read(history, k, r.sequence)
    {
      hide Inv, Read, MemoryInv, VersionEntries, ProperChildren, Union, UniqueSeqs, ValidLevels, Sorted, Elements;
      var s := if snapshot.Some? then snapshot.value else lastSequence;
      StateFacts(State());
      MemoryChildren(State());
      var children := [mem] + if imm.Some? then [imm.value] else [];
      children := AddIterators(levels, children);
      var iter := new MergingIterator(children);
      r := new DBIter(iter, s);
      forall k
        ensures Read(r.Entries(), k, s) == Read(history, k, s)
      {
        ReadableIsExact(State(), k, s);
      }
    }

    // ----- The version and its log -----

    /** VersionSet::LogAndApply */
    method LogAndApply(e: Edit)
      requires ValidEdit(e) && |levels| == NUM_LEVELS
      requires forall l :: 0 <= l < NUM_LEVELS ==> InBuilderOrder(levels[l])
      modifies this`levels, this`manifest
      ensures |old(levels)| == NUM_LEVELS && levels == ApplyEdit(old(levels), e) && manifest == old(manifest) + [e]
    {
      hide Merge, Live, AddedAfter, DeletedAfter, InBuilderOrder;
      ghost var v := levels;
      var builder := new Builder(levels);
      builder.Apply(e);
      levels := builder.SaveTo();
      manifest := manifest + [e];
      assert levels == ApplyEdit(v, e);
    }

    /** VersionSet::Recover: the manifest alone gives back the current version. */
    method RecoverVersion() returns (v: Levels)
      requires Valid()
      ensures v == levels
    {
      hide Inv;
      ManifestFacts(State());
      v := Recover(manifest);
    }

    // ----- Flushing -----

    /** CompactMemTable with WriteLevel0Table. It may run while a compaction is pending. */
    method CompactMemTable(size: nat, maxFileSize: nat) returns (level: nat, f: Option<File>)
      requires Valid() && imm.Some?
      modifies this`imm, this`levels, this`nextFile, this`manifest
      ensures imm == None && nextFile == old(nextFile) + 1
      ensures f.None? <==> old(imm) == Some([])
      ensures Valid()
      ensures f.None? ==> Next(old(State()), State(), FlushEmpty)
      ensures f.Some? ==> Next(old(State()), State(), Flush(level, f.value))
      // The table goes as deep as it may.
      ensures f.Some? ==>
                && |old(levels)| == NUM_LEVELS
                && FlushLevel(old(levels), f.value.smallest.user, f.value.largest.user, maxFileSize, level)
    {
      hide Inv, ApplyEdit, AddingEdit, ValidLevels, InBuilderOrder, RoomAt, WellFormed, MemoryInv, VersionEntries,
           UniqueSeqs, FlushLevel;
      ghost var a := State();
      StateFacts(a);
      LevelsInOrder(levels);
      var number := nextFile;
      nextFile := nextFile + 1;
      var table := imm.value;
      level, f := 0, None;
      if table != [] {
        f := Some(TableOf(number, size, table));
        TableIsWellFormed(a, size);
        FirstIsLeast(f.value);
        level := PickLevelForMemTableOutput(levels, table[0].User(), table[|table| - 1].User(), maxFileSize);
        FlushEditIsValid(level, f.value);
        LogAndApply(AddingEdit({}, level, [f.value]));
        imm := None;
        RoomIsMade(a.db.levels, level, f.value);
        FlushIsStep(a, State(), level, f.value);
        StepKeepsInv(a, State(), Flush(level, f.value));
      } else {
        LogAndApply(Edit({}, []));
        imm := None;
        StepKeepsInv(a, State(), FlushEmpty);
      }
    }

    // ----- Compactions -----

    /** BackgroundCompaction without a manual request: pick, then move the single file or start. */
    method BackgroundCompaction(sizeLevel: Option<nat>, seekFile: Option<(nat, File)>, pointer: Option<IKey>,
                                size: nat, maxFileSize: nat)
      returns (step: Option<Step>)
      requires Valid() && pending.None?
      requires sizeLevel.Some? ==> sizeLevel.value + 1 < NUM_LEVELS && sizeLevel.value < |levels|
                                   && levels[sizeLevel.value] != []
      requires seekFile.Some? ==> seekFile.value.0 + 1 < NUM_LEVELS && seekFile.value.0 < |levels|
                                  && seekFile.value.1 in levels[seekFile.value.0]
      modifies this
      ensures Valid()
      ensures step.None? ==> State() == old(State())
      ensures step.Some? ==> Next(old(State()), State(), step.value)
      // An immutable memtable goes first; after that, whatever is picked is gapless.
      ensures old(imm).Some? <==> step.Some? && (step.value.Flush? || step.value.FlushEmpty?)
      ensures step.Some? && step.value.Begin? ==> pending.Some? && Gapless(pending.value.inputs)
      ensures old(imm).None? && (sizeLevel.Some? || seekFile.Some?) ==>
                step.Some? && (step.value.Begin? || step.value.Move?)
      // A single file with nothing below it is moved, unless it would lie over too many bytes further down.
      ensures step.Some? && (step.value.Begin? || step.value.Move?) ==>
                && |old(levels)| == NUM_LEVELS && step.value.c.upper != []
                && PickedFor(old(levels), sizeLevel, seekFile, pointer, maxFileSize, step.value.c)
                && (step.value.Move? <==>
                      && |step.value.c.upper| == 1 && step.value.c.lower == []
                      && GrandparentSize(old(levels), step.value.c) <= 10 * maxFileSize)
    {
      hide Inv, Next, ApplyEdit, AddingEdit, ValidLevels, Gapless, Closed, InputsInOrder, MemoryInv, VersionEntries,
           UniqueSeqs;
      ghost var a := State();
      if imm.Some? {
        var level, f := CompactMemTable(size, maxFileSize);
        return Some(if f.Some? then Flush(level, f.value) else FlushEmpty);
      }
      StateFacts(a);
      LevelsInOrder(levels);
      var picked, grandparents := PickCompaction(levels, sizeLevel, seekFile, pointer, maxFileSize);
      if picked.None? {
        return None;
      }
      var c := picked.value;
      if |c.upper| == 1 && |c.lower| == 0 && TotalSize(grandparents) <= 10 * maxFileSize {
        var f := c.upper[0];
        MoveEditIsValid(levels, c, f);
        LogAndApply(AddingEdit(InputDeletions(c), c.level + 1, [f]));
        MoveIsStep(a, State(), c, f);
        StepKeepsInv(a, State(), Move(c, f));
        return Some(Move(c, f));
      }
      Start(c);
      return Some(Begin(c));
    }

    /** A manual compaction of a key range: it may leave gaps, and never moves a file. */
    method ManualCompaction(level: nat, begin: Option<Key>, end: Option<Key>, maxFileSize: nat) returns (done: bool)
      requires Valid() && imm.None? && pending.None? && level + 1 < NUM_LEVELS
      modifies this`pending
      ensures Valid()
      ensures done ==> State() == old(State())
      ensures !done ==> pending.Some? && pending.value.inputs.level == level
                        && Next(old(State()), State(), Begin(pending.value.inputs))
      ensures |levels| == NUM_LEVELS && (done <==> forall f :: f in levels[level] ==> !Overlaps(f, begin, end))
      // In level 0 every file that meets the range is compacted, above it the first such files up to the size limit.
      ensures !done && level == 0 ==>
                forall f :: f in levels[0] && Overlaps(f, begin, end) ==> f in pending.value.inputs.upper
      ensures !done && level > 0 ==>
                var met := Overlapping(levels[level], begin, end);
                forall i :: 0 <= i < |met| && (i == 0 || TotalSize(met[..i]) < maxFileSize) ==>
                  met[i] in pending.value.inputs.upper
      ensures !done ==> AskedFor(levels, level, begin, end, maxFileSize, pending.value.inputs)
    {
      hide Inv, Next, ValidLevels, Closed, InputsInOrder, MemoryInv, VersionEntries, UniqueSeqs, AskedFor, TotalSize;
      StateFacts(State());
      LevelsInOrder(levels);
      var picked := CompactRange(levels, level, begin, end, maxFileSize);
      if picked.None? {
        return true;
      }
      Start(picked.value);
      return false;
    }

    /** The start of DoCompactionWork: fix the smallest snapshot. */
    method Start(c: Inputs)
      requires Valid() && pending.None? && |levels| == NUM_LEVELS && Closed(levels, c) && InputsInOrder(c)
      modifies this`pending
      ensures Valid() && Next(old(State()), State(), Begin(c))
      ensures pending.Some? && pending.value.inputs == c
    {
      hide Inv, Closed, InputsInOrder;
      ghost var a := State();
      var smallestSnapshot := if snapshots == [] then lastSequence else snapshots[0];
      pending := Some(Pending(c, levels, smallestSnapshot, []));
      StepKeepsInv(a, State(), Begin(c));
    }

    /** DoCompactionWork's loop over the merged inputs. Nothing it reads changes while it is pending. */
    method CompactionOutputs(stopBefore: nat -> bool, full: nat -> bool) returns (groups: seq<seq<Entry>>)
      requires Valid() && pending.Some?
      ensures GroupsOf(pending.value, groups)
    {
      hide Inv, ValidLevels, StillClosed, InputsInOrder, UniqueSeqs, VersionEntries, Sorted, Elements, Kept, Flatten,
           KeptPrefix, MemoryInv, MergingIterator.Aligned, ProperChildren;
      var p := pending.value;
      StateFacts(State());
      PendingFacts(State());
      InputsAreUnique(levels, p.inputs);
      var iter := MakeInputIterator(levels, p.inputs);
      var input := Drain(iter);
      var c := new Compaction(p.inputs.level, p.base);
      groups := DropAndSplit(c, input, p.smallestSnapshot, seq(|input|, stopBefore), seq(|input|, full));
      KeptIsKept(p.base, p.inputs.level, input, p.smallestSnapshot);
      assert forall i :: 0 <= i < |groups| ==> groups[i] in groups;
    }

    /** OpenCompactionOutputFile */
    method OpenCompactionOutputFile()
      requires Valid() && pending.Some?
      modifies this`pending, this`nextFile
      ensures Valid() && Next(old(State()), State(), Allocate)
    {
      hide Inv;
      ghost var a := State();
      pending := Some(pending.value.(outputs := pending.value.outputs + [nextFile]));
      nextFile := nextFile + 1;
      StepKeepsInv(a, State(), Allocate);
    }

    /** InstallCompactionResults: one output file for each group of kept entries. The version is the edited
        one in any case. The store stays valid exactly when no output spans a file of the lower level and no
        answer is lost; for gapless inputs that nothing continues it always does. */
    method InstallCompactionResults(groups: seq<seq<Entry>>, sizes: seq<nat>) returns (outs: seq<File>)
      requires Valid() && pending.Some? && GroupsOf(pending.value, groups)
      requires |groups| == |sizes| == |pending.value.outputs|
      modifies this`levels, this`pending, this`manifest, this`horizon
      ensures |old(levels)| == NUM_LEVELS && old(pending).value.inputs.level + 1 < NUM_LEVELS
      ensures OutputsOf(old(pending).value, outs) && State() == Installed(old(State()), outs)
      ensures Valid() <==>
              && OutputsFit(old(levels), old(pending).value.inputs, outs)
              && !Resurrects(old(levels), old(pending).value.inputs.level, InputEntries(old(pending).value.inputs),
                             Memory(old(State()).db) + OtherFiles(old(levels), old(pending).value.inputs),
                             old(pending).value.smallestSnapshot)
      ensures Valid() ==> Next(old(State()), State(), Install(outs))
      ensures old(pending).value.inputs.upper != []
      ensures Gapless(old(pending).value.inputs) && NoContinuation(old(levels), old(pending).value.inputs) ==> Valid()
    {
      hide Inv, ApplyEdit, AddingEdit, InputDeletions, ValidLevels, StillClosed, InputsInOrder, OutputsOf, GroupsOf,
           Resurrects, NoContinuation, MemoryInv, VersionEntries, UniqueSeqs, InputEntries, OtherFiles, Memory,
           OutputsFit, Gapless;
      ghost var a := State();
      var p := pending.value;
      StateFacts(a);
      PendingFacts(a);
      ClosedFacts(levels, p.inputs);
      LevelsInOrder(levels);
      GroupsAreFull(p, groups);
      outs := FilesOf(groups, sizes, p.outputs);
      GroupsMakeOutputs(a, groups, sizes);
      ValidInstallEdit(p.inputs, outs);
      LogAndApply(AddingEdit(InputDeletions(p.inputs), p.inputs.level + 1, outs));
      pending := None;
      horizon := p.smallestSnapshot;
      NoContinuationIsEnough(a);
      InstallKeepsInvIff(a, outs);
      GaplessAlwaysFits(a, outs);
    }

    /** A compaction that fails leaves the version alone. */
    method AbandonCompaction()
      requires Valid() && pending.Some?
      modifies this`pending
      ensures Valid() && Next(old(State()), State(), Abandon)
    {
      hide Inv;
      ghost var a := State();
      pending := None;
      StepKeepsInv(a, State(), Abandon);
    }
  }

  // ----- Facts of the invariant that the methods use -----

  lemma LevelsInOrder(v: Levels)
    requires ValidLevels(v)
    ensures forall l :: 0 <= l < NUM_LEVELS ==> InBuilderOrder(v[l])
    ensures forall l :: 0 <= l < NUM_LEVELS ==> AllWellFormed(v[l])
  {
  }

  lemma ManifestFacts(a: Sys)
    requires Inv(a)
    ensures forall i :: 0 <= i < |a.manifest| ==> ValidEdit(a.manifest[i])
    ensures AddedOnce(Additions(a.manifest)) && a.db.levels == Running(EMPTY_VERSION, a.manifest)
  {
    hide FileInv, SnapshotInv, AnswersInv, PendingInv, MemoryInv, HistoryInv, Running, Additions, AddedOnce, ValidEdit;
  }

  // ----- Writing -----

  lemma HistoryBounds(a: Sys)
    requires Inv(a)
    ensures UniqueSeqs(a.history) && forall e :: e in a.history ==> e.Seq() <= a.db.lastSequence + a.db.inserted
  {
    hide FileInv, SnapshotInv, AnswersInv, PendingInv, MemoryInv, ManifestInv, UniqueSeqs;
  }

  // ----- Reading -----

  /** MemTable::Get: seek to the lookup key, and see whether the entry there belongs to the user key. */
  function MemGet(es: seq<Entry>, k: Key, s: nat): Option<Entry> {
    var i := SeekIndex(es, SeekKey(k, s));
    if i < |es| && es[i].User() == k then Some(es[i]) else None
  }

  lemma MemGetNewest(es: seq<Entry>, k: Key, s: nat)
    requires Sorted(es)
    ensures MemGet(es, k, s).None? ==> NothingAt(Elements(es), k, s)
    ensures MemGet(es, k, s).Some? ==> NewestAt(Elements(es), k, s, MemGet(es, k, s).value)
  {
    hide NewestAt, NothingAt, Sorted;
    SeekFindsNewest(es, k, s);
  }

  /** Reading newer parts of a store first: a hit in the newer part is the hit of both. */
  lemma NewerPartFirst(A: set<Entry>, B: set<Entry>, k: Key, s: nat, e: Entry)
    requires Newer(A, B)
    ensures NewestAt(A, k, s, e) ==> NewestAt(A + B, k, s, e)
    ensures NothingAt(A, k, s) && NewestAt(B, k, s, e) ==> NewestAt(A + B, k, s, e)
  {
  }

  /** The first hit in memtable, immutable memtable and version answers for the whole store. */
  lemma FirstHitAnswers(a: Sys, k: Key, s: nat, hit: Option<Entry>)
    requires Inv(a)
    requires var first := MemGet(a.db.mem, k, s);
             var second := if first.None? && a.db.imm.Some? then MemGet(a.db.imm.value, k, s) else first;
             && (second.Some? ==> hit == second)
             && (second.None? ==>
                   && (hit.None? ==> NothingAt(VersionEntries(a.db.levels), k, s))
                   && (hit.Some? ==> NewestAt(VersionEntries(a.db.levels), k, s, hit.value)))
    ensures Read(Store(a.db), k, s) == if hit.Some? then ValueOf(hit.value) else None
  {
    hide Inv, Read, NewestAt, NothingAt, VersionEntries, Elements, Newer, MemGet, Sorted, ImmEntries, UniqueSeqs,
         ValidLevels;
    StateFacts(a);
    var tables := VersionEntries(a.db.levels);
    MemGetNewest(a.db.mem, k, s);
    ImmGet(a.db, k, s);
    assert Store(a.db) == Elements(a.db.mem) + (ImmEntries(a.db) + tables);
    NewerThanRest(a.db);
    if hit.Some? {
      NewerPartFirst(ImmEntries(a.db), tables, k, s, hit.value);
      NewerPartFirst(Elements(a.db.mem), ImmEntries(a.db) + tables, k, s, hit.value);
      ReadIsNewest(Store(a.db), k, s, hit.value);
    } else {
      NothingInParts(Elements(a.db.mem), ImmEntries(a.db), tables, k, s);
      ReadIsNothing(Store(a.db), k, s);
    }
  }

  lemma ImmGet(db: Db, k: Key, s: nat)
    requires MemoryInv(db.mem, db.imm, VersionEntries(db.levels))
    ensures db.imm.None? ==> NothingAt(ImmEntries(db), k, s)
    ensures db.imm.Some? && MemGet(db.imm.value, k, s).None? ==> NothingAt(ImmEntries(db), k, s)
    ensures db.imm.Some? && MemGet(db.imm.value, k, s).Some? ==>
              NewestAt(ImmEntries(db), k, s, MemGet(db.imm.value, k, s).value)
  {
    hide VersionEntries, Sorted, MemGet, NewestAt;
    if db.imm.Some? {
      MemGetNewest(db.imm.value, k, s);
    }
  }

  lemma NewerThanRest(db: Db)
    requires MemoryInv(db.mem, db.imm, VersionEntries(db.levels))
    ensures Newer(Elements(db.mem), ImmEntries(db) + VersionEntries(db.levels))
    ensures Newer(ImmEntries(db), VersionEntries(db.levels))
    ensures Sorted(db.mem)
  {
    hide VersionEntries, Sorted, Elements;
  }

  lemma NothingInParts(A: set<Entry>, B: set<Entry>, C: set<Entry>, k: Key, s: nat)
    requires NothingAt(A, k, s) && NothingAt(B, k, s) && NothingAt(C, k, s)
    ensures NothingAt(A + (B + C), k, s)
  {
  }

  lemma MemoryChildren(a: Sys)
    requires Inv(a)
    ensures var children := [a.db.mem] + if a.db.imm.Some? then [a.db.imm.value] else [];
            && ProperChildren(children) && Union(children) == Memory(a.db)
            && Union(children) !! VersionEntries(a.db.levels)
            && Union(children) + VersionEntries(a.db.levels) == Store(a.db)
  {
    hide Inv, VersionEntries, UniqueSeqs, ValidLevels, ProperChildren, Elements, Sorted;
    StateFacts(a);
    NoChildren();
    UniquePart(Store(a.db), Elements(a.db.mem));
    assert [] + [a.db.mem] == [a.db.mem];
    assert Union([]) + Elements(a.db.mem) == Elements(a.db.mem);
    OneMoreChild([], a.db.mem);
    if a.db.imm.Some? {
      UniquePart(Store(a.db), Elements(a.db.mem) + Elements(a.db.imm.value));
      NewerIsDisjoint(Elements(a.db.mem), Elements(a.db.imm.value));
      NewerIsDisjoint(Elements(a.db.imm.value), VersionEntries(a.db.levels));
      OneMoreChild([a.db.mem], a.db.imm.value);
    } else {
      assert [a.db.mem] + [] == [a.db.mem];
    }
    NewerIsDisjoint(Elements(a.db.mem), VersionEntries(a.db.levels));
  }

  lemma UniquePart(E: set<Entry>, F: set<Entry>)
    requires UniqueSeqs(E) && F <= E
    ensures UniqueSeqs(F)
  {
  }

  lemma NewerIsDisjoint(A: set<Entry>, B: set<Entry>)
    requires Newer(A, B)
    ensures A !! B
  {
  }

  // ----- Flushing -----

  function TableOf(number: nat, size: nat, es: seq<Entry>): File
    requires es != []
  {
    File(number, size, es[0].ikey, es[|es| - 1].ikey, es)
  }

  lemma TableIsWellFormed(a: Sys, size: nat)
    requires Inv(a) && a.db.imm.Some? && a.db.imm.value != []
    ensures WellFormed(TableOf(a.db.nextFile, size, a.db.imm.value))
  {
    hide FileInv, SnapshotInv, AnswersInv, PendingInv, ManifestInv, Sorted, UniqueSeqs, VersionEntries;
    var es := a.db.imm.value;
    assert es[|es| - 1] in Elements(es);
  }

  lemma FirstIsLeast(f: File)
    requires WellFormed(f)
    ensures f.smallest.user <= f.largest.user
    ensures f.smallest.user == f.entries[0].User() && f.largest.user == f.entries[|f.entries| - 1].User()
  {
    EntryInRange(f, f.entries[0]);
  }

  lemma RoomIsMade(v: Levels, level: nat, f: File)
    requires level > 0 ==> forall l, g :: 0 <= l <= level && l < |v| && g in v[l] ==>
                             !Overlaps(g, Some(f.smallest.user), Some(f.largest.user))
    ensures RoomAt(v, level, f)
  {
  }

  lemma FlushEditIsValid(level: nat, f: File)
    requires level < NUM_LEVELS
    ensures ValidEdit(AddingEdit({}, level, [f]))
  {
  }

  lemma FlushIsStep(a: Sys, b: Sys, level: nat, f: File)
    requires a.db.imm.Some? && f.entries == a.db.imm.value && f.number == a.db.nextFile
    requires level <= MAX_MEM_COMPACT_LEVEL && WellFormed(f) && |a.db.levels| == NUM_LEVELS
    requires RoomAt(a.db.levels, level, f)
    requires var e := AddingEdit({}, level, [f]);
             b == a.(db := a.db.(imm := None, levels := ApplyEdit(a.db.levels, e), nextFile := a.db.nextFile + 1),
                     manifest := a.manifest + [e])
    ensures Next(a, b, Flush(level, f))
  {
    hide RoomAt, WellFormed, AddingEdit, ApplyEdit;
  }

  // ----- Compactions -----

  lemma MoveEditIsValid(v: Levels, c: Inputs, f: File)
    requires |v| == NUM_LEVELS && Closed(v, c)
    ensures c.level + 1 < NUM_LEVELS && ValidEdit(AddingEdit(InputDeletions(c), c.level + 1, [f]))
  {
    ClosedFacts(v, c);
    ValidInstallEdit(c, [f]);
  }

  lemma MoveIsStep(a: Sys, b: Sys, c: Inputs, f: File)
    requires a.db.pending.None? && |a.db.levels| == NUM_LEVELS && Closed(a.db.levels, c)
    requires |c.upper| == 1 && |c.lower| == 0 && f == c.upper[0]
    requires var e := AddingEdit(InputDeletions(c), c.level + 1, [f]);
             b == a.(db := a.db.(levels := ApplyEdit(a.db.levels, e)), manifest := a.manifest + [e])
    ensures Next(a, b, Move(c, f))
  {
    hide Closed, AddingEdit, ApplyEdit, InputDeletions;
    assert c.upper == [f] && c.lower == [];
  }

  lemma InputsAreUnique(v: Levels, c: Inputs)
    requires |v| == NUM_LEVELS && StillClosed(v, c) && UniqueSeqs(VersionEntries(v))
    ensures UniqueSeqs(InputEntries(c))
  {
    hide UniqueSeqs, VersionEntries, FileEntries, StillClosed;
    InputsAreStored(v, c);
    UniquePart(VersionEntries(v), InputEntries(c));
  }

  /** The kept entries of a pending compaction, split into consecutive non-empty runs. */
  ghost predicate GroupsOf(p: Pending, groups: seq<seq<Entry>>) {
    && Sorted(Flatten(groups))
    && Elements(Flatten(groups)) == Kept(p.base, p.inputs.level, InputEntries(p.inputs), p.smallestSnapshot)
    && forall i :: 0 <= i < |groups| ==> groups[i] != []
  }

  lemma GroupsAreFull(p: Pending, groups: seq<seq<Entry>>)
    requires GroupsOf(p, groups)
    ensures forall i :: 0 <= i < |groups| ==> groups[i] != []
  {
  }

  function FilesOf(groups: seq<seq<Entry>>, sizes: seq<nat>, numbers: seq<nat>): seq<File>
    requires |groups| == |sizes| == |numbers| && forall i :: 0 <= i < |groups| ==> groups[i] != []
  {
    seq(|groups|, i requires 0 <= i < |groups| => TableOf(numbers[i], sizes[i], groups[i]))
  }

  lemma {:induction false} GroupsAreSlices(groups: seq<seq<Entry>>, i: nat) returns (at: nat)
    requires i < |groups|
    ensures at + |groups[i]| <= |Flatten(groups)|
    ensures forall q :: 0 <= q < |groups[i]| ==> Flatten(groups)[at + q] == groups[i][q]
    ensures i == |groups| - 1 ==> at + |groups[i]| == |Flatten(groups)|
    ensures at <= |Flatten(groups)|
  {
    var n := |groups| - 1;
    if i == n {
      at := |Flatten(groups[..n])|;
    } else {
      at := GroupsAreSlices(groups[..n], i);
    }
  }

  /** Of two groups, the earlier one ends before the later one starts. */
  lemma {:induction false} GroupsInOrder(groups: seq<seq<Entry>>, i: nat, j: nat)
    requires Sorted(Flatten(groups)) && i < j < |groups|
    ensures forall x, y :: x in groups[i] && y in groups[j] ==> Less(x.ikey, y.ikey)
  {
    var n := |groups| - 1;
    var front := Flatten(groups[..n]);
    assert Flatten(groups) == front + groups[n];
    if j == n {
      var at := GroupsAreSlices(groups[..n], i);
      forall x, y | x in groups[i] && y in groups[n]
        ensures Less(x.ikey, y.ikey)
      {
        var p :| 0 <= p < |groups[i]| && groups[i][p] == x;
        var q :| 0 <= q < |groups[n]| && groups[n][q] == y;
        assert groups[..n][i] == groups[i];
        assert Flatten(groups)[at + p] == x && Flatten(groups)[|front| + q] == y;
      }
    } else {
      FrontSorted(front, groups[n]);
      GroupsInOrder(groups[..n], i, j);
    }
  }

  lemma FrontSorted(a: seq<Entry>, b: seq<Entry>)
    requires Sorted(a + b)
    ensures Sorted(a)
  {
    forall i, j | 0 <= i < j < |a|
      ensures Less(a[i].ikey, a[j].ikey)
    {
      assert (a + b)[i] == a[i] && (a + b)[j] == a[j];
    }
  }

  lemma GroupIsSorted(groups: seq<seq<Entry>>, i: nat)
    requires Sorted(Flatten(groups)) && i < |groups|
    ensures Sorted(groups[i])
    ensures forall e :: e in groups[i] ==> e in Flatten(groups)
  {
    hide Flatten;
    var at := GroupsAreSlices(groups, i);
    forall p, q | 0 <= p < q < |groups[i]|
      ensures Less(groups[i][p].ikey, groups[i][q].ikey)
    {
      assert Flatten(groups)[at + p] == groups[i][p] && Flatten(groups)[at + q] == groups[i][q];
    }
  }

  lemma {:induction false} FlattenMembers(groups: seq<seq<Entry>>, e: Entry)
    ensures e in Flatten(groups) <==> exists i :: 0 <= i < |groups| && e in groups[i]
  {
    if groups != [] {
      var n := |groups| - 1;
      FlattenMembers(groups[..n], e);
      assert forall i :: 0 <= i < n ==> groups[..n][i] == groups[i];
    }
  }

  lemma GroupsMakeOutputs(a: Sys, groups: seq<seq<Entry>>, sizes: seq<nat>)
    requires Inv(a) && a.db.pending.Some? && GroupsOf(a.db.pending.value, groups)
    requires |groups| == |sizes| == |a.db.pending.value.outputs|
    ensures OutputsOf(a.db.pending.value, FilesOf(groups, sizes, a.db.pending.value.outputs))
  {
    hide Inv, Flatten, Kept, Sorted, InputEntries;
    var p := a.db.pending.value;
    var outs := FilesOf(groups, sizes, p.outputs);
    forall i | 0 <= i < |outs|
      ensures WellFormed(outs[i])
    {
      GroupIsSorted(groups, i);
      KeptIsBounded(a, groups, groups[i][|groups[i]| - 1]);
    }
    forall i, j | 0 <= i < j < |outs|
      ensures Versions.Before(outs[i], outs[j])
    {
      GroupsInOrder(groups, i, j);
    }
    forall e
      ensures e in FileEntries(outs) <==> e in Flatten(groups)
    {
      FlattenMembers(groups, e);
      if e in FileEntries(outs) {
        var f :| f in outs && e in f.entries;
        var i :| 0 <= i < |outs| && outs[i] == f;
      }
      if i :| 0 <= i < |groups| && e in groups[i] {
        assert outs[i] in outs && e in outs[i].entries;
      }
    }
  }

  lemma KeptIsBounded(a: Sys, groups: seq<seq<Entry>>, e: Entry)
    requires Inv(a) && a.db.pending.Some? && GroupsOf(a.db.pending.value, groups) && e in Flatten(groups)
    ensures e.Seq() <= MAX_SEQUENCE
  {
    hide FileInv, SnapshotInv, AnswersInv, ManifestInv, MemoryInv, Sorted, UniqueSeqs, ValidLevels, DeeperKept, Flatten,
         Closed, VersionEntries, FileEntries, Dropped;
    var p := a.db.pending.value;
    assert e in Elements(Flatten(groups));
    assert e in InputEntries(p.inputs);
    assert FileInv(a.db.levels, a.db.nextFile);
    assert |a.db.levels| == NUM_LEVELS;
    InputsAreStored(a.db.levels, p.inputs);
    assert e in Store(a.db);
  }
}
