/** Every step of the store keeps its invariant, so reads at live snapshots survive every run. */
module Safety {
  import opened InternalKeys
  import opened Operations
  import opened Versions
  import opened Builders
  import opened Manifest
  import opened CompactionInputs
  import opened CompactionMeaning
  import opened VersionEdits
  import opened StateMachine

  lemma EmptyIsValid(v: Levels)
    requires |v| == NUM_LEVELS && forall l :: 0 <= l < NUM_LEVELS ==> v[l] == []
    ensures ValidLevels(v) && VersionEntries(v) == {}
  {
  }

  lemma InitSatisfiesInv(a: Sys)
    requires Init(a)
    ensures Inv(a)
  {
    NewStoreTables(a);
    FirstManifest(a.db.levels, a.db.nextFile);
    hide ValidLevels, VersionEntries, Read, ManifestInv;
    EmptyIsSorted();
    assert Store(a.db) == {};
  }

  lemma NewStoreTables(a: Sys)
    requires Init(a)
    ensures FileInv(a.db.levels, a.db.nextFile) && VersionEntries(a.db.levels) == {}
  {
    assert forall l :: 0 <= l < NUM_LEVELS ==> EMPTY_VERSION[l] == [];
    EmptyIsValid(EMPTY_VERSION);
    hide ValidLevels, VersionEntries;
  }

  lemma FirstManifest(levels: Levels, nextFile: nat)
    requires levels == EMPTY_VERSION
    ensures ManifestInv(FIRST_EDITS, levels, nextFile, None)
  {
    hide Running, Additions, AddedOnce, ApplyEdit;
    FirstEditsReplay();
    assert AddedOnce([]) by { NothingAddedTwice(); }
  }

  lemma NothingAddedTwice()
    ensures AddedOnce([])
  {
  }

  lemma FirstEditsReplay()
    ensures Running(EMPTY_VERSION, FIRST_EDITS) == EMPTY_VERSION && Additions(FIRST_EDITS) == []
  {
    hide ApplyEdit;
    var e := Edit({}, []);
    assert FIRST_EDITS[..1] == [e] && [e][..0] == [];
    EmptyEditChangesNothing(EMPTY_VERSION);
    assert Running(EMPTY_VERSION, [e]) == EMPTY_VERSION;
    assert Additions([e]) == [];
  }

  // ----- Writing -----

  lemma InsertAnswers(store: set<Entry>, history: set<Entry>, horizon: nat, e: Entry, last: nat)
    requires HistoryInv(history, store, last) && e.Seq() == last + 1
    requires AnswersInv(store, history, horizon)
    ensures UniqueSeqs(history + {e})
    ensures AnswersInv(store + {e}, history + {e}, horizon)
  {
    hide Read;
    forall k, s: nat | s >= horizon
      ensures SameAnswers(store + {e}, history + {e}, k, s)
    {
      assert SameAnswers(store, history, k, s);
      InsertAnswer(store, e, last, k, s);
      InsertAnswer(history, e, last, k, s);
    }
  }

  lemma InsertMemory(mem: seq<Entry>, imm: Option<seq<Entry>>, tables: set<Entry>, e: Entry, last: nat)
    requires MemoryInv(mem, imm, tables)
    requires forall x :: x in Elements(mem) + tables ==> x.Seq() <= last
    requires imm.Some? ==> forall x :: x in Elements(imm.value) ==> x.Seq() <= last
    requires e.Seq() == last + 1
    ensures MemoryInv(InsertSorted(mem, e), imm, tables)
    ensures Elements(InsertSorted(mem, e)) == Elements(mem) + {e}
  {
    forall x | x in mem
      ensures x.ikey != e.ikey
    {
      assert x in Elements(mem);
    }
    InsertKeepsSorted(mem, e);
    hide Sorted;
  }

  lemma InsertKeepsInv(a: Sys, b: Sys, e: Entry)
    requires Inv(a) && Next(a, b, Insert(e))
    ensures Inv(b)
  {
    hide FileInv, PendingInv, ManifestInv, MemoryInv, AnswersInv, SnapshotInv, UniqueSeqs, VersionEntries, Elements,
         InsertSorted;
    var last := a.db.lastSequence + a.db.inserted;
    InsertMemory(a.db.mem, a.db.imm, VersionEntries(a.db.levels), e, last);
    InsertAnswers(Store(a.db), a.history, a.horizon, e, last);
    assert Store(b.db) == Store(a.db) + {e};
  }

  lemma PublishKeepsInv(a: Sys, b: Sys, count: nat)
    requires Inv(a) && Next(a, b, Publish(count))
    ensures Inv(b)
  {
    hide FileInv, ManifestInv, MemoryInv, AnswersInv, UniqueSeqs, VersionEntries, Elements, DeeperKept, StillClosed,
         ValidLevels, UnusedNumbers;
    assert Store(b.db) == Store(a.db);
  }

  lemma MoreNumbers(a: Sys)
    requires Inv(a)
    ensures FileInv(a.db.levels, a.db.nextFile + 1)
    ensures ManifestInv(a.manifest, a.db.levels, a.db.nextFile + 1, a.db.pending)
    ensures a.db.pending.Some? ==>
              PendingInv(a.db.pending.value, a.db.levels, a.db.snapshots, a.db.lastSequence, a.db.nextFile + 1, a.horizon)
  {
    hide ValidLevels, StillClosed, DeeperKept, Running, AddedOnce, Additions, MemoryInv, HistoryInv, AnswersInv, SnapshotInv;
  }

  lemma RotateKeepsInv(a: Sys, b: Sys)
    requires Inv(a) && Next(a, b, Rotate)
    ensures Inv(b)
  {
    hide FileInv, PendingInv, ManifestInv, AnswersInv, HistoryInv, SnapshotInv, VersionEntries, Sorted;
    MoreNumbers(a);
    assert Elements([]) == {};
    assert Store(b.db) == Store(a.db);
    EmptyIsSorted();
  }

  lemma EmptyIsSorted()
    ensures Sorted([])
  {
  }

  // ----- Snapshots -----

  lemma TakeSnapshotKeepsInv(a: Sys, b: Sys)
    requires Inv(a) && Next(a, b, TakeSnapshot)
    ensures Inv(b)
  {
    hide FileInv, ManifestInv, MemoryInv, HistoryInv, AnswersInv, VersionEntries, DeeperKept, StillClosed, ValidLevels,
         UnusedNumbers;
    assert Store(b.db) == Store(a.db);
  }

  lemma ReleaseSnapshotKeepsInv(a: Sys, b: Sys, i: nat)
    requires Inv(a) && Next(a, b, ReleaseSnapshot(i))
    ensures Inv(b)
  {
    hide FileInv, ManifestInv, MemoryInv, HistoryInv, AnswersInv, VersionEntries, DeeperKept, StillClosed, ValidLevels,
         UnusedNumbers;
    assert Store(b.db) == Store(a.db);
    assert forall j :: 0 <= j < |b.db.snapshots| ==>
        b.db.snapshots[j] == if j < i then a.db.snapshots[j] else a.db.snapshots[j + 1];
  }

  // ----- The manifest -----

  /** Every file of the new version is one of `files`, at the target level, or was there before. */
  ghost predicate AddsOnly(levels: Levels, target: nat, files: seq<File>, levels': Levels) {
    && |levels| == |levels'| && target < |levels'|
    && (forall f :: f in files ==> f in levels'[target])
    && (forall l, f {:trigger f in levels'[l]} ::
          0 <= l < |levels'| && f in levels'[l] ==> (l == target && f in files) || f in levels[l])
  }

  lemma ManifestGrows(manifest: seq<Edit>, levels: Levels, nextFile: nat, pending: Option<Pending>,
                      deleted: set<(nat, nat)>, target: nat, files: seq<File>, levels': Levels,
                      nextFile': nat, pending': Option<Pending>)
    requires ManifestInv(manifest, levels, nextFile, pending) && nextFile <= nextFile'
    requires |levels| == |levels'| == NUM_LEVELS
    requires ValidEdit(AddingEdit(deleted, target, files)) && DistinctNumbers(files)
    requires forall f :: f in files ==> f.number < nextFile'
    // A number already in the log was added higher up, and no file but the new one still has it.
    requires forall f, a :: f in files && a in Additions(manifest) && a.1.number == f.number ==> a.0 < target
    requires levels' == ApplyEdit(levels, AddingEdit(deleted, target, files)) && UniqueNumbers(levels')
    requires target < NUM_LEVELS
    requires AddsOnly(levels, target, files, levels')
    requires pending'.Some? ==> pending.Some? && pending'.value.outputs == pending.value.outputs
    requires pending'.Some? ==> forall f :: f in files ==> f.number !in pending.value.outputs
    ensures ManifestInv(manifest + [AddingEdit(deleted, target, files)], levels', nextFile', pending')
  {
    hide ApplyEdit, AddingEdit, UniqueNumbers, DistinctNumbers, AddedOnce, AddsOnly, Running, Additions, ValidEdit;
    var e := AddingEdit(deleted, target, files);
    var manifest' := manifest + [e];
    OneMoreEdit(manifest, e);
    var news, olds := Additions(manifest'), Additions(manifest);
    AddingEditShape(deleted, target, files);
    StillAddedOnce(olds, e.added, target, files);
    OldOrNew(olds, e.added, target, files);
    forall a, m, g | a in news && 0 <= m < NUM_LEVELS && g in levels'[m] && g.number == a.1.number
      ensures a.0 <= m
    {
      MovesDown(levels, target, files, levels', olds, a, m, g);
    }
  }

  lemma OneMoreEdit(manifest: seq<Edit>, e: Edit)
    ensures Additions(manifest + [e]) == Additions(manifest) + e.added
    ensures Running(EMPTY_VERSION, manifest + [e]) == ApplyEdit(Running(EMPTY_VERSION, manifest), e)
  {
    assert (manifest + [e])[..|manifest|] == manifest;
  }

  lemma AddingEditShape(deleted: set<(nat, nat)>, target: nat, files: seq<File>)
    ensures var added := AddingEdit(deleted, target, files).added;
            |added| == |files| && forall q :: 0 <= q < |files| ==> added[q] == (target, files[q])
  {
  }

  lemma OldOrNew(olds: seq<(nat, File)>, added: seq<(nat, File)>, target: nat, files: seq<File>)
    requires |added| == |files| && forall q :: 0 <= q < |files| ==> added[q] == (target, files[q])
    ensures forall a :: a in olds + added ==> a in olds || (a.0 == target && a.1 in files)
  {
  }

  lemma StillAddedOnce(olds: seq<(nat, File)>, added: seq<(nat, File)>, target: nat, files: seq<File>)
    requires AddedOnce(olds) && DistinctNumbers(files) && |added| == |files|
    requires forall q :: 0 <= q < |files| ==> added[q] == (target, files[q])
    requires forall f, a :: f in files && a in olds && a.1.number == f.number ==> a.0 < target
    ensures AddedOnce(olds + added)
  {
    var news := olds + added;
    forall i, j | 0 <= i < j < |news| && news[i].0 == news[j].0
      ensures news[i].1.number != news[j].1.number
    {
      AddedOnceGrows(olds, added, target, files, i, j);
    }
  }

  lemma AddedOnceGrows(olds: seq<(nat, File)>, added: seq<(nat, File)>, target: nat, files: seq<File>, i: nat, j: nat)
    requires AddedOnce(olds) && DistinctNumbers(files) && |added| == |files|
    requires forall q :: 0 <= q < |files| ==> added[q] == (target, files[q])
    requires forall f, a :: f in files && a in olds && a.1.number == f.number ==> a.0 < target
    requires i < j < |olds + added| && (olds + added)[i].0 == (olds + added)[j].0
    ensures (olds + added)[i].1.number != (olds + added)[j].1.number
  {
    var news := olds + added;
    if j >= |olds| {
      assert news[j] == (target, files[j - |olds|]) && files[j - |olds|] in files;
      if i < |olds| {
        assert news[i] in olds;
      } else {
        assert news[i] == (target, files[i - |olds|]);
      }
    }
  }

  lemma MovesDown(levels: Levels, target: nat, files: seq<File>, levels': Levels,
                  olds: seq<(nat, File)>, a: (nat, File), m: nat, g: File)
    requires |levels| == |levels'| == NUM_LEVELS && UniqueNumbers(levels') && target < NUM_LEVELS
    requires AddsOnly(levels, target, files, levels')
    requires forall a, m, g :: a in olds && 0 <= m < |levels| && g in levels[m] && g.number == a.1.number ==> a.0 <= m
    requires forall f, a :: f in files && a in olds && a.1.number == f.number ==> a.0 < target
    requires a in olds || (a.0 == target && a.1 in files)
    requires m < NUM_LEVELS && g in levels'[m] && g.number == a.1.number
    ensures a.0 <= m
  {
    assert (m == target && g in files) || g in levels[m];
    assert a in olds || a.1 in levels'[target];
  }

  // ----- Flushing the immutable memtable -----

  lemma FlushedFile(a: Sys, level: nat, f: File)
    requires Inv(a) && a.db.imm.Some? && f.entries == a.db.imm.value && f.number == a.db.nextFile
    ensures NewestFile(a.db.levels, f)
    ensures FileEntries([f]) == ImmEntries(a.db)
  {
    hide ValidLevels, PendingInv, ManifestInv, AnswersInv, HistoryInv, SnapshotInv, Sorted;
    var v := a.db.levels;
    forall l: nat, g: File | l < |v| && g in v[l]
      ensures f.number > g.number && FileNewer(f, g)
    {
      forall e, x | e in f.entries && x in g.entries && e.User() == x.User()
        ensures e.Seq() > x.Seq()
      {
        assert e in Elements(a.db.imm.value) && x in VersionEntries(v);
      }
    }
    assert forall e :: e in FileEntries([f]) <==> e in f.entries;
  }

  /** The version after a flush: valid, holding the old files and the new one. */
  lemma FlushedVersion(v: Levels, level: nat, f: File)
    requires ValidLevels(v) && WellFormed(f) && NewestFile(v, f) && RoomAt(v, level, f) && level < NUM_LEVELS
    ensures var v' := ApplyEdit(v, AddingEdit({}, level, [f]));
            && ValidLevels(v')
            && VersionEntries(v') == FileEntries([f]) + VersionEntries(v)
            && forall l, g :: 0 <= l < NUM_LEVELS ==>
                 (g in v'[l] <==> (l == level && g == f) || g in v[l])
  {
    hide ValidLevels, WellFormed, RoomAt, FileNewer, NewestFile, InBuilderOrder, ApplyEdit, AddingEdit, VersionEntries,
         FileEntries, SurvivingEntries;
    LevelFacts(v);
    BuilderOrder(v);
    AppliedSize(v, AddingEdit({}, level, [f]));
    FlushKeepsValid(v, level, f);
    NewestHasNewNumber(v, level, f);
    AppliedMembers(v, {}, level, [f]);
    AppliedEntries(v, {}, level, [f]);
    NothingDeleted(v);
    var v' := ApplyEdit(v, AddingEdit({}, level, [f]));
    forall l, g | 0 <= l < NUM_LEVELS
      ensures g in v'[l] <==> (l == level && g == f) || g in v[l]
    {
      assert g in [f] <==> g == f;
      assert Survives(v, {}, l, g) <==> g in v[l];
    }
  }

  lemma NewestHasNewNumber(v: Levels, level: nat, f: File)
    requires NewestFile(v, f) && level < |v|
    ensures DistinctNumbers([f])
    ensures forall a, g :: a in [f] && g in v[level] ==> a.number != g.number
  {
    hide FileNewer;
    NewestHasHighestNumber(v, level, f);
    assert forall a :: a in [f] ==> a == f;
    assert |[f]| == 1;
  }

  lemma BuilderOrder(v: Levels)
    requires ValidLevels(v)
    ensures forall l :: 0 <= l < NUM_LEVELS ==> InBuilderOrder(v[l])
  {
  }

  lemma NothingDeleted(v: Levels)
    ensures SurvivingEntries(v, {}) == VersionEntries(v)
  {
    forall e | e in VersionEntries(v)
      ensures e in SurvivingEntries(v, {})
    {
      var l: nat, f: File :| l < |v| && f in v[l] && e in f.entries;
      assert Survives(v, {}, l, f);
    }
  }

  lemma FlushPending(p: Pending, v: Levels, level: nat, f: File, v': Levels, snapshots: seq<nat>,
                     lastSequence: nat, nextFile: nat, horizon: nat)
    requires PendingInv(p, v, snapshots, lastSequence, nextFile, horizon)
    requires |v| == |v'| == NUM_LEVELS && level < NUM_LEVELS && f.number == nextFile && NewestFile(v, f)
    requires RoomAt(v, level, f)
    requires forall l, g :: 0 <= l < NUM_LEVELS ==> (g in v'[l] <==> (l == level && g == f) || g in v[l])
    ensures PendingInv(p, v', snapshots, lastSequence, nextFile + 1, horizon)
  {
    hide ValidLevels, SmallestKey, LargestKey, FileNewer, StillClosed, MeetsNone, NewestFile, RoomAt;
    ClosedFacts(v, p.inputs);
    if level > p.inputs.level {
      RoomMeetsNone(v, p.inputs, level, f);
    }
    FlushStaysClosed(v, p.inputs, level, f, v');
    assert forall g :: g in v[level] ==> g.number < nextFile by { NewestHasHighestNumber(v, level, f); }
    assert UnusedNumbers(p.outputs, v', nextFile + 1);
  }

  /** What the level choice lets below the upper input level meets none of the inputs. */
  lemma RoomMeetsNone(v: Levels, c: Inputs, level: nat, f: File)
    requires |v| == NUM_LEVELS && StillClosed(v, c) && RoomAt(v, level, f) && c.level < level < NUM_LEVELS
    ensures MeetsNone(c, f)
  {
    hide Overlaps, SmallestKey, LargestKey, FileNewer;
    forall g | g in c.upper + c.lower
      ensures !Overlaps(g, Some(f.smallest.user), Some(f.largest.user))
    {
      assert g in v[c.level] || g in v[c.level + 1];
    }
  }

  lemma NewestHasHighestNumber(v: Levels, level: nat, f: File)
    requires NewestFile(v, f) && level < |v|
    ensures forall g :: g in v[level] ==> g.number < f.number
  {
    hide FileNewer;
  }

  lemma FlushStaysClosed(v: Levels, c: Inputs, level: nat, f: File, v': Levels)
    requires |v| == |v'| == NUM_LEVELS && StillClosed(v, c) && NewestFile(v, f)
    requires level > c.level ==> MeetsNone(c, f)
    requires forall l, g :: 0 <= l < NUM_LEVELS ==> (g in v'[l] <==> (l == level && g == f) || g in v[l])
    ensures StillClosed(v', c)
  {
    hide SmallestKey, LargestKey, MeetsNone, Overlaps;
    FlushUpperClosed(v, c, level, f, v');
    hide UpperClosed;
  }

  lemma FlushUpperClosed(v: Levels, c: Inputs, level: nat, f: File, v': Levels)
    requires |v| == |v'| == NUM_LEVELS && NewestFile(v, f) && c.level < NUM_LEVELS && UpperClosed(v[c.level], c.upper)
    requires forall l, g :: 0 <= l < NUM_LEVELS ==> (g in v'[l] <==> (l == level && g == f) || g in v[l])
    ensures UpperClosed(v'[c.level], c.upper)
  {
    hide FileNewer;
    forall h, g | h in c.upper && g in v'[c.level] && g !in c.upper
      ensures FileNewer(g, h)
    {
      assert h in v[c.level];
    }
  }

  lemma FlushKeepsInv(a: Sys, b: Sys, level: nat, f: File)
    requires Inv(a) && Next(a, b, Flush(level, f))
    ensures Inv(b)
  {
    var v, v' := a.db.levels, b.db.levels;
    hide WellFormed, RoomAt, AnswersInv, UniqueSeqs, PendingInv, ManifestInv, ValidLevels, NewestFile,
         SnapshotInv, Survives, ApplyEdit, AddingEdit, VersionEntries, FileEntries, Elements, Sorted;
    FlushedFile(a, level, f);
    assert ValidLevels(v);
    FlushedVersion(v, level, f);
    assert Store(b.db) == Store(a.db);
    FlushFileInv(v, level, f, v', a.db.nextFile);
    if a.db.pending.Some? {
      FlushPending(a.db.pending.value, v, level, f, v', a.db.snapshots, a.db.lastSequence, a.db.nextFile, a.horizon);
    }
    FlushManifest(a, level, f, v');
  }

  lemma FlushFileInv(v: Levels, level: nat, f: File, v': Levels, nextFile: nat)
    requires FileInv(v, nextFile) && ValidLevels(v') && |v| == NUM_LEVELS && f.number == nextFile
    requires forall l, g :: 0 <= l < NUM_LEVELS ==> (g in v'[l] <==> (l == level && g == f) || g in v[l])
    ensures FileInv(v', nextFile + 1)
  {
    hide ValidLevels;
    LevelFacts(v');
    forall l, g | 0 <= l < |v'| && g in v'[l]
      ensures g.number < nextFile + 1
    {
      assert (l == level && g == f) || g in v[l];
    }
  }

  lemma FlushManifest(a: Sys, level: nat, f: File, v': Levels)
    requires Inv(a) && level < NUM_LEVELS && f.number == a.db.nextFile
    requires v' == ApplyEdit(a.db.levels, AddingEdit({}, level, [f])) && ValidLevels(v')
    requires forall l, g :: 0 <= l < NUM_LEVELS ==>
               (g in v'[l] <==> (l == level && g == f) || g in a.db.levels[l])
    ensures ManifestInv(a.manifest + [AddingEdit({}, level, [f])], v', a.db.nextFile + 1, a.db.pending)
  {
    hide MemoryInv, HistoryInv, SnapshotInv, AnswersInv, ApplyEdit, Running, AddsOnly, ManifestInv, FileInv, PendingInv,
         ValidLevels, DistinctNumbers, AddingEdit, ValidEdit;
    FlushedNumberIsNew(a, f);
    ValidFlushEdit(level, f, a.db.levels, v');
    ManifestGrows(a.manifest, a.db.levels, a.db.nextFile, a.db.pending, {}, level, [f], v', a.db.nextFile + 1,
                  a.db.pending);
  }

  lemma FlushedNumberIsNew(a: Sys, f: File)
    requires Inv(a) && f.number == a.db.nextFile
    ensures |a.db.levels| == NUM_LEVELS
    ensures forall o :: o in [f] ==> o.number < a.db.nextFile + 1
    ensures forall o, x :: o in [f] && x in Additions(a.manifest) ==> x.1.number != o.number
    ensures a.db.pending.Some? ==> forall o :: o in [f] ==> o.number !in a.db.pending.value.outputs
  {
    hide MemoryInv, HistoryInv, SnapshotInv, AnswersInv, StillClosed, DeeperKept, Running, AddedOnce;
    assert forall o :: o in [f] ==> o == f;
  }

  lemma ValidFlushEdit(level: nat, f: File, levels: Levels, levels': Levels)
    requires |levels| == NUM_LEVELS && level < NUM_LEVELS && ValidLevels(levels')
    requires forall l, g :: 0 <= l < NUM_LEVELS ==> (g in levels'[l] <==> (l == level && g == f) || g in levels[l])
    ensures ValidEdit(AddingEdit({}, level, [f])) && DistinctNumbers([f]) && UniqueNumbers(levels')
    ensures AddsOnly(levels, level, [f], levels')
  {
    hide InBuilderOrder, AllWellFormed, LevelSorted, NewerAbove;
    assert forall o :: o in [f] <==> o == f;
    assert |[f]| == 1;
  }

  lemma EmptyEditChangesNothing(v: Levels)
    requires |v| == NUM_LEVELS
    ensures ApplyEdit(v, Edit({}, [])) == v
  {
    forall l | 0 <= l < NUM_LEVELS
      ensures LevelAfter(v[l], Edit({}, []), l) == v[l]
    {
      assert AddedAfter([], [], l) == [];
      assert DeletedAfter({}, Edit({}, []), l) == {};
      NothingDropped(v[l]);
    }
  }

  lemma {:induction false} NothingDropped(files: seq<File>)
    ensures Live(files, {}) == files
  {
    if files != [] {
      NothingDropped(files[1..]);
    }
  }

  lemma FlushEmptyKeepsInv(a: Sys, b: Sys)
    requires Inv(a) && Next(a, b, FlushEmpty)
    ensures Inv(b)
  {
    hide PendingInv, AnswersInv, HistoryInv, SnapshotInv, VersionEntries, Sorted, FileInv, ManifestInv, ApplyEdit;
    EmptyEditChangesNothing(a.db.levels);
    MoreNumbers(a);
    assert Elements([]) == {};
    assert Store(b.db) == Store(a.db);
    EmptyEditManifest(a.manifest, a.db.levels, a.db.nextFile + 1, a.db.pending);
  }

  lemma EmptyEditManifest(manifest: seq<Edit>, levels: Levels, nextFile: nat, pending: Option<Pending>)
    requires ManifestInv(manifest, levels, nextFile, pending) && |levels| == NUM_LEVELS
    ensures ManifestInv(manifest + [Edit({}, [])], levels, nextFile, pending)
  {
    hide Running, Additions, AddedOnce, ApplyEdit;
    var e := Edit({}, []);
    OneMoreEdit(manifest, e);
    EmptyEditChangesNothing(levels);
    assert Additions(manifest) + [] == Additions(manifest);
  }

  /** With gapless inputs there is no gap to flush into: a file that meets none of them lies outside their
      whole range, so the inputs stay closed, whatever is flushed. */
  lemma GaplessStaysClosed(v: Levels, c: Inputs)
    requires ValidLevels(v) && StillClosed(v, c) && Gapless(c)
    ensures Closed(v, c)
  {
    hide SmallestKey, LargestKey, FileNewer, WellFormed, ValidLevels, UpperClosed, Gapless, MeetsNone, Overlaps;
    LevelFacts(v);
    InputsAreWellFormed(v, c);
    forall g | g in v[c.level + 1] && g !in c.lower
      ensures !Overlaps(g, UserLo(c.upper), UserHi(c.upper))
    {
      if MeetsNone(c, g) {
        WellFormedMember(v[c.level + 1], g);
        GaplessIsOutside(c, g);
      }
    }
  }

  lemma GaplessIsOutside(c: Inputs, g: File)
    requires c.upper != [] && Gapless(c) && AllInputsWellFormed(c) && WellFormed(g) && MeetsNone(c, g)
    ensures !Overlaps(g, UserLo(c.upper), UserHi(c.upper))
  {
    hide SmallestKey, LargestKey, Overlaps, WellFormed, Covered;
    var all := c.upper + c.lower;
    GapIsOutside(all, g);
    RangeOnlyGrows(c.upper, all);
    OutsideMoreIsOutsideLess(g, UserLo(c.upper), UserHi(c.upper), UserLo(all), UserHi(all));
  }

  lemma OutsideMoreIsOutsideLess(g: File, lo: Option<Key>, hi: Option<Key>, lo': Option<Key>, hi': Option<Key>)
    requires lo.Some? && hi.Some? && lo'.Some? && hi'.Some? && lo'.value <= lo.value && hi.value <= hi'.value
    requires !Overlaps(g, lo', hi')
    ensures !Overlaps(g, lo, hi)
  {
  }

  lemma GapIsOutside(all: seq<File>, f: File)
    requires all != [] && Covered(all, SmallestKey(all).user, LargestKey(all).user)
    requires WellFormed(f) && AllWellFormed(all)
    requires forall g :: g in all ==> !Overlaps(g, Some(f.smallest.user), Some(f.largest.user))
    ensures !Overlaps(f, UserLo(all), UserHi(all))
  {
    hide Covered, SmallestKey, LargestKey, AllWellFormed;
    if Overlaps(f, UserLo(all), UserHi(all)) {
      var g := CoveredMeets(all, f);
    }
  }

  lemma CoveredMeets(all: seq<File>, f: File) returns (g: File)
    requires all != [] && Covered(all, SmallestKey(all).user, LargestKey(all).user)
    requires WellFormed(f) && AllWellFormed(all) && Overlaps(f, UserLo(all), UserHi(all))
    ensures g in all && Overlaps(g, Some(f.smallest.user), Some(f.largest.user))
  {
    hide SmallestKey, LargestKey;
    EntryInRange(f, f.entries[0]);
    RangeBounds(all);
    EntryInRange(all[0], all[0].entries[0]);
    var lo := SmallestKey(all).user;
    var p := if f.smallest.user < lo then lo else f.smallest.user;
    assert CoversKey(all, p);
    g :| g in all && InUserRange(g, p);
  }

  // ----- Starting, filling and giving up a compaction -----

  lemma BeginKeepsInv(a: Sys, b: Sys, c: Inputs)
    requires Inv(a) && Next(a, b, Begin(c))
    ensures Inv(b)
  {
    hide MemoryInv, HistoryInv, AnswersInv, ValidLevels, StillClosed, Closed, VersionEntries, Running, Additions;
    ClosedIsStillClosed(a.db.levels, c);
    assert Store(b.db) == Store(a.db);
  }

  lemma AllocateKeepsInv(a: Sys, b: Sys)
    requires Inv(a) && Next(a, b, Allocate)
    ensures Inv(b)
  {
    hide MemoryInv, HistoryInv, AnswersInv, SnapshotInv, FileInv, VersionEntries, PendingInv, ManifestInv;
    assert Store(b.db) == Store(a.db);
    MoreNumbers(a);
    AllocatePending(a);
    AllocateManifest(a);
  }

  lemma AllocatePending(a: Sys)
    requires Inv(a) && a.db.pending.Some?
    ensures var p := a.db.pending.value;
            PendingInv(p.(outputs := p.outputs + [a.db.nextFile]), a.db.levels, a.db.snapshots, a.db.lastSequence,
                       a.db.nextFile + 1, a.horizon)
  {
    hide MemoryInv, HistoryInv, AnswersInv, SnapshotInv, VersionEntries, ManifestInv, ValidLevels, StillClosed, DeeperKept;
  }

  lemma AllocateManifest(a: Sys)
    requires Inv(a) && a.db.pending.Some?
    ensures var p := a.db.pending.value;
            ManifestInv(a.manifest, a.db.levels, a.db.nextFile + 1,
                        Some(p.(outputs := p.outputs + [a.db.nextFile])))
  {
    hide MemoryInv, HistoryInv, AnswersInv, SnapshotInv, VersionEntries, PendingInv, FileInv, Running, AddedOnce,
         ValidEdit;
  }

  lemma AbandonKeepsInv(a: Sys, b: Sys)
    requires Inv(a) && Next(a, b, Abandon)
    ensures Inv(b)
  {
    hide MemoryInv, HistoryInv, AnswersInv, SnapshotInv, FileInv, VersionEntries, PendingInv, Running, AddedOnce,
         ValidEdit;
    assert Store(b.db) == Store(a.db);
  }

  // ----- Installing new files in place of compaction inputs -----

  /** The version after an installation: it holds the new files and the left-out ones, and is valid exactly
      when the new files fit. */
  lemma InstalledVersion(v: Levels, c: Inputs, outs: seq<File>)
    requires ValidLevels(v) && StillClosed(v, c) && UniqueSeqs(VersionEntries(v)) && OutputsFrom(v, c, outs)
    ensures var v' := ApplyEdit(v, AddingEdit(InputDeletions(c), c.level + 1, outs));
            && (ValidLevels(v') <==> OutputsFit(v, c, outs))
            && VersionEntries(v') == FileEntries(outs) + OtherFiles(v, c)
            && AddsOnly(v, c.level + 1, outs, v')
  {
    hide ValidLevels, StillClosed, AllWellFormed, PairwiseBefore, DistinctNumbers, UniqueSeqs, InBuilderOrder, ApplyEdit,
         AddingEdit, VersionEntries, FileEntries, SurvivingEntries, OtherFiles, InputDeletions, OutputsFit;
    LevelFacts(v);
    ClosedFacts(v, c);
    BuilderOrder(v);
    InstallKeepsValidIff(v, c, outs);
    AppliedMembers(v, InputDeletions(c), c.level + 1, outs);
    AppliedEntries(v, InputDeletions(c), c.level + 1, outs);
    AppliedSize(v, AddingEdit(InputDeletions(c), c.level + 1, outs));
    SurvivingIsOther(v, c);
    MembersAddOnly(v, InputDeletions(c), c.level + 1, outs,
                   ApplyEdit(v, AddingEdit(InputDeletions(c), c.level + 1, outs)));
  }

  lemma MembersAddOnly(v: Levels, deleted: set<(nat, nat)>, target: nat, files: seq<File>, v': Levels)
    requires |v| == |v'| == NUM_LEVELS && target < NUM_LEVELS
    requires forall l, f {:trigger f in v'[l]} :: 0 <= l < NUM_LEVELS ==>
               (f in v'[l] <==> (l == target && f in files) || Survives(v, deleted, l, f))
    ensures AddsOnly(v, target, files, v')
  {
  }

  lemma InstallFileInv(v: Levels, target: nat, outs: seq<File>, v': Levels, nextFile: nat)
    requires FileInv(v, nextFile) && ValidLevels(v') && AddsOnly(v, target, outs, v')
    requires forall o :: o in outs ==> o.number < nextFile
    ensures FileInv(v', nextFile)
  {
    hide ValidLevels;
  }

  lemma InstallManifest(a: Sys, c: Inputs, outs: seq<File>, v': Levels)
    requires Inv(a) && c.level + 1 < NUM_LEVELS && DistinctNumbers(outs)
    requires v' == ApplyEdit(a.db.levels, AddingEdit(InputDeletions(c), c.level + 1, outs)) && ValidLevels(v')
    requires AddsOnly(a.db.levels, c.level + 1, outs, v')
    requires forall o :: o in outs ==> o.number < a.db.nextFile
    requires forall o, x :: o in outs && x in Additions(a.manifest) && x.1.number == o.number ==> x.0 < c.level + 1
    ensures ManifestInv(a.manifest + [AddingEdit(InputDeletions(c), c.level + 1, outs)], v', a.db.nextFile, None)
  {
    hide MemoryInv, HistoryInv, SnapshotInv, AnswersInv, PendingInv, StillClosed, DeeperKept, Survives, ApplyEdit, Running,
         AddsOnly, ManifestInv, DistinctNumbers;
    var e := AddingEdit(InputDeletions(c), c.level + 1, outs);
    AddingEditAdds(InputDeletions(c), c.level + 1, outs);
    ValidInstallEdit(c, outs);
    assert UniqueNumbers(v');
    assert |a.db.levels| == NUM_LEVELS && |v'| == NUM_LEVELS;
    ManifestGrows(a.manifest, a.db.levels, a.db.nextFile, a.db.pending, InputDeletions(c), c.level + 1, outs, v',
                  a.db.nextFile, None);
  }

  lemma ValidInstallEdit(c: Inputs, outs: seq<File>)
    requires c.level + 1 < NUM_LEVELS
    ensures ValidEdit(AddingEdit(InputDeletions(c), c.level + 1, outs))
  {
  }

  /** What changes in memory order and history when the tables lose some entries. */
  lemma FewerTables(a: Sys, tables: set<Entry>)
    requires Inv(a) && tables <= VersionEntries(a.db.levels)
    ensures MemoryInv(a.db.mem, a.db.imm, tables)
    ensures HistoryInv(a.history, Memory(a.db) + tables, a.db.lastSequence + a.db.inserted)
  {
    hide SnapshotInv, AnswersInv, PendingInv, ManifestInv, FileInv, Sorted, VersionEntries, Elements;
  }

  lemma MemoryIsNewer(a: Sys)
    requires Inv(a)
    ensures MemoryNewer(Memory(a.db), a.db.levels)
    ensures UniqueSeqs(Store(a.db)) && UniqueSeqs(VersionEntries(a.db.levels))
  {
    hide SnapshotInv, AnswersInv, PendingInv, ManifestInv, FileInv, Sorted, VersionEntries, Elements;
  }

  // ----- Trivial moves -----

  lemma MovedFileFits(a: Sys, c: Inputs, f: File)
    requires Inv(a) && Closed(a.db.levels, c) && c.upper == [f] && c.lower == []
    ensures OutputsFrom(a.db.levels, c, [f])
    ensures f in a.db.levels[c.level]
  {
    hide MemoryInv, HistoryInv, SnapshotInv, AnswersInv, PendingInv, ManifestInv, InBuilderOrder, LevelSorted,
         NewerAbove, SmallestKey, LargestKey, FileNewer, Survives, InputDeletions;
    var v := a.db.levels;
    assert f in c.upper;
    assert FileEntries(c.upper) <= InputEntries(c);
    assert forall o :: o in [f] ==> o == f;
    forall l, g | Survives(v, InputDeletions(c), l, g)
      ensures f.number != g.number
    {
      SurvivesIsLeftOut(v, c, l, g);
      assert g == f ==> l == c.level && f in c.upper;
    }
    assert |[f]| == 1;
  }

  lemma MoveKeepsInv(a: Sys, b: Sys, c: Inputs, f: File)
    requires Inv(a) && Next(a, b, Move(c, f))
    ensures Inv(b)
  {
    hide AnswersInv, SnapshotInv, PendingInv, ManifestInv, ValidLevels, Closed, StillClosed, OutputsFrom, UniqueSeqs,
         ApplyEdit, AddingEdit, VersionEntries, FileEntries, OtherFiles, InputDeletions, MemoryInv, HistoryInv, AddsOnly,
         Elements, OutputsFit;
    var v, v' := a.db.levels, b.db.levels;
    MemoryIsNewer(a);
    MovedFileFits(a, c, f);
    assert ValidLevels(v);
    LevelFacts(v);
    ClosedIsStillClosed(v, c);
    ClosedFacts(v, c);
    ClosedOutputsFit(v, c, [f]);
    InstalledVersion(v, c, [f]);
    InputsAndRest(v, c, Memory(a.db));
    MovedEntries(c, f);
    assert Store(b.db) == Store(a.db);
    assert VersionEntries(v') <= VersionEntries(v) by { MovedStaysInVersion(v, c, f); }
    FewerTables(a, VersionEntries(v'));
    MovedNumber(a, c, f);
    InstallFileInv(v, c.level + 1, [f], v', a.db.nextFile);
    OutputsAreDistinct(v, c, [f]);
    InstallManifest(a, c, [f], v');
  }

  lemma MovedEntries(c: Inputs, f: File)
    requires c.upper == [f] && c.lower == []
    ensures InputEntries(c) == FileEntries([f])
  {
    assert FileEntries([]) == {};
  }

  lemma MovedStaysInVersion(v: Levels, c: Inputs, f: File)
    requires c.upper == [f] && c.level < |v| && f in v[c.level]
    ensures FileEntries([f]) + OtherFiles(v, c) <= VersionEntries(v)
  {
    assert forall o :: o in [f] ==> o == f;
  }

  lemma MovedNumber(a: Sys, c: Inputs, f: File)
    requires Inv(a) && c.level + 1 < NUM_LEVELS && f in a.db.levels[c.level]
    ensures forall o :: o in [f] ==> o.number < a.db.nextFile
    ensures forall o, x :: o in [f] && x in Additions(a.manifest) && x.1.number == o.number ==> x.0 < c.level + 1
  {
    hide MemoryInv, HistoryInv, SnapshotInv, AnswersInv, PendingInv, ValidLevels, Running, AddedOnce;
    assert forall o :: o in [f] ==> o == f;
  }

  lemma OutputsAreDistinct(v: Levels, c: Inputs, outs: seq<File>)
    requires |v| == NUM_LEVELS && c.level + 1 < NUM_LEVELS && OutputsFrom(v, c, outs)
    ensures DistinctNumbers(outs)
  {
    hide DistinctNumbers;
  }

  // ----- Installing compaction results -----

  /** Flushes since the choice of inputs do not change which of their keys are covered deeper. */
  lemma KeptIsTheSame(base: Levels, v: Levels, c: Inputs, smallestSnapshot: nat)
    requires DeeperKept(base, v, c) && AllInputsWellFormed(c)
    requires c.upper != []
    ensures Kept(base, c.level, InputEntries(c), smallestSnapshot) == Kept(v, c.level, InputEntries(c), smallestSnapshot)
  {
    hide Hidden, SmallestKey, LargestKey, WellFormed;
    forall e | e in InputEntries(c)
      ensures DeeperCovers(base, c.level, e.User()) <==> DeeperCovers(v, c.level, e.User())
    {
      if DeeperCovers(base, c.level, e.User()) {
        var l, f :| c.level + 2 <= l < |base| && f in base[l] && InUserRange(f, e.User());
        assert f in v[l];
      }
      if DeeperCovers(v, c.level, e.User()) {
        var l, f :| c.level + 2 <= l < |v| && f in v[l] && InUserRange(f, e.User());
        var g :| g in c.upper + c.lower && e in g.entries;
        EntryInRange(g, e);
        assert Overlaps(g, Some(f.smallest.user), Some(f.largest.user));
        assert f in base[l];
      }
    }
  }

  ghost predicate AllInputsWellFormed(c: Inputs) {
    AllWellFormed(c.upper) && AllWellFormed(c.lower)
  }

  lemma OutputsAreFiles(a: Sys, outs: seq<File>)
    requires Inv(a) && a.db.pending.Some? && OutputsOf(a.db.pending.value, outs)
    ensures StillClosed(a.db.levels, a.db.pending.value.inputs)
    ensures OutputsFrom(a.db.levels, a.db.pending.value.inputs, outs)
    ensures forall o :: o in outs ==> o.number < a.db.nextFile && o.number in a.db.pending.value.outputs
  {
    hide MemoryInv, HistoryInv, SnapshotInv, AnswersInv, ManifestInv, ValidLevels, StillClosed, DeeperKept, Dropped,
         AllWellFormed, PairwiseBefore;
    var p := a.db.pending.value;
    assert |a.db.levels| == NUM_LEVELS;
    ClosedFacts(a.db.levels, p.inputs);
    forall o | o in outs
      ensures o.number in p.outputs
    {
      var i :| 0 <= i < |outs| && outs[i] == o;
      assert outs[i].number == p.outputs[i];
    }
  }

  lemma InputsAreWellFormed(v: Levels, c: Inputs)
    requires ValidLevels(v) && StillClosed(v, c)
    ensures AllInputsWellFormed(c)
  {
    hide ValidLevels, WellFormed, FileNewer, SmallestKey, LargestKey;
    LevelFacts(v);
  }

  /** Installing keeps every answer at or above the compaction's smallest snapshot exactly when no dropped
      marker was hiding a value outside the inputs. */
  lemma InstallAnswers(a: Sys, outs: seq<File>, p: Pending)
    requires Inv(a) && a.db.pending == Some(p) && OutputsOf(p, outs) && p.inputs.level + 1 < NUM_LEVELS
    ensures AnswersInv(Memory(a.db) + (FileEntries(outs) + OtherFiles(a.db.levels, p.inputs)), a.history,
                       p.smallestSnapshot)
       <==> !Resurrects(a.db.levels, p.inputs.level, InputEntries(p.inputs),
                        Memory(a.db) + OtherFiles(a.db.levels, p.inputs), p.smallestSnapshot)
  {
    hide MemoryInv, SnapshotInv, ManifestInv, ValidLevels, StillClosed, DeeperKept, Kept, Resurrects, OtherFiles,
         InputEntries, FileEntries, VersionEntries, UniqueSeqs, Read, AllWellFormed, PairwiseBefore, MemoryNewer,
         UnusedNumbers, HistoryInv;
    var v, c, S := a.db.levels, p.inputs, p.smallestSnapshot;
    assert StillClosed(v, c) && ValidLevels(v);
    MemoryIsNewer(a);
    InputsAndRest(v, c, Memory(a.db));
    LevelFacts(v);
    ClosedFacts(v, c);
    InputsAreWellFormed(v, c);
    KeptIsTheSame(p.base, v, c, S);
    var rest := Memory(a.db) + OtherFiles(v, c);
    AnswersSurviveIff(v, c.level, InputEntries(c), rest, S);
    var after := Memory(a.db) + (FileEntries(outs) + OtherFiles(v, c));
    assert after == Kept(v, c.level, InputEntries(c), S) + rest;
    forall k, s: nat | s >= S
      ensures SameAnswers(after, a.history, k, s)
         <==> SameAnswers(InputEntries(c) + rest, Kept(v, c.level, InputEntries(c), S) + rest, k, s)
    {
      assert SameAnswers(Store(a.db), a.history, k, s);
    }
  }

  /** The smallest snapshot of a compaction is the least number that a reader may use. */
  lemma SmallestSnapshotIsLeast(a: Sys)
    requires Inv(a)
    ensures SmallestSnapshot(a.db) <= a.db.lastSequence
    ensures forall i :: 0 <= i < |a.db.snapshots| ==> SmallestSnapshot(a.db) <= a.db.snapshots[i]
    ensures SmallestSnapshot(a.db) in a.db.snapshots + [a.db.lastSequence]
  {
    hide MemoryInv, HistoryInv, AnswersInv, ManifestInv, FileInv, PendingInv;
  }

  /** What an installation reclaims: in the new files no entry is left that another input entry hides from every
      reader, and no deletion marker that every reader sees and that has nothing to delete below. */
  lemma InstallReclaims(a: Sys, b: Sys, outs: seq<File>)
    requires Inv(a) && Next(a, b, Install(outs))
    ensures a.db.pending.Some? && |a.db.levels| == NUM_LEVELS
    ensures var p := a.db.pending.value;
            && VersionEntries(b.db.levels) == FileEntries(outs) + OtherFiles(a.db.levels, p.inputs)
            && (forall e, x | e in FileEntries(outs) && x in InputEntries(p.inputs) && x.User() == e.User() ::
                  e.Seq() < x.Seq() ==> x.Seq() > p.smallestSnapshot)
            && (forall e :: e in FileEntries(outs) && e.ikey.typ.Deletion? && e.Seq() <= p.smallestSnapshot ==>
                  exists l, f :: p.inputs.level + 2 <= l < NUM_LEVELS && f in a.db.levels[l] && InUserRange(f, e.User()))
  {
    hide MemoryInv, HistoryInv, SnapshotInv, AnswersInv, ManifestInv, ValidLevels, StillClosed, DeeperKept, Kept,
         Resurrects, OtherFiles, InputEntries, FileEntries, VersionEntries, UniqueSeqs, AllWellFormed, PairwiseBefore,
         UnusedNumbers, OutputsFit, OutputsFrom, ApplyEdit, AddingEdit, InputDeletions;
    var v, p := a.db.levels, a.db.pending.value;
    OutputsAreFiles(a, outs);
    MemoryIsNewer(a);
    InstalledVersion(v, p.inputs, outs);
    ClosedFacts(v, p.inputs);
    InputsAreWellFormed(v, p.inputs);
    KeptIsTheSame(p.base, v, p.inputs, p.smallestSnapshot);
    KeptIsNeeded(v, p.inputs.level, InputEntries(p.inputs), p.smallestSnapshot);
  }

  lemma InstallSnapshots(a: Sys, p: Pending)
    requires Inv(a) && a.db.pending == Some(p)
    ensures SnapshotInv(a.db.snapshots, a.db.lastSequence, p.smallestSnapshot)
  {
    hide MemoryInv, HistoryInv, AnswersInv, ManifestInv, FileInv, ValidLevels, StillClosed, DeeperKept, UnusedNumbers;
  }

  lemma OutputsAreNew(a: Sys, outs: seq<File>, p: Pending)
    requires Inv(a) && a.db.pending == Some(p) && forall o :: o in outs ==> o.number in p.outputs
    ensures forall o, x :: o in outs && x in Additions(a.manifest) ==> x.1.number != o.number
  {
    hide MemoryInv, HistoryInv, AnswersInv, FileInv, SnapshotInv, PendingInv, Running, AddedOnce;
  }

  lemma InstallKeepsInv(a: Sys, b: Sys, outs: seq<File>)
    requires Inv(a) && Next(a, b, Install(outs))
    ensures Inv(b)
  {
    hide AnswersInv, SnapshotInv, PendingInv, ManifestInv, ValidLevels, StillClosed, OutputsFrom, UniqueSeqs, ApplyEdit,
         AddingEdit, VersionEntries, FileEntries, OtherFiles, InputDeletions, MemoryInv, HistoryInv, AddsOnly, Elements,
         OutputsOf, Resurrects, InputEntries, OutputsFit;
    var v, v', p := a.db.levels, b.db.levels, a.db.pending.value;
    var c := p.inputs;
    MemoryIsNewer(a);
    OutputsAreFiles(a, outs);
    assert ValidLevels(v);
    LevelFacts(v);
    InstalledVersion(v, c, outs);
    InputsAndRest(v, c, Memory(a.db));
    assert VersionEntries(v') <= VersionEntries(v) by { OutputsStayInVersion(v, c, outs); }
    assert Store(b.db) == Memory(a.db) + VersionEntries(v');
    FewerTables(a, VersionEntries(v'));
    InstallSnapshots(a, p);
    InstallAnswers(a, outs, p);
    InstallFileInv(v, c.level + 1, outs, v', a.db.nextFile);
    OutputsAreDistinct(v, c, outs);
    OutputsAreNew(a, outs, p);
    InstallManifest(a, c, outs, v');
  }

  /** The two conditions of an installation are exact: without either of them the invariant is lost. */
  lemma InstallKeepsInvIff(a: Sys, outs: seq<File>)
    requires Inv(a) && a.db.pending.Some? && OutputsOf(a.db.pending.value, outs)
    ensures |a.db.levels| == NUM_LEVELS && a.db.pending.value.inputs.level + 1 < NUM_LEVELS
    ensures var p := a.db.pending.value;
            Inv(Installed(a, outs)) <==>
            && OutputsFit(a.db.levels, p.inputs, outs)
            && !Resurrects(a.db.levels, p.inputs.level, InputEntries(p.inputs),
                           Memory(a.db) + OtherFiles(a.db.levels, p.inputs), p.smallestSnapshot)
  {
    hide AnswersInv, SnapshotInv, PendingInv, ManifestInv, ValidLevels, StillClosed, OutputsFrom, UniqueSeqs, ApplyEdit,
         AddingEdit, VersionEntries, FileEntries, OtherFiles, InputDeletions, MemoryInv, HistoryInv, AddsOnly, Elements,
         OutputsOf, Resurrects, InputEntries, OutputsFit;
    var v, p := a.db.levels, a.db.pending.value;
    var c := p.inputs;
    assert FileInv(v, a.db.nextFile);
    LevelFacts(v);
    MemoryIsNewer(a);
    OutputsAreFiles(a, outs);
    ClosedFacts(v, c);
    InstalledVersion(v, c, outs);
    var b := Installed(a, outs);
    if Inv(b) {
      assert FileInv(b.db.levels, b.db.nextFile);
      assert AnswersInv(Store(b.db), b.history, b.horizon);
      assert Store(b.db) == Memory(a.db) + (FileEntries(outs) + OtherFiles(v, c));
      InstallAnswers(a, outs, p);
    } else if OutputsFit(v, c, outs)
              && !Resurrects(v, c.level, InputEntries(c), Memory(a.db) + OtherFiles(v, c), p.smallestSnapshot) {
      assert Next(a, b, Install(outs));
      InstallKeepsInv(a, b, outs);
    }
  }

  lemma OutputsStayInVersion(v: Levels, c: Inputs, outs: seq<File>)
    requires |v| == NUM_LEVELS && StillClosed(v, c) && OutputsFrom(v, c, outs)
    ensures FileEntries(outs) + OtherFiles(v, c) <= VersionEntries(v)
  {
    hide StillClosed, AllWellFormed, DistinctNumbers, PairwiseBefore, Survives, FileEntries;
    forall e | e in InputEntries(c)
      ensures e in VersionEntries(v)
    {
      var l, f := InputFile(v, c, e);
    }
  }

  /** With gapless inputs, outputs always fit, whatever was flushed since the inputs were chosen. */
  lemma GaplessAlwaysFits(a: Sys, outs: seq<File>)
    requires Inv(a) && a.db.pending.Some? && OutputsOf(a.db.pending.value, outs)
    ensures |a.db.levels| == NUM_LEVELS && a.db.pending.value.inputs.upper != []
    ensures Gapless(a.db.pending.value.inputs) ==> OutputsFit(a.db.levels, a.db.pending.value.inputs, outs)
  {
    hide MemoryInv, HistoryInv, SnapshotInv, AnswersInv, PendingInv, ManifestInv, ValidLevels, StillClosed, Closed,
         OutputsFrom, OutputsOf, OutputsFit, Gapless;
    var v, c := a.db.levels, a.db.pending.value.inputs;
    assert ValidLevels(v);
    LevelFacts(v);
    OutputsAreFiles(a, outs);
    ClosedFacts(v, c);
    if Gapless(c) {
      GaplessStaysClosed(v, c);
      ClosedOutputsFit(v, c, outs);
    }
  }

  // ----- All steps, all runs -----

  lemma StepKeepsInv(a: Sys, b: Sys, step: Step)
    requires Inv(a) && Next(a, b, step)
    ensures Inv(b)
  {
    hide Inv, Next;
    match step
    case Insert(e) => InsertKeepsInv(a, b, e);
    case Publish(count) => PublishKeepsInv(a, b, count);
    case Rotate => RotateKeepsInv(a, b);
    case Flush(level, f) => FlushKeepsInv(a, b, level, f);
    case FlushEmpty => FlushEmptyKeepsInv(a, b);
    case TakeSnapshot => TakeSnapshotKeepsInv(a, b);
    case ReleaseSnapshot(i) => ReleaseSnapshotKeepsInv(a, b, i);
    case Move(c, f) => MoveKeepsInv(a, b, c, f);
    case Begin(c) => BeginKeepsInv(a, b, c);
    case Allocate => AllocateKeepsInv(a, b);
    case Install(outs) => InstallKeepsInv(a, b, outs);
    case Abandon => AbandonKeepsInv(a, b);
  }

  ghost predicate Steps(a: Sys, b: Sys) {
    exists step :: Next(a, b, step)
  }

  /** A run of the store from the empty database. */
  ghost predicate Run(run: seq<Sys>) {
    && run != [] && Init(run[0])
    && forall i :: 0 <= i < |run| - 1 ==> Steps(run[i], run[i + 1])
  }

  lemma {:induction false} RunKeepsInv(run: seq<Sys>, i: nat)
    requires Run(run) && i < |run|
    ensures Inv(run[i])
    decreases i
  {
    hide Inv, Next;
    if i == 0 {
      InitSatisfiesInv(run[0]);
    } else {
      RunKeepsInv(run, i - 1);
      assert Steps(run[i - 1], run[i - 1 + 1]);
      var step :| Next(run[i - 1], run[i], step);
      StepKeepsInv(run[i - 1], run[i], step);
    }
  }

  /** The snapshots a reader can use now. */
  ghost predicate Readable(a: Sys, s: nat) {
    s == a.db.lastSequence || s in a.db.snapshots
  }

  /** Reads survive: in every state of every run, the store answers every read at a live snapshot
      with the newest write to the key at or below it. */
  lemma ReadsSurvive(run: seq<Sys>, i: nat, k: Key, s: nat)
    requires Run(run) && i < |run| && Readable(run[i], s)
    ensures Read(Store(run[i].db), k, s) == Read(run[i].history, k, s)
  {
    RunKeepsInv(run, i);
    ReadableIsExact(run[i], k, s);
  }

  lemma ReadableIsExact(a: Sys, k: Key, s: nat)
    requires Inv(a) && Readable(a, s)
    ensures Read(Store(a.db), k, s) == Read(a.history, k, s)
  {
    hide MemoryInv, HistoryInv, FileInv, PendingInv, ManifestInv, Store, Read;
    assert s >= a.horizon;
    assert SameAnswers(Store(a.db), a.history, k, s);
  }

  /** Steps only add to the history, above every sequence number in use. */
  lemma HistoryOnlyGrows(a: Sys, b: Sys, step: Step)
    requires Inv(a) && Next(a, b, step)
    ensures a.history <= b.history && a.db.lastSequence <= b.db.lastSequence
    ensures forall e :: e in b.history && e !in a.history ==> e.Seq() > a.db.lastSequence
  {
    hide Inv, Resurrects, OutputsOf, Closed, ApplyEdit, AddingEdit, InputDeletions, RoomAt, WellFormed;
  }

  lemma {:induction false} HistoryGrowsAlong(run: seq<Sys>, i: nat, j: nat)
    requires Run(run) && i <= j < |run|
    ensures run[i].history <= run[j].history && run[i].db.lastSequence <= run[j].db.lastSequence
    ensures forall e :: e in run[j].history && e !in run[i].history ==> e.Seq() > run[i].db.lastSequence
    decreases j
  {
    hide Inv, Next;
    if i < j {
      HistoryGrowsAlong(run, i, j - 1);
      RunKeepsInv(run, j - 1);
      assert Steps(run[j - 1], run[j - 1 + 1]);
      var step :| Next(run[j - 1], run[j], step);
      HistoryOnlyGrows(run[j - 1], run[j], step);
    }
  }

  /** Snapshots are stable: a read at a snapshot live in two states of a run answers the same in both,
      whatever was written, flushed, moved, compacted or released in between. */
  lemma SnapshotsAreStable(run: seq<Sys>, i: nat, j: nat, k: Key, s: nat)
    requires Run(run) && i <= j < |run| && Readable(run[i], s) && Readable(run[j], s)
    ensures Read(Store(run[i].db), k, s) == Read(Store(run[j].db), k, s)
  {
    hide Inv, Run, Store, Read;
    RunKeepsInv(run, i);
    RunKeepsInv(run, j);
    ReadableIsExact(run[i], k, s);
    ReadableIsExact(run[j], k, s);
    HistoryGrowsAlong(run, i, j);
    ReadableIsBounded(run[i], s);
    HistoryIsUnique(run[i]);
    HistoryIsUnique(run[j]);
    ReadSame(run[i].history, run[j].history, k, s);
  }

  lemma ReadableIsBounded(a: Sys, s: nat)
    requires Inv(a) && Readable(a, s)
    ensures s <= a.db.lastSequence
  {
    hide MemoryInv, HistoryInv, FileInv, PendingInv, ManifestInv, AnswersInv;
  }

  lemma HistoryIsUnique(a: Sys)
    requires Inv(a)
    ensures UniqueSeqs(a.history)
  {
    hide MemoryInv, SnapshotInv, FileInv, PendingInv, ManifestInv, AnswersInv;
  }

  /** Recovery: at every point of every run, replaying the manifest through one builder gives back
      the current version, file by file. */
  lemma ManifestAlwaysReplays(run: seq<Sys>, i: nat)
    requires Run(run) && i < |run|
    ensures AddedOnce(Additions(run[i].manifest))
    ensures run[i].db.levels == Running(EMPTY_VERSION, run[i].manifest)
    ensures forall l :: 0 <= l < NUM_LEVELS ==>
              run[i].db.levels[l] == Live(BuilderAdded(run[i].manifest, l), BuilderDeleted(run[i].manifest, l))
  {
    RunKeepsInv(run, i);
    hide MemoryInv, HistoryInv, SnapshotInv, FileInv, PendingInv, AnswersInv, Run;
    var edits := run[i].manifest;
    var v := seq(NUM_LEVELS, l requires 0 <= l < NUM_LEVELS =>
                   Live(BuilderAdded(edits, l), BuilderDeleted(edits, l)));
    ReplayRebuildsRunning(edits, v);
  }
}
