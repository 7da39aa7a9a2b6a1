/** What a crash leaves (db/db_impl.cc: RecoverLogFile, CompactMemTable; db/version_set.cc: Recover): the
    tables of the current version, and the log from where the unflushed memtables start, cut short. Reopening
    answers as the groups that are wholly in the log, all of them and no others. */
module CrashRecovery {
  import opened InternalKeys
  import opened Operations
  import opened Versions
  import opened Builders
  import opened Manifest
  import opened CompactionInputs
  import opened CompactionMeaning
  import opened VersionEdits
  import opened StateMachine
  import opened Safety
  import opened PendingCompactions
  import opened GroupCommit
  import opened CommitReads

  // ----- What is on disk -----

  /** The counters that LogAndApply writes into an edit. The previous log number is always 0. */
  datatype Stamp = Stamp(nextFile: nat, logNumber: nat, lastSequence: nat)

  /** Where the log and its files stand. A switch of memtables starts a new log file; a flush logs the number of
      the current one, and the file before it is obsolete. `memFrom` is the first record of the current file,
      numbered `memLog`; `replayFrom` that of the file that the manifest names, numbered `logNumber`. `stamps`
      are the counters of the logged edits after the first, which lists the files of a new manifest only. */
  datatype Marks = Marks(replayFrom: nat, memFrom: nat, logNumber: nat, memLog: nat, obsolete: set<nat>,
                         stamps: seq<Stamp>)

  const FIRST_MARKS := Marks(0, 0, 3, 3, {}, [Stamp(4, 3, 0)])

  function NextMarks(a: Commit, b: Commit, marks: Marks): Marks {
    var db := b.sys.db;
    if a.sys.db.imm.None? && db.imm.Some? then
      marks.(memFrom := |b.log|, memLog := a.sys.db.nextFile)
    else if a.sys.db.imm.Some? && db.imm.None? then
      marks.(replayFrom := marks.memFrom, logNumber := marks.memLog, obsolete := marks.obsolete + {marks.logNumber},
             stamps := marks.stamps + [Stamp(db.nextFile, marks.memLog, db.lastSequence)])
    else if |b.sys.manifest| > |a.sys.manifest| then
      marks.(stamps := marks.stamps + [Stamp(db.nextFile, marks.logNumber, db.lastSequence)])
    else
      marks
  }

  // ----- Records as entries -----

  ghost function RecordEntries(rs: seq<Record>): set<Entry> {
    if rs == [] then {}
    else
      var r := rs[|rs| - 1];
      RecordEntries(rs[..|rs| - 1]) + EntriesOf(r.ops, r.first)
  }

  lemma {:induction false} RecordsConcat(a: seq<Record>, b: seq<Record>)
    ensures RecordEntries(a + b) == RecordEntries(a) + RecordEntries(b)
    decreases |b|
  {
    hide EntriesOf;
    if b == [] {
      assert a + b == a;
    } else {
      var n := |b| - 1;
      assert (a + b)[..|a| + n] == a + b[..n];
      assert (a + b)[|a| + n] == b[n];
      RecordsConcat(a, b[..n]);
    }
  }

  lemma {:induction false} LoggedEntries(groups: seq<Group>)
    ensures RecordEntries(LogOf(groups)) == GroupEntries(groups)
  {
    hide EntriesOf;
    if groups != [] {
      var n := |groups| - 1;
      LoggedEntries(groups[..n]);
      var before, g := LogOf(groups[..n]), groups[n];
      if g.ok {
        OneMoreRecord(before, Record(g.first, g.ops));
      } else {
        assert before + [] == before;
      }
    }
  }

  lemma OneMoreRecord(rs: seq<Record>, r: Record)
    ensures RecordEntries(rs + [r]) == RecordEntries(rs) + EntriesOf(r.ops, r.first)
    ensures LogOps(rs + [r]) == LogOps(rs) + r.ops
  {
    hide EntriesOf;
    assert (rs + [r])[..|rs|] == rs;
  }

  /** The next number after some records. */
  function EndNumber(rs: seq<Record>): nat {
    if rs == [] then 1 else rs[|rs| - 1].first + |rs[|rs| - 1].ops|
  }

  /** Records use higher and higher numbers. */
  ghost predicate Rising(rs: seq<Record>) {
    forall i :: 0 <= i < |rs| ==> EndNumber(rs[..i]) <= rs[i].first
  }

  lemma RisingFront(rs: seq<Record>, n: nat)
    requires Rising(rs) && n <= |rs|
    ensures Rising(rs[..n])
  {
    forall i | 0 <= i < n
      ensures EndNumber(rs[..n][..i]) <= rs[..n][i].first
    {
      assert rs[..n][..i] == rs[..i];
    }
  }

  lemma RisingMore(rs: seq<Record>, r: Record)
    requires Rising(rs) && EndNumber(rs) <= r.first
    ensures Rising(rs + [r]) && EndNumber(rs + [r]) == r.first + |r.ops|
  {
    hide EndNumber;
    forall i | 0 <= i < |rs| + 1
      ensures EndNumber((rs + [r])[..i]) <= (rs + [r])[i].first
    {
      if i < |rs| {
        assert (rs + [r])[..i] == rs[..i];
      } else {
        assert (rs + [r])[..i] == rs;
      }
    }
    LastEnds(rs, r);
  }

  lemma LastEnds(rs: seq<Record>, r: Record)
    ensures EndNumber(rs + [r]) == r.first + |r.ops|
  {
  }

  lemma {:induction false} LogRises(groups: seq<Group>)
    requires Chained(groups)
    ensures Rising(LogOf(groups)) && EndNumber(LogOf(groups)) <= NextNumber(groups)
  {
    hide EndNumber, Rising;
    if groups == [] {
      EmptyLogRises();
    } else {
      var n := |groups| - 1;
      ChainedFront(groups);
      LogRises(groups[..n]);
      var before, g := LogOf(groups[..n]), groups[n];
      if g.ok {
        RisingMore(before, Record(g.first, g.ops));
      } else {
        assert before + [] == before;
      }
    }
  }

  lemma EmptyLogRises()
    ensures Rising([]) && EndNumber([]) == 1
  {
  }

  /** The entries of rising records are below their end, and applying them is applying their operations. */
  lemma {:induction false} RecordsAct(rs: seq<Record>)
    requires Rising(rs)
    ensures EndNumber(rs) >= 1 && Bounded(RecordEntries(rs), EndNumber(rs) - 1)
    ensures forall k :: Read(RecordEntries(rs), k, EndNumber(rs) - 1) == AfterOps(LogOps(rs), k, None)
  {
    hide Read, EntriesOf, AfterOps, UniqueSeqs;
    if rs == [] {
      EmptyReads();
      NothingIsBounded();
    } else {
      var n := |rs| - 1;
      var r, init := rs[n], rs[..n];
      RisingFront(rs, n);
      RecordsAct(init);
      assert EndNumber(rs[..n]) <= r.first;
      var E := RecordEntries(init);
      assert r.ops[..|r.ops|] == r.ops;
      BatchActs(E, r.ops, r.first - 1, |r.ops|);
      forall k
        ensures Read(RecordEntries(rs), k, EndNumber(rs) - 1) == AfterOps(LogOps(rs), k, None)
      {
        ReadAbove(E, k, EndNumber(init) - 1, r.first - 1);
        AfterConcat(LogOps(init), r.ops, k, None);
      }
    }
  }

  lemma NothingIsBounded()
    ensures Bounded({}, 0)
  {
  }

  // ----- Tables against the log -----

  /** Newer entries decide a read whatever is below them. */
  lemma NewerDecides(A: set<Entry>, H: set<Entry>, N: set<Entry>, k: Key, s: nat)
    requires UniqueSeqs(A + N) && UniqueSeqs(H + N) && Read(A, k, s) == Read(H, k, s)
    requires forall n, e :: n in N && e in A + H ==> n.Seq() > e.Seq()
    ensures Read(A + N, k, s) == Read(H + N, k, s)
  {
    hide Read;
    var n := NewestExists(N, k, s);
    if n.Some? {
      assert NewestAt(A + N, k, s, n.value) && NewestAt(H + N, k, s, n.value);
      ReadIsNewest(A + N, k, s, n.value);
      ReadIsNewest(H + N, k, s, n.value);
    } else {
      ReadSame(A + N, A, k, s);
      ReadSame(H + N, H, k, s);
    }
  }

  ghost predicate SameReads(A: set<Entry>, H: set<Entry>) {
    forall k :: Read(A, k, MAX_SEQUENCE) == Read(H, k, MAX_SEQUENCE)
  }

  /** The tables hold only what was logged before the replay starts, the memtables the rest of the log: the
      immutable one its part up to the last switch. */
  ghost predicate MemLayout(c: Commit, marks: Marks) {
    var log := LogOf(c.groups);
    && marks.replayFrom <= marks.memFrom <= |log|
    && (c.sys.db.imm.None? ==> marks.replayFrom == marks.memFrom)
    && Elements(c.sys.db.mem) == RecordEntries(log[marks.memFrom..]) + Partial(c)
    && ImmEntries(c.sys.db) == RecordEntries(log[marks.replayFrom..marks.memFrom])
    && VersionEntries(c.sys.db.levels) <= RecordEntries(log[..marks.replayFrom])
  }

  ghost predicate NumbersBelow(levels: Levels, n: nat) {
    forall l, f :: 0 <= l < |levels| && f in levels[l] ==> f.number < n
  }

  /** The counters last logged: they name the log that replay starts with, and cover all files and all that
      the tables hold. */
  ghost predicate StampInv(c: Commit, marks: Marks)
    requires marks.stamps != []
  {
    var s, db := marks.stamps[|marks.stamps| - 1], c.sys.db;
    && s.logNumber == marks.logNumber && s.nextFile <= db.nextFile && s.lastSequence <= db.lastSequence
    && NumbersBelow(db.levels, s.nextFile)
    && marks.replayFrom <= |LogOf(c.groups)| && EndNumber(LogOf(c.groups)[..marks.replayFrom]) <= s.lastSequence + 1
  }

  /** The numbers of log files rise. While a memtable is being flushed there are two that matter, else one. */
  ghost predicate FileLayout(c: Commit, marks: Marks) {
    var db := c.sys.db;
    && (if db.imm.None? then marks.logNumber == marks.memLog else marks.logNumber < marks.memLog)
    && 0 < marks.logNumber && marks.memLog < db.nextFile
    && (forall n :: n in marks.obsolete ==> 0 < n < marks.logNumber)
    && marks.stamps != [] && |marks.stamps| + 1 == |c.sys.manifest|
    && marks.memFrom <= |LogOf(c.groups)| && EndNumber(LogOf(c.groups)[..marks.memFrom]) <= db.lastSequence + 1
    && StampInv(c, marks)
  }

  ghost predicate LayoutInv(c: Commit, marks: Marks) {
    MemLayout(c, marks) && FileLayout(c, marks)
  }

  /** The tables and the memtable being flushed answer as the log up to the last switch. */
  ghost predicate LogKept(c: Commit, marks: Marks) {
    marks.memFrom <= |LogOf(c.groups)| &&
    SameReads(VersionEntries(c.sys.db.levels) + ImmEntries(c.sys.db), RecordEntries(LogOf(c.groups)[..marks.memFrom]))
  }

  // ----- Every step keeps the layout -----

  lemma LayoutStarts(c: Commit)
    requires CommitInit(c)
    ensures LayoutInv(c, FIRST_MARKS) && LogKept(c, FIRST_MARKS)
  {
    hide Read;
    assert forall l :: 0 <= l < NUM_LEVELS ==> EMPTY_VERSION[l] == [];
    EmptyIsValid(EMPTY_VERSION);
    assert c.sys.db.levels == EMPTY_VERSION;
    NoElements();
    hide VersionEntries, RecordEntries;
    var none: set<Entry> := {};
    assert none + none == none;
    SameReadsOfSame(none);
  }

  /** A step that touches neither memtables nor tables nor groups. */
  lemma QuietStep(a: Commit, b: Commit, marks: Marks)
    requires MemLayout(a, marks) && b.groups == a.groups && Partial(b) == Partial(a)
    requires b.sys.db.mem == a.sys.db.mem && b.sys.db.imm == a.sys.db.imm
    requires VersionEntries(b.sys.db.levels) <= VersionEntries(a.sys.db.levels)
    ensures MemLayout(b, NextMarks(a, b, marks))
  {
    hide RecordEntries, LogOf, VersionEntries, Elements, Partial;
  }

  lemma InsertLayout(a: Commit, b: Commit, marks: Marks)
    requires CommitInv(a) && MemLayout(a, marks) && CommitNext(a, b, InsertNext)
    ensures MemLayout(b, NextMarks(a, b, marks))
  {
    hide CommitInv, CommitNext, RecordEntries, LogOf, VersionEntries, Elements, ImmEntries, Partial, EntryOf;
    var e := InsertedPartial(a, b);
    SameImm(a.sys.db, b.sys.db);
  }

  lemma InsertedPartial(a: Commit, b: Commit) returns (e: Entry)
    requires CommitInv(a) && CommitNext(a, b, InsertNext)
    ensures Elements(b.sys.db.mem) == Elements(a.sys.db.mem) + {e} && Partial(b) == Partial(a) + {e}
    ensures b.groups == a.groups && b.sys.db.imm == a.sys.db.imm && b.sys.db.levels == a.sys.db.levels
  {
    hide Inv, NumberInv, LogInv, QueueInv, ReplayInv, BoundaryInv, Elements, EntriesOf, InsertSorted;
    var ops, n, last := a.leader.value.ops, a.sys.db.inserted, a.sys.db.lastSequence;
    e := EntryOf(ops[n], last + n + 1);
    InsertedElements(a.sys, b.sys, e);
    EntriesOfOneMore(ops, n, last + 1);
  }

  lemma SameImm(a: Db, b: Db)
    requires a.imm == b.imm
    ensures ImmEntries(a) == ImmEntries(b)
  {
  }

  lemma InsertedElements(a: Sys, b: Sys, e: Entry)
    requires Inv(a) && Next(a, b, Insert(e))
    ensures Elements(b.db.mem) == Elements(a.db.mem) + {e}
  {
    hide FileInv, PendingInv, ManifestInv, AnswersInv, SnapshotInv, UniqueSeqs, VersionEntries, InsertSorted, Sorted;
    InsertMemory(a.db.mem, a.db.imm, VersionEntries(a.db.levels), e, a.db.lastSequence + a.db.inserted);
  }

  lemma FinishLayout(a: Commit, b: Commit, marks: Marks)
    requires CommitInv(a) && MemLayout(a, marks) && CommitNext(a, b, Finish)
    ensures MemLayout(b, NextMarks(a, b, marks))
  {
    hide CommitInv, CommitNext, RecordEntries, VersionEntries, Elements, EntriesOf, ImmEntries, LogOf, Partial;
    var log := LogOf(a.groups);
    FinishedGroup(a, b);
    SameImm(a.sys.db, b.sys.db);
    if a.leader.value.result.Logged? {
      var r := Record(a.sys.db.lastSequence + 1, a.leader.value.ops);
      assert (log + [r])[marks.memFrom..] == log[marks.memFrom..] + [r];
      assert (log + [r])[marks.replayFrom..marks.memFrom] == log[marks.replayFrom..marks.memFrom];
      assert (log + [r])[..marks.replayFrom] == log[..marks.replayFrom];
      OneMoreRecord(log[marks.memFrom..], r);
    }
  }

  /** A finished group's record joins those of the successful groups, and its entries are no longer partial. */
  lemma FinishedGroup(a: Commit, b: Commit)
    requires CommitInv(a) && CommitNext(a, b, Finish)
    ensures a.leader.Some? && Partial(b) == {}
    ensures b.sys.db.mem == a.sys.db.mem && b.sys.db.imm == a.sys.db.imm && b.sys.db.levels == a.sys.db.levels
    ensures var l, first := a.leader.value, a.sys.db.lastSequence + 1;
            && LogOf(b.groups) == (if l.result.Logged? then LogOf(a.groups) + [Record(first, l.ops)] else LogOf(a.groups))
            && Partial(a) == (if l.result.Logged? then EntriesOf(l.ops, first) else {})
  {
    hide Inv, LogInv, QueueInv, ReplayInv, BoundaryInv, EntriesOf, Chained, NextNumber, GroupEntries;
    var l := a.leader.value;
    assert b.groups[..|a.groups|] == a.groups;
    assert l.ops[..|l.ops|] == l.ops;
    assert LogOf(a.groups) + [] == LogOf(a.groups);
  }

  /** Partial entries are those of a group that is being inserted. */
  lemma NothingPartial(c: Commit)
    requires NumberInv(c) && (c.leader.None? || c.sys.db.inserted == 0)
    ensures Partial(c) == {}
  {
    hide Chained, NextNumber, GroupEntries;
    if c.leader.Some? {
      assert c.leader.value.ops[..0] == [];
    }
  }

  lemma RotateLayout(a: Commit, b: Commit, marks: Marks)
    requires CommitInv(a) && MemLayout(a, marks) && CommitNext(a, b, Other(Rotate))
    ensures MemLayout(b, NextMarks(a, b, marks))
    ensures a.log == LogOf(a.groups) && ImmEntries(a.sys.db) == {}
    ensures ImmEntries(b.sys.db) == RecordEntries(a.log[marks.memFrom..])
  {
    hide Inv, QueueInv, ReplayInv, BoundaryInv, RecordEntries, VersionEntries, EntriesOf, LogOf, NumberInv, Elements,
         Partial;
    var log := LogOf(a.groups);
    NothingPartial(a);
    SameNumbers(a, b);
    NothingPartial(b);
    assert a.log == log;
    assert log[marks.memFrom..|log|] == log[marks.memFrom..] && log[|log|..] == [];
    assert Elements([]) == {} && RecordEntries([]) == {} by { NoElements(); }
  }

  lemma NoElements()
    ensures Elements([]) == {} && RecordEntries([]) == {}
  {
  }

  lemma FlushLayout(a: Commit, b: Commit, marks: Marks, step: Step)
    requires CommitInv(a) && MemLayout(a, marks) && CommitNext(a, b, Other(step)) && (step.Flush? || step.FlushEmpty?)
    ensures MemLayout(b, NextMarks(a, b, marks))
  {
    hide Inv, QueueInv, ReplayInv, BoundaryInv, LogInv, RecordEntries, VersionEntries, EntriesOf, LogOf,
         Elements, Partial, Chained, NextNumber, GroupEntries, ApplyEdit, AddingEdit, RoomAt, WellFormed, ImmEntries;
    var log := LogOf(a.groups);
    FlushedTables(a.sys, b.sys, step);
    assert log[..marks.memFrom] == log[..marks.replayFrom] + log[marks.replayFrom..marks.memFrom];
    RecordsConcat(log[..marks.replayFrom], log[marks.replayFrom..marks.memFrom]);
    assert log[marks.memFrom..marks.memFrom] == [];
    NoElements();
    NoImm(b.sys.db);
    assert Partial(b) == Partial(a) by { SamePartial(a, b); }
  }

  lemma NoImm(db: Db)
    requires db.imm.None?
    ensures ImmEntries(db) == {}
  {
  }

  lemma SamePartial(a: Commit, b: Commit)
    requires b.leader == a.leader && b.sys.db.inserted == a.sys.db.inserted
    requires b.sys.db.lastSequence == a.sys.db.lastSequence
    ensures Partial(b) == Partial(a)
  {
  }

  /** The tables gain what the immutable memtable held. */
  lemma FlushedTables(a: Sys, b: Sys, step: Step)
    requires Inv(a) && Next(a, b, step) && (step.Flush? || step.FlushEmpty?)
    ensures VersionEntries(b.db.levels) == VersionEntries(a.db.levels) + ImmEntries(a.db)
    ensures b.db.mem == a.db.mem && a.db.imm.Some? && b.db.imm.None?
  {
    hide Inv, ValidLevels, MemoryInv, UniqueSeqs, VersionEntries, ApplyEdit, AddingEdit, RoomAt, WellFormed, FileEntries,
         NewestFile, Elements;
    StateFacts(a);
    if step.FlushEmpty? {
      EmptyEditChangesNothing(a.db.levels);
      NoElements();
    } else {
      FlushedFile(a, step.level, step.f);
      FlushedVersion(a.db.levels, step.level, step.f);
    }
  }

  lemma GroupsRise(c: Commit)
    requires CommitInv(c)
    ensures Rising(LogOf(c.groups)) && Chained(c.groups)
  {
    hide Inv, QueueInv, ReplayInv, BoundaryInv, LogInv, Chained, NextNumber, GroupEntries, Partial, Rising, LogOf;
    LogRises(c.groups);
  }

  /** Later records are newer than earlier ones. */
  lemma {:induction false} LaterIsNewer(rs: seq<Record>, n: nat)
    requires Rising(rs) && n <= |rs|
    ensures EndNumber(rs[..n]) <= EndNumber(rs)
    ensures forall e :: e in RecordEntries(rs[n..]) ==> e.Seq() >= EndNumber(rs[..n])
    decreases |rs|
  {
    hide EntriesOf, RecordEntries, Rising, EndNumber;
    if n == |rs| {
      assert rs[n..] == [] && rs[..n] == rs;
      NoElements();
    } else {
      var init, last := rs[..|rs| - 1], rs[|rs| - 1];
      assert rs == init + [last] && rs[..n] == init[..n] && rs[n..] == init[n..] + [last];
      RisingFront(rs, |init|);
      LaterIsNewer(init, n);
      LastRises(rs);
      LastEnds(init, last);
      OneMoreRecord(init[n..], last);
      EntriesAreAbove(last.ops, last.first);
    }
  }

  lemma LastRises(rs: seq<Record>)
    requires Rising(rs) && rs != []
    ensures EndNumber(rs[..|rs| - 1]) <= rs[|rs| - 1].first
  {
  }

  lemma EndGrows(rs: seq<Record>, n: nat, m: nat)
    requires Rising(rs) && n <= m <= |rs|
    ensures EndNumber(rs[..n]) <= EndNumber(rs[..m])
  {
    hide EndNumber, Rising, RecordEntries;
    RisingFront(rs, m);
    LaterIsNewer(rs[..m], n);
    assert rs[..m][..n] == rs[..n];
  }

  // ----- Every step keeps the file numbers -----

  /** What a step of the store does to counters, manifest and memtables. */
  lemma StepShape(a: Sys, b: Sys, step: Step)
    requires Next(a, b, step)
    ensures a.db.nextFile <= b.db.nextFile && a.db.lastSequence <= b.db.lastSequence
    ensures |a.manifest| <= |b.manifest| <= |a.manifest| + 1
    ensures |b.manifest| == |a.manifest| ==> b.db.levels == a.db.levels
    ensures a.db.imm.None? && b.db.imm.Some? ==> step.Rotate? && b.db.nextFile == a.db.nextFile + 1
    ensures step.Rotate? ==> b.manifest == a.manifest
    ensures a.db.imm.Some? && b.db.imm.None? ==> |b.manifest| == |a.manifest| + 1
  {
    hide OutputsOf, OutputsFit, Resurrects, ApplyEdit, AddingEdit, InputDeletions, RoomAt, WellFormed, Closed, InsertSorted;
  }

  lemma {:induction false} LogGrows(groups: seq<Group>, n: nat)
    requires n <= |groups|
    ensures LogOf(groups[..n]) <= LogOf(groups)
  {
    if n < |groups| {
      LogGrows(groups[..|groups| - 1], n);
      assert groups[..|groups| - 1][..n] == groups[..n];
    } else {
      assert groups[..n] == groups;
    }
  }

  /** What a step of group commit does to counters, manifest, memtables and log. */
  lemma CommitShape(a: Commit, b: Commit, step: CommitStep)
    requires CommitNext(a, b, step)
    ensures a.sys.db.nextFile <= b.sys.db.nextFile && a.sys.db.lastSequence <= b.sys.db.lastSequence
    ensures |a.sys.manifest| <= |b.sys.manifest| <= |a.sys.manifest| + 1
    ensures |b.sys.manifest| == |a.sys.manifest| ==> b.sys.db.levels == a.sys.db.levels
    ensures a.sys.db.imm.None? && b.sys.db.imm.Some? ==>
              step == Other(Rotate) && b.sys.db.nextFile == a.sys.db.nextFile + 1
    ensures step == Other(Rotate) ==> b.sys.manifest == a.sys.manifest
    ensures a.sys.db.imm.Some? && b.sys.db.imm.None? ==> |b.sys.manifest| == |a.sys.manifest| + 1
    ensures a.groups <= b.groups && LogOf(a.groups) <= LogOf(b.groups)
  {
    assert a.groups <= b.groups && b.groups[..|a.groups|] == a.groups by {
      assert CommitSteps(a, b);
      StepKeepsOutcomes(a, b);
    }
    LogGrows(b.groups, |a.groups|);
    hide Next, LogOf;
    match step
    case InsertNext =>
      StepShape(a.sys, b.sys, Insert(EntryOf(a.leader.value.ops[a.sys.db.inserted],
                                             a.sys.db.lastSequence + a.sys.db.inserted + 1)));
    case Finish => StepShape(a.sys, b.sys, Publish(|a.leader.value.ops|));
    case Other(s) => StepShape(a.sys, b.sys, s);
    case _ =>
  }

  lemma NumbersOf(a: Sys)
    requires Inv(a)
    ensures NumbersBelow(a.db.levels, a.db.nextFile)
  {
    hide MemoryInv, SnapshotInv, AnswersInv, PendingInv, ManifestInv, HistoryInv, ValidLevels;
  }

  lemma LogEnds(c: Commit)
    requires CommitInv(c)
    ensures EndNumber(LogOf(c.groups)) <= c.sys.db.lastSequence + 1
  {
    hide Inv, LogInv, QueueInv, ReplayInv, BoundaryInv, EndNumber, LogOf, Rising;
    LogRises(c.groups);
  }

  lemma FilesKeepLayout(a: Commit, b: Commit, marks: Marks, step: CommitStep)
    requires CommitInv(a) && CommitInv(b) && LayoutInv(a, marks) && MemLayout(b, NextMarks(a, b, marks))
    requires CommitNext(a, b, step)
    ensures FileLayout(b, NextMarks(a, b, marks))
  {
    hide CommitInv, CommitNext, MemLayout, FileLayout, NumbersBelow, EndNumber, LogOf, Inv;
    CommitShape(a, b, step);
    StoreInv(b);
    NumbersOf(b.sys);
    MemBounds(a, marks);
    var log, log' := LogOf(a.groups), LogOf(b.groups);
    assert log'[..marks.memFrom] == log[..marks.memFrom] && log'[..marks.replayFrom] == log[..marks.replayFrom];
    if step == Other(Rotate) {
      RotateEnds(a, b, marks);
    }
    StampsKeep(a, b, marks, log, log');
  }

  /** At a switch of memtables, the log ends with the last published number. */
  lemma RotateEnds(a: Commit, b: Commit, marks: Marks)
    requires CommitInv(a) && MemLayout(a, marks) && CommitNext(a, b, Other(Rotate))
    ensures |b.log| <= |LogOf(b.groups)|
    ensures EndNumber(LogOf(b.groups)[..|b.log|]) <= b.sys.db.lastSequence + 1
  {
    hide CommitInv, MemLayout, CommitNext, EndNumber, LogOf, RecordEntries, ImmEntries, NextMarks;
    RotateLayout(a, b, marks);
    RotateGroups(a, b);
    LogEnds(a);
    assert LogOf(a.groups)[..|a.log|] == LogOf(a.groups);
  }

  lemma MemBounds(c: Commit, marks: Marks)
    requires MemLayout(c, marks)
    ensures marks.replayFrom <= marks.memFrom <= |LogOf(c.groups)|
  {
    hide LogOf, RecordEntries, VersionEntries, Elements;
  }

  lemma RotateGroups(a: Commit, b: Commit)
    requires CommitNext(a, b, Other(Rotate))
    ensures b.groups == a.groups && b.log == a.log && b.sys.db.imm.Some? && a.sys.db.imm.None?
    ensures b.sys.db.lastSequence == a.sys.db.lastSequence
  {
  }

  /** The last stamp, after a step that logs an edit or leaves the tables alone. */
  lemma StampsKeep(a: Commit, b: Commit, marks: Marks, log: seq<Record>, log': seq<Record>)
    requires FileLayout(a, marks) && log == LogOf(a.groups) && log' == LogOf(b.groups)
    requires marks.replayFrom <= marks.memFrom <= |log| <= |log'|
    requires log'[..marks.memFrom] == log[..marks.memFrom] && log'[..marks.replayFrom] == log[..marks.replayFrom]
    requires a.sys.db.nextFile <= b.sys.db.nextFile && a.sys.db.lastSequence <= b.sys.db.lastSequence
    requires |a.sys.manifest| <= |b.sys.manifest| <= |a.sys.manifest| + 1
    requires |b.sys.manifest| == |a.sys.manifest| ==> b.sys.db.levels == a.sys.db.levels
    requires NumbersBelow(b.sys.db.levels, b.sys.db.nextFile)
    requires a.sys.db.imm.None? && b.sys.db.imm.Some? ==>
               && b.sys.db.nextFile == a.sys.db.nextFile + 1 && b.sys.manifest == a.sys.manifest
               && |b.log| <= |log'| && EndNumber(log'[..|b.log|]) <= b.sys.db.lastSequence + 1
    requires a.sys.db.imm.Some? && b.sys.db.imm.None? ==> |b.sys.manifest| == |a.sys.manifest| + 1
    ensures FileLayout(b, NextMarks(a, b, marks))
  {
    hide NumbersBelow, EndNumber, LogOf;
  }

  // ----- What an installation keeps -----

  /** Below an entry in memory, every entry of its key is older; so if a marker is newest up to some snapshot
      without it, it is the newest of all in tables and immutable memtable. */
  lemma AllBelow(E: set<Entry>, k: Key, s: nat, t: nat)
    requires s <= t && forall e :: e in E && e.User() == k ==> e.Seq() <= s
    requires UniqueSeqs(E)
    ensures Read(E, k, t) == Read(E, k, s)
  {
    hide Read;
    var n := NewestExists(E, k, s);
    if n.Some? {
      assert NewestAt(E, k, t, n.value);
      ReadIsNewest(E, k, s, n.value);
      ReadIsNewest(E, k, t, n.value);
    } else {
      ReadIsNothing(E, k, s);
      ReadIsNothing(E, k, t);
    }
  }

  /** When memory hides a loss, it does so above every other entry of the key. */
  lemma HiddenAbove(v: Levels, level: nat, inputs: set<Entry>, mem: set<Entry>, rest: set<Entry>, S: nat, k: Key,
                    d: Entry, x: Entry)
    requires ResurrectsKey(v, level, inputs, rest, S, k, d, x) && !Resurrects(v, level, inputs, mem + rest, S)
    requires forall m, e :: m in mem && e in inputs + rest && m.User() == e.User() ==> m.Seq() > e.Seq()
    ensures forall e :: e in inputs + rest && e.User() == k ==> e.Seq() <= S
  {
    if forall m :: m in mem ==> !Visible(m, k, S) {
      UnseenHidesNothing(v, level, inputs, mem, rest, S, k, d, x);
    }
  }

  lemma UnseenHidesNothing(v: Levels, level: nat, inputs: set<Entry>, mem: set<Entry>, rest: set<Entry>, S: nat, k: Key,
                           d: Entry, x: Entry)
    requires ResurrectsKey(v, level, inputs, rest, S, k, d, x) && forall m :: m in mem ==> !Visible(m, k, S)
    ensures Resurrects(v, level, inputs, mem + rest, S)
  {
    assert NewestAt(inputs + (mem + rest), k, S, d) && NewestAt(mem + rest, k, S, x);
    assert ResurrectsKey(v, level, inputs, mem + rest, S, k, d, x);
  }

  /** For a compaction that loses no answer of the store, the answers of tables and immutable memtable alone
      survive exactly when no dropped marker was hiding a value among them. */
  lemma AnswersBelowMemoryIff(v: Levels, level: nat, inputs: set<Entry>, mem: set<Entry>, rest: set<Entry>, S: nat)
    requires UniqueSeqs(inputs + rest) && inputs !! rest && S <= MAX_SEQUENCE
    requires !Resurrects(v, level, inputs, mem + rest, S)
    requires forall m, e :: m in mem && e in inputs + rest && m.User() == e.User() ==> m.Seq() > e.Seq()
    ensures SameReads(Kept(v, level, inputs, S) + rest, inputs + rest) <==> !Resurrects(v, level, inputs, rest, S)
  {
    hide Read, Kept, UniqueSeqs, ResurrectsKey;
    var before, after := inputs + rest, Kept(v, level, inputs, S) + rest;
    if !Resurrects(v, level, inputs, rest, S) {
      AnswersSurviveIff(v, level, inputs, rest, S);
      forall k
        ensures Read(after, k, MAX_SEQUENCE) == Read(before, k, MAX_SEQUENCE)
      {
        assert SameAnswers(before, after, k, MAX_SEQUENCE);
      }
    } else {
      var k, d, x :| ResurrectsKey(v, level, inputs, rest, S, k, d, x);
      HiddenAbove(v, level, inputs, mem, rest, S, k, d, x);
      AnswerIsLost(v, level, inputs, rest, S, k, d, x);
      KeptIsLess(v, level, inputs, rest, S);
      AllBelow(before, k, S, MAX_SEQUENCE);
      AllBelow(after, k, S, MAX_SEQUENCE);
      assert Read(after, k, MAX_SEQUENCE) != Read(before, k, MAX_SEQUENCE);
    }
  }

  lemma KeptIsLess(v: Levels, level: nat, inputs: set<Entry>, rest: set<Entry>, S: nat)
    requires UniqueSeqs(inputs + rest)
    ensures Kept(v, level, inputs, S) + rest <= inputs + rest && UniqueSeqs(Kept(v, level, inputs, S) + rest)
  {
  }

  /** No marker that the pending compaction drops hides a value among tables and immutable memtable. */
  ghost predicate NothingHidden(a: Sys)
    requires a.db.pending.Some? && |a.db.levels| == NUM_LEVELS
  {
    var p := a.db.pending.value;
    !Resurrects(a.db.levels, p.inputs.level, InputEntries(p.inputs), ImmEntries(a.db) + OtherFiles(a.db.levels, p.inputs),
                p.smallestSnapshot)
  }

  ghost function Below(db: Db): set<Entry> {
    VersionEntries(db.levels) + ImmEntries(db)
  }

  /** Keys that have a value keep it. */
  ghost predicate ValuesStay(E: set<Entry>, F: set<Entry>) {
    forall k :: Read(E, k, MAX_SEQUENCE).Some? ==> Read(F, k, MAX_SEQUENCE) == Read(E, k, MAX_SEQUENCE)
  }

  /** The drop rules never drop the value that a key has. */
  lemma ValueIsKept(v: Levels, level: nat, inputs: set<Entry>, rest: set<Entry>, S: nat, k: Key)
    requires UniqueSeqs(inputs + rest) && S <= MAX_SEQUENCE && Read(inputs + rest, k, MAX_SEQUENCE).Some?
    ensures Read(Kept(v, level, inputs, S) + rest, k, MAX_SEQUENCE) == Read(inputs + rest, k, MAX_SEQUENCE)
  {
    hide Read;
    var before, after := inputs + rest, Kept(v, level, inputs, S) + rest;
    KeptIsLess(v, level, inputs, rest, S);
    var n := NewestExists(before, k, MAX_SEQUENCE);
    if n.None? {
      ReadIsNothing(before, k, MAX_SEQUENCE);
    } else {
      ReadIsNewest(before, k, MAX_SEQUENCE, n.value);
      NewestIsNotHidden(inputs, rest, S, k, MAX_SEQUENCE, n.value);
      assert NewestAt(after, k, MAX_SEQUENCE, n.value);
      ReadIsNewest(after, k, MAX_SEQUENCE, n.value);
    }
  }

  /** What an installation makes of tables and immutable memtable. */
  lemma InstalledBelow(a: Sys, b: Sys, outs: seq<File>)
    requires Inv(a) && Next(a, b, Install(outs))
    ensures VersionEntries(b.db.levels) <= VersionEntries(a.db.levels)
    ensures b.db.mem == a.db.mem && b.db.imm == a.db.imm
    ensures a.db.pending.Some? && |a.db.levels| == NUM_LEVELS
    ensures var p := a.db.pending.value;
            var inputs, rest := InputEntries(p.inputs), ImmEntries(a.db) + OtherFiles(a.db.levels, p.inputs);
            && p.smallestSnapshot <= MAX_SEQUENCE && UniqueSeqs(inputs + rest) && inputs !! rest
            && Below(a.db) == inputs + rest
            && Below(b.db) == Kept(a.db.levels, p.inputs.level, inputs, p.smallestSnapshot) + rest
            && !Resurrects(a.db.levels, p.inputs.level, inputs, Elements(a.db.mem) + rest, p.smallestSnapshot)
  {
    hide AnswersInv, SnapshotInv, ManifestInv, ValidLevels, StillClosed, OutputsFrom, UniqueSeqs, Kept, DeeperKept,
         ApplyEdit, AddingEdit, VersionEntries, FileEntries, OtherFiles, InputDeletions, MemoryInv, HistoryInv, OutputsFit,
         Resurrects, InputEntries, UnusedNumbers, AllWellFormed, PairwiseBefore, Elements, ImmEntries, MemoryNewer;
    var v, p := a.db.levels, a.db.pending.value;
    var c, S, imm := p.inputs, p.smallestSnapshot, ImmEntries(a.db);
    StateFacts(a);
    PendingFacts(a);
    OutputsAreFiles(a, outs);
    InstalledVersion(v, c, outs);
    OutputsStayInVersion(v, c, outs);
    ClosedFacts(v, c);
    InputsAreWellFormed(v, c);
    KeptIsTheSame(p.base, v, c, S);
    SameImm(a.db, b.db);
    MemoryParts(a);
    InputsAndRest(v, c, imm);
    var rest := imm + OtherFiles(v, c);
    assert Below(a.db) == InputEntries(c) + rest;
    assert Below(b.db) == Kept(v, c.level, InputEntries(c), S) + rest;
    assert Memory(a.db) + OtherFiles(v, c) == Elements(a.db.mem) + rest;
  }

  /** Exactly when an installation keeps what tables and immutable memtable answer. */
  lemma InstallKeepsBelowIff(a: Sys, b: Sys, outs: seq<File>)
    requires Inv(a) && Next(a, b, Install(outs))
    ensures VersionEntries(b.db.levels) <= VersionEntries(a.db.levels)
    ensures b.db.mem == a.db.mem && b.db.imm == a.db.imm
    ensures a.db.pending.Some? && |a.db.levels| == NUM_LEVELS
    ensures SameReads(Below(b.db), Below(a.db)) <==> NothingHidden(a)
  {
    hide Inv, Next, UniqueSeqs, Kept, VersionEntries, OtherFiles, InputEntries, Resurrects, SameReads, Elements, ImmEntries,
         Below;
    InstalledBelow(a, b, outs);
    MemoryParts(a);
    var v, p := a.db.levels, a.db.pending.value;
    AnswersBelowMemoryIff(v, p.inputs.level, InputEntries(p.inputs), Elements(a.db.mem),
                          ImmEntries(a.db) + OtherFiles(v, p.inputs), p.smallestSnapshot);
  }

  /** It never loses the value that a key has there. */
  lemma InstallKeepsValues(a: Sys, b: Sys, outs: seq<File>)
    requires Inv(a) && Next(a, b, Install(outs))
    ensures ValuesStay(Below(a.db), Below(b.db))
  {
    hide Inv, Next, UniqueSeqs, Kept, VersionEntries, OtherFiles, InputEntries, Resurrects, Elements, ImmEntries, Below,
         Read;
    InstalledBelow(a, b, outs);
    var v, p := a.db.levels, a.db.pending.value;
    forall k | Read(Below(a.db), k, MAX_SEQUENCE).Some?
      ensures Read(Below(b.db), k, MAX_SEQUENCE) == Read(Below(a.db), k, MAX_SEQUENCE)
    {
      ValueIsKept(v, p.inputs.level, InputEntries(p.inputs), ImmEntries(a.db) + OtherFiles(v, p.inputs),
                  p.smallestSnapshot, k);
    }
  }

  lemma MemoryParts(a: Sys)
    requires Inv(a)
    ensures MemoryNewer(ImmEntries(a.db), a.db.levels)
    ensures UniqueSeqs(VersionEntries(a.db.levels) + ImmEntries(a.db))
    ensures UniqueSeqs(ImmEntries(a.db) + VersionEntries(a.db.levels))
    ensures forall m, e :: m in Elements(a.db.mem) && e in Below(a.db) && m.User() == e.User() ==> m.Seq() > e.Seq()
  {
    hide SnapshotInv, AnswersInv, PendingInv, ManifestInv, FileInv, Sorted, VersionEntries, Elements;
  }

  /** Moving a file down keeps the entries of the tables. */
  lemma MovedTables(a: Sys, b: Sys, c: Inputs, f: File)
    requires Inv(a) && Next(a, b, Move(c, f))
    ensures VersionEntries(b.db.levels) == VersionEntries(a.db.levels)
  {
    hide AnswersInv, SnapshotInv, PendingInv, ManifestInv, ValidLevels, Closed, StillClosed, OutputsFrom, UniqueSeqs,
         ApplyEdit, AddingEdit, VersionEntries, FileEntries, OtherFiles, InputDeletions, MemoryInv, HistoryInv, OutputsFit;
    var v := a.db.levels;
    MemoryIsNewer(a);
    MovedFileFits(a, c, f);
    assert ValidLevels(v);
    LevelFacts(v);
    ClosedIsStillClosed(v, c);
    InstalledVersion(v, c, [f]);
    NoMemoryIsNewer(v);
    InputsAndRest(v, c, {});
    MovedEntries(c, f);
    assert {} + OtherFiles(v, c) == OtherFiles(v, c) && {} + VersionEntries(v) == VersionEntries(v);
  }

  lemma NoMemoryIsNewer(v: Levels)
    ensures MemoryNewer({}, v)
  {
  }

  // ----- Every step -----

  lemma OtherLayout(a: Commit, b: Commit, marks: Marks, step: Step)
    requires CommitInv(a) && MemLayout(a, marks) && CommitNext(a, b, Other(step))
    ensures MemLayout(b, NextMarks(a, b, marks))
  {
    hide CommitInv, MemLayout, Partial, VersionEntries, Inv, Resurrects, OutputsOf, OutputsFit, Closed,
         ApplyEdit, AddingEdit, InputDeletions, RoomAt, WellFormed, Installed, SameReads, Below, NothingHidden;
    StoreInv(a);
    OtherStepFacts(a.sys, b.sys, step);
    SamePartial(a, b);
    match step
    case Rotate => RotateLayout(a, b, marks);
    case Flush(level, f) => FlushLayout(a, b, marks, step);
    case FlushEmpty => FlushLayout(a, b, marks, step);
    case Move(c, f) =>
      MovedTables(a.sys, b.sys, c, f);
      QuietStep(a, b, marks);
    case Install(outs) =>
      InstallKeepsBelowIff(a.sys, b.sys, outs);
      QuietStep(a, b, marks);
    case _ => QuietStep(a, b, marks);
  }

  lemma StoreInv(c: Commit)
    requires CommitInv(c)
    ensures Inv(c.sys)
  {
    hide Inv, NumberInv, LogInv, QueueInv, ReplayInv, BoundaryInv;
  }

  lemma SameReadsOfSame(E: set<Entry>)
    ensures SameReads(E, E)
  {
  }

  /** Every step keeps the layout, whatever it installs. */
  lemma StepKeepsLayout(a: Commit, b: Commit, marks: Marks, step: CommitStep)
    requires CommitInv(a) && LayoutInv(a, marks) && CommitNext(a, b, step)
    ensures CommitInv(b) && LayoutInv(b, NextMarks(a, b, marks))
  {
    CommitStepKeeps(a, b, step);
    hide CommitInv, MemLayout, FileLayout;
    match step {
      case InsertNext => InsertLayout(a, b, marks);
      case Finish => FinishLayout(a, b, marks);
      case Other(s) => OtherLayout(a, b, marks, s);
      case AppendLog(result) =>
        AppendPartial(a, b, result);
        QuietStep(a, b, marks);
      case _ =>
        LeaderlessPartial(a, b, step);
        QuietStep(a, b, marks);
    }
    FilesKeepLayout(a, b, marks, step);
  }

  lemma AppendPartial(a: Commit, b: Commit, result: LogResult)
    requires CommitInv(a) && CommitNext(a, b, AppendLog(result))
    ensures Partial(b) == Partial(a)
  {
    hide Inv, LogInv, QueueInv, ReplayInv, BoundaryInv, Chained, NextNumber, GroupEntries;
    if b.leader.value.result.Logged? {
      assert b.leader.value.ops[..b.sys.db.inserted] == [];
    }
  }

  lemma LeaderlessPartial(a: Commit, b: Commit, step: CommitStep)
    requires CommitNext(a, b, step) && (step.Enqueue? || step.Lead? || step.Alone?)
    ensures Partial(b) == Partial(a) && b.sys == a.sys && b.groups == a.groups
  {
    hide IsGroup, Batches, EntriesOf;
  }

  // ----- What reopening answers -----

  /** What reopening puts together: the tables of the recovered version, and the records that are wholly in the
      log files that are replayed. */
  ghost function Reopened(c: Commit, marks: Marks, whole: nat): set<Entry>
    requires marks.replayFrom <= whole <= |c.log|
  {
    VersionEntries(c.sys.db.levels) + RecordEntries(c.log[marks.replayFrom..whole])
  }

  /** The log rises to its end, with the record at work or the one whose sync failed. */
  lemma WholeLogRises(c: Commit)
    requires CommitInv(c)
    ensures Rising(c.log) && forall i :: 0 <= i < |c.log| ==> c.log[i].first + |c.log[i].ops| < MAX_SEQUENCE
  {
    hide Inv, QueueInv, ReplayInv, BoundaryInv, Chained, NextNumber, GroupEntries, Partial, Rising, LogOf, EndNumber;
    GroupsRise(c);
    LogRises(c.groups);
    if c.log != LogOf(c.groups) {
      if c.leader.Some? {
        RisingMore(LogOf(c.groups), Record(c.sys.db.lastSequence + 1, c.leader.value.ops));
      } else {
        var n := |c.groups| - 1;
        FailedGroupLogsNothing(c.groups);
        ChainedFront(c.groups);
        LogRises(c.groups[..n]);
        RisingMore(LogOf(c.groups), Record(c.groups[n].first, c.groups[n].ops));
      }
    }
  }

  lemma FailedGroupLogsNothing(groups: seq<Group>)
    requires groups != [] && !groups[|groups| - 1].ok
    ensures LogOf(groups) == LogOf(groups[..|groups| - 1])
  {
  }

  lemma LogStarts(c: Commit)
    requires CommitInv(c)
    ensures LogOf(c.groups) <= c.log
  {
    LogFacts(c);
  }

  /** Reads of the reopened store at `s` or later answer as the operations wholly in the log. */
  ghost predicate ReopensAs(c: Commit, marks: Marks, whole: nat)
    requires marks.replayFrom <= whole <= |c.log|
  {
    forall k, s: nat :: s + 1 >= EndNumber(c.log[..whole]) ==>
      Read(Reopened(c, marks, whole), k, s) == AfterOps(LogOps(c.log[..whole]), k, None)
  }

  /** Wherever the end of the current log was lost, reopening answers right. */
  ghost predicate ReopensRight(c: Commit, marks: Marks) {
    forall whole: nat {:trigger ReopensAs(c, marks, whole)} ::
      marks.replayFrom <= marks.memFrom <= whole <= |c.log| ==> ReopensAs(c, marks, whole)
  }

  /** Entries that answer as some first records, with those of the later records, answer as all. */
  lemma MoreRecords(tables: set<Entry>, rs: seq<Record>, n: nat)
    requires Rising(rs) && n <= |rs| && tables <= RecordEntries(rs[..n]) && SameReads(tables, RecordEntries(rs[..n]))
    ensures SameReads(tables + RecordEntries(rs[n..]), RecordEntries(rs))
    ensures EndNumber(rs) >= 1 && Bounded(tables + RecordEntries(rs[n..]), EndNumber(rs) - 1)
  {
    hide Read, EntriesOf, RecordEntries, Rising, EndNumber, LogOps, AfterOps;
    var H, N := RecordEntries(rs[..n]), RecordEntries(rs[n..]);
    assert rs == rs[..n] + rs[n..];
    RecordsConcat(rs[..n], rs[n..]);
    RecordsAct(rs);
    RisingFront(rs, n);
    RecordsAct(rs[..n]);
    LaterIsNewer(rs, n);
    forall k
      ensures Read(tables + N, k, MAX_SEQUENCE) == Read(H + N, k, MAX_SEQUENCE)
    {
      NewerDecides(tables, H, N, k, MAX_SEQUENCE);
    }
  }

  /** The tables with the replayed part of the log up to the switch are tables and immutable memtable. */
  lemma ReopenedParts(c: Commit, marks: Marks, whole: nat)
    requires CommitInv(c) && LayoutInv(c, marks) && marks.memFrom <= whole <= |c.log|
    ensures marks.replayFrom <= marks.memFrom && c.log[..whole][..marks.memFrom] == LogOf(c.groups)[..marks.memFrom]
    ensures Reopened(c, marks, whole) == Below(c.sys.db) + RecordEntries(c.log[..whole][marks.memFrom..])
    ensures Below(c.sys.db) <= RecordEntries(c.log[..whole][..marks.memFrom])
  {
    hide CommitInv, FileLayout, RecordEntries, VersionEntries, Elements, ImmEntries, Partial, LogOf;
    LogStarts(c);
    var log, from, mid := c.log, marks.replayFrom, marks.memFrom;
    assert log[..whole][..mid] == LogOf(c.groups)[..mid] == log[..from] + log[from..mid];
    assert LogOf(c.groups)[from..mid] == log[from..mid] && LogOf(c.groups)[..from] == log[..from];
    assert log[..whole][mid..] == log[mid..whole] && log[from..whole] == log[from..mid] + log[mid..whole];
    RecordsConcat(log[from..mid], log[mid..whole]);
    RecordsConcat(log[..from], log[from..mid]);
  }

  /** With the log kept up to the switch, whatever of the current log is there decides what reopening answers. */
  lemma KeptReopens(c: Commit, marks: Marks, whole: nat)
    requires CommitInv(c) && LayoutInv(c, marks) && LogKept(c, marks)
    requires marks.replayFrom <= marks.memFrom <= whole <= |c.log|
    ensures ReopensAs(c, marks, whole)
    ensures SameReads(Reopened(c, marks, whole), RecordEntries(c.log[..whole]))
    ensures EndNumber(c.log[..whole]) >= 1 && Bounded(Reopened(c, marks, whole), EndNumber(c.log[..whole]) - 1)
  {
    hide CommitInv, LayoutInv, Read, RecordEntries, Rising, LogOps, AfterOps, VersionEntries, EndNumber, UniqueSeqs,
         Reopened, Below, LogOf, SameReads, Bounded;
    var rs := c.log[..whole];
    WholeLogRises(c);
    RisingFront(c.log, whole);
    ReopenedParts(c, marks, whole);
    KeptBelow(c, marks);
    MoreRecords(Below(c.sys.db), rs, marks.memFrom);
    RecordsAct(rs);
    forall k, s: nat | s + 1 >= EndNumber(rs)
      ensures Read(Reopened(c, marks, whole), k, s) == AfterOps(LogOps(rs), k, None)
    {
      ReadsAtTheEnd(Reopened(c, marks, whole), rs, k, s);
    }
  }

  lemma KeptBelow(c: Commit, marks: Marks)
    requires LogKept(c, marks)
    ensures marks.memFrom <= |LogOf(c.groups)|
    ensures SameReads(Below(c.sys.db), RecordEntries(LogOf(c.groups)[..marks.memFrom]))
  {
    hide SameReads, VersionEntries, RecordEntries, LogOf, ImmEntries;
  }

  lemma ReadsAtTheEnd(E: set<Entry>, rs: seq<Record>, k: Key, s: nat)
    requires SameReads(E, RecordEntries(rs)) && 1 <= EndNumber(rs) <= s + 1
    requires Bounded(E, EndNumber(rs) - 1) && Bounded(RecordEntries(rs), EndNumber(rs) - 1)
    requires forall i :: 0 <= i < |rs| ==> rs[i].first + |rs[i].ops| < MAX_SEQUENCE
    ensures Read(E, k, s) == Read(RecordEntries(rs), k, EndNumber(rs) - 1)
  {
    hide Read, RecordEntries;
    ReadAbove(E, k, EndNumber(rs) - 1, s);
    ReadAbove(E, k, EndNumber(rs) - 1, MAX_SEQUENCE);
    ReadAbove(RecordEntries(rs), k, EndNumber(rs) - 1, MAX_SEQUENCE);
    assert Read(E, k, MAX_SEQUENCE) == Read(RecordEntries(rs), k, MAX_SEQUENCE);
  }

  /** Exactly when a crash is harmless: reopening answers right, wherever the current log was cut, if and only if
      tables and immutable memtable answer as the log up to the last switch. */
  lemma ReopensRightIff(c: Commit, marks: Marks)
    requires CommitInv(c) && LayoutInv(c, marks)
    ensures ReopensRight(c, marks) <==> LogKept(c, marks)
  {
    hide CommitInv, LayoutInv, LogKept, ReopensAs;
    if LogKept(c, marks) {
      forall whole: nat | marks.replayFrom <= marks.memFrom <= whole <= |c.log|
        ensures ReopensAs(c, marks, whole)
      {
        KeptReopens(c, marks, whole);
      }
    }
    if ReopensRight(c, marks) {
      LogStarts(c);
      LayoutBounds(c, marks);
      assert ReopensAs(c, marks, marks.memFrom);
      RightIsKept(c, marks);
    }
  }

  lemma LayoutBounds(c: Commit, marks: Marks)
    requires LayoutInv(c, marks)
    ensures marks.replayFrom <= marks.memFrom <= |LogOf(c.groups)|
  {
    hide FileLayout, RecordEntries, VersionEntries, Elements, LogOf;
  }

  lemma RightIsKept(c: Commit, marks: Marks)
    requires CommitInv(c) && LayoutInv(c, marks) && marks.replayFrom <= marks.memFrom <= |c.log|
    requires ReopensAs(c, marks, marks.memFrom)
    ensures LogKept(c, marks)
  {
    hide CommitInv, LayoutInv, Read, RecordEntries, Rising, LogOps, AfterOps, VersionEntries, EndNumber, UniqueSeqs,
         Below, ImmEntries, LogOf;
    var n := marks.memFrom;
    var rs := c.log[..n];
    LogStarts(c);
    LayoutBounds(c, marks);
    WholeLogRises(c);
    RisingFront(c.log, n);
    RecordsAct(rs);
    ReopenedParts(c, marks, n);
    assert rs[..n] == rs && rs[n..] == [];
    NoElements();
    assert Reopened(c, marks, n) == Below(c.sys.db) by { BelowAndNothing(c, marks); }
    EndIsVisible(c.log, n);
    forall k
      ensures Read(Below(c.sys.db), k, MAX_SEQUENCE) == Read(RecordEntries(rs), k, MAX_SEQUENCE)
    {
      ReadAbove(RecordEntries(rs), k, EndNumber(rs) - 1, MAX_SEQUENCE);
    }
    BelowIs(c.sys.db);
  }

  lemma BelowIs(db: Db)
    ensures Below(db) == VersionEntries(db.levels) + ImmEntries(db)
  {
  }

  lemma BelowAndNothing(c: Commit, marks: Marks)
    requires marks.replayFrom <= marks.memFrom <= |c.log| && RecordEntries([]) == {}
    requires Reopened(c, marks, marks.memFrom) == Below(c.sys.db) + RecordEntries(c.log[..marks.memFrom][marks.memFrom..])
    ensures Reopened(c, marks, marks.memFrom) == Below(c.sys.db)
  {
    hide RecordEntries, Below, VersionEntries;
    assert c.log[..marks.memFrom][marks.memFrom..] == [];
  }

  lemma EndIsVisible(log: seq<Record>, n: nat)
    requires n <= |log| && forall i :: 0 <= i < |log| ==> log[i].first + |log[i].ops| < MAX_SEQUENCE
    ensures EndNumber(log[..n]) <= MAX_SEQUENCE
  {
  }

  // ----- What keeps the log kept -----

  /** Exactly when an installation keeps it. */
  lemma InstallKeepsLogIff(a: Commit, b: Commit, outs: seq<File>, marks: Marks)
    requires CommitInv(a) && LayoutInv(a, marks) && LogKept(a, marks) && CommitNext(a, b, Other(Install(outs)))
    ensures a.sys.db.pending.Some? && |a.sys.db.levels| == NUM_LEVELS
    ensures LogKept(b, NextMarks(a, b, marks)) <==> NothingHidden(a.sys)
  {
    hide CommitInv, LayoutInv, RecordEntries, VersionEntries, LogOf, Below, NothingHidden, Inv, Read, Resurrects,
         OutputsOf, OutputsFit, Installed;
    StoreInv(a);
    InstallKeepsBelowIff(a.sys, b.sys, outs);
    BelowIs(a.sys.db);
    BelowIs(b.sys.db);
    assert NextMarks(a, b, marks).memFrom == marks.memFrom && b.groups == a.groups;
  }

  /** Every other step keeps it. */
  lemma StepKeepsLog(a: Commit, b: Commit, marks: Marks, step: CommitStep)
    requires CommitInv(a) && LayoutInv(a, marks) && LogKept(a, marks) && CommitNext(a, b, step)
    requires !(step.Other? && step.step.Install?)
    ensures LogKept(b, NextMarks(a, b, marks))
  {
    hide CommitInv, MemLayout, FileLayout, RecordEntries, VersionEntries, LogOf, Below, SameReads, Inv;
    StoreInv(a);
    CommitShape(a, b, step);
    LayoutBounds(a, marks);
    BelowIs(a.sys.db);
    BelowIs(b.sys.db);
    if step == Other(Rotate) {
      RotateRestoresLog(a, b, marks);
    } else {
      BelowStays(a, b, step);
      assert LogOf(b.groups)[..marks.memFrom] == LogOf(a.groups)[..marks.memFrom];
      assert NextMarks(a, b, marks).memFrom == marks.memFrom;
    }
  }

  /** A switch of memtables makes it true, whatever was hidden before: tables and immutable memtable are then the
      whole store. */
  lemma RotateRestoresLog(a: Commit, b: Commit, marks: Marks)
    requires CommitInv(a) && LayoutInv(a, marks) && CommitNext(a, b, Other(Rotate))
    ensures LogKept(b, NextMarks(a, b, marks))
  {
    hide CommitInv, LayoutInv, CommitNext, RecordEntries, VersionEntries, LogOf, ImmEntries, Read, Inv, Store, Bounded,
         Partial, Below;
    RotatedStore(a, b, marks);
    RotateGroups(a, b);
    StoreInv(a);
    HistoryIsLogged(a);
    StoreIsBounded(a.sys);
    var log, last := LogOf(a.groups), a.sys.db.lastSequence;
    assert log[..|a.log|] == log;
    forall k
      ensures Read(Store(a.sys.db), k, MAX_SEQUENCE) == Read(RecordEntries(log), k, MAX_SEQUENCE)
    {
      BoundedRead(Store(a.sys.db), k, last);
      BoundedRead(RecordEntries(log), k, last);
      ReadableIsExact(a.sys, k, last);
    }
    BelowIs(b.sys.db);
  }

  lemma BoundedRead(E: set<Entry>, k: Key, last: nat)
    requires Bounded(E, last) && last <= MAX_SEQUENCE
    ensures Read(E, k, MAX_SEQUENCE) == Read(E, k, last)
  {
    hide Read, UniqueSeqs;
    ReadAbove(E, k, last, MAX_SEQUENCE);
  }

  lemma RotatedStore(a: Commit, b: Commit, marks: Marks)
    requires CommitInv(a) && LayoutInv(a, marks) && CommitNext(a, b, Other(Rotate))
    ensures Below(b.sys.db) == Store(a.sys.db) && a.sys.db.inserted == 0
    ensures a.log == LogOf(a.groups) && Partial(a) == {}
  {
    hide Inv, QueueInv, ReplayInv, BoundaryInv, RecordEntries, VersionEntries, EntriesOf, LogOf, NumberInv, Elements,
         Partial, FileLayout;
    NothingPartial(a);
    NoElements();
  }

  lemma HistoryIsLogged(c: Commit)
    requires CommitInv(c) && Partial(c) == {}
    ensures c.sys.history == RecordEntries(LogOf(c.groups))
  {
    hide Inv, QueueInv, ReplayInv, BoundaryInv, LogInv, RecordEntries, LogOf, GroupEntries, Chained, NextNumber, Partial;
    LoggedEntries(c.groups);
  }

  lemma StoreIsBounded(a: Sys)
    requires Inv(a) && a.db.inserted == 0
    ensures Bounded(Store(a.db), a.db.lastSequence) && Bounded(a.history, a.db.lastSequence)
    ensures a.db.lastSequence <= MAX_SEQUENCE
  {
    hide SnapshotInv, AnswersInv, PendingInv, ManifestInv, FileInv, MemoryInv, Store;
  }

  lemma BelowStays(a: Commit, b: Commit, step: CommitStep)
    requires Inv(a.sys) && CommitNext(a, b, step) && step != Other(Rotate) && !(step.Other? && step.step.Install?)
    ensures Below(b.sys.db) == Below(a.sys.db)
    ensures a.sys.db.imm.None? ==> b.sys.db.imm.None?
  {
    hide Inv, VersionEntries, Elements, ApplyEdit, AddingEdit, RoomAt, WellFormed, Closed, InputDeletions;
    if step.Other? {
      if step.step.Flush? || step.step.FlushEmpty? {
        FlushedTables(a.sys, b.sys, step.step);
      } else if step.step.Move? {
        MovedTables(a.sys, b.sys, step.step.c, step.step.f);
      }
    }
  }

  // ----- What is never lost -----

  /** Tables and immutable memtable have every value that the log up to the last switch gives a key. */
  ghost predicate ValuesKept(c: Commit, marks: Marks) {
    marks.memFrom <= |LogOf(c.groups)| &&
    ValuesStay(RecordEntries(LogOf(c.groups)[..marks.memFrom]), Below(c.sys.db))
  }

  lemma KeptHasValues(c: Commit, marks: Marks)
    requires LogKept(c, marks)
    ensures ValuesKept(c, marks)
  {
    hide Read, RecordEntries, VersionEntries, LogOf, ImmEntries;
  }

  /** Every step keeps the values, whatever it hides. */
  lemma StepKeepsValues(a: Commit, b: Commit, marks: Marks, step: CommitStep)
    requires CommitInv(a) && LayoutInv(a, marks) && ValuesKept(a, marks) && CommitNext(a, b, step)
    ensures ValuesKept(b, NextMarks(a, b, marks))
  {
    hide CommitInv, LayoutInv, RecordEntries, LogOf, Below, Inv, Read;
    if step == Other(Rotate) {
      RotateRestoresLog(a, b, marks);
      KeptHasValues(b, NextMarks(a, b, marks));
    } else {
      MoreBelow(a, b, marks, step);
    }
  }

  /** Any other step leaves the part of the log in question alone, and the values below memory. */
  lemma MoreBelow(a: Commit, b: Commit, marks: Marks, step: CommitStep)
    requires CommitInv(a) && LayoutInv(a, marks) && CommitNext(a, b, step) && step != Other(Rotate)
    ensures NextMarks(a, b, marks).memFrom == marks.memFrom <= |LogOf(a.groups)| <= |LogOf(b.groups)|
    ensures LogOf(b.groups)[..marks.memFrom] == LogOf(a.groups)[..marks.memFrom]
    ensures ValuesStay(Below(a.sys.db), Below(b.sys.db))
  {
    hide CommitInv, LayoutInv, RecordEntries, VersionEntries, LogOf, Below, Inv, Read, Next;
    StoreInv(a);
    CommitShape(a, b, step);
    LayoutBounds(a, marks);
    if step.Other? && step.step.Install? {
      InstallKeepsValues(a.sys, b.sys, step.step.outs);
    } else {
      BelowStays(a, b, step);
    }
  }

  /** What was hidden stays hidden until the next switch of memtables. */
  lemma HiddenStaysHidden(a: Commit, b: Commit, marks: Marks, step: CommitStep)
    requires CommitInv(a) && LayoutInv(a, marks) && ValuesKept(a, marks) && !LogKept(a, marks)
    requires CommitNext(a, b, step) && step != Other(Rotate)
    ensures !LogKept(b, NextMarks(a, b, marks))
  {
    hide CommitInv, LayoutInv, CommitNext, RecordEntries, VersionEntries, LogOf, Below, ImmEntries, Read, NextMarks;
    MoreBelow(a, b, marks, step);
    BelowIs(a.sys.db);
    BelowIs(b.sys.db);
    var E := RecordEntries(LogOf(a.groups)[..marks.memFrom]);
    var k :| Read(Below(a.sys.db), k, MAX_SEQUENCE) != Read(E, k, MAX_SEQUENCE);
    assert Read(Below(b.sys.db), k, MAX_SEQUENCE) != Read(E, k, MAX_SEQUENCE);
  }

  lemma NewerKeepsValue(A: set<Entry>, H: set<Entry>, N: set<Entry>, k: Key)
    requires UniqueSeqs(A + N) && UniqueSeqs(H + N) && ValuesStay(H, A)
    requires forall n, e :: n in N && e in A + H ==> n.Seq() > e.Seq()
    ensures Read(H + N, k, MAX_SEQUENCE).Some? ==> Read(A + N, k, MAX_SEQUENCE) == Read(H + N, k, MAX_SEQUENCE)
  {
    hide Read;
    var n := NewestExists(N, k, MAX_SEQUENCE);
    if n.Some? {
      assert NewestAt(A + N, k, MAX_SEQUENCE, n.value) && NewestAt(H + N, k, MAX_SEQUENCE, n.value);
      ReadIsNewest(A + N, k, MAX_SEQUENCE, n.value);
      ReadIsNewest(H + N, k, MAX_SEQUENCE, n.value);
    } else {
      ReadSame(A + N, A, k, MAX_SEQUENCE);
      ReadSame(H + N, H, k, MAX_SEQUENCE);
    }
  }

  /** A crash loses no value: a key that has one after the operations wholly in the log reads as it, whether the
      crash is harmless or not. */
  lemma CrashLosesNoValue(c: Commit, marks: Marks, whole: nat, k: Key, s: nat)
    requires CommitInv(c) && LayoutInv(c, marks) && ValuesKept(c, marks)
    requires marks.replayFrom <= marks.memFrom <= whole <= |c.log| && s + 1 >= EndNumber(c.log[..whole])
    requires AfterOps(LogOps(c.log[..whole]), k, None).Some?
    ensures Read(Reopened(c, marks, whole), k, s) == AfterOps(LogOps(c.log[..whole]), k, None)
  {
    hide CommitInv, LayoutInv, Read, RecordEntries, Rising, LogOps, AfterOps, VersionEntries, EndNumber, UniqueSeqs,
         Reopened, Below, LogOf, ValuesStay;
    var rs, mid := c.log[..whole], marks.memFrom;
    WholeLogRises(c);
    RisingFront(c.log, whole);
    EndIsVisible(c.log, whole);
    RecordsAct(rs);
    ReopenedParts(c, marks, whole);
    assert rs == rs[..mid] + rs[mid..];
    RecordsConcat(rs[..mid], rs[mid..]);
    RisingFront(rs, mid);
    RecordsAct(rs[..mid]);
    LaterIsNewer(rs, mid);
    var A, H, N := Below(c.sys.db), RecordEntries(rs[..mid]), RecordEntries(rs[mid..]);
    BoundedPart(A + N, H + N, EndNumber(rs) - 1);
    NewerKeepsValue(A, H, N, k);
    BoundedRead(H + N, k, EndNumber(rs) - 1);
    BoundedRead(A + N, k, EndNumber(rs) - 1);
    ReadAbove(A + N, k, EndNumber(rs) - 1, s);
  }

  lemma BoundedPart(E: set<Entry>, F: set<Entry>, last: nat)
    requires Bounded(F, last) && E <= F
    ensures Bounded(E, last)
  {
  }

  /** An installation whose lower inputs nothing continues keeps it. */
  lemma NoContinuationHidesNothing(a: Sys)
    requires Inv(a) && a.db.pending.Some? && |a.db.levels| == NUM_LEVELS
    requires a.db.pending.value.inputs.level + 1 < NUM_LEVELS
    requires NoContinuation(a.db.levels, a.db.pending.value.inputs)
    ensures NothingHidden(a)
  {
    hide Inv, Next, ValidLevels, StillClosed, NoContinuation, MemoryInv, VersionEntries, UniqueSeqs, InputEntries,
         OtherFiles, Resurrects, ImmEntries, MemoryNewer;
    var p := a.db.pending.value;
    StateFacts(a);
    PendingFacts(a);
    MemoryParts(a);
    ClosedNeverResurrects(a.db.levels, p.inputs, ImmEntries(a.db), p.smallestSnapshot);
  }

  // ----- What those operations are -----

  lemma {:induction false} LogPrefix(groups: seq<Group>, whole: nat) returns (j: nat)
    requires whole <= |LogOf(groups)|
    ensures j <= |groups| && LogOf(groups)[..whole] == LogOf(groups[..j])
  {
    if whole == |LogOf(groups)| {
      j := |groups|;
      assert groups[..j] == groups && LogOf(groups)[..whole] == LogOf(groups);
    } else {
      var n := |groups| - 1;
      assert LogOf(groups[..n]) <= LogOf(groups);
      j := LogPrefix(groups[..n], whole);
      assert groups[..n][..j] == groups[..j];
      assert LogOf(groups)[..whole] == LogOf(groups[..n])[..whole];
    }
  }

  /** The operations in the log are those of the batches acknowledged up to some point of the queue, or, when
      the log is complete, of all acknowledged batches and at most one unacknowledged group more. */
  lemma LogIsAcknowledged(c: Commit, whole: nat)
    requires CommitInv(c) && whole <= |c.log|
    ensures |c.outcomes| <= |c.requests|
    ensures (exists n :: 0 <= n <= |c.outcomes| && HoldsUpTo(c, whole, n))
         || (whole == |c.log| && whole > 0 &&
             LogOps(c.log) == Acknowledged(c.requests, c.outcomes) + c.log[whole - 1].ops)
  {
    hide CommitInv, LogOps, Acknowledged, GroupOps, LogOf, EndOf;
    QueueFacts(c);
    LogFacts(c);
    if whole <= |LogOf(c.groups)| {
      var j := LogPrefix(c.groups, whole);
      assert c.log[..whole] == LogOf(c.groups)[..whole];
      LoggedGroups(c.groups[..j]);
      assert HoldsUpTo(c, whole, EndOf(c.groups[..j]));
    } else {
      LoggedGroups(c.groups);
      LastRecord(LogOf(c.groups), c.log);
    }
  }

  ghost predicate HoldsUpTo(c: Commit, whole: nat, n: nat)
    requires whole <= |c.log| && n <= |c.outcomes| <= |c.requests|
  {
    LogOps(c.log[..whole]) == Acknowledged(c.requests, c.outcomes[..n])
  }
}
