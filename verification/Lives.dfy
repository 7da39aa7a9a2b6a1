/** Stores that live on across crashes: what DB::Open makes of the bytes on disk is a store that satisfies the
    whole invariant again, with what is wholly in the log as its past (db/db_impl.cc: Open, Recover). */
module Lives {
  import opened InternalKeys
  import opened Operations
  import opened Versions
  import opened Builders
  import opened Manifest
  import opened ManifestSnapshot
  import opened CompactionInputs
  import opened CompactionMeaning
  import opened VersionEdits
  import opened StateMachine
  import opened Safety
  import opened PendingCompactions
  import opened GroupCommit
  import opened CommitReads
  import opened CrashRecovery

  // ----- The past that a log tells -----

  const BLANK := Delete(0)

  function Blanks(n: nat): (ops: seq<Op>)
    ensures |ops| == n
  {
    seq(n, _ => BLANK)
  }

  /** Numbers that are used up but not in the log count as a failed group. */
  function Fill(groups: seq<Group>, next: nat): seq<Group> {
    if NextNumber(groups) >= next then groups
    else groups + [Group(NextNumber(groups), |groups|, |groups| + 1, Blanks(next - NextNumber(groups)), false)]
  }

  /** The groups that a log tells of: one for each record, and one for each gap in the numbers. */
  function GroupsOfLog(rs: seq<Record>): seq<Group> {
    if rs == [] then []
    else
      var r := rs[|rs| - 1];
      var before := Fill(GroupsOfLog(rs[..|rs| - 1]), r.first);
      before + [Group(r.first, |before|, |before| + 1, r.ops, true)]
  }

  function RequestsOf(groups: seq<Group>): (q: seq<Request>)
    ensures |q| == |groups|
  {
    seq(|groups|, i requires 0 <= i < |groups| => Request(Some(groups[i].ops), 0, false))
  }

  function OutcomesOf(groups: seq<Group>): (o: seq<bool>)
    ensures |o| == |groups|
  {
    seq(|groups|, i requires 0 <= i < |groups| => groups[i].ok)
  }

  /** Each group serves one request. */
  ghost predicate OneEach(groups: seq<Group>) {
    forall i :: 0 <= i < |groups| ==> groups[i].from == i && groups[i].to == i + 1
  }

  ghost predicate Past(groups: seq<Group>, rs: seq<Record>, next: nat) {
    OneEach(groups) && Chained(groups) && LogOf(groups) == rs && NextNumber(groups) == next
  }

  lemma GroupJoins(groups: seq<Group>, g: Group)
    requires OneEach(groups) && Chained(groups) && g.first == NextNumber(groups)
    requires g.from == |groups| && g.to == |groups| + 1
    ensures OneEach(groups + [g]) && Chained(groups + [g])
    ensures LogOf(groups + [g]) == LogOf(groups) + if g.ok then [Record(g.first, g.ops)] else []
    ensures NextNumber(groups + [g]) == g.first + |g.ops|
  {
    hide NextNumber;
    var all := groups + [g];
    assert all[..|groups|] == groups;
    forall i | 0 <= i < |all|
      ensures all[i].first == NextNumber(all[..i])
    {
      if i < |groups| {
        assert all[..i] == groups[..i];
      }
    }
    NextAfter(groups, g);
  }

  lemma NextAfter(groups: seq<Group>, g: Group)
    ensures NextNumber(groups + [g]) == g.first + |g.ops|
  {
  }

  lemma FillIsPast(groups: seq<Group>, rs: seq<Record>, next: nat)
    requires Past(groups, rs, NextNumber(groups)) && NextNumber(groups) <= next
    ensures Past(Fill(groups, next), rs, next)
  {
    hide OneEach, Chained, LogOf, NextNumber;
    if NextNumber(groups) < next {
      GroupJoins(groups, Group(NextNumber(groups), |groups|, |groups| + 1, Blanks(next - NextNumber(groups)), false));
      assert rs + [] == rs;
    }
  }

  lemma PastJoins(before: seq<Group>, init: seq<Record>, r: Record)
    requires Past(before, init, r.first)
    ensures Past(before + [Group(r.first, |before|, |before| + 1, r.ops, true)], init + [r], r.first + |r.ops|)
  {
    hide OneEach, Chained, LogOf, NextNumber;
    GroupJoins(before, Group(r.first, |before|, |before| + 1, r.ops, true));
  }

  lemma {:induction false} LogIsPast(rs: seq<Record>)
    requires Rising(rs)
    ensures Past(GroupsOfLog(rs), rs, EndNumber(rs))
  {
    hide Past, EndNumber, Rising, Fill;
    if rs == [] {
      NothingIsPast();
    } else {
      var init, r := rs[..|rs| - 1], rs[|rs| - 1];
      assert rs == init + [r];
      RisingFront(rs, |init|);
      LogIsPast(init);
      LastRises(rs);
      LastEnds(init, r);
      var before := GroupsOfLog(init);
      PastParts(before, init, EndNumber(init));
      FillIsPast(before, init, r.first);
      PastJoins(Fill(before, r.first), init, r);
    }
  }

  lemma NothingIsPast()
    ensures Past([], [], EndNumber([]))
  {
  }

  // ----- Which is a queue of served writers -----

  lemma EndsAt(groups: seq<Group>, i: nat)
    requires OneEach(groups) && i <= |groups|
    ensures EndOf(groups[..i]) == i
  {
  }

  lemma {:induction false} PastAcknowledged(groups: seq<Group>, i: nat)
    requires i <= |groups|
    ensures GroupOps(groups[..i]) == Acknowledged(RequestsOf(groups), OutcomesOf(groups)[..i])
  {
    if i > 0 {
      PastAcknowledged(groups, i - 1);
      assert groups[..i][..i - 1] == groups[..i - 1];
      assert OutcomesOf(groups)[..i][..i - 1] == OutcomesOf(groups)[..i - 1];
    }
  }

  lemma PastQueue(groups: seq<Group>)
    requires OneEach(groups)
    ensures QueueInv(RequestsOf(groups), OutcomesOf(groups), groups, None)
    ensures ReplayInv(RequestsOf(groups), OutcomesOf(groups), groups)
  {
    hide OneEach, GroupOps, Acknowledged, EndOf, Served;
    var q, o := RequestsOf(groups), OutcomesOf(groups);
    assert groups[..|groups|] == groups && o[..|groups|] == o;
    forall i | 0 <= i <= |groups|
      ensures EndOf(groups[..i]) == i && GroupOps(groups[..i]) == Acknowledged(q, o[..i])
    {
      EndsAt(groups, i);
      PastAcknowledged(groups, i);
    }
    forall i | 0 <= i < |groups|
      ensures groups[i].from == i && Served(q, o, groups[i])
    {
      PastServed(groups, i);
    }
  }

  lemma PastServed(groups: seq<Group>, i: nat)
    requires OneEach(groups) && i < |groups|
    ensures groups[i].from == i && Served(RequestsOf(groups), OutcomesOf(groups), groups[i])
  {
    var q := RequestsOf(groups);
    assert q[i..i + 1] == [q[i]] && [q[i]][..0] == [];
    assert Batches([q[i]]) == [] + groups[i].ops;
  }

  // ----- The store that reopening makes -----

  /** The last sequence number of a reopened store: the logged one, or that of the last record replayed. */
  function LastReplayed(marks: Marks, rs: seq<Record>): nat
    requires marks.stamps != []
  {
    var logged := marks.stamps[|marks.stamps| - 1].lastSequence;
    if logged + 1 >= EndNumber(rs) then logged else EndNumber(rs) - 1
  }

  /** The tables that recovery writes: everything replayed, in files that get newer and newer. */
  ghost predicate HoldsReplayed(files: seq<File>, replayed: set<Entry>, from: nat, newLog: nat) {
    && AllWellFormed(files) && FileEntries(files) == replayed
    && (forall i :: 0 <= i < |files| ==> from <= files[i].number < newLog)
    && (forall i, j :: 0 <= i < j < |files| ==> files[i].number < files[j].number && FileNewer(files[j], files[i]))
  }

  /** What DB::Open makes of a crashed store of whose log the first `whole` records are there. */
  ghost function Reborn(c: Commit, marks: Marks, whole: nat, files: seq<File>, newLog: nat): Commit
    requires whole <= |c.log| && marks.stamps != [] && |c.sys.db.levels| == NUM_LEVELS
  {
    var rs := c.log[..whole];
    var last := LastReplayed(marks, rs);
    var groups := Fill(GroupsOfLog(rs), last + 1);
    var e := AddingEdit({}, 0, files);
    var db := Db([], None, ApplyEdit(c.sys.db.levels, e), last, 0, [], newLog + 1, None);
    Commit(Sys(db, RecordEntries(rs), last, [SnapshotEdit(c.sys.db.levels), e]), RequestsOf(groups), OutcomesOf(groups),
           groups, None, rs, false)
  }

  function RebornMarks(marks: Marks, whole: nat, newLog: nat, last: nat): Marks {
    Marks(whole, whole, newLog, newLog, marks.obsolete + {marks.logNumber, marks.memLog},
          [Stamp(newLog + 1, newLog, last)])
  }

  /** What can be reopened from: part of the current log, and new numbers for tables and log. */
  ghost predicate Reopenable(c: Commit, marks: Marks, whole: nat, files: seq<File>, newLog: nat) {
    && marks.replayFrom <= marks.memFrom <= whole <= |c.log| && marks.stamps != [] && |c.sys.db.levels| == NUM_LEVELS
    && HoldsReplayed(files, RecordEntries(c.log[marks.replayFrom..whole]),
                     marks.stamps[|marks.stamps| - 1].nextFile + 1, newLog)
    && marks.memLog < newLog && marks.stamps[|marks.stamps| - 1].nextFile < newLog
  }

  // ----- It is a store again -----

  lemma RisingNumbers(files: seq<File>)
    requires forall i, j :: 0 <= i < j < |files| ==> files[i].number < files[j].number
    ensures DistinctNumbers(files)
  {
  }

  /** Everything replayed is newer than everything in the tables. */
  lemma ReplayedIsNewer(c: Commit, marks: Marks, whole: nat, f: File, g: File, l: nat)
    requires CommitInv(c) && LayoutInv(c, marks) && marks.replayFrom <= whole <= |c.log|
    requires Elements(f.entries) <= RecordEntries(c.log[marks.replayFrom..whole])
    requires l < |c.sys.db.levels| && g in c.sys.db.levels[l]
    ensures FileNewer(f, g)
  {
    hide CommitInv, FileLayout, RecordEntries, EndNumber, Rising, LogOf;
    var log, n := c.log, marks.replayFrom;
    LogStarts(c);
    WholeLogRises(c);
    RisingFront(log, whole);
    LaterIsNewer(log[..whole], n);
    assert log[..whole][..n] == log[..n] == LogOf(c.groups)[..n] && log[..whole][n..] == log[n..whole];
    RisingFront(log, n);
    RecordsAct(log[..n]);
    forall e, x | e in f.entries && x in g.entries && e.User() == x.User()
      ensures e.Seq() > x.Seq()
    {
      assert e in Elements(f.entries);
      assert x in VersionEntries(c.sys.db.levels);
    }
  }

  lemma StampBounds(c: Commit, marks: Marks)
    requires LayoutInv(c, marks)
    ensures marks.stamps != []
    ensures NumbersBelow(c.sys.db.levels, marks.stamps[|marks.stamps| - 1].nextFile)
    ensures marks.replayFrom <= |LogOf(c.groups)|
    ensures EndNumber(LogOf(c.groups)[..marks.replayFrom]) <= marks.stamps[|marks.stamps| - 1].lastSequence + 1
    ensures marks.stamps[|marks.stamps| - 1].lastSequence <= c.sys.db.lastSequence
  {
    hide MemLayout, EndNumber, NumbersBelow, LogOf;
  }

  ghost predicate FileNumbersNew(v: Levels, files: seq<File>) {
    forall f, l, g :: f in files && 0 <= l < |v| && g in v[l] ==> g.number < f.number
  }

  lemma RecoveredFilesFit(c: Commit, marks: Marks, whole: nat, files: seq<File>, newLog: nat)
    requires CommitInv(c) && LayoutInv(c, marks) && Reopenable(c, marks, whole, files, newLog)
    ensures FileNumbersNew(c.sys.db.levels, files)
    ensures forall f, l, g :: f in files && 0 <= l < |c.sys.db.levels| && g in c.sys.db.levels[l] ==> FileNewer(f, g)
  {
    hide CommitInv, LayoutInv, RecordEntries, FileNewer, WellFormed;
    var v := c.sys.db.levels;
    StampBounds(c, marks);
    forall f: File, l: nat, g: File | f in files && l < |v| && g in v[l]
      ensures g.number < f.number && FileNewer(f, g)
    {
      var i :| 0 <= i < |files| && files[i] == f;
      assert Elements(f.entries) <= FileEntries(files);
      ReplayedIsNewer(c, marks, whole, f, g, l);
    }
  }

  /** The version with the recovery tables: valid, and with exactly what reopening puts together. */
  lemma RecoveredVersion(c: Commit, marks: Marks, whole: nat, files: seq<File>, newLog: nat)
    requires CommitInv(c) && LayoutInv(c, marks) && Reopenable(c, marks, whole, files, newLog)
    ensures var v' := ApplyEdit(c.sys.db.levels, AddingEdit({}, 0, files));
            && ValidLevels(v') && VersionEntries(v') == Reopened(c, marks, whole)
            && forall l, f {:trigger f in v'[l]} :: 0 <= l < NUM_LEVELS ==>
                 (f in v'[l] <==> (l == 0 && f in files) || f in c.sys.db.levels[l])
  {
    hide CommitInv, LayoutInv, RecordEntries, FileNewer, WellFormed, ApplyEdit, AddingEdit, ValidLevels, InBuilderOrder,
         VersionEntries, FileEntries, SurvivingEntries, Inv, MemoryInv, UniqueSeqs, DistinctNumbers;
    var v := c.sys.db.levels;
    StoreInv(c);
    StateFacts(c.sys);
    LevelFacts(v);
    BuilderOrder(v);
    RecoveredFilesFit(c, marks, whole, files, newLog);
    RisingNumbers(files);
    assert FitsLevelZero(v, {}, files) && FitsOrder(v, {}, 0, files);
    EditKeepsValid(v, {}, 0, files);
    AppliedMembers(v, {}, 0, files);
    AppliedEntries(v, {}, 0, files);
    NothingDeleted(v);
    AllSurvive(v, files, ApplyEdit(v, AddingEdit({}, 0, files)));
  }

  lemma AllSurvive(v: Levels, files: seq<File>, v': Levels)
    requires |v| == |v'| == NUM_LEVELS
    requires forall l, f {:trigger f in v'[l]} :: 0 <= l < NUM_LEVELS ==>
               (f in v'[l] <==> (l == 0 && f in files) || Survives(v, {}, l, f))
    ensures forall l, f {:trigger f in v'[l]} :: 0 <= l < NUM_LEVELS ==>
                 (f in v'[l] <==> (l == 0 && f in files) || f in v[l])
  {
    forall l, f {:trigger f in v'[l]} | 0 <= l < NUM_LEVELS
      ensures f in v'[l] <==> (l == 0 && f in files) || f in v[l]
    {
      assert Survives(v, {}, l, f) <==> f in v[l];
    }
  }

  /** A new manifest: the snapshot of the recovered version, and one edit with the recovery tables. */
  lemma RecoveredManifest(v: Levels, files: seq<File>, nextFile: nat)
    requires ValidLevels(v) && DistinctNumbers(files) && FileNumbersNew(v, files)
    requires forall f: File :: f in files ==> f.number < nextFile
    requires NumbersBelow(v, nextFile)
    requires var v' := ApplyEdit(v, AddingEdit({}, 0, files));
             |v'| == NUM_LEVELS &&
             forall l, f {:trigger f in v'[l]} :: 0 <= l < NUM_LEVELS ==>
                 (f in v'[l] <==> (l == 0 && f in files) || f in v[l])
    ensures var e := AddingEdit({}, 0, files);
            ManifestInv([SnapshotEdit(v), e], ApplyEdit(v, e), nextFile, None)
  {
    var s, e := SnapshotEdit(v), AddingEdit({}, 0, files);
    hide *;
    InOrder(v);
    SnapshotRestores(v);
    SnapshotIsValid(v);
    TwoEdits(s, e);
    OneEdit(s);
    AddingEditIsValid(files);
    SnapshotAdditions(v);
    AddingEditShape({}, 0, files);
    RecoveredAdditions(v, files, nextFile, s.added, e.added);
    NoNumberTwice(v, files, s.added);
    StillAddedOnce(s.added, e.added, 0, files);
    AdditionsStay(v, files, s.added, e.added, ApplyEdit(v, e));
    ManifestOfTwo(s, e, ApplyEdit(v, e), nextFile);
  }

  lemma ManifestOfTwo(s: Edit, e: Edit, levels: Levels, nextFile: nat)
    requires levels == Running(EMPTY_VERSION, [s, e]) && ValidEdit(s) && ValidEdit(e)
    requires Additions([s, e]) == s.added + e.added && AddedOnce(s.added + e.added)
    requires forall a :: a in s.added + e.added ==> a.1.number < nextFile
    requires forall a, m, g :: a in s.added + e.added && 0 <= m < |levels| && g in levels[m] && g.number == a.1.number
                               ==> a.0 <= m
    ensures ManifestInv([s, e], levels, nextFile, None)
  {
    hide Running, Additions, AddedOnce, ValidEdit;
  }

  lemma InOrder(v: Levels)
    requires ValidLevels(v)
    ensures |v| == NUM_LEVELS && DistinctInLevels(v) && UniqueNumbers(v)
    ensures forall l :: 0 <= l < NUM_LEVELS ==> InBuilderOrder(v[l])
  {
    hide InBuilderOrder, LevelSorted, NewerAbove, AllWellFormed;
  }

  lemma TwoEdits(s: Edit, e: Edit)
    ensures Running(EMPTY_VERSION, [s, e]) == ApplyEdit(Running(EMPTY_VERSION, [s]), e)
    ensures Additions([s, e]) == s.added + e.added
  {
    hide ApplyEdit;
    assert [s, e] == [s] + [e];
    OneMoreEdit([s], e);
    OneEdit(s);
  }

  lemma OneEdit(s: Edit)
    ensures Additions([s]) == s.added
  {
    hide ApplyEdit;
    OneMoreEdit([], s);
    NoAdditions();
    assert [] + [s] == [s] && [] + s.added == s.added;
  }

  lemma RecoveredAdditions(v: Levels, files: seq<File>, nextFile: nat, olds: seq<(nat, File)>, news: seq<(nat, File)>)
    requires forall a :: a in olds ==> a.0 < |v| && a.1 in v[a.0]
    requires |news| == |files| && forall q :: 0 <= q < |news| ==> news[q] == (0, files[q])
    requires NumbersBelow(v, nextFile) && forall f: File :: f in files ==> f.number < nextFile
    ensures forall a :: a in olds + news ==> a.1.number < nextFile
  {
  }

  lemma NoNumberTwice(v: Levels, files: seq<File>, olds: seq<(nat, File)>)
    requires forall a :: a in olds ==> a.0 < |v| && a.1 in v[a.0]
    requires FileNumbersNew(v, files)
    ensures forall f: File, a :: f in files && a in olds && a.1.number == f.number ==> a.0 < 0
  {
  }

  lemma AdditionsStay(v: Levels, files: seq<File>, olds: seq<(nat, File)>, news: seq<(nat, File)>, v': Levels)
    requires |v| == |v'| == NUM_LEVELS && UniqueNumbers(v) && FileNumbersNew(v, files)
    requires forall a :: a in olds ==> a.0 < |v| && a.1 in v[a.0]
    requires |news| == |files| && forall q :: 0 <= q < |news| ==> news[q] == (0, files[q])
    requires forall l, f {:trigger f in v'[l]} :: 0 <= l < NUM_LEVELS ==>
                 (f in v'[l] <==> (l == 0 && f in files) || f in v[l])
    ensures forall a, m, g :: a in olds + news && 0 <= m < |v'| && g in v'[m] && g.number == a.1.number ==> a.0 <= m
  {
  }

  lemma NoAdditions()
    ensures Additions([]) == []
  {
  }

  lemma AddingEditIsValid(files: seq<File>)
    ensures ValidEdit(AddingEdit({}, 0, files))
  {
  }

  lemma SnapshotAdditions(v: Levels)
    requires |v| == NUM_LEVELS && DistinctInLevels(v) && forall l :: 0 <= l < NUM_LEVELS ==> InBuilderOrder(v[l])
    ensures forall a :: a in SnapshotEdit(v).added ==> a.0 < |v| && a.1 in v[a.0]
  {
    hide InBuilderOrder, AllFiles;
    AllFilesAre(v, |v|);
    forall a | a in SnapshotEdit(v).added
      ensures a.0 < |v| && a.1 in v[a.0]
    {
      assert (a.0, a.1) == a;
    }
  }

  lemma LastCovers(marks: Marks, rs: seq<Record>)
    requires marks.stamps != []
    ensures LastReplayed(marks, rs) + 1 >= EndNumber(rs)
  {
  }

  lemma LastIsBounded(c: Commit, marks: Marks, whole: nat)
    requires CommitInv(c) && LayoutInv(c, marks) && whole <= |c.log|
    ensures marks.stamps != [] && LastReplayed(marks, c.log[..whole]) < MAX_SEQUENCE
  {
    hide CommitInv, LayoutInv, EndNumber, Rising, Inv;
    StampBounds(c, marks);
    WholeLogRises(c);
    EndIsBelow(c.log, whole);
    StoreInv(c);
    StateFacts(c.sys);
  }

  lemma EndIsBelow(log: seq<Record>, n: nat)
    requires n <= |log| && forall i :: 0 <= i < |log| ==> log[i].first + |log[i].ops| < MAX_SEQUENCE
    ensures EndNumber(log[..n]) <= MAX_SEQUENCE
  {
  }

  /** The part of the invariant that does not speak of answers. */
  ghost predicate StoreShape(a: Sys) {
    && MemoryInv(a.db.mem, a.db.imm, VersionEntries(a.db.levels))
    && HistoryInv(a.history, Store(a.db), a.db.lastSequence + a.db.inserted)
    && SnapshotInv(a.db.snapshots, a.db.lastSequence, a.horizon)
    && FileInv(a.db.levels, a.db.nextFile)
    && a.db.pending.None? && ManifestInv(a.manifest, a.db.levels, a.db.nextFile, a.db.pending)
  }

  lemma ShapeAndAnswers(a: Sys)
    requires StoreShape(a)
    ensures Inv(a) <==> AnswersInv(Store(a.db), a.history, a.horizon)
  {
    hide MemoryInv, HistoryInv, SnapshotInv, FileInv, ManifestInv, AnswersInv, Store;
  }

  /** The fields of a reopened store. */
  lemma RebornFields(c: Commit, marks: Marks, whole: nat, files: seq<File>, newLog: nat)
    requires whole <= |c.log| && marks.stamps != [] && |c.sys.db.levels| == NUM_LEVELS
    ensures var b, rs := Reborn(c, marks, whole, files, newLog), c.log[..whole];
            var last, e := LastReplayed(marks, rs), AddingEdit({}, 0, files);
            && b.log == rs && b.leader.None? && !b.poisoned && b.groups == Fill(GroupsOfLog(rs), last + 1)
            && b.requests == RequestsOf(b.groups) && b.outcomes == OutcomesOf(b.groups)
            && b.sys == Sys(Db([], None, ApplyEdit(c.sys.db.levels, e), last, 0, [], newLog + 1, None),
                            RecordEntries(rs), last, [SnapshotEdit(c.sys.db.levels), e])
  {
    hide GroupsOfLog, Fill, RecordEntries, ApplyEdit, AddingEdit, SnapshotEdit, RequestsOf, OutcomesOf, LastReplayed;
  }

  lemma RebornTables(c: Commit, marks: Marks, whole: nat, files: seq<File>, newLog: nat)
    requires CommitInv(c) && LayoutInv(c, marks) && Reopenable(c, marks, whole, files, newLog)
    ensures var v, e := c.sys.db.levels, AddingEdit({}, 0, files);
            && FileInv(ApplyEdit(v, e), newLog + 1) && ManifestInv([SnapshotEdit(v), e], ApplyEdit(v, e), newLog + 1, None)
            && VersionEntries(ApplyEdit(v, e)) == Reopened(c, marks, whole) && NumbersBelow(ApplyEdit(v, e), newLog + 1)
  {
    hide *;
    WholeIsPart(c, marks, whole, files, newLog);
    var v, v' := c.sys.db.levels, ApplyEdit(c.sys.db.levels, AddingEdit({}, 0, files));
    StampBounds(c, marks);
    StoreInv(c);
    StateFacts(c.sys);
    RecoveredVersion(c, marks, whole, files, newLog);
    RecoveredFilesFit(c, marks, whole, files, newLog);
    LevelFacts(v');
    FilesAreNumbered(c, marks, whole, files, newLog);
    NumbersStayBelow(v, files, v', marks.stamps[|marks.stamps| - 1].nextFile, newLog + 1);
    RecoveredManifest(v, files, newLog + 1);
    NumberedAndValid(v', newLog + 1);
  }

  lemma FilesAreNumbered(c: Commit, marks: Marks, whole: nat, files: seq<File>, newLog: nat)
    requires Reopenable(c, marks, whole, files, newLog)
    ensures marks.stamps != [] && marks.stamps[|marks.stamps| - 1].nextFile <= newLog + 1 && DistinctNumbers(files)
    ensures forall i :: 0 <= i < |files| ==> files[i].number + 1 < newLog + 1
  {
    hide FileEntries, RecordEntries, AllWellFormed, FileNewer;
    RisingNumbers(files);
  }

  lemma NumberedAndValid(v: Levels, n: nat)
    requires ValidLevels(v) && NumbersBelow(v, n)
    ensures FileInv(v, n)
  {
    hide ValidLevels;
  }

  lemma NumbersStayBelow(v: Levels, files: seq<File>, v': Levels, n: nat, m: nat)
    requires |v| == |v'| == NUM_LEVELS && NumbersBelow(v, n) && n <= m
    requires forall i :: 0 <= i < |files| ==> files[i].number + 1 < m
    requires forall l, f {:trigger f in v'[l]} :: 0 <= l < NUM_LEVELS ==>
               (f in v'[l] <==> (l == 0 && f in files) || f in v[l])
    ensures NumbersBelow(v, m) && NumbersBelow(v', m) && forall f: File :: f in files ==> f.number < m
  {
  }

  lemma RebornShape(c: Commit, marks: Marks, whole: nat, files: seq<File>, newLog: nat)
    requires CommitInv(c) && LayoutInv(c, marks) && Reopenable(c, marks, whole, files, newLog)
    ensures StoreShape(Reborn(c, marks, whole, files, newLog).sys)
    ensures Store(Reborn(c, marks, whole, files, newLog).sys.db) == Reopened(c, marks, whole)
  {
    hide *;
    WholeIsPart(c, marks, whole, files, newLog);
    RebornFields(c, marks, whole, files, newLog);
    RebornTables(c, marks, whole, files, newLog);
    LastIsBounded(c, marks, whole);
    LastCovers(marks, c.log[..whole]);
    RebornHistory(c, marks, whole, LastReplayed(marks, c.log[..whole]));
    FreshShape(Reborn(c, marks, whole, files, newLog).sys);
  }

  lemma WholeIsPart(c: Commit, marks: Marks, whole: nat, files: seq<File>, newLog: nat)
    requires Reopenable(c, marks, whole, files, newLog)
    ensures marks.replayFrom <= marks.memFrom <= whole <= |c.log| && marks.stamps != []
    ensures |c.sys.db.levels| == NUM_LEVELS && marks.memLog < newLog
  {
    hide HoldsReplayed;
  }

  /** A store with empty memory, no snapshots and nothing pending. */
  lemma FreshShape(a: Sys)
    requires a.db.mem == [] && a.db.imm.None? && a.db.snapshots == [] && a.db.pending.None? && a.db.inserted == 0
    requires a.horizon == a.db.lastSequence && FileInv(a.db.levels, a.db.nextFile)
    requires ManifestInv(a.manifest, a.db.levels, a.db.nextFile, None)
    requires HistoryInv(a.history, VersionEntries(a.db.levels), a.db.lastSequence)
    ensures StoreShape(a) && Store(a.db) == VersionEntries(a.db.levels)
  {
    hide FileInv, ManifestInv, VersionEntries, UniqueSeqs;
    NoElements();
    EmptyIsSorted();
    assert Store(a.db) == VersionEntries(a.db.levels);
  }

  /** The log is a history for what is reopened. */
  lemma RebornHistory(c: Commit, marks: Marks, whole: nat, last: nat)
    requires CommitInv(c) && LayoutInv(c, marks) && marks.replayFrom <= marks.memFrom <= whole <= |c.log|
    requires last + 1 >= EndNumber(c.log[..whole]) && last < MAX_SEQUENCE
    ensures HistoryInv(RecordEntries(c.log[..whole]), Reopened(c, marks, whole), last)
  {
    hide CommitInv, LayoutInv, RecordEntries, EndNumber, Rising, LogOf, Reopened, Below;
    var rs := c.log[..whole];
    WholeLogRises(c);
    RisingFront(c.log, whole);
    RecordsAct(rs);
    LaterIsNewer(rs, 0);
    assert rs[0..] == rs;
    EmptyLogRises();
    assert rs[..0] == [];
    ReopenedParts(c, marks, whole);
    assert rs == rs[..marks.memFrom] + rs[marks.memFrom..];
    CrashRecovery.RecordsConcat(rs[..marks.memFrom], rs[marks.memFrom..]);
  }

  /** It answers from that history exactly when reopening there answers right. */
  lemma RebornAnswersIff(c: Commit, marks: Marks, whole: nat, last: nat)
    requires CommitInv(c) && LayoutInv(c, marks) && marks.replayFrom <= marks.memFrom <= whole <= |c.log|
    requires last + 1 >= EndNumber(c.log[..whole]) && last < MAX_SEQUENCE
    ensures AnswersInv(Reopened(c, marks, whole), RecordEntries(c.log[..whole]), last) <==> ReopensAs(c, marks, whole)
    ensures ReopensAs(c, marks, whole) ==> SameReads(Reopened(c, marks, whole), RecordEntries(c.log[..whole]))
  {
    hide CommitInv, LayoutInv, RecordEntries, EndNumber, Rising, LogOf, Reopened, Read, UniqueSeqs, AfterOps, LogOps;
    var rs, E := c.log[..whole], Reopened(c, marks, whole);
    var H := RecordEntries(rs);
    WholeLogRises(c);
    RisingFront(c.log, whole);
    RecordsAct(rs);
    EndIsBelow(c.log, whole);
    ReopenedIsBounded(c, marks, whole);
    var end := EndNumber(rs) - 1;
    forall k, s: nat | s >= end
      ensures Read(E, k, s) == Read(E, k, end) && Read(H, k, s) == AfterOps(LogOps(rs), k, None)
    {
      ReadAbove(E, k, end, s);
      ReadAbove(H, k, end, s);
    }
    if AnswersInv(E, H, last) {
      forall k, s: nat | s + 1 >= EndNumber(rs)
        ensures Read(E, k, s) == AfterOps(LogOps(rs), k, None)
      {
        assert SameAnswers(E, H, k, last);
      }
    }
  }

  lemma ReopenedIsBounded(c: Commit, marks: Marks, whole: nat)
    requires CommitInv(c) && LayoutInv(c, marks) && marks.replayFrom <= marks.memFrom <= whole <= |c.log|
    ensures EndNumber(c.log[..whole]) >= 1 && Bounded(Reopened(c, marks, whole), EndNumber(c.log[..whole]) - 1)
  {
    hide CommitInv, LayoutInv, RecordEntries, EndNumber, Rising, LogOf, Reopened, Below;
    var rs := c.log[..whole];
    WholeLogRises(c);
    RisingFront(c.log, whole);
    RecordsAct(rs);
    ReopenedParts(c, marks, whole);
    assert rs == rs[..marks.memFrom] + rs[marks.memFrom..];
    CrashRecovery.RecordsConcat(rs[..marks.memFrom], rs[marks.memFrom..]);
  }

  /** The groups that the log tells of. */
  lemma RebornPast(c: Commit, whole: nat, last: nat)
    requires CommitInv(c) && whole <= |c.log| && last + 1 >= EndNumber(c.log[..whole])
    ensures Past(Fill(GroupsOfLog(c.log[..whole]), last + 1), c.log[..whole], last + 1)
  {
    hide CommitInv, EndNumber, Rising, GroupsOfLog, Fill, OneEach, Chained, LogOf, NextNumber;
    WholeLogRises(c);
    RisingFront(c.log, whole);
    LogIsPast(c.log[..whole]);
    FillIsPast(GroupsOfLog(c.log[..whole]), c.log[..whole], last + 1);
  }

  /** A commit state over a valid store, with a past of served writers. */
  lemma PastIsCommit(b: Commit)
    requires OneEach(b.groups) && Chained(b.groups) && NextNumber(b.groups) == b.sys.db.lastSequence + 1
    requires b.log == LogOf(b.groups) && b.sys.history == RecordEntries(b.log)
    requires b.requests == RequestsOf(b.groups) && b.outcomes == OutcomesOf(b.groups)
    requires b.leader.None? && !b.poisoned && b.sys.db.inserted == 0 && b.sys.db.snapshots == []
    requires forall i :: 0 <= i < |b.log| ==> b.log[i].first + |b.log[i].ops| < MAX_SEQUENCE
    ensures CommitInv(b) <==> Inv(b.sys)
  {
    hide Inv, OneEach, Chained, NextNumber, LogOf, GroupEntries, RecordEntries, QueueInv, ReplayInv, RequestsOf, OutcomesOf;
    PastQueue(b.groups);
    LoggedEntries(b.groups);
  }

  lemma RebornLayout(c: Commit, marks: Marks, whole: nat, files: seq<File>, newLog: nat)
    requires CommitInv(c) && LayoutInv(c, marks) && Reopenable(c, marks, whole, files, newLog)
    ensures LayoutInv(Reborn(c, marks, whole, files, newLog),
                      RebornMarks(marks, whole, newLog, LastReplayed(marks, c.log[..whole])))
  {
    hide *;
    WholeIsPart(c, marks, whole, files, newLog);
    RebornFields(c, marks, whole, files, newLog);
    LastCovers(marks, c.log[..whole]);
    RebornPast(c, whole, LastReplayed(marks, c.log[..whole]));
    PastParts(Fill(GroupsOfLog(c.log[..whole]), LastReplayed(marks, c.log[..whole]) + 1), c.log[..whole],
              LastReplayed(marks, c.log[..whole]) + 1);
    RebornTables(c, marks, whole, files, newLog);
    ReopenedIsLogged(c, marks, whole);
    NumbersAreSmaller(c, marks, newLog);
    FreshLayout(Reborn(c, marks, whole, files, newLog), marks.obsolete + {marks.logNumber, marks.memLog}, newLog);
    RebornMarksAre(marks, whole, newLog, LastReplayed(marks, c.log[..whole]));
  }

  lemma PastParts(groups: seq<Group>, rs: seq<Record>, next: nat)
    requires Past(groups, rs, next)
    ensures OneEach(groups) && Chained(groups) && LogOf(groups) == rs && NextNumber(groups) == next
  {
    hide OneEach, Chained, LogOf, NextNumber;
  }

  lemma RebornMarksAre(marks: Marks, whole: nat, newLog: nat, last: nat)
    ensures RebornMarks(marks, whole, newLog, last)
         == Marks(whole, whole, newLog, newLog, marks.obsolete + {marks.logNumber, marks.memLog},
                  [Stamp(newLog + 1, newLog, last)])
  {
  }

  lemma ReopenedIsLogged(c: Commit, marks: Marks, whole: nat)
    requires CommitInv(c) && LayoutInv(c, marks) && marks.replayFrom <= marks.memFrom <= whole <= |c.log|
    ensures Reopened(c, marks, whole) <= RecordEntries(c.log[..whole])
  {
    hide CommitInv, LayoutInv, RecordEntries, LogOf, Reopened, Below;
    var rs := c.log[..whole];
    ReopenedParts(c, marks, whole);
    assert rs == rs[..marks.memFrom] + rs[marks.memFrom..];
    CrashRecovery.RecordsConcat(rs[..marks.memFrom], rs[marks.memFrom..]);
  }

  /** A store with empty memory and a new log. */
  lemma FreshLayout(b: Commit, obsolete: set<nat>, newLog: nat)
    requires b.sys.db.mem == [] && b.sys.db.imm.None? && b.leader.None? && b.log == LogOf(b.groups)
    requires VersionEntries(b.sys.db.levels) <= RecordEntries(b.log) && |b.sys.manifest| == 2
    requires EndNumber(b.log) <= b.sys.db.lastSequence + 1 && b.sys.db.nextFile == newLog + 1
    requires NumbersBelow(b.sys.db.levels, newLog + 1) && 0 < newLog && forall n :: n in obsolete ==> 0 < n < newLog
    ensures LayoutInv(b, Marks(|b.log|, |b.log|, newLog, newLog, obsolete,
                               [Stamp(newLog + 1, newLog, b.sys.db.lastSequence)]))
  {
    hide LogOf, RecordEntries, VersionEntries, EndNumber, NumbersBelow;
    NoElements();
    assert b.log[|b.log|..] == [] && b.log[|b.log|..|b.log|] == [] && b.log[..|b.log|] == b.log;
  }

  lemma NumbersAreSmaller(c: Commit, marks: Marks, newLog: nat)
    requires LayoutInv(c, marks) && marks.memLog < newLog
    ensures forall n :: n in marks.obsolete + {marks.logNumber, marks.memLog} ==> 0 < n < newLog
  {
    hide MemLayout, StampInv, EndNumber, LogOf;
  }

  /** Reopening makes a store that satisfies the whole invariant of group commit again, exactly when it answers
      right there; and then the log is kept. */
  lemma RebornIffRight(c: Commit, marks: Marks, whole: nat, files: seq<File>, newLog: nat)
    requires CommitInv(c) && LayoutInv(c, marks) && Reopenable(c, marks, whole, files, newLog)
    ensures marks.stamps != [] && marks.replayFrom <= whole <= |c.log| && |c.sys.db.levels| == NUM_LEVELS
    ensures var b := Reborn(c, marks, whole, files, newLog);
            var marks' := RebornMarks(marks, whole, newLog, LastReplayed(marks, c.log[..whole]));
            && (CommitInv(b) <==> ReopensAs(c, marks, whole))
            && LayoutInv(b, marks') && (ReopensAs(c, marks, whole) ==> LogKept(b, marks'))
  {
    hide *;
    WholeIsPart(c, marks, whole, files, newLog);
    var b, last := Reborn(c, marks, whole, files, newLog), LastReplayed(marks, c.log[..whole]);
    LastCovers(marks, c.log[..whole]);
    LastIsBounded(c, marks, whole);
    RebornFields(c, marks, whole, files, newLog);
    RebornShape(c, marks, whole, files, newLog);
    ShapeAndAnswers(b.sys);
    RebornAnswersIff(c, marks, whole, last);
    RebornPast(c, whole, last);
    PastParts(b.groups, b.log, last + 1);
    RebornRecords(c, whole);
    PastIsCommit(b);
    RebornLayout(c, marks, whole, files, newLog);
    RebornMarksAre(marks, whole, newLog, last);
    if ReopensAs(c, marks, whole) {
      RebornTables(c, marks, whole, files, newLog);
      FreshIsKept(b, RebornMarks(marks, whole, newLog, last));
    }
  }

  lemma RebornRecords(c: Commit, whole: nat)
    requires CommitInv(c) && whole <= |c.log|
    ensures forall i :: 0 <= i < whole ==> c.log[..whole][i].first + |c.log[..whole][i].ops| < MAX_SEQUENCE
  {
    hide CommitInv, Rising;
    WholeLogRises(c);
  }

  lemma FreshIsKept(b: Commit, marks: Marks)
    requires b.sys.db.imm.None? && b.log == LogOf(b.groups) && marks.memFrom == |b.log|
    requires SameReads(VersionEntries(b.sys.db.levels), RecordEntries(b.log))
    ensures LogKept(b, marks)
  {
    hide LogOf, RecordEntries, VersionEntries, SameReads;
    assert LogOf(b.groups)[..marks.memFrom] == b.log;
    assert VersionEntries(b.sys.db.levels) + ImmEntries(b.sys.db) == VersionEntries(b.sys.db.levels);
  }

  // ----- Whole lives -----

  /** A state of group commit over the store, with what is on disk. */
  datatype Live = Live(c: Commit, marks: Marks)

  ghost predicate Worked(a: Live, b: Live) {
    CommitSteps(a.c, b.c) && b.marks == NextMarks(a.c, b.c, a.marks)
  }

  /** A crash at which some of the current log is lost, and a reopening that answers right. */
  ghost predicate CrashedAt(a: Live, b: Live, whole: nat, files: seq<File>, newLog: nat) {
    && Reopenable(a.c, a.marks, whole, files, newLog) && ReopensAs(a.c, a.marks, whole)
    && b == Live(Reborn(a.c, a.marks, whole, files, newLog),
                 RebornMarks(a.marks, whole, newLog, LastReplayed(a.marks, a.c.log[..whole])))
  }

  ghost predicate Crashed(a: Live, b: Live) {
    exists whole, files, newLog :: CrashedAt(a, b, whole, files, newLog)
  }

  /** A store from its creation, through any number of crashes. */
  ghost predicate Life(run: seq<Live>) {
    && run != [] && CommitInit(run[0].c) && run[0].marks == FIRST_MARKS
    && forall i :: 0 <= i < |run| - 1 ==> Worked(run[i], run[i + 1]) || Crashed(run[i], run[i + 1])
  }

  lemma CrashKeepsInv(a: Live, b: Live)
    requires CommitInv(a.c) && LayoutInv(a.c, a.marks) && Crashed(a, b)
    ensures CommitInv(b.c) && LayoutInv(b.c, b.marks) && LogKept(b.c, b.marks)
  {
    hide CommitInv, LayoutInv, Reopenable, ReopensAs, Reborn, RebornMarks, LogKept, LastReplayed;
    var whole, files, newLog :| CrashedAt(a, b, whole, files, newLog);
    WholeIsPart(a.c, a.marks, whole, files, newLog);
    RebornIffRight(a.c, a.marks, whole, files, newLog);
  }

  lemma {:induction false} LifeKeepsInv(run: seq<Live>, i: nat)
    requires Life(run) && i < |run|
    ensures CommitInv(run[i].c) && LayoutInv(run[i].c, run[i].marks)
    decreases i
  {
    hide CommitInv, LayoutInv, CommitNext, Crashed, NextMarks, CommitInit;
    if i == 0 {
      CommitStarts(run[0].c);
      LayoutStarts(run[0].c);
    } else {
      LifeKeepsInv(run, i - 1);
      var a, b := run[i - 1], run[i - 1 + 1];
      if Crashed(a, b) {
        CrashKeepsInv(a, b);
      } else {
        var step :| CommitNext(a.c, b.c, step);
        StepKeepsLayout(a.c, b.c, a.marks, step);
      }
    }
  }

  /** Reads at live snapshots survive crashes too: in every state of every life they answer from the history,
      which after a crash is what was wholly in the log. */
  lemma LifeKeepsReads(run: seq<Live>, i: nat, k: Key, s: nat)
    requires Life(run) && i < |run| && Readable(run[i].c.sys, s)
    ensures Read(Store(run[i].c.sys.db), k, s) == Read(run[i].c.sys.history, k, s)
  {
    hide *;
    LifeKeepsInv(run, i);
    StoreInv(run[i].c);
    ReadableIsExact(run[i].c.sys, k, s);
  }

  /** And every snapshot sees whole batches, in order, the present all of them. */
  lemma LifeSeesWholeBatches(run: seq<Live>, i: nat, s: nat)
    requires Life(run) && i < |run| && Readable(run[i].c.sys, s)
    ensures |run[i].c.outcomes| <= |run[i].c.requests|
    ensures exists n :: 0 <= n <= |run[i].c.outcomes| && SeesUpTo(run[i].c, s, n)
    ensures SeesUpTo(run[i].c, run[i].c.sys.db.lastSequence, |run[i].c.outcomes|)
  {
    hide *;
    LifeKeepsInv(run, i);
    SeesWholeBatches(run[i].c, s);
    PresentSeesAll(run[i].c);
  }

  /** What counts as acknowledged after a crash are the operations that were wholly in the log. */
  lemma CrashKeepsLog(run: seq<Live>, i: nat, whole: nat, files: seq<File>, newLog: nat)
    requires Life(run) && i < |run| - 1 && CrashedAt(run[i], run[i + 1], whole, files, newLog)
    ensures |run[i + 1].c.outcomes| <= |run[i + 1].c.requests| && whole <= |run[i].c.log|
    ensures Acknowledged(run[i + 1].c.requests, run[i + 1].c.outcomes) == LogOps(run[i].c.log[..whole])
    ensures whole == |run[i].c.log| ==>
              |run[i].c.outcomes| <= |run[i].c.requests| &&
              exists more :: Acknowledged(run[i + 1].c.requests, run[i + 1].c.outcomes)
                          == Acknowledged(run[i].c.requests, run[i].c.outcomes) + more
  {
    hide CommitInv, LayoutInv, Life, Reopenable, ReopensAs, Reborn, RebornMarks, LastReplayed, Acknowledged, LogOps,
         GroupOps, LogOf, Past;
    var a, b := run[i], run[i + 1];
    LifeKeepsInv(run, i);
    LifeKeepsInv(run, i + 1);
    WholeIsPart(a.c, a.marks, whole, files, newLog);
    RebornFields(a.c, a.marks, whole, files, newLog);
    var last := LastReplayed(a.marks, a.c.log[..whole]);
    LastCovers(a.marks, a.c.log[..whole]);
    RebornPast(a.c, whole, last);
    PastParts(b.c.groups, b.c.log, last + 1);
    LoggedGroups(b.c.groups);
    QueueFacts(b.c);
    if whole == |a.c.log| {
      assert a.c.log[..whole] == a.c.log;
      LogHolds(a.c);
    }
  }

  lemma LogHolds(c: Commit)
    requires CommitInv(c)
    ensures |c.outcomes| <= |c.requests|
    ensures exists more :: LogOps(c.log) == Acknowledged(c.requests, c.outcomes) + more
  {
    hide CommitInv, LogOps, Acknowledged, GroupOps, LogOf;
    QueueFacts(c);
    LoggedGroups(c.groups);
    LogFacts(c);
    if c.log == LogOf(c.groups) {
      assert LogOps(c.log) == Acknowledged(c.requests, c.outcomes) + [];
    } else {
      LastRecord(LogOf(c.groups), c.log);
    }
  }

  // ----- When every crash is harmless -----

  /** What this step installs hides nothing among tables and immutable memtable. */
  ghost predicate InstallsSafely(a: Live, b: Live) {
    b.marks == NextMarks(a.c, b.c, a.marks) ==>
      forall outs :: CommitNext(a.c, b.c, Other(Install(outs))) ==>
        a.c.sys.db.pending.Some? && |a.c.sys.db.levels| == NUM_LEVELS && NothingHidden(a.c.sys)
  }

  lemma {:induction false} SafeInstallsKeepLog(run: seq<Live>, i: nat)
    requires Life(run) && i < |run| && forall j :: 0 <= j < i ==> InstallsSafely(run[j], run[j + 1])
    ensures LogKept(run[i].c, run[i].marks)
    decreases i
  {
    hide CommitInv, LayoutInv, CommitNext, Crashed, NextMarks, CommitInit, LogKept, NothingHidden;
    if i == 0 {
      LayoutStarts(run[0].c);
    } else {
      SafeInstallsKeepLog(run, i - 1);
      LifeKeepsInv(run, i - 1);
      var a, b := run[i - 1], run[i - 1 + 1];
      assert InstallsSafely(a, b);
      if Crashed(a, b) {
        CrashKeepsInv(a, b);
      } else {
        var step :| CommitNext(a.c, b.c, step);
        if step.Other? && step.step.Install? {
          InstallKeepsLogIff(a.c, b.c, step.step.outs, a.marks);
        } else {
          StepKeepsLog(a.c, b.c, a.marks, step);
        }
      }
    }
  }

  /** Exactly when a crash at any point of a life is harmless, wherever it cuts the current log: no installation
      drops a marker that hides a value among tables and immutable memtable. */
  lemma EveryCrashIsHarmlessIff(run: seq<Live>)
    requires Life(run)
    ensures (forall i :: 0 <= i < |run| ==> ReopensRight(run[i].c, run[i].marks))
       <==> (forall i :: 0 <= i < |run| - 1 ==> InstallsSafely(run[i], run[i + 1]))
  {
    hide CommitInv, LayoutInv, Life, LogKept, ReopensRight, InstallsSafely;
    forall i | 0 <= i < |run|
      ensures ReopensRight(run[i].c, run[i].marks) <==> LogKept(run[i].c, run[i].marks)
    {
      LifeKeepsInv(run, i);
      ReopensRightIff(run[i].c, run[i].marks);
    }
    if forall i :: 0 <= i < |run| - 1 ==> InstallsSafely(run[i], run[i + 1]) {
      forall i | 0 <= i < |run|
        ensures LogKept(run[i].c, run[i].marks)
      {
        SafeInstallsKeepLog(run, i);
      }
    }
    if forall i :: 0 <= i < |run| ==> ReopensRight(run[i].c, run[i].marks) {
      forall i | 0 <= i < |run| - 1
        ensures InstallsSafely(run[i], run[i + 1])
      {
        LifeKeepsInv(run, i);
        assert ReopensRight(run[i].c, run[i].marks) && ReopensRight(run[i + 1].c, run[i + 1].marks);
        KeptIsSafe(run[i], run[i + 1]);
      }
    }
  }

  lemma KeptIsSafe(a: Live, b: Live)
    requires CommitInv(a.c) && LayoutInv(a.c, a.marks) && LogKept(a.c, a.marks) && LogKept(b.c, b.marks)
    ensures InstallsSafely(a, b)
  {
    hide CommitInv, LayoutInv, LogKept, NothingHidden, CommitNext, NextMarks;
    if b.marks == NextMarks(a.c, b.c, a.marks) {
      forall outs | CommitNext(a.c, b.c, Other(Install(outs)))
        ensures a.c.sys.db.pending.Some? && |a.c.sys.db.levels| == NUM_LEVELS && NothingHidden(a.c.sys)
      {
        InstallKeepsLogIff(a.c, b.c, outs, a.marks);
      }
    }
  }

  // ----- When one crash is harmless -----

  lemma {:induction false} LifeKeepsValues(run: seq<Live>, i: nat)
    requires Life(run) && i < |run|
    ensures ValuesKept(run[i].c, run[i].marks)
    decreases i
  {
    hide CommitInv, LayoutInv, CommitNext, Crashed, NextMarks, CommitInit, LogKept, ValuesKept;
    if i == 0 {
      LayoutStarts(run[0].c);
      KeptHasValues(run[0].c, run[0].marks);
    } else {
      LifeKeepsValues(run, i - 1);
      LifeKeepsInv(run, i - 1);
      var a, b := run[i - 1], run[i - 1 + 1];
      if Crashed(a, b) {
        CrashKeepsInv(a, b);
        KeptHasValues(b.c, b.marks);
      } else {
        var step :| CommitNext(a.c, b.c, step);
        StepKeepsValues(a.c, b.c, a.marks, step);
      }
    }
  }

  /** In any state of a life, harmless or not, a crash loses no value: keys that have one after the operations
      wholly in the log read as it. All that can go wrong is that a deleted key comes back. */
  lemma NoCrashLosesValues(run: seq<Live>, i: nat, whole: nat, k: Key, s: nat)
    requires Life(run) && i < |run|
    requires run[i].marks.replayFrom <= run[i].marks.memFrom <= whole <= |run[i].c.log|
    requires s + 1 >= EndNumber(run[i].c.log[..whole]) && AfterOps(LogOps(run[i].c.log[..whole]), k, None).Some?
    ensures Read(Reopened(run[i].c, run[i].marks, whole), k, s) == AfterOps(LogOps(run[i].c.log[..whole]), k, None)
  {
    hide *;
    LifeKeepsInv(run, i);
    LifeKeepsValues(run, i);
    CrashLosesNoValue(run[i].c, run[i].marks, whole, k, s);
  }

  /** The tables have just been made whole: by a switch of memtables, or by reopening. */
  ghost predicate MadeWhole(a: Live, b: Live) {
    Crashed(a, b) || (a.c.sys.db.imm.None? && b.c.sys.db.imm.Some?)
  }

  /** Since then, every installation was safe. */
  ghost predicate SafeSince(run: seq<Live>, i: nat)
    requires i < |run|
  {
    i == 0 || MadeWhole(run[i - 1], run[i]) || (SafeSince(run, i - 1) && InstallsSafely(run[i - 1], run[i]))
  }

  /** Exactly when a crash in one state of a life is harmless, wherever it cuts the current log: no installation
      since the last switch of memtables, or the last reopening, drops a marker that hides a value among tables and
      immutable memtable. */
  lemma {:induction false} CrashIsHarmlessIff(run: seq<Live>, i: nat)
    requires Life(run) && i < |run|
    ensures ReopensRight(run[i].c, run[i].marks) <==> SafeSince(run, i)
    decreases i
  {
    hide CommitInv, LayoutInv, CommitNext, Crashed, CommitInit, LogKept, NothingHidden, ValuesKept, InstallsSafely,
         ReopensRight, Worked;
    LifeKeepsInv(run, i);
    ReopensRightIff(run[i].c, run[i].marks);
    if i == 0 {
      LayoutStarts(run[0].c);
    } else {
      CrashIsHarmlessIff(run, i - 1);
      LifeKeepsInv(run, i - 1);
      LifeKeepsValues(run, i - 1);
      ReopensRightIff(run[i - 1].c, run[i - 1].marks);
      var a, b := run[i - 1], run[i - 1 + 1];
      if Crashed(a, b) {
        CrashKeepsInv(a, b);
      } else {
        WorkKeepsLogIff(a, b);
      }
    }
  }

  lemma WorkKeepsLogIff(a: Live, b: Live)
    requires CommitInv(a.c) && LayoutInv(a.c, a.marks) && ValuesKept(a.c, a.marks) && Worked(a, b)
    ensures LogKept(b.c, b.marks)
       <==> (a.c.sys.db.imm.None? && b.c.sys.db.imm.Some?) || (LogKept(a.c, a.marks) && InstallsSafely(a, b))
  {
    hide CommitInv, LayoutInv, CommitNext, LogKept, NothingHidden, ValuesKept, InstallsSafely, NextMarks;
    var step :| CommitNext(a.c, b.c, step);
    SwitchIsRotate(a.c, b.c, step);
    if step == Other(Rotate) {
      RotateRestoresLog(a.c, b.c, a.marks);
    } else if !LogKept(a.c, a.marks) {
      HiddenStaysHidden(a.c, b.c, a.marks, step);
    } else if LogKept(b.c, b.marks) {
      KeptIsSafe(a, b);
    } else {
      LostByInstalling(a, b, step);
    }
  }

  lemma SwitchIsRotate(a: Commit, b: Commit, step: CommitStep)
    requires CommitNext(a, b, step)
    ensures a.sys.db.imm.None? && b.sys.db.imm.Some? <==> step == Other(Rotate)
  {
    hide CommitNext;
    CommitShape(a, b, step);
    if step == Other(Rotate) {
      RotateGroups(a, b);
    }
  }

  lemma LostByInstalling(a: Live, b: Live, step: CommitStep)
    requires CommitInv(a.c) && LayoutInv(a.c, a.marks) && LogKept(a.c, a.marks) && CommitNext(a.c, b.c, step)
    requires b.marks == NextMarks(a.c, b.c, a.marks) && !LogKept(b.c, b.marks)
    ensures !InstallsSafely(a, b)
  {
    hide CommitInv, LayoutInv, CommitNext, LogKept, NothingHidden, NextMarks;
    if step.Other? && step.step.Install? {
      InstallKeepsLogIff(a.c, b.c, step.step.outs, a.marks);
    } else {
      StepKeepsLog(a.c, b.c, a.marks, step);
    }
  }

  // ----- Runs without a crash -----

  /** A run of group commit, with what is on disk at each state. */
  ghost function WithMarks(run: seq<Commit>): (lives: seq<Live>)
    requires run != []
    ensures |lives| == |run| && forall i :: 0 <= i < |run| ==> lives[i].c == run[i]
  {
    var n := |run| - 1;
    if n == 0 then [Live(run[0], FIRST_MARKS)]
    else
      var before := WithMarks(run[..n]);
      before + [Live(run[n], NextMarks(run[n - 1], run[n], before[n - 1].marks))]
  }

  /** It is a life, so all of the above holds of it. */
  lemma {:induction false} RunIsLife(run: seq<Commit>)
    requires CommitRun(run)
    ensures Life(WithMarks(run))
  {
    hide CommitSteps, CommitInit, NextMarks, Crashed;
    var n := |run| - 1;
    var lives := WithMarks(run);
    if n > 0 {
      RunPrefix(run, n - 1);
      assert run[..n - 1 + 1] == run[..n];
      RunIsLife(run[..n]);
      assert CommitSteps(run[n - 1], run[n - 1 + 1]);
      var before := WithMarks(run[..n]);
      assert lives == before + [lives[n]] && before[n - 1].c == run[n - 1];
      forall i | 0 <= i < |lives| - 1
        ensures Worked(lives[i], lives[i + 1]) || Crashed(lives[i], lives[i + 1])
      {
        if i < n - 1 {
          assert lives[i] == before[i] && lives[i + 1] == before[i + 1];
        }
      }
    }
  }
}
