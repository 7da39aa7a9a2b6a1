/** The three edits a running store installs (a flushed memtable, a moved file, compaction outputs)
    keep a version valid. */
module VersionEdits {
  import opened InternalKeys
  import opened Versions
  import opened Builders
  import opened CompactionInputs
  import opened CompactionMeaning

  /** An edit that adds `files` at one level. */
  function AddingEdit(deleted: set<(nat, nat)>, target: nat, files: seq<File>): Edit {
    Edit(deleted, seq(|files|, i requires 0 <= i < |files| => (target, files[i])))
  }

  ghost predicate DistinctNumbers(files: seq<File>) {
    forall i, j :: 0 <= i < |files| && 0 <= j < |files| && files[i].number == files[j].number ==> i == j
  }

  /** A file that the edit leaves where it is. */
  predicate Survives(v: Levels, deleted: set<(nat, nat)>, l: int, f: File) {
    0 <= l < |v| && f in v[l] && (l, f.number) !in deleted
  }

  lemma AddingEditAdds(deleted: set<(nat, nat)>, target: nat, files: seq<File>)
    ensures var e := AddingEdit(deleted, target, files);
            && (forall l, f :: (l, f) in e.added <==> l == target && f in files)
            && (forall l, n :: AddsNumber(e.added, l, n) <==> l == target && exists f :: f in files && f.number == n)
  {
    var e := AddingEdit(deleted, target, files);
    assert |e.added| == |files| && forall i :: 0 <= i < |files| ==> e.added[i] == (target, files[i]);
    forall l, n | l == target && exists f :: f in files && f.number == n
      ensures AddsNumber(e.added, l, n)
    {
      var f :| f in files && f.number == n;
      var i :| 0 <= i < |files| && files[i] == f;
      assert e.added[i].0 == l && e.added[i].1.number == n;
    }
  }

  /** Which files the resulting version holds, and that each level is in builder order. */
  lemma AppliedMembers(v: Levels, deleted: set<(nat, nat)>, target: nat, files: seq<File>)
    requires |v| == NUM_LEVELS && target < NUM_LEVELS && DistinctNumbers(files)
    requires forall l :: 0 <= l < NUM_LEVELS ==> InBuilderOrder(v[l])
    requires forall f, g :: f in files && g in v[target] ==> f.number != g.number
    ensures var v' := ApplyEdit(v, AddingEdit(deleted, target, files));
            && (forall l, f {:trigger f in v'[l]} :: 0 <= l < NUM_LEVELS ==>
                  (f in v'[l] <==> (l == target && f in files) || Survives(v, deleted, l, f)))
            && (forall l :: 0 <= l < NUM_LEVELS ==> InBuilderOrder(v'[l]))
  {
    var e := AddingEdit(deleted, target, files);
    var v' := ApplyEdit(v, e);
    AddingEditAdds(deleted, target, files);
    assert forall i, j :: 0 <= i < j < |e.added| ==> e.added[i].1.number != e.added[j].1.number;
    forall l | 0 <= l < NUM_LEVELS
      ensures forall f :: f in v'[l] <==> (l == target && f in files) || Survives(v, deleted, l, f)
      ensures InBuilderOrder(v'[l])
    {
      LevelAfterMembers(v[l], e, l);
      LevelAfterOrder(v[l], e, l);
    }
  }

  ghost predicate PairwiseBefore(files: seq<File>) {
    forall i, j :: 0 <= i < j < |files| ==> Before(files[i], files[j])
  }

  /** Added files stand apart from the files that stay in their level. */
  ghost predicate FitsLevel(v: Levels, deleted: set<(nat, nat)>, target: nat, files: seq<File>) {
    forall a, g :: a in files && Survives(v, deleted, target, g) ==> Before(a, g) || Before(g, a)
  }

  /** Added files are older than what stays above them and newer than what stays below. */
  ghost predicate FitsOrder(v: Levels, deleted: set<(nat, nat)>, target: nat, files: seq<File>) {
    && (forall a, l, g {:trigger a in files, Survives(v, deleted, l, g)} ::
          a in files && Survives(v, deleted, l, g) && l < target ==> FileNewer(g, a))
    && (forall a, l, g {:trigger a in files, Survives(v, deleted, l, g)} ::
          a in files && Survives(v, deleted, l, g) && l > target ==> FileNewer(a, g))
  }

  /** In level 0 files may overlap: later ones are newer and have higher numbers. */
  ghost predicate FitsLevelZero(v: Levels, deleted: set<(nat, nat)>, files: seq<File>) {
    && (forall i, j :: 0 <= i < j < |files| ==> files[i].number < files[j].number && FileNewer(files[j], files[i]))
    && (forall a, g :: a in files && Survives(v, deleted, 0, g) ==> a.number > g.number && FileNewer(a, g))
  }

  lemma EditKeepsValid(v: Levels, deleted: set<(nat, nat)>, target: nat, files: seq<File>)
    requires ValidLevels(v) && target < NUM_LEVELS
    requires AllWellFormed(files) && DistinctNumbers(files)
    requires forall f, g :: f in files && g in v[target] ==> f.number != g.number
    requires forall f, l, g :: f in files && Survives(v, deleted, l, g) ==> f.number != g.number
    requires target > 0 ==> PairwiseBefore(files) && FitsLevel(v, deleted, target, files)
    requires target == 0 ==> FitsLevelZero(v, deleted, files)
    requires FitsOrder(v, deleted, target, files)
    ensures ValidLevels(ApplyEdit(v, AddingEdit(deleted, target, files)))
  {
    hide FitsLevel, FitsOrder, FitsLevelZero, NewerAbove, UniqueNumbers, LevelSorted, PairwiseBefore, DistinctNumbers,
         AllWellFormed, InBuilderOrder, Survives, ApplyEdit, AddingEdit;
    var v' := ApplyEdit(v, AddingEdit(deleted, target, files));
    AppliedSize(v, AddingEdit(deleted, target, files));
    AppliedMembers(v, deleted, target, files);
    forall l | 0 <= l < NUM_LEVELS
      ensures AllWellFormed(v'[l])
    {
      StillWellFormed(v, deleted, l, v'[l], if l == target then files else []);
    }
    forall l | 1 <= l < NUM_LEVELS
      ensures LevelSorted(v'[l])
    {
      if l == target {
        TargetIsSorted(v, deleted, l, v'[l], files);
      } else {
        OthersAreSorted(v, deleted, l, v'[l]);
      }
    }
    OrderIsKept(v, deleted, target, files, v');
    NumbersAreKept(v, deleted, target, files, v');
  }

  /** For files that fit otherwise, standing apart from what stays in the level is exactly what validity
      takes. */
  lemma EditKeepsValidIff(v: Levels, deleted: set<(nat, nat)>, target: nat, files: seq<File>)
    requires ValidLevels(v) && 0 < target < NUM_LEVELS
    requires AllWellFormed(files) && DistinctNumbers(files) && PairwiseBefore(files)
    requires forall f, g :: f in files && g in v[target] ==> f.number != g.number
    requires forall f, l, g :: f in files && Survives(v, deleted, l, g) ==> f.number != g.number
    requires FitsOrder(v, deleted, target, files)
    ensures ValidLevels(ApplyEdit(v, AddingEdit(deleted, target, files))) <==> FitsLevel(v, deleted, target, files)
  {
    hide FitsOrder, LevelSorted, PairwiseBefore, DistinctNumbers, AllWellFormed, InBuilderOrder, NewerAbove,
         UniqueNumbers, Survives, ApplyEdit, AddingEdit, Before;
    var v' := ApplyEdit(v, AddingEdit(deleted, target, files));
    if FitsLevel(v, deleted, target, files) {
      EditKeepsValid(v, deleted, target, files);
    } else if ValidLevels(v') {
      AppliedMembers(v, deleted, target, files);
      forall a, g | a in files && Survives(v, deleted, target, g)
        ensures Before(a, g) || Before(g, a)
      {
        SortedPair(v'[target], a, g);
      }
    }
  }

  lemma AppliedSize(v: Levels, e: Edit)
    requires |v| == NUM_LEVELS
    ensures |ApplyEdit(v, e)| == NUM_LEVELS
  {
  }

  lemma StillWellFormed(v: Levels, deleted: set<(nat, nat)>, l: nat, level: seq<File>, files: seq<File>)
    requires l < |v| && AllWellFormed(v[l]) && AllWellFormed(files)
    requires forall f :: f in level <==> f in files || Survives(v, deleted, l, f)
    ensures AllWellFormed(level)
  {
  }

  lemma TargetIsSorted(v: Levels, deleted: set<(nat, nat)>, l: nat, level: seq<File>, files: seq<File>)
    requires l < |v| && LevelSorted(v[l]) && InBuilderOrder(level) && AllWellFormed(level)
    requires forall f :: f in level <==> f in files || Survives(v, deleted, l, f)
    requires PairwiseBefore(files) && FitsLevel(v, deleted, l, files)
    ensures LevelSorted(level)
  {
    forall f, g | f in level && g in level && f != g
      ensures Before(f, g) || Before(g, f)
    {
      if f in files && g in files {
        var i :| 0 <= i < |files| && files[i] == f;
        var j :| 0 <= j < |files| && files[j] == g;
        assert i < j ==> Before(files[i], files[j]);
      } else if f !in files && g !in files {
        SortedPair(v[l], f, g);
      }
    }
    SeparatedIsSorted(level);
  }

  lemma OthersAreSorted(v: Levels, deleted: set<(nat, nat)>, l: nat, level: seq<File>)
    requires l < |v| && LevelSorted(v[l]) && InBuilderOrder(level) && AllWellFormed(level)
    requires forall f :: f in level <==> Survives(v, deleted, l, f)
    ensures LevelSorted(level)
  {
    forall f, g | f in level && g in level && f != g
      ensures Before(f, g) || Before(g, f)
    {
      SortedPair(v[l], f, g);
    }
    SeparatedIsSorted(level);
  }

  lemma OrderIsKept(v: Levels, deleted: set<(nat, nat)>, target: nat, files: seq<File>, v': Levels)
    requires |v| == |v'| == NUM_LEVELS && NewerAbove(v) && target < NUM_LEVELS
    requires forall l, f :: 0 <= l < NUM_LEVELS ==>
               (f in v'[l] <==> (l == target && f in files) || Survives(v, deleted, l, f))
    requires target == 0 ==> FitsLevelZero(v, deleted, files)
    requires FitsOrder(v, deleted, target, files)
    ensures NewerAbove(v')
  {
    hide FileNewer;
    forall f, g | f in v'[0] && g in v'[0] && f.number > g.number
      ensures FileNewer(f, g)
    {
      assert Survives(v, deleted, 0, f) || (target == 0 && f in files);
      assert Survives(v, deleted, 0, g) || (target == 0 && g in files);
      if target == 0 && f in files && g in files {
        var i :| 0 <= i < |files| && files[i] == f;
        var j :| 0 <= j < |files| && files[j] == g;
      }
    }
    assert LevelZeroOrdered(v'[0]);
    forall l, m, f, g | 0 <= l < m < NUM_LEVELS && f in v'[l] && g in v'[m]
      ensures FileNewer(f, g)
    {
      assert Survives(v, deleted, l, f) || (l == target && f in files);
      assert Survives(v, deleted, m, g) || (m == target && g in files);
    }
  }

  lemma NumbersAreKept(v: Levels, deleted: set<(nat, nat)>, target: nat, files: seq<File>, v': Levels)
    requires |v| == |v'| == NUM_LEVELS && UniqueNumbers(v) && DistinctNumbers(files)
    requires forall l, f :: 0 <= l < NUM_LEVELS ==>
               (f in v'[l] <==> (l == target && f in files) || Survives(v, deleted, l, f))
    requires forall f, l, g :: f in files && Survives(v, deleted, l, g) ==> f.number != g.number
    ensures UniqueNumbers(v')
  {
    forall l, m, f, g | 0 <= l < |v'| && 0 <= m < |v'| && f in v'[l] && g in v'[m] && f.number == g.number
      ensures l == m && f == g
    {
      assert Survives(v, deleted, l, f) || (l == target && f in files);
      assert Survives(v, deleted, m, g) || (m == target && g in files);
      if l == target && f in files && m == target && g in files {
        var i :| 0 <= i < |files| && files[i] == f;
        var j :| 0 <= j < |files| && files[j] == g;
        assert i == j;
      }
    }
  }

  /** The entries of the files that stay. */
  ghost function SurvivingEntries(v: Levels, deleted: set<(nat, nat)>): set<Entry> {
    set l, f, e | 0 <= l < |v| && f in v[l] && e in f.entries && Survives(v, deleted, l, f) :: e
  }

  /** The entries of the resulting version. */
  lemma AppliedEntries(v: Levels, deleted: set<(nat, nat)>, target: nat, files: seq<File>)
    requires |v| == NUM_LEVELS && target < NUM_LEVELS && DistinctNumbers(files)
    requires forall l :: 0 <= l < NUM_LEVELS ==> InBuilderOrder(v[l])
    requires forall f, g :: f in files && g in v[target] ==> f.number != g.number
    ensures VersionEntries(ApplyEdit(v, AddingEdit(deleted, target, files)))
         == FileEntries(files) + SurvivingEntries(v, deleted)
  {
    hide ValidLevels, InBuilderOrder, DistinctNumbers, VersionEntries, SurvivingEntries, FileEntries;
    AppliedMembers(v, deleted, target, files);
    EntriesByMembers(v, deleted, target, files, ApplyEdit(v, AddingEdit(deleted, target, files)));
  }

  lemma EntriesByMembers(v: Levels, deleted: set<(nat, nat)>, target: nat, files: seq<File>, v': Levels)
    requires |v| == |v'| == NUM_LEVELS && target < NUM_LEVELS
    requires forall l, f :: 0 <= l < NUM_LEVELS ==>
               (f in v'[l] <==> (l == target && f in files) || Survives(v, deleted, l, f))
    ensures VersionEntries(v') == FileEntries(files) + SurvivingEntries(v, deleted)
  {
    forall e | e in VersionEntries(v')
      ensures e in FileEntries(files) + SurvivingEntries(v, deleted)
    {
      var l: nat, f: File :| l < |v'| && f in v'[l] && e in f.entries;
      assert (l == target && f in files) || Survives(v, deleted, l, f);
    }
    forall e | e in FileEntries(files)
      ensures e in VersionEntries(v')
    {
      var f :| f in files && e in f.entries;
      assert f in v'[target];
    }
    forall e | e in SurvivingEntries(v, deleted)
      ensures e in VersionEntries(v')
    {
      var l: nat, f: File :| l < |v| && f in v[l] && e in f.entries && Survives(v, deleted, l, f);
      assert f in v'[l];
    }
  }

  // ----- A flushed memtable -----

  /** The new file is newer than everything in the version and has the highest number. */
  ghost predicate NewestFile(v: Levels, f: File) {
    forall l, g {:trigger g in v[l]} :: 0 <= l < |v| && g in v[l] ==> f.number > g.number && FileNewer(f, g)
  }

  /** What PickLevelForMemTableOutput guarantees. */
  ghost predicate RoomAt(v: Levels, level: nat, f: File) {
    level > 0 ==>
      forall l, g :: 0 <= l <= level && l < |v| && g in v[l] ==> !Overlaps(g, Some(f.smallest.user), Some(f.largest.user))
  }

  lemma FlushKeepsValid(v: Levels, level: nat, f: File)
    requires ValidLevels(v) && WellFormed(f) && NewestFile(v, f) && RoomAt(v, level, f) && level < NUM_LEVELS
    ensures ValidLevels(ApplyEdit(v, AddingEdit({}, level, [f])))
  {
    hide ValidLevels, WellFormed;
    LevelFacts(v);
    forall l, g | Survives(v, {}, l, g) && 0 < level && l <= level
      ensures Before(f, g) || Before(g, f)
      ensures FileNewer(g, f)
    {
      ApartFiles(f, g);
    }
    FlushFits(v, level, f);
    EditKeepsValid(v, {}, level, [f]);
  }

  lemma FlushFits(v: Levels, level: nat, f: File)
    requires NewestFile(v, f) && level < |v|
    requires forall l, g :: Survives(v, {}, l, g) && 0 < level && l <= level ==>
               (Before(f, g) || Before(g, f)) && FileNewer(g, f)
    ensures FitsOrder(v, {}, level, [f])
    ensures level > 0 ==> FitsLevel(v, {}, level, [f])
    ensures level == 0 ==> FitsLevelZero(v, {}, [f])
    ensures forall a, l, g :: a in [f] && Survives(v, {}, l, g) ==> a.number != g.number
    ensures forall a, g :: a in [f] && g in v[level] ==> a.number != g.number
    ensures DistinctNumbers([f]) && PairwiseBefore([f])
  {
    hide FileNewer, Before;
  }

  lemma ApartFiles(f: File, g: File)
    requires WellFormed(f) && WellFormed(g) && !Overlaps(g, Some(f.smallest.user), Some(f.largest.user))
    ensures Before(f, g) || Before(g, f)
    ensures forall e, x :: e in g.entries && x in f.entries ==> e.User() != x.User()
  {
    forall e, x | e in g.entries && x in f.entries
      ensures e.User() != x.User()
    {
      EntryInRange(f, x);
      EntryInRange(g, e);
    }
  }

  // ----- Compaction outputs, and a file moved down whole -----

  /** Compaction::AddInputDeletions */
  function InputDeletions(c: Inputs): set<(nat, nat)> {
    (set f | f in c.upper :: (c.level, f.number)) + (set f | f in c.lower :: (c.level + 1, f.number))
  }

  lemma SurvivesIsLeftOut(v: Levels, c: Inputs, l: int, f: File)
    requires ValidLevels(v) && StillClosed(v, c)
    ensures Survives(v, InputDeletions(c), l, f) <==>
            0 <= l < |v| && f in v[l] && !(l == c.level && f in c.upper) && !(l == c.level + 1 && f in c.lower)
  {
    hide InBuilderOrder, AllWellFormed, LevelSorted, NewerAbove, SmallestKey, LargestKey, FileNewer;
    if 0 <= l < |v| && f in v[l] && (l, f.number) in InputDeletions(c) {
      if l == c.level {
        var g :| g in c.upper && g.number == f.number;
        assert g in v[l];
      } else {
        var g :| g in c.lower && g.number == f.number;
        assert g in v[l];
      }
    }
  }

  lemma SurvivingIsOther(v: Levels, c: Inputs)
    requires ValidLevels(v) && StillClosed(v, c)
    ensures SurvivingEntries(v, InputDeletions(c)) == OtherFiles(v, c)
  {
    hide ValidLevels, StillClosed, Survives;
    forall l, f
      ensures Survives(v, InputDeletions(c), l, f) <==>
              0 <= l < |v| && f in v[l] && !(l == c.level && f in c.upper) && !(l == c.level + 1 && f in c.lower)
    {
      SurvivesIsLeftOut(v, c, l, f);
    }
  }

  /** New files for the lower level, made of input entries only. */
  ghost predicate OutputsFrom(v: Levels, c: Inputs, outs: seq<File>)
    requires |v| == NUM_LEVELS && c.level + 1 < NUM_LEVELS
  {
    && AllWellFormed(outs) && DistinctNumbers(outs) && PairwiseBefore(outs)
    && FileEntries(outs) <= InputEntries(c)
    && (forall o, g :: o in outs && g in v[c.level + 1] ==> o.number != g.number)
    && (forall o, l, g :: o in outs && Survives(v, InputDeletions(c), l, g) ==> o.number != g.number)
  }

  /** No output spans a file that stays in the lower level. */
  ghost predicate OutputsFit(v: Levels, c: Inputs, outs: seq<File>) {
    FitsLevel(v, InputDeletions(c), c.level + 1, outs)
  }

  /** Exactly when installing the outputs keeps the version valid. */
  lemma InstallKeepsValidIff(v: Levels, c: Inputs, outs: seq<File>)
    requires ValidLevels(v) && StillClosed(v, c) && UniqueSeqs(VersionEntries(v)) && OutputsFrom(v, c, outs)
    ensures ValidLevels(ApplyEdit(v, AddingEdit(InputDeletions(c), c.level + 1, outs))) <==> OutputsFit(v, c, outs)
  {
    var deleted, target := InputDeletions(c), c.level + 1;
    hide ValidLevels, StillClosed, AllWellFormed, DistinctNumbers, PairwiseBefore, Survives, FileNewer, FitsLevel,
         UniqueSeqs, AddingEdit, ApplyEdit;
    LevelFacts(v);
    ClosedFacts(v, c);
    forall a, l, g | a in outs && Survives(v, deleted, l, g) && l < target
      ensures FileNewer(g, a)
    {
      SurvivesIsLeftOut(v, c, l, g);
      OutputsAreOlder(v, c, outs, a, l, g);
    }
    forall a, l, g | a in outs && Survives(v, deleted, l, g) && l > target
      ensures FileNewer(a, g)
    {
      SurvivesIsLeftOut(v, c, l, g);
      OutputsAreNewer(v, c, outs, a, l, g);
    }
    EditKeepsValidIff(v, deleted, target, outs);
  }

  /** While no file was flushed into a gap between the inputs, outputs always fit. */
  lemma ClosedOutputsFit(v: Levels, c: Inputs, outs: seq<File>)
    requires ValidLevels(v) && Closed(v, c) && OutputsFrom(v, c, outs)
    ensures OutputsFit(v, c, outs)
  {
    hide ValidLevels, Closed, StillClosed, OutputsFrom, Survives, Before, InputDeletions;
    LevelFacts(v);
    ClosedIsStillClosed(v, c);
    forall a, g | a in outs && Survives(v, InputDeletions(c), c.level + 1, g)
      ensures Before(a, g) || Before(g, a)
    {
      SurvivesIsLeftOut(v, c, c.level + 1, g);
      LeftOutIsOutside(v, c, g);
      OutputsStandApart(v, c, outs, a, g);
    }
  }

  lemma OutputsAreOlder(v: Levels, c: Inputs, outs: seq<File>, a: File, l: nat, g: File)
    requires ValidLevels(v) && StillClosed(v, c) && OutputsFrom(v, c, outs) && a in outs
    requires l <= c.level && g in v[l] && !(l == c.level && g in c.upper)
    ensures FileNewer(g, a)
  {
    hide ValidLevels, StillClosed, AllWellFormed, DistinctNumbers, PairwiseBefore, Survives;
    LevelFacts(v);
    forall e, x | e in g.entries && x in a.entries && e.User() == x.User()
      ensures e.Seq() > x.Seq()
    {
      assert x in FileEntries(outs);
      var m, f := InputFile(v, c, x);
      LeftOutAboveIsNewer(v, c, m, f, x, l, g, e);
    }
  }

  lemma OutputsAreNewer(v: Levels, c: Inputs, outs: seq<File>, a: File, l: nat, g: File)
    requires ValidLevels(v) && StillClosed(v, c) && OutputsFrom(v, c, outs) && a in outs
    requires c.level + 1 < l < |v| && g in v[l]
    ensures FileNewer(a, g)
  {
    hide ValidLevels, StillClosed, AllWellFormed, DistinctNumbers, PairwiseBefore, Survives;
    LevelFacts(v);
    forall e, x | e in a.entries && x in g.entries && e.User() == x.User()
      ensures e.Seq() > x.Seq()
    {
      assert e in FileEntries(outs);
      var m, f := InputFile(v, c, e);
      UpperLevelIsNewer(v, m, f, l, g);
    }
  }

  lemma UpperLevelIsNewer(v: Levels, m: nat, f: File, l: nat, g: File)
    requires ValidLevels(v) && m < l < |v| && f in v[m] && g in v[l]
    ensures FileNewer(f, g)
  {
    hide FileNewer;
  }

  /** A left-out file outside the range of the upper inputs lies before all input entries or after all of them. */
  lemma OutputsStandApart(v: Levels, c: Inputs, outs: seq<File>, a: File, g: File)
    requires ValidLevels(v) && StillClosed(v, c) && OutputsFrom(v, c, outs) && a in outs
    requires g in v[c.level + 1] && g !in c.lower && !Overlaps(g, UserLo(c.upper), UserHi(c.upper))
    ensures Before(a, g) || Before(g, a)
  {
    hide ValidLevels, StillClosed, AllWellFormed, DistinctNumbers, PairwiseBefore, Survives, SmallestKey, LargestKey;
    LevelFacts(v);
    LowerFacts(v, c);
    assert WellFormed(a) by { WellFormedMember(outs, a); }
    var first, last := a.entries[0], a.entries[|a.entries| - 1];
    assert first in a.entries && last in a.entries;
    assert first in FileEntries(outs) && last in FileEntries(outs);
    if g.largest.user < UserLo(c.upper).value {
      InputsFollow(v, c, g, first);
    } else {
      InputsPrecede(v, c, g, last);
    }
  }

  lemma InputsFollow(v: Levels, c: Inputs, g: File, e: Entry)
    requires ValidLevels(v) && StillClosed(v, c) && e in InputEntries(c)
    requires g in v[c.level + 1] && g !in c.lower && g.largest.user < UserLo(c.upper).value
    ensures Less(g.largest, e.ikey)
  {
    hide ValidLevels, StillClosed, SmallestKey, LargestKey;
    LevelFacts(v);
    LowerFacts(v, c);
    var l, f := InputFile(v, c, e);
    EntryInRange(f, e);
    if l == c.level {
      RangeBounds(c.upper);
    } else {
      SortedPair(v[l], f, g);
      WellFormedMember(v[l], g);
      EntryInRange(g, g.entries[0]);
    }
  }

  lemma InputsPrecede(v: Levels, c: Inputs, g: File, e: Entry)
    requires ValidLevels(v) && StillClosed(v, c) && e in InputEntries(c)
    requires g in v[c.level + 1] && g !in c.lower && g.smallest.user > UserHi(c.upper).value
    ensures Less(e.ikey, g.smallest)
  {
    hide ValidLevels, StillClosed, SmallestKey, LargestKey;
    LevelFacts(v);
    LowerFacts(v, c);
    var l, f := InputFile(v, c, e);
    EntryInRange(f, e);
    if l == c.level {
      RangeBounds(c.upper);
    } else {
      SortedPair(v[l], f, g);
      WellFormedMember(v[l], g);
      EntryInRange(g, g.entries[0]);
    }
  }

  lemma LeftOutIsOutside(v: Levels, c: Inputs, g: File)
    requires |v| == NUM_LEVELS && Closed(v, c) && g in v[c.level + 1] && g !in c.lower
    ensures !Overlaps(g, UserLo(c.upper), UserHi(c.upper))
  {
  }
}
