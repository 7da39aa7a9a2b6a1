/** The first record of a new manifest (db/version_set.cc: WriteSnapshot) lists every file of the current
    version; replaying it, and the edits logged after it, gives the running version again. */
module ManifestSnapshot {
  import opened InternalKeys
  import opened Versions
  import opened Builders
  import opened Manifest

  /** All files of some levels, level by level. */
  function AllFiles(v: Levels, n: nat): seq<(nat, File)>
    requires n <= |v|
  {
    if n == 0 then [] else AllFiles(v, n - 1) + LevelFiles(v[n - 1], n - 1, |v[n - 1]|)
  }

  function LevelFiles(files: seq<File>, level: nat, n: nat): seq<(nat, File)>
    requires n <= |files|
  {
    if n == 0 then [] else LevelFiles(files, level, n - 1) + [(level, files[n - 1])]
  }

  function SnapshotEdit(v: Levels): Edit {
    Edit({}, AllFiles(v, |v|))
  }

  /** WriteSnapshot's loops over levels and files. */
  method BuildSnapshotEdit(v: Levels) returns (e: Edit)
    ensures e == SnapshotEdit(v)
  {
    var added: seq<(nat, File)> := [];
    for level := 0 to |v|
      invariant added == AllFiles(v, level)
    {
      ghost var before := added;
      for i := 0 to |v[level]|
        invariant added == before + LevelFiles(v[level], level, i)
      {
        added := added + [(level, v[level][i])];
      }
    }
    e := Edit({}, added);
  }

  lemma {:induction false} LevelFilesAre(files: seq<File>, level: nat, n: nat)
    requires n <= |files|
    ensures |LevelFiles(files, level, n)| == n
    ensures forall i :: 0 <= i < n ==> LevelFiles(files, level, n)[i] == (level, files[i])
  {
    if n > 0 {
      LevelFilesAre(files, level, n - 1);
    }
  }

  ghost predicate DistinctInLevels(v: Levels) {
    forall l, f, g :: 0 <= l < |v| && f in v[l] && g in v[l] && f.number == g.number ==> f == g
  }

  lemma {:induction false} AllFilesAre(v: Levels, n: nat)
    requires n <= |v| && DistinctInLevels(v) && forall l :: 0 <= l < |v| ==> InBuilderOrder(v[l])
    ensures forall l: nat, f: File :: (l, f) in AllFiles(v, n) <==> l < n && f in v[l]
    ensures AddedOnce(AllFiles(v, n))
  {
    hide InBuilderOrder, LevelFiles, AddedOnce, DistinctInLevels;
    if n > 0 {
      AllFilesAre(v, n - 1);
      PairsBelow(AllFiles(v, n - 1), n - 1);
      var before, files := AllFiles(v, n - 1), v[n - 1];
      LastLevelMembers(files, n - 1);
      OneMoreLevel(before, files, n - 1, v);
    } else {
      NothingTwice();
    }
  }

  lemma PairsBelow(before: seq<(nat, File)>, n: nat)
    requires forall l: nat, f: File :: (l, f) in before ==> l < n
    ensures forall a :: a in before ==> a.0 < n
  {
    forall a | a in before
      ensures a.0 < n
    {
      assert (a.0, a.1) == a;
    }
  }

  lemma NothingTwice()
    ensures AddedOnce([])
  {
  }

  lemma OneMoreLevel(before: seq<(nat, File)>, files: seq<File>, level: nat, v: Levels)
    requires AddedOnce(before) && forall a :: a in before ==> a.0 < level
    requires InBuilderOrder(files) && level < |v| && v[level] == files && DistinctInLevels(v)
    ensures AddedOnce(before + LevelFiles(files, level, |files|))
  {
    hide InBuilderOrder;
    var last := LevelFiles(files, level, |files|);
    LevelFilesAre(files, level, |files|);
    var both: seq<(nat, File)> := before + last;
    forall i, j | 0 <= i < j < |both| && both[i].0 == both[j].0
      ensures both[i].1.number != both[j].1.number
    {
      assert i < |before| ==> both[i] in before;
      if i >= |before| {
        OrderedDiffer(files, i - |before|, j - |before|);
      }
    }
  }

  lemma LastLevelMembers(files: seq<File>, level: nat)
    ensures forall l: nat, f: File :: (l, f) in LevelFiles(files, level, |files|) <==> l == level && f in files
  {
    LevelFilesAre(files, level, |files|);
    forall f | f in files
      ensures (level, f) in LevelFiles(files, level, |files|)
    {
      var i :| 0 <= i < |files| && files[i] == f;
      assert LevelFiles(files, level, |files|)[i] == (level, f);
    }
  }

  lemma OrderedDiffer(files: seq<File>, i: nat, j: nat)
    requires InBuilderOrder(files) && i < j < |files|
    ensures files[i] != files[j] && files[i] in files && files[j] in files
  {
    assert BySmallest(files[i], files[j]);
  }

  /** The snapshot record alone replays to the version it was taken of. */
  lemma SnapshotRestores(v: Levels)
    requires |v| == NUM_LEVELS && DistinctInLevels(v) && forall l :: 0 <= l < NUM_LEVELS ==> InBuilderOrder(v[l])
    ensures ApplyEdit(EMPTY_VERSION, SnapshotEdit(v)) == v
    ensures AddedOnce(Additions([SnapshotEdit(v)]))
    ensures Running(EMPTY_VERSION, [SnapshotEdit(v)]) == v
  {
    hide InBuilderOrder, LevelAfter, AllFiles;
    var e := SnapshotEdit(v);
    AllFilesAre(v, |v|);
    forall l | 0 <= l < NUM_LEVELS
      ensures LevelAfter(EMPTY_VERSION[l], e, l) == v[l]
    {
      LevelAfterMembers([], e, l);
      NothingInOrder();
      LevelAfterOrder([], e, l);
      SameFilesSameOrder(LevelAfter([], e, l), v[l]);
      assert EMPTY_VERSION[l] == [];
    }
    assert ApplyEdit(EMPTY_VERSION, e) == v;
    assert [e][..0] == [];
    assert Additions([e]) == e.added;
  }

  lemma NothingInOrder()
    ensures InBuilderOrder([])
  {
  }

  lemma {:induction false} RunningAfterSnapshot(v: Levels, edits: seq<Edit>)
    requires |v| == NUM_LEVELS && Running(EMPTY_VERSION, [SnapshotEdit(v)]) == v
    ensures Running(EMPTY_VERSION, [SnapshotEdit(v)] + edits) == Running(v, edits)
    decreases |edits|
  {
    hide ApplyEdit;
    var log := [SnapshotEdit(v)] + edits;
    if edits == [] {
      assert log == [SnapshotEdit(v)];
    } else {
      var n := |edits| - 1;
      assert log[..|log| - 1] == [SnapshotEdit(v)] + edits[..n];
      RunningAfterSnapshot(v, edits[..n]);
    }
  }

  /** Recovery from a manifest that starts with a snapshot of `v`: one builder folding the snapshot record and
      all later edits gives the version that the running store reached from `v`. */
  method RecoverFromSnapshot(v: Levels, edits: seq<Edit>) returns (recovered: Levels)
    requires |v| == NUM_LEVELS && DistinctInLevels(v) && forall l :: 0 <= l < NUM_LEVELS ==> InBuilderOrder(v[l])
    requires forall i :: 0 <= i < |edits| ==> ValidEdit(edits[i])
    requires AddedOnce(Additions([SnapshotEdit(v)] + edits))
    ensures recovered == Running(v, edits)
  {
    hide Running, Additions, AddedOnce, DistinctInLevels, InBuilderOrder;
    var snapshot := BuildSnapshotEdit(v);
    SnapshotIsValid(v);
    recovered := Recover([snapshot] + edits);
    SnapshotRestores(v);
    RunningAfterSnapshot(v, edits);
  }

  lemma SnapshotIsValid(v: Levels)
    requires |v| == NUM_LEVELS && DistinctInLevels(v) && forall l :: 0 <= l < NUM_LEVELS ==> InBuilderOrder(v[l])
    ensures ValidEdit(SnapshotEdit(v))
  {
    AllFilesAre(v, |v|);
    forall a | a in SnapshotEdit(v).added
      ensures a.0 < NUM_LEVELS
    {
      assert (a.0, a.1) == a;
    }
  }
}
