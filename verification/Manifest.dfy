/** Recovery from the manifest: one builder that folds every logged edit over an empty version
    rebuilds the version that the running store reached by installing them one at a time. */
module Manifest {
  import opened InternalKeys
  import opened Versions
  import opened Builders

  const EMPTY_VERSION: Levels := [[], [], [], [], [], [], []]

  /** The running store: LogAndApply once per edit. */
  ghost function Running(v: Levels, edits: seq<Edit>): (r: Levels)
    requires |v| == NUM_LEVELS
    ensures |r| == NUM_LEVELS
  {
    if edits == [] then v
    else ApplyEdit(Running(v, edits[..|edits| - 1]), edits[|edits| - 1])
  }

  /** One level of the recovering builder: files added so far, numbers marked deleted so far. */
  ghost function BuilderAdded(edits: seq<Edit>, level: nat): seq<File> {
    if edits == [] then []
    else AddedAfter(BuilderAdded(edits[..|edits| - 1], level), edits[|edits| - 1].added, level)
  }

  ghost function BuilderDeleted(edits: seq<Edit>, level: nat): set<nat> {
    if edits == [] then {}
    else DeletedAfter(BuilderDeleted(edits[..|edits| - 1], level), edits[|edits| - 1], level)
  }

  /** All the additions the log makes, in order. */
  ghost function Additions(edits: seq<Edit>): seq<(nat, File)> {
    if edits == [] then [] else Additions(edits[..|edits| - 1]) + edits[|edits| - 1].added
  }

  /** No file number is added twice at one level. */
  ghost predicate AddedOnce(news: seq<(nat, File)>) {
    forall i, j :: 0 <= i < j < |news| && news[i].0 == news[j].0 ==> news[i].1.number != news[j].1.number
  }

  /** VersionSet::Recover, the part that rebuilds the version from the decoded records. */
  method Recover(edits: seq<Edit>) returns (v: Levels)
    requires forall i :: 0 <= i < |edits| ==> ValidEdit(edits[i])
    ensures |v| == NUM_LEVELS
    ensures forall l :: 0 <= l < NUM_LEVELS ==> v[l] == Live(BuilderAdded(edits, l), BuilderDeleted(edits, l))
    ensures AddedOnce(Additions(edits)) ==> v == Running(EMPTY_VERSION, edits)
  {
    hide Merge, Live, AddedAfter, DeletedAfter, Running, Additions, AddedOnce, ValidEdit;
    var builder := new Builder(EMPTY_VERSION);
    assert edits[..0] == [];
    for i := 0 to |edits|
      invariant builder.Valid() && fresh(builder) && builder.base == EMPTY_VERSION
      invariant forall l :: 0 <= l < NUM_LEVELS ==> builder.addedFiles[l] == BuilderAdded(edits[..i], l)
      invariant forall l :: 0 <= l < NUM_LEVELS ==> builder.deletedFiles[l] == BuilderDeleted(edits[..i], l)
    {
      assert edits[..i + 1][..i] == edits[..i];
      builder.Apply(edits[i]);
    }
    v := builder.SaveTo();
    assert edits[..|edits|] == edits;
    forall l | 0 <= l < NUM_LEVELS
      ensures v[l] == Live(BuilderAdded(edits, l), BuilderDeleted(edits, l))
    {
      MergeIntoNothing(BuilderAdded(edits, l));
    }
    if AddedOnce(Additions(edits)) {
      ReplayRebuildsRunning(edits, v);
    }
  }

  lemma MergeIntoNothing(files: seq<File>)
    ensures Merge([], files) == files
  {
  }

  lemma AddedOncePrefix(edits: seq<Edit>)
    requires edits != [] && AddedOnce(Additions(edits))
    ensures AddedOnce(Additions(edits[..|edits| - 1]))
    ensures AddedOnce(edits[|edits| - 1].added)
    ensures forall a, b :: a in Additions(edits[..|edits| - 1]) && b in edits[|edits| - 1].added && a.0 == b.0
                           ==> a.1.number != b.1.number
  {
    var before, last := Additions(edits[..|edits| - 1]), edits[|edits| - 1].added;
    var all := Additions(edits);
    assert forall i :: 0 <= i < |before| ==> all[i] == before[i];
    assert forall i :: 0 <= i < |last| ==> all[|before| + i] == last[i];
  }

  /** Adding files with new numbers to a builder's set keeps them all. */
  lemma {:induction false} AddedAfterMembers(files: seq<File>, news: seq<(nat, File)>, level: nat)
    requires AddedOnce(news)
    requires forall f, a :: f in files && a in news && a.0 == level ==> f.number != a.1.number
    ensures forall f :: f in AddedAfter(files, news, level) <==> f in files || (level, f) in news
  {
    if news != [] {
      var n := |news| - 1;
      assert forall x :: x in news <==> x in news[..n] || x == news[n];
      AddedAfterMembers(files, news[..n], level);
      var before := AddedAfter(files, news[..n], level);
      forall g | g in before && news[n].0 == level
        ensures g.number != news[n].1.number
      {
        if g !in files {
          var i :| 0 <= i < n && news[..n][i] == (level, g);
          assert news[i] == (level, g);
        }
      }
    }
  }

  /** The builder's sets describe exactly the running level: added, and not marked deleted. */
  lemma {:induction false} BuilderDescribesLevel(edits: seq<Edit>, level: nat)
    requires AddedOnce(Additions(edits)) && level < NUM_LEVELS
    ensures InBuilderOrder(BuilderAdded(edits, level))
    ensures InBuilderOrder(Running(EMPTY_VERSION, edits)[level])
    ensures forall f :: f in BuilderAdded(edits, level) ==> (level, f) in Additions(edits)
    ensures forall f :: f in Running(EMPTY_VERSION, edits)[level] <==>
                        f in BuilderAdded(edits, level) && f.number !in BuilderDeleted(edits, level)
  {
    if edits == [] {
    } else {
      var n := |edits| - 1;
      var e := edits[n];
      AddedOncePrefix(edits);
      BuilderDescribesLevel(edits[..n], level);
      var running, added := Running(EMPTY_VERSION, edits[..n])[level], BuilderAdded(edits[..n], level);
      AddedAfterMembers(added, e.added, level);
      AddedInOrder(added, e.added, level);
      forall f | f in added
        ensures !AddsNumber(e.added, level, f.number)
      {
        assert (level, f) in Additions(edits[..n]);
      }
      LevelAfterOrder(running, e, level);
      LevelAfterMembers(running, e, level);
      forall f | (level, f) in e.added
        ensures AddsNumber(e.added, level, f.number)
      {
        var i :| 0 <= i < |e.added| && e.added[i] == (level, f);
        assert e.added[i].0 == level && e.added[i].1.number == f.number;
      }
      forall f | f in added
        ensures f.number in BuilderDeleted(edits, level) <==>
                f.number in BuilderDeleted(edits[..n], level) || (level, f.number) in e.deleted
      {
        assert (level, f.number) in e.deleted <==> f.number in NumbersAt(e.deleted, level);
      }
    }
  }

  /** Replaying the whole log through one builder gives the running version, file by file, in order. */
  lemma ReplayRebuildsRunning(edits: seq<Edit>, v: Levels)
    requires AddedOnce(Additions(edits)) && |v| == NUM_LEVELS
    requires forall l :: 0 <= l < NUM_LEVELS ==> v[l] == Live(BuilderAdded(edits, l), BuilderDeleted(edits, l))
    ensures v == Running(EMPTY_VERSION, edits)
  {
    forall l | 0 <= l < NUM_LEVELS
      ensures v[l] == Running(EMPTY_VERSION, edits)[l]
    {
      BuilderDescribesLevel(edits, l);
      LiveKeepsOrder(BuilderAdded(edits, l), BuilderDeleted(edits, l));
      SameFilesSameOrder(v[l], Running(EMPTY_VERSION, edits)[l]);
    }
  }
}
