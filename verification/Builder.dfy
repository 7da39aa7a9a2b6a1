/** VersionSet::Builder: applying edits to a version (db/version_set.cc, db/version_edit.h). */
module Builders {
  import opened InternalKeys
  import opened Versions

  /** The part of a VersionEdit that changes files: what to delete (level, number), what to add. */
  datatype Edit = Edit(deleted: set<(nat, nat)>, added: seq<(nat, File)>)

  predicate ValidEdit(e: Edit) {
    && (forall d :: d in e.deleted ==> d.0 < NUM_LEVELS)
    && (forall a :: a in e.added ==> a.0 < NUM_LEVELS)
  }

  predicate Equivalent(f: File, g: File) {
    f.smallest == g.smallest && f.number == g.number
  }

  /** std::set::insert under BySmallestKey: an equivalent file is not inserted again. */
  function InsertFile(files: seq<File>, f: File): (r: seq<File>)
    ensures forall g :: g in r ==> g == f || g in files
    ensures forall g :: g in files ==> g in r
    ensures f in r || exists g :: g in files && Equivalent(f, g)
  {
    if files == [] || BySmallest(f, files[0]) then [f] + files
    else if Equivalent(f, files[0]) then files
    else [files[0]] + InsertFile(files[1..], f)
  }

  lemma HeadIsFirst(files: seq<File>)
    requires files != [] && InBuilderOrder(files)
    ensures InBuilderOrder(files[1..])
    ensures forall f :: f in files ==> f == files[0] || BySmallest(files[0], f)
    ensures forall f :: f in files[1..] ==> BySmallest(files[0], f)
  {
    forall f | f in files
      ensures f == files[0] || BySmallest(files[0], f)
    {
      var i :| 0 <= i < |files| && files[i] == f;
      assert i > 0 ==> BySmallest(files[0], files[i]);
    }
    forall f | f in files[1..]
      ensures BySmallest(files[0], f)
    {
      var i :| 0 <= i < |files[1..]| && files[1..][i] == f;
      assert BySmallest(files[0], files[i + 1]);
    }
    forall i, j | 0 <= i < j < |files[1..]|
      ensures BySmallest(files[1..][i], files[1..][j])
    {
      assert BySmallest(files[i + 1], files[j + 1]);
    }
  }

  lemma ConsInOrder(f: File, rest: seq<File>)
    requires InBuilderOrder(rest)
    requires forall g :: g in rest ==> BySmallest(f, g)
    ensures InBuilderOrder([f] + rest)
  {
    var r := [f] + rest;
    forall i, j | 0 <= i < j < |r|
      ensures BySmallest(r[i], r[j])
    {
      assert r[j] == rest[j - 1] && rest[j - 1] in rest;
      if i > 0 { assert BySmallest(rest[i - 1], rest[j - 1]); }
    }
  }

  lemma {:induction false} InsertKeepsOrder(files: seq<File>, f: File)
    requires InBuilderOrder(files)
    ensures InBuilderOrder(InsertFile(files, f))
  {
    if files == [] {
    } else if BySmallest(f, files[0]) {
      HeadIsFirst(files);
      ConsInOrder(f, files);
    } else if !Equivalent(f, files[0]) {
      HeadIsFirst(files);
      InsertKeepsOrder(files[1..], f);
      ConsInOrder(files[0], InsertFile(files[1..], f));
    }
  }

  /** The files added at one level, in builder order, after some more additions. */
  function AddedAfter(files: seq<File>, news: seq<(nat, File)>, level: nat): (r: seq<File>)
  {
    if news == [] then files
    else
      var a := news[|news| - 1];
      var before := AddedAfter(files, news[..|news| - 1], level);
      if a.0 == level then InsertFile(before, a.1) else before
  }

  lemma {:induction false} AddedInOrder(files: seq<File>, news: seq<(nat, File)>, level: nat)
    requires InBuilderOrder(files)
    ensures InBuilderOrder(AddedAfter(files, news, level))
  {
    if news != [] {
      AddedInOrder(files, news[..|news| - 1], level);
      InsertKeepsOrder(AddedAfter(files, news[..|news| - 1], level), news[|news| - 1].1);
    }
  }

  predicate AddsNumber(news: seq<(nat, File)>, level: nat, number: nat) {
    exists i :: 0 <= i < |news| && news[i].0 == level && news[i].1.number == number
  }

  ghost function NumbersAt(pairs: set<(nat, nat)>, level: nat): set<nat> {
    set d | d in pairs && d.0 == level :: d.1
  }

  ghost function Unmarked(deleted: set<nat>, news: seq<(nat, File)>, level: nat): set<nat> {
    set n | n in deleted && !AddsNumber(news, level, n)
  }

  /** The numbers marked deleted at one level after an edit: additions unmark. */
  ghost function DeletedAfter(deleted: set<nat>, e: Edit, level: nat): set<nat> {
    Unmarked(deleted + NumbersAt(e.deleted, level), e.added, level)
  }

  /** Drop the files marked deleted. */
  ghost function Live(files: seq<File>, deleted: set<nat>): (r: seq<File>)
    ensures forall f :: f in r <==> f in files && f.number !in deleted
  {
    if files == [] then []
    else if files[0].number in deleted then Live(files[1..], deleted)
    else [files[0]] + Live(files[1..], deleted)
  }

  lemma {:induction false} LiveKeepsOrder(files: seq<File>, deleted: set<nat>)
    requires InBuilderOrder(files)
    ensures InBuilderOrder(Live(files, deleted))
  {
    if files != [] {
      HeadIsFirst(files);
      LiveKeepsOrder(files[1..], deleted);
      if files[0].number !in deleted {
        ConsInOrder(files[0], Live(files[1..], deleted));
      }
    }
  }

  /** Stable merge of the base files with the added ones. */
  function Merge(base: seq<File>, added: seq<File>): (r: seq<File>)
    ensures forall f :: f in r <==> f in base || f in added
  {
    if added == [] then base
    else if base == [] then added
    else if BySmallest(added[0], base[0]) then [added[0]] + Merge(base, added[1..])
    else [base[0]] + Merge(base[1..], added)
  }

  lemma {:induction false} MergeKeepsOrder(base: seq<File>, added: seq<File>)
    requires InBuilderOrder(base) && InBuilderOrder(added)
    requires forall f, g :: f in base && g in added ==> !Equivalent(f, g)
    ensures InBuilderOrder(Merge(base, added))
  {
    if added != [] && base != [] {
      HeadIsFirst(base);
      HeadIsFirst(added);
      assert base[0] in base && added[0] in added && !Equivalent(base[0], added[0]);
      if BySmallest(added[0], base[0]) {
        MergeKeepsOrder(base, added[1..]);
        ConsInOrder(added[0], Merge(base, added[1..]));
      } else {
        assert BySmallest(base[0], added[0]);
        MergeKeepsOrder(base[1..], added);
        ConsInOrder(base[0], Merge(base[1..], added));
      }
    }
  }

  /** Builder order plus pairwise separation is a sorted level. */
  lemma SeparatedIsSorted(files: seq<File>)
    requires InBuilderOrder(files) && AllWellFormed(files)
    requires forall f, g :: f in files && g in files && f != g ==> Before(f, g) || Before(g, f)
    ensures LevelSorted(files)
  {
    forall i, j | 0 <= i < j < |files|
      ensures Before(files[i], files[j])
    {
      assert BySmallest(files[i], files[j]) && files[i] in files && files[j] in files;
      EntryInRange(files[j], files[j].entries[0]);
      EntryInRange(files[i], files[i].entries[0]);
    }
  }

  lemma {:induction false} SameFilesSameOrder(a: seq<File>, b: seq<File>)
    requires InBuilderOrder(a) && InBuilderOrder(b)
    requires forall f :: f in a <==> f in b
    ensures a == b
  {
    assert |a| > 0 ==> a[0] in a;
    assert |b| > 0 ==> b[0] in b;
    if a == [] {
    } else {
      HeadIsFirst(a);
      HeadIsFirst(b);
      assert a[0] == b[0];
      assert forall f :: f in a <==> f == a[0] || f in a[1..];
      assert forall f :: f in b <==> f == b[0] || f in b[1..];
      SameFilesSameOrder(a[1..], b[1..]);
    }
  }

  /** One level of the version that results from one edit. */
  ghost function LevelAfter(files: seq<File>, e: Edit, level: nat): seq<File> {
    Live(Merge(files, AddedAfter([], e.added, level)), DeletedAfter({}, e, level))
  }

  /** The version that VersionSet::LogAndApply installs. */
  ghost function ApplyEdit(v: Levels, e: Edit): (r: Levels)
    requires |v| == NUM_LEVELS
    ensures |r| == NUM_LEVELS
  {
    seq(NUM_LEVELS, l requires 0 <= l < NUM_LEVELS => LevelAfter(v[l], e, l))
  }

  lemma {:induction false} AddedMembers(news: seq<(nat, File)>, level: nat)
    requires forall i, j :: 0 <= i < j < |news| && news[i].0 == news[j].0 ==> news[i].1.number != news[j].1.number
    ensures forall f :: f in AddedAfter([], news, level) <==> (level, f) in news
  {
    if news != [] {
      var n := |news| - 1;
      AddedMembers(news[..n], level);
      var before := AddedAfter([], news[..n], level);
      assert forall x :: x in news <==> x in news[..n] || x == news[n];
      forall g | g in before && news[n].0 == level
        ensures g.number != news[n].1.number
      {
        assert (level, g) in news[..n];
        var i :| 0 <= i < n && news[..n][i] == (level, g);
        assert news[i] == (level, g);
      }
    }
  }

  /** Membership in the level that one edit produces, when the edit adds each number once per level. */
  lemma LevelAfterMembers(files: seq<File>, e: Edit, level: nat)
    requires forall i, j :: 0 <= i < j < |e.added| && e.added[i].0 == e.added[j].0
                            ==> e.added[i].1.number != e.added[j].1.number
    ensures forall f :: f in LevelAfter(files, e, level) <==>
                        || (level, f) in e.added
                        || (f in files && ((level, f.number) !in e.deleted || AddsNumber(e.added, level, f.number)))
  {
    AddedMembers(e.added, level);
    forall f | (level, f) in e.added
      ensures AddsNumber(e.added, level, f.number)
    {
      var i :| 0 <= i < |e.added| && e.added[i] == (level, f);
      assert e.added[i].0 == level && e.added[i].1.number == f.number;
    }
  }

  /** The files added at a level come out in builder order and so does the merged level, when the
      numbers added are new at that level. */
  lemma LevelAfterOrder(files: seq<File>, e: Edit, level: nat)
    requires InBuilderOrder(files)
    requires forall i, j :: 0 <= i < j < |e.added| && e.added[i].0 == e.added[j].0
                            ==> e.added[i].1.number != e.added[j].1.number
    requires forall f :: f in files ==> !AddsNumber(e.added, level, f.number)
    ensures InBuilderOrder(LevelAfter(files, e, level))
  {
    var added := AddedAfter([], e.added, level);
    AddedMembers(e.added, level);
    AddedInOrder([], e.added, level);
    forall f, g | f in files && g in added
      ensures !Equivalent(f, g)
    {
      var i :| 0 <= i < |e.added| && e.added[i] == (level, g);
      assert !AddsNumber(e.added, level, f.number);
    }
    MergeKeepsOrder(files, added);
    LiveKeepsOrder(Merge(files, added), DeletedAfter({}, e, level));
  }

  // ----- The builder itself -----

  class Builder {
    const base: Levels
    var deletedFiles: seq<set<nat>>
    var addedFiles: seq<seq<File>>

    ghost predicate Valid()
      reads this
    {
      && |base| == |deletedFiles| == |addedFiles| == NUM_LEVELS
      && (forall l :: 0 <= l < NUM_LEVELS ==> InBuilderOrder(base[l]) && InBuilderOrder(addedFiles[l]))
    }

    /** What SaveTo would produce now. */
    ghost function Result(): Levels
      reads this
      requires Valid()
    {
      seq(NUM_LEVELS, l requires 0 <= l < NUM_LEVELS reads this requires Valid() =>
        Live(Merge(base[l], addedFiles[l]), deletedFiles[l]))
    }

    constructor (base: Levels)
      requires |base| == NUM_LEVELS
      requires forall l :: 0 <= l < NUM_LEVELS ==> InBuilderOrder(base[l])
      ensures Valid() && this.base == base
      ensures forall l :: 0 <= l < NUM_LEVELS ==> deletedFiles[l] == {} && addedFiles[l] == []
    {
      this.base := base;
      deletedFiles := seq(NUM_LEVELS, _ => {});
      addedFiles := seq(NUM_LEVELS, _ => []);
    }

    /** Builder::Apply: mark the deletions, then unmark and insert each addition. */
    method Apply(e: Edit)
      requires Valid() && ValidEdit(e)
      modifies this
      ensures Valid()
      ensures forall l :: 0 <= l < NUM_LEVELS ==> deletedFiles[l] == DeletedAfter(old(deletedFiles[l]), e, l)
      ensures forall l :: 0 <= l < NUM_LEVELS ==> addedFiles[l] == AddedAfter(old(addedFiles[l]), e.added, l)
    {
      MarkDeleted(e.deleted);
      ghost var marked := deletedFiles;
      assert e.added[..0] == [];
      for i := 0 to |e.added|
        invariant Valid()
        invariant forall l :: 0 <= l < NUM_LEVELS ==> deletedFiles[l] == Unmarked(marked[l], e.added[..i], l)
        invariant forall l :: 0 <= l < NUM_LEVELS ==>
                    addedFiles[l] == AddedAfter(old(addedFiles[l]), e.added[..i], l)
      {
        var (level, f) := e.added[i];
        assert e.added[i] in e.added;
        assert e.added[..i + 1][..i] == e.added[..i];
        AddsOneMore(e.added, i);
        InsertKeepsOrder(addedFiles[level], f);
        deletedFiles := deletedFiles[level := deletedFiles[level] - {f.number}];
        addedFiles := addedFiles[level := InsertFile(addedFiles[level], f)];
      }
      assert e.added[..|e.added|] == e.added;
    }

    method MarkDeleted(deleted: set<(nat, nat)>)
      requires Valid() && forall d :: d in deleted ==> d.0 < NUM_LEVELS
      modifies this`deletedFiles
      ensures Valid()
      ensures forall l :: 0 <= l < NUM_LEVELS ==> deletedFiles[l] == old(deletedFiles[l]) + NumbersAt(deleted, l)
    {
      var pending := deleted;
      while pending != {}
        invariant Valid() && pending <= deleted
        invariant forall l :: 0 <= l < NUM_LEVELS ==>
                    deletedFiles[l] == old(deletedFiles[l]) + NumbersAt(deleted - pending, l)
        decreases |pending|
      {
        var d :| d in pending;
        forall l
          ensures NumbersAt(deleted - (pending - {d}), l)
               == NumbersAt(deleted - pending, l) + if d.0 == l then {d.1} else {}
        {
          assert deleted - (pending - {d}) == deleted - pending + {d};
        }
        pending := pending - {d};
        deletedFiles := deletedFiles[d.0 := deletedFiles[d.0] + {d.1}];
      }
      assert deleted - pending == deleted;
    }

    /** Builder::SaveTo */
    method SaveTo() returns (v: Levels)
      requires Valid()
      ensures v == Result()
    {
      v := [];
      for level := 0 to NUM_LEVELS
        invariant |v| == level
        invariant forall l :: 0 <= l < level ==> v[l] == Live(Merge(base[l], addedFiles[l]), deletedFiles[l])
      {
        var files := SaveLevel(base[level], addedFiles[level], deletedFiles[level]);
        v := v + [files];
      }
    }
  }

  lemma AddsOneMore(news: seq<(nat, File)>, i: nat)
    requires i < |news|
    ensures forall l, n :: AddsNumber(news[..i + 1], l, n) <==>
                           AddsNumber(news[..i], l, n) || (news[i].0 == l && news[i].1.number == n)
  {
    forall l, n | AddsNumber(news[..i], l, n)
      ensures AddsNumber(news[..i + 1], l, n)
    {
      var j :| 0 <= j < i && news[..i][j].0 == l && news[..i][j].1.number == n;
      assert news[..i + 1][j].0 == l && news[..i + 1][j].1.number == n;
    }
    assert news[..i + 1][i] == news[i];
  }

  /** std::upper_bound on the base files from `start`: the first one strictly after `f`. */
  method UpperBound(base: seq<File>, start: nat, f: File) returns (pos: nat)
    requires start <= |base|
    ensures start <= pos <= |base|
    ensures forall i :: start <= i < pos ==> !BySmallest(f, base[i])
    ensures pos < |base| ==> BySmallest(f, base[pos])
  {
    pos := start;
    while pos < |base| && !BySmallest(f, base[pos])
      invariant start <= pos <= |base|
      invariant forall i :: start <= i < pos ==> !BySmallest(f, base[i])
    {
      pos := pos + 1;
    }
  }

  /** What SaveTo still has to emit at one level when it has consumed `b` base and `a` added files. */
  ghost function Remaining(base: seq<File>, b: nat, added: seq<File>, a: nat, deleted: set<nat>): seq<File>
    requires b <= |base| && a <= |added|
  {
    Live(Merge(base[b..], added[a..]), deleted)
  }

  lemma AllRemains(base: seq<File>, added: seq<File>, deleted: set<nat>)
    ensures Remaining(base, 0, added, 0, deleted) == Live(Merge(base, added), deleted)
    ensures Remaining(base, |base|, added, |added|, deleted) == []
  {
    assert base[0..] == base && added[0..] == added;
  }

  lemma EmitBase(base: seq<File>, b: nat, added: seq<File>, a: nat, deleted: set<nat>,
                 done: seq<File>)
    requires b < |base| && a <= |added|
    requires a < |added| ==> !BySmallest(added[a], base[b])
    ensures done + Remaining(base, b, added, a, deleted)
                        == MaybeAddFile(done, base[b], deleted) + Remaining(base, b + 1, added, a, deleted)
  {
    var rest := Merge(base[b + 1..], added[a..]);
    assert base[b..][1..] == base[b + 1..];
    assert base[b..] == [base[b]] + base[b + 1..];
    assert Merge(base[b..], added[a..]) == [base[b]] + rest;
    EmitOne(base[b], rest, deleted, done);
  }

  lemma EmitAdded(base: seq<File>, b: nat, added: seq<File>, a: nat, deleted: set<nat>,
                  done: seq<File>)
    requires b <= |base| && a < |added|
    requires b < |base| ==> BySmallest(added[a], base[b])
    ensures done + Remaining(base, b, added, a, deleted)
                        == MaybeAddFile(done, added[a], deleted) + Remaining(base, b, added, a + 1, deleted)
  {
    var rest := Merge(base[b..], added[a + 1..]);
    assert added[a..][1..] == added[a + 1..];
    assert added[a..] == [added[a]] + added[a + 1..];
    assert Merge(base[b..], added[a..]) == [added[a]] + rest;
    EmitOne(added[a], rest, deleted, done);
  }

  lemma EmitOne(f: File, rest: seq<File>, deleted: set<nat>, done: seq<File>)
    ensures done + Live([f] + rest, deleted) == MaybeAddFile(done, f, deleted) + Live(rest, deleted)
  {
    assert ([f] + rest)[1..] == rest;
  }

  /** The body of SaveTo for one level: merge, skipping deleted files (MaybeAddFile). */
  method SaveLevel(base: seq<File>, added: seq<File>, deleted: set<nat>) returns (files: seq<File>)
    ensures files == Live(Merge(base, added), deleted)
  {
    hide Merge, Live, Remaining;
    AllRemains(base, added, deleted);
    files := [];
    var b := 0;
    ghost var whole := Live(Merge(base, added), deleted);
    for a := 0 to |added|
      invariant 0 <= b <= |base|
      invariant files + Remaining(base, b, added, a, deleted) == whole
    {
      var bpos := UpperBound(base, b, added[a]);
      while b < bpos
        invariant b <= bpos <= |base|
        invariant files + Remaining(base, b, added, a, deleted) == whole
      {
        EmitBase(base, b, added, a, deleted, files);
        files := MaybeAddFile(files, base[b], deleted);
        b := b + 1;
      }
      EmitAdded(base, b, added, a, deleted, files);
      files := MaybeAddFile(files, added[a], deleted);
    }
    while b < |base|
      invariant 0 <= b <= |base|
      invariant files + Remaining(base, b, added, |added|, deleted) == whole
    {
      EmitBase(base, b, added, |added|, deleted, files);
      files := MaybeAddFile(files, base[b], deleted);
      b := b + 1;
    }
  }

  function MaybeAddFile(files: seq<File>, f: File, deleted: set<nat>): seq<File> {
    if f.number in deleted then files else files + [f]
  }
}
