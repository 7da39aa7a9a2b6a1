/** The iterators that reads and compactions run over (db/version_set.cc: AddIterators,
    MakeInputIterator): together their children hold exactly the entries of what they iterate. */
module StoreIterators {
  import opened InternalKeys
  import opened Versions
  import opened CompactionInputs
  import opened CompactionMeaning
  import opened Cursors
  import opened MergingIterators

  /** NewConcatenatingIterator: the files of a sorted level one after the other. */
  function Concatenation(files: seq<File>): seq<Entry> {
    if files == [] then [] else Concatenation(files[..|files| - 1]) + files[|files| - 1].entries
  }

  lemma {:induction false} ConcatenationIsSorted(files: seq<File>)
    requires LevelSorted(files) && AllWellFormed(files)
    ensures Sorted(Concatenation(files))
    ensures Elements(Concatenation(files)) == FileEntries(files)
    ensures files != [] ==> forall e :: e in Concatenation(files) ==> LessEq(e.ikey, files[|files| - 1].largest)
  {
    if files != [] {
      var n := |files| - 1;
      var init, last := files[..n], files[n];
      assert last in files;
      FrontIsSorted(files);
      ConcatenationIsSorted(init);
      forall e | e in last.entries
        ensures LessEq(e.ikey, last.largest) && LessEq(last.smallest, e.ikey)
      {
        EntryInRange(last, e);
      }
      if init != [] {
        assert Before(files[n - 1], files[n]);
      }
      JoinSorted(Concatenation(init), last.entries, last.smallest);
      FileEntriesFront(files);
    }
  }

  lemma FrontIsSorted(files: seq<File>)
    requires files != [] && LevelSorted(files) && AllWellFormed(files)
    ensures LevelSorted(files[..|files| - 1]) && AllWellFormed(files[..|files| - 1])
  {
  }

  lemma JoinSorted(a: seq<Entry>, b: seq<Entry>, k: IKey)
    requires Sorted(a) && Sorted(b)
    requires forall e :: e in a ==> Less(e.ikey, k)
    requires forall e :: e in b ==> LessEq(k, e.ikey)
    ensures Sorted(a + b) && Elements(a + b) == Elements(a) + Elements(b)
  {
    forall i, j | 0 <= i < j < |a + b|
      ensures Less((a + b)[i].ikey, (a + b)[j].ikey)
    {
      if i < |a| <= j {
        assert a[i] in a && b[j - |a|] in b;
      }
    }
  }

  lemma FileEntriesFront(files: seq<File>)
    requires files != []
    ensures FileEntries(files) == FileEntries(files[..|files| - 1]) + Elements(files[|files| - 1].entries)
  {
    assert forall f :: f in files <==> f in files[..|files| - 1] || f == files[|files| - 1];
  }

  // ----- One more child -----

  /** A child that shares no entry with the others, among entries with distinct sequence numbers. */
  lemma OneMoreChild(children: seq<seq<Entry>>, c: seq<Entry>)
    requires ProperChildren(children) && Sorted(c)
    requires UniqueSeqs(Union(children) + Elements(c)) && Union(children) !! Elements(c)
    ensures ProperChildren(children + [c]) && Union(children + [c]) == Union(children) + Elements(c)
  {
    hide Sorted;
    var r := children + [c];
    assert forall d :: d in r <==> d in children || d == c;
    forall i, j, x: Entry, y: Entry | 0 <= i < j < |r| && x in r[i] && y in r[j]
      ensures x.ikey != y.ikey
    {
      if j == |children| {
        assert children[i] in children && x in Union(children) && y in Elements(c);
        assert x != y;
      }
    }
  }

  /** An entry lies in at most one file of a version. */
  lemma InOneFile(v: Levels, l: nat, f: File, m: nat, g: File, e: Entry)
    requires ValidLevels(v) && l < NUM_LEVELS && m < NUM_LEVELS && f in v[l] && g in v[m]
    requires e in f.entries
    ensures e in g.entries ==> l == m && f == g
  {
    hide WellFormed, InBuilderOrder, FileNewer;
    if l != m {
      assert FileNewer(f, g) || FileNewer(g, f);
      SharesNothing(f, g, e);
    } else if f != g && l == 0 {
      assert f.number != g.number;
      assert FileNewer(f, g) || FileNewer(g, f);
      SharesNothing(f, g, e);
    } else if f != g {
      SortedPair(v[l], f, g);
      ApartShareNothing(f, g, e);
    }
  }

  lemma SharesNothing(f: File, g: File, e: Entry)
    requires (FileNewer(f, g) || FileNewer(g, f)) && e in f.entries
    ensures e !in g.entries
  {
  }

  lemma ApartShareNothing(f: File, g: File, e: Entry)
    requires WellFormed(f) && WellFormed(g) && (Before(f, g) || Before(g, f)) && e in f.entries
    ensures e !in g.entries
  {
    EntryInRange(f, e);
    forall x | x in g.entries
      ensures x != e
    {
      EntryInRange(g, x);
    }
  }

  /** Level-0 files each become a child of their own. */
  method AddEachFile(v: Levels, files: seq<File>, children: seq<seq<Entry>>) returns (r: seq<seq<Entry>>)
    requires ValidLevels(v) && InBuilderOrder(files) && forall f :: f in files ==> f in v[0]
    requires ProperChildren(children)
    requires UniqueSeqs(Union(children) + FileEntries(files)) && Union(children) !! FileEntries(files)
    ensures ProperChildren(r) && Union(r) == Union(children) + FileEntries(files)
  {
    hide ValidLevels, ProperChildren, Union, UniqueSeqs, InBuilderOrder, FileEntries, Elements;
    r := children;
    NoFiles();
    assert files[..0] == [];
    for i := 0 to |files|
      invariant ProperChildren(r) && Union(r) == Union(children) + FileEntries(files[..i])
    {
      NextFileIsApart(v, files, i);
      NextFileFits(files, i, Union(children));
      OneMoreChild(r, files[i].entries);
      r := r + [files[i].entries];
    }
    assert files[..|files|] == files;
  }

  lemma NoFiles()
    ensures FileEntries([]) == {}
  {
  }

  lemma NextFileIsApart(v: Levels, files: seq<File>, i: nat)
    requires ValidLevels(v) && InBuilderOrder(files) && (forall f :: f in files ==> f in v[0]) && i < |files|
    ensures Sorted(files[i].entries)
    ensures FileEntries(files[..i]) !! Elements(files[i].entries)
  {
    hide ValidLevels, InBuilderOrder;
    LevelFacts(v);
    WellFormedMember(v[0], files[i]);
    forall e | e in FileEntries(files[..i]) && e in files[i].entries
      ensures false
    {
      var f :| f in files[..i] && e in f.entries;
      InOneFile(v, 0, f, 0, files[i], e);
      var j :| 0 <= j < i && files[j] == f;
      OrderedFilesDiffer(files, j, i);
    }
  }

  lemma OrderedFilesDiffer(files: seq<File>, j: nat, i: nat)
    requires InBuilderOrder(files) && j < i < |files|
    ensures files[j] != files[i]
  {
    assert BySmallest(files[j], files[i]);
  }

  lemma NextFileFits(files: seq<File>, i: nat, others: set<Entry>)
    requires i < |files| && UniqueSeqs(others + FileEntries(files)) && others !! FileEntries(files)
    ensures FileEntries(files[..i + 1]) == FileEntries(files[..i]) + Elements(files[i].entries)
    ensures others !! Elements(files[i].entries)
    ensures UniqueSeqs(others + FileEntries(files[..i]) + Elements(files[i].entries))
  {
    assert files[..i + 1][..i] == files[..i];
    FileEntriesFront(files[..i + 1]);
    forall e | e in FileEntries(files[..i + 1])
      ensures e in FileEntries(files)
    {
    }
    assert forall e :: e in Elements(files[i].entries) ==> e in FileEntries(files);
  }

  /** The files of a sorted level become one concatenated child. */
  method AddSortedFiles(files: seq<File>, children: seq<seq<Entry>>) returns (r: seq<seq<Entry>>)
    requires AllWellFormed(files) && LevelSorted(files) && ProperChildren(children)
    requires UniqueSeqs(Union(children) + FileEntries(files)) && Union(children) !! FileEntries(files)
    ensures ProperChildren(r) && Union(r) == Union(children) + FileEntries(files)
  {
    hide AllWellFormed, LevelSorted, ProperChildren, Union, UniqueSeqs, FileEntries;
    r := children;
    if files != [] {
      ConcatenationIsSorted(files);
      OneMoreChild(children, Concatenation(files));
      r := children + [Concatenation(files)];
    } else {
      NoFiles();
    }
  }

  /** Version::AddIterators */
  method AddIterators(v: Levels, children: seq<seq<Entry>>) returns (r: seq<seq<Entry>>)
    requires ValidLevels(v) && ProperChildren(children)
    requires UniqueSeqs(Union(children) + VersionEntries(v)) && Union(children) !! VersionEntries(v)
    ensures ProperChildren(r) && Union(r) == Union(children) + VersionEntries(v)
  {
    hide ValidLevels, ProperChildren, Union, UniqueSeqs, FileEntries, VersionEntries, LevelSorted, AllWellFormed;
    LevelFacts(v);
    FirstLevels(v);
    NextLevelFits(v, 0, Union(children));
    r := AddEachFile(v, v[0], children);
    for level := 1 to NUM_LEVELS
      invariant ProperChildren(r) && Union(r) == Union(children) + VersionEntries(v[..level])
    {
      NextLevelIsApart(v, level);
      NextLevelFits(v, level, Union(children));
      r := AddSortedFiles(v[level], r);
    }
    assert v[..NUM_LEVELS] == v;
  }

  lemma FirstLevels(v: Levels)
    requires |v| == NUM_LEVELS
    ensures VersionEntries(v[..1]) == FileEntries(v[0]) && VersionEntries(v[..0]) == {}
  {
  }

  lemma NextLevelIsApart(v: Levels, level: nat)
    requires ValidLevels(v) && level < NUM_LEVELS
    ensures VersionEntries(v[..level]) !! FileEntries(v[level])
  {
    hide ValidLevels;
    LevelFacts(v);
    forall e | e in VersionEntries(v[..level]) && e in FileEntries(v[level])
      ensures false
    {
      var l: nat, f: File :| l < level && f in v[..level][l] && e in f.entries;
      var g :| g in v[level] && e in g.entries;
      InOneFile(v, l, f, level, g, e);
    }
  }

  lemma NextLevelFits(v: Levels, level: nat, others: set<Entry>)
    requires level < |v| && UniqueSeqs(others + VersionEntries(v)) && others !! VersionEntries(v)
    ensures VersionEntries(v[..level + 1]) == VersionEntries(v[..level]) + FileEntries(v[level])
    ensures others !! FileEntries(v[level])
    ensures UniqueSeqs(others + VersionEntries(v[..level]) + FileEntries(v[level]))
    ensures UniqueSeqs(others + FileEntries(v[level]))
  {
    forall e | e in VersionEntries(v[..level + 1])
      ensures e in VersionEntries(v[..level]) + FileEntries(v[level])
      ensures e in VersionEntries(v)
    {
      var l: nat, f: File :| l <= level && f in v[..level + 1][l] && e in f.entries;
      assert l < level ==> f in v[..level][l];
    }
    forall e | e in VersionEntries(v[..level])
      ensures e in VersionEntries(v[..level + 1]) && e in VersionEntries(v)
    {
      var l: nat, f: File :| l < level && f in v[..level][l] && e in f.entries;
      assert f in v[..level + 1][l];
    }
    forall e | e in FileEntries(v[level])
      ensures e in VersionEntries(v[..level + 1]) && e in VersionEntries(v)
    {
      var f: File :| f in v[level] && e in f.entries;
      assert f in v[..level + 1][level];
    }
  }

  // ----- The input of a compaction -----

  /** VersionSet::MakeInputIterator */
  method MakeInputIterator(v: Levels, c: Inputs) returns (iter: MergingIterator)
    requires ValidLevels(v) && StillClosed(v, c) && InputsInOrder(c) && UniqueSeqs(VersionEntries(v))
    ensures fresh(iter) && iter.Valid() && iter.Entries() == InputEntries(c)
  {
    hide ValidLevels, StillClosed, ProperChildren, Union, UniqueSeqs, FileEntries, VersionEntries, LevelSorted, AllWellFormed,
         InBuilderOrder;
    var children := [];
    NoChildren();
    InputFacts(v, c);
    if c.level == 0 {
      children := AddEachFile(v, c.upper, children);
    } else {
      children := AddSortedFiles(c.upper, children);
    }
    assert Union(children) == FileEntries(c.upper);
    children := AddSortedFiles(c.lower, children);
    iter := new MergingIterator(children);
  }

  lemma NoChildren()
    ensures ProperChildren([]) && Union([]) == {}
  {
  }

  lemma InputFacts(v: Levels, c: Inputs)
    requires ValidLevels(v) && StillClosed(v, c) && UniqueSeqs(VersionEntries(v))
    ensures AllWellFormed(c.upper) && AllWellFormed(c.lower)
    ensures forall f :: f in c.upper ==> f in v[c.level]
    ensures FileEntries(c.upper) !! FileEntries(c.lower)
    ensures UniqueSeqs(FileEntries(c.upper) + FileEntries(c.lower))
    ensures UniqueSeqs({} + FileEntries(c.upper))
  {
    hide ValidLevels, InBuilderOrder, LevelSorted, SmallestKey, LargestKey;
    LevelFacts(v);
    forall e | e in FileEntries(c.upper) && e in FileEntries(c.lower)
      ensures false
    {
      var f :| f in c.upper && e in f.entries;
      var g :| g in c.lower && e in g.entries;
      InOneFile(v, c.level, f, c.level + 1, g, e);
    }
    InputsAreStored(v, c);
  }

  lemma InputsAreStored(v: Levels, c: Inputs)
    requires |v| == NUM_LEVELS && StillClosed(v, c)
    ensures FileEntries(c.upper) <= VersionEntries(v) && FileEntries(c.lower) <= VersionEntries(v)
  {
  }

  /** Reading a merging iterator from its first entry on gives all its entries, once each, in order. */
  method Drain(iter: MergingIterator) returns (input: seq<Entry>)
    requires iter.Valid() && UniqueSeqs(iter.Entries())
    modifies iter
    ensures Sorted(input) && Elements(input) == iter.Entries()
  {
    hide UniqueSeqs, ProperChildren, FirstAbove, MergingIterator.Aligned, Sorted, Elements, EntriesFrom, Drained;
    iter.SeekToFirst();
    input := [];
    ghost var cut := Bottom;
    NothingDrained(iter.Entries());
    while iter.Key().Some?
      invariant iter.Valid() && FirstAbove(iter.Entries(), cut, iter.Key())
      invariant Sorted(input) && Drained(iter.Entries(), cut, input)
      decreases EntriesFrom(iter.Entries(), iter.Key())
    {
      ghost var e := iter.Key().value;
      DrainOne(iter.Entries(), cut, input, e);
      input := input + [iter.Key().value];
      iter.Next();
      FewerFrom(iter.Entries(), e, iter.Key());
      cut := Past(e.ikey);
    }
    AllDrained(iter.Entries(), cut, input);
  }

  /** Exactly the entries below the cut have been read. */
  ghost predicate Drained(E: set<Entry>, cut: Cut, input: seq<Entry>) {
    forall x :: x in input <==> x in E && Below(cut, x.ikey)
  }

  lemma NothingDrained(E: set<Entry>)
    ensures Drained(E, Bottom, []) && Sorted([])
  {
  }

  lemma DrainOne(E: set<Entry>, cut: Cut, input: seq<Entry>, e: Entry)
    requires UniqueSeqs(E) && FirstAbove(E, cut, Some(e)) && Drained(E, cut, input) && Sorted(input)
    ensures e in E && Drained(E, Past(e.ikey), input + [e]) && Sorted(input + [e])
  {
    forall x | x in E
      ensures Below(Past(e.ikey), x.ikey) <==> Below(cut, x.ikey) || x == e
    {
    }
    assert forall x :: x in input ==> Less(x.ikey, e.ikey);
    assert forall i :: 0 <= i < |input| ==> input[i] in input;
  }

  lemma AllDrained(E: set<Entry>, cut: Cut, input: seq<Entry>)
    requires FirstAbove(E, cut, None) && Drained(E, cut, input)
    ensures Elements(input) == E
  {
  }
}
