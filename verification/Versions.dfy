/** A version: the table files of each level, and the algorithms that read one
    (db/version_set.cc, db/version_set.h). */
module Versions {
  import opened InternalKeys

  const NUM_LEVELS := 7
  const MAX_MEM_COMPACT_LEVEL := 2

  /** FileMetaData, together with the entries of the table it describes. */
  datatype File = File(number: nat, size: nat, smallest: IKey, largest: IKey, entries: seq<Entry>)

  type Levels = seq<seq<File>>

  predicate WellFormed(f: File) {
    && |f.entries| > 0 && Sorted(f.entries)
    && f.smallest == f.entries[0].ikey
    && f.largest == f.entries[|f.entries| - 1].ikey
    && f.largest.sequence <= MAX_SEQUENCE
  }

  predicate AllWellFormed(files: seq<File>) {
    forall f :: f in files ==> WellFormed(f)
  }

  lemma EntryInRange(f: File, e: Entry)
    requires WellFormed(f) && e in f.entries
    ensures LessEq(f.smallest, e.ikey) && LessEq(e.ikey, f.largest)
    ensures f.smallest.user <= e.User() <= f.largest.user
  {
  }

  predicate Before(f: File, g: File) {
    Less(f.largest, g.smallest)
  }

  /** Files of a level above 0: in order, with no overlap of internal keys. */
  predicate LevelSorted(files: seq<File>) {
    forall i, j {:trigger Before(files[i], files[j])} :: 0 <= i < j < |files| ==> Before(files[i], files[j])
  }

  /** Builder::BySmallestKey: by smallest key, ties broken by file number. */
  predicate BySmallest(f: File, g: File) {
    Less(f.smallest, g.smallest) || (f.smallest == g.smallest && f.number < g.number)
  }

  predicate InBuilderOrder(files: seq<File>) {
    forall i, j {:trigger BySmallest(files[i], files[j])} :: 0 <= i < j < |files| ==> BySmallest(files[i], files[j])
  }

  /** Where both files hold a user key, every entry of `f` is newer. */
  predicate FileNewer(f: File, g: File) {
    forall e, x :: e in f.entries && x in g.entries && e.User() == x.User() ==> e.Seq() > x.Seq()
  }

  ghost predicate LevelZeroOrdered(files: seq<File>) {
    forall f, g {:trigger FileNewer(f, g)} ::
      f in files && g in files && f.number > g.number ==> FileNewer(f, g)
  }

  /** Entries of one user key get older with the level, and in level 0 with the file number. */
  ghost predicate NewerAbove(v: Levels) {
    && (|v| > 0 ==> LevelZeroOrdered(v[0]))
    && (forall l, m, f, g {:trigger f in v[l], g in v[m], FileNewer(f, g)} ::
          0 <= l < m < |v| && f in v[l] && g in v[m] ==> FileNewer(f, g))
  }

  ghost predicate UniqueNumbers(v: Levels) {
    forall l, m, f, g :: 0 <= l < |v| && 0 <= m < |v| && f in v[l] && g in v[m] && f.number == g.number
                         ==> l == m && f == g
  }

  /** What every installed version satisfies. */
  ghost predicate ValidLevels(v: Levels) {
    && |v| == NUM_LEVELS
    && (forall l :: 0 <= l < NUM_LEVELS ==> AllWellFormed(v[l]) && InBuilderOrder(v[l]))
    && (forall l :: 1 <= l < NUM_LEVELS ==> LevelSorted(v[l]))
    && NewerAbove(v)
    && UniqueNumbers(v)
  }

  ghost function FileEntries(files: seq<File>): set<Entry> {
    set f, e | f in files && e in f.entries :: e
  }

  ghost function VersionEntries(v: Levels): set<Entry> {
    set l, f, e | 0 <= l < |v| && f in v[l] && e in f.entries :: e
  }

  // ----- Range tests; None stands for a null pointer, that is, an open end -----

  predicate AfterFile(k: Option<Key>, f: File) {
    k.Some? && k.value > f.largest.user
  }

  predicate BeforeFile(k: Option<Key>, f: File) {
    k.Some? && k.value < f.smallest.user
  }

  predicate Overlaps(f: File, lo: Option<Key>, hi: Option<Key>) {
    !AfterFile(lo, f) && !BeforeFile(hi, f)
  }

  /** The files of a level that meet a user-key range, in level order. */
  function Overlapping(files: seq<File>, lo: Option<Key>, hi: Option<Key>): (r: seq<File>)
    ensures forall f :: f in r <==> f in files && Overlaps(f, lo, hi)
    ensures |r| <= |files|
  {
    if files == [] then []
    else
      var init := files[..|files| - 1];
      var f := files[|files| - 1];
      assert files == init + [f];
      Overlapping(init, lo, hi) + if Overlaps(f, lo, hi) then [f] else []
  }

  function TotalSize(files: seq<File>): nat {
    if files == [] then 0 else TotalSize(files[..|files| - 1]) + files[|files| - 1].size
  }

  /** FindFile: the first file whose largest key is at or after `key`. */
  method FindFile(files: seq<File>, key: IKey) returns (right: nat)
    requires LevelSorted(files) && AllWellFormed(files)
    ensures right <= |files|
    ensures forall j :: 0 <= j < right ==> Less(files[j].largest, key)
    ensures forall j :: right <= j < |files| ==> !Less(files[j].largest, key)
  {
    var left := 0;
    right := |files|;
    LargestAscends(files);
    while left < right
      invariant 0 <= left <= right <= |files|
      invariant forall j :: 0 <= j < left ==> Less(files[j].largest, key)
      invariant forall j :: right <= j < |files| ==> !Less(files[j].largest, key)
    {
      var mid := (left + right) / 2;
      if Less(files[mid].largest, key) {
        left := mid + 1;
      } else {
        right := mid;
      }
    }
  }

  lemma LargestAscends(files: seq<File>)
    requires LevelSorted(files) && AllWellFormed(files)
    ensures forall i, j :: 0 <= i < j < |files| ==> Less(files[i].largest, files[j].largest)
    ensures forall i, j :: 0 <= i < j < |files| ==> Less(files[i].smallest, files[j].smallest)
  {
    forall i | 0 <= i < |files|
      ensures LessEq(files[i].smallest, files[i].largest)
    {
      assert files[i] in files;
      EntryInRange(files[i], files[i].entries[0]);
    }
    forall i, j | 0 <= i < j < |files|
      ensures Less(files[i].largest, files[j].largest) && Less(files[i].smallest, files[j].smallest)
    {
      assert Before(files[i], files[j]);
    }
  }

  /** SomeFileOverlapsRange: scan for overlapping levels, binary search for disjoint ones. */
  method SomeFileOverlapsRange(disjoint: bool, files: seq<File>, lo: Option<Key>, hi: Option<Key>)
    returns (found: bool)
    requires AllWellFormed(files) && (disjoint ==> LevelSorted(files))
    ensures found <==> exists f :: f in files && Overlaps(f, lo, hi)
  {
    if !disjoint {
      for i := 0 to |files|
        invariant forall j :: 0 <= j < i ==> !Overlaps(files[j], lo, hi)
      {
        if !(AfterFile(lo, files[i]) || BeforeFile(hi, files[i])) {
          assert files[i] in files;
          return true;
        }
      }
      return false;
    }
    var index := 0;
    if lo.Some? {
      index := FindFile(files, IKey(lo.value, MAX_SEQUENCE, Value));
    }
    if index >= |files| {
      return false;
    }
    assert files[index] in files;
    if BeforeFile(hi, files[index]) {
      LargestAscends(files);
      return false;
    }
    return true;
  }

  /** As deep as no overlap, and not too many bytes below, allow. */
  ghost predicate FlushLevel(v: Levels, lo: Key, hi: Key, maxFileSize: nat, level: nat)
    requires |v| == NUM_LEVELS
  {
    && level <= MAX_MEM_COMPACT_LEVEL
    && (level > 0 ==> forall l, f :: 0 <= l <= level && f in v[l] ==> !Overlaps(f, Some(lo), Some(hi)))
    && (forall l :: 2 <= l < level + 2 ==> TotalSize(Overlapping(v[l], Some(lo), Some(hi))) <= 10 * maxFileSize)
    && (level < MAX_MEM_COMPACT_LEVEL ==>
          || (exists l, f :: 0 <= l <= level + 1 && f in v[l] && Overlaps(f, Some(lo), Some(hi)))
          || TotalSize(Overlapping(v[level + 2], Some(lo), Some(hi))) > 10 * maxFileSize)
  }

  /** Version::PickLevelForMemTableOutput: how deep a flushed memtable may go. */
  method PickLevelForMemTableOutput(v: Levels, lo: Key, hi: Key, maxFileSize: nat) returns (level: nat)
    requires ValidLevels(v)
    ensures level <= MAX_MEM_COMPACT_LEVEL
    ensures level > 0 ==> forall l, f :: 0 <= l <= level && f in v[l] ==> !Overlaps(f, Some(lo), Some(hi))
    ensures forall l :: 2 <= l < level + 2 ==> TotalSize(Overlapping(v[l], Some(lo), Some(hi))) <= 10 * maxFileSize
    // It stops above level 2 only for an overlap or for too many grandparent bytes.
    ensures level < MAX_MEM_COMPACT_LEVEL ==>
              || (exists l, f :: 0 <= l <= level + 1 && f in v[l] && Overlaps(f, Some(lo), Some(hi)))
              || TotalSize(Overlapping(v[level + 2], Some(lo), Some(hi))) > 10 * maxFileSize
    ensures |v| == NUM_LEVELS && FlushLevel(v, lo, hi, maxFileSize, level)
  {
    hide InBuilderOrder, NewerAbove, UniqueNumbers, TotalSize, Overlapping, Overlaps, LevelSorted, AllWellFormed;
    level := 0;
    var overlap := SomeFileOverlapsRange(false, v[0], Some(lo), Some(hi));
    if !overlap {
      while level < MAX_MEM_COMPACT_LEVEL
        invariant level <= MAX_MEM_COMPACT_LEVEL
        invariant forall l, f :: 0 <= l <= level && f in v[l] ==> !Overlaps(f, Some(lo), Some(hi))
        invariant forall l :: 2 <= l < level + 2 ==> TotalSize(Overlapping(v[l], Some(lo), Some(hi))) <= 10 * maxFileSize
      {
        overlap := SomeFileOverlapsRange(true, v[level + 1], Some(lo), Some(hi));
        if overlap {
          break;
        }
        if level + 2 < NUM_LEVELS {
          var overlaps := Overlapping(v[level + 2], Some(lo), Some(hi));
          if TotalSize(overlaps) > 10 * maxFileSize {
            break;
          }
        }
        level := level + 1;
      }
    }
  }

  // ----- Version::Get -----

  /** Table lookup: the entry at or after (k, s), when it belongs to k. */
  function TableGet(f: File, k: Key, s: nat): Option<Entry> {
    var i := SeekIndex(f.entries, SeekKey(k, s));
    if i < |f.entries| && f.entries[i].User() == k then Some(f.entries[i]) else None
  }

  lemma TableGetNewest(f: File, k: Key, s: nat)
    requires WellFormed(f)
    ensures TableGet(f, k, s).None? ==> forall e :: e in f.entries ==> !Visible(e, k, s)
    ensures TableGet(f, k, s).Some? ==>
              var e := TableGet(f, k, s).value;
              && e in f.entries && Visible(e, k, s)
              && forall x :: x in f.entries && Visible(x, k, s) ==> x.Seq() <= e.Seq()
  {
    SeekFindsNewest(f.entries, k, s);
    assert forall e :: e in f.entries <==> e in Elements(f.entries);
  }

  /** Only the file that FindFile returns can answer a lookup in a sorted level. */
  lemma OnlyOneFileAnswers(files: seq<File>, index: nat, k: Key, s: nat)
    requires LevelSorted(files) && AllWellFormed(files) && index <= |files|
    requires forall j :: 0 <= j < index ==> Less(files[j].largest, SeekKey(k, s))
    requires forall j :: index <= j < |files| ==> !Less(files[j].largest, SeekKey(k, s))
    ensures forall j, e :: 0 <= j < index && e in files[j].entries ==> !Visible(e, k, s)
    ensures index < |files| && k < files[index].smallest.user ==> NothingAt(FileEntries(files), k, s)
    ensures index < |files| && TableGet(files[index], k, s).Some? ==>
              NewestAt(FileEntries(files), k, s, TableGet(files[index], k, s).value)
    ensures index < |files| && TableGet(files[index], k, s).None? ==> NothingAt(FileEntries(files), k, s)
    ensures index == |files| ==> NothingAt(FileEntries(files), k, s)
  {
    forall j, e | 0 <= j < index && e in files[j].entries
      ensures !Visible(e, k, s)
    {
      assert files[j] in files;
      EntryInRange(files[j], e);
    }
    if index < |files| {
      var f := files[index];
      assert f in files;
      TableGetNewest(f, k, s);
      var i := SeekIndex(f.entries, SeekKey(k, s));
      // The largest key is at or after the lookup key, so the seek stays inside the file.
      assert i < |f.entries|;
      forall j, e | index < j < |files| && e in files[j].entries && Visible(e, k, s)
        ensures TableGet(f, k, s).Some? && e.Seq() <= f.entries[i].Seq()
      {
        assert files[j] in files;
        EntryInRange(files[j], e);
        assert Before(f, files[j]);
        EntryInRange(f, f.entries[i]);
        assert Less(f.entries[i].ikey, e.ikey);
      }
      forall e | e in FileEntries(files) && Visible(e, k, s)
        ensures TableGet(f, k, s).Some? && e.Seq() <= f.entries[i].Seq()
      {
        var g :| g in files && e in g.entries;
        var j :| 0 <= j < |files| && files[j] == g;
      }
      if k < f.smallest.user {
        EntryInRange(f, f.entries[i]);
      }
      if TableGet(f, k, s).Some? {
        assert f.entries[i] in FileEntries(files);
      }
    }
  }

  predicate DescendingNumbers(files: seq<File>) {
    forall i, j :: 0 <= i < j < |files| ==> files[i].number >= files[j].number
  }

  /** std::sort(tmp, NewestFirst) */
  function NewestFirst(files: seq<File>): (r: seq<File>)
    ensures |r| == |files|
    ensures DescendingNumbers(r)
    ensures forall f :: f in r <==> f in files
  {
    if files == [] then []
    else InsertByNumber(NewestFirst(files[1..]), files[0])
  }

  function InsertByNumber(files: seq<File>, f: File): (r: seq<File>)
    requires DescendingNumbers(files)
    ensures |r| == |files| + 1
    ensures DescendingNumbers(r)
    ensures forall g :: g in r <==> g == f || g in files
  {
    var i := FirstNotAbove(files, f.number);
    var r := files[..i] + [f] + files[i..];
    assert r[i] == f;
    assert forall g :: g in files ==> g in files[..i] || g in files[i..];
    r
  }

  function FirstNotAbove(files: seq<File>, number: nat): (i: nat)
    requires DescendingNumbers(files)
    ensures i <= |files|
    ensures forall j :: 0 <= j < i ==> files[j].number > number
    ensures forall j :: i <= j < |files| ==> files[j].number <= number
  {
    if files == [] || files[0].number <= number then 0
    else
      var i := FirstNotAbove(files[1..], number);
      assert forall j :: 1 <= j < |files| ==> files[j] == files[1..][j - 1];
      i + 1
  }

  /** One round of Version::Get: the search of level 0, newest file first. */
  method SearchLevelZero(files: seq<File>, k: Key, s: nat) returns (r: Option<Entry>)
    requires AllWellFormed(files)
    requires LevelZeroOrdered(files)
    requires forall f, g :: f in files && g in files && f.number == g.number ==> f == g
    ensures r.None? ==> NothingAt(FileEntries(files), k, s)
    ensures r.Some? ==> NewestAt(FileEntries(files), k, s, r.value)
  {
    hide *;
    var candidates := NewestFirst(Overlapping(files, Some(k), Some(k)));
    for i := 0 to |candidates|
      invariant forall j :: 0 <= j < i ==> TableGet(candidates[j], k, s).None?
    {
      r := TableGet(candidates[i], k, s);
      if r.Some? {
        FirstCandidateWins(files, candidates, i, k, s);
        return;
      }
    }
    NoCandidateAnswers(files, candidates, k, s);
    return None;
  }

  lemma NoCandidateAnswers(files: seq<File>, candidates: seq<File>, k: Key, s: nat)
    requires AllWellFormed(files)
    requires candidates == NewestFirst(Overlapping(files, Some(k), Some(k)))
    requires forall j :: 0 <= j < |candidates| ==> TableGet(candidates[j], k, s).None?
    ensures NothingAt(FileEntries(files), k, s)
  {
    LevelZeroCandidates(files, k);
    forall f, e | f in files && e in f.entries
      ensures !Visible(e, k, s)
    {
      if f in candidates {
        var j :| 0 <= j < |candidates| && candidates[j] == f;
        TableGetNewest(f, k, s);
      }
    }
  }

  lemma LevelZeroCandidates(files: seq<File>, k: Key)
    requires AllWellFormed(files)
    ensures forall f, e :: f in files && f !in Overlapping(files, Some(k), Some(k)) && e in f.entries
                           ==> e.User() != k
  {
    forall f, e | f in files && e in f.entries && e.User() == k
      ensures f in Overlapping(files, Some(k), Some(k))
    {
      EntryInRange(f, e);
    }
  }

  lemma FirstCandidateWins(files: seq<File>, candidates: seq<File>, i: nat, k: Key, s: nat)
    requires AllWellFormed(files) && i < |candidates|
    requires LevelZeroOrdered(files)
    requires forall f, g :: f in files && g in files && f.number == g.number ==> f == g
    requires candidates == NewestFirst(Overlapping(files, Some(k), Some(k)))
    requires forall j :: 0 <= j < i ==> TableGet(candidates[j], k, s).None?
    requires TableGet(candidates[i], k, s).Some?
    ensures NewestAt(FileEntries(files), k, s, TableGet(candidates[i], k, s).value)
  {
    hide AllWellFormed, LevelZeroOrdered, TableGet, NewestFirst, Overlapping;
    var f := candidates[i];
    assert f in candidates && f in files;
    assert WellFormed(f) by { WellFormedMember(files, f); }
    TableGetNewest(f, k, s);
    LevelZeroCandidates(files, k);
    var hit := TableGet(f, k, s).value;
    assert hit in FileEntries(files);
    forall g, x | g in files && x in g.entries && Visible(x, k, s)
      ensures x.Seq() <= hit.Seq()
    {
      assert g in candidates;
      var j :| 0 <= j < |candidates| && candidates[j] == g;
      if j < i {
        WellFormedMember(files, g);
        TableGetNewest(g, k, s);
      } else if j > i && g.number != f.number {
        HigherNumberIsNewer(files, f, g);
      }
    }
  }

  lemma WellFormedMember(files: seq<File>, f: File)
    requires AllWellFormed(files) && f in files
    ensures WellFormed(f)
  {
  }

  lemma HigherNumberIsNewer(files: seq<File>, f: File, g: File)
    requires LevelZeroOrdered(files) && f in files && g in files && f.number > g.number
    ensures FileNewer(f, g)
  {
  }

  /** One round of Version::Get: the search of a level above 0, in the one file that may answer. */
  method SearchSortedLevel(files: seq<File>, k: Key, s: nat) returns (r: Option<Entry>)
    requires AllWellFormed(files) && LevelSorted(files)
    ensures r.None? ==> NothingAt(FileEntries(files), k, s)
    ensures r.Some? ==> NewestAt(FileEntries(files), k, s, r.value)
  {
    var index := FindFile(files, SeekKey(k, s));
    OnlyOneFileAnswers(files, index, k, s);
    if index >= |files| || k < files[index].smallest.user {
      return None;
    }
    return TableGet(files[index], k, s);
  }

  /** Version::Get: level by level, stopping at the first hit. */
  method Get(v: Levels, k: Key, s: nat) returns (r: Option<Entry>)
    requires ValidLevels(v)
    ensures r.None? ==> NothingAt(VersionEntries(v), k, s)
    ensures r.Some? ==> NewestAt(VersionEntries(v), k, s, r.value)
  {
    for level := 0 to NUM_LEVELS
      invariant forall l :: 0 <= l < level ==> NothingAt(FileEntries(v[l]), k, s)
    {
      if level == 0 {
        r := SearchLevelZero(v[0], k, s);
      } else {
        r := SearchSortedLevel(v[level], k, s);
      }
      if r.Some? {
        FirstHitIsNewest(v, level, k, s, r.value);
        return;
      }
    }
    NoHitAnywhere(v, k, s);
    return None;
  }

  lemma NoHitAnywhere(v: Levels, k: Key, s: nat)
    requires forall l :: 0 <= l < |v| ==> NothingAt(FileEntries(v[l]), k, s)
    ensures NothingAt(VersionEntries(v), k, s)
  {
    forall l, f, e | 0 <= l < |v| && f in v[l] && e in f.entries
      ensures !Visible(e, k, s)
    {
      assert e in FileEntries(v[l]);
    }
  }

  /** The first hit in search order is the newest visible entry of the whole version. */
  lemma FirstHitIsNewest(v: Levels, level: nat, k: Key, s: nat, hit: Entry)
    requires NewerAbove(v) && level < |v|
    requires forall l :: 0 <= l < level ==> NothingAt(FileEntries(v[l]), k, s)
    requires NewestAt(FileEntries(v[level]), k, s, hit)
    ensures NewestAt(VersionEntries(v), k, s, hit)
  {
    var f :| f in v[level] && hit in f.entries;
    forall l, g, x | 0 <= l < |v| && g in v[l] && x in g.entries && Visible(x, k, s)
      ensures x.Seq() <= hit.Seq()
    {
      assert x in FileEntries(v[l]);
      if l > level {
        assert FileNewer(f, g);
      }
    }
  }
}
