/** Choosing the inputs of a compaction (db/version_set.cc: GetOverlappingInputs, GetRange,
    AddBoundaryInputs, SetupOtherInputs, PickCompaction, CompactRange). */
module CompactionInputs {
  import opened InternalKeys
  import opened Versions

  /** What a Compaction object records about its inputs. */
  datatype Inputs = Inputs(level: nat, upper: seq<File>, lower: seq<File>)

  // ----- Key ranges of sets of files -----

  function SmallestKey(files: seq<File>): IKey
    requires files != []
  {
    var f := files[|files| - 1];
    if |files| == 1 then f.smallest
    else
      var k := SmallestKey(files[..|files| - 1]);
      if Less(f.smallest, k) then f.smallest else k
  }

  function LargestKey(files: seq<File>): IKey
    requires files != []
  {
    var f := files[|files| - 1];
    if |files| == 1 then f.largest
    else
      var k := LargestKey(files[..|files| - 1]);
      if Less(k, f.largest) then f.largest else k
  }

  lemma RangeBounds(files: seq<File>)
    requires files != []
    ensures exists f :: f in files && f.smallest == SmallestKey(files)
    ensures forall f :: f in files ==> LessEq(SmallestKey(files), f.smallest)
    ensures exists f :: f in files && f.largest == LargestKey(files)
    ensures forall f :: f in files ==> LessEq(f.largest, LargestKey(files))
  {
    hide SmallestKey, LargestKey;
    SmallestBounds(files);
    LargestBounds(files);
  }

  lemma {:induction false} SmallestBounds(files: seq<File>)
    requires files != []
    ensures exists f :: f in files && f.smallest == SmallestKey(files)
    ensures forall f :: f in files ==> LessEq(SmallestKey(files), f.smallest)
  {
    var init, last := files[..|files| - 1], files[|files| - 1];
    assert files == init + [last];
    assert last in files && forall f :: f in files <==> f in init || f == last;
    if |files| > 1 {
      SmallestBounds(init);
    }
  }

  lemma {:induction false} LargestBounds(files: seq<File>)
    requires files != []
    ensures exists f :: f in files && f.largest == LargestKey(files)
    ensures forall f :: f in files ==> LessEq(f.largest, LargestKey(files))
  {
    var init, last := files[..|files| - 1], files[|files| - 1];
    assert files == init + [last];
    assert last in files && forall f :: f in files <==> f in init || f == last;
    if |files| > 1 {
      LargestBounds(init);
    }
  }

  /** VersionSet::GetRange */
  method GetRange(files: seq<File>) returns (smallest: IKey, largest: IKey)
    requires files != []
    ensures smallest == SmallestKey(files) && largest == LargestKey(files)
  {
    smallest, largest := files[0].smallest, files[0].largest;
    for i := 1 to |files|
      invariant smallest == SmallestKey(files[..i]) && largest == LargestKey(files[..i])
    {
      assert files[..i + 1][..i] == files[..i];
      CompareIsLess(files[i].smallest, smallest);
      CompareIsLess(files[i].largest, largest);
      if Compare(files[i].smallest, smallest) < 0 {
        smallest := files[i].smallest;
      }
      if Compare(files[i].largest, largest) > 0 {
        largest := files[i].largest;
      }
    }
    assert files[..|files|] == files;
  }

  predicate InUserRange(f: File, p: Key) {
    f.smallest.user <= p <= f.largest.user
  }

  /** Every user key between the two ends lies in the range of some file. */
  ghost predicate Covered(files: seq<File>, lo: Key, hi: Key) {
    forall p :: lo <= p <= hi ==> CoversKey(files, p)
  }

  ghost predicate CoversKey(files: seq<File>, p: Key) {
    exists f :: f in files && InUserRange(f, p)
  }

  /** A covered range stays covered when it grows to the ends of a file it meets. */
  lemma CoveredGrows(files: seq<File>, f: File, lo: Key, hi: Key, lo': Key, hi': Key)
    requires Covered(files, lo, hi) && f in files && Overlaps(f, Some(lo), Some(hi))
    requires lo' == lo || lo' >= f.smallest.user
    requires hi' == hi || hi' <= f.largest.user
    ensures Covered(files, lo', hi')
  {
    forall p | lo' <= p <= hi'
      ensures CoversKey(files, p)
    {
      if lo <= p <= hi {
        assert CoversKey(files, p);
      } else {
        assert InUserRange(f, p);
      }
    }
  }

  /** Every file left out lies wholly outside the user-key range of the chosen ones. */
  ghost predicate RangeClosed(files: seq<File>, chosen: seq<File>) {
    chosen != [] ==>
      forall g :: g in files && g !in chosen ==>
        !Overlaps(g, Some(SmallestKey(chosen).user), Some(LargestKey(chosen).user))
  }

  // ----- Version::GetOverlappingInputs -----

  function CountOutside(files: seq<File>, lo: Option<Key>, hi: Option<Key>): nat {
    if files == [] then 0
    else
      var f := files[|files| - 1];
      CountOutside(files[..|files| - 1], lo, hi)
      + (if BeforeFileStart(f, lo) then 1 else 0) + (if PastFileEnd(f, hi) then 1 else 0)
  }

  predicate BeforeFileStart(f: File, lo: Option<Key>) {
    lo.Some? && f.smallest.user < lo.value
  }

  predicate PastFileEnd(f: File, hi: Option<Key>) {
    hi.Some? && f.largest.user > hi.value
  }

  /** One more file is inside the range after the range has been widened to it. */
  lemma {:induction false} WideningCounts(files: seq<File>, lo: Option<Key>, hi: Option<Key>,
                                          lo': Option<Key>, hi': Option<Key>)
    requires lo.Some? == lo'.Some? && (lo.Some? ==> lo'.value <= lo.value)
    requires hi.Some? == hi'.Some? && (hi.Some? ==> hi'.value >= hi.value)
    ensures CountOutside(files, lo', hi') <= CountOutside(files, lo, hi)
    ensures (exists f :: f in files && ((BeforeFileStart(f, lo) && !BeforeFileStart(f, lo'))
                                        || (PastFileEnd(f, hi) && !PastFileEnd(f, hi'))))
            ==> CountOutside(files, lo', hi') < CountOutside(files, lo, hi)
  {
    if files != [] {
      assert files == files[..|files| - 1] + [files[|files| - 1]];
      WideningCounts(files[..|files| - 1], lo, hi, lo', hi');
    }
  }

  ghost predicate Widens(lo: Option<Key>, hi: Option<Key>, lo': Option<Key>, hi': Option<Key>) {
    && lo.Some? == lo'.Some? && (lo.Some? ==> lo'.value <= lo.value)
    && hi.Some? == hi'.Some? && (hi.Some? ==> hi'.value >= hi.value)
  }

  /** The range [lo, hi] grew from [begin, end] step by step, each end taken from a file met. */
  ghost predicate GrownTo(files: seq<File>, others: seq<File>, begin: Option<Key>, end: Option<Key>,
                          lo: Option<Key>, hi: Option<Key>)
  {
    && Widens(begin, end, lo, hi)
    && ((lo == begin && hi == end) || exists f :: f in files && Overlaps(f, begin, end))
    && (lo == begin || exists f :: f in files && Overlaps(f, lo, hi) && Some(f.smallest.user) == lo)
    && (hi == end || exists f :: f in files && Overlaps(f, lo, hi) && Some(f.largest.user) == hi)
    && (begin.Some? && end.Some? && Covered(files + others, begin.value, end.value) ==>
          Covered(files + others, lo.value, hi.value))
  }

  lemma NotYetGrown(files: seq<File>, others: seq<File>, begin: Option<Key>, end: Option<Key>)
    ensures GrownTo(files, others, begin, end, begin, end)
  {
  }

  lemma GrowStart(files: seq<File>, others: seq<File>, begin: Option<Key>, end: Option<Key>,
                  lo: Option<Key>, hi: Option<Key>, f: File)
    requires GrownTo(files, others, begin, end, lo, hi)
    requires f in files && Overlaps(f, lo, hi) && BeforeFileStart(f, lo)
    ensures GrownTo(files, others, begin, end, Some(f.smallest.user), hi)
    ensures CountOutside(files, Some(f.smallest.user), hi) < CountOutside(files, lo, hi)
  {
    WideningCounts(files, lo, hi, Some(f.smallest.user), hi);
    if begin.Some? && end.Some? && Covered(files + others, begin.value, end.value) {
      CoveredGrows(files + others, f, lo.value, hi.value, f.smallest.user, hi.value);
    }
    if f.smallest.user <= f.largest.user {
      assert Overlaps(f, Some(f.smallest.user), hi);
    }
  }

  lemma GrowEnd(files: seq<File>, others: seq<File>, begin: Option<Key>, end: Option<Key>,
                lo: Option<Key>, hi: Option<Key>, f: File)
    requires GrownTo(files, others, begin, end, lo, hi)
    requires f in files && Overlaps(f, lo, hi) && PastFileEnd(f, hi)
    ensures GrownTo(files, others, begin, end, lo, Some(f.largest.user))
    ensures CountOutside(files, lo, Some(f.largest.user)) < CountOutside(files, lo, hi)
  {
    WideningCounts(files, lo, hi, lo, Some(f.largest.user));
    if begin.Some? && end.Some? && Covered(files + others, begin.value, end.value) {
      CoveredGrows(files + others, f, lo.value, hi.value, lo.value, f.largest.user);
    }
  }

  /** A range that contains [begin, end] and every file that meets it. */
  ghost predicate ClosedRange(files: seq<File>, begin: Option<Key>, end: Option<Key>, lo: Option<Key>, hi: Option<Key>) {
    Widens(begin, end, lo, hi) && forall f :: f in files && Overlaps(f, lo, hi) ==> Inside(f, lo, hi)
  }

  /** It lies within all others. */
  ghost predicate LeastRange(files: seq<File>, begin: Option<Key>, end: Option<Key>, lo: Option<Key>, hi: Option<Key>) {
    forall lo', hi' :: ClosedRange(files, begin, end, lo', hi') ==> Widens(lo, hi, lo', hi')
  }

  lemma LeastGrows(files: seq<File>, begin: Option<Key>, end: Option<Key>, lo: Option<Key>, hi: Option<Key>, f: File)
    requires LeastRange(files, begin, end, lo, hi) && f in files && Overlaps(f, lo, hi)
    ensures BeforeFileStart(f, lo) ==> LeastRange(files, begin, end, Some(f.smallest.user), hi)
    ensures PastFileEnd(f, hi) ==> LeastRange(files, begin, end, lo, Some(f.largest.user))
  {
    forall lo', hi' | ClosedRange(files, begin, end, lo', hi')
      ensures Inside(f, lo', hi')
    {
      assert Widens(lo, hi, lo', hi');
      assert Overlaps(f, lo', hi');
    }
  }

  predicate Inside(f: File, lo: Option<Key>, hi: Option<Key>) {
    !BeforeFileStart(f, lo) && !PastFileEnd(f, hi)
  }

  /** The files of one level that meet [begin, end]; in level 0 the range grows to the ends of every
      file met, and the scan starts again. The ghost results are the final ends of the range. */
  method GetOverlappingInputs(level: nat, files: seq<File>, begin: Option<Key>, end: Option<Key>,
                              ghost others: seq<File>)
    returns (inputs: seq<File>, ghost lo: Option<Key>, ghost hi: Option<Key>)
    ensures inputs == Overlapping(files, lo, hi)
    ensures level > 0 ==> lo == begin && hi == end
    ensures level == 0 ==> forall f :: f in inputs ==> Inside(f, lo, hi)
    // The range grew without gaps, and an end that moved is the end of a chosen file.
    ensures GrownTo(files, others, begin, end, lo, hi)
    // In terms of the inputs alone: every file that meets the range asked for is there, and in level 0
    // every file that meets the inputs' own range.
    ensures level > 0 ==> inputs == Overlapping(files, begin, end)
    ensures forall f :: f in files && Overlaps(f, begin, end) ==> f in inputs
    ensures level == 0 ==> RangeClosed(files, inputs)
    // And no more: the range is the least one.
    ensures LeastRange(files, begin, end, lo, hi) && Met(level, files, begin, end, inputs)
  {
    hide GrownTo, CountOutside, Overlapping, RangeClosed, LeastRange, Met;
    assert LeastRange(files, begin, end, begin, end) by { WholeIsLeast(files, begin, end); }
    NoneOverlap(begin, end);
    NotYetGrown(files, others, begin, end);
    lo, hi := begin, end;
    var userBegin, userEnd := begin, end;
    inputs := [];
    var i := 0;
    assert files[..0] == [];
    while i < |files|
      invariant 0 <= i <= |files|
      invariant userBegin == lo && userEnd == hi
      invariant inputs == Overlapping(files[..i], lo, hi)
      invariant level > 0 ==> lo == begin && hi == end
      invariant level == 0 ==> forall f :: f in inputs ==> Inside(f, lo, hi)
      invariant GrownTo(files, others, begin, end, lo, hi) && LeastRange(files, begin, end, lo, hi)
      decreases CountOutside(files, lo, hi), |files| - i
    {
      var f := files[i];
      i := i + 1;
      OverlappingOneMore(files, lo, hi, i - 1);
      assert f in files;
      if AfterFile(userBegin, f) {
      } else if BeforeFile(userEnd, f) {
      } else {
        inputs := inputs + [f];
        if level == 0 {
          LeastGrows(files, begin, end, lo, hi, f);
          if BeforeFileStart(f, userBegin) {
            GrowStart(files, others, begin, end, lo, hi, f);
            userBegin := Some(f.smallest.user);
            inputs, i, lo := [], 0, userBegin;
            NoneOverlap(lo, hi);
          } else if PastFileEnd(f, userEnd) {
            GrowEnd(files, others, begin, end, lo, hi, f);
            userEnd := Some(f.largest.user);
            inputs, i, hi := [], 0, userEnd;
            NoneOverlap(lo, hi);
          }
        }
      }
    }
    assert files[..|files|] == files;
    StillMeets(files, others, begin, end, lo, hi);
    GrownIsWider(files, others, begin, end, lo, hi);
    FoundIsMet(level, files, begin, end, lo, hi);
    if level == 0 {
      ChosenIsRangeClosed(files, lo, hi);
    }
  }

  /** What GetOverlappingInputs finds: the files that meet [begin, end], and in level 0 the least range around it
      that no file sticks out of. */
  ghost predicate Met(level: nat, files: seq<File>, begin: Option<Key>, end: Option<Key>, inputs: seq<File>) {
    exists lo, hi ::
      && (if level > 0 then lo == begin && hi == end
          else ClosedRange(files, begin, end, lo, hi) && LeastRange(files, begin, end, lo, hi))
      && inputs == Overlapping(files, lo, hi)
  }

  lemma FoundIsMet(level: nat, files: seq<File>, begin: Option<Key>, end: Option<Key>, lo: Option<Key>, hi: Option<Key>)
    requires level > 0 ==> lo == begin && hi == end
    requires Widens(begin, end, lo, hi) && LeastRange(files, begin, end, lo, hi)
    requires level == 0 ==> forall f :: f in Overlapping(files, lo, hi) ==> Inside(f, lo, hi)
    ensures Met(level, files, begin, end, Overlapping(files, lo, hi))
  {
    hide LeastRange;
    assert level == 0 ==> ClosedRange(files, begin, end, lo, hi);
  }

  lemma GrownIsWider(files: seq<File>, others: seq<File>, begin: Option<Key>, end: Option<Key>, lo: Option<Key>,
                     hi: Option<Key>)
    requires GrownTo(files, others, begin, end, lo, hi)
    ensures Widens(begin, end, lo, hi)
  {
  }

  lemma WholeIsLeast(files: seq<File>, begin: Option<Key>, end: Option<Key>)
    ensures LeastRange(files, begin, end, begin, end)
  {
  }

  lemma StillMeets(files: seq<File>, others: seq<File>, begin: Option<Key>, end: Option<Key>,
                   lo: Option<Key>, hi: Option<Key>)
    requires GrownTo(files, others, begin, end, lo, hi)
    ensures forall f :: f in files && Overlaps(f, begin, end) ==> f in Overlapping(files, lo, hi)
  {
  }

  // ----- AddBoundaryInputs -----

  /** `f` starts after `k` with the same user key: it holds older entries of that user key. */
  predicate Continues(f: File, k: IKey) {
    Less(k, f.smallest) && f.smallest.user == k.user
  }

  /** FindSmallestBoundaryFile */
  method FindSmallestBoundaryFile(files: seq<File>, k: IKey) returns (r: Option<File>)
    ensures r.None? ==> forall f :: f in files ==> !Continues(f, k)
    ensures r.Some? ==> NextBoundary(files, k, r.value)
  {
    r := None;
    for i := 0 to |files|
      invariant r.None? ==> forall j :: 0 <= j < i ==> !Continues(files[j], k)
      invariant r.Some? ==> NextBoundary(files[..i], k, r.value)
    {
      var f := files[i];
      assert files[..i + 1] == files[..i] + [f];
      CompareIsLess(f.smallest, k);
      if Compare(f.smallest, k) > 0 && f.smallest.user == k.user {
        if r.None? || Less(f.smallest, r.value.smallest) {
          r := Some(f);
        }
      }
    }
    assert files[..|files|] == files;
  }

  ghost predicate NextBoundary(files: seq<File>, k: IKey, f: File) {
    && f in files && Continues(f, k)
    && forall g :: g in files && Continues(g, k) ==> LessEq(f.smallest, g.smallest)
  }

  /** Every file from position `from` on is the boundary file next after the ones before it. */
  ghost predicate BoundaryChain(files: seq<File>, chosen: seq<File>, from: nat) {
    0 < from <= |chosen| &&
    forall m :: from <= m < |chosen| ==> NextBoundary(files, LargestKey(chosen[..m]), chosen[m])
  }

  function CountLarger(files: seq<File>, k: IKey): nat {
    if files == [] then 0
    else CountLarger(files[1..], k) + if Less(k, files[0].largest) then 1 else 0
  }

  lemma {:induction false} LargerCounts(files: seq<File>, k: IKey, k': IKey)
    requires Less(k, k')
    ensures CountLarger(files, k') <= CountLarger(files, k)
    ensures (exists f :: f in files && f.largest == k') ==> CountLarger(files, k') < CountLarger(files, k)
  {
    if files != [] {
      LargerCounts(files[1..], k, k');
      if files[0].largest != k' && exists f :: f in files && f.largest == k' {
        var f :| f in files && f.largest == k';
        assert f in files[1..];
      }
    }
  }

  /** AddBoundaryInputs: keep adding the file that continues the largest chosen user key. */
  method AddBoundaryInputs(files: seq<File>, chosen: seq<File>) returns (r: seq<File>)
    requires AllWellFormed(files)
    ensures chosen == [] ==> r == []
    ensures chosen <= r
    ensures chosen != [] ==> BoundaryChain(files, r, |chosen|)
    ensures chosen != [] ==> forall f :: f in files ==> !Continues(f, LargestKey(r))
  {
    r := chosen;
    if chosen == [] {
      return;
    }
    var _, largest := GetRange(chosen);
    var searching := true;
    while searching
      invariant chosen <= r
      invariant BoundaryChain(files, r, |chosen|)
      invariant largest == LargestKey(r)
      invariant !searching ==> forall f :: f in files ==> !Continues(f, largest)
      decreases searching, CountLarger(files, largest)
    {
      var boundary := FindSmallestBoundaryFile(files, largest);
      if boundary.Some? {
        var b := boundary.value;
        EntryInRange(b, b.entries[0]);
        LargerCounts(files, largest, b.largest);
        ChainExtends(files, r, |chosen|, b);
        r, largest := r + [b], b.largest;
      } else {
        searching := false;
      }
    }
  }

  lemma ChainExtends(files: seq<File>, chosen: seq<File>, from: nat, b: File)
    requires BoundaryChain(files, chosen, from) && NextBoundary(files, LargestKey(chosen), b)
    requires LessEq(b.smallest, b.largest)
    ensures BoundaryChain(files, chosen + [b], from)
    ensures LargestKey(chosen + [b]) == b.largest
  {
    var r := chosen + [b];
    assert r[..|chosen|] == chosen;
    forall m | from <= m < |r|
      ensures NextBoundary(files, LargestKey(r[..m]), r[m])
    {
      if m < |chosen| {
        assert r[..m] == chosen[..m];
      }
    }
  }

  /** No duplicate is ever added. */
  lemma BoundaryAddsNoDuplicate(files: seq<File>, chosen: seq<File>, from: nat, i: nat, m: nat)
    requires BoundaryChain(files, chosen, from) && from <= m < |chosen| && i < m
    requires AllWellFormed(files)
    ensures chosen[i] != chosen[m]
  {
    RangeBounds(chosen[..m]);
    assert chosen[..m][i] == chosen[i] && chosen[i] in chosen[..m];
    EntryInRange(chosen[m], chosen[m].entries[0]);
  }

  lemma NextBoundaryIsNextFile(files: seq<File>, at: nat, b: File)
    requires LevelSorted(files) && AllWellFormed(files)
    requires 0 < at <= |files| && NextBoundary(files, files[at - 1].largest, b)
    ensures at < |files| && b == files[at]
  {
    var i :| 0 <= i < |files| && files[i] == b;
    LargestAscends(files);
    // A file up to the last chosen one cannot start after its largest key.
    assert files[i] in files;
    EntryInRange(b, b.entries[0]);
    assert i >= at;
    assert Before(files[at - 1], files[at]);
    assert i > at ==> Less(files[at].smallest, b.smallest);
    assert files[at] in files;
  }

  /** The first `n` files of `part` stand next to each other in `files`, from position `lo` on. */
  predicate SliceAt(files: seq<File>, lo: nat, part: seq<File>, n: nat) {
    n <= |part| && lo + n <= |files| && forall q :: 0 <= q < n ==> part[q] == files[lo + q]
  }

  /** In a sorted level, a slice grows to a longer slice. */
  lemma {:induction false} BoundarySlice(files: seq<File>, lo: nat, chosen: seq<File>, from: nat, m: nat)
    requires LevelSorted(files) && AllWellFormed(files)
    requires BoundaryChain(files, chosen, from) && from <= m <= |chosen|
    requires SliceAt(files, lo, chosen, from)
    ensures SliceAt(files, lo, chosen, m)
    decreases m
  {
    hide LevelSorted, AllWellFormed, LargestKey;
    if m > from {
      BoundarySlice(files, lo, chosen, from, m - 1);
      PrefixLargest(files, lo, chosen, m - 1);
      NextBoundaryIsNextFile(files, lo + m - 1, chosen[m - 1]);
    }
  }

  lemma {:induction false} PrefixLargest(files: seq<File>, lo: nat, chosen: seq<File>, m: nat)
    requires LevelSorted(files) && AllWellFormed(files) && 0 < m && SliceAt(files, lo, chosen, m)
    ensures LargestKey(chosen[..m]) == files[lo + m - 1].largest
  {
    hide LevelSorted, AllWellFormed;
    assert chosen[..m][..m - 1] == chosen[..m - 1];
    if m > 1 {
      PrefixLargest(files, lo, chosen, m - 1);
      LargestAscends(files);
    }
  }

  // ----- What a set of inputs must satisfy -----

  function UserLo(files: seq<File>): Option<Key>
    requires files != []
  {
    Some(SmallestKey(files).user)
  }

  function UserHi(files: seq<File>): Option<Key>
    requires files != []
  {
    Some(LargestKey(files).user)
  }

  /** Wherever a left-out file of the level shares a user key with an input, it is newer. */
  ghost predicate UpperClosed(files: seq<File>, upper: seq<File>) {
    && (forall f :: f in upper ==> f in files)
    && (forall f, g {:trigger FileNewer(g, f)} ::
          f in upper && g in files && g !in upper ==> FileNewer(g, f))
  }

  /** The lower inputs are the files of the next level that meet the user-key range of the upper ones. */
  ghost predicate LowerClosed(files: seq<File>, upper: seq<File>, lower: seq<File>)
    requires upper != []
  {
    && (forall f :: f in lower ==> f in files && Overlaps(f, UserLo(upper), UserHi(upper)))
    && (forall g :: g in files && g !in lower ==> !Overlaps(g, UserLo(upper), UserHi(upper)))
  }

  ghost predicate Closed(v: Levels, c: Inputs)
    requires |v| == NUM_LEVELS
  {
    && c.level + 1 < NUM_LEVELS && c.upper != []
    && UpperClosed(v[c.level], c.upper)
    && LowerClosed(v[c.level + 1], c.upper, c.lower)
  }

  /** A file that meets no input: it lies outside their key ranges, or in a gap between two of them. */
  ghost predicate MeetsNone(c: Inputs, g: File) {
    forall f :: f in c.upper + c.lower ==> !Overlaps(f, Some(g.smallest.user), Some(g.largest.user))
  }

  /** What flushes leave of closed inputs: a file that was not chosen for the lower level lies outside the
      range of the upper inputs, or else meets none of the inputs. */
  ghost predicate StillClosed(v: Levels, c: Inputs)
    requires |v| == NUM_LEVELS
  {
    && c.level + 1 < NUM_LEVELS && c.upper != []
    && UpperClosed(v[c.level], c.upper)
    && (forall f :: f in c.lower ==> f in v[c.level + 1] && Overlaps(f, UserLo(c.upper), UserHi(c.upper)))
    && (forall g :: g in v[c.level + 1] && g !in c.lower ==>
          !Overlaps(g, UserLo(c.upper), UserHi(c.upper)) || MeetsNone(c, g))
  }

  lemma ClosedIsStillClosed(v: Levels, c: Inputs)
    requires |v| == NUM_LEVELS && Closed(v, c)
    ensures StillClosed(v, c)
  {
  }

  /** The user-key ranges of the inputs chain together: no key strictly inside is in none of them. */
  ghost predicate Gapless(c: Inputs)
    requires c.upper != []
  {
    Covered(c.upper + c.lower, SmallestKey(c.upper + c.lower).user, LargestKey(c.upper + c.lower).user)
  }

  /** What SetupOtherInputs expects: in level 0 a range-closed choice, above it a slice of the level. */
  ghost predicate UpperReady(files: seq<File>, level: nat, upper: seq<File>) {
    && upper != []
    && (forall f :: f in upper ==> f in files)
    && (level == 0 ==> RangeClosed(files, upper) && InBuilderOrder(upper))
    && (level > 0 ==> IsSlice(files, upper))
  }

  /** The inputs are listed in the order of their levels, so each listing can be read as one run
      (above level 0) or as distinct files (in level 0). */
  ghost predicate InputsInOrder(c: Inputs) {
    && (c.level == 0 ==> InBuilderOrder(c.upper))
    && (c.level > 0 ==> LevelSorted(c.upper))
    && LevelSorted(c.lower)
  }

  ghost predicate IsSlice(files: seq<File>, part: seq<File>) {
    exists i :: SliceAt(files, i, part, |part|)
  }

  /** A range-closed choice is closed: what it leaves out shares no user key with it. */
  lemma RangeClosedIsClosed(files: seq<File>, upper: seq<File>)
    requires AllWellFormed(files) && upper != [] && RangeClosed(files, upper)
    requires forall f :: f in upper ==> f in files
    ensures UpperClosed(files, upper)
  {
    RangeBounds(upper);
    forall f, g, e, x | f in upper && g in files && g !in upper && e in g.entries && x in f.entries
      ensures e.User() != x.User()
    {
      EntryInRange(f, x);
      EntryInRange(g, e);
    }
  }

  /** In level 0 AddBoundaryInputs finds nothing to add. */
  lemma BoundaryNoop(files: seq<File>, chosen: seq<File>, r: seq<File>)
    requires AllWellFormed(files) && chosen != [] && RangeClosed(files, chosen)
    requires forall f :: f in chosen ==> f in files
    requires chosen <= r && BoundaryChain(files, r, |chosen|)
    ensures r == chosen
  {
    if |r| > |chosen| {
      var b := r[|chosen|];
      assert r[..|chosen|] == chosen;
      assert NextBoundary(files, LargestKey(chosen), b);
      RangeBounds(chosen);
      MeetsItsOwnRange(files, chosen, b, b);
      EntryInRange(b, b.entries[0]);
      assert false;
    }
  }

  /** In a sorted level, a slice whose last user key is not continued leaves out only newer files. */
  lemma SliceIsClosed(files: seq<File>, i: nat, upper: seq<File>)
    requires LevelSorted(files) && AllWellFormed(files) && UniqueSeqs(FileEntries(files))
    requires upper != [] && SliceAt(files, i, upper, |upper|)
    requires forall f :: f in files ==> !Continues(f, files[i + |upper| - 1].largest)
    ensures UpperClosed(files, upper)
  {
    hide LevelSorted, AllWellFormed, UniqueSeqs, FileNewer, Continues;
    forall f | f in upper
      ensures f in files
    {
      var a :| 0 <= a < |upper| && upper[a] == f;
      assert files[i + a] == f;
    }
    forall f, g | f in upper && g in files && g !in upper
      ensures FileNewer(g, f)
    {
      var a :| 0 <= a < |upper| && upper[a] == f;
      var b :| 0 <= b < |files| && files[b] == g;
      assert !(i <= b < i + |upper|) by {
        assert forall q :: i <= q < i + |upper| ==> files[q] == upper[q - i] && files[q] in upper;
      }
      if b < i {
        BeforeTheSlice(files, b, i + a);
      } else {
        PastTheSlice(files, i + a, i + |upper|, b);
      }
    }
  }

  lemma BeforeTheSlice(files: seq<File>, b: nat, a: nat)
    requires LevelSorted(files) && AllWellFormed(files) && UniqueSeqs(FileEntries(files)) && b < a < |files|
    ensures FileNewer(files[b], files[a])
  {
    var g, f := files[b], files[a];
    assert Before(g, f) && g in files && f in files;
    forall e, x | e in g.entries && x in f.entries && e.User() == x.User()
      ensures e.Seq() > x.Seq()
    {
      EntryInRange(g, e);
      EntryInRange(f, x);
      assert e in FileEntries(files) && x in FileEntries(files);
      assert Less(e.ikey, x.ikey);
    }
  }

  lemma PastTheSlice(files: seq<File>, a: nat, j: nat, b: nat)
    requires LevelSorted(files) && AllWellFormed(files)
    requires a < j <= b < |files|
    requires forall f :: f in files ==> !Continues(f, files[j - 1].largest)
    ensures FileNewer(files[b], files[a])
  {
    LargestAscends(files);
    assert Before(files[j - 1], files[b]);
    assert files[b] in files && files[a] in files;
    assert files[j - 1].largest.user < files[b].smallest.user;
    forall e, x | e in files[b].entries && x in files[a].entries
      ensures e.User() != x.User()
    {
      EntryInRange(files[b], e);
      EntryInRange(files[a], x);
    }
  }

  /** AddBoundaryInputs turns a choice that is ready into a closed one. */
  lemma UpperBecomesClosed(files: seq<File>, level: nat, chosen: seq<File>, r: seq<File>)
    requires AllWellFormed(files) && (level > 0 ==> LevelSorted(files) && UniqueSeqs(FileEntries(files)))
    requires UpperReady(files, level, chosen)
    requires chosen <= r && BoundaryChain(files, r, |chosen|)
    requires forall f :: f in files ==> !Continues(f, LargestKey(r))
    ensures UpperClosed(files, r)
  {
    hide AllWellFormed, LevelSorted, UniqueSeqs, RangeClosed, BoundaryChain, Continues, LargestKey, UpperClosed, IsSlice;
    if level == 0 {
      BoundaryNoop(files, chosen, r);
      RangeClosedIsClosed(files, r);
    } else {
      SliceBecomesClosed(files, chosen, r);
    }
  }

  lemma SliceBecomesClosed(files: seq<File>, chosen: seq<File>, r: seq<File>)
    requires AllWellFormed(files) && LevelSorted(files) && UniqueSeqs(FileEntries(files))
    requires chosen != [] && IsSlice(files, chosen)
    requires chosen <= r && BoundaryChain(files, r, |chosen|)
    requires forall f :: f in files ==> !Continues(f, LargestKey(r))
    ensures UpperClosed(files, r)
  {
    hide AllWellFormed, LevelSorted, UniqueSeqs, BoundaryChain, Continues, LargestKey, UpperClosed;
    var i :| SliceAt(files, i, chosen, |chosen|);
    assert SliceAt(files, i, r, |chosen|);
    BoundarySlice(files, i, r, |chosen|, |r|);
    PrefixLargest(files, i, r, |r|);
    assert r[..|r|] == r;
    SliceIsClosed(files, i, r);
  }

  lemma BoundaryKeepsOrder(files: seq<File>, level: nat, chosen: seq<File>, r: seq<File>)
    requires AllWellFormed(files) && (level > 0 ==> LevelSorted(files))
    requires UpperReady(files, level, chosen)
    requires chosen <= r && BoundaryChain(files, r, |chosen|)
    ensures level == 0 ==> InBuilderOrder(r)
    ensures level > 0 ==> LevelSorted(r)
  {
    hide AllWellFormed, LevelSorted, RangeClosed, BoundaryChain, LargestKey, InBuilderOrder;
    if level == 0 {
      BoundaryNoop(files, chosen, r);
    } else {
      var i :| SliceAt(files, i, chosen, |chosen|);
      assert SliceAt(files, i, r, |chosen|);
      BoundarySlice(files, i, r, |chosen|, |r|);
      SliceIsSorted(files, i, r);
    }
  }

  lemma SliceIsSorted(files: seq<File>, i: nat, part: seq<File>)
    requires LevelSorted(files) && SliceAt(files, i, part, |part|)
    ensures LevelSorted(part)
  {
    forall a, b | 0 <= a < b < |part|
      ensures Before(part[a], part[b])
    {
      assert Before(files[i + a], files[i + b]);
    }
  }

  lemma OverlappingIsSorted(files: seq<File>, lo: Option<Key>, hi: Option<Key>)
    requires LevelSorted(files) && AllWellFormed(files)
    ensures LevelSorted(Overlapping(files, lo, hi))
  {
    hide LevelSorted, AllWellFormed;
    var i, j := OverlappingIsSlice(files, lo, hi, |files|);
    assert files[..|files|] == files;
    SliceIsSorted(files, i, Overlapping(files, lo, hi));
  }

  lemma {:induction false} OverlappingKeepsOrder(files: seq<File>, lo: Option<Key>, hi: Option<Key>)
    requires InBuilderOrder(files)
    ensures InBuilderOrder(Overlapping(files, lo, hi))
  {
    if files != [] {
      var n := |files| - 1;
      OverlappingKeepsOrder(files[..n], lo, hi);
      forall f | f in files[..n]
        ensures BySmallest(f, files[n])
      {
        var i :| 0 <= i < n && files[..n][i] == f;
        assert BySmallest(files[i], files[n]);
      }
    }
  }

  // ----- Coverage -----

  lemma CoveredByMore(files: seq<File>, more: seq<File>, lo: Key, hi: Key)
    requires Covered(files, lo, hi)
    requires forall f :: f in files ==> f in more
    ensures Covered(more, lo, hi)
  {
    forall p | lo <= p <= hi
      ensures CoversKey(more, p)
    {
      assert CoversKey(files, p);
    }
  }

  /** If all files meet a covered range, the range up to their outermost ends is covered. */
  lemma HullIsCovered(files: seq<File>, part: seq<File>, lo: Key, hi: Key)
    requires part != [] && Covered(files, lo, hi)
    requires forall f :: f in part ==> f in files && Overlaps(f, Some(lo), Some(hi))
    ensures Covered(files, SmallestKey(part).user, LargestKey(part).user)
  {
    RangeBounds(part);
    var f :| f in part && f.smallest == SmallestKey(part);
    var g :| g in part && g.largest == LargestKey(part);
    var lo' := if f.smallest.user < lo then f.smallest.user else lo;
    CoveredGrows(files, f, lo, hi, lo', hi);
    CoveredGrows(files, g, lo', hi, lo', if g.largest.user > hi then g.largest.user else hi);
    CoveredShrinks(files, lo', if g.largest.user > hi then g.largest.user else hi,
                   SmallestKey(part).user, LargestKey(part).user);
  }

  lemma CoveredShrinks(files: seq<File>, lo: Key, hi: Key, lo': Key, hi': Key)
    requires Covered(files, lo, hi) && lo <= lo' && hi' <= hi
    ensures Covered(files, lo', hi')
  {
  }

  /** Boundary files continue a user key, so they leave no gap. */
  lemma {:induction false} ChainIsCovered(files: seq<File>, chosen: seq<File>, from: nat, others: seq<File>, m: nat)
    requires BoundaryChain(files, chosen, from) && from <= m <= |chosen|
    requires Covered(chosen[..from] + others, SmallestKey(chosen[..from]).user, LargestKey(chosen[..from]).user)
    requires AllWellFormed(files) && forall f :: f in chosen[..from] ==> f in files
    ensures Covered(chosen[..m] + others, SmallestKey(chosen[..m]).user, LargestKey(chosen[..m]).user)
    ensures forall f :: f in chosen[..m] ==> f in files
    decreases m
  {
    hide Covered, SmallestKey, LargestKey, AllWellFormed, NextBoundary;
    if m > from {
      ChainIsCovered(files, chosen, from, others, m - 1);
      assert chosen[..m] == chosen[..m - 1] + [chosen[m - 1]];
      ChainStepIsCovered(files, chosen[..m - 1], chosen[m - 1], others);
    }
  }

  lemma ChainStepIsCovered(files: seq<File>, before: seq<File>, b: File, others: seq<File>)
    requires before != [] && NextBoundary(files, LargestKey(before), b)
    requires Covered(before + others, SmallestKey(before).user, LargestKey(before).user)
    requires AllWellFormed(files) && forall f :: f in before ==> f in files
    ensures b in files
    ensures Covered(before + [b] + others, SmallestKey(before + [b]).user, LargestKey(before + [b]).user)
  {
    hide Covered, SmallestKey, LargestKey, AllWellFormed;
    var after := before + [b];
    CoveredByMore(before + others, after + others, SmallestKey(before).user, LargestKey(before).user);
    forall f | f in after
      ensures Overlaps(f, UserLo(before), UserHi(before))
    {
      MeetsItsOwnRange(files, before, b, f);
    }
    HullIsCovered(after + others, after, SmallestKey(before).user, LargestKey(before).user);
  }

  lemma MeetsItsOwnRange(files: seq<File>, before: seq<File>, b: File, f: File)
    requires AllWellFormed(files) && before != [] && forall g :: g in before ==> g in files
    requires NextBoundary(files, LargestKey(before), b)
    requires f == b || f in before
    ensures Overlaps(f, UserLo(before), UserHi(before))
  {
    RangeBounds(before);
    EntryInRange(f, f.entries[0]);
    var g :| g in before && g.largest == LargestKey(before);
    EntryInRange(g, g.entries[0]);
  }

  /** The chain of upper files with every lower file that meets their range is gapless. */
  lemma WholeIsGapless(files: seq<File>, raw: seq<File>, upper: seq<File>, lower: seq<File>)
    requires AllWellFormed(files) && raw != [] && forall f :: f in raw ==> f in files
    requires raw <= upper && BoundaryChain(files, upper, |raw|)
    requires Covered(raw + lower, SmallestKey(raw).user, LargestKey(raw).user)
    requires forall g :: g in lower ==> Overlaps(g, UserLo(upper), UserHi(upper))
    ensures Covered(upper + lower, SmallestKey(upper + lower).user, LargestKey(upper + lower).user)
  {
    assert upper[..|raw|] == raw;
    ChainIsCovered(files, upper, |raw|, lower, |upper|);
    assert upper[..|upper|] == upper;
    RangeBounds(upper);
    forall f | f in upper + lower
      ensures Overlaps(f, UserLo(upper), UserHi(upper))
    {
      if f in upper {
        EntryInRange(f, f.entries[0]);
      }
    }
    HullIsCovered(upper + lower, upper + lower, SmallestKey(upper).user, LargestKey(upper).user);
  }

  // ----- What GetOverlappingInputs chooses -----

  lemma ChosenIsRangeClosed(files: seq<File>, lo: Option<Key>, hi: Option<Key>)
    requires forall f :: f in Overlapping(files, lo, hi) ==> Inside(f, lo, hi)
    ensures RangeClosed(files, Overlapping(files, lo, hi))
  {
    var chosen := Overlapping(files, lo, hi);
    if chosen != [] {
      RangeBounds(chosen);
    }
  }

  /** In a sorted level, the files that meet a range are consecutive. */
  lemma {:induction false} OverlappingIsSlice(files: seq<File>, lo: Option<Key>, hi: Option<Key>, n: nat)
    returns (i: nat, j: nat)
    requires LevelSorted(files) && AllWellFormed(files) && n <= |files|
    ensures i <= j <= n && Overlapping(files[..n], lo, hi) == files[i..j]
  {
    hide LevelSorted, AllWellFormed, Overlapping, Overlaps;
    if n == 0 {
      NoneOverlap(lo, hi);
      i, j := 0, 0;
    } else {
      var m := n - 1;
      i, j := OverlappingIsSlice(files, lo, hi, m);
      OverlappingOneMore(files, lo, hi, m);
      if Overlaps(files[m], lo, hi) {
        if i == j {
          i, j := m, n;
        } else {
          SliceReachesEnd(files, lo, hi, i, j, m);
          j := n;
          assert files[i..n] == files[i..m] + [files[m]];
        }
      }
    }
  }

  lemma NoneOverlap(lo: Option<Key>, hi: Option<Key>)
    ensures Overlapping([], lo, hi) == []
  {
  }

  lemma OverlappingOneMore(files: seq<File>, lo: Option<Key>, hi: Option<Key>, m: nat)
    requires m < |files|
    ensures Overlapping(files[..m + 1], lo, hi)
         == Overlapping(files[..m], lo, hi) + if Overlaps(files[m], lo, hi) then [files[m]] else []
  {
    assert files[..m + 1][..m] == files[..m];
  }

  lemma SliceReachesEnd(files: seq<File>, lo: Option<Key>, hi: Option<Key>, i: nat, j: nat, m: nat)
    requires LevelSorted(files) && AllWellFormed(files) && i < j <= m < |files|
    requires Overlapping(files[..m], lo, hi) == files[i..j]
    requires Overlaps(files[m], lo, hi)
    ensures j == m
  {
    LargestAscends(files);
    assert files[j - 1] == files[i..j][j - 1 - i];
    assert Overlaps(files[j - 1], lo, hi);
    assert Overlaps(files[j], lo, hi);
    forall q | i <= q < j
      ensures files[q] != files[j]
    {
      assert Less(files[q].smallest, files[j].smallest);
    }
    assert files[j] !in files[i..j];
    assert forall q :: 0 <= q < m ==> files[q] in files[..m];
  }

  /** The chosen files cover a range that their level, with some other files, covers. */
  lemma ChosenCover(files: seq<File>, others: seq<File>, lo: Key, hi: Key)
    requires Covered(files + others, lo, hi)
    ensures var chosen := Overlapping(files, Some(lo), Some(hi));
            && Covered(chosen + others, lo, hi)
            && (chosen != [] ==> Covered(chosen + others, SmallestKey(chosen).user, LargestKey(chosen).user))
  {
    var chosen := Overlapping(files, Some(lo), Some(hi));
    forall p | lo <= p <= hi
      ensures CoversKey(chosen + others, p)
    {
      assert CoversKey(files + others, p);
      var f :| f in files + others && InUserRange(f, p);
      assert f in chosen + others;
    }
    if chosen != [] {
      HullIsCovered(chosen + others, chosen, lo, hi);
    }
  }

  // ----- VersionSet::SetupOtherInputs -----

  /** The files found with the boundary files that AddBoundaryInputs adds to them. */
  ghost predicate WithBoundary(files: seq<File>, chosen: seq<File>, r: seq<File>) {
    && chosen != [] && chosen <= r && BoundaryChain(files, r, |chosen|)
    && forall f :: f in files ==> !Continues(f, LargestKey(r))
  }

  /** The first inputs: boundary files above, and below the files that meet them. */
  ghost predicate FirstInputs(v: Levels, level: nat, picked: seq<File>, c: Inputs)
    requires |v| == NUM_LEVELS && level + 1 < NUM_LEVELS
  {
    && c.level == level && WithBoundary(v[level], picked, c.upper)
    && c.lower == Overlapping(v[level + 1], UserLo(c.upper), UserHi(c.upper))
  }

  /** The wider inputs are what meets the range of all first inputs; they are taken exactly when they are more, their
      files are not too large, and no further lower file meets them. */
  ghost predicate Grown(v: Levels, c: Inputs, maxFileSize: nat, wider: Inputs, r: Inputs)
    requires |v| == NUM_LEVELS && c.level + 1 < NUM_LEVELS && c.upper != []
  {
    && (exists raw :: Met(c.level, v[c.level], UserLo(c.upper + c.lower), UserHi(c.upper + c.lower), raw)
                      && FirstInputs(v, c.level, raw, wider))
    && r == if |wider.upper| > |c.upper| && TotalSize(c.lower) + TotalSize(wider.upper) < 25 * maxFileSize
               && |wider.lower| == |c.lower|
            then wider else c
  }

  ghost predicate SetUp(v: Levels, level: nat, picked: seq<File>, maxFileSize: nat, c: Inputs)
    requires |v| == NUM_LEVELS && level + 1 < NUM_LEVELS
  {
    exists first, wider ::
      FirstInputs(v, level, picked, first) &&
      if first.lower == [] then c == first else Grown(v, first, maxFileSize, wider, c)
  }

  method SetupOtherInputs(v: Levels, level: nat, picked: seq<File>, maxFileSize: nat)
    returns (c: Inputs, grandparents: seq<File>)
    requires ValidLevels(v) && UniqueSeqs(VersionEntries(v))
    requires level + 1 < NUM_LEVELS && UpperReady(v[level], level, picked)
    ensures c.level == level && Closed(v, c) && InputsInOrder(c)
    ensures forall f :: f in picked ==> f in c.upper
    ensures c.lower == Overlapping(v[level + 1], UserLo(c.upper), UserHi(c.upper))
    ensures Covered(picked, SmallestKey(picked).user, LargestKey(picked).user) ==> Gapless(c)
    ensures level + 2 < NUM_LEVELS ==>
              grandparents == Overlapping(v[level + 2], UserLo(c.upper + c.lower), UserHi(c.upper + c.lower))
    ensures level + 2 >= NUM_LEVELS ==> grandparents == []
    ensures SetUp(v, level, picked, maxFileSize, c)
  {
    hide ValidLevels, Closed, InputsInOrder, UpperReady, Gapless, Covered, AllWellFormed, LevelSorted, UniqueSeqs, BoundaryChain,
         SmallestKey, LargestKey, GrownTo, Inside, LeastRange, Met, Grown;
    LevelFacts(v);
    ReadyFacts(v[level], level, picked);
    var upper := AddBoundaryInputs(v[level], picked);
    var smallest, largest := GetRange(upper);
    var lower, _, _ := GetOverlappingInputs(level + 1, v[level + 1], Some(smallest.user), Some(largest.user), []);
    FirstInputsAreClosed(v, level, picked, upper, lower);
    c := Inputs(level, upper, lower);
    ghost var first, wider := c, c;
    assert FirstInputs(v, level, picked, first);
    if lower != [] {
      c, wider := TryToExpand(v, c, maxFileSize);
    }
    IsSetUp(v, level, picked, maxFileSize, first, wider, c);
    var allStart, allLimit := GetRange(c.upper + c.lower);
    grandparents := [];
    if level + 2 < NUM_LEVELS {
      var found, _, _ :=
        GetOverlappingInputs(level + 2, v[level + 2], Some(allStart.user), Some(allLimit.user), []);
      grandparents := found;
    }
  }

  lemma IsSetUp(v: Levels, level: nat, picked: seq<File>, maxFileSize: nat, first: Inputs, wider: Inputs, c: Inputs)
    requires |v| == NUM_LEVELS && level + 1 < NUM_LEVELS && FirstInputs(v, level, picked, first)
    requires if first.lower == [] then c == first else Grown(v, first, maxFileSize, wider, c)
    ensures SetUp(v, level, picked, maxFileSize, c)
  {
    hide Met, BoundaryChain, Continues;
    assert FirstInputs(v, level, picked, first);
    assert Grown(v, first, maxFileSize, wider, c) || !Grown(v, first, maxFileSize, wider, c);
  }

  lemma PrefixMembers(part: seq<File>, whole: seq<File>)
    requires part <= whole
    ensures forall f :: f in part ==> f in whole
  {
  }

  lemma ReadyFacts(files: seq<File>, level: nat, upper: seq<File>)
    requires UpperReady(files, level, upper)
    ensures upper != [] && forall f :: f in upper ==> f in files
  {
  }

  lemma ClosedFacts(v: Levels, c: Inputs)
    requires |v| == NUM_LEVELS && StillClosed(v, c)
    ensures c.upper != [] && c.level + 1 < NUM_LEVELS
  {
  }

  lemma FirstInputsAreClosed(v: Levels, level: nat, picked: seq<File>, upper: seq<File>, lower: seq<File>)
    requires ValidLevels(v) && UniqueSeqs(VersionEntries(v))
    requires level + 1 < NUM_LEVELS && UpperReady(v[level], level, picked)
    requires picked <= upper && BoundaryChain(v[level], upper, |picked|)
    requires forall f :: f in v[level] ==> !Continues(f, LargestKey(upper))
    requires lower == Overlapping(v[level + 1], UserLo(upper), UserHi(upper))
    ensures Closed(v, Inputs(level, upper, lower)) && InputsInOrder(Inputs(level, upper, lower))
    ensures forall f :: f in picked ==> f in upper
    ensures Covered(picked, SmallestKey(picked).user, LargestKey(picked).user) ==> Gapless(Inputs(level, upper, lower))
  {
    hide ValidLevels, AllWellFormed, LevelSorted, UniqueSeqs, BoundaryChain, UpperReady, Covered, UpperClosed,
         SmallestKey, LargestKey;
    LevelFacts(v);
    ReadyFacts(v[level], level, picked);
    UpperBecomesClosed(v[level], level, picked, upper);
    BoundaryKeepsOrder(v[level], level, picked, upper);
    OverlappingIsSorted(v[level + 1], UserLo(upper), UserHi(upper));
    PrefixMembers(picked, upper);
    if Covered(picked, SmallestKey(picked).user, LargestKey(picked).user) {
      CoveredByMore(picked, picked + lower, SmallestKey(picked).user, LargestKey(picked).user);
      WholeIsGapless(v[level], picked, upper, lower);
    }
  }

  /** The attempt to grow the upper inputs without changing the number of lower inputs. */
  method TryToExpand(v: Levels, c: Inputs, maxFileSize: nat) returns (r: Inputs, ghost wider: Inputs)
    requires ValidLevels(v) && UniqueSeqs(VersionEntries(v))
    requires Closed(v, c) && c.lower == Overlapping(v[c.level + 1], UserLo(c.upper), UserHi(c.upper))
    requires InputsInOrder(c)
    ensures r.level == c.level && Closed(v, r) && InputsInOrder(r)
    ensures forall f :: f in c.upper ==> f in r.upper
    ensures r.lower == Overlapping(v[r.level + 1], UserLo(r.upper), UserHi(r.upper))
    ensures Gapless(c) ==> Gapless(r)
    ensures r == c || (|r.upper| > |c.upper| && |r.lower| == |c.lower|
                       && TotalSize(r.upper) + TotalSize(c.lower) < 25 * maxFileSize)
    ensures Grown(v, c, maxFileSize, wider, r)
  {
    hide ValidLevels, Closed, InputsInOrder, Gapless, AllWellFormed, LevelSorted, UniqueSeqs, BoundaryChain, GrownTo, UpperReady,
         LeastRange, Met;
    LevelFacts(v);
    ClosedIsStillClosed(v, c);
    ClosedFacts(v, c);
    r := c;
    var all := c.upper + c.lower;
    var allStart, allLimit := GetRange(all);
    var raw, lo, hi := GetOverlappingInputs(c.level, v[c.level], Some(allStart.user), Some(allLimit.user), c.lower);
    RawHoldsUpper(v, c, lo, hi);
    var expanded0 := AddBoundaryInputs(v[c.level], raw);
    wider := Inputs(c.level, expanded0, Overlapping(v[c.level + 1], UserLo(expanded0), UserHi(expanded0)));
    assert FirstInputs(v, c.level, raw, wider);
    if |expanded0| > |c.upper| && TotalSize(c.lower) + TotalSize(expanded0) < 25 * maxFileSize {
      var newStart, newLimit := GetRange(expanded0);
      var expanded1, _, _ :=
        GetOverlappingInputs(c.level + 1, v[c.level + 1], Some(newStart.user), Some(newLimit.user), []);
      if |expanded1| == |c.lower| {
        r := Inputs(c.level, expanded0, expanded1);
        ExpandedIsClosed(v, c, raw, lo, hi, r);
        ExpandedIsInOrder(v, c, raw, lo, hi, r);
      }
    }
  }

  /** The inputs found so far meet their own range, so they are found again. */
  lemma RawHoldsUpper(v: Levels, c: Inputs, lo: Option<Key>, hi: Option<Key>)
    requires ValidLevels(v) && Closed(v, c)
    requires GrownTo(v[c.level], c.lower, UserLo(c.upper + c.lower), UserHi(c.upper + c.lower), lo, hi)
    ensures var raw := Overlapping(v[c.level], lo, hi); raw != [] && forall f :: f in c.upper ==> f in raw
  {
    hide ValidLevels, LevelSorted, UniqueSeqs, FileNewer;
    LevelFacts(v);
    RangeBounds(c.upper + c.lower);
    forall f | f in c.upper
      ensures f in Overlapping(v[c.level], lo, hi)
    {
      assert f in c.upper + c.lower;
      EntryInRange(f, f.entries[0]);
    }
    assert c.upper[0] in c.upper;
  }

  lemma ExpandedIsClosed(v: Levels, c: Inputs, raw: seq<File>, lo: Option<Key>, hi: Option<Key>, r: Inputs)
    requires ValidLevels(v) && UniqueSeqs(VersionEntries(v)) && Closed(v, c) && r.level == c.level
    requires c.lower == Overlapping(v[c.level + 1], UserLo(c.upper), UserHi(c.upper))
    requires GrownTo(v[c.level], c.lower, UserLo(c.upper + c.lower), UserHi(c.upper + c.lower), lo, hi)
    requires c.level == 0 ==> forall f :: f in raw ==> Inside(f, lo, hi)
    requires raw == Overlapping(v[c.level], lo, hi) && raw != [] && forall f :: f in c.upper ==> f in raw
    requires raw <= r.upper && BoundaryChain(v[c.level], r.upper, |raw|)
    requires forall f :: f in v[c.level] ==> !Continues(f, LargestKey(r.upper))
    requires r.lower == Overlapping(v[c.level + 1], UserLo(r.upper), UserHi(r.upper))
    ensures Closed(v, r)
    ensures forall f :: f in c.upper ==> f in r.upper
    ensures Gapless(c) ==> Gapless(r)
  {
    hide ValidLevels, GrownTo, LevelSorted, AllWellFormed, UniqueSeqs, UpperReady, BoundaryChain, UpperClosed, Gapless,
         InBuilderOrder,
         SmallestKey, LargestKey;
    LevelFacts(v);
    RawIsReady(v[c.level], c.level, lo, hi);
    UpperBecomesClosed(v[c.level], c.level, raw, r.upper);
    PrefixMembers(raw, r.upper);
    RangeOnlyGrows(c.upper, r.upper);
    if Gapless(c) {
      ExpandedIsGapless(v, c, raw, lo, hi, r);
    }
  }

  lemma ExpandedIsInOrder(v: Levels, c: Inputs, raw: seq<File>, lo: Option<Key>, hi: Option<Key>, r: Inputs)
    requires ValidLevels(v) && c.level + 1 < NUM_LEVELS && r.level == c.level
    requires c.level == 0 ==> forall f :: f in raw ==> Inside(f, lo, hi)
    requires raw == Overlapping(v[c.level], lo, hi) && raw != [] && r.upper != []
    requires raw <= r.upper && BoundaryChain(v[c.level], r.upper, |raw|)
    requires r.lower == Overlapping(v[r.level + 1], UserLo(r.upper), UserHi(r.upper))
    ensures InputsInOrder(r)
  {
    hide ValidLevels, LevelSorted, AllWellFormed, UniqueSeqs, UpperReady, BoundaryChain, InBuilderOrder,
         SmallestKey, LargestKey, Overlapping;
    LevelFacts(v);
    RawIsReady(v[c.level], c.level, lo, hi);
    BoundaryKeepsOrder(v[c.level], c.level, raw, r.upper);
    OverlappingIsSorted(v[r.level + 1], UserLo(r.upper), UserHi(r.upper));
  }

  /** The parts of ValidLevels that the choice of inputs relies on. */
  lemma LevelFacts(v: Levels)
    requires ValidLevels(v)
    ensures |v| == NUM_LEVELS
    ensures forall l :: 0 <= l < NUM_LEVELS ==> AllWellFormed(v[l])
    ensures forall l :: 1 <= l < NUM_LEVELS ==> LevelSorted(v[l])
    ensures InBuilderOrder(v[0])
    ensures UniqueSeqs(VersionEntries(v)) ==> forall l :: 0 <= l < NUM_LEVELS ==> UniqueSeqs(FileEntries(v[l]))
  {
    if UniqueSeqs(VersionEntries(v)) {
      LevelsAreUnique(v);
    }
  }

  lemma LevelsAreUnique(v: Levels)
    requires UniqueSeqs(VersionEntries(v))
    ensures forall l :: 0 <= l < |v| ==> UniqueSeqs(FileEntries(v[l]))
  {
    forall l, e | 0 <= l < |v| && e in FileEntries(v[l])
      ensures e in VersionEntries(v)
    {
    }
  }

  lemma RawIsReady(files: seq<File>, level: nat, lo: Option<Key>, hi: Option<Key>)
    requires AllWellFormed(files) && (level > 0 ==> LevelSorted(files)) && (level == 0 ==> InBuilderOrder(files))
    requires Overlapping(files, lo, hi) != []
    requires level == 0 ==> forall f :: f in Overlapping(files, lo, hi) ==> Inside(f, lo, hi)
    ensures UpperReady(files, level, Overlapping(files, lo, hi))
  {
    hide AllWellFormed, LevelSorted, InBuilderOrder, RangeClosed, SliceAt, Overlaps, Inside;
    if level == 0 {
      ChosenIsRangeClosed(files, lo, hi);
      OverlappingKeepsOrder(files, lo, hi);
    } else {
      RawIsSlice(files, lo, hi);
    }
  }

  lemma RawIsSlice(files: seq<File>, lo: Option<Key>, hi: Option<Key>)
    requires AllWellFormed(files) && LevelSorted(files)
    ensures IsSlice(files, Overlapping(files, lo, hi))
  {
    hide AllWellFormed, LevelSorted, Overlaps;
    var i, j := OverlappingIsSlice(files, lo, hi, |files|);
    assert files[..|files|] == files;
    assert SliceAt(files, i, Overlapping(files, lo, hi), j - i);
  }

  lemma RangeOnlyGrows(part: seq<File>, whole: seq<File>)
    requires part != [] && whole != [] && forall f :: f in part ==> f in whole
    ensures SmallestKey(whole).user <= SmallestKey(part).user
    ensures LargestKey(part).user <= LargestKey(whole).user
  {
    RangeBounds(part);
    RangeBounds(whole);
  }

  lemma ExpandedIsGapless(v: Levels, c: Inputs, raw: seq<File>, lo: Option<Key>, hi: Option<Key>, r: Inputs)
    requires ValidLevels(v) && Closed(v, c) && Gapless(c) && r.level == c.level
    requires c.lower == Overlapping(v[c.level + 1], UserLo(c.upper), UserHi(c.upper))
    requires GrownTo(v[c.level], c.lower, UserLo(c.upper + c.lower), UserHi(c.upper + c.lower), lo, hi)
    requires raw == Overlapping(v[c.level], lo, hi) && raw != []
    requires raw <= r.upper && BoundaryChain(v[c.level], r.upper, |raw|)
    requires r.lower == Overlapping(v[c.level + 1], UserLo(r.upper), UserHi(r.upper))
    requires SmallestKey(r.upper).user <= SmallestKey(c.upper).user
    requires LargestKey(c.upper).user <= LargestKey(r.upper).user
    ensures Gapless(r)
  {
    var files := v[c.level];
    var a, b := SmallestKey(c.upper + c.lower).user, LargestKey(c.upper + c.lower).user;
    CoveredByMore(c.upper + c.lower, files + c.lower, a, b);
    assert Covered(files + c.lower, lo.value, hi.value);
    ChosenCover(files, c.lower, lo.value, hi.value);
    CoveredByMore(raw + c.lower, raw + r.lower, SmallestKey(raw).user, LargestKey(raw).user);
    WholeIsGapless(files, raw, r.upper, r.lower);
  }

  // ----- Picking a compaction -----

  /** The first file that ends past the pointer, else the first of all. */
  ghost predicate IsFirstAfter(files: seq<File>, pointer: Option<IKey>, f: File) {
    || (exists i :: && 0 <= i < |files| && files[i] == f && (pointer.None? || Less(pointer.value, f.largest))
                    && forall j :: 0 <= j < i ==> pointer.Some? && !Less(pointer.value, files[j].largest))
    || (files != [] && files[0] == f && pointer.Some? && forall g :: g in files ==> !Less(pointer.value, g.largest))
  }

  /** The inputs that one file leads to. */
  ghost predicate StartedFrom(v: Levels, level: nat, f: File, maxFileSize: nat, c: Inputs)
    requires |v| == NUM_LEVELS && level + 1 < NUM_LEVELS
  {
    exists files ::
      && (if level == 0 then Met(0, v[0], Some(f.smallest.user), Some(f.largest.user), files) else files == [f])
      && SetUp(v, level, files, maxFileSize, c)
  }

  /** What a compaction for size, or else for seeks, is started from. */
  ghost predicate PickedFor(v: Levels, sizeLevel: Option<nat>, seekFile: Option<(nat, File)>, compactPointer: Option<IKey>,
                            maxFileSize: nat, c: Inputs)
    requires |v| == NUM_LEVELS
  {
    if sizeLevel.Some? then
      && sizeLevel.value + 1 < NUM_LEVELS && c.level == sizeLevel.value
      && exists f :: IsFirstAfter(v[sizeLevel.value], compactPointer, f) && f in c.upper
                     && StartedFrom(v, sizeLevel.value, f, maxFileSize, c)
    else
      && seekFile.Some? && seekFile.value.0 + 1 < NUM_LEVELS && c.level == seekFile.value.0
      && StartedFrom(v, seekFile.value.0, seekFile.value.1, maxFileSize, c)
  }

  /** How many bytes two levels down the inputs lie over. */
  function GrandparentSize(v: Levels, c: Inputs): nat
    requires |v| == NUM_LEVELS && c.upper != []
  {
    if c.level + 2 >= NUM_LEVELS then 0
    else TotalSize(Overlapping(v[c.level + 2], UserLo(c.upper + c.lower), UserHi(c.upper + c.lower)))
  }

  /** VersionSet::PickCompaction. `sizeLevel` is the level whose score is at least 1, if any;
      `seekFile` is the file that too many seeks have charged, with its level. */
  method PickCompaction(v: Levels, sizeLevel: Option<nat>, seekFile: Option<(nat, File)>,
                        compactPointer: Option<IKey>, maxFileSize: nat)
    returns (picked: Option<Inputs>, grandparents: seq<File>)
    requires ValidLevels(v) && UniqueSeqs(VersionEntries(v))
    requires sizeLevel.Some? ==> sizeLevel.value + 1 < NUM_LEVELS && v[sizeLevel.value] != []
    requires seekFile.Some? ==> seekFile.value.0 + 1 < NUM_LEVELS && seekFile.value.1 in v[seekFile.value.0]
    ensures picked.None? <==> sizeLevel.None? && seekFile.None?
    ensures picked.Some? ==> Closed(v, picked.value) && Gapless(picked.value) && InputsInOrder(picked.value)
    ensures picked.Some? && picked.value.level + 2 < NUM_LEVELS ==>
              var all := picked.value.upper + picked.value.lower;
              grandparents == Overlapping(v[picked.value.level + 2], UserLo(all), UserHi(all))
    ensures sizeLevel.Some? ==> picked.value.level == sizeLevel.value
    ensures sizeLevel.None? && seekFile.Some? ==> picked.value.level == seekFile.value.0
                                                  && seekFile.value.1 in picked.value.upper
    // The choice starts from the file after the compaction pointer, or from the one that was charged.
    ensures |v| == NUM_LEVELS
    ensures picked.Some? ==> PickedFor(v, sizeLevel, seekFile, compactPointer, maxFileSize, picked.value)
    ensures picked.Some? ==> picked.value.upper != []
    ensures picked.Some? ==> TotalSize(grandparents) == GrandparentSize(v, picked.value)
  {
    hide ValidLevels, Closed, InputsInOrder, Gapless, AllWellFormed, LevelSorted, UniqueSeqs, UpperReady, Covered,
         Met, SetUp, IsFirstAfter, StartedFrom, PickedFor, TotalSize, Overlapping, GrandparentSize;
    LevelFacts(v);
    var level: nat, upper: seq<File>;
    if sizeLevel.Some? {
      level := sizeLevel.value;
      upper := FirstAfterPointer(v[level], compactPointer);
    } else if seekFile.Some? {
      level := seekFile.value.0;
      upper := [seekFile.value.1];
    } else {
      return None, [];
    }
    var c, others := PickFrom(v, level, upper[0], maxFileSize);
    IsPickedFor(v, sizeLevel, seekFile, compactPointer, maxFileSize, upper[0], c);
    return Some(c), others;
  }

  /** The part of PickCompaction that is the same for both reasons. */
  method PickFrom(v: Levels, level: nat, f: File, maxFileSize: nat) returns (c: Inputs, grandparents: seq<File>)
    requires ValidLevels(v) && UniqueSeqs(VersionEntries(v)) && level + 1 < NUM_LEVELS && f in v[level]
    ensures Closed(v, c) && c.level == level && c.upper != [] && Gapless(c) && InputsInOrder(c) && f in c.upper
    ensures StartedFrom(v, level, f, maxFileSize, c)
    ensures level + 2 < NUM_LEVELS ==>
              grandparents == Overlapping(v[level + 2], UserLo(c.upper + c.lower), UserHi(c.upper + c.lower))
    ensures TotalSize(grandparents) == GrandparentSize(v, c)
  {
    hide ValidLevels, InputsInOrder, Gapless, AllWellFormed, LevelSorted, UniqueSeqs, UpperReady, Covered, UpperClosed,
         LowerClosed, Met, SetUp, StartedFrom, Overlapping;
    LevelFacts(v);
    SingleIsReady(v[level], f);
    var upper := [f];
    if level == 0 {
      upper := CloseLevelZero(v, f);
    }
    c, grandparents := SetupOtherInputs(v, level, upper, maxFileSize);
    StartsFrom(v, level, f, upper, maxFileSize, c);
  }

  lemma IsPickedFor(v: Levels, sizeLevel: Option<nat>, seekFile: Option<(nat, File)>, compactPointer: Option<IKey>,
                    maxFileSize: nat, f: File, c: Inputs)
    requires |v| == NUM_LEVELS && c.level + 1 < NUM_LEVELS && StartedFrom(v, c.level, f, maxFileSize, c) && f in c.upper
    requires sizeLevel.Some? ==> c.level == sizeLevel.value && IsFirstAfter(v[c.level], compactPointer, f)
    requires sizeLevel.None? ==> seekFile == Some((c.level, f))
    ensures PickedFor(v, sizeLevel, seekFile, compactPointer, maxFileSize, c)
  {
    hide StartedFrom, IsFirstAfter;
  }

  lemma StartsFrom(v: Levels, level: nat, f: File, files: seq<File>, maxFileSize: nat, c: Inputs)
    requires |v| == NUM_LEVELS && level + 1 < NUM_LEVELS && SetUp(v, level, files, maxFileSize, c)
    requires level == 0 ==> Met(0, v[0], Some(f.smallest.user), Some(f.largest.user), files)
    requires level > 0 ==> files == [f]
    ensures StartedFrom(v, level, f, maxFileSize, c)
  {
    hide SetUp, Met;
  }

  /** Level-0 files may overlap: replace the picked file by all files its range leads to. */
  method CloseLevelZero(v: Levels, f: File) returns (upper: seq<File>)
    requires ValidLevels(v) && f in v[0]
    ensures UpperReady(v[0], 0, upper) && f in upper
    ensures Covered(upper, SmallestKey(upper).user, LargestKey(upper).user)
    ensures Met(0, v[0], Some(f.smallest.user), Some(f.largest.user), upper)
  {
    hide ValidLevels, Met, LeastRange;
    LevelFacts(v);
    SingleIsReady(v[0], f);
    var smallest, largest := GetRange([f]);
    var found, lo, hi := GetOverlappingInputs(0, v[0], Some(smallest.user), Some(largest.user), []);
    EntryInRange(f, f.entries[0]);
    CoveredByMore([f], v[0] + [], smallest.user, largest.user);
    ChosenCover(v[0], [], lo.value, hi.value);
    assert found + [] == found;
    assert f in found;
    RawIsReady(v[0], 0, lo, hi);
    return found;
  }

  /** The first file past the compaction pointer, wrapping around. */
  method FirstAfterPointer(files: seq<File>, pointer: Option<IKey>) returns (one: seq<File>)
    requires files != []
    ensures |one| == 1 && one[0] in files
    ensures pointer.Some? && Less(pointer.value, one[0].largest) ==>
              exists i :: 0 <= i < |files| && files[i] == one[0] &&
                forall j :: 0 <= j < i ==> !Less(pointer.value, files[j].largest)
    ensures pointer.Some? && !Less(pointer.value, one[0].largest) ==>
              one[0] == files[0] && forall f :: f in files ==> !Less(pointer.value, f.largest)
    ensures pointer.None? ==> one[0] == files[0]
    ensures IsFirstAfter(files, pointer, one[0])
  {
    for i := 0 to |files|
      invariant pointer.None? ==> i == 0
      invariant pointer.Some? ==> forall j :: 0 <= j < i ==> !Less(pointer.value, files[j].largest)
    {
      if pointer.None? || Less(pointer.value, files[i].largest) {
        return [files[i]];
      }
    }
    return [files[0]];
  }

  lemma SingleIsReady(files: seq<File>, f: File)
    requires AllWellFormed(files) && f in files
    ensures forall level :: level > 0 ==> UpperReady(files, level, [f])
    ensures Covered([f], SmallestKey([f]).user, LargestKey([f]).user)
  {
    var i :| 0 <= i < |files| && files[i] == f;
    assert SliceAt(files, i, [f], 1);
    forall p | f.smallest.user <= p <= f.largest.user
      ensures CoversKey([f], p)
    {
      assert f in [f] && InUserRange(f, p);
    }
  }

  /** VersionSet::CompactRange: a manual compaction of [begin, end]. */
  method CompactRange(v: Levels, level: nat, begin: Option<Key>, end: Option<Key>, maxFileSize: nat)
    returns (picked: Option<Inputs>)
    requires ValidLevels(v) && UniqueSeqs(VersionEntries(v)) && level + 1 < NUM_LEVELS
    ensures picked.None? <==> forall f :: f in v[level] ==> !Overlaps(f, begin, end)
    ensures picked.Some? ==> Closed(v, picked.value) && picked.value.level == level && InputsInOrder(picked.value)
    // In level 0 every file that meets the range is compacted, above it the first such files up to the size limit.
    ensures |v| == NUM_LEVELS
    ensures picked.Some? && level == 0 ==> forall f :: f in v[0] && Overlaps(f, begin, end) ==> f in picked.value.upper
    ensures picked.Some? && level > 0 ==>
              var met := Overlapping(v[level], begin, end);
              forall i :: 0 <= i < |met| && (i == 0 || TotalSize(met[..i]) < maxFileSize) ==> met[i] in picked.value.upper
    ensures picked.Some? ==> AskedFor(v, level, begin, end, maxFileSize, picked.value)
  {
    hide ValidLevels, Closed, InputsInOrder, AllWellFormed, LevelSorted, UniqueSeqs, UpperReady, GrownTo, InBuilderOrder,
         Met, SetUp, LeastRange, Overlapping, TotalSize;
    LevelFacts(v);
    var inputs, lo, hi := GetOverlappingInputs(level, v[level], begin, end, []);
    if inputs == [] {
      OverlapGrows(v[level], begin, end, lo, hi);
      return None;
    }
    RawIsReady(v[level], level, lo, hi);
    NonEmptyMeansOverlap(v[level], begin, end, lo, hi);
    ghost var met := inputs;
    if level > 0 {
      inputs := UpToLimit(v, level, inputs, maxFileSize);
    }
    var c, _ := SetupOtherInputs(v, level, inputs, maxFileSize);
    return Some(c);
  }

  /** Avoid compacting too much in one shot: the first files, up to the one with which their size reaches the limit. */
  method UpToLimit(v: Levels, level: nat, met: seq<File>, limit: nat) returns (inputs: seq<File>)
    requires |v| == NUM_LEVELS && 0 < level < NUM_LEVELS && UpperReady(v[level], level, met)
    ensures UpperReady(v[level], level, inputs) && FirstUpTo(met, limit, inputs)
    ensures forall i :: 0 <= i < |met| && (i == 0 || TotalSize(met[..i]) < limit) ==> met[i] in inputs
  {
    hide UpperReady, TotalSize;
    ReadyFacts(v[level], level, met);
    inputs := met;
    var total := 0;
    NothingSummed(met);
    for i := 0 to |met|
      invariant inputs == met && total == TotalSize(met[..i])
      invariant forall n :: 0 < n <= i ==> TotalSize(met[..n]) < limit
    {
      SumOneMore(met, i);
      total := total + met[i].size;
      if total >= limit {
        inputs := met[..i + 1];
        PrefixIsReady(v[level], level, met, inputs);
        forall n | n < |met| && n > i
          ensures TotalSize(met[..n]) >= limit
        {
          SumsGrow(met, i + 1, n);
        }
        forall k | 0 <= k <= i
          ensures met[k] in inputs
        {
          assert inputs[k] == met[k];
        }
        assert forall n :: 0 < n < |inputs| ==> inputs[..n] == met[..n];
        return;
      }
    }
    assert forall n :: 0 < n < |inputs| ==> inputs[..n] == met[..n];
  }

  /** The first of the files, as many as are below the limit and one more. */
  ghost predicate FirstUpTo(met: seq<File>, limit: nat, files: seq<File>) {
    && files != [] && files <= met
    && (forall n :: 0 < n < |files| ==> TotalSize(files[..n]) < limit)
    && (files == met || TotalSize(files) >= limit)
  }

  /** The inputs that a key range leads to. */
  ghost predicate AskedFor(v: Levels, level: nat, begin: Option<Key>, end: Option<Key>, maxFileSize: nat, c: Inputs)
    requires |v| == NUM_LEVELS && level + 1 < NUM_LEVELS
  {
    exists files ::
      && (if level == 0 then Met(0, v[0], begin, end, files)
          else FirstUpTo(Overlapping(v[level], begin, end), maxFileSize, files))
      && SetUp(v, level, files, maxFileSize, c)
  }

  lemma NothingSummed(files: seq<File>)
    ensures TotalSize(files[..0]) == 0
  {
  }

  lemma SumOneMore(files: seq<File>, i: nat)
    requires i < |files|
    ensures TotalSize(files[..i + 1]) == TotalSize(files[..i]) + files[i].size
  {
    assert files[..i + 1][..i] == files[..i];
  }

  lemma {:induction false} SumsGrow(files: seq<File>, i: nat, n: nat)
    requires i <= n <= |files|
    ensures TotalSize(files[..i]) <= TotalSize(files[..n])
    decreases n
  {
    hide TotalSize;
    if i < n {
      SumsGrow(files, i, n - 1);
      SumOneMore(files, n - 1);
    }
  }

  lemma OverlapGrows(files: seq<File>, begin: Option<Key>, end: Option<Key>, lo: Option<Key>, hi: Option<Key>)
    requires GrownTo(files, [], begin, end, lo, hi) && Overlapping(files, lo, hi) == []
    ensures forall f :: f in files ==> !Overlaps(f, begin, end)
  {
    forall f | f in files
      ensures !Overlaps(f, begin, end)
    {
      assert f !in Overlapping(files, lo, hi);
    }
  }

  /** A range that met no file to begin with never grew. */
  lemma NonEmptyMeansOverlap(files: seq<File>, begin: Option<Key>, end: Option<Key>,
                             lo: Option<Key>, hi: Option<Key>)
    requires GrownTo(files, [], begin, end, lo, hi) && Overlapping(files, lo, hi) != []
    ensures exists f :: f in files && Overlaps(f, begin, end)
  {
  }

  lemma PrefixIsReady(files: seq<File>, level: nat, whole: seq<File>, part: seq<File>)
    requires level > 0 && UpperReady(files, level, whole) && part != [] && part <= whole
    ensures UpperReady(files, level, part)
  {
    var i :| SliceAt(files, i, whole, |whole|);
    assert SliceAt(files, i, part, |part|);
  }
}
