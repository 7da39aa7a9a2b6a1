/** The drop rules of a compaction (db/db_impl.cc: DoCompactionWork; db/version_set.cc:
    IsBaseLevelForKey) and what they do to the answers of the store. */
module CompactionMeaning {
  import opened InternalKeys
  import opened Versions
  import opened CompactionInputs

  ghost function InputEntries(c: Inputs): set<Entry> {
    FileEntries(c.upper) + FileEntries(c.lower)
  }

  /** A file two or more levels below covers the user key. */
  ghost predicate DeeperCovers(v: Levels, level: nat, k: Key) {
    exists l, f :: level + 2 <= l < |v| && f in v[l] && InUserRange(f, k)
  }

  /** Rule (A): a newer input entry of the same user key is already visible at the smallest snapshot. */
  ghost predicate Hidden(inputs: set<Entry>, e: Entry, smallestSnapshot: nat) {
    exists x :: x in inputs && x.User() == e.User() && e.Seq() < x.Seq() <= smallestSnapshot
  }

  /** The second rule: a deletion marker with nothing below it to delete. */
  ghost predicate Obsolete(v: Levels, level: nat, e: Entry, smallestSnapshot: nat) {
    e.ikey.typ.Deletion? && e.Seq() <= smallestSnapshot && !DeeperCovers(v, level, e.User())
  }

  ghost predicate Dropped(v: Levels, level: nat, inputs: set<Entry>, e: Entry, smallestSnapshot: nat) {
    Hidden(inputs, e, smallestSnapshot) || Obsolete(v, level, e, smallestSnapshot)
  }

  ghost function Kept(v: Levels, level: nat, inputs: set<Entry>, smallestSnapshot: nat): set<Entry> {
    set e | e in inputs && !Dropped(v, level, inputs, e, smallestSnapshot)
  }

  // ----- What a compaction removes -----

  /** No more is kept than is needed. An entry is missing only because a newer input entry of its key is already
      visible at the smallest snapshot, or because it is a deletion marker at or below it that no file two or more
      levels below has anything to delete for. And what is kept has neither excuse. */
  lemma KeptIsNeeded(v: Levels, level: nat, inputs: set<Entry>, smallestSnapshot: nat)
    ensures var kept := Kept(v, level, inputs, smallestSnapshot);
            && kept <= inputs
            && (forall e, x :: e in kept && x in inputs && x.User() == e.User() && e.Seq() < x.Seq() ==>
                  x.Seq() > smallestSnapshot)
            && (forall e :: e in kept && e.ikey.typ.Deletion? && e.Seq() <= smallestSnapshot ==>
                  exists l, f :: level + 2 <= l < |v| && f in v[l] && InUserRange(f, e.User()))
            && (forall e :: e in inputs && e !in kept ==>
                  || (exists x :: x in inputs && x.User() == e.User() && e.Seq() < x.Seq() <= smallestSnapshot)
                  || (e.ikey.typ.Deletion? && e.Seq() <= smallestSnapshot &&
                      forall l, f :: level + 2 <= l < |v| && f in v[l] ==> !InUserRange(f, e.User())))
  {
  }

  /** So of all versions of a key that the smallest snapshot sees, at most one is kept, the newest. */
  lemma OneVersionIsKept(v: Levels, level: nat, inputs: set<Entry>, smallestSnapshot: nat, e: Entry, x: Entry)
    requires UniqueSeqs(inputs) && e in Kept(v, level, inputs, smallestSnapshot) && e.Seq() <= smallestSnapshot
    requires x in inputs && x.User() == e.User() && x.Seq() <= smallestSnapshot
    ensures x.Seq() <= e.Seq() && (x in Kept(v, level, inputs, smallestSnapshot) ==> x == e)
  {
    KeptIsNeeded(v, level, inputs, smallestSnapshot);
  }

  // ----- When the answers survive -----

  /** The one way a compaction changes an answer: the newest entry of `k` at the smallest snapshot is
      a deletion marker among the inputs that the second rule drops, while the newest entry of `k`
      that the compaction does not read is a value. */
  ghost predicate ResurrectsKey(v: Levels, level: nat, inputs: set<Entry>, rest: set<Entry>,
                                smallestSnapshot: nat, k: Key, d: Entry, x: Entry)
  {
    && d in inputs && d.ikey.typ.Deletion? && !DeeperCovers(v, level, k)
    && NewestAt(inputs + rest, k, smallestSnapshot, d)
    && x.ikey.typ.Value?
    && NewestAt(rest, k, smallestSnapshot, x)
  }

  ghost predicate Resurrects(v: Levels, level: nat, inputs: set<Entry>, rest: set<Entry>, smallestSnapshot: nat) {
    exists k, d, x :: ResurrectsKey(v, level, inputs, rest, smallestSnapshot, k, d, x)
  }

  ghost predicate SameAnswers(before: set<Entry>, after: set<Entry>, k: Key, s: nat) {
    Read(before, k, s) == Read(after, k, s)
  }

  /** Exactly when a compaction keeps every answer at or above its smallest snapshot. */
  lemma AnswersSurviveIff(v: Levels, level: nat, inputs: set<Entry>, rest: set<Entry>, smallestSnapshot: nat)
    requires UniqueSeqs(inputs + rest) && inputs !! rest
    ensures var kept := Kept(v, level, inputs, smallestSnapshot);
            (forall k, s :: s >= smallestSnapshot ==> SameAnswers(inputs + rest, kept + rest, k, s))
            <==> !Resurrects(v, level, inputs, rest, smallestSnapshot)
  {
    var kept := Kept(v, level, inputs, smallestSnapshot);
    if !Resurrects(v, level, inputs, rest, smallestSnapshot) {
      forall k, s: nat | s >= smallestSnapshot
        ensures SameAnswers(inputs + rest, kept + rest, k, s)
      {
        AnswerSurvives(v, level, inputs, rest, smallestSnapshot, k, s);
      }
    } else {
      var k, d, x :| ResurrectsKey(v, level, inputs, rest, smallestSnapshot, k, d, x);
      AnswerIsLost(v, level, inputs, rest, smallestSnapshot, k, d, x);
      assert !SameAnswers(inputs + rest, kept + rest, k, smallestSnapshot);
    }
  }

  /** An entry that is newest for some snapshot at or above the smallest one is not hidden. */
  lemma NewestIsNotHidden(inputs: set<Entry>, rest: set<Entry>, smallestSnapshot: nat, k: Key, s: nat, n: Entry)
    requires s >= smallestSnapshot && NewestAt(inputs + rest, k, s, n)
    ensures !Hidden(inputs, n, smallestSnapshot)
  {
  }

  lemma AnswerSurvives(v: Levels, level: nat, inputs: set<Entry>, rest: set<Entry>, smallestSnapshot: nat,
                       k: Key, s: nat)
    requires UniqueSeqs(inputs + rest) && inputs !! rest && s >= smallestSnapshot
    requires !Resurrects(v, level, inputs, rest, smallestSnapshot)
    ensures Read(inputs + rest, k, s) == Read(Kept(v, level, inputs, smallestSnapshot) + rest, k, s)
  {
    var before, after := inputs + rest, Kept(v, level, inputs, smallestSnapshot) + rest;
    assert UniqueSeqs(after);
    var n := NewestExists(before, k, s);
    if n.None? {
      ReadIsNothing(before, k, s);
      ReadIsNothing(after, k, s);
    } else {
      var e := n.value;
      ReadIsNewest(before, k, s, e);
      if e in after {
        assert NewestAt(after, k, s, e);
        ReadIsNewest(after, k, s, e);
      } else {
        NewestIsNotHidden(inputs, rest, smallestSnapshot, k, s, e);
        assert Obsolete(v, level, e, smallestSnapshot);
        DroppedMarkerReadsNothing(v, level, inputs, rest, smallestSnapshot, k, s, e);
      }
    }
  }

  lemma DroppedMarkerReadsNothing(v: Levels, level: nat, inputs: set<Entry>, rest: set<Entry>,
                                  smallestSnapshot: nat, k: Key, s: nat, e: Entry)
    requires UniqueSeqs(inputs + rest) && inputs !! rest && s >= smallestSnapshot
    requires !Resurrects(v, level, inputs, rest, smallestSnapshot)
    requires NewestAt(inputs + rest, k, s, e) && e in inputs && Obsolete(v, level, e, smallestSnapshot)
    ensures Read(Kept(v, level, inputs, smallestSnapshot) + rest, k, s) == None
  {
    var after := Kept(v, level, inputs, smallestSnapshot) + rest;
    assert UniqueSeqs(after);
    var m := NewestExists(after, k, s);
    if m.None? {
      ReadIsNothing(after, k, s);
    } else {
      var x := m.value;
      ReadIsNewest(after, k, s, x);
      // An older input entry would have been hidden by e.
      assert x in inputs ==> x == e || Hidden(inputs, x, smallestSnapshot);
      assert x in rest && x.Seq() < e.Seq();
      assert NewestAt(rest, k, smallestSnapshot, x);
      assert NewestAt(inputs + rest, k, smallestSnapshot, e);
      assert !ResurrectsKey(v, level, inputs, rest, smallestSnapshot, k, e, x);
    }
  }

  lemma AnswerIsLost(v: Levels, level: nat, inputs: set<Entry>, rest: set<Entry>, smallestSnapshot: nat,
                     k: Key, d: Entry, x: Entry)
    requires UniqueSeqs(inputs + rest) && inputs !! rest
    requires ResurrectsKey(v, level, inputs, rest, smallestSnapshot, k, d, x)
    ensures Read(inputs + rest, k, smallestSnapshot) == None
    ensures Read(Kept(v, level, inputs, smallestSnapshot) + rest, k, smallestSnapshot) == Some(x.val)
  {
    var after := Kept(v, level, inputs, smallestSnapshot) + rest;
    assert UniqueSeqs(after);
    ReadIsNewest(inputs + rest, k, smallestSnapshot, d);
    forall y | y in after && Visible(y, k, smallestSnapshot)
      ensures y.Seq() <= x.Seq()
    {
      // Rule (A) hides every input entry older than d, and the second rule drops d itself.
      assert y in inputs ==> y == d || (y.Seq() < d.Seq() && Hidden(inputs, y, smallestSnapshot));
    }
    assert NewestAt(after, k, smallestSnapshot, x);
    ReadIsNewest(after, k, smallestSnapshot, x);
  }

  // ----- What the choice of inputs guarantees -----

  /** A left-out file of the lower level that starts with the last user key of the lower inputs. */
  ghost predicate ContinuedBy(v: Levels, c: Inputs, g: File)
    requires |v| == NUM_LEVELS && c.level + 1 < NUM_LEVELS
  {
    c.lower != [] && g in v[c.level + 1] && g !in c.lower && Continues(g, LargestKey(c.lower))
  }

  ghost predicate NoContinuation(v: Levels, c: Inputs)
    requires |v| == NUM_LEVELS && c.level + 1 < NUM_LEVELS
  {
    forall g :: !ContinuedBy(v, c, g)
  }

  /** Everything of the version that the compaction does not read. */
  ghost function OtherFiles(v: Levels, c: Inputs): set<Entry> {
    set l, f, e | 0 <= l < |v| && f in v[l] && e in f.entries
                  && !(l == c.level && f in c.upper) && !(l == c.level + 1 && f in c.lower) :: e
  }

  /** Entries in memory are newer than anything in a table. */
  ghost predicate MemoryNewer(mem: set<Entry>, v: Levels) {
    forall m, e :: m in mem && e in VersionEntries(v) && m.User() == e.User() ==> m.Seq() > e.Seq()
  }

  lemma InputFile(v: Levels, c: Inputs, e: Entry) returns (l: nat, f: File)
    requires |v| == NUM_LEVELS && StillClosed(v, c) && e in InputEntries(c)
    ensures l < |v| && f in v[l] && e in f.entries
    ensures (l == c.level && f in c.upper) || (l == c.level + 1 && f in c.lower)
  {
    if e in FileEntries(c.upper) {
      l := c.level;
      f :| f in c.upper && e in f.entries;
    } else {
      l := c.level + 1;
      f :| f in c.lower && e in f.entries;
    }
  }

  /** A left-out file of the upper level or above holds only newer entries of an input's user keys. */
  lemma LeftOutAboveIsNewer(v: Levels, c: Inputs, l: nat, f: File, e: Entry, m: nat, g: File, x: Entry)
    requires ValidLevels(v) && StillClosed(v, c)
    requires l < |v| && f in v[l] && e in f.entries
    requires (l == c.level && f in c.upper) || (l == c.level + 1 && f in c.lower)
    requires m <= c.level && g in v[m] && x in g.entries && !(m == c.level && g in c.upper)
    requires x.User() == e.User()
    ensures x.Seq() > e.Seq()
  {
    hide InBuilderOrder, AllWellFormed, LevelSorted, LevelZeroOrdered, UniqueNumbers, LowerClosed;
    assert FileNewer(g, f);
  }

  /** A left-out file of the lower level shares no user key with the upper inputs. */
  lemma LeftOutBelowIsApart(v: Levels, c: Inputs, f: File, e: Entry, g: File, x: Entry)
    requires ValidLevels(v) && StillClosed(v, c)
    requires f in c.upper && e in f.entries && g in v[c.level + 1] && g !in c.lower && x in g.entries
    ensures x.User() != e.User()
  {
    hide ValidLevels, UpperClosed, SmallestKey, LargestKey;
    LevelFacts(v);
    RangeBounds(c.upper);
    UpperMember(v, c, f);
    EntryInRange(f, e);
    EntryInRange(g, x);
    if MeetsNone(c, g) {
      MeetsNoneIsApart(c, f, e, g, x);
    }
  }

  /** A file that meets no input shares no user key with one. */
  lemma MeetsNoneIsApart(c: Inputs, f: File, e: Entry, g: File, x: Entry)
    requires MeetsNone(c, g) && f in c.upper + c.lower && WellFormed(f) && WellFormed(g)
    requires e in f.entries && x in g.entries
    ensures x.User() != e.User()
  {
    EntryInRange(f, e);
    EntryInRange(g, x);
  }

  lemma UpperMember(v: Levels, c: Inputs, f: File)
    requires |v| == NUM_LEVELS && StillClosed(v, c) && f in c.upper
    ensures f in v[c.level]
  {
  }

  /** A left-out file of the lower level is newer than the lower inputs, or continues their last key. */
  lemma LeftOutBesideIsNewer(v: Levels, c: Inputs, f: File, e: Entry, g: File, x: Entry)
    requires ValidLevels(v) && UniqueSeqs(VersionEntries(v)) && StillClosed(v, c)
    requires f in c.lower && e in f.entries
    requires g in v[c.level + 1] && g !in c.lower && x in g.entries
    requires x.User() == e.User()
    ensures x.Seq() > e.Seq() || (ContinuedBy(v, c, g) && e.User() == LargestKey(c.lower).user)
  {
    hide ValidLevels, UniqueSeqs, LevelSorted, StillClosed, SmallestKey, LargestKey, Overlaps, Continues;
    LevelFacts(v);
    LowerFacts(v, c);
    var files := v[c.level + 1];
    SortedPair(files, f, g);
    if MeetsNone(c, g) {
      MeetsNoneIsApart(c, f, e, g, x);
    }
    if Before(g, f) {
      EarlierIsNewer(files, g, x, f, e);
    } else {
      RangeBounds(c.lower);
      var last :| last in c.lower && last.largest == LargestKey(c.lower);
      SortedPair(files, last, g);
      if Before(g, last) {
        BetweenMeets(f, g, last, UserLo(c.upper), UserHi(c.upper));
      } else {
        LastContinues(f, e, g, x, last);
      }
    }
  }

  lemma LowerFacts(v: Levels, c: Inputs)
    requires |v| == NUM_LEVELS && StillClosed(v, c)
    ensures c.level + 1 < NUM_LEVELS && c.upper != []
    ensures forall f :: f in c.lower ==> f in v[c.level + 1] && Overlaps(f, UserLo(c.upper), UserHi(c.upper))
    ensures forall g :: g in v[c.level + 1] && g !in c.lower ==>
              !Overlaps(g, UserLo(c.upper), UserHi(c.upper)) || MeetsNone(c, g)
  {
  }

  lemma SortedPair(files: seq<File>, f: File, g: File)
    requires LevelSorted(files) && f in files && g in files && f != g
    ensures Before(f, g) || Before(g, f)
  {
    var i :| 0 <= i < |files| && files[i] == f;
    var j :| 0 <= j < |files| && files[j] == g;
    assert i < j ==> Before(files[i], files[j]);
    assert j < i ==> Before(files[j], files[i]);
  }

  lemma EarlierIsNewer(files: seq<File>, g: File, x: Entry, f: File, e: Entry)
    requires AllWellFormed(files) && UniqueSeqs(FileEntries(files)) && f in files && g in files
    requires Before(g, f) && x in g.entries && e in f.entries && x.User() == e.User()
    ensures x.Seq() > e.Seq()
  {
    EntryInRange(f, e);
    EntryInRange(g, x);
    assert e in FileEntries(files) && x in FileEntries(files);
    assert Less(x.ikey, e.ikey);
  }

  /** A file between two files that meet a range meets it too. */
  lemma BetweenMeets(f: File, g: File, last: File, lo: Option<Key>, hi: Option<Key>)
    requires WellFormed(g) && Before(f, g) && Before(g, last)
    requires Overlaps(f, lo, hi) && Overlaps(last, lo, hi)
    ensures Overlaps(g, lo, hi)
  {
    EntryInRange(g, g.entries[0]);
  }

  lemma LastContinues(f: File, e: Entry, g: File, x: Entry, last: File)
    requires WellFormed(f) && WellFormed(g) && WellFormed(last) && Before(last, g)
    requires e in f.entries && x in g.entries && x.User() == e.User()
    requires LessEq(f.largest, last.largest)
    ensures Continues(g, last.largest) && e.User() == last.largest.user
  {
    EntryInRange(f, e);
    EntryInRange(g, x);
  }

  /** `x` lies in a left-out file that continues the last user key of the lower inputs, which is `k`. */
  ghost predicate InContinuation(v: Levels, c: Inputs, k: Key, x: Entry)
    requires |v| == NUM_LEVELS && c.level + 1 < NUM_LEVELS
  {
    c.lower != [] && k == LargestKey(c.lower).user && exists g :: ContinuedBy(v, c, g) && x in g.entries
  }

  lemma ContinuedFacts(v: Levels, c: Inputs, g: File)
    requires |v| == NUM_LEVELS && c.level + 1 < NUM_LEVELS && ContinuedBy(v, c, g)
    ensures c.lower != []
  {
  }

  /** With closed inputs, an older entry outside the inputs lies deeper, unless it continues the last
      user key of the lower inputs in the same level. */
  lemma OlderIsDeeper(v: Levels, c: Inputs, mem: set<Entry>, e: Entry, x: Entry)
    requires ValidLevels(v) && UniqueSeqs(VersionEntries(v)) && StillClosed(v, c) && MemoryNewer(mem, v)
    requires e in InputEntries(c) && x in mem + OtherFiles(v, c)
    requires x.User() == e.User() && x.Seq() < e.Seq()
    ensures DeeperCovers(v, c.level, e.User()) || InContinuation(v, c, e.User(), x)
  {
    hide ValidLevels, UniqueSeqs, ContinuedBy, StillClosed;
    LevelFacts(v);
    ClosedFacts(v, c);
    var l, f := InputFile(v, c, e);
    assert e in VersionEntries(v);
    assert x !in mem;
    var m, g :| 0 <= m < |v| && g in v[m] && x in g.entries
                && !(m == c.level && g in c.upper) && !(m == c.level + 1 && g in c.lower);
    if m <= c.level {
      LeftOutAboveIsNewer(v, c, l, f, e, m, g, x);
    } else if m == c.level + 1 && l == c.level {
      LeftOutBelowIsApart(v, c, f, e, g, x);
    } else if m == c.level + 1 {
      LeftOutBesideIsNewer(v, c, f, e, g, x);
      ContinuedFacts(v, c, g);
    } else {
      EntryInRange(g, x);
      assert InUserRange(g, e.User());
    }
  }

  /** What the compaction reads and what it does not read have no entry in common; together they
      are the whole store. */
  lemma InputsAndRest(v: Levels, c: Inputs, mem: set<Entry>)
    requires ValidLevels(v) && StillClosed(v, c) && MemoryNewer(mem, v)
    ensures InputEntries(c) !! mem + OtherFiles(v, c)
    ensures InputEntries(c) + (mem + OtherFiles(v, c)) == mem + VersionEntries(v)
  {
    hide ValidLevels, StillClosed;
    LevelFacts(v);
    forall e | e in InputEntries(c)
      ensures e in VersionEntries(v) && e !in mem && e !in OtherFiles(v, c)
    {
      var l, f := InputFile(v, c, e);
      assert e in VersionEntries(v);
      if e in OtherFiles(v, c) {
        var m, g :| 0 <= m < |v| && g in v[m] && e in g.entries
                    && !(m == c.level && g in c.upper) && !(m == c.level + 1 && g in c.lower);
        OtherIsDifferent(v, c, l, f, e, m, g, e);
      }
    }
    forall e | e in VersionEntries(v)
      ensures e in InputEntries(c) || e in OtherFiles(v, c)
    {
      var m, g :| 0 <= m < |v| && g in v[m] && e in g.entries;
    }
  }

  lemma OtherIsDifferent(v: Levels, c: Inputs, l: nat, f: File, e: Entry, m: nat, g: File, x: Entry)
    requires ValidLevels(v) && StillClosed(v, c)
    requires l < |v| && f in v[l] && e in f.entries
    requires (l == c.level && f in c.upper) || (l == c.level + 1 && f in c.lower)
    requires m < |v| && g in v[m] && x in g.entries
    requires !(m == c.level && g in c.upper) && !(m == c.level + 1 && g in c.lower)
    ensures e != x
  {
    hide InBuilderOrder, UniqueNumbers, LevelZeroOrdered, LevelSorted;
    if m < l {
      assert FileNewer(g, f);
    } else if l < m {
      assert FileNewer(f, g);
    } else if m == c.level {
      assert FileNewer(g, f);
    } else {
      SortedPair(v[m], f, g);
      EntryInRange(f, e);
      EntryInRange(g, x);
    }
  }

  /** The only key whose answer a compaction with closed inputs can lose is the last user key of the
      lower inputs, and only to a value in a left-out file that continues it. */
  lemma OnlyLastKeyIsLost(v: Levels, c: Inputs, mem: set<Entry>, smallestSnapshot: nat, k: Key, d: Entry, x: Entry)
    requires ValidLevels(v) && UniqueSeqs(mem + VersionEntries(v)) && StillClosed(v, c) && MemoryNewer(mem, v)
    requires ResurrectsKey(v, c.level, InputEntries(c), mem + OtherFiles(v, c), smallestSnapshot, k, d, x)
    ensures c.level + 1 < NUM_LEVELS && InContinuation(v, c, k, x)
  {
    hide ValidLevels, StillClosed, MemoryNewer, InContinuation, DeeperCovers;
    LevelFacts(v);
    ClosedFacts(v, c);
    InputsAndRest(v, c, mem);
    assert UniqueSeqs(VersionEntries(v));
    assert d != x && d.Seq() != x.Seq();
    OlderIsDeeper(v, c, mem, d, x);
  }

  /** The last user key of the lower inputs comes back from a left-out file. */
  ghost predicate LosesLastKey(v: Levels, c: Inputs, mem: set<Entry>, smallestSnapshot: nat)
    requires |v| == NUM_LEVELS && c.level + 1 < NUM_LEVELS
  {
    exists k, d, x :: InContinuation(v, c, k, x)
      && ResurrectsKey(v, c.level, InputEntries(c), mem + OtherFiles(v, c), smallestSnapshot, k, d, x)
  }

  /** The compaction theorem: with closed inputs, every answer at or above the smallest snapshot is
      kept exactly when the last lower key does not come back. */
  lemma CompactionKeepsAnswersIff(v: Levels, c: Inputs, mem: set<Entry>, smallestSnapshot: nat)
    requires ValidLevels(v) && UniqueSeqs(mem + VersionEntries(v)) && StillClosed(v, c) && MemoryNewer(mem, v)
    ensures c.level + 1 < NUM_LEVELS
    ensures var rest := mem + OtherFiles(v, c);
            (forall k, s :: s >= smallestSnapshot ==>
               SameAnswers(mem + VersionEntries(v), Kept(v, c.level, InputEntries(c), smallestSnapshot) + rest, k, s))
            <==> !LosesLastKey(v, c, mem, smallestSnapshot)
  {
    hide ValidLevels, StillClosed, MemoryNewer, InContinuation, ResurrectsKey, Kept, UniqueSeqs, SameAnswers;
    LevelFacts(v);
    ClosedFacts(v, c);
    InputsAndRest(v, c, mem);
    AnswersSurviveIff(v, c.level, InputEntries(c), mem + OtherFiles(v, c), smallestSnapshot);
    if Resurrects(v, c.level, InputEntries(c), mem + OtherFiles(v, c), smallestSnapshot) {
      var k, d, x :|
        ResurrectsKey(v, c.level, InputEntries(c), mem + OtherFiles(v, c), smallestSnapshot, k, d, x);
      OnlyLastKeyIsLost(v, c, mem, smallestSnapshot, k, d, x);
    }
  }

  /** In particular, with no continuation no answer is lost. */
  lemma ClosedNeverResurrects(v: Levels, c: Inputs, mem: set<Entry>, smallestSnapshot: nat)
    requires ValidLevels(v) && UniqueSeqs(mem + VersionEntries(v)) && StillClosed(v, c) && MemoryNewer(mem, v)
    requires c.level + 1 < NUM_LEVELS && NoContinuation(v, c)
    ensures !Resurrects(v, c.level, InputEntries(c), mem + OtherFiles(v, c), smallestSnapshot)
  {
    hide ValidLevels, StillClosed, MemoryNewer, ResurrectsKey, UniqueSeqs, InContinuation;
    LevelFacts(v);
    NothingContinues(v, c);
    if Resurrects(v, c.level, InputEntries(c), mem + OtherFiles(v, c), smallestSnapshot) {
      var k, d, x :|
        ResurrectsKey(v, c.level, InputEntries(c), mem + OtherFiles(v, c), smallestSnapshot, k, d, x);
      OnlyLastKeyIsLost(v, c, mem, smallestSnapshot, k, d, x);
    }
  }

  lemma NothingContinues(v: Levels, c: Inputs)
    requires |v| == NUM_LEVELS && c.level + 1 < NUM_LEVELS && NoContinuation(v, c)
    ensures forall k, x :: !InContinuation(v, c, k, x)
  {
    hide ContinuedBy;
  }
}
