/** The compaction loop (db/db_impl.cc: DoCompactionWork) and the moving cursors of
    Compaction::IsBaseLevelForKey (db/version_set.cc), proved against the drop rules. */
module CompactionWork {
  import opened InternalKeys
  import opened Versions
  import opened CompactionInputs
  import opened CompactionMeaning

  /** The part of a Compaction object that the loop over the merged input updates. */
  class Compaction {
    const level: nat
    const inputVersion: Levels
    var levelPtrs: seq<nat>
    ghost var lastKey: Option<Key>

    /** Every file before a cursor ends below the last key asked about. */
    ghost predicate Valid()
      reads this
    {
      && ValidLevels(inputVersion) && level + 1 < NUM_LEVELS && |levelPtrs| == NUM_LEVELS
      && (forall l :: 0 <= l < NUM_LEVELS ==> levelPtrs[l] <= |inputVersion[l]|)
      && (forall l, i :: 0 <= l < NUM_LEVELS && 0 <= i < levelPtrs[l] ==>
            lastKey.Some? && inputVersion[l][i].largest.user < lastKey.value)
    }

    constructor (level: nat, inputVersion: Levels)
      requires ValidLevels(inputVersion) && level + 1 < NUM_LEVELS
      ensures Valid() && lastKey == None && this.level == level && this.inputVersion == inputVersion
    {
      this.level := level;
      this.inputVersion := inputVersion;
      levelPtrs := seq(NUM_LEVELS, _ => 0);
      lastKey := None;
    }

    /** Asked about keys in ascending order, the cursors agree with a full scan of the deeper levels. */
    method IsBaseLevelForKey(k: Key) returns (base: bool)
      requires Valid() && (lastKey.Some? ==> lastKey.value <= k)
      modifies this
      ensures Valid() && lastKey == Some(k)
      ensures base <==> !DeeperCovers(inputVersion, level, k)
    {
      hide ValidLevels;
      LevelFacts(inputVersion);
      lastKey := Some(k);
      for lvl := level + 2 to NUM_LEVELS
        invariant Valid() && lastKey == Some(k)
        invariant forall l, f :: level + 2 <= l < lvl && f in inputVersion[l] ==> !InUserRange(f, k)
      {
        var files := inputVersion[lvl];
        while levelPtrs[lvl] < |files|
          invariant Valid() && lastKey == Some(k)
          decreases |files| - levelPtrs[lvl]
        {
          var f := files[levelPtrs[lvl]];
          assert f in files;
          if k <= f.largest.user {
            if k >= f.smallest.user {
              assert InUserRange(f, k);
              return false;
            }
            break;
          }
          levelPtrs := levelPtrs[lvl := levelPtrs[lvl] + 1];
        }
        NoFileCovers(files, levelPtrs[lvl], k);
      }
      return true;
    }
  }

  /** Files before the cursor end below k, and the file at the cursor starts above it. */
  lemma NoFileCovers(files: seq<File>, ptr: nat, k: Key)
    requires LevelSorted(files) && AllWellFormed(files) && ptr <= |files|
    requires forall i :: 0 <= i < ptr ==> files[i].largest.user < k
    requires ptr < |files| ==> k < files[ptr].smallest.user
    ensures forall f :: f in files ==> !InUserRange(f, k)
  {
    LargestAscends(files);
    forall f | f in files
      ensures !InUserRange(f, k)
    {
      var i :| 0 <= i < |files| && files[i] == f;
    }
  }

  // ----- The loop -----

  /** The entries of the first `n` inputs that the drop rules keep, in order. */
  ghost function KeptPrefix(v: Levels, level: nat, input: seq<Entry>, smallestSnapshot: nat, n: nat): seq<Entry>
    requires n <= |input|
  {
    if n == 0 then []
    else
      KeptPrefix(v, level, input, smallestSnapshot, n - 1)
      + if Dropped(v, level, Elements(input), input[n - 1], smallestSnapshot) then [] else [input[n - 1]]
  }

  function Flatten(outputs: seq<seq<Entry>>): seq<Entry> {
    if outputs == [] then [] else Flatten(outputs[..|outputs| - 1]) + outputs[|outputs| - 1]
  }

  /** In merged order, rule (A) only has to look at the entry just before. */
  lemma HiddenByPrevious(input: seq<Entry>, i: nat, smallestSnapshot: nat)
    requires Sorted(input) && UniqueSeqs(Elements(input)) && i < |input|
    ensures Hidden(Elements(input), input[i], smallestSnapshot) <==>
            i > 0 && input[i - 1].User() == input[i].User() && input[i - 1].Seq() <= smallestSnapshot
  {
    hide Sorted, UniqueSeqs;
    if i > 0 {
      PreviousIsNewer(input, i);
    }
    if Hidden(Elements(input), input[i], smallestSnapshot) {
      var x :| x in Elements(input) && x.User() == input[i].User() && input[i].Seq() < x.Seq() <= smallestSnapshot;
      NewerComesBefore(input, i, x);
    }
  }

  lemma PreviousIsNewer(input: seq<Entry>, i: nat)
    requires Sorted(input) && UniqueSeqs(Elements(input)) && 0 < i < |input|
    ensures input[i - 1] in Elements(input)
    ensures input[i - 1].User() == input[i].User() ==> input[i - 1].Seq() > input[i].Seq()
  {
    assert Less(input[i - 1].ikey, input[i].ikey);
    assert input[i - 1] in Elements(input) && input[i] in Elements(input);
  }

  lemma NewerComesBefore(input: seq<Entry>, i: nat, x: Entry)
    requires Sorted(input) && i < |input| && x in Elements(input)
    requires x.User() == input[i].User() && x.Seq() > input[i].Seq()
    ensures i > 0 && input[i - 1].User() == x.User() && input[i - 1].Seq() <= x.Seq()
  {
    var j :| 0 <= j < |input| && input[j] == x;
    assert Less(input[i].ikey, input[j].ikey) <==> i < j;
    assert j < i;
    assert j < i - 1 ==> Less(input[j].ikey, input[i - 1].ikey);
    assert Less(input[i - 1].ikey, input[i].ikey);
  }

  /** DoCompactionWork's loop over the merged inputs. `stopBefore[i]` and `full[i]` stand for the two
      size tests that close an output file before and after entry i. */
  method DropAndSplit(c: Compaction, input: seq<Entry>, smallestSnapshot: nat, stopBefore: seq<bool>, full: seq<bool>)
    returns (outputs: seq<seq<Entry>>)
    requires c.Valid() && c.lastKey == None
    requires Sorted(input) && UniqueSeqs(Elements(input)) && smallestSnapshot < MAX_SEQUENCE
    requires |stopBefore| == |input| == |full|
    modifies c
    ensures Flatten(outputs) == KeptPrefix(c.inputVersion, c.level, input, smallestSnapshot, |input|)
    ensures forall o :: o in outputs ==> o != []
    // Superseded entries are gone, and so are markers with nothing to delete below.
    ensures forall e, x :: e in Flatten(outputs) && x in input && x.User() == e.User() && e.Seq() < x.Seq() ==>
              x.Seq() > smallestSnapshot
    ensures forall e :: e in Flatten(outputs) && e.ikey.typ.Deletion? && e.Seq() <= smallestSnapshot ==>
              exists l, f :: c.level + 2 <= l < |c.inputVersion| && f in c.inputVersion[l] && InUserRange(f, e.User())
    // Nothing else is.
    ensures forall e :: e in input && e !in Flatten(outputs) ==>
              || (exists x :: x in input && x.User() == e.User() && e.Seq() < x.Seq() <= smallestSnapshot)
              || (e.ikey.typ.Deletion? && e.Seq() <= smallestSnapshot &&
                  forall l, f :: c.level + 2 <= l < |c.inputVersion| && f in c.inputVersion[l] ==>
                    !InUserRange(f, e.User()))
  {
    hide ValidLevels, Sorted, UniqueSeqs, Flatten, KeptPrefix, Hidden, DeeperCovers, Elements, Compaction.Valid;
    var currentUserKey: Option<Key> := None;
    var lastSequenceForKey := MAX_SEQUENCE;
    outputs := [];
    var builder := [];
    NothingYet(c.inputVersion, c.level, input, smallestSnapshot);
    for i := 0 to |input|
      invariant c.Valid()
      invariant c.lastKey.Some? ==> i > 0 && c.lastKey.value <= input[i - 1].User()
      invariant currentUserKey == if i == 0 then None else Some(input[i - 1].User())
      invariant i > 0 ==> lastSequenceForKey == input[i - 1].Seq()
      invariant forall o :: o in outputs ==> o != []
      invariant Flatten(outputs) + builder == KeptPrefix(c.inputVersion, c.level, input, smallestSnapshot, i)
    {
      var e := input[i];
      if stopBefore[i] && builder != [] {
        outputs, builder := FinishOutput(outputs, builder), [];
      }
      var drop := false;
      if currentUserKey.None? || e.User() != currentUserKey.value {
        currentUserKey := Some(e.User());
        lastSequenceForKey := MAX_SEQUENCE;
      }
      HiddenByPrevious(input, i, smallestSnapshot);
      AscendingKeys(input, i);
      if lastSequenceForKey <= smallestSnapshot {
        drop := true;
      } else if e.ikey.typ.Deletion? && e.Seq() <= smallestSnapshot {
        drop := c.IsBaseLevelForKey(e.User());
      }
      lastSequenceForKey := e.Seq();
      KeptOneMore(c.inputVersion, c.level, input, smallestSnapshot, i, drop);
      if !drop {
        builder := builder + [e];
        if full[i] {
          outputs, builder := FinishOutput(outputs, builder), [];
        }
      }
    }
    if builder != [] {
      outputs := FinishOutput(outputs, builder);
    }
    OutputsAreNeeded(c.inputVersion, c.level, input, smallestSnapshot);
  }

  function FinishOutput(outputs: seq<seq<Entry>>, builder: seq<Entry>): (r: seq<seq<Entry>>)
    requires builder != []
    ensures Flatten(r) == Flatten(outputs) + builder
    ensures forall o :: o in r <==> o in outputs || o == builder
  {
    var r := outputs + [builder];
    assert r[..|outputs|] == outputs;
    r
  }

  lemma NothingYet(v: Levels, level: nat, input: seq<Entry>, smallestSnapshot: nat)
    ensures Flatten([]) == [] == KeptPrefix(v, level, input, smallestSnapshot, 0)
  {
  }

  lemma KeptOneMore(v: Levels, level: nat, input: seq<Entry>, smallestSnapshot: nat, i: nat, drop: bool)
    requires i < |input| && drop == Dropped(v, level, Elements(input), input[i], smallestSnapshot)
    ensures KeptPrefix(v, level, input, smallestSnapshot, i + 1)
         == KeptPrefix(v, level, input, smallestSnapshot, i) + if drop then [] else [input[i]]
  {
  }

  lemma AscendingKeys(input: seq<Entry>, i: nat)
    requires Sorted(input) && i < |input|
    ensures i > 0 ==> input[i - 1].User() <= input[i].User()
  {
    assert i > 0 ==> Less(input[i - 1].ikey, input[i].ikey);
  }

  /** What the loop keeps is exactly the entries that the drop rules keep, still in order. */
  lemma {:induction false} KeptPrefixIsKept(v: Levels, level: nat, input: seq<Entry>, smallestSnapshot: nat, n: nat)
    requires Sorted(input) && n <= |input|
    ensures Sorted(KeptPrefix(v, level, input, smallestSnapshot, n))
    ensures forall e :: e in KeptPrefix(v, level, input, smallestSnapshot, n) <==>
                        e in input[..n] && !Dropped(v, level, Elements(input), e, smallestSnapshot)
  {
    if n > 0 {
      var kept := KeptPrefix(v, level, input, smallestSnapshot, n - 1);
      KeptPrefixIsKept(v, level, input, smallestSnapshot, n - 1);
      assert input[..n] == input[..n - 1] + [input[n - 1]];
      forall e | e in kept
        ensures Less(e.ikey, input[n - 1].ikey)
      {
        var j :| 0 <= j < n - 1 && input[..n - 1][j] == e;
        assert Less(input[j].ikey, input[n - 1].ikey);
      }
    }
  }

  /** What is needed, said of the sequences that the loop reads and writes. */
  lemma OutputsAreNeeded(v: Levels, level: nat, input: seq<Entry>, smallestSnapshot: nat)
    requires Sorted(input)
    ensures var kept := KeptPrefix(v, level, input, smallestSnapshot, |input|);
            && (forall e, x :: e in kept && x in input && x.User() == e.User() && e.Seq() < x.Seq() ==>
                  x.Seq() > smallestSnapshot)
            && (forall e :: e in kept && e.ikey.typ.Deletion? && e.Seq() <= smallestSnapshot ==>
                  exists l, f :: level + 2 <= l < |v| && f in v[l] && InUserRange(f, e.User()))
            && (forall e :: e in input && e !in kept ==>
                  || (exists x :: x in input && x.User() == e.User() && e.Seq() < x.Seq() <= smallestSnapshot)
                  || (e.ikey.typ.Deletion? && e.Seq() <= smallestSnapshot &&
                      forall l, f :: level + 2 <= l < |v| && f in v[l] ==> !InUserRange(f, e.User())))
  {
    hide Sorted, KeptPrefix, Kept;
    KeptIsKept(v, level, input, smallestSnapshot);
    KeptIsNeeded(v, level, Elements(input), smallestSnapshot);
    MembersAreElements(input);
    MembersAreElements(KeptPrefix(v, level, input, smallestSnapshot, |input|));
  }

  lemma MembersAreElements(s: seq<Entry>)
    ensures forall e :: e in s <==> e in Elements(s)
  {
  }

  lemma KeptIsKept(v: Levels, level: nat, input: seq<Entry>, smallestSnapshot: nat)
    requires Sorted(input)
    ensures Sorted(KeptPrefix(v, level, input, smallestSnapshot, |input|))
    ensures Elements(KeptPrefix(v, level, input, smallestSnapshot, |input|))
         == Kept(v, level, Elements(input), smallestSnapshot)
  {
    KeptPrefixIsKept(v, level, input, smallestSnapshot, |input|);
    assert input[..|input|] == input;
  }
}
