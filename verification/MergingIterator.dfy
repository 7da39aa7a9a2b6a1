/** Cursors over sets of entries, and the merging iterator (table/merger.cc) as a cursor over the
    union of its children. */
module Cursors {
  import opened InternalKeys

  /** A place between entries of the internal-key order. */
  datatype Cut = Bottom | At(target: IKey) | Past(key: IKey) | Top

  predicate Below(cut: Cut, k: IKey) {
    match cut
    case Bottom => false
    case At(target) => Less(k, target)
    case Past(key) => !Less(key, k)
    case Top => true
  }

  // A cursor's position is None when it is not valid, else the entry it stands at.

  /** The first entry of `E` that is not below the cut. */
  ghost predicate FirstAbove(E: set<Entry>, cut: Cut, r: Option<Entry>) {
    && (r.None? ==> forall x :: x in E ==> Below(cut, x.ikey))
    && (r.Some? ==> r.value in E && !Below(cut, r.value.ikey)
                    && forall x :: x in E ==> Below(cut, x.ikey) || LessEq(r.value.ikey, x.ikey))
  }

  /** The last entry of `E` that is below the cut. */
  ghost predicate LastBelow(E: set<Entry>, cut: Cut, r: Option<Entry>) {
    && (r.None? ==> forall x :: x in E ==> !Below(cut, x.ikey))
    && (r.Some? ==> r.value in E && Below(cut, r.value.ikey)
                    && forall x :: x in E ==> !Below(cut, x.ikey) || LessEq(x.ikey, r.value.ikey))
  }

  // ----- What is still ahead of a cursor: termination of scans -----

  ghost function EntriesFrom(E: set<Entry>, r: Option<Entry>): set<Entry> {
    if r.None? then {} else set x | x in E && LessEq(r.value.ikey, x.ikey)
  }

  ghost function EntriesUpTo(E: set<Entry>, r: Option<Entry>): set<Entry> {
    if r.None? then {} else set x | x in E && LessEq(x.ikey, r.value.ikey)
  }

  lemma FewerFrom(E: set<Entry>, e: Entry, r: Option<Entry>)
    requires e in E && FirstAbove(E, Past(e.ikey), r)
    ensures EntriesFrom(E, r) < EntriesFrom(E, Some(e))
  {
    assert e in EntriesFrom(E, Some(e)) && e !in EntriesFrom(E, r);
  }

  lemma FewerUpTo(E: set<Entry>, e: Entry, r: Option<Entry>)
    requires e in E && LastBelow(E, At(e.ikey), r)
    ensures EntriesUpTo(E, r) < EntriesUpTo(E, Some(e))
  {
    assert e in EntriesUpTo(E, Some(e)) && e !in EntriesUpTo(E, r);
  }
}

module MergingIterators {
  import opened InternalKeys
  import opened Cursors

  datatype Direction = Forward | Reverse

  /** All entries of all children. */
  ghost function Union(children: seq<seq<Entry>>): set<Entry> {
    set c, e | c in children && e in c :: e
  }

  /** Each child is sorted, and no internal key occurs in two children. */
  ghost predicate ProperChildren(children: seq<seq<Entry>>) {
    && (forall i :: 0 <= i < |children| ==> Sorted(children[i]))
    && (forall i, j, x, y :: 0 <= i < j < |children| && x in children[i] && y in children[j] ==> x.ikey != y.ikey)
  }

  class MergingIterator {
    const children: seq<seq<Entry>>
    var positions: seq<nat>      // the length of a child stands for "not valid"
    var current: Option<nat>
    var direction: Direction

    predicate InBounds()
      reads this
    {
      && |positions| == |children|
      && (forall i :: 0 <= i < |children| ==> positions[i] <= |children[i]|)
      && (current.Some? ==> current.value < |children| && positions[current.value] < |children[current.value]|)
    }

    predicate ChildValid(i: nat)
      requires i < |children| && |positions| == |children|
      reads this
    {
      positions[i] < |children[i]|
    }

    /** The entry the iterator stands at. */
    function Key(): Option<Entry>
      requires InBounds()
      reads this
    {
      if current.None? then None else Some(children[current.value][positions[current.value]])
    }

    ghost function Entries(): set<Entry> {
      Union(children)
    }

    /** Where a child other than the current one stands, for each direction: going forward at its first
        entry after the current key, going backward at its last entry before it. */
    ghost predicate Aligned()
      reads this
      requires InBounds()
    {
      current.Some? ==>
        forall i :: 0 <= i < |children| && i != current.value ==>
          Beside(children[i], positions[i], direction, Key().value.ikey)
    }

    ghost predicate Valid()
      reads this
    {
      ProperChildren(children) && InBounds() && Aligned()
    }

    constructor (children: seq<seq<Entry>>)
      requires ProperChildren(children)
      ensures Valid() && this.children == children && Key() == None
    {
      this.children := children;
      positions := seq(|children|, i requires 0 <= i < |children| => |children[i]|);
      current := None;
      direction := Forward;
    }

    method SeekToFirst()
      requires Valid()
      modifies this
      ensures Valid() && FirstAbove(Entries(), Bottom, Key())
    {
      hide ProperChildren, Beside, Union, CutAt, FirstAbove, LastBelow, SmallestChild, LargestChild;
      for i := 0 to |children|
        invariant |positions| == |children| && forall j :: 0 <= j < |children| ==> positions[j] <= |children[j]|
        invariant forall j :: 0 <= j < i ==> positions[j] == 0
      {
        positions := positions[i := 0];
      }
      FindSmallest();
      direction := Forward;
      FirstCuts(children, positions);
      ForwardFinds(children, positions, current, Bottom);
    }

    method SeekToLast()
      requires Valid()
      modifies this
      ensures Valid() && LastBelow(Entries(), Top, Key())
    {
      hide ProperChildren, Beside, Union, CutAt, FirstAbove, LastBelow, SmallestChild, LargestChild;
      for i := 0 to |children|
        invariant |positions| == |children| && forall j :: 0 <= j < |children| ==> positions[j] <= |children[j]|
        invariant forall j :: 0 <= j < i ==> positions[j] == LastPosition(children[j])
      {
        positions := positions[i := LastPosition(children[i])];
      }
      FindLargest();
      direction := Reverse;
      LastCuts(children, positions);
      BackwardFinds(children, positions, current, Top);
    }

    method Seek(target: IKey)
      requires Valid()
      modifies this
      ensures Valid() && FirstAbove(Entries(), At(target), Key())
    {
      hide ProperChildren, Beside, Union, CutAt, FirstAbove, LastBelow, SmallestChild, LargestChild;
      for i := 0 to |children|
        invariant |positions| == |children| && forall j :: 0 <= j < |children| ==> positions[j] <= |children[j]|
        invariant forall j :: 0 <= j < i ==> positions[j] == SeekIndex(children[j], target)
      {
        positions := positions[i := SeekIndex(children[i], target)];
      }
      FindSmallest();
      direction := Forward;
      SeekCuts(children, positions, target);
      ForwardFinds(children, positions, current, At(target));
    }

    method Next()
      requires Valid() && Key().Some?
      modifies this
      ensures Valid() && FirstAbove(Entries(), Past(old(Key().value.ikey)), Key())
    {
      hide ProperChildren, Beside, Union, CutAt, FirstAbove, LastBelow, SmallestChild, LargestChild;
      ghost var key := Key().value.ikey;
      var at := current.value;
      if direction != Forward {
        for i := 0 to |children|
          invariant InBounds() && current == Some(at) && Key().Some? && Key().value.ikey == key
          invariant forall j :: 0 <= j < i && j != at ==> Beside(children[j], positions[j], Forward, key)
        {
          if i != at {
            SeekPastKey(children, at, positions[at], i);
            var p := SeekIndex(children[i], Key().value.ikey);
            NotTheKey(children[i], p, key);
            if p < |children[i]| && Compare(Key().value.ikey, children[i][p].ikey) == 0 {
              p := p + 1;
            }
            positions := positions[i := p];
          }
        }
        direction := Forward;
      }
      StepForwardCuts(children, positions, at, key);
      positions := positions[at := positions[at] + 1];
      FindSmallest();
      ForwardFinds(children, positions, current, Past(key));
    }

    method Prev()
      requires Valid() && Key().Some?
      modifies this
      ensures Valid() && LastBelow(Entries(), At(old(Key().value.ikey)), Key())
    {
      hide ProperChildren, Beside, Union, CutAt, FirstAbove, LastBelow, SmallestChild, LargestChild;
      ghost var key := Key().value.ikey;
      var at := current.value;
      if direction != Reverse {
        for i := 0 to |children|
          invariant InBounds() && current == Some(at) && Key().Some? && Key().value.ikey == key
          invariant forall j :: 0 <= j < i && j != at ==> Beside(children[j], positions[j], Reverse, key)
        {
          if i != at {
            SeekPastKey(children, at, positions[at], i);
            var p := SeekIndex(children[i], Key().value.ikey);
            if p < |children[i]| {
              p := PrevPosition(children[i], p);
            } else {
              p := LastPosition(children[i]);
            }
            positions := positions[i := p];
          }
        }
        direction := Reverse;
      }
      StepBackwardCuts(children, positions, at, key);
      positions := positions[at := PrevPosition(children[at], positions[at])];
      FindLargest();
      BackwardFinds(children, positions, current, At(key));
    }

    method FindSmallest()
      requires |positions| == |children| && forall i :: 0 <= i < |children| ==> positions[i] <= |children[i]|
      modifies this`current
      ensures InBounds() && SmallestChild(children, positions, current)
    {
      var smallest: Option<nat> := None;
      for i := 0 to |children|
        invariant smallest.None? ==> forall j :: 0 <= j < i ==> positions[j] >= |children[j]|
        invariant smallest.Some? ==> smallest.value < i && ChildValid(smallest.value)
        invariant smallest.Some? ==> forall j :: 0 <= j < i && positions[j] < |children[j]| ==>
                    LessEq(children[smallest.value][positions[smallest.value]].ikey, children[j][positions[j]].ikey)
      {
        if ChildValid(i) {
          if smallest.None? {
            smallest := Some(i);
          } else {
            CompareIsLess(children[i][positions[i]].ikey, children[smallest.value][positions[smallest.value]].ikey);
            if Compare(children[i][positions[i]].ikey, children[smallest.value][positions[smallest.value]].ikey) < 0 {
              smallest := Some(i);
            }
          }
        }
      }
      current := smallest;
    }

    method FindLargest()
      requires |positions| == |children| && forall i :: 0 <= i < |children| ==> positions[i] <= |children[i]|
      modifies this`current
      ensures InBounds() && LargestChild(children, positions, current)
    {
      var largest: Option<nat> := None;
      for i := |children| downto 0
        invariant largest.None? ==> forall j :: i <= j < |children| ==> positions[j] >= |children[j]|
        invariant largest.Some? ==> i <= largest.value < |children| && ChildValid(largest.value)
        invariant largest.Some? ==> forall j :: i <= j < |children| && positions[j] < |children[j]| ==>
                    LessEq(children[j][positions[j]].ikey, children[largest.value][positions[largest.value]].ikey)
      {
        if ChildValid(i) {
          if largest.None? {
            largest := Some(i);
          } else {
            CompareIsLess(children[i][positions[i]].ikey, children[largest.value][positions[largest.value]].ikey);
            if Compare(children[i][positions[i]].ikey, children[largest.value][positions[largest.value]].ikey) > 0 {
              largest := Some(i);
            }
          }
        }
      }
      current := largest;
    }
  }

  // ----- One child -----

  /** A child iterator's SeekToLast, and Prev from a valid position; Prev from the first entry ends. */
  function LastPosition(c: seq<Entry>): nat {
    if c == [] then 0 else |c| - 1
  }

  function PrevPosition(c: seq<Entry>, p: nat): nat {
    if p == 0 then |c| else p - 1
  }

  /** How many entries a child has up to and including its position. */
  function CountUpTo(c: seq<Entry>, p: nat): nat {
    if p < |c| then p + 1 else 0
  }

  /** The first `n` entries lie below the cut, the others do not. */
  ghost predicate CutAt(c: seq<Entry>, n: nat, cut: Cut) {
    && n <= |c|
    && (forall q :: 0 <= q < n ==> Below(cut, c[q].ikey))
    && (forall q :: n <= q < |c| ==> !Below(cut, c[q].ikey))
  }

  /** A child without the key itself, at its first entry after it or its last entry before it. */
  ghost predicate Beside(c: seq<Entry>, p: nat, d: Direction, key: IKey) {
    && p <= |c|
    && (forall q :: 0 <= q < |c| ==> c[q].ikey != key)
    && CutAt(c, if d == Forward then p else CountUpTo(c, p), At(key))
  }

  ghost predicate SmallestChild(children: seq<seq<Entry>>, positions: seq<nat>, current: Option<nat>)
    requires |positions| == |children|
  {
    && (current.None? ==> forall j :: 0 <= j < |children| ==> positions[j] >= |children[j]|)
    && (current.Some? ==>
          && current.value < |children| && positions[current.value] < |children[current.value]|
          && forall j :: 0 <= j < |children| && positions[j] < |children[j]| ==>
               LessEq(children[current.value][positions[current.value]].ikey, children[j][positions[j]].ikey))
  }

  ghost predicate LargestChild(children: seq<seq<Entry>>, positions: seq<nat>, current: Option<nat>)
    requires |positions| == |children|
  {
    && (current.None? ==> forall j :: 0 <= j < |children| ==> positions[j] >= |children[j]|)
    && (current.Some? ==>
          && current.value < |children| && positions[current.value] < |children[current.value]|
          && forall j :: 0 <= j < |children| && positions[j] < |children[j]| ==>
               LessEq(children[j][positions[j]].ikey, children[current.value][positions[current.value]].ikey))
  }

  ghost predicate AllInBounds(children: seq<seq<Entry>>, positions: seq<nat>) {
    |positions| == |children| && forall i :: 0 <= i < |children| ==> positions[i] <= |children[i]|
  }

  lemma DifferentKeys(children: seq<seq<Entry>>, i: nat, p: nat, j: nat, q: nat)
    requires ProperChildren(children) && i < |children| && j < |children| && i != j
    requires p < |children[i]| && q < |children[j]|
    ensures children[i][p].ikey != children[j][q].ikey
  {
    assert children[i][p] in children[i] && children[j][q] in children[j];
  }

  lemma ChildSorted(children: seq<seq<Entry>>, i: nat)
    requires ProperChildren(children) && i < |children|
    ensures Sorted(children[i])
  {
  }

  /** Every entry of the union has a child and a position. */
  lemma WhereIs(children: seq<seq<Entry>>, e: Entry) returns (i: nat, p: nat)
    requires e in Union(children)
    ensures i < |children| && p < |children[i]| && children[i][p] == e
  {
    var c :| c in children && e in c;
    i :| 0 <= i < |children| && children[i] == c;
    p :| 0 <= p < |c| && c[p] == e;
  }

  lemma IsInUnion(children: seq<seq<Entry>>, i: nat, p: nat)
    requires i < |children| && p < |children[i]|
    ensures children[i][p] in Union(children)
  {
    assert children[i] in children && children[i][p] in children[i];
  }

  // ----- Moving forward -----

  lemma LaterInChild(children: seq<seq<Entry>>, positions: seq<nat>, current: nat, i: nat, q: nat)
    requires ProperChildren(children) && AllInBounds(children, positions)
    requires SmallestChild(children, positions, Some(current))
    requires i < |children| && positions[i] <= q < |children[i]|
    ensures var key := children[current][positions[current]].ikey;
            LessEq(key, children[i][q].ikey) && (i != current ==> Less(key, children[i][q].ikey))
  {
    hide ProperChildren;
    ChildSorted(children, i);
    if i != current {
      DifferentKeys(children, current, positions[current], i, positions[i]);
    }
    assert positions[i] < q ==> Less(children[i][positions[i]].ikey, children[i][q].ikey);
  }

  /** With every child at its first entry not below a cut, the smallest of these entries is the first
      of the union not below the cut, and the children are aligned around it. */
  lemma ForwardFinds(children: seq<seq<Entry>>, positions: seq<nat>, current: Option<nat>, cut: Cut)
    requires ProperChildren(children) && AllInBounds(children, positions) && SmallestChild(children, positions, current)
    requires forall i :: 0 <= i < |children| ==> CutAt(children[i], positions[i], cut)
    ensures FirstAbove(Union(children), cut,
                       if current.None? then None else Some(children[current.value][positions[current.value]]))
    ensures current.Some? ==>
              forall i :: 0 <= i < |children| && i != current.value ==>
                Beside(children[i], positions[i], Forward, children[current.value][positions[current.value]].ikey)
  {
    hide ProperChildren, Union;
    if current.None? {
      forall x | x in Union(children)
        ensures Below(cut, x.ikey)
      {
        var i, p := WhereIs(children, x);
        assert positions[i] >= |children[i]|;
      }
    } else {
      var at := current.value;
      var e := children[at][positions[at]];
      IsInUnion(children, at, positions[at]);
      assert CutAt(children[at], positions[at], cut);
      forall x | x in Union(children)
        ensures Below(cut, x.ikey) || LessEq(e.ikey, x.ikey)
      {
        var i, p := WhereIs(children, x);
        assert CutAt(children[i], positions[i], cut);
        if p >= positions[i] {
          LaterInChild(children, positions, at, i, p);
        }
      }
      forall i | 0 <= i < |children| && i != at
        ensures Beside(children[i], positions[i], Forward, e.ikey)
      {
        assert CutAt(children[i], positions[i], cut);
        ForwardBeside(children, positions, at, i, cut);
      }
    }
  }

  lemma BelowIsBefore(cut: Cut, k: IKey, key: IKey)
    requires Below(cut, k) && !Below(cut, key)
    ensures Less(k, key)
  {
  }

  lemma ForwardBeside(children: seq<seq<Entry>>, positions: seq<nat>, at: nat, i: nat, cut: Cut)
    requires ProperChildren(children) && AllInBounds(children, positions)
    requires SmallestChild(children, positions, Some(at)) && i < |children| && i != at
    requires CutAt(children[i], positions[i], cut) && !Below(cut, children[at][positions[at]].ikey)
    ensures Beside(children[i], positions[i], Forward, children[at][positions[at]].ikey)
  {
    hide ProperChildren, SmallestChild;
    assert at < |children| && positions[at] < |children[at]| by { CurrentInBounds(children, positions, at); }
    var key := children[at][positions[at]].ikey;
    forall q | 0 <= q < |children[i]|
      ensures children[i][q].ikey != key
      ensures q < positions[i] <==> Less(children[i][q].ikey, key)
    {
      if q < positions[i] {
        BelowIsBefore(cut, children[i][q].ikey, key);
      } else {
        LaterInChild(children, positions, at, i, q);
      }
    }
  }

  lemma CurrentInBounds(children: seq<seq<Entry>>, positions: seq<nat>, at: nat)
    requires |positions| == |children| && SmallestChild(children, positions, Some(at))
    ensures at < |children| && positions[at] < |children[at]|
  {
  }

  // ----- Moving backward -----

  lemma EarlierInChild(children: seq<seq<Entry>>, positions: seq<nat>, current: nat, i: nat, q: nat)
    requires ProperChildren(children) && AllInBounds(children, positions)
    requires LargestChild(children, positions, Some(current))
    requires i < |children| && q <= positions[i] < |children[i]|
    ensures var key := children[current][positions[current]].ikey;
            LessEq(children[i][q].ikey, key) && (i != current ==> Less(children[i][q].ikey, key))
  {
    hide ProperChildren;
    ChildSorted(children, i);
    if i != current {
      DifferentKeys(children, current, positions[current], i, positions[i]);
    }
    assert q < positions[i] ==> Less(children[i][q].ikey, children[i][positions[i]].ikey);
  }

  /** With every child at its last entry below a cut, the largest of these entries is the last of the
      union below the cut, and the children are aligned around it. */
  lemma BackwardFinds(children: seq<seq<Entry>>, positions: seq<nat>, current: Option<nat>, cut: Cut)
    requires ProperChildren(children) && AllInBounds(children, positions) && LargestChild(children, positions, current)
    requires forall i :: 0 <= i < |children| ==> CutAt(children[i], CountUpTo(children[i], positions[i]), cut)
    ensures LastBelow(Union(children), cut,
                      if current.None? then None else Some(children[current.value][positions[current.value]]))
    ensures current.Some? ==>
              forall i :: 0 <= i < |children| && i != current.value ==>
                Beside(children[i], positions[i], Reverse, children[current.value][positions[current.value]].ikey)
  {
    hide ProperChildren, Union;
    if current.None? {
      forall x | x in Union(children)
        ensures !Below(cut, x.ikey)
      {
        var i, p := WhereIs(children, x);
        assert CutAt(children[i], CountUpTo(children[i], positions[i]), cut);
        assert positions[i] >= |children[i]|;
      }
    } else {
      var at := current.value;
      var e := children[at][positions[at]];
      IsInUnion(children, at, positions[at]);
      assert CutAt(children[at], CountUpTo(children[at], positions[at]), cut);
      forall x | x in Union(children)
        ensures !Below(cut, x.ikey) || LessEq(x.ikey, e.ikey)
      {
        var i, p := WhereIs(children, x);
        assert CutAt(children[i], CountUpTo(children[i], positions[i]), cut);
        if p < CountUpTo(children[i], positions[i]) {
          EarlierInChild(children, positions, at, i, p);
        }
      }
      forall i | 0 <= i < |children| && i != at
        ensures Beside(children[i], positions[i], Reverse, e.ikey)
      {
        assert CutAt(children[i], CountUpTo(children[i], positions[i]), cut);
        BackwardBeside(children, positions, at, i, cut);
      }
    }
  }

  lemma BackwardBeside(children: seq<seq<Entry>>, positions: seq<nat>, at: nat, i: nat, cut: Cut)
    requires ProperChildren(children) && AllInBounds(children, positions)
    requires LargestChild(children, positions, Some(at)) && i < |children| && i != at
    requires CutAt(children[i], CountUpTo(children[i], positions[i]), cut)
    requires Below(cut, children[at][positions[at]].ikey)
    ensures Beside(children[i], positions[i], Reverse, children[at][positions[at]].ikey)
  {
    hide ProperChildren, LargestChild;
    assert at < |children| && positions[at] < |children[at]| by { CurrentInBoundsToo(children, positions, at); }
    var key := children[at][positions[at]].ikey;
    var n := CountUpTo(children[i], positions[i]);
    forall q | 0 <= q < |children[i]|
      ensures children[i][q].ikey != key
      ensures q < n <==> Less(children[i][q].ikey, key)
    {
      if q < n {
        EarlierInChild(children, positions, at, i, q);
      } else {
        BelowIsBefore(cut, key, children[i][q].ikey);
      }
    }
  }

  lemma CurrentInBoundsToo(children: seq<seq<Entry>>, positions: seq<nat>, at: nat)
    requires |positions| == |children| && LargestChild(children, positions, Some(at))
    ensures at < |children| && positions[at] < |children[at]|
  {
  }

  // ----- Single steps -----

  lemma SeekCut(c: seq<Entry>, target: IKey)
    requires Sorted(c)
    ensures CutAt(c, SeekIndex(c, target), At(target))
  {
    var i := SeekIndex(c, target);
    forall q | i <= q < |c|
      ensures !Less(c[q].ikey, target)
    {
      assert i < q ==> Less(c[i].ikey, c[q].ikey);
    }
  }

  lemma SeekCuts(children: seq<seq<Entry>>, positions: seq<nat>, target: IKey)
    requires ProperChildren(children) && AllInBounds(children, positions)
    requires forall i :: 0 <= i < |children| ==> positions[i] == SeekIndex(children[i], target)
    ensures forall i :: 0 <= i < |children| ==> CutAt(children[i], positions[i], At(target))
  {
    hide ProperChildren, CutAt, SeekIndex;
    forall i | 0 <= i < |children|
      ensures CutAt(children[i], positions[i], At(target))
    {
      ChildSorted(children, i);
      SeekCut(children[i], target);
    }
  }

  /** Turning around: a child that does not hold the key is sought to it. */
  lemma SeekPastKey(children: seq<seq<Entry>>, at: nat, p: nat, i: nat)
    requires ProperChildren(children) && at < |children| && p < |children[at]| && i < |children| && i != at
    ensures var n := SeekIndex(children[i], children[at][p].ikey);
            && Beside(children[i], n, Forward, children[at][p].ikey)
            && Beside(children[i], if n < |children[i]| then PrevPosition(children[i], n) else LastPosition(children[i]),
                      Reverse, children[at][p].ikey)
  {
    hide ProperChildren;
    ChildSorted(children, i);
    SeekCut(children[i], children[at][p].ikey);
    forall q | 0 <= q < |children[i]|
      ensures children[i][q].ikey != children[at][p].ikey
    {
      DifferentKeys(children, at, p, i, q);
    }
  }

  lemma StepForwardCuts(children: seq<seq<Entry>>, positions: seq<nat>, at: nat, key: IKey)
    requires ProperChildren(children) && AllInBounds(children, positions)
    requires at < |children| && positions[at] < |children[at]| && children[at][positions[at]].ikey == key
    requires forall i :: 0 <= i < |children| && i != at ==> Beside(children[i], positions[i], Forward, key)
    ensures forall i :: 0 <= i < |children| ==>
              CutAt(children[i], positions[at := positions[at] + 1][i], Past(key))
  {
    hide ProperChildren;
    forall i | 0 <= i < |children|
      ensures CutAt(children[i], positions[at := positions[at] + 1][i], Past(key))
    {
      if i == at {
        StepsForward(children, at, positions[at]);
      } else {
        assert Beside(children[i], positions[i], Forward, key);
      }
    }
  }

  lemma StepsForward(children: seq<seq<Entry>>, at: nat, p: nat)
    requires ProperChildren(children) && at < |children| && p < |children[at]|
    ensures CutAt(children[at], p + 1, Past(children[at][p].ikey))
  {
    var c := children[at];
    assert Sorted(c);
    assert forall q :: 0 <= q < p ==> Less(c[q].ikey, c[p].ikey);
    assert forall q :: p < q < |c| ==> Less(c[p].ikey, c[q].ikey);
  }

  lemma StepBackwardCuts(children: seq<seq<Entry>>, positions: seq<nat>, at: nat, key: IKey)
    requires ProperChildren(children) && AllInBounds(children, positions)
    requires at < |children| && positions[at] < |children[at]| && children[at][positions[at]].ikey == key
    requires forall i :: 0 <= i < |children| && i != at ==> Beside(children[i], positions[i], Reverse, key)
    ensures forall i :: 0 <= i < |children| ==>
              var p := positions[at := PrevPosition(children[at], positions[at])][i];
              CutAt(children[i], CountUpTo(children[i], p), At(key))
  {
    hide ProperChildren;
    forall i | 0 <= i < |children|
      ensures var p := positions[at := PrevPosition(children[at], positions[at])][i];
              CutAt(children[i], CountUpTo(children[i], p), At(key))
    {
      if i == at {
        StepsBackward(children, at, positions[at]);
      } else {
        assert Beside(children[i], positions[i], Reverse, key);
      }
    }
  }

  lemma StepsBackward(children: seq<seq<Entry>>, at: nat, p: nat)
    requires ProperChildren(children) && at < |children| && p < |children[at]|
    ensures CutAt(children[at], CountUpTo(children[at], PrevPosition(children[at], p)), At(children[at][p].ikey))
  {
    var c := children[at];
    assert Sorted(c);
    assert forall q :: 0 <= q < p ==> Less(c[q].ikey, c[p].ikey);
    assert forall q :: p < q < |c| ==> Less(c[p].ikey, c[q].ikey);
  }

  lemma NotTheKey(c: seq<Entry>, p: nat, key: IKey)
    requires Beside(c, p, Forward, key)
    ensures p < |c| ==> Compare(key, c[p].ikey) != 0
  {
    if p < |c| {
      CompareIsLess(key, c[p].ikey);
    }
  }

  lemma FirstCuts(children: seq<seq<Entry>>, positions: seq<nat>)
    requires AllInBounds(children, positions) && forall i :: 0 <= i < |children| ==> positions[i] == 0
    ensures forall i :: 0 <= i < |children| ==> CutAt(children[i], positions[i], Bottom)
  {
  }

  lemma LastCuts(children: seq<seq<Entry>>, positions: seq<nat>)
    requires AllInBounds(children, positions)
    requires forall i :: 0 <= i < |children| ==> positions[i] == LastPosition(children[i])
    ensures forall i :: 0 <= i < |children| ==> CutAt(children[i], CountUpTo(children[i], positions[i]), Top)
  {
  }
}
