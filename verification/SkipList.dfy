/** The skip list behind a memtable (db/skiplist.h), for any heights its random numbers give. */
module SkipLists {
  import opened InternalKeys

  const MAX_HEIGHT := 12

  class Node {
    const entry: Entry
    var next: seq<Node?>         // one link for each level the node is on

    constructor (entry: Entry, height: nat)
      ensures this.entry == entry && next == seq(height, _ => null)
    {
      this.entry := entry;
      next := seq(height, _ => null);
    }
  }

  // ----- Levels, by the heights of the nodes in order -----

  /** The first node from `from` on that is on a level. */
  function Tall(heights: seq<nat>, from: nat, level: nat): (j: nat)
    requires from <= |heights|
    ensures from <= j <= |heights|
    ensures forall k :: from <= k < j ==> heights[k] <= level
    ensures j < |heights| ==> heights[j] > level
    decreases |heights| - from
  {
    if from == |heights| || heights[from] > level then from else Tall(heights, from + 1, level)
  }

  lemma TallIs(heights: seq<nat>, from: nat, level: nat, j: nat)
    requires from <= j <= |heights|
    requires forall k :: from <= k < j ==> heights[k] <= level
    requires j < |heights| ==> heights[j] > level
    ensures Tall(heights, from, level) == j
  {
  }

  ghost function LinkAt(nodes: seq<Node>, heights: seq<nat>, from: nat, level: nat): Node?
    requires |nodes| == |heights| && from <= |heights|
  {
    var j := Tall(heights, from, level);
    if j < |nodes| then nodes[j] else null
  }

  /** Where node `k` is linked to. */
  ghost function LinkOf(nodes: seq<Node>, heights: seq<nat>, k: nat, level: nat): Node?
    requires |nodes| == |heights| && k < |nodes|
  {
    LinkAt(nodes, heights, k + 1, level)
  }

  function Inserted<T>(s: seq<T>, p: nat, x: T): (r: seq<T>)
    requires p <= |s|
    ensures |r| == |s| + 1 && r[p] == x
    ensures forall k :: 0 <= k < p ==> r[k] == s[k]
    ensures forall k :: p < k < |r| ==> r[k] == s[k - 1]
  {
    s[..p] + [x] + s[p..]
  }

  /** Links past the new node lead where they led before. */
  lemma LinkBehind(nodes: seq<Node>, heights: seq<nat>, p: nat, x: Node, height: nat, from: nat, level: nat)
    requires |nodes| == |heights| && p <= from <= |heights|
    ensures LinkAt(Inserted(nodes, p, x), Inserted(heights, p, height), from + 1, level)
         == LinkAt(nodes, heights, from, level)
  {
    var j := Tall(heights, from, level);
    var h := Inserted(heights, p, height);
    assert forall k :: from + 1 <= k < j + 1 ==> h[k] == heights[k - 1];
    TallIs(h, from + 1, level, j + 1);
  }

  /** A link to a node before the new one, or on a level above it, leads where it led before; any other leads
      to the new node. */
  lemma LinkBefore(nodes: seq<Node>, heights: seq<nat>, p: nat, x: Node, height: nat, from: nat, level: nat)
    requires |nodes| == |heights| && from <= p <= |heights|
    ensures LinkAt(Inserted(nodes, p, x), Inserted(heights, p, height), from, level)
         == if Tall(heights, from, level) < p || level >= height then LinkAt(nodes, heights, from, level) else x
  {
    var j := Tall(heights, from, level);
    var h := Inserted(heights, p, height);
    if j < p {
      TallIs(h, from, level, j);
    } else if level < height {
      TallIs(h, from, level, p);
    } else {
      assert forall k :: p < k < j + 1 ==> h[k] == heights[k - 1];
      TallIs(h, from, level, j + 1);
    }
  }

  /** The last node before `p` on a level. */
  ghost predicate LastBefore(heights: seq<nat>, p: nat, level: nat, k: nat) {
    k < p <= |heights| && heights[k] > level && Tall(heights, k + 1, level) >= p
  }

  lemma OnlyOneLast(heights: seq<nat>, p: nat, level: nat, k: nat, m: nat)
    requires LastBefore(heights, p, level, k) && m < p && heights[m] > level
    ensures Tall(heights, m + 1, level) >= p <==> m == k
  {
  }

  /** Where a node stands after an insertion at `p`. */
  function AfterIndex(k: nat, p: nat): nat {
    if k < p then k else k + 1
  }

  lemma LevelSpliced(nodes: seq<Node>, heights: seq<nat>, p: nat, x: Node, height: nat, level: nat, last: nat)
    requires |nodes| == |heights| && p <= |heights| && level < height && LastBefore(heights, p, level, last)
    ensures var after, h := Inserted(nodes, p, x), Inserted(heights, p, height);
            && LinkOf(after, h, p, level) == LinkOf(nodes, heights, last, level)
            && forall k :: 0 <= k < |nodes| && heights[k] > level ==>
                 LinkOf(after, h, AfterIndex(k, p), level)
                 == if k == last then x else LinkOf(nodes, heights, k, level)
  {
    hide LinkAt, Inserted;
    LinkBehind(nodes, heights, p, x, height, p, level);
    SameLink(nodes, heights, last + 1, p, level);
    forall k | 0 <= k < |nodes| && heights[k] > level
      ensures LinkOf(Inserted(nodes, p, x), Inserted(heights, p, height), AfterIndex(k, p), level)
           == if k == last then x else LinkOf(nodes, heights, k, level)
    {
      if k < p {
        OnlyOneLast(heights, p, level, last, k);
        LinkBefore(nodes, heights, p, x, height, k + 1, level);
      } else {
        LinkBehind(nodes, heights, p, x, height, k + 1, level);
      }
    }
  }

  lemma SameLink(nodes: seq<Node>, heights: seq<nat>, from: nat, p: nat, level: nat)
    requires |nodes| == |heights| && from <= p <= |heights| && Tall(heights, from, level) >= p
    ensures LinkAt(nodes, heights, from, level) == LinkAt(nodes, heights, p, level)
  {
    TallIs(heights, p, level, Tall(heights, from, level));
  }

  lemma HigherLevelsStay(nodes: seq<Node>, heights: seq<nat>, p: nat, x: Node, height: nat)
    requires |nodes| == |heights| && p <= |heights|
    ensures var after, h := Inserted(nodes, p, x), Inserted(heights, p, height);
            forall k: nat, l: nat :: k < |nodes| && l >= height ==>
              LinkOf(after, h, AfterIndex(k, p), l) == LinkOf(nodes, heights, k, l)
  {
    hide LinkAt, Inserted;
    forall k: nat, l: nat | k < |nodes| && l >= height
      ensures LinkOf(Inserted(nodes, p, x), Inserted(heights, p, height), AfterIndex(k, p), l)
           == LinkOf(nodes, heights, k, l)
    {
      if k < p {
        LinkBefore(nodes, heights, p, x, height, k + 1, l);
      } else {
        LinkBehind(nodes, heights, p, x, height, k + 1, l);
      }
    }
  }

  lemma InsertedOrder(nodes: seq<Node>, p: nat, x: Node)
    requires 1 <= p <= |nodes|
    requires forall i, j :: 1 <= i < j < |nodes| ==> Less(nodes[i].entry.ikey, nodes[j].entry.ikey)
    requires forall i :: 1 <= i < p ==> Less(nodes[i].entry.ikey, x.entry.ikey)
    requires forall i :: p <= i < |nodes| ==> Less(x.entry.ikey, nodes[i].entry.ikey)
    ensures var after := Inserted(nodes, p, x);
            forall i, j :: 1 <= i < j < |after| ==> Less(after[i].entry.ikey, after[j].entry.ikey)
  {
    hide Less;
  }

  ghost predicate Distinct(nodes: seq<Node>) {
    forall i, j :: 0 <= i < j < |nodes| ==> nodes[i] != nodes[j]
  }

  /** The new node is linked in on the levels below `level`; the levels from there on are as before. */
  ghost predicate SplicedTo(before: seq<Node>, h: seq<nat>, p: nat, x: Node, height: nat, level: nat)
    requires p <= |before| == |h|
    reads before, x
  {
    var after, h' := Inserted(before, p, x), Inserted(h, p, height);
    && |x.next| == height && level <= height
    && (forall l :: 0 <= l < level ==> x.next[l] == LinkOf(after, h', p, l))
    && forall k :: 0 <= k < |before| ==>
         && |before[k].next| == h[k]
         && forall l :: 0 <= l < h[k] ==>
              before[k].next[l] == if l < level then LinkOf(after, h', AfterIndex(k, p), l) else LinkOf(before, h, k, l)
  }

  lemma SpliceStarts(before: seq<Node>, h: seq<nat>, p: nat, x: Node, height: nat)
    requires p <= |before| == |h| && |x.next| == height
    requires forall k :: 0 <= k < |before| ==> |before[k].next| == h[k]
    requires forall k, l :: 0 <= k < |before| && 0 <= l < h[k] ==> before[k].next[l] == LinkOf(before, h, k, l)
    ensures SplicedTo(before, h, p, x, height, 0)
  {
    hide LinkOf, Inserted;
  }

  /** One level of Insert's linking loop. */
  method LinkIn(x: Node, prev: Node, level: nat, ghost before: seq<Node>, ghost h: seq<nat>, ghost p: nat,
                ghost height: nat, ghost last: nat)
    requires p <= |before| == |h| && level < height && LastBefore(h, p, level, last) && prev == before[last]
    requires SplicedTo(before, h, p, x, height, level) && Distinct(before) && x !in before
    modifies x, before
    ensures SplicedTo(before, h, p, x, height, level + 1)
  {
    hide LinkOf, Inserted, LastBefore;
    LastIsOnLevel(h, p, level, last);
    LevelSpliced(before, h, p, x, height, level, last);
    assert prev in before;
    x.next := x.next[level := prev.next[level]];
    prev.next := prev.next[level := x];
    forall k | 0 <= k < |before|
      ensures k != last ==> before[k] != prev
    {
      assert k < last ==> before[k] != before[last];
      assert last < k ==> before[last] != before[k];
    }
  }

  lemma LastIsOnLevel(heights: seq<nat>, p: nat, level: nat, k: nat)
    requires LastBefore(heights, p, level, k)
    ensures k < p && heights[k] > level
  {
  }

  lemma EntriesAfter(before: seq<Entry>, nodes: seq<Node>, p: nat, x: Node, after: seq<Entry>)
    requires 1 <= p <= |nodes| == |before| + 1 == |after|
    requires forall i :: 0 <= i < |before| ==> before[i] == nodes[i + 1].entry
    requires forall i :: 0 <= i < |after| ==> after[i] == Inserted(nodes, p, x)[i + 1].entry
    ensures after == before[..p - 1] + [x.entry] + before[p - 1..]
  {
    hide Inserted;
    forall k | 0 <= k < p - 1
      ensures after[k] == before[k]
    {
      assert Inserted(nodes, p, x)[k + 1] == nodes[k + 1];
    }
    forall k | p <= k < |after|
      ensures after[k] == before[k - 1]
    {
      assert Inserted(nodes, p, x)[k + 1] == nodes[k];
    }
  }

  lemma LessChains(a: IKey, b: IKey, c: IKey)
    ensures Less(a, b) && Less(b, c) ==> Less(a, c)
  {
  }

  lemma NotBelow(x: Node?, key: IKey)
    requires x == null || Compare(x.entry.ikey, key) >= 0
    ensures x == null || !Less(x.entry.ikey, key)
  {
    if x != null {
      CompareIsLess(x.entry.ikey, key);
    }
  }

  class SkipList {
    const head: Node
    var maxHeight: nat
    ghost var nodes: seq<Node>       // the head, then all others in order
    ghost var heights: seq<nat>

    /** On every level, each node is linked to the next node that is on that level, so every level is a sorted
        sublist of the level below. */
    ghost predicate Valid()
      reads this, nodes
    {
      Shaped() && Linked() && Ordered()
    }

    ghost predicate Shaped()
      reads this, nodes
    {
      && |nodes| == |heights| > 0 && nodes[0] == head && heights[0] == MAX_HEIGHT
      && 1 <= maxHeight <= MAX_HEIGHT
      && (forall i :: 0 <= i < |nodes| ==> |nodes[i].next| == heights[i])
      && (forall i :: 1 <= i < |nodes| ==> 1 <= heights[i] <= maxHeight)
      && Distinct(nodes)
    }

    ghost predicate Linked()
      requires Shaped()
      reads this, nodes
    {
      forall i, l :: 0 <= i < |nodes| && 0 <= l < heights[i] ==>
        nodes[i].next[l] == LinkOf(nodes, heights, i, l)
    }

    ghost predicate Ordered()
      reads this
    {
      forall i, j :: 1 <= i < j < |nodes| ==> Less(nodes[i].entry.ikey, nodes[j].entry.ikey)
    }

    /** The entries of the list, in order. */
    ghost function Contents(): (r: seq<Entry>)
      reads this
      requires |nodes| > 0
      ensures |r| == |nodes| - 1
    {
      seq(|nodes| - 1, i requires 0 <= i < |nodes| - 1 reads this => nodes[i + 1].entry)
    }

    constructor ()
      ensures Valid() && fresh(head) && nodes == [head] && Contents() == []
    {
      head := new Node(Entry(IKey(0, 0, Deletion), ""), MAX_HEIGHT);
      maxHeight := 1;
      nodes, heights := [head], [MAX_HEIGHT];
    }

    /** The last nodes before position `p` on the levels below `n`. */
    ghost predicate Lasts(prev: seq<Node>, lasts: seq<nat>, p: nat, n: nat)
      requires n <= |prev| == |lasts|
      reads this
    {
      forall l :: 0 <= l < n ==>
        lasts[l] < |nodes| && prev[l] == nodes[lasts[l]] && LastBefore(heights, p, l, lasts[l])
    }

    /** The first node at or after a key, null when there is none, and for every level the last node before
        the key on it. */
    method FindGreaterOrEqual(key: IKey) returns (x: Node?, prev: seq<Node>, ghost lasts: seq<nat>)
      requires Valid()
      ensures var p := SeekIndex(Contents(), key) + 1;
              && p <= |nodes| && x == (if p < |nodes| then nodes[p] else null)
              && |prev| == |lasts| == MAX_HEIGHT && Lasts(prev, lasts, p, maxHeight)
    {
      hide Less, Ordered, Distinct, Contents, SeekIndex, Linked, LastBefore;
      prev, lasts := seq(MAX_HEIGHT, _ => head), seq(MAX_HEIGHT, _ => 0);
      ghost var p := SeekIndex(Contents(), key) + 1;
      SeekPosition(key);
      var node := head;
      var level := maxHeight - 1;
      ghost var at: nat := 0;
      while true
        invariant at < p <= |nodes| && node == nodes[at] && 0 <= level < heights[at]
        invariant |prev| == |lasts| == MAX_HEIGHT && level < maxHeight
        invariant forall l :: level < l < maxHeight ==>
                    lasts[l] < |nodes| && prev[l] == nodes[lasts[l]] && LastBefore(heights, p, l, lasts[l])
        decreases level, |nodes| - at
      {
        var next := node.next[level];
        ghost var t := Tall(heights, at + 1, level);
        NextNode(at, level);
        if next != null && Less(next.entry.ikey, key) {
          node, at := next, t;
        } else {
          StopsBefore(at, level, p, key);
          prev, lasts := prev[level := node], lasts[level := at];
          if level == 0 {
            x := next;
            return;
          }
          level := level - 1;
        }
      }
    }

    /** The search leaves a level at the last node before the key. */
    lemma StopsBefore(at: nat, level: nat, p: nat, key: IKey)
      requires Valid() && at < p <= |nodes| && level < heights[at]
      requires forall i :: 1 <= i < p ==> Less(nodes[i].entry.ikey, key)
      requires var t := Tall(heights, at + 1, level); t < |nodes| ==> !Less(nodes[t].entry.ikey, key)
      ensures LastBefore(heights, p, level, at)
      ensures level == 0 ==> Tall(heights, at + 1, level) == p
    {
      hide Less, Ordered, Linked;
    }

    lemma NextNode(at: nat, level: nat)
      requires Valid() && at < |nodes| && level < heights[at]
      ensures var t := Tall(heights, at + 1, level);
              nodes[at].next[level] == if t < |nodes| then nodes[t] else null
    {
      assert nodes[at].next[level] == LinkOf(nodes, heights, at, level);
    }

    /** Nodes before the position of a key are below it, the others are not. */
    lemma SeekPosition(key: IKey)
      requires Valid()
      ensures var p := SeekIndex(Contents(), key) + 1;
              && 1 <= p <= |nodes|
              && (forall i :: 1 <= i < p ==> Less(nodes[i].entry.ikey, key))
              && (forall i :: p <= i < |nodes| ==> !Less(nodes[i].entry.ikey, key))
    {
      hide Less;
      var i := SeekIndex(Contents(), key);
      assert forall j :: 0 <= j < |Contents()| ==> Contents()[j] == nodes[j + 1].entry;
      forall j | i + 1 <= j < |nodes|
        ensures !Less(nodes[j].entry.ikey, key)
      {
        assert Contents()[i] == nodes[i + 1].entry;
        if j > i + 1 {
          InOrder(i + 1, j);
          LessChains(nodes[i + 1].entry.ikey, nodes[j].entry.ikey, key);
        }
      }
      forall j | 1 <= j < i + 1
        ensures Less(nodes[j].entry.ikey, key)
      {
        assert Contents()[j - 1] == nodes[j].entry;
      }
    }

    /** The last node before a key, the head when there is none. */
    method FindLessThan(key: IKey) returns (x: Node)
      requires Valid()
      ensures var i := SeekIndex(Contents(), key); i < |nodes| && x == nodes[i]
    {
      ghost var p := SeekIndex(Contents(), key) + 1;
      SeekPosition(key);
      x := head;
      var level := maxHeight - 1;
      ghost var at: nat := 0;
      while true
        invariant at < p <= |nodes| && x == nodes[at] && 0 <= level < heights[at]
        decreases level, |nodes| - at
      {
        var next := x.next[level];
        ghost var t := Tall(heights, at + 1, level);
        NextNode(at, level);
        if next == null || Compare(next.entry.ikey, key) >= 0 {
          NotBelow(next, key);
          if level == 0 {
            return;
          }
          level := level - 1;
        } else {
          CompareIsLess(next.entry.ikey, key);
          x, at := next, t;
        }
      }
    }

    /** The last node, the head of an empty list. */
    method FindLast() returns (x: Node)
      requires Valid()
      ensures |nodes| > 0 && x == nodes[|nodes| - 1]
    {
      x := head;
      var level := maxHeight - 1;
      ghost var at: nat := 0;
      while true
        invariant at < |nodes| && x == nodes[at] && 0 <= level < heights[at]
        decreases level, |nodes| - at
      {
        var next := x.next[level];
        ghost var t := Tall(heights, at + 1, level);
        NextNode(at, level);
        if next == null {
          if level == 0 {
            return;
          }
          level := level - 1;
        } else {
          x, at := next, t;
        }
      }
    }

    method Contains(key: IKey) returns (found: bool)
      requires Valid()
      ensures found <==> exists e :: e in Contents() && e.ikey == key
    {
      var x, _, _ := FindGreaterOrEqual(key);
      SeekPosition(key);
      ghost var p := SeekIndex(Contents(), key) + 1;
      if x != null {
        CompareIsLess(key, x.entry.ikey);
        assert Contents()[p - 1] == nodes[p].entry;
      }
      found := x != null && Compare(key, x.entry.ikey) == 0;
      OnlyAtPosition(key);
    }

    /** An entry with the key can only stand at the key's position. */
    lemma OnlyAtPosition(key: IKey)
      requires Valid()
      ensures var p := SeekIndex(Contents(), key) + 1;
              (exists e :: e in Contents() && e.ikey == key) ==> p < |nodes| && nodes[p].entry.ikey == key
    {
      hide SeekIndex, Linked, Distinct;
      SeekPosition(key);
      var p := SeekIndex(Contents(), key) + 1;
      if e :| e in Contents() && e.ikey == key {
        var i :| 0 <= i < |Contents()| && Contents()[i] == e;
        assert nodes[i + 1].entry == e;
        if p < |nodes| {
          InOrder(p, i + 1);
        }
      }
    }

    lemma InOrder(a: nat, b: nat)
      requires Valid() && 1 <= a < |nodes| && 1 <= b < |nodes|
      ensures a < b ==> Less(nodes[a].entry.ikey, nodes[b].entry.ikey)
    {
    }

    /** Insert a new entry on the levels below `height`, which RandomHeight gives. */
    method Insert(entry: Entry, height: nat)
      requires Valid() && 1 <= height <= MAX_HEIGHT
      requires forall e :: e in Contents() ==> e.ikey != entry.ikey
      modifies this, nodes
      ensures Valid() && fresh(set n | n in nodes && n !in old(nodes))
      ensures Contents() == InsertSorted(old(Contents()), entry)
    {
      hide Less, LinkAt, LastBefore, Distinct, Ordered, Linked, SeekIndex, Inserted, Contents;
      var _, prev: seq<Node>, lasts: seq<nat> := FindGreaterOrEqual(entry.ikey);
      SeekPosition(entry.ikey);
      AboveTheRest(entry);
      ContentsAt();
      ghost var before, nodesBefore := Contents(), nodes;
      ghost var p: nat := SeekIndex(before, entry.ikey) + 1;
      if height > maxHeight {
        prev, lasts := RaiseHeight(height, prev, p, lasts);
      } else {
        FewerLasts(prev, lasts, p, height);
      }
      var x := new Node(entry, height);
      Splice(x, height, prev, p, lasts);
      ContentsAfter(before, nodesBefore, p, x);
    }

    lemma ContentsAt()
      requires |nodes| > 0
      ensures forall i :: 0 <= i < |Contents()| ==> Contents()[i] == nodes[i + 1].entry
    {
    }

    lemma FewerLasts(prev: seq<Node>, lasts: seq<nat>, p: nat, n: nat)
      requires Valid() && |prev| == |lasts| == MAX_HEIGHT && Lasts(prev, lasts, p, maxHeight) && n <= maxHeight
      ensures Lasts(prev, lasts, p, n)
    {
      hide LastBefore;
    }

    /** Above the highest level in use, the head is the last node before any position. */
    method RaiseHeight(height: nat, prev: seq<Node>, ghost p: nat, ghost lasts: seq<nat>)
      returns (prev': seq<Node>, ghost lasts': seq<nat>)
      requires Valid() && maxHeight < height <= MAX_HEIGHT && 1 <= p <= |nodes|
      requires |prev| == |lasts| == MAX_HEIGHT && Lasts(prev, lasts, p, maxHeight)
      modifies this`maxHeight
      ensures Valid() && maxHeight == height
      ensures |prev'| == |lasts'| == MAX_HEIGHT && Lasts(prev', lasts', p, height)
    {
      hide LinkAt, Less, LastBefore;
      prev', lasts' := prev, lasts;
      for i := maxHeight to height
        modifies {}
        invariant |prev'| == |lasts'| == MAX_HEIGHT && Lasts(prev', lasts', p, i)
      {
        OnlyHead(p, i);
        prev', lasts' := prev'[i := head], lasts'[i := 0];
      }
      maxHeight := height;
    }

    lemma ContentsAfter(before: seq<Entry>, nodesBefore: seq<Node>, p: nat, x: Node)
      requires 1 <= p <= |nodesBefore| && nodes == Inserted(nodesBefore, p, x)
      requires |before| == |nodesBefore| - 1 && forall i :: 0 <= i < |before| ==> before[i] == nodesBefore[i + 1].entry
      requires p == SeekIndex(before, x.entry.ikey) + 1
      ensures Contents() == InsertSorted(before, x.entry)
    {
      hide SeekIndex, Inserted, Contents;
      ContentsAt();
      EntriesAfter(before, nodesBefore, p, x, Contents());
    }

    lemma OnlyHead(p: nat, level: nat)
      requires Valid() && maxHeight <= level < MAX_HEIGHT && 1 <= p <= |nodes|
      ensures LastBefore(heights, p, level, 0)
    {
      TallIs(heights, 1, level, |nodes|);
    }

    lemma AboveTheRest(entry: Entry)
      requires Valid() && forall e :: e in Contents() ==> e.ikey != entry.ikey
      ensures var p := SeekIndex(Contents(), entry.ikey) + 1;
              1 <= p <= |nodes| && forall i :: p <= i < |nodes| ==> Less(entry.ikey, nodes[i].entry.ikey)
    {
      SeekPosition(entry.ikey);
      var p := SeekIndex(Contents(), entry.ikey) + 1;
      forall i | p <= i < |nodes|
        ensures Less(entry.ikey, nodes[i].entry.ikey)
      {
        assert Contents()[i - 1] == nodes[i].entry;
        assert nodes[i].entry in Contents();
      }
    }

    lemma ShapeAfter(before: seq<Node>, h: seq<nat>, p: nat, x: Node, height: nat)
      requires 1 <= p <= |before| == |h| && 1 <= height <= maxHeight <= MAX_HEIGHT
      requires nodes == Inserted(before, p, x) && heights == Inserted(h, p, height)
      requires before[0] == head && h[0] == MAX_HEIGHT && x !in before && Distinct(before)
      requires SplicedTo(before, h, p, x, height, height)
      requires forall i :: 1 <= i < |before| ==> 1 <= h[i] <= maxHeight
      ensures Shaped()
    {
      hide LinkOf;
      assert forall i :: 0 <= i < |before| ==> before[i] in before;
    }

    lemma LinksAfter(before: seq<Node>, h: seq<nat>, p: nat, x: Node, height: nat)
      requires Shaped() && 1 <= p <= |before| == |h|
      requires nodes == Inserted(before, p, x) && heights == Inserted(h, p, height)
      requires SplicedTo(before, h, p, x, height, height)
      ensures Linked()
    {
      hide LinkOf;
      HigherLevelsStay(before, h, p, x, height);
      forall i, l | 0 <= i < |nodes| && 0 <= l < heights[i]
        ensures nodes[i].next[l] == LinkOf(nodes, heights, i, l)
      {
        if i != p {
          var k := if i < p then i else i - 1;
          assert AfterIndex(k, p) == i && before[k] == nodes[i] && h[k] == heights[i];
        }
      }
    }

    /** Link a new node in on each of its levels, from the lowest up. */
    method Splice(x: Node, height: nat, prev: seq<Node>, ghost p: nat, ghost lasts: seq<nat>)
      requires Valid() && 1 <= p <= |nodes| && 1 <= height <= maxHeight
      requires x !in nodes && |x.next| == height
      requires |prev| == |lasts| == MAX_HEIGHT && Lasts(prev, lasts, p, height)
      requires forall i :: 1 <= i < p ==> Less(nodes[i].entry.ikey, x.entry.ikey)
      requires forall i :: p <= i < |nodes| ==> Less(x.entry.ikey, nodes[i].entry.ikey)
      modifies this`nodes, this`heights, nodes, x
      ensures Valid() && nodes == Inserted(old(nodes), p, x)
    {
      hide LinkOf, Inserted, LastBefore, SplicedTo, Less;
      ghost var before, h := nodes, heights;
      SpliceStarts(before, h, p, x, height);
      for i := 0 to height
        invariant nodes == before && heights == h && Distinct(before) && x !in before
        invariant SplicedTo(before, h, p, x, height, i)
      {
        LinkIn(x, prev[i], i, before, h, p, height, lasts[i]);
      }
      InsertedOrder(before, p, x);
      nodes, heights := Inserted(before, p, x), Inserted(h, p, height);
      ShapeAfter(before, h, p, x, height);
      LinksAfter(before, h, p, x, height);
    }
  }

  /** An iterator over a list that does not change meanwhile. `at` is its position among the entries; past the
      last one it is not valid. */
  class Iterator {
    const list: SkipList
    var node: Node?
    ghost var at: nat

    ghost predicate Valid()
      reads this, list, list.nodes
    {
      && list.Valid() && at <= |list.Contents()|
      && node == if at < |list.Contents()| then list.nodes[at + 1] else null
    }

    constructor (list: SkipList)
      requires list.Valid()
      ensures Valid() && this.list == list && node == null
    {
      this.list := list;
      node, at := null, |list.Contents()|;
    }

    method Next()
      requires Valid() && node != null
      modifies this
      ensures Valid() && at == old(at) + 1
    {
      list.NextNode(at + 1, 0);
      TallIs(list.heights, at + 2, 0, at + 2);
      node, at := node.next[0], at + 1;
    }

    /** Back to the last node before this one's key. */
    method Prev()
      requires Valid() && node != null
      modifies this
      ensures Valid() && at == if old(at) == 0 then |list.Contents()| else old(at) - 1
    {
      hide SeekIndex, SkipList.Contents, SkipList.Linked, Distinct, SkipList.Ordered;
      PositionOf();
      var before := list.FindLessThan(node.entry.ikey);
      HeadIsFirst(at);
      node := before;
      at := if at == 0 then |list.Contents()| else at - 1;
      if node == list.head {
        node := null;
      }
    }

    method Seek(target: IKey)
      requires list.Valid()
      modifies this
      ensures Valid() && at == SeekIndex(list.Contents(), target)
    {
      at := SeekIndex(list.Contents(), target);
      var x, _, _ := list.FindGreaterOrEqual(target);
      node := x;
    }

    method SeekToFirst()
      requires list.Valid()
      modifies this
      ensures Valid() && at == 0
    {
      list.NextNode(0, 0);
      if |list.nodes| > 1 {
        TallIs(list.heights, 1, 0, 1);
      }
      node, at := list.head.next[0], 0;
    }

    method SeekToLast()
      requires list.Valid()
      modifies this
      ensures Valid() && at == if list.Contents() == [] then 0 else |list.Contents()| - 1
    {
      node := list.FindLast();
      HeadIsFirst(|list.Contents()|);
      at := if |list.Contents()| == 0 then 0 else |list.Contents()| - 1;
      if node == list.head {
        node := null;
      }
    }

    lemma HeadIsFirst(i: nat)
      requires list.Valid() && i < |list.nodes|
      ensures list.nodes[i] == list.head <==> i == 0
    {
    }

    /** The key at a position is sought to that position. */
    lemma PositionOf()
      requires Valid() && node != null
      ensures SeekIndex(list.Contents(), node.entry.ikey) == at
    {
      list.SeekPosition(node.entry.ikey);
      var p := SeekIndex(list.Contents(), node.entry.ikey) + 1;
      list.InOrder(at + 1, if p < |list.nodes| then p else at + 1);
    }
  }
}
