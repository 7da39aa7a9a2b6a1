/** The bytewise comparator and the separators of index blocks (util/comparator.cc, db/dbformat.cc). */
module Bytewise {
  import opened Coding
  import opened Blocks
  import opened Varints

  /** Slice::compare: the first difference decides, else the shorter one comes first. */
  predicate Less(a: seq<Byte>, b: seq<Byte>) {
    if b == [] then false
    else if a == [] then true
    else if a[0] != b[0] then a[0] < b[0]
    else Less(a[1..], b[1..])
  }

  lemma {:induction false} LessChains(a: seq<Byte>, b: seq<Byte>, c: seq<Byte>)
    requires Less(a, b) && Less(b, c)
    ensures Less(a, c)
  {
    if a != [] && a[0] == b[0] == c[0] {
      LessChains(a[1..], b[1..], c[1..]);
    }
  }

  lemma {:induction false} OneOfThree(a: seq<Byte>, b: seq<Byte>)
    ensures !(Less(a, b) && Less(b, a)) && (Less(a, b) || a == b || Less(b, a)) && !Less(a, a)
  {
    if a != [] {
      OneOfThree(a[1..], a[1..]);
      if b != [] && a[0] == b[0] {
        OneOfThree(a[1..], b[1..]);
        assert a == [a[0]] + a[1..] && b == [b[0]] + b[1..];
      }
    }
  }

  /** Two keys that differ at a byte, with the same bytes before it. */
  predicate DifferAt(a: seq<Byte>, b: seq<Byte>, d: nat) {
    d < |a| && d < |b| && a[..d] == b[..d] && a[d] != b[d]
  }

  lemma {:induction false} FirstDifference(a: seq<Byte>, b: seq<Byte>, d: nat)
    requires DifferAt(a, b, d)
    ensures Less(a, b) <==> a[d] < b[d]
  {
    if d > 0 {
      assert a[0] == a[..d][0] == b[..d][0] == b[0];
      assert a[1..][..d - 1] == a[..d][1..] == b[..d][1..] == b[1..][..d - 1];
      FirstDifference(a[1..], b[1..], d - 1);
    }
  }

  /** There is room between the keys at their first difference. */
  predicate RoomAt(start: seq<Byte>, limit: seq<Byte>, d: nat) {
    DifferAt(start, limit, d) && (start[d] as int) + 1 < limit[d]
  }

  /** BytewiseComparatorImpl::FindShortestSeparator: a key at or after `start` and before `limit`, shortened just
      after their first difference when there is room there. */
  method FindShortestSeparator(start: seq<Byte>, limit: seq<Byte>) returns (r: seq<Byte>)
    ensures r == start || Less(start, r)
    ensures Less(start, limit) ==> Less(r, limit)
    ensures |r| <= |start|
    ensures r != start <==> exists d: nat :: RoomAt(start, limit, d)
    ensures forall d: nat :: RoomAt(start, limit, d) ==> r == start[..d] + [start[d] + 1]
  {
    var minLength := if |start| < |limit| then |start| else |limit|;
    var d: nat := 0;
    while d < minLength && start[d] == limit[d]
      invariant d <= minLength && start[..d] == limit[..d]
    {
      d := d + 1;
    }
    r := start;
    if d < minLength && start[d] < 0xff && start[d] + 1 < limit[d] {
      r := start[..d] + [start[d] + 1];
      FirstDifference(start, r, d);
      FirstDifference(r, limit, d);
      assert RoomAt(start, limit, d);
    }
    PrefixAgrees(start, limit, d);
    forall e: nat | DifferAt(start, limit, e)
      ensures forall i :: 0 <= i < e ==> start[i] == limit[i]
    {
      PrefixAgrees(start, limit, e);
    }
  }

  lemma PrefixAgrees(a: seq<Byte>, b: seq<Byte>, n: nat)
    requires n <= |a| && n <= |b| && a[..n] == b[..n]
    ensures forall i :: 0 <= i < n ==> a[i] == b[i]
  {
    assert forall i :: 0 <= i < n ==> a[i] == a[..n][i] == b[..n][i] == b[i];
  }

  /** The first byte that can be incremented. */
  predicate FirstSpare(key: seq<Byte>, i: nat) {
    i < |key| && key[i] < 255 && forall j :: 0 <= j < i ==> key[j] == 255
  }

  /** BytewiseComparatorImpl::FindShortSuccessor: a short key at or after `key`; it is `key` itself exactly when
      no byte of it can be incremented, and ends with the first byte that can otherwise. */
  method FindShortSuccessor(key: seq<Byte>) returns (r: seq<Byte>)
    ensures r == key || Less(key, r)
    ensures |r| <= |key|
    ensures r == key <==> forall i :: 0 <= i < |key| ==> key[i] == 0xff
    ensures r != key ==> exists i: nat :: FirstSpare(key, i)
    ensures forall i: nat :: FirstSpare(key, i) ==> r == key[..i] + [key[i] + 1]
  {
    for i := 0 to |key|
      invariant forall j :: 0 <= j < i ==> key[j] == 0xff
    {
      if key[i] != 0xff {
        r := key[..i] + [key[i] + 1];
        FirstDifference(key, r, i);
        OneOfThree(key, r);
        assert FirstSpare(key, i);
        return;
      }
    }
    r := key;
  }

  // ----- Internal keys as bytes -----

  /** The trailer that sorts before all others: the highest sequence number and the type to seek with. */
  const SEEK_TRAILER: nat := 0xff_ffff_ffff_ffff * 256 + 1

  function UserKey(k: seq<Byte>): seq<Byte> {
    if |k| < 8 then [] else k[..|k| - 8]
  }

  function Trailer(k: seq<Byte>): nat {
    if |k| < 8 then 0 else FromLittleEndian(k[|k| - 8..])
  }

  function InternalKey(user: seq<Byte>, trailer: nat): seq<Byte> {
    user + LittleEndian(trailer, 8)
  }

  lemma InternalKeyParts(user: seq<Byte>, trailer: nat)
    requires trailer < TWO_TO_THE_64
    ensures var k := InternalKey(user, trailer); UserKey(k) == user && Trailer(k) == trailer && |k| == |user| + 8
  {
    hide LittleEndian, FromLittleEndian;
    var k := InternalKey(user, trailer);
    assert k[|k| - 8..] == LittleEndian(trailer, 8);
    EightBytes();
    FixedRoundTrip(trailer, 8);
  }

  /** InternalKeyComparator::Compare: user keys up, then trailers down. */
  predicate InternalLess(a: seq<Byte>, b: seq<Byte>) {
    Less(UserKey(a), UserKey(b)) || (UserKey(a) == UserKey(b) && Trailer(a) > Trailer(b))
  }

  lemma InternalLessIsTransitive()
    ensures Transitive(InternalLess)
  {
    hide Less, UserKey, Trailer;
    forall a, b, c | InternalLess(a, b) && InternalLess(b, c)
      ensures InternalLess(a, c)
    {
      if Less(UserKey(a), UserKey(b)) && Less(UserKey(b), UserKey(c)) {
        LessChains(UserKey(a), UserKey(b), UserKey(c));
      }
    }
  }

  /** The user keys have room at their first difference, and more than that byte can be left out. */
  predicate Shortens(start: seq<Byte>, limit: seq<Byte>, d: nat) {
    RoomAt(UserKey(start), UserKey(limit), d) && d + 1 < |UserKey(start)|
  }

  /** What separates two keys is the first of them, unless its user key can be shortened: then it is the user key
      cut after the first difference, which is one up, and a trailer that sorts before all others. */
  ghost predicate IsSeparator(r: seq<Byte>, start: seq<Byte>, limit: seq<Byte>) {
    && (r != start ==> Trailer(r) == 0xffff_ffff_ffff_ff01 && exists d: nat :: Shortens(start, limit, d))
    && forall d: nat :: Shortens(start, limit, d) ==>
         r != start && UserKey(r) == UserKey(start)[..d] + [UserKey(start)[d] + 1]
  }

  /** InternalKeyComparator::FindShortestSeparator. A key that is shortened has a user key strictly between those
      of `start` and `limit`. */
  method InternalSeparator(start: seq<Byte>, limit: seq<Byte>) returns (r: seq<Byte>)
    requires |start| >= 8 && |limit| >= 8 && InternalLess(start, limit)
    ensures |r| >= 8 && |r| <= |start| && InternalLess(r, limit)
    ensures r == start || (Less(UserKey(start), UserKey(r)) && Less(UserKey(r), UserKey(limit)))
    ensures IsSeparator(r, start, limit)
  {
    hide LittleEndian, Less, UserKey, FromLittleEndian;
    var userStart, userLimit := UserKey(start), UserKey(limit);
    UserKeyLength(start);
    var tmp := FindShortestSeparator(userStart, userLimit);
    r := start;
    if |tmp| < |userStart| && Less(userStart, tmp) {
      SameHasNoRoom(userStart);
      InternalKeyParts(tmp, SEEK_TRAILER);
      r := InternalKey(tmp, SEEK_TRAILER);
      var d: nat :| RoomAt(userStart, userLimit, d);
      assert Shortens(start, limit, d);
    }
  }

  lemma UserKeyLength(k: seq<Byte>)
    requires |k| >= 8
    ensures |UserKey(k)| == |k| - 8
  {
  }

  lemma SameHasNoRoom(k: seq<Byte>)
    ensures forall d: nat :: !RoomAt(k, k, d)
  {
  }

  /** The same after the last key, where any first byte that can go up will do. */
  ghost predicate IsSuccessor(r: seq<Byte>, key: seq<Byte>) {
    && (r != key ==>
          Trailer(r) == 0xffff_ffff_ffff_ff01 && exists i: nat :: FirstSpare(UserKey(key), i) && i + 1 < |UserKey(key)|)
    && forall i: nat :: FirstSpare(UserKey(key), i) && i + 1 < |UserKey(key)| ==>
         r != key && UserKey(r) == UserKey(key)[..i] + [UserKey(key)[i] + 1]
  }

  /** InternalKeyComparator::FindShortSuccessor */
  method InternalSuccessor(key: seq<Byte>) returns (r: seq<Byte>)
    requires |key| >= 8
    ensures 8 <= |r| <= |key|
    ensures r == key || Less(UserKey(key), UserKey(r))
    ensures IsSuccessor(r, key)
  {
    hide LittleEndian, Less, UserKey, FromLittleEndian;
    var userKey := UserKey(key);
    UserKeyLength(key);
    var tmp := FindShortSuccessor(userKey);
    r := key;
    if |tmp| < |userKey| && Less(userKey, tmp) {
      InternalKeyParts(tmp, SEEK_TRAILER);
      r := InternalKey(tmp, SEEK_TRAILER);
    }
  }
}
