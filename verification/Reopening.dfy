/** Reopening a store from the bytes of its manifest and logs after a crash (db/db_impl.cc: Recover,
    RecoverLogFile; db/version_set.cc: Recover). */
module Reopening {
  import opened InternalKeys
  import opened Operations
  import opened Versions
  import opened VersionEdits
  import opened Builders
  import opened Coding
  import opened LogFormat
  import opened WriteBatches
  import opened LogRecovery
  import opened EditCodec
  import opened ManifestFiles
  import opened StateMachine
  import opened Safety
  import opened GroupCommit
  import opened CommitReads
  import opened CrashRecovery
  import opened Lives
  import opened ManifestSnapshot
  import Manifest
  import PendingCompactions

  /** How operations are written as bytes and read back. */
  datatype Codec = Codec(encode: Op -> ByteOp, decode: ByteOp -> Op)

  predicate SurvivesWriting(codec: Codec, op: Op) {
    codec.decode(codec.encode(op)) == op && Fits(codec.encode(op))
  }

  /** The operations of some records, of which there are few enough in each, survive being written and read. */
  ghost predicate Faithful(codec: Codec, rs: seq<Record>) {
    forall r :: r in rs ==> |r.ops| < TWO_TO_THE_32 && forall op :: op in r.ops ==> SurvivesWriting(codec, op)
  }

  function ByteOps(codec: Codec, ops: seq<Op>): (r: seq<ByteOp>)
    ensures |r| == |ops|
  {
    seq(|ops|, i requires 0 <= i < |ops| => codec.encode(ops[i]))
  }

  function BatchesOf(codec: Codec, rs: seq<Record>): (r: seq<Batch>)
    ensures |r| == |rs|
  {
    seq(|rs|, i requires 0 <= i < |rs| => Batch(rs[i].first, ByteOps(codec, rs[i].ops)))
  }

  /** The bytes of a log file with some records. */
  ghost function LogBytes(crc: Checksum, codec: Codec, rs: seq<Record>): seq<Byte> {
    EmitMany(crc, 0, Encodings(BatchesOf(codec, rs)))
  }

  /** The memtable entries that replayed operations become. */
  ghost function EntriesRead(codec: Codec, applied: seq<(nat, ByteOp)>): set<Entry> {
    set i | 0 <= i < |applied| :: EntryOf(codec.decode(applied[i].1), applied[i].0)
  }

  lemma ReadConcat(codec: Codec, a: seq<(nat, ByteOp)>, b: seq<(nat, ByteOp)>)
    ensures EntriesRead(codec, a + b) == EntriesRead(codec, a) + EntriesRead(codec, b)
  {
    forall e | e in EntriesRead(codec, a)
      ensures e in EntriesRead(codec, a + b)
    {
      var i :| 0 <= i < |a| && e == EntryOf(codec.decode(a[i].1), a[i].0);
      assert (a + b)[i] == a[i];
    }
    forall e | e in EntriesRead(codec, b)
      ensures e in EntriesRead(codec, a + b)
    {
      var i :| 0 <= i < |b| && e == EntryOf(codec.decode(b[i].1), b[i].0);
      assert (a + b)[|a| + i] == b[i];
    }
  }

  lemma BatchReadsBack(codec: Codec, ops: seq<Op>, first: nat)
    requires forall op :: op in ops ==> SurvivesWriting(codec, op)
    ensures EntriesRead(codec, Numbered(first, ByteOps(codec, ops))) == EntriesOf(ops, first)
  {
    var applied := Numbered(first, ByteOps(codec, ops));
    forall i | 0 <= i < |ops|
      ensures EntryOf(codec.decode(applied[i].1), applied[i].0) == EntryOf(ops[i], first + i)
    {
      assert ops[i] in ops;
    }
  }

  /** Replaying records gives their entries back. */
  lemma {:induction false} RecordsReadBack(codec: Codec, rs: seq<Record>)
    requires Faithful(codec, rs)
    ensures EntriesRead(codec, AllNumbered(BatchesOf(codec, rs))) == RecordEntries(rs)
  {
    hide SurvivesWriting, EntriesOf, EntriesRead, Numbered, ByteOps;
    if rs == [] {
      assert EntriesRead(codec, []) == {} by { NothingRead(codec); }
    } else {
      var n := |rs| - 1;
      assert rs[n] in rs;
      RecordsReadBack(codec, rs[..n]);
      assert BatchesOf(codec, rs)[..n] == BatchesOf(codec, rs[..n]);
      ReadConcat(codec, AllNumbered(BatchesOf(codec, rs[..n])), Numbered(rs[n].first, ByteOps(codec, rs[n].ops)));
      BatchReadsBack(codec, rs[n].ops, rs[n].first);
    }
  }

  lemma NothingRead(codec: Codec)
    ensures EntriesRead(codec, []) == {}
  {
  }

  // ----- What is on disk -----

  /** An edit carries the counters that LogAndApply stamped it with. */
  predicate StampedWith(e: Fields, s: Stamp) {
    && e.nextFile == Some(s.nextFile) && e.logNumber == Some(s.logNumber) && e.prevLogNumber == Some(0)
    && e.lastSequence == Some(s.lastSequence)
  }

  /** The manifest holds the snapshot record and all edits applied so far, whatever else was being written when
      the crash came; `open` gives the table that an entry names. */
  ghost predicate ManifestOnDisk(crc: Checksum, file: seq<Byte>, name: seq<Byte>, open: Meta -> File,
                                 records: seq<seq<Byte>>, es: seq<Fields>, a: Sys, stamps: seq<Stamp>)
  {
    var n := |a.manifest|;
    && AllLogged(records, es) && n <= |es| && file <= EmitMany(crc, 0, records)
    && |EmitMany(crc, 0, records[..n])| <= |file|
    && (n < |es| ==> |file| < |EmitMany(crc, 0, records[..n + 1])|)
    && EditsOf(es[..n], open) == a.manifest && AllNamed(es[..n], name)
    && n == |stamps| + 1 && forall i :: 0 <= i < |stamps| ==> StampedWith(es[i + 1], stamps[i])
  }

  /** The log files of the directory by number: obsolete ones with any contents that were not deleted yet, the
      whole log of a memtable that was being flushed, and the current log, which may be cut. */
  ghost predicate LogsOnDisk(crc: Checksum, dir: map<nat, seq<Byte>>, codec: Codec, c: Commit, marks: Marks)
  {
    && marks.replayFrom <= marks.memFrom <= |c.log|
    && (forall n :: n in dir ==> n in marks.obsolete + {marks.logNumber, marks.memLog})
    && marks.logNumber in dir && marks.memLog in dir
    && (c.sys.db.imm.Some? ==> dir[marks.logNumber] == LogBytes(crc, codec, c.log[marks.replayFrom..marks.memFrom]))
    && dir[marks.memLog] <= LogBytes(crc, codec, c.log[marks.memFrom..])
  }

  lemma EmitGrows(crc: Checksum, records: seq<seq<Byte>>, i: nat, j: nat)
    requires i <= j <= |records|
    ensures |EmitMany(crc, 0, records[..i])| <= |EmitMany(crc, 0, records[..j])|
    decreases j
  {
    hide EmitMany, Emit, EndOffsetMany;
    if i < j {
      EmitGrows(crc, records, i, j - 1);
      assert records[..j - 1] + [records[j - 1]] == records[..j];
      EmitOneMore(crc, 0, records[..j - 1], records[j - 1]);
    }
  }

  /** How many records are whole in a file is determined by its length. */
  lemma WholeIsUnique(crc: Checksum, records: seq<seq<Byte>>, length: nat, n: nat, m: nat)
    requires n <= |records| && m <= |records|
    requires |EmitMany(crc, 0, records[..n])| <= length && (n < |records| ==> length < |EmitMany(crc, 0, records[..n + 1])|)
    requires |EmitMany(crc, 0, records[..m])| <= length && (m < |records| ==> length < |EmitMany(crc, 0, records[..m + 1])|)
    ensures n == m
  {
    hide EmitMany;
    if n < m {
      EmitGrows(crc, records, n + 1, m);
    } else if m < n {
      EmitGrows(crc, records, m + 1, n);
    }
  }

  // ----- The version -----

  lemma LastStamp(es: seq<Fields>, s: Stamp)
    requires es != [] && StampedWith(es[|es| - 1], s)
    ensures Complete(LatestCounters(es))
    ensures RecoveredFrom(LatestCounters(es)) == Recovered(s.nextFile + 1, s.logNumber, 0, s.lastSequence)
  {
  }

  /** The part of Recover that reads the manifest: the version is the one the store had, the counters those it
      logged last. */
  method RecoverVersion(crc: Checksum, manifest: seq<Byte>, name: seq<Byte>, open: Meta -> File, ghost a: Sys,
                        ghost stamps: seq<Stamp>, ghost records: seq<seq<Byte>>, ghost es: seq<Fields>)
    returns (ok: bool, levels: Levels, recovered: Recovered)
    requires Inv(a) && stamps != [] && ManifestOnDisk(crc, manifest, name, open, records, es, a, stamps)
    ensures ok && levels == a.db.levels
    ensures var s := stamps[|stamps| - 1]; recovered == Recovered(s.nextFile + 1, s.logNumber, 0, s.lastSequence)
  {
    hide EmitMany, Inv, Manifest.Running, Manifest.Additions, Manifest.AddedOnce, EditsOf, AllLogged, LatestCounters,
         RecoveredFrom, Complete, AllNamed, StampedWith;
    ghost var whole;
    ghost var n := |a.manifest|;
    LastStamp(es[..n], stamps[|stamps| - 1]);
    SameCount(records, es);
    ok, levels, recovered, whole := ManifestFiles.Recover(crc, manifest, name, open, records, es);
    WholeIsUnique(crc, records, |manifest|, whole, n);
    ManifestOf(a);
  }

  lemma ManifestOf(a: Sys)
    requires Inv(a)
    ensures Manifest.AddedOnce(Manifest.Additions(a.manifest))
    ensures a.db.levels == Manifest.Running(Manifest.EMPTY_VERSION, a.manifest)
  {
    hide MemoryInv, HistoryInv, SnapshotInv, FileInv, PendingInv, AnswersInv, Manifest.Running, Manifest.Additions,
         Manifest.AddedOnce;
  }

  // ----- Which logs -----

  predicate Ascending(s: seq<nat>) {
    forall i, j :: 0 <= i < j < |s| ==> s[i] < s[j]
  }

  /** The logs to replay, oldest first: those not older than the one that the manifest names. */
  method LogsToReplay(dir: map<nat, seq<Byte>>, listing: seq<nat>, minLog: nat, prevLog: nat) returns (logs: seq<nat>)
    requires forall n :: n in listing <==> n in dir
    ensures Ascending(logs) && forall n :: n in logs <==> n in dir && (n >= minLog || n == prevLog)
  {
    logs := [];
    for i := 0 to |listing|
      invariant Ascending(logs) && forall n :: n in logs <==> n in listing[..i] && (n >= minLog || n == prevLog)
    {
      if listing[i] >= minLog || listing[i] == prevLog {
        logs := AddNumber(logs, listing[i]);
      }
    }
    assert listing[..|listing|] == listing;
  }

  method AddNumber(logs: seq<nat>, n: nat) returns (r: seq<nat>)
    requires Ascending(logs)
    ensures Ascending(r) && forall m :: m in r <==> m in logs || m == n
  {
    var i := 0;
    while i < |logs| && logs[i] < n
      invariant 0 <= i <= |logs| && forall j :: 0 <= j < i ==> logs[j] < n
    {
      i := i + 1;
    }
    if i < |logs| && logs[i] == n {
      r := logs;
    } else {
      r := logs[..i] + [n] + logs[i..];
    }
  }

  /** The logs at or above the recovered number are the one of the memtable being flushed, if there is one, and
      the current one. */
  lemma LogsAreThese(logs: seq<nat>, dir: map<nat, seq<Byte>>, c: Commit, marks: Marks)
    requires FileLayout(c, marks) && Ascending(logs)
    requires forall n :: n in dir ==> n in marks.obsolete + {marks.logNumber, marks.memLog}
    requires marks.logNumber in dir && marks.memLog in dir
    requires forall n :: n in logs <==> n in dir && (n >= marks.logNumber || n == 0)
    ensures logs == if c.sys.db.imm.None? then [marks.memLog] else [marks.logNumber, marks.memLog]
  {
    hide StampInv, EndNumber, LogOf;
    SameAscending(logs, if c.sys.db.imm.None? then [marks.memLog] else [marks.logNumber, marks.memLog]);
  }

  lemma {:induction false} SameAscending(a: seq<nat>, b: seq<nat>)
    requires Ascending(a) && Ascending(b) && forall n :: n in a <==> n in b
    ensures a == b
  {
    EmptyTogether(a, b);
    if a != [] {
      LastIsGreatest(a);
      LastIsGreatest(b);
      SameFronts(a, b, a[..|a| - 1], b[..|b| - 1], a[|a| - 1], b[|b| - 1]);
      SameAscending(a[..|a| - 1], b[..|b| - 1]);
      assert a == a[..|a| - 1] + [a[|a| - 1]] && b == b[..|b| - 1] + [b[|b| - 1]];
    }
  }

  lemma EmptyTogether(a: seq<nat>, b: seq<nat>)
    requires forall n :: n in a <==> n in b
    ensures a == [] <==> b == []
  {
    if a != [] {
      assert a[0] in b;
    }
    if b != [] {
      assert b[0] in a;
    }
  }

  lemma SameFronts(a: seq<nat>, b: seq<nat>, a': seq<nat>, b': seq<nat>, x: nat, y: nat)
    requires forall n :: n in a <==> n in b
    requires x in a && y in b && (forall n :: n in a ==> n <= x) && forall n :: n in b ==> n <= y
    requires (forall n :: n in a' <==> n in a && n < x) && forall n :: n in b' <==> n in b && n < y
    ensures x == y && forall n :: n in a' <==> n in b'
  {
  }

  lemma LastIsGreatest(a: seq<nat>)
    requires Ascending(a) && a != []
    ensures Ascending(a[..|a| - 1]) && a[|a| - 1] in a
    ensures forall n :: n in a[..|a| - 1] <==> n in a && n < a[|a| - 1]
    ensures forall n :: n in a ==> n <= a[|a| - 1]
  {
    var last := |a| - 1;
    forall n | n in a
      ensures n == a[last] || (n < a[last] && n in a[..last])
    {
      var i :| 0 <= i < |a| && a[i] == n;
      assert i < last ==> a[..last][i] == n;
    }
  }

  // ----- Replaying -----

  /** Records that can be logged and read back. */
  ghost predicate Writable(codec: Codec, rs: seq<Record>) {
    && Rising(rs) && Faithful(codec, rs)
    && forall i :: 0 <= i < |rs| ==> 1 <= rs[i].first && rs[i].first + |rs[i].ops| < MAX_SEQUENCE
  }

  lemma StartsAtOne(rs: seq<Record>, j: nat)
    requires Rising(rs) && j < |rs|
    ensures rs[j].first >= 1
  {
    hide EndNumber;
    RisingFront(rs, j);
    RecordsAct(rs[..j]);
    assert EndNumber(rs[..j]) <= rs[j].first;
  }

  /** Parts of a rising log rise, to the same end. */
  lemma RisingPart(rs: seq<Record>, i: nat, j: nat)
    requires Rising(rs) && i <= j <= |rs|
    ensures Rising(rs[i..j]) && (i < j ==> EndNumber(rs[i..j]) == EndNumber(rs[..j]))
    ensures forall k :: 0 <= k < j - i ==> rs[i..j][k].first >= 1
  {
    var part := rs[i..j];
    forall k | 0 <= k < |part|
      ensures EndNumber(part[..k]) <= part[k].first && part[k].first >= 1
    {
      StartsAtOne(rs, i + k);
      assert part[k] == rs[i + k];
      if k > 0 {
        assert part[..k][k - 1] == rs[..i + k][i + k - 1];
        assert EndNumber(part[..k]) == EndNumber(rs[..i + k]);
      }
    }
    if i < j {
      assert part[|part| - 1] == rs[..j][j - 1];
    }
  }

  lemma PartIsWritable(c: Commit, codec: Codec, from: nat, i: nat, j: nat)
    requires CommitInv(c) && from <= i <= j <= |c.log| && Faithful(codec, c.log[from..])
    ensures Writable(codec, c.log[i..j])
  {
    hide CommitInv, EndNumber, SurvivesWriting;
    WholeLogRises(c);
    RisingPart(c.log, i, j);
    forall r | r in c.log[i..j]
      ensures r in c.log[from..]
    {
      var k :| i <= k < j && c.log[k] == r;
      assert c.log[from..][k - from] == r;
    }
  }

  lemma WritableIsLoggable(codec: Codec, rs: seq<Record>)
    requires Writable(codec, rs)
    ensures forall i :: 0 <= i < |rs| ==> Loggable(BatchesOf(codec, rs)[i])
  {
    hide Rising, SurvivesWriting;
    forall i | 0 <= i < |rs|
      ensures Loggable(BatchesOf(codec, rs)[i])
    {
      assert rs[i] in rs;
      OpsFit(codec, rs[i].ops);
    }
  }

  lemma OpsFit(codec: Codec, ops: seq<Op>)
    requires forall op :: op in ops ==> SurvivesWriting(codec, op)
    ensures AllFit(ByteOps(codec, ops))
  {
    forall i | 0 <= i < |ops|
      ensures Fits(ByteOps(codec, ops)[i])
    {
      assert ops[i] in ops;
    }
  }

  /** The highest number replayed is that of the end. */
  lemma {:induction false} HighestIsEnd(codec: Codec, rs: seq<Record>)
    requires Rising(rs)
    ensures EndNumber(rs) >= 1 && Highest(BatchesOf(codec, rs)) == EndNumber(rs) - 1
  {
    hide Rising, EndNumber, ByteOps;
    if rs == [] {
      EmptyLogRises();
    } else {
      var init, r := rs[..|rs| - 1], rs[|rs| - 1];
      assert rs == init + [r];
      RisingFront(rs, |init|);
      HighestIsEnd(codec, init);
      LastRises(rs);
      LastEnds(init, r);
      assert BatchesOf(codec, rs)[..|init|] == BatchesOf(codec, init);
    }
  }

  /** Operations in the order of their numbers. */
  ghost predicate Numbers(applied: seq<(nat, ByteOp)>, from: nat, to: nat) {
    && (forall i :: 0 <= i < |applied| ==> from <= applied[i].0 < to)
    && (forall i, j :: 0 <= i < j < |applied| ==> applied[i].0 < applied[j].0)
  }

  lemma NumbersJoin(a: seq<(nat, ByteOp)>, b: seq<(nat, ByteOp)>, from: nat, mid: nat, to: nat)
    requires Numbers(a, from, mid) && Numbers(b, mid, to) && from <= mid <= to
    ensures Numbers(a + b, from, to)
  {
  }

  /** Replayed operations come in the order of their numbers. */
  lemma {:induction false} ReplayedInOrder(codec: Codec, rs: seq<Record>, from: nat)
    requires Rising(rs) && (rs == [] || from <= rs[0].first) && from >= 1
    ensures Numbers(AllNumbered(BatchesOf(codec, rs)), from, if rs == [] then from else EndNumber(rs))
    ensures rs != [] ==> from <= EndNumber(rs)
  {
    hide Rising, EndNumber, ByteOps, Numbers;
    if rs == [] {
      assert Numbers([], from, from) by { NoNumbers(from); }
    } else {
      var init, r := rs[..|rs| - 1], rs[|rs| - 1];
      assert rs == init + [r];
      RisingFront(rs, |init|);
      ReplayedInOrder(codec, init, from);
      LastRises(rs);
      LastEnds(init, r);
      assert BatchesOf(codec, rs)[..|init|] == BatchesOf(codec, init);
      var mid := if init == [] then from else EndNumber(init);
      BatchInOrder(codec, r, mid);
      NumbersJoin(AllNumbered(BatchesOf(codec, init)), Numbered(r.first, ByteOps(codec, r.ops)), from, mid,
                  r.first + |r.ops|);
    }
  }

  lemma NoNumbers(from: nat)
    ensures Numbers([], from, from)
  {
  }

  lemma BatchInOrder(codec: Codec, r: Record, from: nat)
    requires from <= r.first
    ensures Numbers(Numbered(r.first, ByteOps(codec, r.ops)), from, r.first + |r.ops|)
  {
  }

  /** Replaying one log file gives back the operations of the records that are wholly in it. */
  method ReplayFile(crc: Checksum, file: seq<Byte>, ghost codec: Codec, ghost rs: seq<Record>)
    returns (ok: bool, applied: seq<(nat, ByteOp)>, maxSequence: nat, ghost whole: nat)
    requires Writable(codec, rs) && file <= LogBytes(crc, codec, rs)
    ensures ok && whole <= |rs| && applied == AllNumbered(BatchesOf(codec, rs[..whole]))
    ensures |LogBytes(crc, codec, rs[..whole])| <= |file|
    ensures whole < |rs| ==> |LogBytes(crc, codec, rs[..whole + 1])| > |file|
    ensures maxSequence + 1 == EndNumber(rs[..whole])
  {
    hide SurvivesWriting, EmitMany, Encodings, Highest, AllNumbered, Loggable, IsHighest, EndNumber, ByteOps;
    ghost var batches := BatchesOf(codec, rs);
    WritableIsLoggable(codec, rs);
    ok, applied, maxSequence, whole := ReplayLog(crc, file, batches);
    assert batches[..whole] == BatchesOf(codec, rs[..whole]);
    if whole < |rs| {
      assert batches[..whole + 1] == BatchesOf(codec, rs[..whole + 1]);
    }
    RisingFront(rs, whole);
    HighestIsEnd(codec, rs[..whole]);
  }

  /** A whole file has all its records. */
  lemma WholeFile(crc: Checksum, codec: Codec, rs: seq<Record>, whole: nat)
    requires whole <= |rs|
    requires whole < |rs| ==> |LogBytes(crc, codec, rs[..whole + 1])| > |LogBytes(crc, codec, rs)|
    ensures whole == |rs|
  {
    hide EmitMany, Contents;
    if whole < |rs| {
      var all := Encodings(BatchesOf(codec, rs));
      assert all[..whole + 1] == Encodings(BatchesOf(codec, rs[..whole + 1]));
      assert all[..|rs|] == all;
      EmitGrows(crc, all, whole + 1, |rs|);
    }
  }

  // ----- Replaying all logs -----

  /** The part of the log that a log file holds. */
  ghost function PartOf(c: Commit, marks: Marks, log: nat): seq<Record>
    requires marks.replayFrom <= marks.memFrom <= |c.log|
  {
    if log == marks.memLog then c.log[marks.memFrom..] else c.log[marks.replayFrom..marks.memFrom]
  }

  /** How much of the log has been replayed when `left` are the logs still to be replayed. */
  ghost function Reached(marks: Marks, left: seq<nat>, whole: nat): nat {
    if left == [] then whole else if left[0] == marks.memLog then marks.memFrom else marks.replayFrom
  }

  method ReplayLogs(crc: Checksum, dir: map<nat, seq<Byte>>, logs: seq<nat>, ghost codec: Codec, ghost c: Commit,
                    ghost marks: Marks)
    returns (ok: bool, applied: seq<(nat, ByteOp)>, maxSequence: nat, ghost whole: nat)
    requires CommitInv(c) && LayoutInv(c, marks) && LogsOnDisk(crc, dir, codec, c, marks)
    requires Faithful(codec, c.log[marks.replayFrom..])
    requires logs == if c.sys.db.imm.None? then [marks.memLog] else [marks.logNumber, marks.memLog]
    ensures ok && marks.replayFrom <= marks.memFrom <= whole <= |c.log|
    ensures |LogBytes(crc, codec, c.log[marks.memFrom..whole])| <= |dir[marks.memLog]|
    ensures whole < |c.log| ==> |LogBytes(crc, codec, c.log[marks.memFrom..whole + 1])| > |dir[marks.memLog]|
    ensures applied == AllNumbered(BatchesOf(codec, c.log[marks.replayFrom..whole]))
    ensures maxSequence + 1 == EndNumber(c.log[marks.replayFrom..whole])
  {
    hide CommitInv, LayoutInv, Faithful, LogBytes, AllNumbered, BatchesOf, EndNumber, Writable;
    ok, applied, maxSequence, whole := true, [], 0, marks.replayFrom;
    LogNumbers(c, marks);
    NothingNumbered(codec);
    assert c.log[marks.replayFrom..marks.replayFrom] == [];
    EmptyLogRises();
    for i := 0 to |logs|
      invariant ok && marks.replayFrom <= whole <= |c.log| && whole == Reached(marks, logs[i..], whole)
      invariant applied == AllNumbered(BatchesOf(codec, c.log[marks.replayFrom..whole]))
      invariant maxSequence + 1 == EndNumber(c.log[marks.replayFrom..whole])
      invariant i == |logs| ==>
                  && marks.memFrom <= whole
                  && |LogBytes(crc, codec, c.log[marks.memFrom..whole])| <= |dir[marks.memLog]|
                  && (whole < |c.log| ==>
                        |LogBytes(crc, codec, c.log[marks.memFrom..whole + 1])| > |dir[marks.memLog]|)
    {
      ghost var before, part := whole, PartOf(c, marks, logs[i]);
      assert Writable(codec, part) by {
        PartIsWritable(c, codec, marks.replayFrom, marks.memFrom, |c.log|);
        PartIsWritable(c, codec, marks.replayFrom, marks.replayFrom, marks.memFrom);
        assert c.log[marks.memFrom..|c.log|] == c.log[marks.memFrom..];
      }
      ghost var n;
      var replayed, ops, max: nat;
      replayed, ops, max, n := ReplayFile(crc, dir[logs[i]], codec, part);
      ok, applied := replayed, applied + ops;
      ghost var was := maxSequence;
      maxSequence := Max(maxSequence, max);
      if logs[i] != marks.memLog {
        WholeFile(crc, codec, part, n);
      }
      whole := before + n;
      assert part[..n] == c.log[before..whole];
      if logs[i] == marks.memLog && n < |part| {
        assert part[..n + 1] == c.log[marks.memFrom..whole + 1];
      }
      JoinedParts(c, codec, marks.replayFrom, before, whole, was, max);
    }
  }

  lemma LogNumbers(c: Commit, marks: Marks)
    requires LayoutInv(c, marks)
    ensures c.sys.db.imm.Some? ==> marks.logNumber != marks.memLog
    ensures c.sys.db.imm.None? ==> marks.replayFrom == marks.memFrom
  {
    hide StampInv, EndNumber, LogOf, RecordEntries, VersionEntries, Elements;
  }

  lemma NothingNumbered(codec: Codec)
    ensures AllNumbered(BatchesOf(codec, [])) == []
  {
  }

  /** Two consecutive parts of the log as one. */
  lemma JoinedParts(c: Commit, codec: Codec, i: nat, j: nat, k: nat, a: nat, b: nat)
    requires CommitInv(c) && i <= j <= k <= |c.log|
    requires a + 1 == EndNumber(c.log[i..j]) && b + 1 == EndNumber(c.log[j..k])
    ensures AllNumbered(BatchesOf(codec, c.log[i..k]))
         == AllNumbered(BatchesOf(codec, c.log[i..j])) + AllNumbered(BatchesOf(codec, c.log[j..k]))
    ensures Max(a, b) + 1 == EndNumber(c.log[i..k])
  {
    hide CommitInv, EndNumber, Rising, AllNumbered, BatchesOf;
    WholeLogRises(c);
    RisingPart(c.log, i, j);
    RisingPart(c.log, j, k);
    RisingPart(c.log, i, k);
    EndGrows(c.log, j, k);
    EmptyLogRises();
    assert c.log[i..k] == c.log[i..j] + c.log[j..k];
    if j == k {
      assert c.log[j..k] == [];
      assert c.log[i..k] == c.log[i..j];
      EndIsPositive(c.log[i..j]);
    } else if i == j {
      assert c.log[i..j] == [];
      EndIsPositive(c.log[j..k]);
    }
    NumberedConcat(codec, c.log[i..j], c.log[j..k]);
  }

  lemma EndIsPositive(rs: seq<Record>)
    requires Rising(rs)
    ensures EndNumber(rs) >= 1
  {
    hide Rising, EndNumber;
    RecordsAct(rs);
  }

  lemma {:induction false} NumberedConcat(codec: Codec, a: seq<Record>, b: seq<Record>)
    ensures AllNumbered(BatchesOf(codec, a + b)) == AllNumbered(BatchesOf(codec, a)) + AllNumbered(BatchesOf(codec, b))
    decreases |b|
  {
    hide ByteOps, Numbered, AllNumbered, BatchesOf;
    if b == [] {
      assert a + b == a;
      NothingNumbered(codec);
    } else {
      var init, r := b[..|b| - 1], b[|b| - 1];
      assert b == init + [r] && a + b == (a + init) + [r];
      NumberedConcat(codec, a, init);
      OneMoreNumbered(codec, a + init, r);
      OneMoreNumbered(codec, init, r);
    }
  }

  lemma OneMoreNumbered(codec: Codec, rs: seq<Record>, r: Record)
    ensures AllNumbered(BatchesOf(codec, rs + [r]))
         == AllNumbered(BatchesOf(codec, rs)) + Numbered(r.first, ByteOps(codec, r.ops))
  {
    hide ByteOps, Numbered;
    assert BatchesOf(codec, rs + [r])[..|rs|] == BatchesOf(codec, rs);
  }

  function Max(a: nat, b: nat): nat {
    if a < b then b else a
  }

  // ----- The recovery tables -----

  /** Files of replayed entries, oldest first, with numbers from `from` on. */
  ghost predicate Flushed(files: seq<File>, entries: set<Entry>, from: nat, next: nat, bound: nat) {
    && AllWellFormed(files) && FileEntries(files) == entries && from <= next
    && (forall i :: 0 <= i < |files| ==> from <= files[i].number < next)
    && (forall i, j :: 0 <= i < j < |files| ==> files[i].number < files[j].number && FileNewer(files[j], files[i]))
    && (forall e :: e in entries ==> e.Seq() < bound)
  }

  lemma FlushedMore(files: seq<File>, entries: set<Entry>, from: nat, next: nat, bound: nat, f: File, bound': nat)
    requires Flushed(files, entries, from, next, bound) && WellFormed(f) && f.number == next && bound <= bound'
    requires forall e :: e in f.entries ==> bound <= e.Seq() < bound'
    ensures Flushed(files + [f], entries + Elements(f.entries), from, next + 1, bound')
  {
    var more := files + [f];
    forall e | e in FileEntries(more)
      ensures e in entries + Elements(f.entries)
    {
      var g :| g in more && e in g.entries;
      assert g in files || g == f;
    }
    forall e | e in entries + Elements(f.entries)
      ensures e in FileEntries(more)
    {
      if e in f.entries {
        assert f in more;
      } else {
        var g :| g in files && e in g.entries;
        assert g in more;
      }
    }
    forall i | 0 <= i < |files|
      ensures FileNewer(f, files[i])
    {
      forall e | e in files[i].entries
        ensures e.Seq() < bound
      {
        assert files[i] in files && e in FileEntries(files);
      }
    }
  }

  /** RecoverLogFile's use of WriteLevel0Table: replayed operations go to a memtable, which becomes a table of
      level 0 when it is full and at the end. */
  method FlushReplayed(applied: seq<(nat, ByteOp)>, codec: Codec, full: nat -> bool, sizes: nat -> nat, from: nat,
                       ghost first: nat, ghost end: nat)
    returns (files: seq<File>, next: nat)
    requires Numbers(applied, first, end) && end <= MAX_SEQUENCE
    ensures Flushed(files, EntriesRead(codec, applied), from, next, end)
  {
    hide Flushed, EntriesRead, Numbers, InsertSorted, WellFormed;
    var mem: seq<Entry> := [];
    files, next := [], from;
    ghost var flushed: nat := 0;
    NothingFlushed(codec, from, first);
    assert applied[..0] == [] && applied[0..0] == [];
    for i := 0 to |applied|
      invariant flushed <= i && Sorted(mem) && Elements(mem) == EntriesRead(codec, applied[flushed..i])
      invariant Flushed(files, EntriesRead(codec, applied[..flushed]), from, next, StartOf(applied, flushed, end))
    {
      var e := EntryOf(codec.decode(applied[i].1), applied[i].0);
      OneMoreRead(codec, applied, flushed, i, first, end, mem);
      mem := InsertSorted(mem, e);
      if full(i) {
        files, next := WriteLevel0Table(files, next, sizes(|files|), mem, applied, codec, flushed, i + 1, from, first, end);
        mem := [];
        flushed := i + 1;
        assert applied[i + 1..i + 1] == [];
        NothingRead(codec);
      }
    }
    assert applied[..|applied|] == applied;
    if mem != [] {
      files, next := WriteLevel0Table(files, next, sizes(|files|), mem, applied, codec, flushed, |applied|, from, first, end);
    } else {
      NothingLeft(codec, applied, flushed, files, from, next, end);
    }
  }

  /** The number of the next operation. */
  ghost function StartOf(applied: seq<(nat, ByteOp)>, i: nat, end: nat): nat
    requires i <= |applied|
  {
    if i == |applied| then end else applied[i].0
  }

  lemma NothingFlushed(codec: Codec, from: nat, bound: nat)
    ensures EntriesRead(codec, []) == {} && Sorted([]) && Elements([]) == {}
    ensures forall b: nat :: Flushed([], {}, from, from, b)
  {
  }

  lemma OneMoreRead(codec: Codec, applied: seq<(nat, ByteOp)>, flushed: nat, i: nat, first: nat, end: nat, mem: seq<Entry>)
    requires Numbers(applied, first, end) && flushed <= i < |applied|
    requires Sorted(mem) && Elements(mem) == EntriesRead(codec, applied[flushed..i])
    ensures var e := EntryOf(codec.decode(applied[i].1), applied[i].0);
            && Sorted(InsertSorted(mem, e)) && InsertSorted(mem, e) != []
            && Elements(InsertSorted(mem, e)) == EntriesRead(codec, applied[flushed..i + 1])
  {
    hide InsertSorted, Sorted;
    var e := EntryOf(codec.decode(applied[i].1), applied[i].0);
    forall x | x in mem
      ensures x.ikey != e.ikey
    {
      assert x in Elements(mem);
      var j :| 0 <= j < i - flushed
        && x == EntryOf(codec.decode(applied[flushed..i][j].1), applied[flushed..i][j].0);
      assert applied[flushed..i][j] == applied[flushed + j];
    }
    InsertKeepsSorted(mem, e);
    assert applied[flushed..i + 1] == applied[flushed..i] + [applied[i]];
    ReadConcat(codec, applied[flushed..i], [applied[i]]);
    assert EntriesRead(codec, [applied[i]]) == {e} by { OneRead(codec, applied[i]); }
    assert e in Elements(InsertSorted(mem, e));
  }

  lemma OneRead(codec: Codec, a: (nat, ByteOp))
    ensures EntriesRead(codec, [a]) == {EntryOf(codec.decode(a.1), a.0)}
  {
    assert [a][0] == a;
  }

  method WriteLevel0Table(files: seq<File>, next: nat, size: nat, mem: seq<Entry>, ghost applied: seq<(nat, ByteOp)>,
                          ghost codec: Codec, ghost i: nat, ghost j: nat, ghost from: nat, ghost first: nat,
                          ghost end: nat)
    returns (r: seq<File>, next': nat)
    requires Numbers(applied, first, end) && i <= j <= |applied| && end <= MAX_SEQUENCE
    requires mem != [] && Sorted(mem) && Elements(mem) == EntriesRead(codec, applied[i..j])
    requires Flushed(files, EntriesRead(codec, applied[..i]), from, next, StartOf(applied, i, end))
    ensures Flushed(r, EntriesRead(codec, applied[..j]), from, next', StartOf(applied, j, end))
  {
    hide Flushed, EntriesRead, Numbers, Sorted;
    var f := File(next, size, mem[0].ikey, mem[|mem| - 1].ikey, mem);
    r, next' := files + [f], next + 1;
    ReadBounds(codec, applied, i, j, first, end);
    assert mem[|mem| - 1] in Elements(mem);
    assert WellFormed(f);
    FlushedMore(files, EntriesRead(codec, applied[..i]), from, next, StartOf(applied, i, end), f, StartOf(applied, j, end));
    assert applied[..j] == applied[..i] + applied[i..j];
    ReadConcat(codec, applied[..i], applied[i..j]);
  }

  lemma ReadBounds(codec: Codec, applied: seq<(nat, ByteOp)>, i: nat, j: nat, first: nat, end: nat)
    requires Numbers(applied, first, end) && i <= j <= |applied|
    ensures StartOf(applied, i, end) <= StartOf(applied, j, end) <= end
    ensures forall e :: e in EntriesRead(codec, applied[i..j]) ==> StartOf(applied, i, end) <= e.Seq() < StartOf(applied, j, end)
  {
    forall e | e in EntriesRead(codec, applied[i..j])
      ensures StartOf(applied, i, end) <= e.Seq() < StartOf(applied, j, end)
    {
      var k :| 0 <= k < j - i && e == EntryOf(codec.decode(applied[i..j][k].1), applied[i..j][k].0);
      assert applied[i..j][k] == applied[i + k];
    }
  }

  lemma SomethingRead(codec: Codec, applied: seq<(nat, ByteOp)>)
    ensures applied != [] ==> EntriesRead(codec, applied) != {}
  {
    if applied != [] {
      assert EntryOf(codec.decode(applied[0].1), applied[0].0) in EntriesRead(codec, applied);
    }
  }

  lemma NothingLeft(codec: Codec, applied: seq<(nat, ByteOp)>, i: nat, files: seq<File>, from: nat, next: nat, end: nat)
    requires i <= |applied| && EntriesRead(codec, applied[i..]) == {}
    requires Flushed(files, EntriesRead(codec, applied[..i]), from, next, StartOf(applied, i, end))
    ensures Flushed(files, EntriesRead(codec, applied), from, next, end)
  {
    SomethingRead(codec, applied[i..]);
    assert applied[..i] + applied[i..] == applied;
    ReadConcat(codec, applied[..i], applied[i..]);
  }

  // ----- DB::Open -----

  /** Recover, from the logs on: the recovery tables, the last sequence number, and the number of a new log. */
  method RecoverLogs(crc: Checksum, dir: map<nat, seq<Byte>>, listing: seq<nat>, recovered: Recovered, codec: Codec,
                     full: nat -> bool, sizes: nat -> nat, ghost c: Commit, ghost marks: Marks)
    returns (ok: bool, files: seq<File>, lastSequence: nat, newLog: nat, ghost whole: nat)
    requires CommitInv(c) && LayoutInv(c, marks) && LogsOnDisk(crc, dir, codec, c, marks)
    requires Faithful(codec, c.log[marks.replayFrom..]) && forall n :: n in listing <==> n in dir
    requires marks.stamps != []
    requires var s := marks.stamps[|marks.stamps| - 1];
             recovered == Recovered(s.nextFile + 1, s.logNumber, 0, s.lastSequence)
    ensures ok && Reopenable(c, marks, whole, files, newLog) && lastSequence == LastReplayed(marks, c.log[..whole])
    ensures |LogBytes(crc, codec, c.log[marks.memFrom..whole])| <= |dir[marks.memLog]|
    ensures whole < |c.log| ==> |LogBytes(crc, codec, c.log[marks.memFrom..whole + 1])| > |dir[marks.memLog]|
  {
    hide CommitInv, LayoutInv, SurvivesWriting, LogBytes, EndNumber, AllNumbered, BatchesOf, Numbers, Flushed,
         HoldsReplayed, LastReplayed, RecordEntries, EntriesRead, Rising;
    StampNumber(c, marks);
    var logs := LogsToReplay(dir, listing, recovered.logNumber, recovered.prevLogNumber);
    assert FileLayout(c, marks) by { FilesOf(c, marks); }
    LogsAreThese(logs, dir, c, marks);
    var applied, maxSequence;
    ok, applied, maxSequence, whole := ReplayLogs(crc, dir, logs, codec, c, marks);
    ghost var end := ReplayedPart(c, marks, codec, whole, maxSequence);
    var next;
    files, next := FlushReplayed(applied, codec, full, sizes, recovered.nextFile, 1, end);
    newLog := next;
    for i := 0 to |logs|
      invariant newLog >= next && forall j :: 0 <= j < i ==> logs[j] < newLog
    {
      newLog := MarkFileNumberUsed(newLog, logs[i]);
    }
    assert logs[|logs| - 1] == marks.memLog;
    FlushedIsReplayed(files, RecordEntries(c.log[marks.replayFrom..whole]), recovered.nextFile, next, end, newLog);
    LevelsAreSeven(c);
    lastSequence := Max(recovered.lastSequence, maxSequence);
    LastIsMax(c, marks, whole, maxSequence);
  }

  lemma FilesOf(c: Commit, marks: Marks)
    requires LayoutInv(c, marks)
    ensures FileLayout(c, marks)
  {
    hide FileLayout, MemLayout;
  }

  lemma LevelsAreSeven(c: Commit)
    requires CommitInv(c)
    ensures |c.sys.db.levels| == NUM_LEVELS
  {
    hide CommitInv, Inv;
    StoreInv(c);
    PendingCompactions.StateFacts(c.sys);
  }

  lemma StampNumber(c: Commit, marks: Marks)
    requires LayoutInv(c, marks) && marks.stamps != []
    ensures marks.stamps[|marks.stamps| - 1].logNumber == marks.logNumber
  {
    hide MemLayout, EndNumber, LogOf, NumbersBelow;
  }

  /** What the replayed part of the log gives. */
  lemma ReplayedPart(c: Commit, marks: Marks, codec: Codec, whole: nat, max: nat) returns (end: nat)
    requires CommitInv(c) && marks.replayFrom <= whole <= |c.log| && Faithful(codec, c.log[marks.replayFrom..])
    requires max + 1 == EndNumber(c.log[marks.replayFrom..whole])
    ensures end <= MAX_SEQUENCE && Numbers(AllNumbered(BatchesOf(codec, c.log[marks.replayFrom..whole])), 1, end)
    ensures EntriesRead(codec, AllNumbered(BatchesOf(codec, c.log[marks.replayFrom..whole])))
         == RecordEntries(c.log[marks.replayFrom..whole])
  {
    hide CommitInv, SurvivesWriting, EndNumber, AllNumbered, BatchesOf, Numbers, RecordEntries, EntriesRead, Rising;
    var rs := c.log[marks.replayFrom..whole];
    PartIsWritable(c, codec, marks.replayFrom, marks.replayFrom, whole);
    RecordsReadBack(codec, rs);
    ReplayedInOrder(codec, rs, 1);
    end := if rs == [] then 1 else EndNumber(rs);
    WholeLogRises(c);
    RisingPart(c.log, marks.replayFrom, whole);
    EndIsBelow(c.log, whole);
  }

  lemma FlushedIsReplayed(files: seq<File>, entries: set<Entry>, from: nat, next: nat, bound: nat, newLog: nat)
    requires Flushed(files, entries, from, next, bound) && next <= newLog
    ensures HoldsReplayed(files, entries, from, newLog) && from <= newLog
  {
    hide AllWellFormed, FileEntries, FileNewer;
  }

  lemma LastIsMax(c: Commit, marks: Marks, whole: nat, max: nat)
    requires CommitInv(c) && LayoutInv(c, marks) && marks.stamps != [] && marks.replayFrom <= whole <= |c.log|
    requires max + 1 == EndNumber(c.log[marks.replayFrom..whole])
    ensures LastReplayed(marks, c.log[..whole]) == Max(marks.stamps[|marks.stamps| - 1].lastSequence, max)
  {
    hide CommitInv, LayoutInv, EndNumber, Rising, LogOf;
    StampBounds(c, marks);
    LogStarts(c);
    WholeLogRises(c);
    RisingPart(c.log, marks.replayFrom, whole);
    EmptyLogRises();
    if whole == marks.replayFrom {
      assert c.log[marks.replayFrom..whole] == [];
      assert c.log[..whole] == LogOf(c.groups)[..whole];
    }
  }

  /** LogAndApply on the recovered version, into a new manifest. */
  method ApplyRecovered(levels: Levels, files: seq<File>) returns (levels': Levels, manifest: seq<Edit>)
    requires |levels| == NUM_LEVELS && forall l :: 0 <= l < NUM_LEVELS ==> InBuilderOrder(levels[l])
    ensures levels' == ApplyEdit(levels, AddingEdit({}, 0, files))
    ensures manifest == [SnapshotEdit(levels), AddingEdit({}, 0, files)]
  {
    hide Merge, Builders.Live, AddedAfter, DeletedAfter, InBuilderOrder, SnapshotEdit;
    var e := AddingEdit({}, 0, files);
    AddingEditIsValid(files);
    var snapshot := BuildSnapshotEdit(levels);
    var builder := new Builder(levels);
    builder.Apply(e);
    levels' := builder.SaveTo();
    manifest := [snapshot, e];
    assert levels' == ApplyEdit(levels, e);
  }

  /** Crash safety end to end. After any life of a store, from the manifest as it was last applied, the log of a
      memtable being flushed and the current log cut at any byte, opening makes the reborn store of the records
      that are wholly there. It satisfies the whole invariant, and reads answer as the operations up to the cut,
      exactly when reopening answers right there. */
  method Reopen(crc: Checksum, manifest: seq<Byte>, dir: map<nat, seq<Byte>>, listing: seq<nat>, name: seq<Byte>,
                open: Meta -> File, codec: Codec, full: nat -> bool, sizes: nat -> nat, ghost run: seq<Live>,
                ghost records: seq<seq<Byte>>, ghost es: seq<Fields>)
    returns (ok: bool, levels: Levels, edits: seq<Edit>, lastSequence: nat, newLog: nat, ghost whole: nat,
             ghost files: seq<File>)
    requires Life(run) && forall n :: n in listing <==> n in dir
    requires var a := run[|run| - 1];
             && ManifestOnDisk(crc, manifest, name, open, records, es, a.c.sys, a.marks.stamps)
             && LogsOnDisk(crc, dir, codec, a.c, a.marks) && Faithful(codec, a.c.log[a.marks.replayFrom..])
    ensures ok && Reopenable(run[|run| - 1].c, run[|run| - 1].marks, whole, files, newLog)
    // The records counted are exactly those that are wholly in the current log.
    ensures var a := run[|run| - 1];
            && |LogBytes(crc, codec, a.c.log[a.marks.memFrom..whole])| <= |dir[a.marks.memLog]|
            && (whole < |a.c.log| ==>
                  |LogBytes(crc, codec, a.c.log[a.marks.memFrom..whole + 1])| > |dir[a.marks.memLog]|)
    ensures var a := run[|run| - 1];
            var b := Reborn(a.c, a.marks, whole, files, newLog);
            && b.sys.db.levels == levels && b.sys.manifest == edits && b.sys.db.lastSequence == lastSequence
            && b.sys.db.nextFile == newLog + 1
            && (CommitInv(b) <==> ReopensAs(a.c, a.marks, whole))
    ensures var a := run[|run| - 1];
            && (LogKept(a.c, a.marks) ==> ReopensAs(a.c, a.marks, whole))
            && (ReopensAs(a.c, a.marks, whole) ==>
                  forall k :: Read(VersionEntries(levels), k, lastSequence) == AfterOps(LogOps(a.c.log[..whole]), k, None))
    // No value is lost in any case.
    ensures forall k :: AfterOps(LogOps(run[|run| - 1].c.log[..whole]), k, None).Some? ==>
              Read(VersionEntries(levels), k, lastSequence) == AfterOps(LogOps(run[|run| - 1].c.log[..whole]), k, None)
  {
    hide CommitInv, LayoutInv, Life, ManifestOnDisk, LogsOnDisk, Faithful, LogBytes, Reopenable, Reborn, LogKept,
         ReopensAs, LastReplayed, Inv, Read, AfterOps, LogOps, VersionEntries, SnapshotEdit, AddingEdit, ApplyEdit,
         InBuilderOrder, ValuesKept;
    LastOfLife(run);
    ghost var c, marks := run[|run| - 1].c, run[|run| - 1].marks;
    LifeKeepsInv(run, |run| - 1);
    StoreInv(c);
    StampBounds(c, marks);
    var recovered;
    ok, levels, recovered := RecoverVersion(crc, manifest, name, open, c.sys, marks.stamps, records, es);
    var replayed, tables;
    replayed, tables, lastSequence, newLog, whole := RecoverLogs(crc, dir, listing, recovered, codec, full, sizes, c, marks);
    ok, files := ok && replayed, tables;
    LevelsOf(c);
    levels, edits := ApplyRecovered(levels, tables);
    WholeIsPart(c, marks, whole, files, newLog);
    RebornFields(c, marks, whole, files, newLog);
    RebornIffRight(c, marks, whole, files, newLog);
    if LogKept(c, marks) {
      KeptReopens(c, marks, whole);
    }
    if ReopensAs(c, marks, whole) {
      RebornReads(c, marks, whole, files, newLog);
    }
    LifeKeepsValues(run, |run| - 1);
    RebornValues(c, marks, whole, files, newLog);
  }

  lemma LastOfLife(run: seq<Live>)
    requires Life(run)
    ensures run != []
  {
    hide CommitInit, Worked, Crashed;
  }

  lemma LevelsOf(c: Commit)
    requires CommitInv(c)
    ensures |c.sys.db.levels| == NUM_LEVELS && forall l :: 0 <= l < NUM_LEVELS ==> InBuilderOrder(c.sys.db.levels[l])
  {
    hide CommitInv, Inv, InBuilderOrder, ValidLevels;
    StoreInv(c);
    PendingCompactions.StateFacts(c.sys);
    BuilderOrder(c.sys.db.levels);
  }

  lemma RebornReads(c: Commit, marks: Marks, whole: nat, files: seq<File>, newLog: nat)
    requires CommitInv(c) && LayoutInv(c, marks) && Reopenable(c, marks, whole, files, newLog)
    requires marks.replayFrom <= whole <= |c.log| && ReopensAs(c, marks, whole) && marks.stamps != []
    requires |c.sys.db.levels| == NUM_LEVELS
    ensures forall k :: Read(VersionEntries(ApplyEdit(c.sys.db.levels, AddingEdit({}, 0, files))), k,
                             LastReplayed(marks, c.log[..whole]))
                     == AfterOps(LogOps(c.log[..whole]), k, None)
  {
    hide CommitInv, LayoutInv, Reopenable, Read, AfterOps, LogOps, VersionEntries, ApplyEdit, AddingEdit, LastReplayed,
         EndNumber, Reopened;
    RebornTables(c, marks, whole, files, newLog);
    LastCovers(marks, c.log[..whole]);
  }

  lemma RebornValues(c: Commit, marks: Marks, whole: nat, files: seq<File>, newLog: nat)
    requires CommitInv(c) && LayoutInv(c, marks) && Reopenable(c, marks, whole, files, newLog) && ValuesKept(c, marks)
    requires marks.replayFrom <= whole <= |c.log| && marks.stamps != [] && |c.sys.db.levels| == NUM_LEVELS
    ensures var v := ApplyEdit(c.sys.db.levels, AddingEdit({}, 0, files));
            forall k :: AfterOps(LogOps(c.log[..whole]), k, None).Some? ==>
              Read(VersionEntries(v), k, LastReplayed(marks, c.log[..whole])) == AfterOps(LogOps(c.log[..whole]), k, None)
  {
    hide CommitInv, LayoutInv, Reopenable, Read, AfterOps, LogOps, VersionEntries, ApplyEdit, AddingEdit, LastReplayed,
         EndNumber, Reopened, ValuesKept;
    RebornTables(c, marks, whole, files, newLog);
    LastCovers(marks, c.log[..whole]);
    WholeIsPart(c, marks, whole, files, newLog);
    forall k | AfterOps(LogOps(c.log[..whole]), k, None).Some?
      ensures Read(Reopened(c, marks, whole), k, LastReplayed(marks, c.log[..whole])) == AfterOps(LogOps(c.log[..whole]), k, None)
    {
      CrashLosesNoValue(c, marks, whole, k, LastReplayed(marks, c.log[..whole]));
    }
  }
}
