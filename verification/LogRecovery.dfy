/** Replaying the write-ahead log after a crash (db/db_impl.cc: RecoverLogFile). */
module LogRecovery {
  import opened Coding
  import opened Varints
  import opened LogFormat
  import LogReader
  import opened WriteBatches

  /** A logged group: its operations, the first of which has this sequence number. */
  datatype Batch = Batch(number: nat, ops: seq<ByteOp>)

  predicate Loggable(b: Batch) {
    1 <= b.number < TWO_TO_THE_64 && |b.ops| < TWO_TO_THE_32 && AllFit(b.ops)
  }

  ghost function Encodings(batches: seq<Batch>): (r: seq<seq<Byte>>)
    ensures |r| == |batches|
  {
    seq(|batches|, i requires 0 <= i < |batches| => Contents(batches[i].number, batches[i].ops))
  }

  /** MemTableInserter: consecutive sequence numbers from the batch's on. */
  function Numbered(number: nat, ops: seq<ByteOp>): seq<(nat, ByteOp)> {
    seq(|ops|, i requires 0 <= i < |ops| => (number + i, ops[i]))
  }

  ghost function AllNumbered(batches: seq<Batch>): seq<(nat, ByteOp)> {
    if batches == [] then []
    else
      var b := batches[|batches| - 1];
      AllNumbered(batches[..|batches| - 1]) + Numbered(b.number, b.ops)
  }

  function LastNumber(b: Batch): int {
    b.number + |b.ops| - 1
  }

  /** The highest sequence number in use, 0 when there is none. */
  ghost function Highest(batches: seq<Batch>): nat {
    if batches == [] then 0
    else
      var before, last := Highest(batches[..|batches| - 1]), LastNumber(batches[|batches| - 1]);
      if last > before then last else before
  }

  /** A number that no operation put back exceeds, and that ends some group if there is any. */
  ghost predicate IsHighest(n: nat, applied: seq<(nat, ByteOp)>, batches: seq<Batch>) {
    && (forall i :: 0 <= i < |applied| ==> applied[i].0 <= n)
    && (n > 0 ==> exists i :: 0 <= i < |batches| && n == LastNumber(batches[i]))
  }

  lemma {:induction false} HighestBounds(batches: seq<Batch>)
    ensures IsHighest(Highest(batches), AllNumbered(batches), batches)
  {
    if batches != [] {
      var n := |batches| - 1;
      HighestBounds(batches[..n]);
      assert forall i :: 0 <= i < n ==> batches[..n][i] == batches[i];
      if Highest(batches) == Highest(batches[..n]) > 0 {
        var i :| 0 <= i < n && Highest(batches[..n]) == LastNumber(batches[..n][i]);
        assert Highest(batches) == LastNumber(batches[i]);
      }
    }
  }

  /** Whatever byte the log of some groups was cut at, replaying it puts into the memtable exactly the
      operations of the groups that are wholly there, in order and with the numbers they were written
      with, and finds the highest of those numbers: no operation put back has a higher one. */
  method ReplayLog(crc: Checksum, file: seq<Byte>, ghost batches: seq<Batch>)
    returns (status: bool, applied: seq<(nat, ByteOp)>, maxSequence: nat, ghost whole: nat)
    requires forall i :: 0 <= i < |batches| ==> Loggable(batches[i])
    requires file <= EmitMany(crc, 0, Encodings(batches))
    ensures whole <= |batches| && |EmitMany(crc, 0, Encodings(batches[..whole]))| <= |file|
    ensures whole < |batches| ==> |EmitMany(crc, 0, Encodings(batches[..whole + 1]))| > |file|
    ensures status && applied == AllNumbered(batches[..whole])
    ensures maxSequence == Highest(batches[..whole])
    ensures IsHighest(maxSequence, applied, batches[..whole])
  {
    hide EmitMany, Contents, Numbered, AllNumbered, Highest, DecodeFixed32, IsHighest;
    var records, reports := LogReader.ReadAll(crc, file, true, Encodings(batches));
    whole := |records|;
    EncodingsPrefix(batches, whole);
    if whole < |batches| {
      EncodingsPrefix(batches, whole + 1);
    }
    status, applied, maxSequence := true, [], 0;
    NothingNumbered(batches);
    for i := 0 to |records|
      invariant status && applied == AllNumbered(batches[..i])
      invariant maxSequence == Highest(batches[..i])
    {
      assert records[i] == Contents(batches[i].number, batches[i].ops);
      var ok, number, ops := ReadBatch(records[i], batches[i]);
      if !ok {
        status := false;
        break;
      }
      applied := applied + Numbered(number, ops);
      OneMoreBatch(batches, i);
      var last := number + |ops| - 1;
      if last > maxSequence {
        maxSequence := last;
      }
    }
    HighestBounds(batches[..whole]);
  }

  /** SetContents, Sequence and the iteration of InsertInto. */
  method ReadBatch(record: seq<Byte>, ghost b: Batch) returns (ok: bool, number: nat, ops: seq<ByteOp>)
    requires Loggable(b) && record == Contents(b.number, b.ops)
    ensures ok && number == b.number && ops == b.ops
  {
    hide Contents, DecodeFixed32;
    ContentsParts(b.number, b.ops);
    ghost var parts: seq<seq<Byte>>;
    ok, ops, parts := Iterate(record, b.number, b.ops);
    number := FromLittleEndian(record[..8]);
  }

  lemma EncodingsPrefix(batches: seq<Batch>, n: nat)
    requires n <= |batches|
    ensures Encodings(batches)[..n] == Encodings(batches[..n])
    ensures forall r :: r <= Encodings(batches) && |r| == n ==> r == Encodings(batches[..n])
  {
    hide Contents;
    assert Encodings(batches)[..n] == Encodings(batches[..n]);
  }

  lemma NothingNumbered(batches: seq<Batch>)
    ensures AllNumbered(batches[..0]) == [] && Highest(batches[..0]) == 0
  {
  }

  lemma OneMoreBatch(batches: seq<Batch>, i: nat)
    requires i < |batches|
    ensures AllNumbered(batches[..i + 1]) == AllNumbered(batches[..i]) + Numbered(batches[i].number, batches[i].ops)
    ensures Highest(batches[..i + 1])
         == if LastNumber(batches[i]) > Highest(batches[..i]) then LastNumber(batches[i]) else Highest(batches[..i])
  {
    hide Numbered;
    assert batches[..i + 1][..i] == batches[..i];
  }
}
