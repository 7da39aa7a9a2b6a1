/** The representation of a write batch (db/write_batch.cc, util/coding.cc): a sequence number, a count, and
    one tagged record for each operation. */
module WriteBatches {
  import opened Coding
  import opened Varints
  import opened VarintCodec
  import opened InternalKeys

  datatype ByteOp = PutOp(key: seq<Byte>, value: seq<Byte>) | DeleteOp(key: seq<Byte>)

  const HEADER := 12
  const TAG_DELETION: Byte := 0
  const TAG_VALUE: Byte := 1

  function RecordOf(op: ByteOp): (r: seq<Byte>)
    ensures |r| >= 1
  {
    match op
    case PutOp(k, v) => [TAG_VALUE] + LengthPrefixed(k) + LengthPrefixed(v)
    case DeleteOp(k) => [TAG_DELETION] + LengthPrefixed(k)
  }

  function Records(ops: seq<ByteOp>): seq<Byte> {
    if ops == [] then [] else Records(ops[..|ops| - 1]) + RecordOf(ops[|ops| - 1])
  }

  /** The bytes of a batch of these operations, the first of which has this sequence number. */
  function Contents(number: nat, ops: seq<ByteOp>): (r: seq<Byte>)
    ensures |r| >= HEADER
  {
    LittleEndian(number, 8) + LittleEndian(|ops|, 4) + Records(ops)
  }

  predicate Fits(op: ByteOp) {
    |op.key| < TWO_TO_THE_32 && (op.PutOp? ==> |op.value| < TWO_TO_THE_32)
  }

  predicate AllFit(ops: seq<ByteOp>) {
    forall op :: op in ops ==> Fits(op)
  }

  lemma {:induction false} RecordsConcat(a: seq<ByteOp>, b: seq<ByteOp>)
    ensures Records(a + b) == Records(a) + Records(b)
    decreases |b|
  {
    hide Records, RecordOf;
    if b == [] {
      assert a + b == a && Records([]) == [] by { NoRecords(); }
    } else {
      var n := |b| - 1;
      RecordsConcat(a, b[..n]);
      OneMoreOp(a + b[..n], b[n]);
      OneMoreOp(b[..n], b[n]);
      assert a + b == (a + b[..n]) + [b[n]] && b == b[..n] + [b[n]];
      Regroup(Records(a), Records(b[..n]), RecordOf(b[n]));
    }
  }

  lemma NoRecords()
    ensures Records([]) == []
  {
  }

  lemma OneMoreOp(ops: seq<ByteOp>, op: ByteOp)
    ensures Records(ops + [op]) == Records(ops) + RecordOf(op)
  {
    hide RecordOf;
    assert (ops + [op])[..|ops|] == ops;
  }

  // ----- Batches -----

  class WriteBatch {
    var rep: seq<Byte>
    ghost var number: nat
    ghost var ops: seq<ByteOp>

    ghost predicate Valid()
      reads this
    {
      rep == Contents(number, ops) && AllFit(ops) && |ops| < TWO_TO_THE_32 && number < TWO_TO_THE_64
    }

    constructor ()
      ensures Valid() && number == 0 && ops == []
    {
      rep := seq(HEADER, _ => 0);
      number, ops := 0, [];
      new;
      EmptyContents();
    }

    /** WriteBatchInternal::Count */
    function Count(): nat
      reads this
      requires |rep| >= HEADER
    {
      DecodeFixed32(rep[8..])
    }

    /** WriteBatchInternal::SetCount; the records after the header stay. */
    method SetCount(n: Word)
      requires |rep| >= HEADER
      modifies this`rep
      ensures rep == old(rep)[..8] + LittleEndian(n, 4) + old(rep)[HEADER..]
    {
      rep := rep[..8] + EncodeFixed32(n) + rep[HEADER..];
    }

    /** WriteBatchInternal::SetSequence */
    method SetSequence(n: nat)
      requires Valid() && n < TWO_TO_THE_64
      modifies this
      ensures Valid() && number == n && ops == old(ops)
    {
      hide Records;
      ContentsParts(number, ops);
      rep := LittleEndian(n, 8) + rep[8..];
      assert rep == Contents(n, ops);
      number := n;
    }

    method Put(key: seq<Byte>, value: seq<Byte>)
      requires Valid() && |ops| + 1 < TWO_TO_THE_32 && Fits(PutOp(key, value))
      modifies this
      ensures Valid() && number == old(number) && ops == old(ops) + [PutOp(key, value)]
    {
      hide Records, Varint, LittleEndian;
      ContentsParts(number, ops);
      SetCount(Count() + 1);
      rep := rep + [TAG_VALUE];
      var length := EncodeVarint32(|key|);
      rep := rep + length + key;
      length := EncodeVarint32(|value|);
      rep := rep + length + value;
      OneMoreRecord(number, ops, PutOp(key, value), rep);
      ops := ops + [PutOp(key, value)];
    }

    method Delete(key: seq<Byte>)
      requires Valid() && |ops| + 1 < TWO_TO_THE_32 && Fits(DeleteOp(key))
      modifies this
      ensures Valid() && number == old(number) && ops == old(ops) + [DeleteOp(key)]
    {
      hide Records, Varint, LittleEndian;
      ContentsParts(number, ops);
      SetCount(Count() + 1);
      rep := rep + [TAG_DELETION];
      var length := EncodeVarint32(|key|);
      rep := rep + length + key;
      OneMoreRecord(number, ops, DeleteOp(key), rep);
      ops := ops + [DeleteOp(key)];
    }

    /** WriteBatchInternal::Append */
    method Append(source: WriteBatch)
      requires Valid() && source.Valid() && source != this && |ops| + |source.ops| < TWO_TO_THE_32
      modifies this
      ensures Valid() && number == old(number) && ops == old(ops) + source.ops
    {
      hide Records, LittleEndian;
      ContentsParts(number, ops);
      ContentsParts(source.number, source.ops);
      SetCount(Count() + source.Count());
      rep := rep + source.rep[HEADER..];
      RecordsConcat(ops, source.ops);
      assert rep == Contents(number, ops + source.ops);
      ops := ops + source.ops;
    }
  }

  lemma EmptyContents()
    ensures Contents(0, []) == seq(HEADER, _ => 0)
  {
    ZeroBytes(8);
    ZeroBytes(4);
  }

  lemma {:induction false} ZeroBytes(n: nat)
    ensures LittleEndian(0, n) == seq(n, _ => 0)
  {
    if n > 0 {
      ZeroBytes(n - 1);
    }
  }

  lemma ContentsParts(number: nat, ops: seq<ByteOp>)
    requires |ops| < TWO_TO_THE_32 && number < TWO_TO_THE_64
    ensures var r := Contents(number, ops);
            && r[..8] == LittleEndian(number, 8) && r[HEADER..] == Records(ops)
            && r[8..] == LittleEndian(|ops|, 4) + Records(ops)
            && DecodeFixed32(r[8..]) == |ops| && FromLittleEndian(r[..8]) == number
  {
    hide Records, LittleEndian;
    var r := Contents(number, ops);
    assert r[8..] == LittleEndian(|ops|, 4) + Records(ops);
    Fixed32RoundTrip(|ops|, Records(ops));
    EightBytes();
    FixedRoundTrip(number, 8);
  }

  // ----- The bytes of a batch, part by part -----

  /** A record starts with the number that the type of its entry has in an internal key. */
  lemma RecordForm(op: ByteOp) returns (key: seq<Byte>, value: seq<Byte>)
    ensures Records([op]) == [Pack(0, if op.PutOp? then Value else Deletion)] + key + value
    ensures SaysText(key, op.key)
    ensures if op.PutOp? then SaysText(value, op.value) else value == []
  {
    hide SaysText, LengthPrefixed;
    assert [op][..0] == [];
    key := LengthPrefixed(op.key);
    TextForm(op.key);
    value := [];
    if op.PutOp? {
      value := LengthPrefixed(op.value);
      TextForm(op.value);
    }
  }

  /** Eight bytes of sequence number and four bytes of count, both lowest byte first, then the records. */
  lemma BatchForm(number: nat, ops: seq<ByteOp>)
    requires number < TWO_TO_THE_64 && |ops| < TWO_TO_THE_32
    ensures var r := Contents(number, ops);
            && LowFirst(r, 0) + 0x1_0000_0000 * LowFirst(r, 4) == number && LowFirst(r, 8) == |ops|
            && r[12..] == Records(ops)
  {
    hide Records, LittleEndian;
    var r := Contents(number, ops);
    ContentsParts(number, ops);
    var low, high := number % TWO_TO_THE_32, number / TWO_TO_THE_32;
    EightIsTwiceFour(low, high);
    Fixed32Form(low);
    Fixed32Form(high);
    Fixed32Form(|ops|);
    assert r == EncodeFixed32(low) + EncodeFixed32(high) + EncodeFixed32(|ops|) + Records(ops);
  }

  lemma OneMoreRecord(number: nat, ops: seq<ByteOp>, op: ByteOp, rep: seq<Byte>)
    requires rep == LittleEndian(number, 8) + LittleEndian(|ops| + 1, 4) + Records(ops) + RecordOf(op)
    ensures rep == Contents(number, ops + [op])
  {
    hide LittleEndian, Records, RecordOf;
    OneMoreAtTheEnd(ops, op);
    Regroup(LittleEndian(number, 8) + LittleEndian(|ops| + 1, 4), Records(ops), RecordOf(op));
  }

  lemma OneMoreAtTheEnd(ops: seq<ByteOp>, op: ByteOp)
    ensures Records(ops + [op]) == Records(ops) + RecordOf(op)
  {
    hide RecordOf;
    assert (ops + [op])[..|ops|] == ops;
  }

  // ----- Reading a batch -----

  /** Bytes that are read as a record. */
  ghost predicate IsRecord(b: seq<Byte>, op: ByteOp) {
    match op
    case PutOp(k, v) => exists i: nat :: 1 <= i <= |b| && b[0] == 1 && ReadsAs(b[1..i], k) && ReadsAs(b[i..], v)
    case DeleteOp(k) => |b| >= 1 && b[0] == 0 && ReadsAs(b[1..], k)
  }

  ghost predicate Spell(parts: seq<seq<Byte>>, ops: seq<ByteOp>) {
    |parts| == |ops| && forall i :: 0 <= i < |parts| ==> IsRecord(parts[i], ops[i])
  }

  lemma OneMorePart(start: seq<Byte>, before: seq<Byte>, after: seq<Byte>, parts: seq<seq<Byte>>, ops: seq<ByteOp>,
                    op: ByteOp)
    requires IsRest(before, start) && Took(start, before) == Joined(parts) && Spell(parts, ops)
    requires IsRest(after, before) && IsRecord(Took(before, after), op)
    ensures IsRest(after, start) && Took(start, after) == Joined(parts + [Took(before, after)])
    ensures Spell(parts + [Took(before, after)], ops + [op])
  {
    hide IsRecord, Joined;
    JoinedOneMore(start, before, after, parts);
  }

  lemma PutRead(before: seq<Byte>, middle: seq<Byte>, after: seq<Byte>, k: seq<Byte>, v: seq<Byte>)
    requires before != [] && before[0] == 1 && IsRest(middle, before[1..]) && ReadsAs(Took(before[1..], middle), k)
    requires IsRest(after, middle) && ReadsAs(Took(middle, after), v)
    ensures IsRest(after, before) && IsRecord(Took(before, after), PutOp(k, v))
  {
    hide ReadsAs;
    TookTwice(before[1..], middle, after);
    var b, i := Took(before, after), 1 + |Took(before[1..], middle)|;
    assert b == [before[0]] + Took(before[1..], middle) + Took(middle, after);
    assert b[1..i] == Took(before[1..], middle) && b[i..] == Took(middle, after);
  }

  lemma DeleteRead(before: seq<Byte>, after: seq<Byte>, k: seq<Byte>)
    requires before != [] && before[0] == 0 && IsRest(after, before[1..]) && ReadsAs(Took(before[1..], after), k)
    ensures IsRest(after, before) && IsRecord(Took(before, after), DeleteOp(k))
  {
    hide ReadsAs;
    assert Took(before, after)[1..] == Took(before[1..], after);
  }

  /** One turn of WriteBatch::Iterate. On the record of an operation, that operation is read; whatever is read,
      its bytes are a record of it. */
  method ReadRecord(input: seq<Byte>, ghost expected: ByteOp, ghost rest: seq<Byte>)
    returns (ok: bool, op: ByteOp, left: seq<Byte>)
    requires input != []
    ensures ok ==> |left| < |input| && IsRest(left, input) && IsRecord(Took(input, left), op)
    ensures Fits(expected) && input == RecordOf(expected) + rest ==> ok && op == expected && left == rest
  {
    hide LengthPrefixed, ReadsAs, IsRecord;
    RecordStarts(expected, rest);
    ghost var value := if expected.PutOp? then expected.value else [];
    ghost var more := if expected.PutOp? then LengthPrefixed(value) + rest else rest;
    var tag, k, v := input[0], [], [];
    ok, op, left := false, DeleteOp([]), input[1..];
    if tag == TAG_VALUE {
      ok, k, left := GetLengthPrefixed(left, expected.key, more);
      if ok {
        ghost var middle := left;
        ok, v, left := GetLengthPrefixed(left, value, rest);
        op := PutOp(k, v);
        if ok {
          PutRead(input, middle, left, k, v);
        }
      }
    } else if tag == TAG_DELETION {
      ok, k, left := GetLengthPrefixed(left, expected.key, more);
      op := DeleteOp(k);
      if ok {
        DeleteRead(input, left, k);
      }
    }
  }

  /** WriteBatch::Iterate: the operations handed out before the end or the first malformed record. On the
      contents of a batch it hands out exactly the batch's operations; whatever it accepts has the stated
      count. */
  method Iterate(rep: seq<Byte>, ghost number: nat, ghost ops: seq<ByteOp>)
    returns (ok: bool, found: seq<ByteOp>, ghost parts: seq<seq<Byte>>)
    // On any input: what is handed out is read from the bytes after the header, record by record.
    ensures Spell(parts, found) && (|rep| < HEADER ==> !ok && found == [])
    ensures |rep| >= HEADER ==> Joined(parts) <= rep[HEADER..]
    ensures ok ==> |rep| >= HEADER && Joined(parts) == rep[HEADER..] && |found| == LowFirst(rep, 8)
    ensures !ok && |rep| >= HEADER && Joined(parts) == rep[HEADER..] ==> |found| != LowFirst(rep, 8)
    ensures number < TWO_TO_THE_64 && |ops| < TWO_TO_THE_32 && AllFit(ops) && rep == Contents(number, ops) ==>
              ok && found == ops
  {
    hide Records, RecordOf, LittleEndian, IsRecord, DecodeFixed32, LowFirst, Joined, Spell, Fits;
    found, parts := [], [];
    NothingSpelled();
    if |rep| < HEADER {
      return false, found, parts;
    }
    ghost var good := number < TWO_TO_THE_64 && |ops| < TWO_TO_THE_32 && AllFit(ops) && rep == Contents(number, ops);
    if good {
      ContentsParts(number, ops);
      StartRecords(ops);
    }
    DecodeIsLowFirst(rep, 8);
    var input := rep[HEADER..];
    ghost var n, start := 0, input;
    while input != []
      invariant good ==> n <= |ops| && found == ops[..n] && Records(ops) == Records(ops[..n]) + input
      invariant IsRest(input, start) && Took(start, input) == Joined(parts) && Spell(parts, found)
      decreases |input|
    {
      ghost var expected, rest := DeleteOp([]), [];
      if good {
        rest := NextRecord(ops, n, input);
        expected := ops[n];
      }
      var got: bool, op: ByteOp, left: seq<Byte>;
      got, op, left := ReadRecord(input, expected, rest);
      if !got {
        TakenFront(start, input, parts);
        return false, found, parts;
      }
      OneMorePart(start, input, left, parts, found, op);
      parts := parts + [Took(input, left)];
      found, input := found + [op], left;
      n := n + 1;
    }
    if good {
      NoRecordsLeft(ops, n);
    }
    TakenFront(start, input, parts);
    ok := |found| == DecodeFixed32(rep[8..]);
  }

  lemma NothingSpelled()
    ensures Joined([]) == [] && Spell([], [])
  {
  }

  lemma TakenFront(start: seq<Byte>, input: seq<Byte>, parts: seq<seq<Byte>>)
    requires IsRest(input, start) && Took(start, input) == Joined(parts)
    ensures Joined(parts) <= start && (Joined(parts) == start <==> input == [])
  {
    hide Joined;
  }

  lemma StartRecords(ops: seq<ByteOp>)
    ensures Records(ops) == Records(ops[..0]) + Records(ops)
  {
  }

  lemma RecordsFront(ops: seq<ByteOp>, n: nat)
    requires n < |ops|
    ensures Records(ops[..n + 1]) == Records(ops[..n]) + RecordOf(ops[n])
  {
    hide Records, RecordOf;
    assert ops[..n + 1] == ops[..n] + [ops[n]];
    OneMoreOp(ops[..n], ops[n]);
  }

  lemma RecordsSplit(ops: seq<ByteOp>, n: nat)
    requires n < |ops|
    ensures Records(ops) == Records(ops[..n]) + (RecordOf(ops[n]) + Records(ops[n + 1..]))
    ensures Records(ops[..n + 1]) == Records(ops[..n]) + RecordOf(ops[n])
  {
    hide Records, RecordOf;
    RecordsFront(ops, n);
    var front, back := ops[..n + 1], ops[n + 1..];
    assert ops == front + back;
    RecordsConcat(front, back);
    Regroup(Records(ops[..n]), RecordOf(ops[n]), Records(back));
  }

  lemma RecordStarts(op: ByteOp, rest: seq<Byte>)
    ensures var input := RecordOf(op) + rest;
            && (op.PutOp? ==>
                  input[0] == TAG_VALUE && input[1..] == LengthPrefixed(op.key) + (LengthPrefixed(op.value) + rest))
            && (op.DeleteOp? ==> input[0] == TAG_DELETION && input[1..] == LengthPrefixed(op.key) + rest)
  {
    hide LengthPrefixed;
  }

  lemma NextRecord(ops: seq<ByteOp>, n: nat, input: seq<Byte>) returns (rest: seq<Byte>)
    requires n <= |ops| && Records(ops) == Records(ops[..n]) + input && input != [] && AllFit(ops)
    ensures n < |ops| && Fits(ops[n]) && input == RecordOf(ops[n]) + rest
    ensures Records(ops) == Records(ops[..n + 1]) + rest
  {
    hide Records, RecordOf, Fits;
    assert ops[..|ops|] == ops;
    RecordsSplit(ops, n);
    rest := Records(ops[n + 1..]);
    SameSuffix(Records(ops[..n]), input, RecordOf(ops[n]) + rest);
    Regroup(Records(ops[..n]), RecordOf(ops[n]), rest);
  }

  lemma NoRecordsLeft(ops: seq<ByteOp>, n: nat)
    requires n <= |ops| && Records(ops) == Records(ops[..n]) + []
    ensures n == |ops|
  {
    hide Records;
    RecordsLonger(ops, n);
  }

  lemma RecordsLonger(ops: seq<ByteOp>, n: nat)
    requires n <= |ops|
    ensures n < |ops| ==> |Records(ops)| > |Records(ops[..n])|
  {
    hide Records;
    if n < |ops| {
      RecordsSplit(ops, n);
    }
  }
}
