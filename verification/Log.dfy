/** The write-ahead log (db/log_format.h, db/log_writer.cc, db/log_reader.cc): records are cut into
    checksummed fragments inside 32 KB blocks. The checksum itself is any function of the bytes. */
module LogFormat {
  import opened Coding

  const BLOCK_SIZE := 32768
  const HEADER_SIZE := 7

  const FULL := 1
  const FIRST := 2
  const MIDDLE := 3
  const LAST := 4

  // What ReadPhysicalRecord returns besides a type.
  const EOF := 5
  const BAD_RECORD := 6

  type Checksum = seq<Byte> -> Word

  function FragmentType(begin: bool, end: bool): (t: Byte)
    ensures 1 <= t <= 4
  {
    if begin && end then FULL else if begin then FIRST else if end then LAST else MIDDLE
  }

  /** One physical record: masked checksum of type and payload, length, type, payload. */
  function Physical(crc: Checksum, t: Byte, payload: seq<Byte>): (r: seq<Byte>)
    requires |payload| <= 0xffff
    ensures |r| == HEADER_SIZE + |payload|
  {
    EncodeFixed32(Mask(crc([t] + payload))) + [LowByte(|payload|), LowByte(|payload| / 256), t] + payload
  }

  function Zeros(n: nat): (r: seq<Byte>)
    ensures |r| == n
  {
    seq(n, _ => 0)
  }

  /** How much of a record fits at an offset in a block. */
  function FragmentLength(offset: nat, rest: seq<Byte>): (n: nat)
    requires offset + HEADER_SIZE <= BLOCK_SIZE
    ensures n <= |rest| && offset + HEADER_SIZE + n <= BLOCK_SIZE
    ensures n < |rest| ==> offset + HEADER_SIZE + n == BLOCK_SIZE
  {
    if |rest| < BLOCK_SIZE - offset - HEADER_SIZE then |rest| else BLOCK_SIZE - offset - HEADER_SIZE
  }

  function Rank(offset: nat): nat {
    if offset + HEADER_SIZE > BLOCK_SIZE then 1 else if offset + HEADER_SIZE == BLOCK_SIZE then 2 else 0
  }

  /** The bytes of the rest of a record, from an offset in a block on. A block never ends with less
      room than a header needs: what is left is filled with zeros. */
  ghost function Emit(crc: Checksum, offset: nat, rest: seq<Byte>, begin: bool): seq<Byte>
    requires offset <= BLOCK_SIZE
    decreases |rest|, Rank(offset)
  {
    if BLOCK_SIZE - offset < HEADER_SIZE then
      Zeros(BLOCK_SIZE - offset) + Emit(crc, 0, rest, begin)
    else
      var n := FragmentLength(offset, rest);
      Physical(crc, FragmentType(begin, n == |rest|), rest[..n])
      + if n == |rest| then [] else Emit(crc, offset + HEADER_SIZE + n, rest[n..], false)
  }

  /** The offset in its block at which a record ends. */
  ghost function EndOffset(offset: nat, rest: seq<Byte>): (end: nat)
    requires offset <= BLOCK_SIZE
    ensures end <= BLOCK_SIZE
    decreases |rest|, Rank(offset)
  {
    if BLOCK_SIZE - offset < HEADER_SIZE then
      EndOffset(0, rest)
    else
      var n := FragmentLength(offset, rest);
      if n == |rest| then offset + HEADER_SIZE + n else EndOffset(offset + HEADER_SIZE + n, rest[n..])
  }

  /** The bytes of several records in a row. */
  ghost function EmitMany(crc: Checksum, offset: nat, records: seq<seq<Byte>>): seq<Byte>
    requires offset <= BLOCK_SIZE
    decreases |records|
  {
    if records == [] then []
    else Emit(crc, offset, records[0], true) + EmitMany(crc, EndOffset(offset, records[0]), records[1..])
  }

  ghost function EndOffsetMany(offset: nat, records: seq<seq<Byte>>): (end: nat)
    requires offset <= BLOCK_SIZE
    ensures end <= BLOCK_SIZE
    decreases |records|
  {
    if records == [] then offset else EndOffsetMany(EndOffset(offset, records[0]), records[1..])
  }

  /** One fragment at an offset that has room for a header. */
  lemma EmitStep(crc: Checksum, offset: nat, rest: seq<Byte>, begin: bool)
    requires offset + HEADER_SIZE <= BLOCK_SIZE
    ensures var n := FragmentLength(offset, rest);
            && Emit(crc, offset, rest, begin)
               == Physical(crc, FragmentType(begin, n == |rest|), rest[..n])
                  + (if n == |rest| then [] else Emit(crc, offset + HEADER_SIZE + n, rest[n..], false))
            && EndOffset(offset, rest)
               == if n == |rest| then offset + HEADER_SIZE + n else EndOffset(offset + HEADER_SIZE + n, rest[n..])
  {
    hide Physical, FragmentType;
  }

  /** No room for a header. */
  lemma EmitFill(crc: Checksum, offset: nat, rest: seq<Byte>, begin: bool)
    requires offset <= BLOCK_SIZE < offset + HEADER_SIZE
    ensures Emit(crc, offset, rest, begin) == Zeros(BLOCK_SIZE - offset) + Emit(crc, 0, rest, begin)
    ensures EndOffset(offset, rest) == EndOffset(0, rest)
  {
  }

  /** Appending a record to a log leaves what is there alone. */
  lemma {:induction false} EmitOneMore(crc: Checksum, offset: nat, records: seq<seq<Byte>>, r: seq<Byte>)
    requires offset <= BLOCK_SIZE
    ensures EmitMany(crc, offset, records + [r])
         == EmitMany(crc, offset, records) + Emit(crc, EndOffsetMany(offset, records), r, true)
    ensures EndOffsetMany(offset, records + [r]) == EndOffset(EndOffsetMany(offset, records), r)
    decreases |records|
  {
    hide Emit, EndOffset;
    if records == [] {
      assert [r][1..] == [];
    } else {
      assert (records + [r])[1..] == records[1..] + [r];
      EmitOneMore(crc, EndOffset(offset, records[0]), records[1..], r);
    }
  }

  /** The end of a full block and the start of an empty one are the same place. */
  lemma BlockEndIsStart(crc: Checksum, records: seq<seq<Byte>>)
    ensures EmitMany(crc, BLOCK_SIZE, records) == EmitMany(crc, 0, records)
    ensures forall r, begin :: Emit(crc, BLOCK_SIZE, r, begin) == Emit(crc, 0, r, begin)
    ensures forall r :: EndOffset(BLOCK_SIZE, r) == EndOffset(0, r)
  {
    forall r, begin
      ensures Emit(crc, BLOCK_SIZE, r, begin) == Emit(crc, 0, r, begin)
    {
      assert Zeros(0) == [];
    }
  }

  /** Offsets count bytes modulo the block size. */
  lemma {:induction false} EmitAdvances(crc: Checksum, offset: nat, rest: seq<Byte>, begin: bool)
    requires offset <= BLOCK_SIZE
    ensures (offset + |Emit(crc, offset, rest, begin)|) % BLOCK_SIZE == EndOffset(offset, rest) % BLOCK_SIZE
    decreases |rest|, Rank(offset)
  {
    hide Physical;
    if BLOCK_SIZE - offset < HEADER_SIZE {
      EmitAdvances(crc, 0, rest, begin);
      SameModulo(|Emit(crc, 0, rest, begin)|);
    } else {
      var n := FragmentLength(offset, rest);
      if n < |rest| {
        EmitAdvances(crc, offset + HEADER_SIZE + n, rest[n..], false);
      }
    }
  }

  lemma SameModulo(n: nat)
    ensures (BLOCK_SIZE + n) % BLOCK_SIZE == n % BLOCK_SIZE
  {
  }

  lemma {:induction false} EmitManyAdvances(crc: Checksum, offset: nat, records: seq<seq<Byte>>)
    requires offset <= BLOCK_SIZE
    ensures (offset + |EmitMany(crc, offset, records)|) % BLOCK_SIZE == EndOffsetMany(offset, records) % BLOCK_SIZE
    decreases |records|
  {
    hide Emit, EndOffset;
    if records != [] {
      var end := EndOffset(offset, records[0]);
      EmitAdvances(crc, offset, records[0], true);
      EmitManyAdvances(crc, end, records[1..]);
      AddModulo(offset + |Emit(crc, offset, records[0], true)|, end, |EmitMany(crc, end, records[1..])|);
    }
  }

  lemma AddModulo(a: nat, b: nat, n: nat)
    requires a % BLOCK_SIZE == b % BLOCK_SIZE
    ensures (a + n) % BLOCK_SIZE == (b + n) % BLOCK_SIZE
  {
    var q := (a - b) / BLOCK_SIZE;
    assert a == b + q * BLOCK_SIZE;
    assert (a + n) % BLOCK_SIZE == (b + n + q * BLOCK_SIZE) % BLOCK_SIZE;
  }

  // ----- What a reader finds next -----

  /** What a reader has still to read: between two records, or within one. */
  datatype Stream =
    | Between(later: seq<seq<Byte>>)
    | Within(rest: seq<Byte>, later: seq<seq<Byte>>)

  ghost function Bytes(crc: Checksum, offset: nat, s: Stream): seq<Byte>
    requires offset <= BLOCK_SIZE
  {
    match s
    case Between(later) => EmitMany(crc, offset, later)
    case Within(rest, later) => Emit(crc, offset, rest, false) + EmitMany(crc, EndOffset(offset, rest), later)
  }

  predicate Exhausted(s: Stream) {
    s == Between([])
  }

  /** The fragment that comes next: its type, its payload, its size with any filling before it, and
      what follows it. */
  datatype Fragment = Fragment(typ: Byte, payload: seq<Byte>, size: nat, offset: nat, after: Stream)

  ghost function NextFragment(offset: nat, s: Stream): (f: Fragment)
    requires offset <= BLOCK_SIZE && !Exhausted(s)
    ensures f.offset <= BLOCK_SIZE && 1 <= f.typ <= 4
  {
    var fill := if BLOCK_SIZE - offset < HEADER_SIZE then BLOCK_SIZE - offset else 0;
    var start := if BLOCK_SIZE - offset < HEADER_SIZE then 0 else offset;
    var rest := if s.Between? then s.later[0] else s.rest;
    var later := if s.Between? then s.later[1..] else s.later;
    var n := FragmentLength(start, rest);
    Fragment(FragmentType(s.Between?, n == |rest|), rest[..n], fill + HEADER_SIZE + n, start + HEADER_SIZE + n,
             if n == |rest| then Between(later) else Within(rest[n..], later))
  }

  /** A stream's bytes are its next fragment's, after any filling, and then the rest of the stream's. */
  lemma BytesSplit(crc: Checksum, offset: nat, s: Stream)
    requires HEADER_SIZE + offset <= BLOCK_SIZE && !Exhausted(s)
    ensures var f := NextFragment(offset, s);
            && |f.payload| <= 0xffff && f.size == HEADER_SIZE + |f.payload|
            && Bytes(crc, offset, s) == Physical(crc, f.typ, f.payload) + Bytes(crc, f.offset, f.after)
  {
    hide Physical, FragmentType, Emit, EndOffset;
    var f := NextFragment(offset, s);
    var rest := if s.Between? then s.later[0] else s.rest;
    var later := if s.Between? then s.later[1..] else s.later;
    EmitStep(crc, offset, rest, s.Between?);
    var tail := EmitMany(crc, EndOffset(offset, rest), later);
    assert Bytes(crc, offset, s) == Emit(crc, offset, rest, s.Between?) + tail;
    if f.after.Within? {
      Regroup(Physical(crc, f.typ, f.payload), Emit(crc, f.offset, f.after.rest, false), tail);
    } else {
      assert Emit(crc, offset, rest, s.Between?) == Physical(crc, f.typ, f.payload);
    }
  }

  /** Near the end of a block the stream starts with filling and goes on in the next block. */
  lemma BytesFilled(crc: Checksum, offset: nat, s: Stream)
    requires offset <= BLOCK_SIZE && HEADER_SIZE + offset > BLOCK_SIZE && !Exhausted(s)
    ensures Bytes(crc, offset, s) == Zeros(BLOCK_SIZE - offset) + Bytes(crc, 0, s)
    ensures NextFragment(offset, s) == NextFragment(0, s).(size := BLOCK_SIZE - offset + NextFragment(0, s).size)
  {
    hide Zeros, FragmentType, Emit, EndOffset;
    var rest := if s.Between? then s.later[0] else s.rest;
    var later := if s.Between? then s.later[1..] else s.later;
    EmitFill(crc, offset, rest, s.Between?);
    Regroup(Zeros(BLOCK_SIZE - offset), Emit(crc, 0, rest, s.Between?), EmitMany(crc, EndOffset(0, rest), later));
  }

  /** The size of the rest of a record is that of its next fragment and of what remains after it. */
  lemma RecordSplit(crc: Checksum, offset: nat, s: Stream)
    requires offset <= BLOCK_SIZE && !Exhausted(s)
    ensures var f := NextFragment(offset, s);
            var rest := if s.Between? then s.later[0] else s.rest;
            && |Emit(crc, offset, rest, s.Between?)|
               == f.size + (if f.after.Within? then |Emit(crc, f.offset, f.after.rest, false)| else 0)
            && EndOffset(offset, rest) == if f.after.Within? then EndOffset(f.offset, f.after.rest) else f.offset
  {
    hide Physical, FragmentType, Emit, EndOffset;
    var rest := if s.Between? then s.later[0] else s.rest;
    if HEADER_SIZE + offset > BLOCK_SIZE {
      EmitFill(crc, offset, rest, s.Between?);
      EmitStep(crc, 0, rest, s.Between?);
    } else {
      EmitStep(crc, offset, rest, s.Between?);
    }
  }

  // ----- Where the bytes of a record stand in a file -----

  /** A fragment in a file: where its header starts, its type, and the part of the record it carries. */
  datatype Chunk = Chunk(start: nat, typ: Byte, payload: seq<Byte>) {
    function End(): nat {
      start + 7 + |payload|
    }
  }

  /** Four bytes of masked checksum over type and payload, two bytes of length, low byte first, one byte
      of type, then the payload, none of it across a multiple of 32768. */
  ghost predicate StandsAt(crc: Checksum, log: seq<Byte>, c: Chunk) {
    && c.End() <= |log|
    && DecodeFixed32(log[c.start..]) == Mask(crc([c.typ] + c.payload))
    && (log[c.start + 4] as int) + 256 * (log[c.start + 5] as int) == |c.payload|
    && log[c.start + 6] == c.typ
    && log[c.start + 7..c.End()] == c.payload
    && c.start % 32768 + 7 + |c.payload| <= 32768
  }

  /** Where a header can start, from the end of the bytes before it on. */
  function NextStart(end: nat): nat {
    if end % 32768 > 32768 - 7 then end - end % 32768 + 32768 else end
  }

  ghost function Joined(chunks: seq<Chunk>): seq<Byte> {
    if chunks == [] then [] else chunks[0].payload + Joined(chunks[1..])
  }

  /** The end of a log, from a position on, is one record: zeros where no header fits, then its
      fragments without a gap. Every fragment but the last fills its block. A whole record has type 1,
      the parts of a longer one have type 2 at its start, 4 at its end and 3 in between. */
  ghost predicate Laid(crc: Checksum, log: seq<Byte>, from: nat, record: seq<Byte>, begin: bool, chunks: seq<Chunk>) {
    && chunks != [] && Joined(chunks) == record
    && chunks[0].start == NextStart(from) && chunks[|chunks| - 1].End() == |log|
    && (forall p | from <= p < chunks[0].start && p < |log| :: log[p] == 0)
    && (forall i | 0 <= i < |chunks| :: StandsAt(crc, log, chunks[i]))
    && (forall i | 0 <= i < |chunks| - 1 :: chunks[i].End() % 32768 == 0 && chunks[i + 1].start == chunks[i].End())
    && (forall i | 0 <= i < |chunks| :: chunks[i].typ == ExpectedType(begin && i == 0, i == |chunks| - 1))
  }

  function ExpectedType(starts: bool, ends: bool): int {
    match (starts, ends)
    case (true, true) => 1
    case (true, false) => 2
    case (false, false) => 3
    case (false, true) => 4
  }

  lemma PhysicalForm(crc: Checksum, t: Byte, payload: seq<Byte>, tail: seq<Byte>)
    requires |payload| <= 0xffff
    ensures var r := Physical(crc, t, payload) + tail;
            && DecodeFixed32(r) == Mask(crc([t] + payload))
            && (r[4] as int) + 256 * (r[5] as int) == |payload| && r[6] == t && r[7..7 + |payload|] == payload
  {
    hide Mask, EncodeFixed32, DecodeFixed32;
    var sum := crc([t] + payload);
    var head, sizes := EncodeFixed32(Mask(sum)), [LowByte(|payload|), LowByte(|payload| / 256), t];
    var r := Physical(crc, t, payload) + tail;
    assert r == head + (sizes + payload + tail);
    Fixed32RoundTrip(Mask(sum), sizes + payload + tail);
    assert r[4] == sizes[0] && r[5] == sizes[1] && r[6] == sizes[2];
    assert r == (head + sizes) + payload + tail;
  }

  lemma PhysicalStands(crc: Checksum, prefix: seq<Byte>, t: Byte, payload: seq<Byte>, tail: seq<Byte>)
    requires |prefix| % BLOCK_SIZE + HEADER_SIZE + |payload| <= BLOCK_SIZE
    ensures StandsAt(crc, prefix + Physical(crc, t, payload) + tail, Chunk(|prefix|, t, payload))
  {
    hide Mask, EncodeFixed32, DecodeFixed32, Physical;
    var r, log, n := Physical(crc, t, payload) + tail, prefix + Physical(crc, t, payload) + tail, |prefix|;
    PhysicalForm(crc, t, payload, tail);
    assert log == prefix + r;
    assert log[n..] == r && log[n + 4] == r[4] && log[n + 5] == r[5] && log[n + 6] == r[6];
    assert log[n + 7..n + 7 + |payload|] == r[7..7 + |payload|];
  }

  /** Whatever the log ends with, a record's bytes are laid out as documented. */
  lemma {:induction false} EmitIsLaid(crc: Checksum, prefix: seq<Byte>, offset: nat, rest: seq<Byte>, begin: bool)
    returns (chunks: seq<Chunk>)
    requires offset <= BLOCK_SIZE && |prefix| % BLOCK_SIZE == offset % BLOCK_SIZE
    ensures Laid(crc, prefix + Emit(crc, offset, rest, begin), |prefix|, rest, begin, chunks)
    decreases |rest|, Rank(offset)
  {
    hide Emit, EndOffset, Physical, StandsAt, Laid;
    var log := prefix + Emit(crc, offset, rest, begin);
    if BLOCK_SIZE - offset < HEADER_SIZE {
      EmitFill(crc, offset, rest, begin);
      var fill := Zeros(BLOCK_SIZE - offset);
      chunks := EmitIsLaid(crc, prefix + fill, 0, rest, begin);
      assert log == prefix + fill + Emit(crc, 0, rest, begin);
      LaidAfterFill(crc, log, |prefix|, |fill|, rest, begin, chunks);
    } else {
      EmitStep(crc, offset, rest, begin);
      var n := FragmentLength(offset, rest);
      var t := FragmentType(begin, n == |rest|);
      var head := Physical(crc, t, rest[..n]);
      var c := Chunk(|prefix|, t, rest[..n]);
      if n == |rest| {
        PhysicalStands(crc, prefix, t, rest[..n], []);
        assert log == prefix + head + [] && rest[..n] == rest;
        chunks := [c];
        LaidAlone(crc, log, c, begin);
      } else {
        var tail := Emit(crc, offset + HEADER_SIZE + n, rest[n..], false);
        PhysicalStands(crc, prefix, t, rest[..n], tail);
        var more := EmitIsLaid(crc, prefix + head, offset + HEADER_SIZE + n, rest[n..], false);
        assert log == prefix + head + tail;
        chunks := LaidBehind(crc, log, c, rest, begin, more);
      }
    }
  }

  lemma LaidAfterFill(crc: Checksum, log: seq<Byte>, from: nat, n: nat, rest: seq<Byte>, begin: bool,
                      chunks: seq<Chunk>)
    requires n < 7 && (from + n) % 32768 == 0 && from + n <= |log|
    requires forall p | from <= p < from + n :: log[p] == 0
    requires Laid(crc, log, from + n, rest, begin, chunks)
    ensures Laid(crc, log, from, rest, begin, chunks)
  {
    hide StandsAt, Joined, ExpectedType, NextStart;
    FillIsSkipped(from, n);
  }

  lemma FillIsSkipped(from: nat, n: nat)
    requires n < 7 && (from + n) % 32768 == 0
    ensures NextStart(from) == from + n == NextStart(from + n)
  {
    var q := (from + n) / 32768;
    assert from + n == 32768 * q;
    if n > 0 {
      assert from == 32768 * (q - 1) + (32768 - n);
      assert from % 32768 == 32768 - n;
    }
  }

  lemma LaidAlone(crc: Checksum, log: seq<Byte>, c: Chunk, begin: bool)
    requires StandsAt(crc, log, c) && c.start % 32768 + 7 <= 32768 && c.End() == |log|
    requires c.typ == ExpectedType(begin, true)
    ensures Laid(crc, log, c.start, c.payload, begin, [c])
  {
    hide StandsAt;
    assert Joined([c]) == c.payload + Joined([]) == c.payload;
  }

  lemma LaidBehind(crc: Checksum, log: seq<Byte>, c: Chunk, rest: seq<Byte>, begin: bool, more: seq<Chunk>)
    returns (chunks: seq<Chunk>)
    requires StandsAt(crc, log, c) && c.start % 32768 + 7 <= 32768 && c.End() % 32768 == 0
    requires c.payload <= rest && Laid(crc, log, c.End(), rest[|c.payload|..], false, more)
    requires c.typ == ExpectedType(begin, false)
    ensures chunks == [c] + more && Laid(crc, log, c.start, rest, begin, chunks)
  {
    hide StandsAt;
    chunks := [c] + more;
    assert chunks[1..] == more && chunks[|chunks| - 1] == more[|more| - 1];
    assert rest == c.payload + rest[|c.payload|..];
    assert Joined(chunks) == rest;
    forall i | 0 <= i < |chunks|
      ensures StandsAt(crc, log, chunks[i]) && chunks[i].typ == ExpectedType(begin && i == 0, i == |chunks| - 1)
    {
      if i > 0 {
        assert chunks[i] == more[i - 1];
      }
    }
    forall i | 0 <= i < |chunks| - 1
      ensures chunks[i].End() % 32768 == 0 && chunks[i + 1].start == chunks[i].End()
    {
      if i > 0 {
        assert chunks[i] == more[i - 1] && chunks[i + 1] == more[i];
      }
    }
  }

  lemma PhysicalHeader(crc: Checksum, t: Byte, payload: seq<Byte>)
    requires |payload| <= 0xffff
    ensures var r := Physical(crc, t, payload);
            && (r[4] as int) + 256 * (r[5] as int) == |payload| && r[6] == t
            && Unmask(DecodeFixed32(r)) == crc([t] + payload)
            && r[6..] == [t] + payload && r[HEADER_SIZE..] == payload
  {
    hide Mask, Unmask, EncodeFixed32, DecodeFixed32;
    var sum := crc([t] + payload);
    UnmaskUndoesMask(sum);
    var r := Physical(crc, t, payload);
    Fixed32RoundTrip(Mask(sum), [LowByte(|payload|), LowByte(|payload| / 256), t] + payload);
    assert r == EncodeFixed32(Mask(sum)) + ([LowByte(|payload|), LowByte(|payload| / 256), t] + payload);
  }
}

module LogWriter {
  import opened Coding
  import opened LogFormat

  class Writer {
    const crc: Checksum
    var dest: seq<Byte>
    var blockOffset: nat
    ghost var records: seq<seq<Byte>>

    /** The file holds exactly the records added so far. */
    ghost predicate Valid()
      reads this
    {
      && blockOffset <= BLOCK_SIZE && dest == EmitMany(crc, 0, records)
      && (blockOffset == EndOffsetMany(0, records) || (blockOffset == 0 && EndOffsetMany(0, records) == BLOCK_SIZE))
    }

    constructor (crc: Checksum)
      ensures Valid() && this.crc == crc && records == [] && dest == []
    {
      this.crc := crc;
      dest, blockOffset, records := [], 0, [];
    }

    /** Going on with a log that an earlier writer left. */
    constructor Reopen(crc: Checksum, dest: seq<Byte>, ghost records: seq<seq<Byte>>)
      requires dest == EmitMany(crc, 0, records)
      ensures Valid() && this.crc == crc && this.records == records && this.dest == dest
    {
      this.crc := crc;
      this.dest, this.records := dest, records;
      blockOffset := |dest| % BLOCK_SIZE;
      hide EmitMany, EndOffsetMany;
      EmitManyAdvances(crc, 0, records);
      InItsBlock(|dest|, EndOffsetMany(0, records));
    }

    method EmitPhysicalRecord(t: Byte, payload: seq<Byte>)
      requires blockOffset + HEADER_SIZE + |payload| <= BLOCK_SIZE
      modifies this`dest, this`blockOffset
      ensures dest == old(dest) + Physical(crc, t, payload)
      ensures blockOffset == old(blockOffset) + HEADER_SIZE + |payload|
    {
      var sum := crc([t] + payload);
      var header := EncodeFixed32(Mask(sum)) + [LowByte(|payload|), LowByte(|payload| / 256), t];
      dest := dest + header;
      dest := dest + payload;
      blockOffset := blockOffset + HEADER_SIZE + |payload|;
    }

    method AddRecord(record: seq<Byte>)
      requires Valid()
      modifies this
      ensures Valid() && records == old(records) + [record]
      ensures old(dest) <= dest && exists chunks :: Laid(crc, dest, |old(dest)|, record, true, chunks)
    {
      hide Emit, EndOffset, EmitMany, EndOffsetMany, Laid;
      StartOffset(crc, blockOffset, records, record);
      EmitManyAdvances(crc, 0, records);
      ghost var chunks := EmitIsLaid(crc, dest, blockOffset, record, true);
      EmitOneMore(crc, 0, records, record);
      AddFragments(record);
      records := records + [record];
    }

    /** The loop of AddRecord. */
    method AddFragments(record: seq<Byte>)
      requires blockOffset <= BLOCK_SIZE
      modifies this`dest, this`blockOffset
      ensures dest == old(dest) + Emit(crc, old(blockOffset), record, true)
      ensures blockOffset == EndOffset(old(blockOffset), record)
    {
      hide Emit, EndOffset, Physical, Zeros;
      ghost var start, offset := dest, blockOffset;
      var left, begin := record, true;
      while true
        invariant blockOffset <= BLOCK_SIZE
        invariant dest + Emit(crc, blockOffset, left, begin) == start + Emit(crc, offset, record, true)
        invariant EndOffset(blockOffset, left) == EndOffset(offset, record)
        decreases |left|, Rank(blockOffset)
      {
        EmitUnfolds(crc, blockOffset, left, begin, dest);
        var leftover := BLOCK_SIZE - blockOffset;
        if leftover < HEADER_SIZE {
          if leftover > 0 {
            dest := dest + Zeros(leftover);
          }
          blockOffset := 0;
          EmitUnfolds(crc, 0, left, begin, dest);
        }
        var avail := BLOCK_SIZE - blockOffset - HEADER_SIZE;
        var fragmentLength := if |left| < avail then |left| else avail;
        var end := |left| == fragmentLength;
        var t: Byte := if begin && end then FULL else if begin then FIRST else if end then LAST else MIDDLE;
        EmitPhysicalRecord(t, left[..fragmentLength]);
        if end {
          break;
        }
        left := left[fragmentLength..];
        begin := false;
      }
      assert dest + [] == dest;
    }
  }

  lemma InItsBlock(n: nat, end: nat)
    requires end <= BLOCK_SIZE && n % BLOCK_SIZE == end % BLOCK_SIZE
    ensures n % BLOCK_SIZE == end || (n % BLOCK_SIZE == 0 && end == BLOCK_SIZE)
  {
  }

  /** Where the writer stands when it starts a record gives the same bytes as where the log ends. */
  lemma StartOffset(crc: Checksum, blockOffset: nat, records: seq<seq<Byte>>, record: seq<Byte>)
    requires blockOffset <= BLOCK_SIZE
    requires blockOffset == EndOffsetMany(0, records) || (blockOffset == 0 && EndOffsetMany(0, records) == BLOCK_SIZE)
    ensures Emit(crc, blockOffset, record, true) == Emit(crc, EndOffsetMany(0, records), record, true)
    ensures EndOffset(blockOffset, record) == EndOffset(EndOffsetMany(0, records), record)
  {
    hide Emit, EndOffset, EndOffsetMany;
    BlockEndIsStart(crc, records);
  }

  lemma EmitUnfolds(crc: Checksum, offset: nat, left: seq<Byte>, begin: bool, dest: seq<Byte>)
    requires offset <= BLOCK_SIZE
    ensures BLOCK_SIZE - offset < HEADER_SIZE ==>
              && dest + Emit(crc, offset, left, begin) == dest + Zeros(BLOCK_SIZE - offset) + Emit(crc, 0, left, begin)
              && EndOffset(offset, left) == EndOffset(0, left) && dest + Zeros(0) == dest
    ensures BLOCK_SIZE - offset >= HEADER_SIZE ==>
              var n := FragmentLength(offset, left);
              var head := Physical(crc, FragmentType(begin, n == |left|), left[..n]);
              && dest + Emit(crc, offset, left, begin)
                 == dest + head + (if n == |left| then [] else Emit(crc, offset + HEADER_SIZE + n, left[n..], false))
              && EndOffset(offset, left)
                 == if n == |left| then offset + HEADER_SIZE + n else EndOffset(offset + HEADER_SIZE + n, left[n..])
  {
    hide Physical, Emit, EndOffset;
    if BLOCK_SIZE - offset < HEADER_SIZE {
      EmitFill(crc, offset, left, begin);
      Regroup(dest, Zeros(BLOCK_SIZE - offset), Emit(crc, 0, left, begin));
      assert dest + Zeros(0) == dest;
    } else {
      EmitStep(crc, offset, left, begin);
      var n := FragmentLength(offset, left);
      Regroup(dest, Physical(crc, FragmentType(begin, n == |left|), left[..n]),
              if n == |left| then [] else Emit(crc, offset + HEADER_SIZE + n, left[n..], false));
    }
  }
}
