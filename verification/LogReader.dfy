/** Reading the write-ahead log back (db/log_reader.cc), from its start. */
module LogReader {
  import opened Coding
  import opened LogFormat
  import opened InternalKeys

  class Reader {
    const crc: Checksum
    const file: seq<Byte>
    const verify: bool
    var filePos: nat              // how far the file has been read into the buffer
    var buffer: seq<Byte>
    var eof: bool
    var reports: seq<nat>         // the sizes passed to Reporter::Corruption
    ghost var offset: nat         // where the buffer starts in its block

    ghost predicate Valid()
      reads this
    {
      && |buffer| <= filePos <= |file| && buffer == file[filePos - |buffer|..filePos]
      && offset + |buffer| <= BLOCK_SIZE
      && (eof ==> filePos == |file|) && (!eof ==> offset + |buffer| == BLOCK_SIZE)
    }

    /** The position in the file of the next byte to look at. */
    ghost function Pos(): int
      reads this
    {
      filePos - |buffer|
    }

    /** The file is a prefix of a log, of which the stream is still to be read. */
    ghost predicate Tracks(log: seq<Byte>, s: Stream)
      reads this
    {
      Valid() && file <= log && log[Pos()..] == Bytes(crc, offset, s)
    }

    constructor (crc: Checksum, file: seq<Byte>, verify: bool)
      ensures Valid() && this.crc == crc && this.file == file && reports == []
      ensures Pos() == 0 && offset == BLOCK_SIZE
    {
      this.crc, this.file, this.verify := crc, file, verify;
      filePos, buffer, eof, reports, offset := 0, [], false, [], BLOCK_SIZE;
      new;
      assert file[0..0] == [] && |buffer| == 0;
    }

    method ReportCorruption(bytes: nat)
      requires Valid()
      modifies this`reports
      ensures Valid() && reports == old(reports) + [bytes]
    {
      reports := reports + [bytes];
    }

    /** Read the next block of the file; a short read means its end. */
    method Refill(ghost log: seq<Byte>, ghost s: Stream)
      requires Valid() && !eof && |buffer| < HEADER_SIZE
      modifies this`buffer, this`filePos, this`eof, this`offset
      ensures Valid() && (eof || |buffer| == BLOCK_SIZE) && Pos() >= old(Pos())
      ensures filePos >= old(filePos) && (!eof ==> filePos > old(filePos))
      ensures old(Tracks(log, s)) ==> Tracks(log, s)
      ensures old(Tracks(log, s)) && !Exhausted(s) ==>
                && Pos() + NextFragment(offset, s).size == old(Pos()) + NextFragment(old(offset), s).size
                && NextFragment(offset, s).(size := 0) == NextFragment(old(offset), s).(size := 0)
    {
      hide Bytes, NextFragment;
      if Tracks(log, s) {
        SkipFilling(crc, file, log, s, filePos, |buffer|, offset);
      }
      var n := if |file| - filePos < BLOCK_SIZE then |file| - filePos else BLOCK_SIZE;
      buffer := file[filePos..filePos + n];
      filePos := filePos + n;
      offset := 0;
      if |buffer| < BLOCK_SIZE {
        eof := true;
      }
    }

    method ReadPhysicalRecord(ghost log: seq<Byte>, ghost s: Stream) returns (t: int, fragment: seq<Byte>)
      requires Valid()
      modifies this
      ensures Valid() && 0 <= t < 256
      ensures t != EOF ==> Pos() > old(Pos())
      // In a prefix of a log, the next fragment is found if the prefix holds all of it.
      ensures old(Tracks(log, s)) ==>
                && reports == old(reports)
                && (t == EOF <==> Exhausted(s) || old(Pos()) + NextFragment(old(offset), s).size > |file|)
      ensures old(Tracks(log, s)) && t != EOF ==>
                var f := NextFragment(old(offset), s);
                && t == f.typ && fragment == f.payload
                && Tracks(log, f.after) && offset == f.offset && Pos() == old(Pos()) + f.size
    {
      hide Bytes, NextFragment;
      ghost var start, before := Pos(), offset;
      while true
        invariant Valid() && Pos() >= start && reports == old(reports)
        invariant old(Tracks(log, s)) ==> Tracks(log, s)
        invariant old(Tracks(log, s)) && !Exhausted(s) ==>
                    && Pos() + NextFragment(offset, s).size == start + NextFragment(before, s).size
                    && NextFragment(offset, s).(size := 0) == NextFragment(before, s).(size := 0)
        decreases |file| - filePos + if eof then 0 else 1
      {
        if |buffer| >= HEADER_SIZE {
          break;
        }
        if eof {
          if Tracks(log, s) {
            NoRoomForHeader(crc, file, log, s, offset, |buffer|);
          }
          // A truncated header at the end of the file.
          offset := offset + |buffer|;
          buffer := [];
          return EOF, [];
        }
        Refill(log, s);
      }
      ghost var tracked := Tracks(log, s);
      if tracked {
        HeaderIsNext(crc, file, log, s, filePos, buffer, offset);
      }
      t, fragment := ParseRecord(log, s);
    }

    /** The part of ReadPhysicalRecord that parses the record at the start of the buffer. */
    method ParseRecord(ghost log: seq<Byte>, ghost s: Stream) returns (t: int, fragment: seq<Byte>)
      requires Valid() && |buffer| >= HEADER_SIZE
      requires Tracks(log, s) ==> HeaderMatches(crc, file, log, s, filePos, buffer, offset)
      modifies this
      ensures Valid() && 0 <= t < 256
      ensures t != EOF ==> Pos() > old(Pos())
      // In any file, nothing is taken for a record that its checksum does not vouch for.
      ensures verify && t != EOF && t != BAD_RECORD ==>
                Unmask(DecodeFixed32(old(buffer))) == crc([t as Byte] + fragment)
      ensures old(Tracks(log, s)) ==>
                && reports == old(reports) && !Exhausted(s)
                && (t == EOF <==> old(Pos()) + NextFragment(old(offset), s).size > |file|)
      ensures old(Tracks(log, s)) && t != EOF ==>
                var f := NextFragment(old(offset), s);
                && t == f.typ && fragment == f.payload
                && Tracks(log, f.after) && offset == f.offset && Pos() == old(Pos()) + f.size
    {
      hide Bytes, NextFragment, DecodeFixed32, Unmask, Physical;
      ghost var tracked := Tracks(log, s);
      var header := buffer;
      var length := (header[4] as int) + 256 * (header[5] as int);
      t := header[6] as int;
      if HEADER_SIZE + length > |buffer| {
        var dropped := |buffer|;
        offset := offset + |buffer|;
        buffer := [];
        if !eof {
          ReportCorruption(dropped);
          return BAD_RECORD, [];
        }
        return EOF, [];
      }
      if t == 0 && length == 0 {
        // Preallocated space.
        offset := offset + |buffer|;
        buffer := [];
        return BAD_RECORD, [];
      }
      if verify {
        var expected := Unmask(DecodeFixed32(header));
        var actual := crc(header[6..HEADER_SIZE + length]);
        if actual != expected {
          var dropped := |buffer|;
          offset := offset + |buffer|;
          buffer := [];
          ReportCorruption(dropped);
          return BAD_RECORD, [];
        }
      }
      assert header[6..HEADER_SIZE + length] == [header[6]] + header[HEADER_SIZE..HEADER_SIZE + length];
      buffer := buffer[HEADER_SIZE + length..];
      offset := offset + HEADER_SIZE + length;
      return t, header[HEADER_SIZE..HEADER_SIZE + length];
    }

    /** ReadRecord: put the fragments of the next logical record together. In a prefix of a log it returns
        the next record if the prefix holds all of it, else nothing, and never reports a corruption. */
    method ReadRecord(ghost log: seq<Byte>, ghost later: seq<seq<Byte>>) returns (record: Option<seq<Byte>>)
      requires Valid()
      modifies this
      ensures Valid() && (record.Some? ==> Pos() > old(Pos()))
      ensures old(Tracks(log, Between(later))) ==>
                && reports == old(reports)
                && (record.Some? <==> later != [] && old(Pos()) + |Emit(crc, old(offset), later[0], true)| <= |file|)
      ensures old(Tracks(log, Between(later))) && record.Some? ==>
                && record.value == later[0] && Tracks(log, Between(later[1..]))
                && Pos() == old(Pos()) + |Emit(crc, old(offset), later[0], true)|
                && offset == EndOffset(old(offset), later[0])
    {
      hide Bytes, NextFragment, Emit, EndOffset;
      var scratch: seq<Byte> := [];
      var inFragmentedRecord := false;
      ghost var s := Between(later);
      ghost var end := if later == [] then 0 else Pos() + |Emit(crc, offset, later[0], true)|;
      ghost var endOffset := if later == [] then 0 else EndOffset(offset, later[0]);
      while true
        invariant Valid() && Pos() >= old(Pos())
        invariant old(Tracks(log, Between(later))) ==>
                    && Tracks(log, s) && reports == old(reports)
                    && Assembling(crc, later, s, scratch, inFragmentedRecord, Pos(), offset, end, endOffset)
        decreases |file| - Pos()
      {
        ghost var at, from := Pos(), offset;
        ghost var tracked := old(Tracks(log, Between(later)));
        if tracked && !Exhausted(s) {
          FragmentEndsInRecord(crc, later, s, scratch, inFragmentedRecord, at, from, end, endOffset);
        }
        var t, fragment := ReadPhysicalRecord(log, s);
        if tracked && t != EOF {
          FragmentContinues(crc, later, s, scratch, inFragmentedRecord, at, from, end, endOffset);
          s := NextFragment(from, s).after;
        }
        if t == FULL {
          if inFragmentedRecord && scratch != [] {
            ReportCorruption(|scratch|);
          }
          return Some(fragment);
        } else if t == FIRST {
          if inFragmentedRecord && scratch != [] {
            ReportCorruption(|scratch|);
          }
          scratch, inFragmentedRecord := fragment, true;
        } else if t == MIDDLE {
          if !inFragmentedRecord {
            ReportCorruption(|fragment|);
          } else {
            scratch := scratch + fragment;
          }
        } else if t == LAST {
          if !inFragmentedRecord {
            ReportCorruption(|fragment|);
          } else {
            scratch := scratch + fragment;
            return Some(scratch);
          }
        } else if t == EOF {
          // The writer died in the middle of a record.
          return None;
        } else if t == BAD_RECORD {
          if inFragmentedRecord {
            ReportCorruption(|scratch|);
            scratch, inFragmentedRecord := [], false;
          }
        } else {
          ReportCorruption(|fragment| + if inFragmentedRecord then |scratch| else 0);
          scratch, inFragmentedRecord := [], false;
        }
      }
    }
  }

  // ----- One fragment -----

  /** A position in a prefix of a log that ends a block early: skipping the filling. */
  lemma SkipFilling(crc: Checksum, file: seq<Byte>, log: seq<Byte>, s: Stream, filePos: nat, left: nat, offset: nat)
    requires left <= filePos <= |file| && file <= log && left < HEADER_SIZE && offset + left == BLOCK_SIZE
    requires log[filePos - left..] == Bytes(crc, offset, s)
    ensures log[filePos..] == Bytes(crc, 0, s)
    ensures !Exhausted(s) ==>
              && filePos + NextFragment(0, s).size == filePos - left + NextFragment(offset, s).size
              && NextFragment(0, s).(size := 0) == NextFragment(offset, s).(size := 0)
  {
    if Exhausted(s) {
      assert log[filePos..] == log[filePos - left..][left..];
    } else {
      hide Bytes, NextFragment;
      BytesFilled(crc, offset, s);
      assert log[filePos..] == log[filePos - left..][left..];
    }
  }

  /** Fewer bytes than a header are left, so the next fragment is not all there. */
  lemma NoRoomForHeader(crc: Checksum, file: seq<Byte>, log: seq<Byte>, s: Stream, offset: nat, left: nat)
    requires offset <= BLOCK_SIZE && left < HEADER_SIZE
    ensures Exhausted(s) || NextFragment(offset, s).size > left
  {
  }

  /** What the parser relies on when a whole header is in the buffer. */
  ghost predicate HeaderMatches(crc: Checksum, file: seq<Byte>, log: seq<Byte>, s: Stream, filePos: nat,
                                buffer: seq<Byte>, offset: nat)
    requires offset <= BLOCK_SIZE && |buffer| >= HEADER_SIZE
  {
    && !Exhausted(s)
    && var f := NextFragment(offset, s);
       var n := |f.payload|;
       && f.size == HEADER_SIZE + n && offset + HEADER_SIZE + n <= BLOCK_SIZE && f.offset == offset + HEADER_SIZE + n
       && (buffer[4] as int) + 256 * (buffer[5] as int) == n && buffer[6] == f.typ && f.typ != EOF && f.typ != 0
       && Unmask(DecodeFixed32(buffer)) == crc([f.typ] + f.payload)
       && (HEADER_SIZE + n <= |buffer| ==>
             && buffer[6..HEADER_SIZE + n] == [f.typ] + f.payload && buffer[HEADER_SIZE..HEADER_SIZE + n] == f.payload
             && filePos - |buffer| + f.size <= |log|
             && 0 <= filePos - |buffer|
             && log[filePos - |buffer| + f.size..] == Bytes(crc, f.offset, f.after))
  }

  lemma HeaderIsNext(crc: Checksum, file: seq<Byte>, log: seq<Byte>, s: Stream, filePos: nat, buffer: seq<Byte>,
                     offset: nat)
    requires HEADER_SIZE <= |buffer| <= filePos <= |file| && buffer == file[filePos - |buffer|..filePos]
    requires offset + |buffer| <= BLOCK_SIZE && file <= log && log[filePos - |buffer|..] == Bytes(crc, offset, s)
    ensures HeaderMatches(crc, file, log, s, filePos, buffer, offset)
  {
    hide Bytes, NextFragment, Physical, Unmask, DecodeFixed32;
    var pos := filePos - |buffer|;
    assert |log[pos..]| >= HEADER_SIZE;
    NotExhausted(crc, offset, s);
    BytesSplit(crc, offset, s);
    FragmentFacts(offset, s);
    var f := NextFragment(offset, s);
    PhysicalHeader(crc, f.typ, f.payload);
    var r, tail := Physical(crc, f.typ, f.payload), Bytes(crc, f.offset, f.after);
    assert buffer == log[pos..][..|buffer|] == (r + tail)[..|buffer|];
    assert forall i :: 0 <= i < HEADER_SIZE ==> buffer[i] == r[i];
    SameWord(buffer, r);
    if |r| <= |buffer| {
      assert buffer[..|r|] == r;
      assert buffer[6..|r|] == r[6..] && buffer[HEADER_SIZE..|r|] == r[HEADER_SIZE..];
      assert log[pos + |r|..] == log[pos..][|r|..] == tail;
    }
  }

  lemma NotExhausted(crc: Checksum, offset: nat, s: Stream)
    requires offset <= BLOCK_SIZE && Bytes(crc, offset, s) != []
    ensures !Exhausted(s)
  {
  }

  lemma FragmentFacts(offset: nat, s: Stream)
    requires HEADER_SIZE + offset <= BLOCK_SIZE && !Exhausted(s)
    ensures var f := NextFragment(offset, s);
            f.offset == offset + HEADER_SIZE + |f.payload| && f.size == HEADER_SIZE + |f.payload|
  {
  }

  lemma SameWord(a: seq<Byte>, b: seq<Byte>)
    requires |a| >= 4 && |b| >= 4 && a[0] == b[0] && a[1] == b[1] && a[2] == b[2] && a[3] == b[3]
    ensures DecodeFixed32(a) == DecodeFixed32(b)
  {
    assert a[..4] == b[..4];
  }

  // ----- One record -----

  /** The first of the later records is being put together: the scratch holds what has been read of it,
      the stream starts with the rest, and the rest ends where the record ends. */
  ghost predicate Assembling(crc: Checksum, later: seq<seq<Byte>>, s: Stream, scratch: seq<Byte>, inRecord: bool,
                             pos: int, offset: nat, end: int, endOffset: nat)
    requires offset <= BLOCK_SIZE
  {
    && (!inRecord ==> s == Between(later))
    && (!inRecord && later != [] ==>
          pos + |Emit(crc, offset, later[0], true)| == end && EndOffset(offset, later[0]) == endOffset)
    && (inRecord ==>
          && s.Within? && later != [] && s.later == later[1..] && scratch + s.rest == later[0]
          && pos + |Emit(crc, offset, s.rest, false)| == end && EndOffset(offset, s.rest) == endOffset)
  }

  lemma FragmentEndsInRecord(crc: Checksum, later: seq<seq<Byte>>, s: Stream, scratch: seq<Byte>, inRecord: bool,
                             pos: int, offset: nat, end: int, endOffset: nat)
    requires offset <= BLOCK_SIZE && !Exhausted(s) && Assembling(crc, later, s, scratch, inRecord, pos, offset, end, endOffset)
    ensures pos + NextFragment(offset, s).size <= end
  {
    hide NextFragment, Emit, EndOffset;
    RecordSplit(crc, offset, s);
  }

  /** After a fragment: the record is complete, or it goes on. */
  lemma FragmentContinues(crc: Checksum, later: seq<seq<Byte>>, s: Stream, scratch: seq<Byte>, inRecord: bool,
                          pos: int, offset: nat, end: int, endOffset: nat)
    requires offset <= BLOCK_SIZE && !Exhausted(s) && Assembling(crc, later, s, scratch, inRecord, pos, offset, end, endOffset)
    ensures later != []
    ensures var f := NextFragment(offset, s);
            var read := if inRecord then scratch + f.payload else f.payload;
            && f.offset <= BLOCK_SIZE
            && (f.typ == FULL || f.typ == FIRST || f.typ == MIDDLE || f.typ == LAST)
            && (f.typ == FULL || f.typ == FIRST <==> !inRecord)
            && (f.typ == FULL || f.typ == LAST ==>
                  read == later[0] && f.after == Between(later[1..]) && pos + f.size == end && f.offset == endOffset)
            && (f.typ == FIRST || f.typ == MIDDLE ==>
                  Assembling(crc, later, f.after, read, true, pos + f.size, f.offset, end, endOffset))
  {
    hide Emit, EndOffset;
    RecordSplit(crc, offset, s);
    var f := NextFragment(offset, s);
    var rest := if s.Between? then s.later[0] else s.rest;
    assert f.after.Within? ==> f.payload + f.after.rest == rest;
    if inRecord && f.after.Within? {
      assert scratch + f.payload + f.after.rest == scratch + (f.payload + f.after.rest);
    }
  }

  // ----- The whole log -----

  /** Crash safety: reading any prefix of a log returns exactly the records that lie wholly inside it, in
      order, and reports no corruption. */
  method ReadAll(crc: Checksum, file: seq<Byte>, verify: bool, ghost records: seq<seq<Byte>>)
    returns (out: seq<seq<Byte>>, reports: seq<nat>)
    requires file <= EmitMany(crc, 0, records)
    ensures reports == [] && out <= records && |EmitMany(crc, 0, out)| <= |file|
    ensures |out| < |records| ==> |EmitMany(crc, 0, records[..|out| + 1])| > |file|
  {
    hide Bytes, Emit, EmitMany, EndOffset, EndOffsetMany, Reader.Tracks, Reader.Valid;
    ghost var log := EmitMany(crc, 0, records);
    var reader := new Reader(crc, file, verify);
    out := [];
    ReadingStarts(crc, records);
    TracksFromStart(reader, log, records);
    ghost var n := 0;
    while true
      invariant reader.Valid() && fresh(reader) && reader.file == file && reader.crc == crc && reader.reports == []
      invariant n <= |records| && out == records[..n]
      invariant reader.Tracks(log, Between(records[n..]))
      invariant reader.Pos() == |EmitMany(crc, 0, records[..n])| && ReachedOffset(reader.offset, records[..n])
      decreases |records| - n
    {
      InsideFile(reader);
      if n < |records| {
        NextRecordEnds(crc, records, n, reader.offset);
        assert records[n..][0] == records[n] && records[n..][1..] == records[n + 1..];
      }
      var record := reader.ReadRecord(log, records[n..]);
      if record.None? {
        break;
      }
      out := out + [record.value];
      n := n + 1;
    }
    reports := reader.reports;
  }

  lemma TracksFromStart(reader: Reader, log: seq<Byte>, records: seq<seq<Byte>>)
    requires reader.Valid() && reader.file <= log && reader.Pos() == 0 && reader.offset == BLOCK_SIZE
    requires Bytes(reader.crc, BLOCK_SIZE, Between(records)) == log
    ensures reader.Tracks(log, Between(records))
  {
    assert log[0..] == log;
  }

  lemma InsideFile(reader: Reader)
    requires reader.Valid()
    ensures reader.Pos() <= |reader.file|
  {
  }

  /** Where in its block a reader stands after some records. */
  ghost predicate ReachedOffset(offset: nat, out: seq<seq<Byte>>) {
    offset <= BLOCK_SIZE && (offset == EndOffsetMany(0, out) || (out == [] && offset == BLOCK_SIZE))
  }

  lemma ReadingStarts(crc: Checksum, records: seq<seq<Byte>>)
    ensures Bytes(crc, BLOCK_SIZE, Between(records)) == EmitMany(crc, 0, records)
    ensures records[0..] == records && records[..0] == [] && EmitMany(crc, 0, []) == [] && ReachedOffset(BLOCK_SIZE, [])
  {
    BlockEndIsStart(crc, records);
  }

  lemma NextRecordEnds(crc: Checksum, records: seq<seq<Byte>>, n: nat, offset: nat)
    requires n < |records| && offset <= BLOCK_SIZE && ReachedOffset(offset, records[..n])
    ensures |EmitMany(crc, 0, records[..n + 1])|
         == |EmitMany(crc, 0, records[..n])| + |Emit(crc, offset, records[n], true)|
    ensures ReachedOffset(EndOffset(offset, records[n]), records[..n + 1])
  {
    hide Emit, EndOffset;
    assert records[..n + 1] == records[..n] + [records[n]];
    EmitOneMore(crc, 0, records[..n], records[n]);
    BlockEndIsStart(crc, records);
  }
}
