/** Block handles and the footer of a table (table/format.cc). */
module Footers {
  import opened Coding
  import opened Varints
  import opened VarintCodec
  import LogFormat

  datatype Handle = Handle(offset: nat, size: nat)

  const FOOTER_LENGTH := 48
  const MAGIC: nat := 0xdb47_7524_8b80_fb57

  function HandleBytes(h: Handle): seq<Byte> {
    Varint(h.offset) + Varint(h.size)
  }

  predicate HandleFits(h: Handle) {
    h.offset < TWO_TO_THE_64 && h.size < TWO_TO_THE_64
  }

  lemma HandleIsShort(h: Handle)
    requires HandleFits(h)
    ensures |HandleBytes(h)| <= 20
  {
    VarintSizes(h.offset);
    VarintSizes(h.size);
  }

  /** Footer::EncodeTo */
  function FooterBytes(meta: Handle, index: Handle): (r: seq<Byte>)
    requires HandleFits(meta) && HandleFits(index)
    ensures |r| == FOOTER_LENGTH
  {
    HandleIsShort(meta);
    HandleIsShort(index);
    var handles := HandleBytes(meta) + HandleBytes(index);
    handles + LogFormat.Zeros(40 - |handles|) + EncodeFixed32(MAGIC % TWO_TO_THE_32) + EncodeFixed32(MAGIC / TWO_TO_THE_32)
  }

  /** Two handles of two numbers each, zeros up to 40 bytes, and the magic number, lowest byte first. */
  lemma FooterForm(meta: Handle, index: Handle) returns (parts: seq<seq<Byte>>, padding: seq<Byte>)
    requires HandleFits(meta) && HandleFits(index)
    ensures |parts| == 4 && SaysNumber(parts[0], meta.offset) && SaysNumber(parts[1], meta.size)
    ensures SaysNumber(parts[2], index.offset) && SaysNumber(parts[3], index.size)
    ensures forall i :: 0 <= i < |padding| ==> padding[i] == 0
    ensures var r := FooterBytes(meta, index);
            && r[..40] == parts[0] + parts[1] + (parts[2] + parts[3]) + padding
            && LowFirst(r, 40) == 0x8b80_fb57 && LowFirst(r, 44) == 0xdb47_7524
  {
    hide SaysNumber, EncodeFixed32, LowFirst, DecodeFixed32;
    NumberForm(meta.offset);
    NumberForm(meta.size);
    NumberForm(index.offset);
    NumberForm(index.size);
    HandleIsShort(meta);
    HandleIsShort(index);
    parts := [Varint(meta.offset), Varint(meta.size), Varint(index.offset), Varint(index.size)];
    var handles := HandleBytes(meta) + HandleBytes(index);
    padding := LogFormat.Zeros(40 - |handles|);
    FooterEnds(meta, index);
    var r := FooterBytes(meta, index);
    assert r[..40] == handles + padding;
  }

  lemma FooterEnds(meta: Handle, index: Handle)
    requires HandleFits(meta) && HandleFits(index)
    ensures var r := FooterBytes(meta, index);
            && LowFirst(r, 40) == DecodeFixed32(r[40..]) == MAGIC % TWO_TO_THE_32
            && LowFirst(r, 44) == DecodeFixed32(r[44..]) == MAGIC / TWO_TO_THE_32
  {
    hide EncodeFixed32, LowFirst, DecodeFixed32, HandleBytes;
    HandleIsShort(meta);
    HandleIsShort(index);
    var r, low, high := FooterBytes(meta, index), MAGIC % TWO_TO_THE_32, MAGIC / TWO_TO_THE_32;
    assert r[40..] == EncodeFixed32(low) + EncodeFixed32(high);
    assert r[44..] == EncodeFixed32(high) + [];
    Fixed32RoundTrip(low, EncodeFixed32(high));
    Fixed32RoundTrip(high, []);
    DecodeIsLowFirst(r, 40);
    DecodeIsLowFirst(r, 44);
  }

  lemma FooterStarts(meta: Handle, index: Handle) returns (rest: seq<Byte>)
    requires HandleFits(meta) && HandleFits(index)
    ensures FooterBytes(meta, index) == HandleBytes(meta) + (HandleBytes(index) + rest)
  {
    hide EncodeFixed32, HandleBytes;
    var handles := HandleBytes(meta) + HandleBytes(index);
    HandleIsShort(meta);
    HandleIsShort(index);
    rest := LogFormat.Zeros(40 - |handles|) + EncodeFixed32(MAGIC % TWO_TO_THE_32) + EncodeFixed32(MAGIC / TWO_TO_THE_32);
    assert FooterBytes(meta, index) == handles + rest;
  }

  /** BlockHandle::EncodeTo */
  method EncodeHandle(h: Handle) returns (r: seq<Byte>)
    requires HandleFits(h)
    ensures r == HandleBytes(h)
  {
    hide Varint;
    var offset := EncodeVarint64(h.offset);
    var size := EncodeVarint64(h.size);
    r := offset + size;
  }

  /** BlockHandle::DecodeFrom */
  method DecodeHandle(input: seq<Byte>, ghost h: Handle, ghost rest: seq<Byte>)
    returns (ok: bool, handle: Handle, left: seq<Byte>)
    ensures HandleFits(h) && input == HandleBytes(h) + rest ==> ok && handle == h && left == rest
  {
    hide Varint;
    var offset: nat, size: nat := 0, 0;
    Regroup(Varint(h.offset), Varint(h.size), rest);
    ok, offset, left := GetVarint64(input, h.offset, Varint(h.size) + rest);
    if ok {
      ok, size, left := GetVarint64(left, h.size, rest);
    }
    handle := Handle(offset, size);
  }

  /** Footer::EncodeTo, step by step. */
  method EncodeFooter(meta: Handle, index: Handle) returns (r: seq<Byte>)
    requires HandleFits(meta) && HandleFits(index)
    ensures r == FooterBytes(meta, index)
  {
    hide HandleBytes, EncodeFixed32;
    HandleIsShort(meta);
    HandleIsShort(index);
    var first := EncodeHandle(meta);
    var second := EncodeHandle(index);
    r := first + second;
    r := r + LogFormat.Zeros(40 - |r|);
    r := r + EncodeFixed32(MAGIC % TWO_TO_THE_32);
    r := r + EncodeFixed32(MAGIC / TWO_TO_THE_32);
  }

  /** The footer of a file and Footer::DecodeFrom. A file without the magic number is no table. */
  method ReadFooter(file: seq<Byte>, ghost meta: Handle, ghost index: Handle)
    returns (ok: bool, metaHandle: Handle, indexHandle: Handle)
    ensures ok ==>
              |file| >= 48 && LowFirst(file, |file| - 8) == 0x8b80_fb57 && LowFirst(file, |file| - 4) == 0xdb47_7524
    ensures HandleFits(meta) && HandleFits(index) && |file| >= 48 && file[|file| - 48..] == FooterBytes(meta, index) ==>
              ok && metaHandle == meta && indexHandle == index
  {
    hide HandleBytes, DecodeFixed32, LowFirst, FooterBytes;
    metaHandle, indexHandle := Handle(0, 0), Handle(0, 0);
    if |file| < FOOTER_LENGTH {
      return false, metaHandle, indexHandle;
    }
    var footer := file[|file| - FOOTER_LENGTH..];
    ghost var good, rest := HandleFits(meta) && HandleFits(index) && footer == FooterBytes(meta, index), [];
    if good {
      FooterEnds(meta, index);
      rest := FooterStarts(meta, index);
    }
    MagicStands(file);
    var low, high := DecodeFixed32(footer[40..]), DecodeFixed32(footer[44..]);
    if high * TWO_TO_THE_32 + low != MAGIC {
      return false, metaHandle, indexHandle;
    }
    var left: seq<Byte>;
    ok, metaHandle, left := DecodeHandle(footer, meta, HandleBytes(index) + rest);
    if ok {
      ok, indexHandle, left := DecodeHandle(left, index, rest);
    }
  }

  lemma MagicStands(file: seq<Byte>)
    requires |file| >= 48
    ensures var footer := file[|file| - 48..];
            && DecodeFixed32(footer[40..]) == LowFirst(file, |file| - 8)
            && DecodeFixed32(footer[44..]) == LowFirst(file, |file| - 4)
  {
    hide DecodeFixed32, LowFirst;
    var footer := file[|file| - 48..];
    assert footer[40..] == file[|file| - 8..] && footer[44..] == file[|file| - 4..];
    DecodeIsLowFirst(file, |file| - 8);
    DecodeIsLowFirst(file, |file| - 4);
  }
}
