/** The bytes of a version edit (db/version_edit.cc): tagged items, in any order a decoder accepts and in one
    order an encoder writes. */
module EditCodec {
  import opened InternalKeys
  import opened Versions
  import opened Coding
  import opened Varints
  import opened VarintCodec

  /** What the log says about a table file; its keys are encoded internal keys. */
  datatype Meta = Meta(number: nat, size: nat, smallest: seq<Byte>, largest: seq<Byte>)

  /** The fields of an edit; None stands for a cleared has-flag. */
  datatype Fields = Fields(comparator: Option<seq<Byte>>, logNumber: Option<nat>, prevLogNumber: Option<nat>,
                           nextFile: Option<nat>, lastSequence: Option<nat>, pointers: seq<(nat, seq<Byte>)>,
                           deleted: set<(nat, nat)>, added: seq<(nat, Meta)>)

  datatype Item =
    | ComparatorItem(name: seq<Byte>)
    | LogNumberItem(n: nat)
    | NextFileItem(n: nat)
    | LastSequenceItem(n: nat)
    | PointerItem(level: nat, key: seq<Byte>)
    | DeletedItem(level: nat, number: nat)
    | AddedItem(level: nat, meta: Meta)
    | PrevLogNumberItem(n: nat)

  function Tag(item: Item): (t: nat)
    ensures 1 <= t <= 9
  {
    match item
    case ComparatorItem(_) => 1
    case LogNumberItem(_) => 2
    case NextFileItem(_) => 3
    case LastSequenceItem(_) => 4
    case PointerItem(_, _) => 5
    case DeletedItem(_, _) => 6
    case AddedItem(_, _) => 7
    case PrevLogNumberItem(_) => 9
  }

  function BodyBytes(item: Item): seq<Byte> {
    match item
    case ComparatorItem(name) => LengthPrefixed(name)
    case LogNumberItem(n) => Varint(n)
    case NextFileItem(n) => Varint(n)
    case LastSequenceItem(n) => Varint(n)
    case PointerItem(level, key) => Varint(level) + LengthPrefixed(key)
    case DeletedItem(level, number) => Varint(level) + Varint(number)
    case AddedItem(level, f) =>
      Varint(level) + (Varint(f.number) + (Varint(f.size) + (LengthPrefixed(f.smallest) + LengthPrefixed(f.largest))))
    case PrevLogNumberItem(n) => Varint(n)
  }

  function Encoding(items: seq<Item>): seq<Byte> {
    if items == [] then [] else Varint(Tag(items[0])) + (BodyBytes(items[0]) + Encoding(items[1..]))
  }

  predicate IsNumber(n: nat) {
    n < TWO_TO_THE_64
  }

  predicate IsSlice(b: seq<Byte>) {
    |b| < TWO_TO_THE_32
  }

  predicate MetaFits(f: Meta) {
    IsNumber(f.number) && IsNumber(f.size) && IsSlice(f.smallest) && IsSlice(f.largest)
  }

  predicate ItemFits(item: Item) {
    match item
    case ComparatorItem(name) => IsSlice(name)
    case LogNumberItem(n) => IsNumber(n)
    case NextFileItem(n) => IsNumber(n)
    case LastSequenceItem(n) => IsNumber(n)
    case PointerItem(level, key) => level < NUM_LEVELS && IsSlice(key)
    case DeletedItem(level, number) => level < NUM_LEVELS && IsNumber(number)
    case AddedItem(level, f) => level < NUM_LEVELS && MetaFits(f)
    case PrevLogNumberItem(n) => IsNumber(n)
  }

  ghost predicate AllItemsFit(items: seq<Item>) {
    forall i :: 0 <= i < |items| ==> ItemFits(items[i])
  }

  /** What reading an item does to an edit. */
  function Apply(item: Item, e: Fields): Fields {
    match item
    case ComparatorItem(name) => e.(comparator := Some(name))
    case LogNumberItem(n) => e.(logNumber := Some(n))
    case NextFileItem(n) => e.(nextFile := Some(n))
    case LastSequenceItem(n) => e.(lastSequence := Some(n))
    case PointerItem(level, key) => e.(pointers := e.pointers + [(level, key)])
    case DeletedItem(level, number) => e.(deleted := e.deleted + {(level, number)})
    case AddedItem(level, f) => e.(added := e.added + [(level, f)])
    case PrevLogNumberItem(n) => e.(prevLogNumber := Some(n))
  }

  function ApplyAll(items: seq<Item>, e: Fields): Fields {
    if items == [] then e else Apply(items[|items| - 1], ApplyAll(items[..|items| - 1], e))
  }

  /** VersionEdit::Clear leaves the compaction pointers alone. */
  function Cleared(e: Fields): Fields {
    Fields(None, None, None, None, None, e.pointers, {}, [])
  }

  const EMPTY := Fields(None, None, None, None, None, [], {}, [])

  // ----- The items of an edit, as an encoder writes them -----

  function NumberOf(n: Option<nat>): nat {
    if n.Some? then n.value else 0
  }

  function Scalar(present: bool, item: Item): seq<Item> {
    if present then [item] else []
  }

  function Scalars(e: Fields): seq<Item> {
    Scalar(e.comparator.Some?, ComparatorItem(if e.comparator.Some? then e.comparator.value else []))
    + Scalar(e.logNumber.Some?, LogNumberItem(NumberOf(e.logNumber)))
    + Scalar(e.prevLogNumber.Some?, PrevLogNumberItem(NumberOf(e.prevLogNumber)))
    + Scalar(e.nextFile.Some?, NextFileItem(NumberOf(e.nextFile)))
    + Scalar(e.lastSequence.Some?, LastSequenceItem(NumberOf(e.lastSequence)))
  }

  function Pointers(pointers: seq<(nat, seq<Byte>)>, n: nat): seq<Item>
    requires n <= |pointers|
  {
    seq(n, i requires 0 <= i < n => PointerItem(pointers[i].0, pointers[i].1))
  }

  function Deletions(order: seq<(nat, nat)>): seq<Item> {
    seq(|order|, i requires 0 <= i < |order| => DeletedItem(order[i].0, order[i].1))
  }

  function Additions(added: seq<(nat, Meta)>, n: nat): seq<Item>
    requires n <= |added|
  {
    seq(n, i requires 0 <= i < n => AddedItem(added[i].0, added[i].1))
  }

  predicate PairLess(a: (nat, nat), b: (nat, nat)) {
    a.0 < b.0 || (a.0 == b.0 && a.1 < b.1)
  }

  /** The deleted files in the order of their set. */
  ghost predicate Lists(order: seq<(nat, nat)>, deleted: set<(nat, nat)>) {
    && (forall p :: p in order <==> p in deleted)
    && (forall i, j :: 0 <= i < j < |order| ==> PairLess(order[i], order[j]))
  }

  function Items(e: Fields, order: seq<(nat, nat)>): seq<Item> {
    Scalars(e) + Pointers(e.pointers, |e.pointers|) + Deletions(order) + Additions(e.added, |e.added|)
  }

  ghost predicate FieldsFit(e: Fields) {
    && (e.comparator.Some? ==> IsSlice(e.comparator.value))
    && IsNumber(NumberOf(e.logNumber)) && IsNumber(NumberOf(e.prevLogNumber))
    && IsNumber(NumberOf(e.nextFile)) && IsNumber(NumberOf(e.lastSequence))
    && (forall i :: 0 <= i < |e.pointers| ==> e.pointers[i].0 < NUM_LEVELS && IsSlice(e.pointers[i].1))
    && (forall d :: d in e.deleted ==> d.0 < NUM_LEVELS && IsNumber(d.1))
    && (forall i :: 0 <= i < |e.added| ==> e.added[i].0 < NUM_LEVELS && MetaFits(e.added[i].1))
  }

  /** What a decoder accepts names only levels that exist. */
  ghost predicate LevelsExist(e: Fields) {
    && (forall d :: d in e.deleted ==> d.0 < NUM_LEVELS)
    && (forall a :: a in e.added ==> a.0 < NUM_LEVELS)
  }

  /** The bytes of an item, part by part: one byte for its kind, then its numbers and strings. Kind 8 is not
      used. */
  ghost predicate HasForm(item: Item, bytes: seq<Byte>, kind: Byte, numbers: seq<seq<Byte>>, texts: seq<seq<Byte>>) {
    match item
    case ComparatorItem(name) =>
      kind == 1 && |numbers| == 0 && |texts| == 1 && SaysText(texts[0], name) && bytes == [kind] + texts[0]
    case LogNumberItem(n) =>
      kind == 2 && |numbers| == 1 && |texts| == 0 && SaysNumber(numbers[0], n) && bytes == [kind] + numbers[0]
    case NextFileItem(n) =>
      kind == 3 && |numbers| == 1 && |texts| == 0 && SaysNumber(numbers[0], n) && bytes == [kind] + numbers[0]
    case LastSequenceItem(n) =>
      kind == 4 && |numbers| == 1 && |texts| == 0 && SaysNumber(numbers[0], n) && bytes == [kind] + numbers[0]
    case PointerItem(level, key) =>
      && kind == 5 && |numbers| == 1 && |texts| == 1 && SaysNumber(numbers[0], level) && SaysText(texts[0], key)
      && bytes == [kind] + numbers[0] + texts[0]
    case DeletedItem(level, number) =>
      && kind == 6 && |numbers| == 2 && |texts| == 0
      && SaysNumber(numbers[0], level) && SaysNumber(numbers[1], number)
      && bytes == [kind] + numbers[0] + numbers[1]
    case AddedItem(level, f) =>
      && kind == 7 && |numbers| == 3 && |texts| == 2
      && SaysNumber(numbers[0], level) && SaysNumber(numbers[1], f.number) && SaysNumber(numbers[2], f.size)
      && SaysText(texts[0], f.smallest) && SaysText(texts[1], f.largest)
      && bytes == [kind] + (numbers[0] + (numbers[1] + (numbers[2] + (texts[0] + texts[1]))))
    case PrevLogNumberItem(n) =>
      kind == 9 && |numbers| == 1 && |texts| == 0 && SaysNumber(numbers[0], n) && bytes == [kind] + numbers[0]
  }

  lemma ItemForm(item: Item) returns (kind: Byte, numbers: seq<seq<Byte>>, texts: seq<seq<Byte>>)
    ensures HasForm(item, Encoding([item]), kind, numbers, texts)
  {
    hide SaysNumber, SaysText, LengthPrefixed;
    match item {
      case ComparatorItem(name) => kind, numbers, texts := TextItemForm(item, name);
      case PointerItem(level, key) => kind, numbers, texts := PointerForm(item);
      case DeletedItem(level, number) => kind, numbers, texts := DeletedForm(item);
      case AddedItem(level, f) => kind, numbers, texts := AddedForm(item);
      case LogNumberItem(n) => kind, numbers, texts := NumberItemForm(item, n);
      case NextFileItem(n) => kind, numbers, texts := NumberItemForm(item, n);
      case LastSequenceItem(n) => kind, numbers, texts := NumberItemForm(item, n);
      case PrevLogNumberItem(n) => kind, numbers, texts := NumberItemForm(item, n);
    }
  }

  lemma OneItem(item: Item)
    ensures Encoding([item]) == [Tag(item)] + BodyBytes(item)
  {
    hide BodyBytes, Varint;
    VarintStep(Tag(item));
    assert [item][1..] == [];
    assert BodyBytes(item) + Encoding([]) == BodyBytes(item);
  }

  lemma NumberItemForm(item: Item, n: nat) returns (kind: Byte, numbers: seq<seq<Byte>>, texts: seq<seq<Byte>>)
    requires BodyBytes(item) == Varint(n)
    requires item in [LogNumberItem(n), NextFileItem(n), LastSequenceItem(n), PrevLogNumberItem(n)]
    ensures HasForm(item, Encoding([item]), kind, numbers, texts)
  {
    hide SaysNumber, SaysText, BodyBytes, Encoding;
    OneItem(item);
    NumberForm(n);
    kind, numbers, texts := Tag(item), [Varint(n)], [];
  }

  lemma TextItemForm(item: Item, name: seq<Byte>)
    returns (kind: Byte, numbers: seq<seq<Byte>>, texts: seq<seq<Byte>>)
    requires item == ComparatorItem(name)
    ensures HasForm(item, Encoding([item]), kind, numbers, texts)
  {
    hide SaysNumber, SaysText, LengthPrefixed, Encoding;
    OneItem(item);
    TextForm(name);
    kind, numbers, texts := 1, [], [LengthPrefixed(name)];
  }

  lemma PointerForm(item: Item) returns (kind: Byte, numbers: seq<seq<Byte>>, texts: seq<seq<Byte>>)
    requires item.PointerItem?
    ensures HasForm(item, Encoding([item]), kind, numbers, texts)
  {
    hide SaysNumber, SaysText, LengthPrefixed, Encoding;
    OneItem(item);
    NumberForm(item.level);
    TextForm(item.key);
    kind, numbers, texts := 5, [Varint(item.level)], [LengthPrefixed(item.key)];
  }

  lemma DeletedForm(item: Item) returns (kind: Byte, numbers: seq<seq<Byte>>, texts: seq<seq<Byte>>)
    requires item.DeletedItem?
    ensures HasForm(item, Encoding([item]), kind, numbers, texts)
  {
    hide SaysNumber, SaysText, LengthPrefixed, Encoding;
    OneItem(item);
    NumberForm(item.level);
    NumberForm(item.number);
    kind, numbers, texts := 6, [Varint(item.level), Varint(item.number)], [];
  }

  lemma AddedForm(item: Item) returns (kind: Byte, numbers: seq<seq<Byte>>, texts: seq<seq<Byte>>)
    requires item.AddedItem?
    ensures HasForm(item, Encoding([item]), kind, numbers, texts)
  {
    hide SaysNumber, SaysText, LengthPrefixed, Encoding;
    OneItem(item);
    var f := item.meta;
    NumberForm(item.level);
    NumberForm(f.number);
    NumberForm(f.size);
    TextForm(f.smallest);
    TextForm(f.largest);
    kind, numbers := 7, [Varint(item.level), Varint(f.number), Varint(f.size)];
    texts := [LengthPrefixed(f.smallest), LengthPrefixed(f.largest)];
  }

  // ----- Reading the items back -----

  lemma {:induction false} ApplyConcat(a: seq<Item>, b: seq<Item>, e: Fields)
    ensures ApplyAll(a + b, e) == ApplyAll(b, ApplyAll(a, e))
    decreases |b|
  {
    hide Apply;
    if b == [] {
      assert a + b == a;
    } else {
      assert (a + b)[..|a + b| - 1] == a + b[..|b| - 1];
      ApplyConcat(a, b[..|b| - 1], e);
    }
  }

  lemma ApplyScalar(present: bool, item: Item, e: Fields)
    ensures ApplyAll(Scalar(present, item), e) == if present then Apply(item, e) else e
  {
    hide Apply;
    assert [item][..0] == [];
  }

  lemma ApplyScalars(e: Fields, before: Fields)
    requires before == Cleared(before)
    ensures ApplyAll(Scalars(e), before)
         == Fields(e.comparator, e.logNumber, e.prevLogNumber, e.nextFile, e.lastSequence, before.pointers, {}, [])
  {
    hide ApplyAll, Scalar;
    var s1 := Scalar(e.comparator.Some?, ComparatorItem(if e.comparator.Some? then e.comparator.value else []));
    var s2 := Scalar(e.logNumber.Some?, LogNumberItem(NumberOf(e.logNumber)));
    var s3 := Scalar(e.prevLogNumber.Some?, PrevLogNumberItem(NumberOf(e.prevLogNumber)));
    var s4 := Scalar(e.nextFile.Some?, NextFileItem(NumberOf(e.nextFile)));
    var s5 := Scalar(e.lastSequence.Some?, LastSequenceItem(NumberOf(e.lastSequence)));
    ApplyConcat(s1 + s2 + s3 + s4, s5, before);
    ApplyConcat(s1 + s2 + s3, s4, before);
    ApplyConcat(s1 + s2, s3, before);
    ApplyConcat(s1, s2, before);
    var e1 := ApplyAll(s1, before);
    ApplyScalar(e.comparator.Some?, ComparatorItem(if e.comparator.Some? then e.comparator.value else []), before);
    ApplyScalar(e.logNumber.Some?, LogNumberItem(NumberOf(e.logNumber)), e1);
    var e2 := ApplyAll(s2, e1);
    ApplyScalar(e.prevLogNumber.Some?, PrevLogNumberItem(NumberOf(e.prevLogNumber)), e2);
    var e3 := ApplyAll(s3, e2);
    ApplyScalar(e.nextFile.Some?, NextFileItem(NumberOf(e.nextFile)), e3);
    var e4 := ApplyAll(s4, e3);
    ApplyScalar(e.lastSequence.Some?, LastSequenceItem(NumberOf(e.lastSequence)), e4);
  }

  lemma {:induction false} ApplyPointers(pointers: seq<(nat, seq<Byte>)>, n: nat, e: Fields)
    requires n <= |pointers|
    ensures ApplyAll(Pointers(pointers, n), e) == e.(pointers := e.pointers + pointers[..n])
  {
    if n > 0 {
      ApplyPointers(pointers, n - 1, e);
      assert Pointers(pointers, n)[..n - 1] == Pointers(pointers, n - 1);
      assert pointers[..n] == pointers[..n - 1] + [pointers[n - 1]];
    }
  }

  function PairsOf(order: seq<(nat, nat)>): set<(nat, nat)> {
    set p | p in order
  }

  lemma PairsOneMore(order: seq<(nat, nat)>)
    requires order != []
    ensures PairsOf(order) == PairsOf(order[..|order| - 1]) + {order[|order| - 1]}
  {
    assert order == order[..|order| - 1] + [order[|order| - 1]];
  }

  lemma DeletionsFront(order: seq<(nat, nat)>)
    requires order != []
    ensures var n := |order| - 1;
            Deletions(order)[..n] == Deletions(order[..n]) && Deletions(order)[n] == DeletedItem(order[n].0, order[n].1)
    ensures |Deletions(order)| == |order|
  {
  }

  lemma {:induction false} ApplyDeletions(order: seq<(nat, nat)>, e: Fields)
    ensures ApplyAll(Deletions(order), e) == e.(deleted := e.deleted + PairsOf(order))
  {
    if order != [] {
      hide PairsOf, Deletions;
      var n := |order| - 1;
      ApplyDeletions(order[..n], e);
      DeletionsFront(order);
      PairsOneMore(order);
      assert e.deleted + PairsOf(order[..n]) + {order[n]} == e.deleted + PairsOf(order);
    } else {
      assert PairsOf(order) == {};
    }
  }

  lemma {:induction false} ApplyAdditions(added: seq<(nat, Meta)>, n: nat, e: Fields)
    requires n <= |added|
    ensures ApplyAll(Additions(added, n), e) == e.(added := e.added + added[..n])
  {
    if n > 0 {
      ApplyAdditions(added, n - 1, e);
      assert Additions(added, n)[..n - 1] == Additions(added, n - 1);
      assert added[..n] == added[..n - 1] + [added[n - 1]];
    }
  }

  /** The items of an edit, read into a cleared edit, give the edit back; only the compaction pointers of the
      edit read into stay in front. */
  lemma ItemsRestore(e: Fields, order: seq<(nat, nat)>, before: Fields)
    requires Lists(order, e.deleted)
    ensures ApplyAll(Items(e, order), Cleared(before)) == e.(pointers := before.pointers + e.pointers)
  {
    hide ApplyAll, Apply, Scalars, Pointers, Deletions, Additions;
    var a, b, c, d := Scalars(e), Pointers(e.pointers, |e.pointers|), Deletions(order), Additions(e.added, |e.added|);
    var start := Cleared(before);
    ApplyConcat(a + b + c, d, start);
    ApplyConcat(a + b, c, start);
    ApplyConcat(a, b, start);
    ApplyScalars(e, start);
    var e1 := ApplyAll(a, start);
    ApplyPointers(e.pointers, |e.pointers|, e1);
    var e2 := ApplyAll(b, e1);
    ApplyDeletions(order, e2);
    ApplyAdditions(e.added, |e.added|, ApplyAll(c, e2));
    assert e.pointers[..|e.pointers|] == e.pointers && e.added[..|e.added|] == e.added;
    assert PairsOf(order) == e.deleted;
  }

  lemma ItemsAllFit(e: Fields, order: seq<(nat, nat)>)
    requires FieldsFit(e) && Lists(order, e.deleted)
    ensures AllItemsFit(Items(e, order))
  {
    hide Lists, FieldsFit, Scalars, Pointers, Deletions, Additions, AllItemsFit;
    ScalarsFit(e);
    ListsFit(e, order);
    var a, b, c, d := Scalars(e), Pointers(e.pointers, |e.pointers|), Deletions(order), Additions(e.added, |e.added|);
    BothFit(a, b);
    BothFit(a + b, c);
    BothFit(a + b + c, d);
  }

  lemma ScalarsFit(e: Fields)
    requires FieldsFit(e)
    ensures AllItemsFit(Scalars(e))
  {
  }

  lemma ListsFit(e: Fields, order: seq<(nat, nat)>)
    requires FieldsFit(e) && Lists(order, e.deleted)
    ensures AllItemsFit(Pointers(e.pointers, |e.pointers|)) && AllItemsFit(Deletions(order))
    ensures AllItemsFit(Additions(e.added, |e.added|))
  {
    forall i | 0 <= i < |order|
      ensures ItemFits(Deletions(order)[i])
    {
      assert order[i] in order;
    }
  }

  lemma BothFit(a: seq<Item>, b: seq<Item>)
    requires AllItemsFit(a) && AllItemsFit(b)
    ensures AllItemsFit(a + b)
  {
    hide ItemFits;
  }

  // ----- Bytes -----

  lemma {:induction false} EncodingOneMore(items: seq<Item>, item: Item)
    ensures Encoding(items + [item]) == Encoding(items) + (Varint(Tag(item)) + BodyBytes(item))
  {
    hide Varint, BodyBytes, Tag;
    var all := items + [item];
    if items == [] {
      assert all[1..] == [];
      assert Varint(Tag(item)) + (BodyBytes(item) + []) == Varint(Tag(item)) + BodyBytes(item);
    } else {
      assert all[1..] == items[1..] + [item];
      EncodingOneMore(items[1..], item);
      var h, b, t, x := Varint(Tag(items[0])), BodyBytes(items[0]), Encoding(items[1..]), Varint(Tag(item)) + BodyBytes(item);
      assert h + (b + (t + x)) == (h + (b + t)) + x;
    }
  }

  /** One item, as EncodeTo appends it. */
  method PutItem(dst: seq<Byte>, item: Item) returns (r: seq<Byte>)
    requires ItemFits(item)
    ensures r == dst + (Varint(Tag(item)) + BodyBytes(item))
  {
    hide Varint;
    var tag := EncodeVarint32(Tag(item));
    var body := PutBody(item);
    r := dst + (tag + body);
  }

  method PutBody(item: Item) returns (r: seq<Byte>)
    requires ItemFits(item)
    ensures r == BodyBytes(item)
  {
    hide Varint;
    match item
    case ComparatorItem(name) => r := PutSlice(name);
    case LogNumberItem(n) => r := EncodeVarint64(n);
    case NextFileItem(n) => r := EncodeVarint64(n);
    case LastSequenceItem(n) => r := EncodeVarint64(n);
    case PrevLogNumberItem(n) => r := EncodeVarint64(n);
    case PointerItem(level, key) =>
      var l := EncodeVarint32(level);
      var k := PutSlice(key);
      r := l + k;
    case DeletedItem(level, number) =>
      var l := EncodeVarint32(level);
      var n := EncodeVarint64(number);
      r := l + n;
    case AddedItem(level, f) =>
      var l := EncodeVarint32(level);
      var n := EncodeVarint64(f.number);
      var size := EncodeVarint64(f.size);
      var smallest := PutSlice(f.smallest);
      var largest := PutSlice(f.largest);
      r := l + (n + (size + (smallest + largest)));
  }

  /** PutLengthPrefixedSlice */
  method PutSlice(b: seq<Byte>) returns (r: seq<Byte>)
    requires IsSlice(b)
    ensures r == LengthPrefixed(b)
  {
    hide Varint;
    var length := EncodeVarint32(|b|);
    r := length + b;
  }

  /** Parts that are read as the body of an item, after a tag. */
  ghost predicate IsBody(tag: nat, parts: seq<seq<Byte>>, item: Item) {
    match item
    case ComparatorItem(name) => tag == 1 && |parts| == 1 && ReadsAs(parts[0], name)
    case LogNumberItem(n) => tag == 2 && |parts| == 1 && Reads64(parts[0], n)
    case NextFileItem(n) => tag == 3 && |parts| == 1 && Reads64(parts[0], n)
    case LastSequenceItem(n) => tag == 4 && |parts| == 1 && Reads64(parts[0], n)
    case PointerItem(level, key) =>
      tag == 5 && |parts| == 2 && Reads32(parts[0], level) && level < 7 && ReadsAs(parts[1], key)
    case DeletedItem(level, number) =>
      tag == 6 && |parts| == 2 && Reads32(parts[0], level) && level < 7 && Reads64(parts[1], number)
    case AddedItem(level, f) =>
      && tag == 7 && |parts| == 5 && Reads32(parts[0], level) && level < 7
      && Reads64(parts[1], f.number) && Reads64(parts[2], f.size)
      && ReadsAs(parts[3], f.smallest) && ReadsAs(parts[4], f.largest)
    case PrevLogNumberItem(n) => tag == 9 && |parts| == 1 && Reads64(parts[0], n)
  }

  /** Bytes that are read as an item. */
  ghost predicate IsItem(b: seq<Byte>, item: Item) {
    exists head, tag, parts :: Reads32(head, tag) && IsBody(tag, parts, item) && b == head + Joined(parts)
  }

  ghost predicate Spell(pieces: seq<seq<Byte>>, items: seq<Item>) {
    |pieces| == |items| && forall i :: 0 <= i < |pieces| ==> IsItem(pieces[i], items[i])
  }

  lemma ItemTaken(before: seq<Byte>, middle: seq<Byte>, after: seq<Byte>, tag: nat, parts: seq<seq<Byte>>, item: Item)
    requires IsRest(middle, before) && Reads32(Took(before, middle), tag)
    requires IsRest(after, middle) && Took(middle, after) == Joined(parts) && IsBody(tag, parts, item)
    ensures IsRest(after, before) && IsItem(Took(before, after), item)
  {
    hide Reads32, IsBody, Joined;
    TookTwice(before, middle, after);
  }

  lemma OneMorePiece(start: seq<Byte>, before: seq<Byte>, after: seq<Byte>, pieces: seq<seq<Byte>>, items: seq<Item>,
                     item: Item)
    requires IsRest(before, start) && Took(start, before) == Joined(pieces) && Spell(pieces, items)
    requires IsRest(after, before) && IsItem(Took(before, after), item)
    ensures IsRest(after, start) && Took(start, after) == Joined(pieces + [Took(before, after)])
    ensures Spell(pieces + [Took(before, after)], items + [item])
  {
    hide IsItem, Joined;
    JoinedOneMore(start, before, after, pieces);
  }

  /** GetLevel: a level that does not exist is malformed. */
  method GetLevel(input: seq<Byte>, ghost level: nat, ghost rest: seq<Byte>) returns (ok: bool, value: nat, left: seq<Byte>)
    ensures |left| <= |input| && (ok ==> value < NUM_LEVELS)
    ensures ok ==> IsRest(left, input) && Reads32(Took(input, left), value)
    ensures level < NUM_LEVELS && input == Varint(level) + rest ==> ok && value == level && left == rest
  {
    hide Varint, Reads32;
    ok, value, left := GetVarint32(input, level, rest);
    ok := ok && value < NUM_LEVELS;
  }

  /** The body that a tag announces: what is accepted fits, and the body of an item that fits is accepted. */
  method GetBody(tag: nat, input: seq<Byte>, ghost item: Item, ghost rest: seq<Byte>)
    returns (ok: bool, found: Item, left: seq<Byte>, ghost parts: seq<seq<Byte>>)
    ensures |left| <= |input| && (ok ==> Tag(found) == tag && LevelFits(found))
    ensures ok ==> IsRest(left, input) && Took(input, left) == Joined(parts) && IsBody(tag, parts, found)
    ensures tag == Tag(item) && ItemFits(item) && input == BodyBytes(item) + rest ==> ok && found == item && left == rest
  {
    hide Varint, LengthPrefixed, Joined, Reads32, Reads64, ReadsAs;
    NothingJoined(input);
    found, parts := LogNumberItem(0), [];
    if tag == 1 {
      ghost var name := if item.ComparatorItem? then item.name else [];
      var slice: seq<Byte>;
      ok, slice, left := GetLengthPrefixed(input, name, rest);
      found := ComparatorItem(slice);
      parts := TakePart(ok, input, input, left, parts);
    } else if tag == 2 || tag == 3 || tag == 4 || tag == 9 {
      ghost var number := ItemNumber(item);
      var n: nat;
      ok, n, left := GetVarint64(input, number, rest);
      found := if tag == 2 then LogNumberItem(n) else if tag == 3 then NextFileItem(n)
               else if tag == 4 then LastSequenceItem(n) else PrevLogNumberItem(n);
      parts := TakePart(ok, input, input, left, parts);
    } else if tag == 5 {
      ok, found, left, parts := GetPointer(input, item, rest);
    } else if tag == 6 {
      ok, found, left, parts := GetDeleted(input, item, rest);
    } else if tag == 7 {
      ok, found, left, parts := GetAdded(input, item, rest);
    } else {
      ok, left := false, input;
    }
  }

  /** What has just been read is one more part. */
  lemma TakePart(ok: bool, start: seq<Byte>, before: seq<Byte>, after: seq<Byte>, parts: seq<seq<Byte>>)
    returns (more: seq<seq<Byte>>)
    requires IsRest(before, start) && Took(start, before) == Joined(parts)
    requires ok ==> IsRest(after, before)
    ensures ok ==>
              && more == parts + [Took(before, after)]
              && IsRest(after, start) && Took(start, after) == Joined(more)
  {
    hide Joined;
    more := parts;
    if ok {
      more := parts + [Took(before, after)];
      JoinedOneMore(start, before, after, parts);
    }
  }

  predicate LevelFits(item: Item) {
    item.PointerItem? || item.DeletedItem? || item.AddedItem? ==> item.level < NUM_LEVELS
  }

  ghost function ItemNumber(item: Item): nat {
    match item
    case LogNumberItem(n) => n
    case NextFileItem(n) => n
    case LastSequenceItem(n) => n
    case PrevLogNumberItem(n) => n
    case _ => 0
  }

  method GetPointer(input: seq<Byte>, ghost item: Item, ghost rest: seq<Byte>)
    returns (ok: bool, found: Item, left: seq<Byte>, ghost parts: seq<seq<Byte>>)
    ensures |left| <= |input| && found.PointerItem? && (ok ==> found.level < NUM_LEVELS)
    ensures ok ==> IsRest(left, input) && Took(input, left) == Joined(parts) && IsBody(5, parts, found)
    ensures item.PointerItem? && ItemFits(item) && input == BodyBytes(item) + rest ==> ok && found == item && left == rest
  {
    hide Varint, LengthPrefixed, Joined, Reads32, ReadsAs;
    NothingJoined(input);
    ghost var it := if item.PointerItem? then item else PointerItem(0, []);
    ghost var tail := LengthPrefixed(it.key) + rest;
    assert BodyBytes(it) + rest == Varint(it.level) + tail;
    var level: nat, key: seq<Byte>;
    ok, level, left := GetLevel(input, it.level, tail);
    parts := TakePart(ok, input, input, left, []);
    found := PointerItem(level, []);
    if ok {
      ghost var before := left;
      ok, key, left := GetLengthPrefixed(left, it.key, rest);
      parts := TakePart(ok, input, before, left, parts);
      found := PointerItem(level, key);
    }
  }

  method GetDeleted(input: seq<Byte>, ghost item: Item, ghost rest: seq<Byte>)
    returns (ok: bool, found: Item, left: seq<Byte>, ghost parts: seq<seq<Byte>>)
    ensures |left| <= |input| && found.DeletedItem? && (ok ==> found.level < NUM_LEVELS)
    ensures ok ==> IsRest(left, input) && Took(input, left) == Joined(parts) && IsBody(6, parts, found)
    ensures item.DeletedItem? && ItemFits(item) && input == BodyBytes(item) + rest ==> ok && found == item && left == rest
  {
    hide Varint, Joined, Reads32, Reads64;
    NothingJoined(input);
    ghost var it := if item.DeletedItem? then item else DeletedItem(0, 0);
    assert BodyBytes(it) + rest == Varint(it.level) + (Varint(it.number) + rest);
    var level: nat, number: nat;
    ok, level, left := GetLevel(input, it.level, Varint(it.number) + rest);
    parts := TakePart(ok, input, input, left, []);
    found := DeletedItem(level, 0);
    if ok {
      ghost var before := left;
      ok, number, left := GetVarint64(left, it.number, rest);
      parts := TakePart(ok, input, before, left, parts);
      found := DeletedItem(level, number);
    }
  }

  method GetAdded(input: seq<Byte>, ghost item: Item, ghost rest: seq<Byte>)
    returns (ok: bool, found: Item, left: seq<Byte>, ghost parts: seq<seq<Byte>>)
    ensures |left| <= |input| && found.AddedItem? && (ok ==> found.level < NUM_LEVELS)
    ensures ok ==> IsRest(left, input) && Took(input, left) == Joined(parts) && IsBody(7, parts, found)
    ensures item.AddedItem? && ItemFits(item) && input == BodyBytes(item) + rest ==> ok && found == item && left == rest
  {
    hide Varint, LengthPrefixed, Joined, Reads32, Reads64, ReadsAs, BodyBytes;
    ghost var it := if item.AddedItem? then item else AddedItem(0, Meta(0, 0, [], []));
    ghost var f := it.meta;
    ghost var tail := LengthPrefixed(f.largest) + rest;
    AddedParts(it.level, f, rest);
    var level: nat, number: nat, size: nat;
    var smallest: seq<Byte>, largest: seq<Byte> := [], [];
    ok, level, number, size, left, parts := GetFileNumbers(input, it.level, f, LengthPrefixed(f.smallest) + tail);
    ghost var before := left;
    if ok {
      ok, smallest, left := GetLengthPrefixed(left, f.smallest, tail);
      parts := TakePart(ok, input, before, left, parts);
    }
    if ok {
      before := left;
      ok, largest, left := GetLengthPrefixed(left, f.largest, rest);
      parts := TakePart(ok, input, before, left, parts);
    }
    found := AddedItem(level, Meta(number, size, smallest, largest));
  }

  /** The level, number and size of an added file. */
  method GetFileNumbers(input: seq<Byte>, ghost l: nat, ghost f: Meta, ghost rest: seq<Byte>)
    returns (ok: bool, level: nat, number: nat, size: nat, left: seq<Byte>, ghost parts: seq<seq<Byte>>)
    ensures |left| <= |input| && (ok ==> level < NUM_LEVELS)
    ensures ok ==>
              && IsRest(left, input) && Took(input, left) == Joined(parts) && |parts| == 3
              && Reads32(parts[0], level) && Reads64(parts[1], number) && Reads64(parts[2], size)
    ensures l < NUM_LEVELS && MetaFits(f) && input == Varint(l) + (Varint(f.number) + (Varint(f.size) + rest)) ==>
              ok && level == l && number == f.number && size == f.size && left == rest
  {
    hide Varint, Joined, Reads32, Reads64;
    NothingJoined(input);
    level, number, size := 0, 0, 0;
    ok, level, left := GetLevel(input, l, Varint(f.number) + (Varint(f.size) + rest));
    parts := TakePart(ok, input, input, left, []);
    ghost var before := left;
    if ok {
      ok, number, left := GetVarint64(left, f.number, Varint(f.size) + rest);
      parts := TakePart(ok, input, before, left, parts);
    }
    if ok {
      before := left;
      ok, size, left := GetVarint64(left, f.size, rest);
      parts := TakePart(ok, input, before, left, parts);
    }
  }

  lemma AddedParts(level: nat, f: Meta, rest: seq<Byte>)
    ensures BodyBytes(AddedItem(level, f)) + rest
         == Varint(level) + (Varint(f.number) + (Varint(f.size) + (LengthPrefixed(f.smallest) + (LengthPrefixed(f.largest) + rest))))
  {
    hide Varint, LengthPrefixed;
  }

  // ----- The edit -----

  class VersionEdit {
    var comparator: Option<seq<Byte>>
    var logNumber: Option<nat>
    var prevLogNumber: Option<nat>
    var nextFile: Option<nat>
    var lastSequence: Option<nat>
    var pointers: seq<(nat, seq<Byte>)>
    var deleted: set<(nat, nat)>
    var added: seq<(nat, Meta)>

    function State(): Fields
      reads this
    {
      Fields(comparator, logNumber, prevLogNumber, nextFile, lastSequence, pointers, deleted, added)
    }

    constructor ()
      ensures State() == EMPTY
    {
      comparator, logNumber, prevLogNumber, nextFile, lastSequence := None, None, None, None, None;
      pointers, deleted, added := [], {}, [];
    }

    method Clear()
      modifies this
      ensures State() == Cleared(old(State()))
    {
      comparator, logNumber, prevLogNumber, nextFile, lastSequence := None, None, None, None, None;
      deleted, added := {}, [];
    }

    /** Append the encoding of the edit. */
    method EncodeTo(dst: seq<Byte>) returns (r: seq<Byte>, ghost order: seq<(nat, nat)>)
      requires FieldsFit(State())
      ensures Lists(order, deleted) && r == dst + Encoding(Items(State(), order))
    {
      hide Encoding, BodyBytes, Varint, Pointers, Deletions, Additions, Scalars, Tag;
      NoItemsYet(State(), dst);
      r := PutScalars(dst);
      ghost var items := Scalars(State());
      for i := 0 to |pointers|
        invariant items == Scalars(State()) + Pointers(pointers, i) && r == dst + Encoding(items)
      {
        var item := PointerItem(pointers[i].0, pointers[i].1);
        NextPointer(pointers, i);
        r, items := AppendItem(dst, r, items, item);
      }
      r, items, order := PutDeletions(dst, r, items);
      ghost var before := items;
      for i := 0 to |added|
        invariant items == before + Additions(added, i) && r == dst + Encoding(items)
      {
        var item := AddedItem(added[i].0, added[i].1);
        NextAddition(added, i);
        r, items := AppendItem(dst, r, items, item);
      }
    }

    /** The deleted files, in the order of their set. */
    method PutDeletions(dst: seq<Byte>, r: seq<Byte>, ghost items: seq<Item>)
      returns (r': seq<Byte>, ghost items': seq<Item>, ghost order: seq<(nat, nat)>)
      requires FieldsFit(State()) && r == dst + Encoding(items)
      ensures Lists(order, deleted) && items' == items + Deletions(order) && r' == dst + Encoding(items')
    {
      hide Encoding, Deletions, Listing, PairLess;
      NoItemsYet(State(), dst);
      ListingStarts(deleted);
      r', items', order := r, items, [];
      var pending := deleted;
      while pending != {}
        invariant Listing(order, pending, deleted)
        invariant items' == items + Deletions(order) && r' == dst + Encoding(items')
        decreases |pending|
      {
        var d := LeastOf(pending);
        NextDeletion(order, d);
        ListingFits(order, pending, State(), d);
        r', items' := AppendItem(dst, r', items', DeletedItem(d.0, d.1));
        ListsOneMore(order, pending, deleted, d);
        order, pending := order + [d], pending - {d};
      }
      ListingEnds(order, deleted);
    }

    /** The fields that are there at most once. */
    method PutScalars(dst: seq<Byte>) returns (r: seq<Byte>)
      requires FieldsFit(State())
      ensures r == dst + Encoding(Scalars(State()))
    {
      hide Encoding, Scalar;
      NoItemsYet(State(), dst);
      ghost var items: seq<Item> := [];
      r, items := PutScalar(dst, dst, items, comparator.Some?,
                            ComparatorItem(if comparator.Some? then comparator.value else []));
      assert items == Scalar(comparator.Some?, ComparatorItem(if comparator.Some? then comparator.value else []));
      r, items := PutScalar(dst, r, items, logNumber.Some?, LogNumberItem(NumberOf(logNumber)));
      r, items := PutScalar(dst, r, items, prevLogNumber.Some?, PrevLogNumberItem(NumberOf(prevLogNumber)));
      r, items := PutScalar(dst, r, items, nextFile.Some?, NextFileItem(NumberOf(nextFile)));
      r, items := PutScalar(dst, r, items, lastSequence.Some?, LastSequenceItem(NumberOf(lastSequence)));
    }

    /** One case of DecodeFrom's switch. */
    method Set(item: Item)
      modifies this
      ensures State() == Apply(item, old(State()))
    {
      match item
      case ComparatorItem(name) => comparator := Some(name);
      case LogNumberItem(n) => logNumber := Some(n);
      case NextFileItem(n) => nextFile := Some(n);
      case LastSequenceItem(n) => lastSequence := Some(n);
      case PointerItem(level, key) => pointers := pointers + [(level, key)];
      case DeletedItem(level, number) => deleted := deleted + {(level, number)};
      case AddedItem(level, f) => added := added + [(level, f)];
      case PrevLogNumberItem(n) => prevLogNumber := Some(n);
    }

    /** Read an edit: the encoding of any items that fit is accepted and read in order. On any input the edit holds
        what was read item by item from its front, and all of it was if it is accepted. */
    method DecodeFrom(src: seq<Byte>, ghost items: seq<Item>)
      returns (ok: bool, ghost read: seq<Item>, ghost pieces: seq<seq<Byte>>)
      modifies this
      ensures State() == ApplyAll(read, Cleared(old(State()))) && Spell(pieces, read) && Joined(pieces) <= src
      ensures ok ==> LevelsExist(State()) && Joined(pieces) == src
      ensures AllItemsFit(items) && src == Encoding(items) ==> ok && State() == ApplyAll(items, Cleared(old(State())))
    {
      hide Encoding, BodyBytes, Varint, Tag, Apply, ApplyAll, ItemFits, LevelFits, IsItem, IsBody, Joined, Spell, Reads32;
      ghost var start := Cleared(State());
      ghost var good := AllItemsFit(items) && src == Encoding(items);
      ghost var n := 0;
      Clear();
      NothingRead(items, start);
      NothingJoined(src);
      read, pieces := [], [];
      var input := src;
      ghost var at := src;
      ok := true;
      while ok
        invariant ok ==> LevelsExist(State()) && input == at
        invariant State() == ApplyAll(read, start) && Spell(pieces, read)
        invariant IsRest(at, src) && Took(src, at) == Joined(pieces)
        invariant good ==> ok && n <= |items| && input == Encoding(items[n..]) && State() == ApplyAll(items[..n], start)
        decreases |input|, ok
      {
        ghost var item, rest := LogNumberItem(0), [];
        if good {
          EndOfItems(items, n);
          if n < |items| {
            item, rest := items[n], Encoding(items[n + 1..]);
          }
        }
        var got, tag, left := GetVarint32(input, Tag(item), BodyBytes(item) + rest);
        if !got {
          break;
        }
        var found: Item;
        ghost var middle, parts := left, [];
        ok, found, left, parts := GetBody(tag, left, item, rest);
        if ok {
          AppliedLevels(found, State());
          ItemTaken(input, middle, left, tag, parts, found);
          OneMorePiece(src, input, left, pieces, read, found);
          AppliedOneMore(read, found, start);
          Set(found);
          read, pieces, at := read + [found], pieces + [Took(input, left)], left;
          if good {
            ReadOneMore(items, n, start);
          }
          n := n + 1;
        }
        input := left;
      }
      assert items[..|items|] == items;
      PiecesInFront(src, at, pieces);
      ok := ok && input == [];
    }
  }

  lemma NoItemsYet(e: Fields, dst: seq<Byte>)
    ensures dst + Encoding([]) == dst && Scalars(e) + Pointers(e.pointers, 0) == Scalars(e)
    ensures Deletions([]) == [] && Additions(e.added, 0) == []
  {
  }

  method PutScalar(dst: seq<Byte>, r: seq<Byte>, ghost items: seq<Item>, present: bool, item: Item)
    returns (r': seq<Byte>, ghost items': seq<Item>)
    requires r == dst + Encoding(items) && ItemFits(item)
    ensures items' == items + Scalar(present, item) && r' == dst + Encoding(items')
  {
    hide Encoding;
    r', items' := r, items;
    if present {
      r', items' := AppendItem(dst, r, items, item);
    }
  }

  method AppendItem(dst: seq<Byte>, r: seq<Byte>, ghost items: seq<Item>, item: Item)
    returns (r': seq<Byte>, ghost items': seq<Item>)
    requires r == dst + Encoding(items) && ItemFits(item)
    ensures items' == items + [item] && r' == dst + Encoding(items')
  {
    hide Encoding, BodyBytes, Varint, Tag;
    EncodingOneMore(items, item);
    r' := PutItem(r, item);
    items' := items + [item];
  }

  lemma NextPointer(pointers: seq<(nat, seq<Byte>)>, i: nat)
    requires i < |pointers|
    ensures Pointers(pointers, i + 1) == Pointers(pointers, i) + [PointerItem(pointers[i].0, pointers[i].1)]
  {
  }

  lemma NextDeletion(order: seq<(nat, nat)>, d: (nat, nat))
    ensures Deletions(order + [d]) == Deletions(order) + [DeletedItem(d.0, d.1)]
  {
  }

  lemma NextAddition(added: seq<(nat, Meta)>, i: nat)
    requires i < |added|
    ensures Additions(added, i + 1) == Additions(added, i) + [AddedItem(added[i].0, added[i].1)]
  {
  }

  lemma {:induction false} LeastExists(pairs: set<(nat, nat)>)
    requires pairs != {}
    ensures exists d :: d in pairs && forall x :: x in pairs ==> x == d || PairLess(d, x)
    decreases |pairs|
  {
    var p :| p in pairs;
    var rest := pairs - {p};
    if rest == {} {
      assert forall x :: x in pairs ==> x == p || x in rest;
    } else {
      LeastExists(rest);
      var d :| d in rest && forall x :: x in rest ==> x == d || PairLess(d, x);
      var least := if PairLess(p, d) then p else d;
      assert forall x :: x in pairs ==> x == p || x in rest;
      assert forall x :: x in pairs ==> x == least || PairLess(least, x);
    }
  }

  method LeastOf(pairs: set<(nat, nat)>) returns (d: (nat, nat))
    requires pairs != {}
    ensures d in pairs && forall x :: x in pairs ==> x == d || PairLess(d, x)
  {
    LeastExists(pairs);
    d :| d in pairs && forall x :: x in pairs ==> x == d || PairLess(d, x);
  }

  /** The first pairs of a set, in order; the others are pending. */
  ghost predicate Listing(order: seq<(nat, nat)>, pending: set<(nat, nat)>, all: set<(nat, nat)>) {
    && pending <= all && Lists(order, all - pending)
    && forall a, b :: a in order && b in pending ==> PairLess(a, b)
  }

  lemma ListingStarts(all: set<(nat, nat)>)
    ensures Listing([], all, all)
  {
  }

  lemma ListingFits(order: seq<(nat, nat)>, pending: set<(nat, nat)>, e: Fields, d: (nat, nat))
    requires Listing(order, pending, e.deleted) && d in pending && FieldsFit(e)
    ensures ItemFits(DeletedItem(d.0, d.1))
  {
    assert d in e.deleted;
  }

  lemma ListsOneMore(order: seq<(nat, nat)>, pending: set<(nat, nat)>, all: set<(nat, nat)>, d: (nat, nat))
    requires Listing(order, pending, all)
    requires d in pending && forall x :: x in pending ==> x == d || PairLess(d, x)
    ensures Listing(order + [d], pending - {d}, all)
  {
    hide PairLess;
    assert all - (pending - {d}) == all - pending + {d};
  }

  lemma ListingEnds(order: seq<(nat, nat)>, all: set<(nat, nat)>)
    requires Listing(order, {}, all)
    ensures Lists(order, all)
  {
    assert all - {} == all;
  }

  lemma AppliedLevels(item: Item, e: Fields)
    requires LevelsExist(e) && LevelFits(item)
    ensures LevelsExist(Apply(item, e))
  {
  }

  lemma NothingRead(items: seq<Item>, start: Fields)
    ensures items[0..] == items && ApplyAll(items[..0], start) == start && ApplyAll([], start) == start && Spell([], [])
  {
  }

  lemma AppliedOneMore(read: seq<Item>, item: Item, start: Fields)
    ensures ApplyAll(read + [item], start) == Apply(item, ApplyAll(read, start))
  {
    hide Apply;
    assert (read + [item])[..|read|] == read;
  }

  lemma PiecesInFront(src: seq<Byte>, at: seq<Byte>, pieces: seq<seq<Byte>>)
    requires IsRest(at, src) && Took(src, at) == Joined(pieces)
    ensures Joined(pieces) <= src && (at == [] ==> Joined(pieces) == src)
  {
    hide Joined;
  }

  lemma EndOfItems(items: seq<Item>, n: nat)
    requires n <= |items|
    ensures n == |items| ==> Encoding(items[n..]) == []
    ensures n < |items| ==>
              Encoding(items[n..]) == Varint(Tag(items[n])) + (BodyBytes(items[n]) + Encoding(items[n + 1..]))
  {
    hide BodyBytes, Varint, Tag;
    if n < |items| {
      assert items[n..][1..] == items[n + 1..];
    }
  }

  lemma ReadOneMore(items: seq<Item>, n: nat, start: Fields)
    requires n < |items|
    ensures ApplyAll(items[..n + 1], start) == Apply(items[n], ApplyAll(items[..n], start))
  {
    hide Apply;
    assert items[..n + 1][..n] == items[..n];
  }

  /** Encoding an edit and reading it into a fresh one gives the edit back. */
  method RoundTrip(e: VersionEdit) returns (bytes: seq<Byte>, ok: bool, copy: VersionEdit)
    requires FieldsFit(e.State())
    ensures fresh(copy) && ok && copy.State() == e.State()
  {
    hide Encoding, Items, ApplyAll, AllItemsFit;
    ghost var order;
    bytes, order := e.EncodeTo([]);
    copy := new VersionEdit();
    ItemsAllFit(e.State(), order);
    ItemsRestore(e.State(), order, EMPTY);
    ghost var read, pieces;
    ok, read, pieces := copy.DecodeFrom(bytes, Items(e.State(), order));
  }
}
