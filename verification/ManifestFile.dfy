/** Recovering a version from the bytes of a manifest (db/version_set.cc: Recover, LogAndApply): a log whose
    records are encoded edits, cut at any byte by a crash. */
module ManifestFiles {
  import opened InternalKeys
  import opened Versions
  import opened Builders
  import opened Coding
  import opened LogFormat
  import opened EditCodec
  import Manifest
  import LogReader
  import LogWriter

  /** The edit of a version that some fields describe. `open` gives the table that an entry of the log
      names. */
  function EditOf(e: Fields, open: Meta -> File): Edit {
    Edit(e.deleted, seq(|e.added|, i requires 0 <= i < |e.added| => (e.added[i].0, open(e.added[i].1))))
  }

  ghost function EditsOf(es: seq<Fields>, open: Meta -> File): (r: seq<Edit>)
    ensures |r| == |es|
  {
    seq(|es|, i requires 0 <= i < |es| => EditOf(es[i], open))
  }

  function NextFileOf(e: Fields): Option<nat> {
    e.nextFile
  }

  function LogNumberOf(e: Fields): Option<nat> {
    e.logNumber
  }

  function PrevLogNumberOf(e: Fields): Option<nat> {
    e.prevLogNumber
  }

  function LastSequenceOf(e: Fields): Option<nat> {
    e.lastSequence
  }

  /** The last of some edits to set a counter decides it. */
  ghost function Latest(es: seq<Fields>, get: Fields -> Option<nat>): Option<nat> {
    if es == [] then None
    else if get(es[|es| - 1]).Some? then get(es[|es| - 1])
    else Latest(es[..|es| - 1], get)
  }

  ghost predicate AllNamed(es: seq<Fields>, name: seq<Byte>) {
    forall i :: 0 <= i < |es| ==> es[i].comparator.None? || es[i].comparator == Some(name)
  }

  ghost predicate LoggedAs(record: seq<Byte>, e: Fields) {
    exists order :: Lists(order, e.deleted) && record == Encoding(Items(e, order))
  }

  ghost predicate AllLogged(records: seq<seq<Byte>>, es: seq<Fields>) {
    |records| == |es| && forall i :: 0 <= i < |es| ==> FieldsFit(es[i]) && LoggedAs(records[i], es[i])
  }

  /** The part of LogAndApply that writes an edit to the manifest. */
  method LogEdit(manifest: LogWriter.Writer, edit: VersionEdit, ghost es: seq<Fields>)
    requires manifest.Valid() && AllLogged(manifest.records, es) && FieldsFit(edit.State())
    modifies manifest
    ensures manifest.Valid()
    ensures AllLogged(manifest.records, es + [edit.State()])
  {
    hide EmitMany, Encoding, Items, Lists, FieldsFit;
    var record, order := edit.EncodeTo([]);
    assert [] + Encoding(Items(edit.State(), order)) == Encoding(Items(edit.State(), order));
    manifest.AddRecord(record);
  }

  /** The counters a manifest carries besides the version. */
  datatype Counters = Counters(nextFile: Option<nat>, logNumber: Option<nat>, prevLogNumber: Option<nat>,
                               lastSequence: Option<nat>)

  ghost function LatestCounters(es: seq<Fields>): Counters {
    Counters(Latest(es, NextFileOf), Latest(es, LogNumberOf), Latest(es, PrevLogNumberOf), Latest(es, LastSequenceOf))
  }

  function Or(a: Option<nat>, b: Option<nat>): Option<nat> {
    if a.Some? then a else b
  }

  function Merged(e: Fields, c: Counters): Counters {
    Counters(Or(e.nextFile, c.nextFile), Or(e.logNumber, c.logNumber), Or(e.prevLogNumber, c.prevLogNumber),
             Or(e.lastSequence, c.lastSequence))
  }

  lemma LatestOneMore(es: seq<Fields>, i: nat)
    requires i < |es|
    ensures LatestCounters(es[..i + 1]) == Merged(es[i], LatestCounters(es[..i]))
  {
    assert es[..i + 1][..i] == es[..i];
  }

  /** The counters of the version set after recovery. */
  datatype Recovered = Recovered(nextFile: nat, logNumber: nat, prevLogNumber: nat, lastSequence: nat)

  predicate Complete(c: Counters) {
    c.nextFile.Some? && c.logNumber.Some? && c.lastSequence.Some?
  }

  /** The manifest takes the next file number for itself; a missing previous log number counts as 0. */
  function RecoveredFrom(c: Counters): Recovered
    requires Complete(c)
  {
    Recovered(c.nextFile.value + 1, c.logNumber.value, NumberOf(c.prevLogNumber), c.lastSequence.value)
  }

  function MarkFileNumberUsed(next: nat, number: nat): nat {
    if next <= number then number + 1 else next
  }

  /** Recover marks the two log numbers as used before it overwrites the counter, so the marks are lost. The
      counter it ends with is one that the marks would leave alone exactly when the last next file number
      reaches both log numbers. */
  lemma MarksAreLostIff(es: seq<Fields>)
    requires Complete(LatestCounters(es))
    ensures var c, r := LatestCounters(es), RecoveredFrom(LatestCounters(es));
            && (r.nextFile == MarkFileNumberUsed(MarkFileNumberUsed(r.nextFile, r.prevLogNumber), r.logNumber)
                <==> c.nextFile.value >= c.logNumber.value && c.nextFile.value >= NumberOf(c.prevLogNumber))
            && (r.nextFile > r.logNumber && r.nextFile > r.prevLogNumber
                <==> c.nextFile.value >= c.logNumber.value && c.nextFile.value >= NumberOf(c.prevLogNumber))
  {
    hide Latest;
  }

  /** A log number above the next file number. */
  const UNMARKED := Fields(None, Some(9), None, Some(5), Some(0), [], {}, [])

  /** A manifest with that one edit recovers to a counter below the number of the log. */
  lemma MarkIsLost(name: seq<Byte>)
    ensures FieldsFit(UNMARKED) && AllNamed([UNMARKED], name) && Complete(LatestCounters([UNMARKED]))
    ensures var r := RecoveredFrom(LatestCounters([UNMARKED])); r.nextFile == 6 && r.logNumber == 9
  {
    assert [UNMARKED][..0] == [];
  }

  /** What LogAndApply writes into every edit, and asserts about it. */
  predicate Stamped(e: Fields) {
    && e.nextFile.Some? && e.logNumber.Some? && e.prevLogNumber.Some? && e.lastSequence.Some?
    && e.logNumber.value < e.nextFile.value && e.prevLogNumber.value < e.nextFile.value
  }

  /** After an edit of LogAndApply no mark is missed, whatever the edits before it were. */
  lemma StampedNeedsNoMarks(es: seq<Fields>)
    requires es != [] && Stamped(es[|es| - 1])
    ensures Complete(LatestCounters(es))
    ensures var r := RecoveredFrom(LatestCounters(es));
            && r.nextFile > r.logNumber && r.nextFile > r.prevLogNumber
            && r == Recovered(es[|es| - 1].nextFile.value + 1, es[|es| - 1].logNumber.value,
                              es[|es| - 1].prevLogNumber.value, es[|es| - 1].lastSequence.value)
  {
  }

  /** Whatever byte a manifest was cut at, recovery gives the version that the running store had reached by
      installing, one at a time, the edits wholly there, with the counters they last set; it fails exactly when
      one of them names another comparator or a counter was never set. */
  method Recover(crc: Checksum, file: seq<Byte>, name: seq<Byte>, open: Meta -> File,
                 ghost records: seq<seq<Byte>>, ghost es: seq<Fields>)
    returns (ok: bool, v: Levels, recovered: Recovered, ghost whole: nat)
    requires AllLogged(records, es) && file <= EmitMany(crc, 0, records)
    ensures whole <= |es| && |EmitMany(crc, 0, records[..whole])| <= |file|
    ensures whole < |es| ==> |EmitMany(crc, 0, records[..whole + 1])| > |file|
    ensures ok <==> AllNamed(es[..whole], name) && Complete(LatestCounters(es[..whole]))
    ensures ok ==> recovered == RecoveredFrom(LatestCounters(es[..whole]))
    ensures ok && Manifest.AddedOnce(Manifest.Additions(EditsOf(es[..whole], open))) ==>
              v == Manifest.Running(Manifest.EMPTY_VERSION, EditsOf(es[..whole], open))
  {
    hide *;
    var found, _ := LogReader.ReadAll(crc, file, true, records);
    whole := |found|;
    PrefixIs(found, records);
    SameCount(records, es);
    NothingLatest(es, name);
    var builder := NewBuilder(es, open);
    var counters := Counters(None, None, None, None);
    ok := true;
    v, recovered := Manifest.EMPTY_VERSION, Recovered(0, 0, 0, 0);
    for i := 0 to |found|
      invariant ok && AllNamed(es[..i], name) && counters == LatestCounters(es[..i])
      invariant fresh(builder) && Folded(builder, es, open, i)
    {
      RecordOf(records, es, i);
      var edit := ReadEdit(found[i], es[i]);
      NamedOneMore(es, name, i, whole);
      var compatible := HasName(edit, name);
      if !compatible {
        ok := false;
        return;
      }
      ApplyOne(builder, edit, es, open, i);
      counters := Merged(edit.State(), counters);
      LatestOneMore(es, i);
    }
    ok := Complete(counters);
    if ok {
      recovered := RecoveredFrom(counters);
      v := SaveFolded(builder, es, open, whole);
    }
  }

  lemma PrefixIs(found: seq<seq<Byte>>, records: seq<seq<Byte>>)
    requires found <= records
    ensures found == records[..|found|]
  {
  }

  lemma SameCount(records: seq<seq<Byte>>, es: seq<Fields>)
    requires AllLogged(records, es)
    ensures |records| == |es|
  {
  }

  lemma RecordOf(records: seq<seq<Byte>>, es: seq<Fields>, i: nat)
    requires AllLogged(records, es) && i < |es|
    ensures |records| == |es| && FieldsFit(es[i]) && LoggedAs(records[i], es[i])
  {
    hide FieldsFit, LoggedAs;
  }

  /** Whether the comparator an edit names, if it names one, is ours. */
  method HasName(edit: VersionEdit, name: seq<Byte>) returns (compatible: bool)
    ensures compatible <==> edit.State().comparator.None? || edit.State().comparator == Some(name)
  {
    compatible := edit.comparator.None? || edit.comparator.value == name;
  }

  lemma NamedOneMore(es: seq<Fields>, name: seq<Byte>, i: nat, n: nat)
    requires i < n <= |es| && AllNamed(es[..i], name)
    ensures AllNamed(es[..i + 1], name) <==> es[i].comparator.None? || es[i].comparator == Some(name)
    ensures AllNamed(es[..n], name) ==> AllNamed(es[..i + 1], name)
  {
    assert es[..i + 1][i] == es[i] && es[..n][i] == es[i];
    assert forall j :: 0 <= j < i ==> es[..i][j] == es[j] == es[..n][j];
  }

  // ----- One edit at a time -----

  /** The builder has been given the first `n` edits. */
  ghost predicate Folded(builder: Builder, es: seq<Fields>, open: Meta -> File, n: nat)
    requires n <= |es|
    reads builder
  {
    && builder.Valid() && builder.base == Manifest.EMPTY_VERSION
    && var edits := EditsOf(es[..n], open);
       forall l :: 0 <= l < NUM_LEVELS ==>
         && builder.addedFiles[l] == Manifest.BuilderAdded(edits, l)
         && builder.deletedFiles[l] == Manifest.BuilderDeleted(edits, l)
  }

  method NewBuilder(ghost es: seq<Fields>, ghost open: Meta -> File) returns (builder: Builder)
    ensures fresh(builder) && Folded(builder, es, open, 0)
  {
    builder := new Builder(Manifest.EMPTY_VERSION);
    assert EditsOf(es[..0], open) == [];
  }

  lemma EditIsValid(e: Fields, open: Meta -> File)
    requires FieldsFit(e)
    ensures ValidEdit(EditOf(e, open))
  {
  }

  lemma EditsOneMore(es: seq<Fields>, open: Meta -> File, i: nat)
    requires i < |es|
    ensures var edits := EditsOf(es[..i + 1], open);
            |edits| == i + 1 && edits[..i] == EditsOf(es[..i], open) && edits[i] == EditOf(es[i], open)
  {
    hide EditOf;
  }

  method ApplyOne(builder: Builder, edit: VersionEdit, ghost es: seq<Fields>, open: Meta -> File, ghost i: nat)
    requires i < |es| && edit.State() == es[i] && FieldsFit(es[i]) && Folded(builder, es, open, i)
    modifies builder
    ensures Folded(builder, es, open, i + 1)
  {
    hide EditOf, EditsOf, FieldsFit, AddedAfter, DeletedAfter, Builder.Valid;
    EditIsValid(es[i], open);
    EditsOneMore(es, open, i);
    BuilderSizes(builder);
    builder.Apply(EditOf(edit.State(), open));
    BuilderSizes(builder);
  }

  lemma BuilderSizes(builder: Builder)
    requires builder.Valid()
    ensures |builder.deletedFiles| == |builder.addedFiles| == NUM_LEVELS
  {
  }

  method SaveFolded(builder: Builder, ghost es: seq<Fields>, ghost open: Meta -> File, ghost n: nat) returns (v: Levels)
    requires n <= |es| && Folded(builder, es, open, n)
    ensures var edits := EditsOf(es[..n], open);
            Manifest.AddedOnce(Manifest.Additions(edits)) ==> v == Manifest.Running(Manifest.EMPTY_VERSION, edits)
  {
    hide EditsOf, Manifest.AddedOnce, Manifest.Additions, Manifest.Running, Manifest.BuilderAdded, Manifest.BuilderDeleted;
    v := builder.SaveTo();
    ghost var edits := EditsOf(es[..n], open);
    forall l | 0 <= l < NUM_LEVELS
      ensures v[l] == Live(Manifest.BuilderAdded(edits, l), Manifest.BuilderDeleted(edits, l))
    {
      NothingToMerge(Manifest.BuilderAdded(edits, l));
    }
    if Manifest.AddedOnce(Manifest.Additions(edits)) {
      Manifest.ReplayRebuildsRunning(edits, v);
    }
  }

  lemma NothingToMerge(files: seq<File>)
    ensures Merge([], files) == files
  {
  }

  ghost function OrderOf(record: seq<Byte>, e: Fields): (order: seq<(nat, nat)>)
    requires LoggedAs(record, e)
    ensures Lists(order, e.deleted) && record == Encoding(Items(e, order))
  {
    var order :| Lists(order, e.deleted) && record == Encoding(Items(e, order));
    order
  }

  lemma ReadsBack(e: Fields, order: seq<(nat, nat)>)
    requires FieldsFit(e) && Lists(order, e.deleted)
    ensures AllItemsFit(Items(e, order)) && ApplyAll(Items(e, order), Cleared(EMPTY)) == e
  {
    hide Items, ApplyAll, AllItemsFit, Lists, FieldsFit;
    ItemsAllFit(e, order);
    ItemsRestore(e, order, EMPTY);
    assert [] + e.pointers == e.pointers;
  }

  /** DecodeFrom, into a fresh edit. */
  method ReadEdit(record: seq<Byte>, ghost e: Fields) returns (edit: VersionEdit)
    requires FieldsFit(e) && LoggedAs(record, e)
    ensures fresh(edit) && edit.State() == e
  {
    hide *;
    edit := new VersionEdit();
    ghost var order := OrderOf(record, e);
    ReadsBack(e, order);
    var ok, read, pieces := edit.DecodeFrom(record, Items(e, order));
  }

  lemma NothingLatest(es: seq<Fields>, name: seq<Byte>)
    ensures LatestCounters(es[..0]) == Counters(None, None, None, None) && AllNamed(es[..0], name)
  {
  }
}
