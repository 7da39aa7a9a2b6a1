/** The running store as a state machine whose steps are what the mutex makes atomic
    (db/db_impl.cc, db/version_set.cc, db/snapshot.h). `history` is every entry ever written;
    the main theorem is that reads at live snapshots always answer from the history. */
module StateMachine {
  import opened InternalKeys
  import opened Versions
  import opened Builders
  import opened Manifest
  import opened CompactionInputs
  import opened CompactionMeaning
  import opened VersionEdits

  /** A compaction between its choice and its installation. `base` is the version it was chosen in,
      `outputs` the file numbers it has allocated. */
  datatype Pending = Pending(inputs: Inputs, base: Levels, smallestSnapshot: nat, outputs: seq<nat>)

  /** `inserted` counts the entries of the batch being written: already in the memtable, not yet
      covered by `lastSequence`. */
  datatype Db = Db(mem: seq<Entry>, imm: Option<seq<Entry>>, levels: Levels,
                   lastSequence: nat, inserted: nat, snapshots: seq<nat>, nextFile: nat,
                   pending: Option<Pending>)

  /** The store, with what only the proof needs: the history, the least sequence number at which
      every answer is still exact, and the edits logged to the manifest. */
  datatype Sys = Sys(db: Db, history: set<Entry>, horizon: nat, manifest: seq<Edit>)

  ghost function ImmEntries(db: Db): set<Entry> {
    if db.imm.Some? then Elements(db.imm.value) else {}
  }

  ghost function Memory(db: Db): set<Entry> {
    Elements(db.mem) + ImmEntries(db)
  }

  ghost function Store(db: Db): set<Entry> {
    Memory(db) + VersionEntries(db.levels)
  }

  /** The store once a pending compaction's outputs are in place of its inputs. */
  ghost function Installed(a: Sys, outs: seq<File>): Sys
    requires a.db.pending.Some? && |a.db.levels| == NUM_LEVELS
  {
    var p := a.db.pending.value;
    var e := AddingEdit(InputDeletions(p.inputs), p.inputs.level + 1, outs);
    Sys(a.db.(levels := ApplyEdit(a.db.levels, e), pending := None), a.history, p.smallestSnapshot, a.manifest + [e])
  }

  // ----- Steps -----

  datatype Step =
    | Insert(e: Entry)                 // MemTableInserter adds one entry of the current group
    | Publish(count: nat)              // SetLastSequence after the group
    | Rotate                           // MakeRoomForWrite switches memtables
    | Flush(level: nat, f: File)       // CompactMemTable
    | FlushEmpty                       // CompactMemTable of an empty memtable
    | TakeSnapshot
    | ReleaseSnapshot(i: nat)
    | Move(c: Inputs, f: File)         // trivial move
    | Begin(c: Inputs)                 // a compaction is chosen
    | Allocate                         // OpenCompactionOutputFile
    | Install(outs: seq<File>)         // InstallCompactionResults
    | Abandon                          // a compaction that failed

  ghost function SmallestSnapshot(db: Db): nat {
    if db.snapshots == [] then db.lastSequence else db.snapshots[0]
  }

  /** The output files hold what the drop rules keep, split into consecutive runs. */
  ghost predicate OutputsOf(p: Pending, outs: seq<File>) {
    && AllWellFormed(outs) && PairwiseBefore(outs)
    && FileEntries(outs) == Kept(p.base, p.inputs.level, InputEntries(p.inputs), p.smallestSnapshot)
    && |outs| == |p.outputs| && forall i :: 0 <= i < |outs| ==> outs[i].number == p.outputs[i]
  }

  ghost predicate Next(a: Sys, b: Sys, step: Step) {
    match step
    case Insert(e) =>
      && e.Seq() == a.db.lastSequence + a.db.inserted + 1 && e.Seq() < MAX_SEQUENCE
      && b == a.(db := a.db.(mem := InsertSorted(a.db.mem, e), inserted := a.db.inserted + 1),
                 history := a.history + {e})
    case Publish(count) =>
      && a.db.inserted <= count && a.db.lastSequence + count < MAX_SEQUENCE
      && b == a.(db := a.db.(lastSequence := a.db.lastSequence + count, inserted := 0))
    case Rotate =>
      && a.db.imm.None? && a.db.inserted == 0
      && b == a.(db := a.db.(mem := [], imm := Some(a.db.mem), nextFile := a.db.nextFile + 1))
    case Flush(level, f) =>
      && a.db.imm.Some? && f.entries == a.db.imm.value && f.number == a.db.nextFile
      && level <= MAX_MEM_COMPACT_LEVEL && WellFormed(f)
      && RoomAt(a.db.levels, level, f)
      && var e := AddingEdit({}, level, [f]);
         |a.db.levels| == NUM_LEVELS &&
         b == a.(db := a.db.(imm := None, levels := ApplyEdit(a.db.levels, e), nextFile := a.db.nextFile + 1),
                 manifest := a.manifest + [e])
    case FlushEmpty =>
      && a.db.imm == Some([])
      && var e := Edit({}, []);
         |a.db.levels| == NUM_LEVELS &&
         b == a.(db := a.db.(imm := None, levels := ApplyEdit(a.db.levels, e), nextFile := a.db.nextFile + 1),
                 manifest := a.manifest + [e])
    case TakeSnapshot =>
      b == a.(db := a.db.(snapshots := a.db.snapshots + [a.db.lastSequence]))
    case ReleaseSnapshot(i) =>
      && i < |a.db.snapshots|
      && b == a.(db := a.db.(snapshots := a.db.snapshots[..i] + a.db.snapshots[i + 1..]))
    case Move(c, f) =>
      && a.db.pending.None? && |a.db.levels| == NUM_LEVELS && Closed(a.db.levels, c)
      && c.upper == [f] && c.lower == []
      && var e := AddingEdit(InputDeletions(c), c.level + 1, [f]);
         b == a.(db := a.db.(levels := ApplyEdit(a.db.levels, e)), manifest := a.manifest + [e])
    case Begin(c) =>
      && a.db.pending.None? && |a.db.levels| == NUM_LEVELS && Closed(a.db.levels, c)
      && b == a.(db := a.db.(pending := Some(Pending(c, a.db.levels, SmallestSnapshot(a.db), []))))
    case Allocate =>
      && a.db.pending.Some?
      && var p := a.db.pending.value;
         b == a.(db := a.db.(pending := Some(p.(outputs := p.outputs + [a.db.nextFile])),
                             nextFile := a.db.nextFile + 1))
    case Install(outs) =>
      && a.db.pending.Some? && |a.db.levels| == NUM_LEVELS
      && var p := a.db.pending.value;
         && p.inputs.level + 1 < NUM_LEVELS && OutputsOf(p, outs)
         && OutputsFit(a.db.levels, p.inputs, outs)
         && !Resurrects(a.db.levels, p.inputs.level, InputEntries(p.inputs),
                        Memory(a.db) + OtherFiles(a.db.levels, p.inputs), p.smallestSnapshot)
         && b == Installed(a, outs)
    case Abandon =>
      && a.db.pending.Some?
      && b == a.(db := a.db.(pending := None))
  }

  /** What DB::Open logs for a new store: the snapshot of an empty version, and an edit that sets counters
      only. */
  const FIRST_EDITS: seq<Edit> := [Edit({}, []), Edit({}, [])]

  /** A new store. File number 3 is that of its first log. */
  ghost predicate Init(a: Sys) {
    a == Sys(Db([], None, EMPTY_VERSION, 0, 0, [], 4, None), {}, 0, FIRST_EDITS)
  }

  // ----- The invariant, one part per concern -----

  ghost predicate Newer(A: set<Entry>, B: set<Entry>) {
    forall x, y :: x in A && y in B && x.User() == y.User() ==> x.Seq() > y.Seq()
  }

  /** The memtables are sorted, and newer than whatever they hide. */
  ghost predicate MemoryInv(mem: seq<Entry>, imm: Option<seq<Entry>>, tables: set<Entry>) {
    && Sorted(mem) && (imm.Some? ==> Sorted(imm.value) && Newer(Elements(mem), Elements(imm.value)))
    && Newer(Elements(mem), tables) && (imm.Some? ==> Newer(Elements(imm.value), tables))
  }

  ghost predicate HistoryInv(history: set<Entry>, store: set<Entry>, last: nat) {
    && UniqueSeqs(history) && store <= history && last < MAX_SEQUENCE
    && forall e :: e in history ==> 0 < e.Seq() <= last
  }

  ghost predicate SnapshotInv(snapshots: seq<nat>, lastSequence: nat, horizon: nat) {
    && horizon <= lastSequence
    && (forall i :: 0 <= i < |snapshots| ==> horizon <= snapshots[i] <= lastSequence)
    && (forall i, j :: 0 <= i < j < |snapshots| ==> snapshots[i] <= snapshots[j])
  }

  /** At or above the horizon, the store answers as the history does. */
  ghost predicate AnswersInv(store: set<Entry>, history: set<Entry>, horizon: nat) {
    forall k, s :: s >= horizon ==> SameAnswers(store, history, k, s)
  }

  ghost predicate FileInv(levels: Levels, nextFile: nat) {
    && ValidLevels(levels)
    && (forall l, f :: 0 <= l < |levels| && f in levels[l] ==> f.number < nextFile)
  }

  /** Below the output level, what was flushed after `base` meets no input. */
  ghost predicate DeeperKept(base: Levels, levels: Levels, c: Inputs) {
    && |base| == |levels|
    && forall l, f {:trigger f in base[l]} {:trigger f in levels[l]} :: c.level + 2 <= l < |base| ==>
         && (f in base[l] ==> f in levels[l])
         && (f in levels[l] && f !in base[l] ==> MeetsNone(c, f))
  }

  ghost predicate UnusedNumbers(outputs: seq<nat>, levels: Levels, nextFile: nat) {
    && (forall i :: 0 <= i < |outputs| ==> outputs[i] < nextFile)
    && (forall i, j :: 0 <= i < |outputs| && 0 <= j < |outputs| && outputs[i] == outputs[j] ==> i == j)
    && (forall l, f :: 0 <= l < |levels| && f in levels[l] ==> f.number !in outputs)
  }

  ghost predicate PendingInv(p: Pending, levels: Levels, snapshots: seq<nat>, lastSequence: nat, nextFile: nat,
                             horizon: nat)
  {
    && |levels| == NUM_LEVELS && ValidLevels(p.base)
    && StillClosed(levels, p.inputs) && DeeperKept(p.base, levels, p.inputs)
    && horizon <= p.smallestSnapshot <= lastSequence
    && (forall i :: 0 <= i < |snapshots| ==> p.smallestSnapshot <= snapshots[i])
    && UnusedNumbers(p.outputs, levels, nextFile)
  }

  /** The manifest replays to the current version. A file number is added at a level only once,
      since a file only ever moves down. */
  ghost predicate ManifestInv(manifest: seq<Edit>, levels: Levels, nextFile: nat, pending: Option<Pending>) {
    && levels == Running(EMPTY_VERSION, manifest)
    && (forall i :: 0 <= i < |manifest| ==> ValidEdit(manifest[i]))
    && AddedOnce(Additions(manifest))
    && (forall a :: a in Additions(manifest) ==> a.1.number < nextFile)
    && (forall a, m, g :: a in Additions(manifest) && 0 <= m < |levels| && g in levels[m] && g.number == a.1.number
                          ==> a.0 <= m)
    && (pending.Some? ==> forall a :: a in Additions(manifest) ==> a.1.number !in pending.value.outputs)
  }

  ghost predicate Inv(a: Sys) {
    && MemoryInv(a.db.mem, a.db.imm, VersionEntries(a.db.levels))
    && HistoryInv(a.history, Store(a.db), a.db.lastSequence + a.db.inserted)
    && SnapshotInv(a.db.snapshots, a.db.lastSequence, a.horizon)
    && AnswersInv(Store(a.db), a.history, a.horizon)
    && FileInv(a.db.levels, a.db.nextFile)
    && (a.db.pending.Some? ==>
          PendingInv(a.db.pending.value, a.db.levels, a.db.snapshots, a.db.lastSequence, a.db.nextFile, a.horizon))
    && ManifestInv(a.manifest, a.db.levels, a.db.nextFile, a.db.pending)
  }
}
