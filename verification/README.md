# The storage and message cores of meshiiru

The application carries two libraries in source form. This project models both and proves what they are for.

**LevelDB** (`meshiiru/Pods/leveldb-library`) keeps a map from user keys to values as a stack of sorted runs: a
memtable, the memtable being flushed, and seven levels of table files. Writers queue up and are served in groups;
background work flushes, moves and compacts. Every write gets a sequence number, and a snapshot is such a number.
The promise is that none of the internal work shows: a read at a live snapshot returns the newest write to the key
at or below it.

**nanopb** (`meshiiru/Pods/nanopb`) encodes C structs described by field tables into protocol buffer messages, in
two passes (measure, then write), and decodes them back into such structs.

## Main results

| result | where |
|---|---|
| In every state of every run of inserts, publications, rotations, flushes, moves, compactions and snapshots, every read at a live snapshot is what the history of writes says | `Safety.ReadsSurvive` |
| A compaction keeps every answer at or above its smallest snapshot exactly when no left-out file brings back the last lower user key | `CompactionMeaning.CompactionKeepsAnswersIff` |
| Of a key's entries at or below the smallest snapshot a compaction keeps only the newest of its inputs, and no marker that has nothing to delete below; it drops nothing else | `CompactionMeaning.KeptIsNeeded`, `Safety.InstallReclaims` |
| The inputs of a compaction are the least closed choice from the asked files, and a manual one takes what meets its range | `CompactionInputs.CompactRange`, `PickCompaction` |
| Installing a compaction keeps the whole invariant exactly when no output spans a file of the lower level and no answer is lost | `Safety.InstallKeepsInvIff` |
| A flush in the middle of a compaction can spoil its installation exactly when it lands in the lower level between kept entries; with gapless inputs it never can | `GapFlushes.FlushCanBreakIff`, `GapFlushes.GaplessCannotBreak` |
| Every interleaving of writers and background work, seen from the store, is a run of the store, so all of the above holds of it; a snapshot sees whole batches in queue order | `CommitReads.CommitRefinesStore`, `CommitReads.ReadsSeeWholeBatches` |
| A crash in a state of a store's life is harmless, wherever it cuts the current log, if and only if no installation since the last switch of memtables or reopening drops a marker that hides a value among tables and immutable memtable; harmless or not, no value is lost | `Lives.CrashIsHarmlessIff`, `CrashRecovery.ReopensRightIff`, `Lives.NoCrashLosesValues` |
| From the bytes of manifest and logs, the current log cut at any byte, opening makes the store of the records wholly there; it satisfies the whole invariant again, with them as its past, exactly when it answers right, so reads and snapshots keep their promises through any number of crashes | `Reopening.Reopen`, `Lives.RebornIffRight`, `Lives.LifeKeepsReads` |
| The manifest replays to the running version at every point, and from its bytes cut anywhere | `Safety.ManifestAlwaysReplays`, `ManifestFiles.Recover` |
| Merging iterator, `DBIter`, block, two-level and skip list iterators are cursors on one sorted run, in both directions | `MergingIterators`, `DbIters`, `BlockIters`, `TwoLevelIterators`, `SkipLists` |
| A log cut at any byte reads back as the records wholly inside | `LogReader.ReadAll`, `LogRecovery.ReplayLog` |
| Opening the bytes of a finished table and looking a key up is a scan of the entries added, whatever filter policy the reader has, and is the lookup of the store model | `TableReaders.FinishAndGet`, `EncodedTables.GetFromTable` |
| Strided CRC-32C is the byte-at-a-time form, and with the tables of its polynomial the remainder bit by bit | `Crc32c.Extend`, `Castagnoli.Value` |
| The cache keeps its lists, counts, charge and hash table in step, deleters run once, and whatever is evicted has been unused for longer than all that stays | `Caches.LRUCache.Insert`, `Caches.EvictedAreOldest` |
| Sizing and writing agree at every depth; decoding an encoding gives the message back | `PbEncode.EncodeSubmessage`, `PbRoundTrip.RoundTrip` |
| A reader with another field table gets every field both know, and skips the others; on any input, acceptance means that all of it was read as fields and that no required field among the first 64 is missing | `PbRoundTrip.Exchange`, `PbDecode.DecodeFields` |
| What is written has the documented form, byte by byte, whatever reads it | `PbWire`, `LogFormat.EmitIsLaid`, `EditCodec.ItemForm`, `WriteBatches.BatchForm`, `BlockIters.BlockForm`, `FilterBlocks.FilterForm`, `Footers.FooterForm` |

## How the model is laid out

- What an entry, a snapshot and a read are: `InternalKeys`, `Operations`. Levels and lookups: `Versions`. Edits,
  their builder, and replay: `Builders`, `Manifest`, `ManifestSnapshot`, `EditCodec`, `ManifestFiles`.
- Compaction: the choice of inputs (`CompactionInputs`), the loop and its cursors (`CompactionWork`), what the drop
  rules mean (`CompactionMeaning`), what edits keep (`VersionEdits`).
- The running store: `StateMachine` has the steps and the invariant, `Safety` the proofs over all runs, `Database`
  the `DBImpl` object whose methods are those steps, `GapFlushes`, `PendingCompactions` and `Limits` the exact
  edge of the promise.
- Crashes: `CrashRecovery` says what is on disk at any time and what reopening answers, `Lives` that the reopened store
  is one of the states of the model again, and `Reopening` makes it from bytes.
- Concurrency: `GroupCommit`, `CommitReads` and the queue object `WriteQueues`. A step is what one thread does while
  it holds the mutex, or the part of its work that only it may do while the mutex is released.
- Bytes: `Coding`, `Varints`, `VarintCodec`, `LogFormat`, `LogWriter`, `LogReader`, `LogRecovery`, `WriteBatches`,
  `Blocks`, `BlockIters`, `Bytewise`, `FilterBlocks`, `Blooms`, `Footers`, `Tables`, `TableReaders`,
  `EncodedTables`, `Crc32c`, `Castagnoli`.
- nanopb: `Protobuf` defines the encoding of a message by recursion on it, independently of the code; `PbEncode` is
  the encoder, `PbWire` says what its bytes are. `PbReading` defines what a reader makes of a message that a writer
  with another table sent, `PbStored`, `PbStreams` and `PbDecode` are the decoder, `PbRoundTrip` the theorems about
  both sides.

Code that works in place is modelled by classes and loops; each such method is proved against a function or relation
on values, and the theorems are about those.

## Where the code gives less than its comments say

- `SetupOtherInputs` adds boundary files to the upper inputs (`version_set.cc:1407`) but not to the lower ones chosen
  at line 1410. A lower file left out there can hold an older value of the last lower user key while the deletion
  marker that hides it is dropped. `CompactionMeaning.CompactionKeepsAnswersIff` says exactly when this happens,
  `Limits.ContinuationBringsBack` shows a version where it does, and `PendingCompactions.ChosenSafelyStaysSafe` shows
  that the condition can be checked when the inputs are chosen. The `Install` step of the state machine is guarded by
  the exact condition. The comment in `DoCompactionWork` (`db_impl.cc:951-957`) claims that such markers can always
  be dropped.
- For the same reason a compaction can be harmless only because a newer write to the key is still in memory
  (`Limits.MemoryHidesLoss`). The store then answers right, but its tables do not, and a crash that loses that write
  brings a deleted key back. `CrashRecovery.InstallKeepsLogIff` says exactly when an installation does this. The next
  switch of memtables heals it (`CrashRecovery.RotateRestoresLog`), nothing before does, and nothing else goes wrong:
  `Lives.CrashIsHarmlessIff` is exact for every state, and `Lives.NoCrashLosesValues` says that values are never lost.
- `CompactRange` may choose inputs with a gap between them, and a flush can land in that gap below level 0 while the
  compaction runs. Every such flush is a step of the model. `GapFlushes.FlushCanBreakIff` says exactly which of them can
  spoil the installation, `VersionEdits.InstallKeepsValidIff` exactly which outputs then do, and `Limits.GapBreaksLevel`
  and `GapHidesValue` show one. The `Install` step is guarded by the exact condition, which is proved to hold whenever
  the inputs come from `PickCompaction`.
- `VersionEdit::Clear` leaves the compaction pointers of the edit in place (`EditCodec.ItemsRestore`).
- `VersionSet::Recover` marks two log numbers as used and then overwrites the counter (`version_set.cc:986-997`).
  `ManifestFiles.MarkIsLost` gives an edit for which the counter then stands below a log number
  (`DBImpl::Recover` marks the log files that it finds afterwards, `db_impl.cc:361`),
  `ManifestFiles.MarksAreLostIff` says exactly when that happens, and `StampedNeedsNoMarks` that it does not after an
  edit that `LogAndApply` wrote.

## Model

| member | source | states |
|---|---|---|
| `InternalKeys.CompareIsLess` | meshiiru/Pods/leveldb-library/db/dbformat.cc:51-67 | comparing packed trailers is the order by user key up, then sequence number and type down, and two internal keys compare equal only when they are the same key |
| `InternalKeys.SeekFindsNewest` | meshiiru/Pods/leveldb-library/db/memtable.cc:100-134 | seeking a sorted run to (key, snapshot) stands at the newest entry of that key visible at the snapshot when the run has one, and at another user key or the end exactly when it has none |
| `InternalKeys.InsertKeepsSorted` | meshiiru/Pods/leveldb-library/db/memtable.cc:75-98 | adding an entry with a new internal key keeps the memtable sorted and adds exactly that entry |
| `Operations.InsertAnswer` | meshiiru/Pods/leveldb-library/db/write_batch.cc:116-137 | an entry with the highest sequence number so far decides exactly the reads that see it and changes no other |
| `Versions.FindFile` | meshiiru/Pods/leveldb-library/db/version_set.cc:88-106 | the position that splits a sorted level into the files wholly before the key and the others |
| `Versions.SomeFileOverlapsRange` | meshiiru/Pods/leveldb-library/db/version_set.cc:122-157 | true exactly when some file of the level meets the user-key range, by scan or by binary search alike, with open ends allowed |
| `Versions.PickLevelForMemTableOutput` | meshiiru/Pods/leveldb-library/db/version_set.cc:491-516 | a flushed table goes below level 0 only if it overlaps nothing at or above its level; which levels it passes is exact: it stops above level 2 only for an overlap or too many grandparent bytes, and passes a level whenever neither is in the way |
| `Versions.OnlyOneFileAnswers` | meshiiru/Pods/leveldb-library/db/version_set.cc:365-382 | in a sorted level only the file that the binary search returns can hold a visible entry of the key, and its lookup gives the newest one of the level |
| `Versions.SearchLevelZero` | meshiiru/Pods/leveldb-library/db/version_set.cc:349-364 | the first hit among the overlapping level-0 files, newest number first, is the newest visible entry of level 0; no hit means there is none |
| `Versions.Get` | meshiiru/Pods/leveldb-library/db/version_set.cc:326-421 | stopping at the first hit, level by level, returns the newest entry of the key visible at the snapshot in the whole version, and nothing only when there is none |
| `Versions.FirstHitIsNewest` | meshiiru/Pods/leveldb-library/db/version_set.cc:338-345 | since entries get older with the level, the newest hit of the first level that has one is the newest of the version |
| `Builders.Builder.constructor` | meshiiru/Pods/leveldb-library/db/version_set.cc:617-626 | a builder on a base version starts with nothing added and nothing deleted |
| `Builders.Builder.Apply` | meshiiru/Pods/leveldb-library/db/version_set.cc:650-692 | per level, the deletions of the edit are marked, its additions unmarked and inserted in order; everything marked or added before stays |
| `Builders.SaveLevel` | meshiiru/Pods/leveldb-library/db/version_set.cc:695-754 | the loop over added files and the base files before each of them emits exactly the stable merge of both without the files marked deleted |
| `Builders.LevelAfterMembers` | meshiiru/Pods/leveldb-library/db/version_set.cc:650-754 | a level after an edit holds exactly the files the edit adds there and the old ones it does not delete |
| `Builders.LevelAfterOrder` | meshiiru/Pods/leveldb-library/db/version_set.cc:695-754 | and it is in builder order, provided the edit adds no number the level already has |
| `Builders.SameFilesSameOrder` | meshiiru/Pods/leveldb-library/db/version_set.cc:592-605 | two levels in builder order with the same files are the same sequence |
| `Manifest.Recover` | meshiiru/Pods/leveldb-library/db/version_set.cc:924-1000 | one builder folding all logged edits over an empty version gives the version reached by installing them one at a time, provided no file number is added twice at one level |
| `Manifest.ReplayRebuildsRunning` | meshiiru/Pods/leveldb-library/db/version_set.cc:886-1011 | the equality behind it, file by file and in order, although the builder only sees the final sets of additions and deletions |
| `ManifestSnapshot.SnapshotRestores` | meshiiru/Pods/leveldb-library/db/version_set.cc:1088-1116 | the snapshot record of a version, applied to an empty version, gives back every level of it in order |
| `ManifestSnapshot.RecoverFromSnapshot` | meshiiru/Pods/leveldb-library/db/version_set.cc:1088-1116 | recovery from a manifest that starts with a snapshot record and goes on with later edits gives the version the running store reached from the snapshot |
| `EditCodec.VersionEdit.EncodeTo` | meshiiru/Pods/leveldb-library/db/version_edit.cc:41-85 | appends the tagged items of the edit in their fixed order, deleted files ascending |
| `EditCodec.VersionEdit.DecodeFrom` | meshiiru/Pods/leveldb-library/db/version_edit.cc:107-205 | the encoding of any items that fit, in any order, is accepted and read item by item; on any input the edit holds what was read item by item from its front, and it is accepted only if all of it was read, with levels that exist |
| `EditCodec.ItemForm` | meshiiru/Pods/leveldb-library/db/version_edit.cc:12-24 | each item is its number on disk, 1 to 7 or 9, and then its numbers and strings in their order |
| `EditCodec.ItemsRestore` | meshiiru/Pods/leveldb-library/db/version_edit.cc:26-39 | reading the items of an edit into a cleared edit gives all its fields back, except that compaction pointers already there stay in front, since clearing does not drop them |
| `EditCodec.RoundTrip` | meshiiru/Pods/leveldb-library/db/version_edit.cc:41-205 | an edit encoded and read into a fresh edit is the same edit |
| `ManifestFiles.LogEdit` | meshiiru/Pods/leveldb-library/db/version_set.cc:845-850 | the record that logs an edit encodes exactly that edit, after all records logged before |
| `ManifestFiles.Recover` | meshiiru/Pods/leveldb-library/db/version_set.cc:886-1011 | whatever byte the manifest was cut at, recovery gives the version and counters of the edits that are wholly there; it fails exactly when one of them names another comparator or no edit sets one of the three needed counters |
| `ManifestFiles.MarksAreLostIff` | meshiiru/Pods/leveldb-library/db/version_set.cc:982-1000 | the counter that recovery ends with, overwritten after two log numbers were marked as used, is above both of them, and one the marks would leave alone, exactly when the last logged next file number reaches both |
| `ManifestFiles.MarkIsLost` | meshiiru/Pods/leveldb-library/db/version_set.cc:986-997 | a manifest with one complete edit whose log number is above the recovered counter |
| `ManifestFiles.StampedNeedsNoMarks` | meshiiru/Pods/leveldb-library/db/version_set.cc:801-816 | after any edit that LogAndApply wrote, the recovered counter is above both log numbers |
| `CompactionInputs.GetRange` | meshiiru/Pods/leveldb-library/db/version_set.cc:1205-1224 | the least smallest and the greatest largest key of a set of files |
| `CompactionInputs.GetOverlappingInputs` | meshiiru/Pods/leveldb-library/db/version_set.cc:519-559 | exactly the files that meet the range above level 0; in level 0 the restarting loop ends with exactly the files that meet the least range that contains the range asked for and is closed under overlap |
| `CompactionInputs.WideningCounts` | meshiiru/Pods/leveldb-library/db/version_set.cc:540-556 | each restart leaves fewer files sticking out of the range, which is why the loop ends |
| `CompactionInputs.FindSmallestBoundaryFile` | meshiiru/Pods/leveldb-library/db/version_set.cc:1344-1362 | the first file that continues the user key of the given largest key, none when no file does |
| `CompactionInputs.AddBoundaryInputs` | meshiiru/Pods/leveldb-library/db/version_set.cc:1378-1401 | extends the choice by boundary files until no file of the level continues its largest user key |
| `CompactionInputs.BoundaryAddsNoDuplicate` | meshiiru/Pods/leveldb-library/db/version_set.cc:1378-1401 | no file is added twice |
| `CompactionInputs.BoundarySlice` | meshiiru/Pods/leveldb-library/db/version_set.cc:1378-1401 | in a sorted level the boundary files are the files next to the choice, so it stays a run of consecutive files |
| `CompactionInputs.UpperBecomesClosed` | meshiiru/Pods/leveldb-library/db/version_set.cc:1403-1410 | with its boundary files, a choice leaves out only files that are newer wherever they share a user key with it |
| `CompactionInputs.SetupOtherInputs` | meshiiru/Pods/leveldb-library/db/version_set.cc:1403-1462 | the inputs of both levels are closed, include the picked files, and chain without gaps if the picked files did; the upper inputs are the picked files with their boundary files, or the one wider choice that the expansion rule allows; lower inputs and grandparents are exactly the files that meet them |
| `CompactionInputs.TryToExpand` | meshiiru/Pods/leveldb-library/db/version_set.cc:1417-1447 | growing the upper inputs keeps closure and gaplessness; they grow exactly when the wider choice has more upper inputs, fits the size limit and leaves as many lower inputs |
| `CompactionInputs.PickCompaction` | meshiiru/Pods/leveldb-library/db/version_set.cc:1270-1322 | picks nothing exactly when neither size nor seeks ask for it; otherwise closed and gapless inputs of the asked level, set up from the first file past the compaction pointer or from the file that seeks charged, with all of level 0 that meets it |
| `CompactionInputs.FirstAfterPointer` | meshiiru/Pods/leveldb-library/db/version_set.cc:1284-1296 | the first file ending past the compaction pointer, wrapping around to the first file when there is none |
| `CompactionInputs.CompactRange` | meshiiru/Pods/leveldb-library/db/version_set.cc:1464-1495 | nothing to do exactly when no file of the level meets the range; otherwise closed inputs, which may have gaps, with every file of level 0 that meets the range, or above it the files that meet it from the first one up to the size limit, and set up from exactly these |
| `CompactionMeaning.AnswersSurviveIff` | meshiiru/Pods/leveldb-library/db/db_impl.cc:906-963 | for any split of a store into inputs and the rest, dropping hidden entries and obsolete markers keeps every answer at or above the smallest snapshot exactly when no dropped marker was hiding a value outside the inputs |
| `CompactionMeaning.OlderIsDeeper` | meshiiru/Pods/leveldb-library/db/version_set.cc:1533-1552 | with closed inputs, an older entry outside them lies two or more levels below, or in a left-out file of the lower level that continues the last lower user key |
| `CompactionMeaning.CompactionKeepsAnswersIff` | meshiiru/Pods/leveldb-library/db/db_impl.cc:906-963 | with the inputs the code chooses, every answer at or above the smallest snapshot is kept exactly when the last user key of the lower inputs does not come back from a left-out file that continues it |
| `CompactionMeaning.OnlyLastKeyIsLost` | meshiiru/Pods/leveldb-library/db/version_set.cc:1403-1410 | no other key can lose its answer |
| `CompactionMeaning.ClosedNeverResurrects` | meshiiru/Pods/leveldb-library/db/version_set.cc:1403-1410 | if no left-out lower file continues the last lower user key, no answer is lost |
| `CompactionMeaning.LeftOutBesideIsNewer` | meshiiru/Pods/leveldb-library/db/version_set.cc:1403-1410 | a left-out lower file is newer than the lower inputs on shared user keys, or continues their last one |
| `CompactionWork.Compaction.IsBaseLevelForKey` | meshiiru/Pods/leveldb-library/db/version_set.cc:1533-1552 | asked about ascending user keys, the moving cursors answer as a full scan of all deeper levels would |
| `CompactionWork.HiddenByPrevious` | meshiiru/Pods/leveldb-library/db/db_impl.cc:946-948 | in merged order, looking only at the sequence number of the entry just before decides whether some newer input entry is already visible at the smallest snapshot |
| `CompactionWork.DropAndSplit` | meshiiru/Pods/leveldb-library/db/db_impl.cc:906-999 | whenever output files are closed, the outputs together are the input entries that are kept, in order, and no output is empty; an entry is kept exactly unless a newer input entry of its key is already visible at the smallest snapshot, or it is a marker at or below it whose key no file two or more levels down covers |
| `CompactionMeaning.KeptIsNeeded` | meshiiru/Pods/leveldb-library/db/db_impl.cc:946-960 | of two input entries of a key that are both visible at the smallest snapshot, the older is dropped; no marker at or below it is kept without a file two or more levels down that covers its key; and nothing else is dropped |
| `CompactionMeaning.OneVersionIsKept` | meshiiru/Pods/leveldb-library/db/db_impl.cc:946-948 | so at most one entry of a key at or below the smallest snapshot is kept, the newest one |
| `CompactionWork.KeptIsKept` | meshiiru/Pods/leveldb-library/db/db_impl.cc:906-999 | what the loop keeps is, as a set, what the drop rules keep, and it is sorted |
| `VersionEdits.EditKeepsValid` | meshiiru/Pods/leveldb-library/db/version_set.cc:695-754 | an edit whose files fit between what stays keeps all levels sorted and disjoint, newer above older, and file numbers unique |
| `VersionEdits.FlushKeepsValid` | meshiiru/Pods/leveldb-library/db/db_impl.cc:491-533 | installing a flushed memtable at the chosen level keeps the version valid |
| `VersionEdits.EditKeepsValidIff` | meshiiru/Pods/leveldb-library/db/version_set.cc:695-754 | for files that fit otherwise, above level 0 the new version is valid exactly when each of them stands apart from what stays in its level |
| `VersionEdits.InstallKeepsValidIff` | meshiiru/Pods/leveldb-library/db/db_impl.cc:860-876 | replacing inputs by files made of their entries keeps the version valid exactly when no new file spans a file that stays in the lower level, whatever was flushed since the inputs were chosen |
| `VersionEdits.ClosedOutputsFit` | meshiiru/Pods/leveldb-library/db/db_impl.cc:860-876 | new files always fit while no file was flushed into a gap between the inputs |
| `VersionEdits.AppliedEntries` | meshiiru/Pods/leveldb-library/db/version_set.cc:650-754 | the entries of the new version are those of the added files and of the files that stay |
| `Safety.InitSatisfiesInv` | meshiiru/Pods/leveldb-library/db/db_impl.cc:127-151 | the empty store satisfies the invariant |
| `Safety.StepKeepsInv` | meshiiru/Pods/leveldb-library/db/db_impl.cc:535-1035 | every step keeps the whole invariant: sorted and disjoint levels, newer above older in memory and tables, exact answers at live snapshots, unused output numbers, a manifest that replays |
| `Safety.FlushKeepsInv` | meshiiru/Pods/leveldb-library/db/db_impl.cc:535-566 | a flush keeps it, also in the middle of any compaction and wherever the level choice sends it |
| `Safety.GaplessStaysClosed` | meshiiru/Pods/leveldb-library/db/version_set.cc:491-516 | gapless inputs stay closed whatever is flushed, because the level choice avoids any overlap and leaves no gap to land in |
| `Safety.GaplessAlwaysFits` | meshiiru/Pods/leveldb-library/db/db_impl.cc:860-876 | so with gapless inputs any split of the outputs fits at any time |
| `GapFlushes.CanBreakIff` | meshiiru/Pods/leveldb-library/db/db_impl.cc:811-876 | some split of what a pending compaction keeps would break the version exactly when a file that stays in the lower level lies between kept entries |
| `GapFlushes.FlushCanBreakIff` | meshiiru/Pods/leveldb-library/db/db_impl.cc:535-566 | a flush makes a pending compaction breakable exactly when it lands in its lower level between entries that the compaction keeps |
| `GapFlushes.GaplessCannotBreak` | meshiiru/Pods/leveldb-library/db/version_set.cc:1270-1322 | with gapless inputs, which are all that automatic compactions have, no flush is ever harmful |
| `Safety.MoveKeepsInv` | meshiiru/Pods/leveldb-library/db/db_impl.cc:718-733 | a trivial move keeps it |
| `Safety.InstallKeepsInv` | meshiiru/Pods/leveldb-library/db/db_impl.cc:860-876 | installing outputs that fit and lose no answer keeps it, whatever was written or flushed since the inputs were chosen |
| `Safety.InstallKeepsInvIff` | meshiiru/Pods/leveldb-library/db/db_impl.cc:860-876 | and both conditions are exact: the invariant survives an installation if and only if no output spans a file of the lower level and no dropped marker was hiding a value |
| `Safety.InstallAnswers` | meshiiru/Pods/leveldb-library/db/db_impl.cc:906-963 | the answers at or above the smallest snapshot survive exactly when no dropped marker was hiding a value outside the inputs |
| `Safety.KeptIsTheSame` | meshiiru/Pods/leveldb-library/db/db_impl.cc:906-963 | flushes since the choice of inputs do not change which deletion markers the drop rules find obsolete |
| `Safety.InstallReclaims` | meshiiru/Pods/leveldb-library/db/db_impl.cc:860-876 | after an installation the tables hold the outputs and the files that were not inputs, and no output holds an entry that a newer input entry superseded at or below the smallest snapshot, or a marker there with nothing below it to delete |
| `Safety.SmallestSnapshotIsLeast` | meshiiru/Pods/leveldb-library/db/db_impl.cc:889-893 | the smallest snapshot is the oldest live one, or the last sequence number when there is none, and no live one is below it |
| `Safety.RunKeepsInv` | meshiiru/Pods/leveldb-library/db/db_impl.cc:1185-1256 | every state of every run satisfies the invariant |
| `Safety.ReadsSurvive` | meshiiru/Pods/leveldb-library/db/db_impl.cc:1100-1145 | in every state of every run, every read at a live snapshot answers with the newest write to the key at or below it |
| `Safety.SnapshotsAreStable` | meshiiru/Pods/leveldb-library/include/leveldb/db.h:98-102 | a snapshot live in two states of a run reads the same in both |
| `Safety.HistoryGrowsAlong` | meshiiru/Pods/leveldb-library/db/db_impl.cc:1185-1256 | along a run, writes are only added, above every sequence number already published |
| `Safety.ManifestAlwaysReplays` | meshiiru/Pods/leveldb-library/db/version_set.cc:886-1011 | at every point of every run, replaying the manifest through one builder gives the current version |
| `PendingCompactions.StepAddsNoContinuation` | meshiiru/Pods/leveldb-library/db/version_set.cc:1403-1410 | no step brings in a file that continues the last lower input while the compaction is pending |
| `PendingCompactions.ChosenSafelyStaysSafe` | meshiiru/Pods/leveldb-library/db/db_impl.cc:860-876 | a compaction chosen without such a file can be installed at any later point of the run with no answer lost |
| `PendingCompactions.PickedSafelyInstalls` | meshiiru/Pods/leveldb-library/db/db_impl.cc:718-766 | a picked compaction that nothing continues can be installed at any later point of the run, however its outputs are split |
| `Limits.ContinuedChoice` | meshiiru/Pods/leveldb-library/db/version_set.cc:1403-1410 | a valid version on which the code's choice of inputs leaves out a lower file that continues the last lower input |
| `Limits.ContinuationBringsBack` | meshiiru/Pods/leveldb-library/db/db_impl.cc:946-960 | compacting that choice brings a deleted key back for every reader |
| `Limits.ManualLeavesGap` | meshiiru/Pods/leveldb-library/db/version_set.cc:1464-1495 | a valid version, a manual compaction whose inputs leave a gap, and a flush that the level choice allows to land in it, after which the version is still valid |
| `Limits.GapBreaksLevel` | meshiiru/Pods/leveldb-library/db/db_impl.cc:860-876 | installing the output of that compaction gives an invalid version, an instance of the general condition of VersionEdits.InstallKeepsValidIff |
| `Limits.OutputIsKept` | meshiiru/Pods/leveldb-library/db/db_impl.cc:906-963 | that output holds exactly what the drop rules keep |
| `Limits.GapHidesValue` | meshiiru/Pods/leveldb-library/db/version_set.cc:365-382 | a search of that level then misses the flushed value |
| `Database.DBImpl.constructor` | meshiiru/Pods/leveldb-library/db/db_impl.cc:127-151 | a new store is in the initial state and satisfies the invariant |
| `Database.DBImpl.InsertOne` | meshiiru/Pods/leveldb-library/db/write_batch.cc:116-137 | one operation becomes one memtable entry with the next sequence number |
| `Database.DBImpl.ApplyGroup` | meshiiru/Pods/leveldb-library/db/db_impl.cc:1204-1237 | after a logged group every reader of the new last sequence number sees all its operations in order, and no earlier reader sees any; a group that was not logged changes no answer but uses up its numbers |
| `Database.DBImpl.Publish` | meshiiru/Pods/leveldb-library/db/db_impl.cc:1236-1236 | the last sequence number moves past the group |
| `Database.DBImpl.SwitchMemTable` | meshiiru/Pods/leveldb-library/db/db_impl.cc:1345-1366 | the memtable becomes the immutable one and a fresh one takes its place |
| `Database.DBImpl.GetSnapshot` | meshiiru/Pods/leveldb-library/db/db_impl.cc:1166-1169 | a snapshot of the last published sequence number joins the live ones |
| `Database.DBImpl.ReleaseSnapshot` | meshiiru/Pods/leveldb-library/db/db_impl.cc:1171-1174 | one snapshot leaves, the others stay in order |
| `Database.DBImpl.Get` | meshiiru/Pods/leveldb-library/db/db_impl.cc:1100-1145 | the newest value written at or below the snapshot, none after a deletion or with no write |
| `Database.FirstHitAnswers` | meshiiru/Pods/leveldb-library/db/db_impl.cc:1122-1136 | looking in the memtable, the immutable memtable and the version, in this order and stopping at the first hit, answers for all three |
| `Database.DBImpl.NewIterator` | meshiiru/Pods/leveldb-library/db/db_impl.cc:1147-1157 | an iterator over exactly the keys and values that the history holds at its sequence number |
| `Database.DBImpl.LogAndApply` | meshiiru/Pods/leveldb-library/db/version_set.cc:801-884 | the edit is applied to the current version and logged |
| `Database.DBImpl.RecoverVersion` | meshiiru/Pods/leveldb-library/db/version_set.cc:886-1011 | the manifest alone gives back the current version |
| `Database.DBImpl.CompactMemTable` | meshiiru/Pods/leveldb-library/db/db_impl.cc:535-566 | flushing is one step of the store, which stays valid, also during any compaction; an empty memtable makes no file, and a file goes to exactly the level that the level choice names |
| `Database.DBImpl.BackgroundCompaction` | meshiiru/Pods/leveldb-library/db/db_impl.cc:688-733 | an immutable memtable goes first; otherwise the picked compaction, gapless and picked as the version set picks, is moved exactly when it is one file with nothing below it and few enough grandparent bytes, else started; with nothing picked nothing changes |
| `Database.DBImpl.ManualCompaction` | meshiiru/Pods/leveldb-library/db/db_impl.cc:697-711 | done exactly when no file meets the range; otherwise it starts a compaction at the asked level, never moves a file, and its inputs hold the files that meet the range, above level 0 from the first one up to the size limit |
| `Database.DBImpl.Start` | meshiiru/Pods/leveldb-library/db/db_impl.cc:878-894 | the smallest snapshot is fixed: the oldest live one, else the last sequence number |
| `Database.DBImpl.CompactionOutputs` | meshiiru/Pods/leveldb-library/db/db_impl.cc:906-999 | the groups of entries written to output files are what the drop rules keep, in order and split into non-empty runs |
| `Database.DBImpl.OpenCompactionOutputFile` | meshiiru/Pods/leveldb-library/db/db_impl.cc:786-809 | an output file takes a number that no file of the version and no manifest record has |
| `Database.DBImpl.InstallCompactionResults` | meshiiru/Pods/leveldb-library/db/db_impl.cc:860-876 | the outputs replace the inputs and the edit is logged; the store stays valid exactly when the outputs fit and no answer is lost, and always for gapless inputs that nothing continues |
| `Database.DBImpl.AbandonCompaction` | meshiiru/Pods/leveldb-library/db/db_impl.cc:769-784 | a failed compaction leaves version and answers as they were |
| `Database.GroupsMakeOutputs` | meshiiru/Pods/leveldb-library/db/db_impl.cc:811-858 | consecutive groups of the kept entries make well-formed, disjoint output files |
| `GroupCommit.BuildBatchGroup` | meshiiru/Pods/leveldb-library/db/db_impl.cc:1260-1306 | the group is the front of the queue up to the first writer that must stay out for its size or its sync flag; its batch is theirs in order; a leader without sync serves no writer with sync; a small leader waits for at most 128 KB of others, no group grows past 1 MB, and it stops only when the next writer would exceed that |
| `GroupCommit.OnlyOneGroup` | meshiiru/Pods/leveldb-library/db/db_impl.cc:1260-1306 | the queue alone decides the group |
| `GroupCommit.CommitStepKeeps` | meshiiru/Pods/leveldb-library/db/db_impl.cc:1185-1256 | every step of writers and of the store keeps the invariant of group commit: consecutive numbers, groups of whole requests, outcomes, log order, snapshots only at group ends |
| `GroupCommit.FinishKeeps` | meshiiru/Pods/leveldb-library/db/db_impl.cc:1236-1248 | publishing a group, popping it and telling its writers keeps it, for groups that failed as well |
| `CommitReads.CommitRunKeepsInv` | meshiiru/Pods/leveldb-library/db/db_impl.cc:1185-1256 | every state of every interleaving satisfies it |
| `CommitReads.CommitRefinesStore` | meshiiru/Pods/leveldb-library/db/db_impl.cc:1185-1256 | the states of the store along any interleaving of group commit, without repetitions, are a run of the store, with every state in its place |
| `CommitReads.CommitsKeepReads` | meshiiru/Pods/leveldb-library/db/db_impl.cc:1100-1145 | so in every state of every interleaving a read at a live snapshot is what the history of writes says |
| `CommitReads.CommitsKeepSnapshots` | meshiiru/Pods/leveldb-library/include/leveldb/db.h:98-102 | and a snapshot live in two states of an interleaving reads the same in both |
| `CommitReads.CommitsKeepManifest` | meshiiru/Pods/leveldb-library/db/version_set.cc:886-1011 | and the manifest replays to the current version in every state |
| `CommitReads.ReadsSeeWholeBatches` | meshiiru/Pods/leveldb-library/db/db_impl.cc:1185-1256 | any live snapshot sees exactly the acknowledged batches up to some point of the queue, each as a whole and in queue order |
| `CommitReads.PresentSeesAcknowledged` | meshiiru/Pods/leveldb-library/db/db_impl.cc:1185-1256 | a reader of the present sees every acknowledged batch |
| `CommitReads.NumbersNeverReused` | meshiiru/Pods/leveldb-library/db/db_impl.cc:1204-1237 | the sequence numbers of a group end before those of any later group start, also when the group failed |
| `CommitReads.OutcomesAreFinal` | meshiiru/Pods/leveldb-library/db/db_impl.cc:1239-1248 | between any two states of a run, outcomes given, requests, finished groups and log records only join at the end |
| `CommitReads.AcknowledgedIsLogged` | meshiiru/Pods/leveldb-library/db/db_impl.cc:1213-1233 | the log starts with every acknowledged operation in queue order; between groups it is exactly that if and only if no sync has failed under a group that has operations |
| `CommitReads.FailedSyncRun` | meshiiru/Pods/leveldb-library/db/db_impl.cc:1227-1232 | a run with one sync write whose sync fails, after which the log holds an operation whose writer was told of a failure |
| `WriteQueues.WriteQueue.constructor` | meshiiru/Pods/leveldb-library/db/db_impl.cc:1185-1200 | an empty queue over a new store |
| `WriteQueues.WriteQueue.Enqueue` | meshiiru/Pods/leveldb-library/db/db_impl.cc:1185-1192 | a writer joins at the back |
| `WriteQueues.WriteQueue.TakeTurn` | meshiiru/Pods/leveldb-library/db/db_impl.cc:1193-1207 | the front writer leads the group of the queue, or finishes alone for lack of room or of a batch |
| `WriteQueues.WriteQueue.AppendToLog` | meshiiru/Pods/leveldb-library/db/db_impl.cc:1213-1222 | the group is one log record; a failed sync poisons later writes |
| `WriteQueues.WriteQueue.InsertNextOp` | meshiiru/Pods/leveldb-library/db/db_impl.cc:1223-1225 | the leader inserts the next operation of its group under the next number |
| `WriteQueues.WriteQueue.FinishGroup` | meshiiru/Pods/leveldb-library/db/db_impl.cc:1236-1248 | popping the queue up to the last writer of the group tells each of them the group's status, exactly once |
| `MergingIterators.MergingIterator.SeekToFirst` | meshiiru/Pods/leveldb-library/table/merger.cc:31-37 | stands at the first entry of the union of the children |
| `MergingIterators.MergingIterator.SeekToLast` | meshiiru/Pods/leveldb-library/table/merger.cc:39-45 | stands at the last entry of the union |
| `MergingIterators.MergingIterator.Seek` | meshiiru/Pods/leveldb-library/table/merger.cc:47-53 | stands at the first entry of the union at or after the target |
| `MergingIterators.MergingIterator.Next` | meshiiru/Pods/leveldb-library/table/merger.cc:55-79 | from any valid position and either direction, stands at the first entry of the union after the one left, not valid when there is none |
| `MergingIterators.MergingIterator.Prev` | meshiiru/Pods/leveldb-library/table/merger.cc:81-108 | likewise at the last entry before the one left |
| `MergingIterators.ForwardFinds` | meshiiru/Pods/leveldb-library/table/merger.cc:148-161 | with every child at its first entry past a cut, the smallest child stands at the union's first entry past it |
| `MergingIterators.BackwardFinds` | meshiiru/Pods/leveldb-library/table/merger.cc:163-176 | with every child at its last entry before a cut, the largest child stands at the union's last entry before it |
| `DbIters.DBIter.SeekToFirst` | meshiiru/Pods/leveldb-library/db/db_iter.cc:283-292 | the first live user key at the sequence number, with its newest visible value |
| `DbIters.DBIter.Seek` | meshiiru/Pods/leveldb-library/db/db_iter.cc:269-281 | the first live user key at or after the target |
| `DbIters.DBIter.SeekToLast` | meshiiru/Pods/leveldb-library/db/db_iter.cc:294-299 | the last live user key |
| `DbIters.DBIter.Next` | meshiiru/Pods/leveldb-library/db/db_iter.cc:141-166 | the next live user key after the one shown, from either direction |
| `DbIters.DBIter.Prev` | meshiiru/Pods/leveldb-library/db/db_iter.cc:200-225 | the last live user key before the one shown, from either direction |
| `DbIters.DBIter.FindNextUserEntry` | meshiiru/Pods/leveldb-library/db/db_iter.cc:168-198 | the forward scan passes over invisible, hidden and deleted entries and stops at the first live key within its bound |
| `DbIters.DBIter.FindPrevUserEntry` | meshiiru/Pods/leveldb-library/db/db_iter.cc:227-267 | the backward scan collects the newest visible value of each key it passes and stops behind the last live one |
| `DbIters.OneAnswer` | meshiiru/Pods/leveldb-library/db/db_iter.cc:141-299 | each movement has only one possible result, so these contracts say where the iterator goes |
| `DbIters.TurningReturns` | meshiiru/Pods/leveldb-library/db/db_iter.cc:141-225 | turning around returns to the key shown before |
| `StoreIterators.AddIterators` | meshiiru/Pods/leveldb-library/db/version_set.cc:230-246 | the children for a version, one per level-0 file and one per deeper level, together hold exactly its entries, each once |
| `StoreIterators.MakeInputIterator` | meshiiru/Pods/leveldb-library/db/version_set.cc:1237-1268 | the merged input of a compaction holds exactly the entries of its input files |
| `StoreIterators.Drain` | meshiiru/Pods/leveldb-library/db/db_impl.cc:906-999 | reading a merging iterator to its end gives all its entries once, in order |
| `LogFormat.BytesSplit` | meshiiru/Pods/leveldb-library/db/log_writer.cc:34-80 | the bytes of the records still to read are the next fragment's and then the rest, across fragments and blocks |
| `LogFormat.EmitManyAdvances` | meshiiru/Pods/leveldb-library/db/log_writer.cc:27-30 | the length of a log modulo the block size is where its last record ended in a block |
| `LogFormat.EmitIsLaid` | meshiiru/Pods/leveldb-library/db/log_writer.cc:34-112 | the bytes of a record, wherever the file ends before it: zeros where fewer than seven bytes are left in a 32 KB block, then its fragments, each with checksum, length and type 1 to 4 in its header, none across a block and all but the last filling theirs |
| `LogWriter.Writer.constructor` | meshiiru/Pods/leveldb-library/db/log_writer.cc:23-25 | a new log |
| `LogWriter.Writer.Reopen` | meshiiru/Pods/leveldb-library/db/log_writer.cc:27-30 | going on with a log of which only the length is known, modulo the block size |
| `LogWriter.Writer.AddRecord` | meshiiru/Pods/leveldb-library/db/log_writer.cc:34-80 | the file is then exactly the encoding of all records added so far, and what was appended is laid out as the format says |
| `LogWriter.Writer.EmitPhysicalRecord` | meshiiru/Pods/leveldb-library/db/log_writer.cc:82-108 | one physical record is appended |
| `LogReader.Reader.ReadPhysicalRecord` | meshiiru/Pods/leveldb-library/db/log_reader.cc:189-271 | in any prefix of a log, the next fragment is returned when the prefix holds all of it, else the end of the file, with no corruption reported |
| `LogReader.Reader.ParseRecord` | meshiiru/Pods/leveldb-library/db/log_reader.cc:216-271 | in any file at all, nothing is taken for a record that its checksum does not vouch for |
| `LogReader.Reader.ReadRecord` | meshiiru/Pods/leveldb-library/db/log_reader.cc:56-174 | puts the fragments of the next record together when all of them are there |
| `LogReader.ReadAll` | meshiiru/Pods/leveldb-library/db/log_reader.cc:56-271 | crash safety: reading any byte prefix of a log returns exactly the records wholly inside it, in order, and reports no corruption |
| `LogRecovery.ReplayLog` | meshiiru/Pods/leveldb-library/db/db_impl.cc:371-488 | from a log cut at any byte, the memtable gets exactly the operations of the groups wholly there, with the numbers they were written with; the number found bounds them all and ends one of the groups |
| `CrashRecovery.StepKeepsLayout` | meshiiru/Pods/leveldb-library/db/db_impl.cc:1344-1364 | every step, unconditionally, keeps what is on disk in order: tables hold only what was logged before the log that the manifest names, the immutable memtable the log file after that, the memtable the current one; log numbers rise, and the counters last logged name the right log and cover all file numbers and sequence numbers of the tables |
| `CrashRecovery.AnswersBelowMemoryIff` | meshiiru/Pods/leveldb-library/db/db_impl.cc:946-960 | for a compaction that loses no answer of the whole store, tables and immutable memtable alone keep theirs exactly when no dropped marker was hiding a value among them |
| `CrashRecovery.InstallKeepsBelowIff` | meshiiru/Pods/leveldb-library/db/db_impl.cc:860-876 | an installation keeps what tables and immutable memtable answer exactly when no dropped marker was hiding a value among them |
| `CrashRecovery.InstallKeepsLogIff` | meshiiru/Pods/leveldb-library/db/db_impl.cc:860-876 | after an installation tables and immutable memtable still answer as the log up to the last switch of memtables exactly under that condition |
| `CrashRecovery.StepKeepsLog` | meshiiru/Pods/leveldb-library/db/db_impl.cc:535-566 | every other step keeps that |
| `CrashRecovery.RotateRestoresLog` | meshiiru/Pods/leveldb-library/db/db_impl.cc:1344-1364 | a switch of memtables makes it true whatever was hidden before, since tables and immutable memtable are then the whole store |
| `CrashRecovery.HiddenStaysHidden` | meshiiru/Pods/leveldb-library/db/db_impl.cc:860-876 | once it fails, it fails until the next switch of memtables |
| `CrashRecovery.InstallKeepsValues` | meshiiru/Pods/leveldb-library/db/db_impl.cc:930-963 | an installation never changes the answer for a key that has a value among tables and immutable memtable |
| `CrashRecovery.CrashLosesNoValue` | meshiiru/Pods/leveldb-library/db/db_impl.cc:310-369 | harmless or not, after a crash every key that has a value after the operations wholly in the log reads as that value |
| `CrashRecovery.KeptReopens` | meshiiru/Pods/leveldb-library/db/db_impl.cc:310-369 | as long as that holds, reopening after a cut anywhere in the current log answers every read from the cut's last number on as the operations wholly in the log, from the first write on, in order |
| `CrashRecovery.ReopensRightIff` | meshiiru/Pods/leveldb-library/db/db_impl.cc:310-369 | in any state, reopening answers right for every cut of the current log if and only if tables and immutable memtable answer as the log up to the last switch |
| `CrashRecovery.LogIsAcknowledged` | meshiiru/Pods/leveldb-library/db/db_impl.cc:1213-1233 | the operations in the log are the batches acknowledged up to some point of the queue, or all of them and at most one unacknowledged group more |
| `CrashRecovery.NoContinuationHidesNothing` | meshiiru/Pods/leveldb-library/db/version_set.cc:1403-1410 | the condition on an installation holds whenever no left-out file continues the last lower input |
| `Limits.MemoryHidesLoss` | meshiiru/Pods/leveldb-library/db/db_impl.cc:946-960 | a valid version and a compaction for which a newer write in memory hides that the tables alone bring a deleted key back |
| `Lives.RecoveredVersion` | meshiiru/Pods/leveldb-library/db/version_set.cc:801-884 | the version of a reopened store is valid and holds the recovered tables and the files of replayed records, whatever number of them went to level 0 |
| `Lives.RebornIffRight` | meshiiru/Pods/leveldb-library/db/db_impl.cc:1474-1503 | what opening makes of the recovered version, the replayed records and the recovered counters satisfies the whole invariant of group commit again, with what was wholly in the log as its past, exactly when reopening answers right; its files are always in order, and its log is then kept |
| `Lives.LifeKeepsInv` | meshiiru/Pods/leveldb-library/db/db_impl.cc:1474-1503 | every state of a store satisfies the invariants, through any number of crashes and reopenings with any run between them |
| `Lives.LifeKeepsReads` | meshiiru/Pods/leveldb-library/db/db_impl.cc:1100-1145 | in every such state, reads at live snapshots are what the history says, which after a crash is what was wholly in the log |
| `Lives.LifeSeesWholeBatches` | meshiiru/Pods/leveldb-library/db/db_impl.cc:1185-1256 | and a snapshot sees the acknowledged batches up to some point, each as a whole and in order, the present all of them |
| `Lives.CrashKeepsLog` | meshiiru/Pods/leveldb-library/db/db_impl.cc:310-369 | what counts as acknowledged after a crash are the operations wholly in the log: with an uncut log all batches acknowledged before, and at most more |
| `Lives.CrashIsHarmlessIff` | meshiiru/Pods/leveldb-library/db/db_impl.cc:946-960 | a crash in one state of a life, with the current log cut anywhere, is harmless if and only if no installation since the last switch of memtables, or the last reopening, drops a marker that hides a value among tables and immutable memtable |
| `Lives.NoCrashLosesValues` | meshiiru/Pods/leveldb-library/db/db_impl.cc:310-369 | in any state of any life a crash loses no value, so all that can go wrong is that a deleted key comes back |
| `Lives.EveryCrashIsHarmlessIff` | meshiiru/Pods/leveldb-library/db/db_impl.cc:946-960 | a crash at any state of a life, with the current log cut anywhere, is harmless if and only if no installation of that life drops a marker that hides a value among tables and immutable memtable |
| `Lives.RunIsLife` | meshiiru/Pods/leveldb-library/db/db_impl.cc:1474-1503 | every run of group commit is such a life, so all of this holds of it |
| `Reopening.RecordsReadBack` | meshiiru/Pods/leveldb-library/db/db_impl.cc:418-439 | the entries that replay puts into the memtable are those the records stand for |
| `Reopening.RecoverVersion` | meshiiru/Pods/leveldb-library/db/version_set.cc:886-1011 | from the manifest of any reachable state, the running version and the counters last logged come back |
| `Reopening.LogsToReplay` | meshiiru/Pods/leveldb-library/db/db_impl.cc:323-350 | the log files at or above the recovered log number, or with the previous log number, in ascending order |
| `Reopening.LogsAreThese` | meshiiru/Pods/leveldb-library/db/db_impl.cc:323-350 | of all log files in the directory, obsolete ones included, these are the one of the memtable being flushed, if there is one, and the current one |
| `Reopening.ReplayFile` | meshiiru/Pods/leveldb-library/db/db_impl.cc:416-439 | replaying one cut log file gives back the operations of exactly the records wholly in it, and the number they end with |
| `Reopening.ReplayLogs` | meshiiru/Pods/leveldb-library/db/db_impl.cc:349-366 | replaying them in turn gives back the log from where the tables end to the last record wholly in the current file |
| `Reopening.FlushReplayed` | meshiiru/Pods/leveldb-library/db/db_impl.cc:441-486 | the replayed operations end up in tables with rising numbers that hold exactly them, later tables newer, wherever the memtable was full |
| `Reopening.Reopen` | meshiiru/Pods/leveldb-library/db/db_impl.cc:310-369 | crash safety end to end: after any life of a store, the bytes of its manifest and of its logs, the current one cut at any byte, make the reborn store of the records wholly there; it satisfies the whole invariant exactly when reopening answers right there, and then reads at the recovered sequence number answer as all operations up to the cut |
| `Coding.UnmaskUndoesMask` | meshiiru/Pods/leveldb-library/util/crc32c.h:24-38 | unmasking a masked checksum gives it back |
| `Coding.FixedRoundTrip` | meshiiru/Pods/leveldb-library/util/coding.cc:9-33 | decoding a fixed-length little-endian number gives it back |
| `VarintCodec.EncodeVarint32` | meshiiru/Pods/leveldb-library/util/coding.cc:47-73 | the five branches by size write the base-128 form |
| `VarintCodec.GetVarint32` | meshiiru/Pods/leveldb-library/util/coding.cc:112-140 | reads back any 32-bit number from the front of a string and leaves the rest; on any input it succeeds exactly when the string starts with a varint of at most five bytes, and gives the sum of its groups modulo 2^32 |
| `VarintCodec.EncodeVarint64` | meshiiru/Pods/leveldb-library/util/coding.cc:81-90 | the loop writes the base-128 form |
| `VarintCodec.GetVarint64` | meshiiru/Pods/leveldb-library/util/coding.cc:142-169 | reads back any 64-bit number and leaves the rest; on any input it succeeds exactly when there is a varint of at most ten bytes |
| `VarintCodec.GetLengthPrefixed` | meshiiru/Pods/leveldb-library/util/coding.cc:181-190 | reads back a length-prefixed string and leaves the rest; what it accepts on any input is a length and as many bytes |
| `Varints.VarintForm` | meshiiru/Pods/leveldb-library/util/coding.cc:47-90 | a number as a varint: groups of seven bits, the least significant first, all marked but the last, that sum up to the number, with no byte wasted |
| `Coding.EightIsTwiceFour` | meshiiru/Pods/leveldb-library/util/coding.cc:9-33 | eight bytes are the low four bytes and then the high four |
| `Coding.DecodeIsLowFirst` | meshiiru/Pods/leveldb-library/util/coding.h:60-72 | four bytes are read with the lowest first |
| `WriteBatches.WriteBatch.Put` | meshiiru/Pods/leveldb-library/db/write_batch.cc:98-103 | the bytes are then those of the batch with one more operation, its count included |
| `WriteBatches.WriteBatch.Delete` | meshiiru/Pods/leveldb-library/db/write_batch.cc:105-109 | likewise for a deletion |
| `WriteBatches.WriteBatch.Append` | meshiiru/Pods/leveldb-library/db/write_batch.cc:144-148 | the bytes are then those of both batches' operations in order |
| `WriteBatches.WriteBatch.SetSequence` | meshiiru/Pods/leveldb-library/db/write_batch.cc:94-96 | only the sequence number changes |
| `WriteBatches.Iterate` | meshiiru/Pods/leveldb-library/db/write_batch.cc:42-80 | hands out exactly the operations of a batch, in order; on any input what is handed out is read record by record from the bytes after the header, and it is accepted exactly when they are used up and as many as the count says |
| `WriteBatches.RecordForm` | meshiiru/Pods/leveldb-library/db/write_batch.cc:98-109 | a record is one byte, which is the type byte that its entry has in an internal key, then key and value with their lengths |
| `WriteBatches.BatchForm` | meshiiru/Pods/leveldb-library/db/write_batch.cc:5-14 | a batch is eight bytes of sequence number, four bytes of count, both lowest byte first, then the records |
| `SkipLists.SkipList.constructor` | meshiiru/Pods/leveldb-library/db/skiplist.h:324-334 | an empty list |
| `SkipLists.SkipList.FindGreaterOrEqual` | meshiiru/Pods/leveldb-library/db/skiplist.h:260-281 | the first node at or after the key, and on every level in use the last node before it |
| `SkipLists.SkipList.FindLessThan` | meshiiru/Pods/leveldb-library/db/skiplist.h:283-302 | the last node before the key, the head when there is none |
| `SkipLists.SkipList.FindLast` | meshiiru/Pods/leveldb-library/db/skiplist.h:304-322 | the last node, the head of an empty list |
| `SkipLists.SkipList.Insert` | meshiiru/Pods/leveldb-library/db/skiplist.h:336-368 | for any height, the contents are the sorted run with the entry inserted, and on every level each node is linked to the next node that is on it |
| `SkipLists.SkipList.Contains` | meshiiru/Pods/leveldb-library/db/skiplist.h:370-378 | true exactly when an entry has the key |
| `SkipLists.LevelSpliced` | meshiiru/Pods/leveldb-library/db/skiplist.h:361-367 | on one level, linking the new node after the last node before it changes that one link and no other |
| `SkipLists.Iterator.Seek` | meshiiru/Pods/leveldb-library/db/skiplist.h:223-226 | stands at the position where a sorted run is sought to |
| `SkipLists.Iterator.Next` | meshiiru/Pods/leveldb-library/db/skiplist.h:206-210 | one position on |
| `SkipLists.Iterator.Prev` | meshiiru/Pods/leveldb-library/db/skiplist.h:212-221 | by a search from the head, one position back, not valid before the first entry |
| `Blocks.BlockBuilder.Add` | meshiiru/Pods/leveldb-library/table/block_builder.cc:72-106 | the block holds one more entry; restart points stand one interval apart, and between them an entry shares exactly the longest common prefix with the one before; the size grows by no more than the entry and its sizes |
| `Blocks.BlockBuilder.Finish` | meshiiru/Pods/leveldb-library/table/block_builder.cc:62-70 | the finished bytes: entries, offsets of the restart points, and their number |
| `BlockIters.EntryForm` | meshiiru/Pods/leveldb-library/table/block_builder.cc:16-22 | where an entry starts stand three numbers, what it shares, the rest of its key's length and its value's length, then the rest of the key and the value |
| `BlockIters.BlockForm` | meshiiru/Pods/leveldb-library/table/block_builder.cc:24-27 | a block ends with the offsets of its restart points and their number, four bytes each |
| `BlockIters.DecodeEntry` | meshiiru/Pods/leveldb-library/table/block.cc:54-74 | reads back the sizes and parts of an entry that was encoded there, by the short path or the long one |
| `BlockIters.BlockIter.ParseNextKey` | meshiiru/Pods/leveldb-library/table/block.cc:224-251 | steps to the next entry added, rebuilding its key from the one before |
| `BlockIters.BlockIter.SeekToFirst` | meshiiru/Pods/leveldb-library/table/block.cc:203-206 | the first entry added |
| `BlockIters.BlockIter.Next` | meshiiru/Pods/leveldb-library/table/block.cc:137-140 | the next entry added, past the last one not valid |
| `BlockIters.BlockIter.SeekToLast` | meshiiru/Pods/leveldb-library/table/block.cc:208-213 | the last entry added |
| `BlockIters.BlockIter.Prev` | meshiiru/Pods/leveldb-library/table/block.cc:142-161 | from a restart point before it, the entry just before, not valid before the first |
| `BlockIters.BlockIter.Seek` | meshiiru/Pods/leveldb-library/table/block.cc:163-201 | binary search over restart points and a scan land on the first entry at or after the target, for any transitive order and any restart interval |
| `Bytewise.FindShortestSeparator` | meshiiru/Pods/leveldb-library/util/comparator.cc:29-50 | a key at or after the start and before the limit, no longer than the start; it is the start cut after the first difference and one up there exactly when there is room, else the start itself |
| `Bytewise.FindShortSuccessor` | meshiiru/Pods/leveldb-library/util/comparator.cc:52-64 | a key at or after the given one, no longer: cut after the first byte that can go up, and one up there; the same key exactly when no byte can |
| `Bytewise.FirstDifference` | meshiiru/Pods/leveldb-library/include/leveldb/slice.h:101-111 | the first byte that differs decides the bytewise order |
| `Bytewise.InternalSeparator` | meshiiru/Pods/leveldb-library/db/dbformat.cc:69-86 | before the limit; the start itself, or exactly when its user key can be shortened a key with the shortened user key, strictly between, and the trailer that sorts first |
| `Bytewise.InternalSuccessor` | meshiiru/Pods/leveldb-library/db/dbformat.cc:88-101 | the key itself, or exactly when its user key can be shortened a key with that greater user key and the trailer that sorts first |
| `FilterBlocks.FilterBlockBuilder.StartBlock` | meshiiru/Pods/leveldb-library/table/filter_block.cc:21-27 | filters are generated up to the one for the offset; keys already added keep their filter, those waiting get theirs, the ones in between are empty |
| `FilterBlocks.FilterBlockBuilder.AddKey` | meshiiru/Pods/leveldb-library/table/filter_block.cc:29-33 | one more key waits for the current filter |
| `FilterBlocks.FilterBlockBuilder.Finish` | meshiiru/Pods/leveldb-library/table/filter_block.cc:35-49 | the filters of all groups of keys, where each starts, where they end, and the base |
| `FilterBlocks.FilterForm` | meshiiru/Pods/leveldb-library/table/filter_block.cc:35-49 | the block ends with where each filter starts and where the last one ends, four bytes each, and with the byte 11; between two of them stands the policy's filter of the keys, nothing for no keys |
| `FilterBlocks.FilterBlockReader.KeyMayMatch` | meshiiru/Pods/leveldb-library/table/filter_block.cc:90-104 | what the policy says of the key and the filter for the offset, and yes where there is no filter |
| `Blooms.CreateFilter` | meshiiru/Pods/leveldb-library/util/bloom.cc:28-54 | appends the filter of the keys |
| `Blooms.FilterForm` | meshiiru/Pods/leveldb-library/util/bloom.cc:28-54 | a filter has at least 64 bits and at least as many as the settings ask for, rounded up to bytes, then the number of probes; a bit is set exactly when it is probe j of some key, at (h + j * delta) modulo 2^32 and modulo the number of bits |
| `Blooms.MayMatchIff` | meshiiru/Pods/leveldb-library/util/bloom.cc:28-80 | a key may match a filter exactly when every bit it probes is probed by some key of the filter, so a filter matches each of its keys |
| `Blooms.UserKeysHaveNoFalseNegatives` | meshiiru/Pods/leveldb-library/db/dbformat.cc:105-119 | a policy without false negatives has none on internal keys either, which it sees by user key |
| `Blooms.BloomOnUserKeys` | meshiiru/Pods/leveldb-library/util/bloom.cc:28-80 | the Bloom filter that tables are built with has no false negatives on internal keys, for any settings |
| `Tables.TableBuilder.constructor` | meshiiru/Pods/leveldb-library/table/table_builder.cc:65-70 | an empty table, with the settings asked for and every index entry a restart point |
| `Tables.TableBuilder.Add` | meshiiru/Pods/leveldb-library/table/table_builder.cc:94-123 | the table under construction holds one more entry: blocks where their handles say, index keys that separate them as short as can be, filters that have their keys; the current block is written exactly when it has reached the block size |
| `Tables.TableBuilder.Flush` | meshiiru/Pods/leveldb-library/table/table_builder.cc:125-139 | the current block is written and its index entry waits; the entries are the same |
| `Tables.TableBuilder.Finish` | meshiiru/Pods/leveldb-library/table/table_builder.cc:198-253 | the finished file describes exactly the entries added: index, metaindex and footer say where everything is, and every block has its filter if there is a policy |
| `Tables.TrailerForm` | meshiiru/Pods/leveldb-library/table/table_builder.cc:177-194 | a block in the file is its contents, a zero byte for no compression, and the masked checksum of both |
| `Footers.FooterForm` | meshiiru/Pods/leveldb-library/table/format.cc:31-40 | the footer is the four numbers of two handles, zeros up to 40 bytes, and the magic number, lowest byte first |
| `Footers.ReadFooter` | meshiiru/Pods/leveldb-library/table/format.cc:42-62 | gives back the handles of a footer; no file without the magic number is accepted |
| `Tables.EntryAdded` | meshiiru/Pods/leveldb-library/table/table_builder.cc:94-123 | a separator found when the next key is known keeps the index between the last key of its block and the first of the next |
| `TableReaders.ReadBlock` | meshiiru/Pods/leveldb-library/table/format.cc:64-139 | gives back a block that was written there; with verification, nothing that its checksum does not vouch for |
| `TableReaders.Open` | meshiiru/Pods/leveldb-library/table/table.cc:38-134 | opens any finished file from its bytes alone; the filter is used exactly when the reader's policy has the name that is in the metaindex |
| `TableReaders.Table.InternalGet` | meshiiru/Pods/leveldb-library/table/table.cc:216-244 | reports an entry of the user key exactly when the first entry of the whole table at or after the lookup key has that user key, and then that entry, filter or no filter |
| `TableReaders.BlockAnswers` | meshiiru/Pods/leveldb-library/table/table.cc:216-244 | the block found through the index gives that first entry; when the whole block is below the key, no entry has its user key |
| `TableReaders.FinishAndGet` | meshiiru/Pods/leveldb-library/table/table.cc:38-134 | building a table, opening its bytes and looking a key up answers as a scan of the entries added, whether the reader has the writer's filter policy, another one, or none |
| `TableReaders.FinishAndGetBloom` | meshiiru/Pods/leveldb-library/table/table.cc:216-244 | the same with the Bloom filter, with no hypothesis about it, for a reader with it and one without |
| `EncodedTables.EncodedOrder` | meshiiru/Pods/leveldb-library/db/dbformat.cc:51-67 | on encoded internal keys the comparator is the order of internal keys in the store model, for any embedding that keeps the order of the user keys in question |
| `EncodedTables.AnswersAsTableGet` | meshiiru/Pods/leveldb-library/db/version_set.cc:263-276 | what a lookup of an encoded key may report is exactly the entry that the store reads from the table, and nothing of the user key when it reads nothing |
| `EncodedTables.GetFromTable` | meshiiru/Pods/leveldb-library/db/table_cache.cc:100-112 | building, opening and looking up a table of encoded entries answers as the store's lookup in those entries |
| `TableReaders.TableIsSeparated` | meshiiru/Pods/leveldb-library/table/table.cc:210-214 | the index of a finished table separates its blocks, and its blocks in order are all its entries |
| `TwoLevelIterators.TwoLevelIterator.Seek` | meshiiru/Pods/leveldb-library/table/two_level_iterator.cc:82-87 | the first entry at or after the target in the run of all blocks, empty blocks skipped |
| `TwoLevelIterators.TwoLevelIterator.SeekToFirst` | meshiiru/Pods/leveldb-library/table/two_level_iterator.cc:89-94 | the first entry of the run |
| `TwoLevelIterators.TwoLevelIterator.SeekToLast` | meshiiru/Pods/leveldb-library/table/two_level_iterator.cc:96-101 | the last entry of the run |
| `TwoLevelIterators.TwoLevelIterator.Next` | meshiiru/Pods/leveldb-library/table/two_level_iterator.cc:103-107 | one entry on, across blocks, not valid past the last |
| `TwoLevelIterators.TwoLevelIterator.Prev` | meshiiru/Pods/leveldb-library/table/two_level_iterator.cc:109-113 | one entry back, across blocks, not valid before the first |
| `TwoLevelIterators.TwoLevelIterator.SkipEmptyDataBlocksForward` | meshiiru/Pods/leveldb-library/table/two_level_iterator.cc:115-126 | from the end of a block to the next block with an entry, at the same place of the run |
| `TwoLevelIterators.TwoLevelIterator.SkipEmptyDataBlocksBackward` | meshiiru/Pods/leveldb-library/table/two_level_iterator.cc:128-139 | from before a block to the last entry of the previous block with one |
| `Crc32c.Extend` | meshiiru/Pods/leveldb-library/util/crc32c.cc:276-377 | for every buffer, length and alignment, four interleaved strides and their combination give the checksum that one byte at a time gives |
| `Crc32c.StrideIsSixteen` | meshiiru/Pods/leveldb-library/util/crc32c.cc:294-310 | the four stride tables together advance a whole word by sixteen zero bytes |
| `Crc32c.LaneTurns` | meshiiru/Pods/leveldb-library/util/crc32c.cc:294-300 | feeding one word into the oldest of four partial checksums is feeding it into the checksum they stand for |
| `Crc32c.FourSteps` | meshiiru/Pods/leveldb-library/util/crc32c.cc:313-320 | four byte steps are one word step |
| `Castagnoli.TablesFit` | meshiiru/Pods/leveldb-library/util/crc32c.cc:20-243 | tables that take a byte, or a byte and sixteen zero bytes, through the division by the Castagnoli polynomial have the linear relations that the strided form needs |
| `Castagnoli.ByteEntries` | meshiiru/Pods/leveldb-library/util/crc32c.cc:20-63 | the eight entries that determine the table for single bytes |
| `Castagnoli.ByteWiseIsBitWise` | meshiiru/Pods/leveldb-library/util/crc32c.cc:286-291 | one byte at a time is the remainder of the message, one bit at a time |
| `Castagnoli.Value` | meshiiru/Pods/leveldb-library/util/crc32c.h:20-20 | so the checksum of a buffer, wherever it is in memory, is that remainder, started from ones and inverted |
| `Castagnoli.ValueOfBoth` | meshiiru/Pods/leveldb-library/util/crc32c.h:14-17 | and extending the checksum of one buffer by another one is the checksum of both |
| `Caches.HandleTable.Lookup` | meshiiru/Pods/leveldb-library/util/cache.cc:74-76 | the handle for the key, null exactly when there is none |
| `Caches.HandleTable.Insert` | meshiiru/Pods/leveldb-library/util/cache.cc:78-92 | the handle is in the table in the place of the one for its key, which is returned |
| `Caches.HandleTable.Remove` | meshiiru/Pods/leveldb-library/util/cache.cc:94-102 | the handle for the key leaves the table and is returned |
| `Caches.HandleTable.Resize` | meshiiru/Pods/leveldb-library/util/cache.cc:122-146 | every handle is moved, once, to a table with at least as many buckets as handles; the count agrees |
| `Caches.LRUCache.Lookup` | meshiiru/Pods/leveldb-library/util/cache.cc:252-259 | nothing changes when the key is not cached; else the client holds one reference more and the handle is in use |
| `Caches.LRUCache.Release` | meshiiru/Pods/leveldb-library/util/cache.cc:261-264 | the client's reference is gone; its last one puts a cached handle at the new end of the LRU list, with the present as the time since which it is unused, and deletes one that is not cached |
| `Caches.LRUCache.Insert` | meshiiru/Pods/leveldb-library/util/cache.cc:266-303 | a handle for the key replaces another one; handles leave while the cache does not fit, and every handle that leaves has been unused for longer than every unused handle that stays |
| `Caches.LRUCache.Erase` | meshiiru/Pods/leveldb-library/util/cache.cc:318-321 | the handle for the key leaves the cache, and is deleted unless a client holds it |
| `Caches.LRUCache.Prune` | meshiiru/Pods/leveldb-library/util/cache.cc:323-333 | all unused handles leave, oldest first |
| `Caches.EvictedFits` | meshiiru/Pods/leveldb-library/util/cache.cc:293-300 | after eviction the cache is within capacity or nothing can leave; what left are the oldest unused handles, no more than needed, each deleted once; handles in use stay |
| `Caches.EvictedAreOldest` | meshiiru/Pods/leveldb-library/util/cache.cc:293-300 | on a list that ascends by the time of the last use, which every operation of the cache keeps, eviction takes those unused for longest |
| `Caches.ReleaseKeepsOrder` | meshiiru/Pods/leveldb-library/util/cache.cc:225-237 | letting a handle go keeps the list ascending by that time |
| `Caches.PrunedIs` | meshiiru/Pods/leveldb-library/util/cache.cc:323-333 | after pruning the LRU list is empty and what was on it has been deleted, in order |
| `Caches.TakenIsSound` | meshiiru/Pods/leveldb-library/util/cache.cc:217-223 | taking a reference keeps the cache sound: every cached handle on exactly one list, counts as held, usage the charge of the cache, deleters run once and only at zero references |
| `Caches.ReleasedIsSound` | meshiiru/Pods/leveldb-library/util/cache.cc:225-237 | giving one back keeps it sound |
| `Caches.ErasedIsSound` | meshiiru/Pods/leveldb-library/util/cache.cc:307-316 | leaving the cache keeps it sound |
| `PbEncode.OStream.Write` | meshiiru/Pods/nanopb/pb_encode.c:103-124 | a sizing stream always counts; a writing stream appends exactly when the bytes fit |
| `PbEncode.OStream.WriteVarint` | meshiiru/Pods/nanopb/pb_encode.c:608-628 | the buffered groups are the base-128 form |
| `PbEncode.Encode` | meshiiru/Pods/nanopb/pb_encode.c:528-550 | writes the encoding of the message when it is encodable and fits, on a sizing and on a writing stream alike, and fails exactly otherwise |
| `PbEncode.EncodeField` | meshiiru/Pods/nanopb/pb_encode.c:341-426 | a field by its label: required, optional by flag or by default value, repeated, selected member of a oneof |
| `PbEncode.EncodeArray` | meshiiru/Pods/nanopb/pb_encode.c:147-236 | packed with the exact size in front, or each item with its tag; too many items is an error |
| `PbEncode.EncodePacked` | meshiiru/Pods/nanopb/pb_encode.c:164-205 | the size of a packed array, by arithmetic or by a sizing pass, is what its items then take |
| `PbEncode.EncodeSubmessage` | meshiiru/Pods/nanopb/pb_encode.c:717-765 | the size found by the sizing pass is exactly what the writing pass writes, at every depth, so the check that it has not changed never fails |
| `PbEncode.GetEncodedSize` | meshiiru/Pods/nanopb/pb_encode.c:567-576 | succeeds exactly for encodable messages, with the length of the encoding |
| `PbEncode.EncodeToBuffer` | meshiiru/Pods/nanopb/pb_encode.c:528-550 | succeeds exactly when the message is encodable and the buffer has at least the encoded size, and then holds the encoding |
| `PbWire.NumberOnWire` | meshiiru/Pods/nanopb/pb_encode.c:608-639 | an integer on the wire is a varint whose groups sum up to the number, for a negative one to the number plus 2^64 whatever its size, and for a zig-zag one to 2n or -2n - 1 |
| `PbWire.FixedOnWire` | meshiiru/Pods/nanopb/pb_encode.c:641-667 | a fixed number on the wire is four or eight bytes, byte i being bits 8i to 8i + 7 |
| `PbWire.BoolOnWire` | meshiiru/Pods/nanopb/pb_encode.c:769-774 | a boolean on the wire is the byte 1 or 0 |
| `PbWire.WiderIsSame` | meshiiru/Pods/nanopb/pb_encode.c:776-834 | a number that fits a smaller integer field is written with the same bytes by every wider field of its family, and a negative one takes ten |
| `PbWire.HeadOnWire` | meshiiru/Pods/nanopb/pb_encode.c:669-673 | the head of a field is a varint with the wire type in its low three bits and the tag above them |
| `PbWire.WireOfPiece` | meshiiru/Pods/nanopb/pb_encode.c:675-707 | wire type 0 for integers and booleans, 1 and 5 for fixed numbers of eight and four bytes, 2 for the rest and for packed arrays |
| `PbWire.TextOnWire` | meshiiru/Pods/nanopb/pb_encode.c:709-714 | bytes, strings and submessages are their length and then as many bytes |
| `PbWire.PieceIsSent` | meshiiru/Pods/nanopb/pb_encode.c:341-426 | every piece that a field says of itself is a body of its wire type, so a reader that does not know the field can skip it |
| `PbWire.ZeroIsLeftOut` | meshiiru/Pods/nanopb/pb_encode.c:240-337 | a single field that is set says nothing exactly when it is optional without a flag and zero or empty |
| `PbStreams.IStream.DecodeVarint` | meshiiru/Pods/nanopb/pb_decode.c:255-275 | reads back any 64-bit number and leaves the rest; on any input it succeeds exactly when there is a varint of at most ten bytes, and gives the sum of its groups modulo 2^64 |
| `PbStreams.IStream.DecodeVarint32` | meshiiru/Pods/nanopb/pb_decode.c:187-247 | reads back any 32-bit number and leaves the rest, past its overflow checks; what it accepts on any input is a varint, and its number modulo 2^32 |
| `PbStreams.IStream.DecodeTag` | meshiiru/Pods/nanopb/pb_decode.c:298-319 | reads back tag and wire type; what it accepts on any input is a head with that tag and that wire type in the low three bits |
| `PbStreams.IStream.MakeSubstream` | meshiiru/Pods/nanopb/pb_decode.c:372-385 | a length-prefixed body becomes a stream of its own, and the rest stays; likewise for what it accepts on any input |
| `PbStreams.IStream.SkipField` | meshiiru/Pods/nanopb/pb_decode.c:321-331 | skips exactly the body of a field of any wire type that a writer sends; on any input what it skips is such a body: a varint, eight bytes, a length and as many bytes, or four bytes |
| `PbDecode.FieldIter.Next` | meshiiru/Pods/nanopb/pb_common.c:20-76 | one field on, wrapping around at the end, with the number of required fields before it kept |
| `PbDecode.FieldIter.Find` | meshiiru/Pods/nanopb/pb_common.c:78-95 | from any position finds a tag exactly when the table has it, and stands at it |
| `PbDecode.CastKeeps` | meshiiru/Pods/nanopb/pb_decode.c:1329-1388 | a cast to a signed integer of a size keeps a number exactly when it is in range |
| `PbDecode.DecodeOne` | meshiiru/Pods/nanopb/pb_decode.c:1318-1548 | from what a field of the same family sends, of the same size or smaller, the value itself, a submessage read on top of the one that was there; on any input the value is what the bytes read say, and it fits its storage |
| `PbDecode.DecodeField` | meshiiru/Pods/nanopb/pb_decode.c:406-480 | one piece of a field, from its writer's table, decodes on top of its slot and no other changes, except that selecting a member of a oneof deselects the others |
| `PbDecode.DecodePacked` | meshiiru/Pods/nanopb/pb_decode.c:424-453 | a packed array is read behind the items that were there |
| `PbDecode.DecodeFields` | meshiiru/Pods/nanopb/pb_decode.c:925-1070 | what a writer with another table sent is merged into the struct, unknown fields skipped; on any input, acceptance means that the input falls into fields up to its end or a zero tag, that every required field among the first 64 occurs among them, and that fields that do not occur stay as they were |
| `PbDecode.Decode` | meshiiru/Pods/nanopb/pb_decode.c:1075-1087 | the same from default values, for every writer's table that the reader can take |
| `PbDecode.NextPiece` | meshiiru/Pods/nanopb/pb_decode.c:943-1021 | at every point of what a writer sent, the next bytes belong to the first field of its table that still has something to say, whether the reader knows it or not |
| `PbDecode.AllRequiredOccur` | meshiiru/Pods/nanopb/pb_decode.c:1030-1067 | the check of the bits set so far is the check that every required field among the first 64 occurs in the input |
| `PbReading.KnownIsRead` | meshiiru/Pods/nanopb/pb_decode.c:925-1070 | read into a fresh struct, a field of the reader holds what the field of its tag says in the writer's message, and its default when the writer has no such field |
| `PbReading.ReadOnTop` | meshiiru/Pods/nanopb/pb_decode.c:925-1070 | read into a struct in use, arrays grow, single fields are replaced, what is not sent stays, and a oneof keeps only the member that was sent |
| `PbReading.MergedIntoDefault` | meshiiru/Pods/nanopb/pb_decode.c:925-1087 | with one table on both sides and a fresh struct the result is the message itself, at every depth |
| `PbReading.PartTakes` | meshiiru/Pods/nanopb/pb_decode.c:981-985 | a reader whose fields are some of the writer's can take everything the writer sends |
| `PbReading.DefaultHasRoom` | meshiiru/Pods/nanopb/pb_decode.c:424-480 | a fresh struct has room for all of it |
| `PbRoundTrip.StoredMessageIff` | meshiiru/Pods/nanopb/pb_decode.c:1468-1501 | an encodable message fits the decoder's storage exactly when its strings have room for their terminator |
| `PbRoundTrip.RoundTrip` | meshiiru/Pods/nanopb/pb_decode.c:925-1087 | for every description with distinct tags and every encodable message, encoding and decoding gives the message back exactly when its strings have room for their terminator |
| `PbRoundTrip.Exchange` | meshiiru/Pods/nanopb/pb_decode.c:925-1087 | between a writer and a reader with different tables: decoding what was encoded succeeds, every field that both know has the writer's value, and the reader's other fields have their defaults |
| `PbStored.DefaultIsUnique` | meshiiru/Pods/nanopb/pb_encode.c:240-337 | a value that is left out because it is the default decodes to itself |

## Left out

Restrictions of what is stated:

- User keys in the store model are integers: the store only compares user keys, and any order on the finitely many keys of a run embeds in the integers. Tables, separators, filters, blocks, logs and batches work on byte strings.
- Values in the store model are strings that are only copied.
- `Safety.ReadsSurvive`: runs in which every installed compaction meets the two exact conditions of `Safety.InstallKeepsInvIff`; `Limits` shows that the code can fail each of them.
- `GroupCommit.CommitStepKeeps`: a step is what one thread does under the mutex, or what the group leader alone may do without it; memory order and the scheduler are not modelled.
- `LogReader.Reader.ReadRecord`: on logs cut by a crash only, from their start; see `LogReader.ReadAll`.
- `LogReader.ReadAll`: reading from the start of the log; a start offset inside it, resynchronising and the offset of the last record are not modelled. A crash cuts the log; damage in the middle is covered by `LogReader.Reader.ParseRecord` alone.
- `LogRecovery.ReplayLog`: the operations of one log file; `Reopening.FlushReplayed` makes tables of them. No log is reused for appending.
- `Reopening.Reopen`: `LogAndApply` is one step, so an edit carries the counters of the state in which it is applied, and the manifest is not cut before the last applied edit, since it is synced first. The log of a memtable that was being flushed is whole. All logs are replayed in one pass, whose operations are split into tables at any of them. The reopened store starts a new log and a new manifest (`reuse_logs` off); obsolete logs may still be there or not.
- `Lives.RebornIffRight`: sequence numbers used up before the crash but not in the log count as one failed group without effect.
- `CommitReads.AcknowledgedIsLogged`: an append to the log that fails leaves no bytes there. The code can fail in `Flush` after it has handed both parts of a record to the file (`log_writer.cc:98-106`), and goes on with the next group.
- `EncodedTables.GetFromTable`: sequence numbers within 56 bits, and user keys whose bytes are in the order of the model's integers; the table cache is left out.
- `TableReaders.FinishAndGet`: compressed blocks are not modelled; policies of one name are one policy, as the library asks of them. The file is one that a builder finished; of others only what `Footers.ReadFooter` and `TableReaders.ReadBlock` refuse is stated.
- `TableReaders.FinishAndGetBloom`: likewise.
- `TableReaders.Open`: likewise.
- `BlockIters.BlockIter.Seek`: blocks are those a builder finished; corrupted blocks are not iterated.
- `Blooms.MayMatchIff`: any hash function, and any number of probes from 1 to 30 in place of the one computed from the bits per key in floating point.
- `Crc32c.Extend`: the bytes before an aligned address are the ones the code also takes one at a time. The tables in `Castagnoli` are computed; of the literal ones only the eight entries of `Castagnoli.ByteEntries` are compared.
- `LogFormat.BytesSplit`: the checksum of log and table blocks is any function of the bytes.
- `SkipLists.SkipList.Insert`: the height is a parameter within the code's bounds, and there is one thread; readers without a lock are not modelled.
- `Caches.LRUCache.Insert`: the two circular lists are sequences, the bucket mask is a remainder (lengths are powers of two), and there is one shard.
- `CompactionInputs.PickCompaction`: sizes, scores, seek counts and the compaction pointer are inputs of the choice.
- `CompactionWork.DropAndSplit`: where output files are closed (size and overlap with grandparents) is arbitrary.
- `PbRoundTrip.RoundTrip`: static fields only; no callbacks, pointers, extensions or arrays of fixed count, and zero as the default of optional and required fields. Struct fields are slots, not byte offsets.
- `PbStreams.IStream.DecodeVarint32`: the wrap-around of the eight-bit position on varints of more than ten bytes is not modelled, nor is wrap-around of sizes.

Parts that are not modelled, because they choose when work happens, lie outside these files, or carry no property stated here:

- The application's own Swift code and the other pods.
- The environment: files, locks, fsync, threads, the CURRENT file, mmap, deletion of obsolete table files. Reads and writes of files succeed, apart from a failed append to the log, which leaves no bytes, and a failed sync of it, which leaves the record.
- Background errors other than that, write delays, statistics, logging, shutdown.
- The encoding of memtable entries in arena memory; a memtable is a sorted run, and the skip list is proved to be one.
- Overflow of sequence numbers past their 56 bits and of file numbers: no step goes beyond the maximum.
- The doubly linked list of snapshots; snapshots are a sequence of numbers, oldest first.
- The block cache and table cache in front of table reads; the cache itself is modelled.
- Approximate offsets and sizes, `repair.cc`, `dumpfile.cc`, `c.cc`, `DestroyDB`.
