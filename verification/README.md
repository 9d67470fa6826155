# A verified model of LevelDB and nanopb

Dafny models of the two engines vendored with the application: the LevelDB
storage engine (`PC Build/Pods/leveldb-library`) and the nanopb Protocol Buffers
codec (`PC Build/Pods/nanopb`). Each model takes the branches, constants and
error cases of the code it cites; the properties are proved for all inputs,
all runs or all reachable states. `dafny verify dfyconfig.toml` checks everything.

## What is modelled

**The store.** The reference is the plain set of all entries (user key, sequence
number, type, value): a read at a snapshot gives the newest entry up to it.
`InternalKeys`, `Reads` and `Tables` define it. `VersionSearch`,
`CompactionPicking`, `CompactionWork`, `VersionReads` and `VersionBuilder` hold
the algorithms of `version_set.cc` and the compaction loop of `db_impl.cc`, and
`CompactionChoice` shows that what they pick is determined.
`VersionSteps` proves what a flush, a trivial move and a compaction keep of a
version, `EditSteps` that their edits do just that. `Store` is a state machine
over the mutex boundaries (write, memtable switch, flush, trivial move,
compaction, snapshots, log deletion, crash and recovery) whose state holds the
records of the manifest, `StoreInvariant` its invariant, `StoreEffects` what each step
does to files, logs and snapshots, `StoreRuns` the theorems about all runs, `ReachedStates` a way to build one. `CrashedLogs` says what is lost
when a crash cuts the logs, `CrashGap` is a run that loses a middle stretch. In
`DbImpl` the class `DBImpl` updates its fields as the source does, and every method
is a step of that machine; `MemTables` and `Recovery` are its write and recovery
paths, `InternalIterator` its merging iterator.

**What is on disk.** `VersionEdits` encodes and decodes manifest records,
`WriteBatches` the records of the log; `CutRecords` says which of those that lost
their end or make no sense are refused, `Formats` writes out bytes of every format. `ManifestRecovery` recovers a version and
its numbers from the bytes of a manifest, and proves that every manifest a run of
the store writes gives back that store's. `ManifestSpelling` shows that it can be
written: a run has finitely many user keys, each with a place that names it.

**Iterators and ordered structures.** `DbIter` refines the bidirectional
database iterator to a cursor on the list of live pairs. `SkipLists` inserts
nodes store by store; since a node counts as part of a level only once it is
linked there, the list is a valid one after every store, and every search is
proved on any valid list. `SnapshotLists` is the circular list of snapshots.
`BlockFormat`, `BlockBuilders`, `BlockReader` and `BlockIterator` are
prefix-compressed blocks, from bytes to cursor; `FilterBlock` is the filter index.

**The write-ahead log.** `LogFormat` says what a file of records is, `LogWriter`
writes it, `LogReader` says what the reader makes of any bytes, and
`LogRoundTrip` relates the two: whole files, files cut at any byte, and files
changed in any way that the checksums notice. `LogReports` proves that damage is
reported and that no byte of a fragment gets lost without a report.

**Concurrency.** `GroupCommit` is the writer queue, `BackgroundWork` the
scheduling of the background thread, `FileLifetime` reference counts and the
deletion of tables: state machines whose steps are taken with the mutex held.

**nanopb.** `PbFormat` is the encoding of messages described by field tables,
`PbEncode` the two-pass encoder on streams, `PbDecode` what the decoder makes of
any bytes, `PbReader` its loops on streams, and `PbRoundTrip` the round trip.
`PbUnknown` is about unknown and missing fields, `PbMerge` about fields that come more
than once, `PbLimits` about what is too large.
The encoding is that of the Protocol Buffers Encoding specification, sections
"Base 128 Varints", "Signed Integers" and "Packed Repeated Fields".

## Main results

- In every run, a read at a live snapshot returns exactly the newest write up to
  it (`StoreRuns.EveryReadIsExact`), and so do the methods `DBImpl.Get` and
  `DBImpl.NewIterator`; recovery after a crash that cuts the logs anywhere loses
  exactly the records cut off the live ones (`StoreInvariant.RecoveryLosesTheCut`).
- A write is read back: the last operation on a key decides, after `DBImpl.Write`
  (`MemTables.BatchIsPerformed`) and after recovery of a log that was cut anywhere
  (`WriteBatches.RecoveredLogReads`).
- In every run, the manifest replays to the current version, its compaction
  pointers and the numbers recorded last, edit by edit (`StoreRuns.ManifestReplays`)
  and from its bytes, also behind an unfinished record
  (`ManifestRecovery.ManifestRecovers`); and there are such bytes for every state of
  every run (`ManifestSpelling.WrittenManifestRecovers`). An edit is read back from its encoding if
  and only if it fits the format (`VersionEdits.EditRoundTrips`).
- `StoreRuns` takes only compactions that uncover nothing. The code also
  makes others, and then the property is false: see below.
- The database iterator, the skip list, block and snapshot iterators move a
  cursor on a plain sequence, in both directions. A search of the skip list during
  any stores ends as a search of the list at one moment would.
- A log cut anywhere yields the records that fit whole; a damaged log yields
  exactly the records untouched from the start of their block on, and reports the
  damage (`LogReports.DamageIsReported`), so that a damaged manifest is refused.
- Only the front writer is ever past its wait; writers leave the queue in order,
  with consecutive sequence numbers, and return once, with the status of their
  group; no work is stranded; no table in use is deleted, and after a collection
  every table is in use (`FileLifetime.CollectedIsClean`).
- The two passes of the nanopb encoder always agree; decoding undoes encoding, and
  unknown fields change nothing (`PbUnknown.UnknownFieldIsIgnored`).

## Where the code does less than it says

- **Dropped tombstones.** The compaction loop's comment says that a dropped
  tombstone hides nothing (db_impl.cc:952-958). `SetupOtherInputs` adds boundary
  files to the inputs of the level only (version_set.cc:1407), so a file left in
  the next level may hold an older value of a user key whose tombstone, in the
  file before it, is dropped. `VersionSteps.CompactionPreservesReads` gives the
  exact condition (`Uncovers`), `NoSharedBoundaryIsSafe` a check on the files
  alone, and `TombstoneBoundary` a run from a new store to a compaction, picked by
  the code, after which a deleted key reads as its old value.
- **Recent writes.** A crash may lose some recent writes that were not synced, say the
  write options (options.h:173-176). `MakeRoomForWrite` closes a log without syncing
  it, so a crash may cut that log and not the newer one, and recovery reads on: a
  middle stretch is lost (`CrashGap.MiddleStretchIsLost`). What is lost is newer than
  what is left if and only if no log that lost entries has a later live one with
  entries left (`CrashedLogs.LostIsNewestIff`).
- **Full strings.** The nanopb encoder accepts a character array with no
  terminating zero; the decoder wants room for one. The round trip holds if and
  only if every encoded string leaves that room.
- **Empty messages.** Decoding a message type without fields, nanopb takes a field
  with number zero for the terminator of its table and reads it as a bool, whatever
  its wire type (pb_common.c:78-88); the model does the same. Varints of more than
  37 bytes put bits where there are some already (pb_decode.c:213-235).
- **Record types 5 and 6.** The log reader returns the stored type, and 5 and 6 are
  also its codes for the end of the file and for a bad record (log_reader.h:66-72):
  a record of type 5 with a valid checksum ends the reading.
- **Backward travel.** A comment in db_iter.cc says that an iterator moving
  backwards stands just before all entries of its key; it stands on the nearest
  smaller entry that is not too new. The model follows the code.
- **Empty filters.** A comment in filter_block.cc says that empty filters match no key;
  the branch that says so cannot be reached with a filter the builder made, and the
  policy is asked about the empty filter.

## Model

| member | source | states |
|---|---|---|
| InternalKeys.LessIsTotalOrder | PC Build/Pods/leveldb-library/db/dbformat.cc:51-69 | internal keys are totally ordered: user key up, then sequence number and type down |
| Reads.NewerPartFirst | PC Build/Pods/leveldb-library/db/db_impl.cc:1127-1134 | looking in the part that is newer, key by key, first finds what looking in everything finds |
| Reads.SeekFindsNewest | PC Build/Pods/leveldb-library/db/memtable.cc:100-135 | the entry at the seek position of a lookup key is the newest visible one, or there is none |
| Reads.CompactionKeepsReads | PC Build/Pods/leveldb-library/db/db_impl.cc:946-963 | keeping what rules (A) and the tombstone rule keep changes no read from the smallest snapshot on, if and only if no dropped tombstone of the key hides an older value outside the inputs |
| Reads.KeptIsLean | PC Build/Pods/leveldb-library/db/db_impl.cc:938-963 | of a user key at most one entry that the smallest snapshot sees is kept, and no tombstone that it sees of a key in no deeper level |
| Reads.RecentStays | PC Build/Pods/leveldb-library/db/db_impl.cc:938-963 | what the smallest snapshot does not see is kept |
| VersionSearch.FindFile | PC Build/Pods/leveldb-library/db/version_set.cc:88-106 | binary search: the first file whose largest key is not below the key |
| VersionSearch.SomeFileOverlapsRange | PC Build/Pods/leveldb-library/db/version_set.cc:122-158 | the binary search on sorted disjoint files and the scan of others both decide whether some file overlaps the range |
| VersionSearch.OverlapInLevel | PC Build/Pods/leveldb-library/db/version_set.cc:485-489 | overlap in a level, for open ends too |
| VersionSearch.PickLevelForMemTableOutput | PC Build/Pods/leveldb-library/db/version_set.cc:491-516 | the level is free of overlap down to it, its grandparents are small enough, and it is the deepest such level up to 2 |
| VersionSearch.OutputLevelIsUnique | PC Build/Pods/leveldb-library/db/version_set.cc:491-516 | there is one such level |
| VersionSearch.GetOverlappingInputs | PC Build/Pods/leveldb-library/db/version_set.cc:519-559 | terminates despite its restarts; on level 0 the files of the least range closed under overlap, elsewhere those that overlap the range |
| VersionSearch.GrownRangeStaysWithin | PC Build/Pods/leveldb-library/db/version_set.cc:541-556 | a restart widens the range no further than any closed range that contains it |
| CompactionPicking.GetRange | PC Build/Pods/leveldb-library/db/version_set.cc:1205-1224 | the least and greatest key of the inputs |
| CompactionPicking.FindSmallestBoundaryFile | PC Build/Pods/leveldb-library/db/version_set.cc:1344-1361 | the file with the least smallest key among those that go on with the user key of the largest key |
| CompactionPicking.AddBoundaryInputs | PC Build/Pods/leveldb-library/db/version_set.cc:1378-1401 | terminates; adds the chain of boundary files, until no file goes on with the last user key |
| CompactionPicking.BoundaryClosesInputs | PC Build/Pods/leveldb-library/db/version_set.cc:1363-1377 | after it, no file left in the level holds an older entry for a user key of the inputs |
| CompactionPicking.SetupOtherInputs | PC Build/Pods/leveldb-library/db/version_set.cc:1403-1462 | the chosen files and the chain of their boundary files, exactly what they overlap in the next level, grown whenever that is allowed; the grandparents are what all the inputs overlap; the compaction pointer is the largest key taken |
| CompactionPicking.GrowInputs | PC Build/Pods/leveldb-library/db/version_set.cc:1417-1447 | the completed files that overlap both inputs are taken if they are more, bring in no further file and stay within the limit; otherwise nothing changes |
| CompactionChoice.GrowthIsTaken | PC Build/Pods/leveldb-library/db/version_set.cc:1417-1447 | growing is no choice: there is one wider set of inputs, it is taken exactly under the three conditions, and otherwise nothing changes |
| CompactionChoice.CompletedIsUnique | PC Build/Pods/leveldb-library/db/version_set.cc:1403-1416 | files that are chosen are completed in one way: inputs of both levels and compaction pointer are determined |
| CompactionPicking.PickFile | PC Build/Pods/leveldb-library/db/version_set.cc:1277-1301 | the first file that ends after the compaction pointer, or the first of all if none does, or the file sought too often |
| CompactionPicking.PickCompaction | PC Build/Pods/leveldb-library/db/version_set.cc:1270-1324 | the compaction set up from the picked file, on level 0 from all it overlaps there; it is a good one |
| CompactionPicking.LimitInputs | PC Build/Pods/leveldb-library/db/version_set.cc:1472-1487 | a manual compaction is cut after the file that reaches the limit, and not before |
| CompactionPicking.CompactRange | PC Build/Pods/leveldb-library/db/version_set.cc:1464-1495 | none if and only if nothing overlaps the range; otherwise the compaction set up from what overlaps it, below level 0 cut at the limit; it is a good one |
| VersionReads.Lookup | PC Build/Pods/leveldb-library/db/memtable.cc:100-135 | a lookup in a sorted run finds the newest visible entry |
| VersionReads.SortNewestFirst | PC Build/Pods/leveldb-library/db/version_set.cc:345-361 | the candidate files of level 0, each once, newest number first |
| VersionReads.ReadLevel0 | PC Build/Pods/leveldb-library/db/version_set.cc:341-377 | reading level 0 newest file first finds the newest visible entry of the level |
| VersionReads.ReadSortedLevel | PC Build/Pods/leveldb-library/db/version_set.cc:362-377 | one file of a sorted level decides |
| VersionReads.Get | PC Build/Pods/leveldb-library/db/version_set.cc:326-421 | level by level, the newest visible entry of the whole version |
| CompactionWork.FindSmallest | PC Build/Pods/leveldb-library/table/merger.cc:148-161 | the child iterator with the smallest key |
| CompactionWork.Merge | PC Build/Pods/leveldb-library/table/merger.cc:39-79 | the merged run is sorted and holds what the runs hold |
| CompactionWork.BaseLevelCursor.IsBaseLevelForKey | PC Build/Pods/leveldb-library/db/version_set.cc:1533-1552 | with pointers that only advance: the exhaustive scan of the levels from two below on, for ascending keys |
| CompactionWork.BaseKeyIsAbsentBelow | PC Build/Pods/leveldb-library/db/version_set.cc:1533-1552 | a base-level key occurs in no level below the output level |
| CompactionWork.ShadowedByPrevious | PC Build/Pods/leveldb-library/db/db_impl.cc:937-948 | last_sequence_for_key tells whether a newer entry of the key is visible at the smallest snapshot |
| CompactionWork.DoCompactionWork | PC Build/Pods/leveldb-library/db/db_impl.cc:878-1036 | the outputs are sorted, disjoint tables that hold exactly the entries the drop rules keep, wherever tables are split |
| VersionBuilder.SortedIsUnique | PC Build/Pods/leveldb-library/db/version_set.cc:593-605 | a set of files has one order by smallest key and number |
| VersionBuilder.Insert | PC Build/Pods/leveldb-library/db/version_set.cc:683-687 | added files are kept in that order |
| VersionBuilder.Builder.Apply | PC Build/Pods/leveldb-library/db/version_set.cc:650-690 | an edit moves compaction pointers, and deletes and adds files by level; adding undoes deleting |
| VersionBuilder.MaybeAddFile | PC Build/Pods/leveldb-library/db/version_set.cc:741-754 | a file is added unless it is deleted, and overlap is noticed exactly when it is there |
| VersionBuilder.MergeLevel | PC Build/Pods/leveldb-library/db/version_set.cc:697-716 | base and added files are merged in order, without the deleted ones |
| VersionBuilder.Builder.SaveTo | PC Build/Pods/leveldb-library/db/version_set.cc:695-739 | every level holds base minus deleted plus added, in order; the check for overlap fires exactly when levels above 0 overlap |
| VersionBuilder.NeighboursDecide | PC Build/Pods/leveldb-library/db/version_set.cc:724-736 | comparing neighbours decides whether any two files of a level overlap |
| VersionBuilder.ReplayIsStepwise | PC Build/Pods/leveldb-library/db/version_set.cc:924-970 | folding all edits into one builder gives what applying them one version at a time gives, if no file number is reused for another file |
| VersionBuilder.ReplayIsUnique | PC Build/Pods/leveldb-library/db/version_set.cc:990-995 | a list of edits replays to one version |
| VersionBuilder.ReplayExtends | PC Build/Pods/leveldb-library/db/version_set.cc:816-822 | applying an edit to the replayed version is replaying one edit more |
| VersionBuilder.ReplayManifest | PC Build/Pods/leveldb-library/db/version_set.cc:924-970 | one builder over any edits that reuse no number: the version, the compaction pointers and the numbers they replay to; the overlap check fires exactly when levels overlap |
| VersionBuilder.SnapshotReplays | PC Build/Pods/leveldb-library/db/version_set.cc:1088-1116 | a manifest that begins with a snapshot of a version replays to that version and its compaction pointers |
| VersionBuilder.WriteSnapshot | PC Build/Pods/leveldb-library/db/version_set.cc:1088-1116 | builds that snapshot edit: comparator, pointers and files of every level |
| VersionEdits.EditRoundTrips | PC Build/Pods/leveldb-library/db/version_edit.cc:41-205 | decoding an encoded edit gives it back, if and only if its levels exist, its numbers have 64 bits, and its names and keys are shorter than 2^32 |
| VersionEdits.DecodedFits | PC Build/Pods/leveldb-library/db/version_edit.cc:87-205 | whatever bytes are decoded, the edit has these limits |
| VersionEdits.UnknownTagFails | PC Build/Pods/leveldb-library/db/version_edit.cc:190-205 | after any edit, a tag that is not known makes decoding fail, whatever follows |
| Formats.ItemBytes | PC Build/Pods/leveldb-library/db/version_edit.cc:14-85 | the tag of each kind of item and the bytes behind it, written out |
| Formats.TagsKnown | PC Build/Pods/leveldb-library/db/version_edit.cc:14-24 | the tags that are known: 1 to 7 and 9 |
| CutRecords.UnreadableItemFails | PC Build/Pods/leveldb-library/db/version_edit.cc:107-198 | after whole items, one that cannot be read is a corruption that names it |
| CutRecords.CutEditIsRefused | PC Build/Pods/leveldb-library/db/version_edit.cc:107-198 | a record that ends inside an item, wherever that is, is a corruption |
| VersionEdits.OrderedMembers | PC Build/Pods/leveldb-library/db/version_edit.cc:69-74 | the deleted files are written in the order of std::set, each once |
| VersionEdits.EncodeTo | PC Build/Pods/leveldb-library/db/version_edit.cc:41-85 | the loops write that encoding |
| VersionEdits.DecodeFrom | PC Build/Pods/leveldb-library/db/version_edit.cc:107-205 | the loop computes what any bytes decode to |
| VersionEdits.NumbersAreLastSet | PC Build/Pods/leveldb-library/db/version_set.cc:949-967 | each number replayed is the one in the last edit that sets it |
| ManifestRecovery.KeyRoundTrips | PC Build/Pods/leveldb-library/db/dbformat.cc:20-23 | an internal key's bytes parse to its user key, sequence number and type |
| Formats.KeyLayout | PC Build/Pods/leveldb-library/db/dbformat.cc:14-23 | the sequence number and the type are in the last eight bytes, written out |
| ManifestRecovery.ParsesIff | PC Build/Pods/leveldb-library/db/dbformat.h:165-175 | a key parses if and only if it has room for a tag with a type that exists |
| ManifestRecovery.SpelledMeans | PC Build/Pods/leveldb-library/db/version_edit.cc:41-85 | an edit whose own keys and files are spelled as bytes stands for that edit |
| ManifestRecovery.CutManifestReads | PC Build/Pods/leveldb-library/db/version_set.cc:924-934 | a manifest cut off inside its last record reads as the records before it |
| ManifestRecovery.ReadRecords | PC Build/Pods/leveldb-library/db/version_set.cc:926-943 | on any bytes: every record of the file decoded, or failure if one was dropped, is refused or names another comparator |
| ManifestRecovery.ReadableIff | PC Build/Pods/leveldb-library/db/version_set.cc:930-943 | all records are read if and only if each decodes and names no other comparator, and then as what was decoded |
| ManifestRecovery.MeaningIsValid | PC Build/Pods/leveldb-library/db/version_edit.cc:97-105 | an edit that was decoded names no level that does not exist |
| ManifestRecovery.Recover | PC Build/Pods/leveldb-library/db/version_set.cc:916-1011 | the version, pointers and last set numbers that the records replay to, and failure exactly if a record is refused or dropped or a number is missing |
| ManifestRecovery.RefusedRecordFails | PC Build/Pods/leveldb-library/db/version_set.cc:930-943 | a record that does not decode or names another comparator makes recovery fail |
| ManifestRecovery.MissingNumberFails | PC Build/Pods/leveldb-library/db/version_set.cc:973-980 | so do records none of which has the next file, or the log, or the last sequence number |
| ManifestRecovery.RecoveredNumbersAreLast | PC Build/Pods/leveldb-library/db/version_set.cc:949-985 | the numbers recovered are those set last, the old log's number 0 if none is |
| ManifestRecovery.DamagedManifestFails | PC Build/Pods/leveldb-library/db/version_set.cc:916-943 | so does a header with a wrong checksum or length that the reader comes upon |
| ManifestRecovery.ManifestRecovers | PC Build/Pods/leveldb-library/db/version_set.cc:886-1011 | in every state of every run, the manifest's bytes, in any spelling of the keys and also with an unfinished record behind them, recover the current version, its compaction pointers and the log, next-file and last-sequence numbers recorded last, and nothing else |
| ManifestSpelling.RunKnowsPointers | PC Build/Pods/leveldb-library/db/version_set.cc:1456-1461 | in every run, each compaction pointer in the manifest is the largest key of a file added before it |
| ManifestSpelling.ManifestIsSpelled | PC Build/Pods/leveldb-library/db/version_set.cc:886-914 | in every state of every run there are records of bytes that stand for the manifest's edits and fit the format, if the numbers fit 64 bits and the name 32 |
| ManifestSpelling.WrittenManifestRecovers | PC Build/Pods/leveldb-library/db/version_set.cc:801-1011 | so every manifest can be written, and its bytes, cut anywhere inside the next record, recover the state |
| VersionSteps.InstalledIsGood | PC Build/Pods/leveldb-library/db/version_set.cc:718-735 | after a compaction or trivial move, levels above 0 are sorted and disjoint, keys do not cross levels, numbers are distinct |
| VersionSteps.AddedIsGood | PC Build/Pods/leveldb-library/db/db_impl.cc:517-526 | the same after a flush to any level that may be picked |
| EditSteps.AddEditAdds | PC Build/Pods/leveldb-library/db/db_impl.cc:517-526 | applying the edit of a flush or a recovery adds exactly its tables, in order |
| EditSteps.CompactionEditInstalls | PC Build/Pods/leveldb-library/db/db_impl.cc:868-874 | applying the edit of a compaction or a move takes out its inputs, by number, puts in the outputs, and touches nothing else |
| EditSteps.ApplyEdit | PC Build/Pods/leveldb-library/db/version_set.cc:816-822 | the new version is the edit applied to the old one; the overlap check fires exactly when levels overlap |
| VersionSteps.InstalledKeepsOrder | PC Build/Pods/leveldb-library/db/db_impl.cc:953-957 | after a compaction, shallower entries of a user key are still newer than deeper ones |
| VersionSteps.CompactionPreservesReads | PC Build/Pods/leveldb-library/db/db_impl.cc:906-999 | installing a compaction changes no read of a key from the smallest snapshot on, if and only if it uncovers nothing |
| VersionSteps.NoSharedBoundaryIsSafe | PC Build/Pods/leveldb-library/db/version_set.cc:1407-1411 | if no file left in the next level shares a user key with its inputs then nothing is uncovered |
| TombstoneBoundary.InputsAreTheCodesChoice | PC Build/Pods/leveldb-library/db/version_set.cc:1403-1447 | the inputs of the last compaction of the example are those the code picks |
| TombstoneBoundary.SplittingIsTheCodesChoice | PC Build/Pods/leveldb-library/db/version_set.cc:1403-1411 | so are those of the compaction that splits the key between two files |
| TombstoneBoundary.FlushesStopAtLevel1 | PC Build/Pods/leveldb-library/db/version_set.cc:496-501 | the flushes of the example to level 1 can go no deeper |
| TombstoneBoundary.DeletedKeyComesBack | PC Build/Pods/leveldb-library/db/db_impl.cc:949-960 | a run of the store, from its creation, and a compaction the code picks, after which a read at the latest sequence number gives the old value of a deleted key |
| Store.ReadsAreExactAt | PC Build/Pods/leveldb-library/db/db_impl.cc:1124-1136 | memtable, then immutable memtable, then tables: what all writes give |
| StoreInvariant.WriteKeepsInv | PC Build/Pods/leveldb-library/db/db_impl.cc:1204-1237 | a write keeps the store's invariant |
| StoreInvariant.SwitchKeepsInv | PC Build/Pods/leveldb-library/db/db_impl.cc:1345-1366 | so does a memtable switch |
| StoreInvariant.FlushKeepsInv | PC Build/Pods/leveldb-library/db/db_impl.cc:535-566 | so does a flush, which records the current log with the new table |
| StoreInvariant.TrivialMoveKeepsInv | PC Build/Pods/leveldb-library/db/db_impl.cc:718-728 | so does a trivial move |
| StoreInvariant.CompactKeepsInv | PC Build/Pods/leveldb-library/db/db_impl.cc:860-876 | so does a compaction that uncovers nothing |
| StoreInvariant.SnapshotsKeepInv | PC Build/Pods/leveldb-library/db/db_impl.cc:1166-1174 | so do taking and releasing snapshots |
| StoreInvariant.DeleteKeepsInv | PC Build/Pods/leveldb-library/db/db_impl.cc:244-247 | so does deleting logs below the log number |
| StoreInvariant.RecoverKeepsInv | PC Build/Pods/leveldb-library/db/db_impl.cc:306-369 | so does a crash at any step that cuts any number of records off every log, and a recovery from what the manifest and the logs hold |
| StoreInvariant.ManifestGrows | PC Build/Pods/leveldb-library/db/version_set.cc:801-872 | a record appended by LogAndApply keeps the manifest replaying to the current version, with no number reused |
| StoreInvariant.RecoverStarts | PC Build/Pods/leveldb-library/db/db_impl.cc:280-306 | the version and the numbers that recovery starts from, replayed, are those the crashed store had recorded |
| StoreEffects.SwitchStartsAfresh | PC Build/Pods/leveldb-library/db/db_impl.cc:1345-1366 | a memtable switch starts an empty memtable and a new log, and keeps all else |
| StoreEffects.FlushSaves | PC Build/Pods/leveldb-library/db/db_impl.cc:535-566 | after a flush the entries of the immutable memtable are in one new table of the level, everything else is where it was, and no log but the current one is needed |
| StoreEffects.MoveMoves | PC Build/Pods/leveldb-library/db/db_impl.cc:718-728 | a trivial move takes one file out of its level and puts it into the next, and nothing else |
| StoreEffects.CompactReplaces | PC Build/Pods/leveldb-library/db/db_impl.cc:860-876 | a compaction replaces its inputs by its outputs, and nothing else |
| StoreEffects.OutputsHold | PC Build/Pods/leveldb-library/db/db_impl.cc:938-963 | an entry of the inputs is in the outputs unless a newer one of its key is seen by every snapshot, or it is a tombstone that all see, of a key that no file of a deeper level covers |
| StoreEffects.DeleteLeavesLive | PC Build/Pods/leveldb-library/db/db_impl.cc:244-247 | exactly the logs from the log number on are left, in order |
| StoreEffects.SnapshotsComeAndGo | PC Build/Pods/leveldb-library/db/db_impl.cc:1166-1174 | a snapshot is of the last sequence number, and releasing it takes away that one alone |
| CrashedLogs.CutSplits | PC Build/Pods/leveldb-library/db/db_impl.cc:333-360 | what a crash leaves of the live logs and what it cuts off are apart, are all there was, and what is left ascends |
| CrashedLogs.LostIsNewestIff | PC Build/Pods/leveldb-library/include/leveldb/options.h:173-176 | what is lost is newer than what is left if and only if no log that lost entries has a later live one with entries left |
| StoreInvariant.RecoveryLosesTheCut | PC Build/Pods/leveldb-library/db/db_impl.cc:333-360 | recovery gives back every write but exactly those in the records cut off the live logs; these are the newest writes if and only if no log that lost some has a later one with some left |
| CrashGap.MiddleStretchIsLost | PC Build/Pods/leveldb-library/db/db_impl.cc:1345-1366 | a run in which a crash cuts the log of the immutable memtable and not the current one: the earlier write is lost, and the later one found |
| StoreRuns.RunHoldsInv | PC Build/Pods/leveldb-library/db/db_impl.cc:1185-1256 | the invariant holds in every run |
| StoreRuns.EveryReadIsExact | PC Build/Pods/leveldb-library/db/db_impl.cc:1100-1145 | in every run, a read at a live snapshot gives the newest write up to it |
| StoreRuns.ManifestReplays | PC Build/Pods/leveldb-library/db/version_set.cc:801-884 | in every state of every run the manifest's edits reuse no file number and replay to the current version, to no other, and to the numbers recorded last |
| StoreRuns.NewDatabaseReplays | PC Build/Pods/leveldb-library/db/db_impl.cc:182-187 | the record that creates a database replays to the empty version and the numbers the first opening goes on from |
| StoreRuns.RecoveryStartsFromLast | PC Build/Pods/leveldb-library/db/version_set.cc:886-1011 | so every recovery in a run starts from the version and numbers the store had |
| StoreRuns.SnapshotIsStable | PC Build/Pods/leveldb-library/db/db_impl.cc:1166-1169 | no step but a crash changes what a live snapshot reads |
| StoreRuns.HorizonRespectsReaders | PC Build/Pods/leveldb-library/db/db_impl.cc:890-894 | no compaction drops what a live snapshot may read |
| MemTables.Add | PC Build/Pods/leveldb-library/db/memtable.cc:75-98 | the entry takes its place in order |
| MemTables.InsertInto | PC Build/Pods/leveldb-library/db/write_batch.cc:116-139 | the operations of a batch get consecutive sequence numbers and all reach the memtable |
| MemTables.OperationsAreRead | PC Build/Pods/leveldb-library/db/write_batch.cc:116-130 | at every snapshot a key has the value that the last operation on it up to there put, none if that deleted it, and what it had before if there is none |
| MemTables.BatchIsPerformed | PC Build/Pods/leveldb-library/db/write_batch.cc:116-130 | the same when everything is read |
| WriteBatches.BatchRoundTrips | PC Build/Pods/leveldb-library/db/write_batch.cc:42-109 | iterating over a batch calls the handler with its operations in order and ends well, if and only if their lengths have 32 bits and their number fits a signed count |
| WriteBatches.HeaderIs | PC Build/Pods/leveldb-library/db/write_batch.cc:82-96 | the header holds the sequence number and the count |
| Formats.BatchLayout | PC Build/Pods/leveldb-library/db/write_batch.cc:5-14 | the header and the value type before each operation, written out |
| WriteBatches.WriteBatch.Put | PC Build/Pods/leveldb-library/db/write_batch.cc:98-103 | appends one operation, and counts it |
| WriteBatches.WriteBatch.Delete | PC Build/Pods/leveldb-library/db/write_batch.cc:105-109 | appends one deletion, and counts it |
| WriteBatches.WriteBatch.Append | PC Build/Pods/leveldb-library/db/write_batch.cc:144-148 | the operations of both batches, in order, under the first one's sequence number |
| WriteBatches.WriteBatch.SetSequence | PC Build/Pods/leveldb-library/db/write_batch.cc:94-96 | changes the sequence number and nothing else |
| WriteBatches.WriteBatch.IterateOver | PC Build/Pods/leveldb-library/db/write_batch.cc:42-80 | on any bytes: the handler's calls and the status |
| WriteBatches.LoggedBatchesAreRead | PC Build/Pods/leveldb-library/db/db_impl.cc:420-446 | a log of batches, cut off at any byte: recovery inserts the entries of the batches that fit whole, each under its own sequence number, with no report |
| WriteBatches.RecordIsPerformed | PC Build/Pods/leveldb-library/db/db_impl.cc:420-430 | inserting a record of any bytes: the last operation in it on a key decides what is read, and other keys read as before |
| WriteBatches.RecoveredLogReads | PC Build/Pods/leveldb-library/db/db_impl.cc:405-440 | a log of batches, cut off at any byte: after its recovery every key reads as the last operation on it in the batches that fit whole left it, and no other key is there |
| CutRecords.CutBatchIsRefused | PC Build/Pods/leveldb-library/db/write_batch.cc:42-80 | no batch that lost any bytes at its end is taken for one |
| CutRecords.CutOperationFails | PC Build/Pods/leveldb-library/db/write_batch.cc:55-70 | an operation that is cut off ends the iteration with a corruption that names it, after the operations before |
| CutRecords.UnknownOperationFails | PC Build/Pods/leveldb-library/db/write_batch.cc:71-73 | so does a tag that is neither a value nor a deletion |
| CutRecords.WrongCountFails | PC Build/Pods/leveldb-library/db/write_batch.cc:74-80 | so does a wrong count |
| Recovery.InsertRecord | PC Build/Pods/leveldb-library/db/db_impl.cc:426-445 | a record goes to the memtable and raises the last sequence number |
| Recovery.RecoverLogFile | PC Build/Pods/leveldb-library/db/db_impl.cc:371-489 | a log becomes tables, oldest first, wherever the memtable is full |
| Recovery.RecoverLogs | PC Build/Pods/leveldb-library/db/db_impl.cc:333-366 | the logs from the log number on, in order, become tables that hold all their records |
| DbImpl.DBImpl.constructor | PC Build/Pods/leveldb-library/db/db_impl.cc:1474-1515 | a new store is in the initial state |
| DbImpl.DBImpl.LogAndApply | PC Build/Pods/leveldb-library/db/version_set.cc:801-872 | the edit, stamped with log, next-file and last-sequence numbers, becomes the manifest's last record, and its version and pointers current |
| DbImpl.DBImpl.Get | PC Build/Pods/leveldb-library/db/db_impl.cc:1100-1145 | returns what the set of all writes gives at the snapshot |
| DbImpl.DBImpl.NewIterator | PC Build/Pods/leveldb-library/db/db_impl.cc:1147-1157 | an iterator whose keys are exactly those that reads at its sequence number find, each with the value read |
| DbImpl.DBImpl.Write | PC Build/Pods/leveldb-library/db/db_impl.cc:1204-1237 | is the write step; after it a key reads as the last operation on it says, and other keys as before |
| DbImpl.DBImpl.SwitchMemTable | PC Build/Pods/leveldb-library/db/db_impl.cc:1345-1366 | is the switch step |
| DbImpl.DBImpl.WriteLevel0Table | PC Build/Pods/leveldb-library/db/db_impl.cc:491-526 | the table and the deepest level it may go to; none for an empty memtable |
| DbImpl.DBImpl.CompactMemTable | PC Build/Pods/leveldb-library/db/db_impl.cc:535-566 | is a flush step to that level; no check for overlap fires |
| DbImpl.DBImpl.MoveFile | PC Build/Pods/leveldb-library/db/db_impl.cc:718-733 | is a trivial move step; no check for overlap fires |
| DbImpl.DBImpl.RunCompaction | PC Build/Pods/leveldb-library/db/db_impl.cc:860-1036 | is a compaction step; no check for overlap fires |
| DbImpl.DBImpl.BackgroundCompaction | PC Build/Pods/leveldb-library/db/db_impl.cc:688-767 | is a flush step if there is an immutable memtable; otherwise it takes the compaction that PickCompaction picks, and is a move step if it is of one file into nothing with few enough grandparents, a compaction step if not |
| DbImpl.DBImpl.ManualCompaction | PC Build/Pods/leveldb-library/db/db_impl.cc:699-709 | done if and only if nothing overlaps the range; otherwise the compaction step of what CompactRange picks |
| DbImpl.DBImpl.GetSnapshot | PC Build/Pods/leveldb-library/db/db_impl.cc:1166-1169 | is the step that takes a snapshot of the last sequence number |
| DbImpl.DBImpl.ReleaseSnapshot | PC Build/Pods/leveldb-library/db/db_impl.cc:1171-1174 | is the step that releases one |
| DbImpl.DBImpl.DeleteObsoleteLogs | PC Build/Pods/leveldb-library/db/db_impl.cc:244-247 | deletes exactly the logs below the log number |
| DbImpl.DBImpl.RecoverManifest | PC Build/Pods/leveldb-library/db/version_set.cc:916-1000 | replaying the manifest gives the current version, the compaction pointers and the recorded numbers |
| DbImpl.DBImpl.CrashAndRecover | PC Build/Pods/leveldb-library/db/db_impl.cc:280-369 | is the crash-and-recovery step, for any cut of every log, and keeps the compaction pointers |
| DbImpl.CompactTables | PC Build/Pods/leveldb-library/db/db_impl.cc:878-1007 | merging and filtering the inputs gives the compaction's outputs under fresh numbers |
| InternalIterator.PresentReadsAreExact | PC Build/Pods/leveldb-library/db/db_impl.cc:1068-1079 | reading all of the memtables and tables at once gives what all writes give |
| InternalIterator.TableIsApart | PC Build/Pods/leveldb-library/db/version_set.cc:230-247 | no internal key occurs in two children of the merging iterator |
| InternalIterator.Merged | PC Build/Pods/leveldb-library/db/db_impl.cc:1062-1087 | the internal iterator is sorted and holds all memtable and table entries |
| DbIter.LiveIsWhatReadsFind | PC Build/Pods/leveldb-library/db/db_iter.cc:30-38 | the live list holds exactly the keys and values that point reads find |
| DbIter.LiveKeysAscend | PC Build/Pods/leveldb-library/db/db_iter.cc:30-38 | each key once, in ascending order |
| DbIter.DBIter.FindNextUserEntry | PC Build/Pods/leveldb-library/db/db_iter.cc:168-198 | stops at the first live entry from a position on |
| DbIter.DBIter.FindPrevUserEntry | PC Build/Pods/leveldb-library/db/db_iter.cc:227-267 | stops just before the versions of the last live key before a position, with its value saved |
| DbIter.DBIter.Next | PC Build/Pods/leveldb-library/db/db_iter.cc:141-166 | moves the cursor on the live list forward by one, in either direction of travel |
| DbIter.DBIter.Prev | PC Build/Pods/leveldb-library/db/db_iter.cc:200-225 | moves it back by one, in either direction of travel |
| DbIter.DBIter.Seek | PC Build/Pods/leveldb-library/db/db_iter.cc:269-281 | the first live key not below the target |
| DbIter.DBIter.SeekToFirst | PC Build/Pods/leveldb-library/db/db_iter.cc:283-292 | the first live key |
| DbIter.DBIter.SeekToLast | PC Build/Pods/leveldb-library/db/db_iter.cc:294-299 | the last live key |
| LogWriter.Writer.AddRecord | PC Build/Pods/leveldb-library/db/log_writer.cc:34-80 | appends the encoding of the record at the current block offset |
| LogWriter.Writer.EmitPhysicalRecord | PC Build/Pods/leveldb-library/db/log_writer.cc:82-110 | appends checksum, length, type and payload |
| LogReader.Reader.ReadPhysicalRecord | PC Build/Pods/leveldb-library/db/log_reader.cc:189-271 | on any bytes: the physical record there, the drop reported, and the position after it |
| LogReader.Reader.Assemble | PC Build/Pods/leveldb-library/db/log_reader.cc:90-169 | what a physical record adds to the fragments read so far |
| LogReader.Reader.ReadRecord | PC Build/Pods/leveldb-library/db/log_reader.cc:56-174 | on any bytes: the next record and drops, with reading on giving the rest |
| LogReader.Reader.ReadAll | PC Build/Pods/leveldb-library/db/log_reader.cc:56-174 | calling ReadRecord until it fails: all records and all drops of a file |
| LogRoundTrip.LogRoundTrips | PC Build/Pods/leveldb-library/db/log_reader.cc:56-174 | what AddRecord wrote is read back in order, with no report |
| LogRoundTrip.TruncatedLogReads | PC Build/Pods/leveldb-library/db/log_reader.cc:198-230 | cut at any byte: exactly the records that fit whole, with no report |
| LogRoundTrip.DamagedLogReads | PC Build/Pods/leveldb-library/db/log_reader.cc:236-261 | however bytes were changed, if every changed fragment fails its header check: exactly the records unchanged from the start of their block on, in order, never spliced |
| LogRoundTrip.WrongChecksumIsRejected | PC Build/Pods/leveldb-library/db/log_reader.cc:213-261 | a length past the block or a checksum that does not match makes the reader leave the block |
| LogReports.WrongChecksumIsReported | PC Build/Pods/leveldb-library/db/log_reader.cc:232-261 | on any bytes, a header inside its block: zeros leave the block quietly, a wrong checksum leaves it with a report of all that is left of it, and any other is read; types 5 and 6 are the reader's own codes |
| LogReports.WrongLengthIsReported | PC Build/Pods/leveldb-library/db/log_reader.cc:219-230 | a length past the end of a full block leaves it with such a report; past the end of the file it ends the reading |
| LogReports.DamageIsReported | PC Build/Pods/leveldb-library/db/log_reader.cc:213-256 | in a damaged log: if a fragment's header fails its check and nothing before it in its block was changed, the rest of that block is reported |
| LogReports.NoByteGetsLost | PC Build/Pods/leveldb-library/db/log_reader.cc:78-174 | on any bytes: all that the fragments hold is in a record returned, in a report, or in a record that the end of the file cuts off |
| Formats.ShortRecordLayout | PC Build/Pods/leveldb-library/db/log_format.h:14-30 | checksum, length, type 1 and data of a record that fits in its block, written out |
| Formats.LongRecordLayout | PC Build/Pods/leveldb-library/db/log_format.h:14-30 | types 2 and 4, and the full first block, of one that needs two |
| Formats.TrailerLayout | PC Build/Pods/leveldb-library/db/log_writer.cc:44-57 | the zeros at the end of a block that has no room for a header |
| LogRoundTrip.CutRecordIsIgnored | PC Build/Pods/leveldb-library/db/log_reader.cc:131-140 | a record that is cut off ends the reading quietly |
| SkipLists.SkipList.constructor | PC Build/Pods/leveldb-library/db/skiplist.h:324-334 | an empty list |
| SkipLists.SkipList.SearchStep | PC Build/Pods/leveldb-library/db/skiplist.h:266-281 | one turn of a search moves on along the level, or finds the last node before the key there |
| SkipLists.SkipList.FindGreaterOrEqual | PC Build/Pods/leveldb-library/db/skiplist.h:260-281 | the first entry not below the key, and the last node before it on every level; terminates in every intermediate state of an insertion |
| SkipLists.SkipList.FindLessThan | PC Build/Pods/leveldb-library/db/skiplist.h:283-302 | the last entry below the key, or the head |
| SkipLists.SkipList.FindLast | PC Build/Pods/leveldb-library/db/skiplist.h:304-322 | the last entry, or the head |
| SkipLists.SkipList.Contains | PC Build/Pods/leveldb-library/db/skiplist.h:370-378 | membership |
| SkipLists.SkipList.SetOwnLink | PC Build/Pods/leveldb-library/db/skiplist.h:365-365 | after the store to the new node's own link the list is valid |
| SkipLists.SkipList.Publish | PC Build/Pods/leveldb-library/db/skiplist.h:366-366 | after the store that links the new node at a level every level is a sorted sublist of the one below |
| SkipLists.SkipList.LinkLevel | PC Build/Pods/leveldb-library/db/skiplist.h:362-367 | the two stores of a level |
| SkipLists.SkipList.Insert | PC Build/Pods/leveldb-library/db/skiplist.h:337-368 | the entry is inserted at its seek position and nothing else changes, for any height from 1 to 12 |
| SkipLists.LinksRaised | PC Build/Pods/leveldb-library/db/skiplist.h:365-366 | linking a node at one more level changes two links and no other |
| SkipLists.StoreKeepsPlace | PC Build/Pods/leveldb-library/db/skiplist.h:351-357 | a search under way still stands before its key after a store |
| SkipLists.SearchIsOfOneMoment | PC Build/Pods/leveldb-library/db/skiplist.h:260-281 | for any sequence of search turns and stores, a search that ends gives what the list held at its seek position at one moment meanwhile |
| SkipLists.SearchFindsOldOrNew | PC Build/Pods/leveldb-library/db/skiplist.h:260-281 | so it ends at the first node not below the key in the list it began in, or at a node inserted meanwhile that is not below the key |
| SkipLists.Iterator.Next | PC Build/Pods/leveldb-library/db/skiplist.h:206-210 | the next entry |
| SkipLists.Iterator.Prev | PC Build/Pods/leveldb-library/db/skiplist.h:212-221 | the entry before, found by a search |
| SkipLists.Iterator.Seek | PC Build/Pods/leveldb-library/db/skiplist.h:223-226 | the first entry not below the target |
| SkipLists.Iterator.SeekToFirst | PC Build/Pods/leveldb-library/db/skiplist.h:228-231 | the first entry |
| SkipLists.Iterator.SeekToLast | PC Build/Pods/leveldb-library/db/skiplist.h:233-239 | the last entry |
| SnapshotLists.SnapshotList.New | PC Build/Pods/leveldb-library/db/snapshot.h:57-70 | appends a snapshot to the ordered circular list |
| SnapshotLists.SnapshotList.Delete | PC Build/Pods/leveldb-library/db/snapshot.h:79-86 | unlinks a snapshot and nothing else |
| SnapshotLists.SnapshotList.Oldest | PC Build/Pods/leveldb-library/db/snapshot.h:47-50 | the snapshot with the smallest sequence number |
| Coding.Fixed32RoundTrips | PC Build/Pods/leveldb-library/util/coding.cc:9-18 | fixed 32-bit numbers are read back |
| Coding.Varint32RoundTrips | PC Build/Pods/leveldb-library/util/coding.cc:47-128 | base-128 numbers are read back |
| Coding.Varint64RoundTrips | PC Build/Pods/leveldb-library/util/coding.cc:81-169 | so are those of 64 bits |
| Coding.Fixed64RoundTrips | PC Build/Pods/leveldb-library/util/coding.cc:20-45 | and fixed 64-bit numbers |
| Coding.SliceIs | PC Build/Pods/leveldb-library/util/coding.cc:98-190 | and length-prefixed slices |
| Formats.Numbers | PC Build/Pods/leveldb-library/util/coding.cc:9-79 | the bytes of some numbers, written out |
| BlockFormat.OffsetsGrow | PC Build/Pods/leveldb-library/table/block_builder.cc:95-103 | entries begin further on one after another |
| BlockBuilders.BlockBuilder.Add | PC Build/Pods/leveldb-library/table/block_builder.cc:71-105 | appends the entry with its shared prefix left out, and a restart point every interval |
| BlockBuilders.BlockBuilder.Finish | PC Build/Pods/leveldb-library/table/block_builder.cc:61-69 | the block: entries, restart offsets and their number |
| BlockReader.HeaderDecodes | PC Build/Pods/leveldb-library/table/block.cc:54-74 | the one-byte fast path reads what the varints say |
| BlockReader.BlockIsLaid | PC Build/Pods/leveldb-library/table/block.cc:19-39 | in a built block every entry decodes, given the key before it or at a restart point nothing, and every restart point is where it says |
| BlockReader.LongEntryIsRefused | PC Build/Pods/leveldb-library/table/block.cc:54-74 | an entry that would go past the limit is refused, and no other whose header can be read |
| Formats.BlockLayout | PC Build/Pods/leveldb-library/table/block_builder.cc:17-28 | the bytes of a block with a shared prefix and one restart point, written out |
| BlockIterator.NewIterator | PC Build/Pods/leveldb-library/table/block.cc:254-264 | on any bytes: an error if the restart array does not fit, no iterator without restart points, otherwise one; on a built block one over its entries |
| BlockIterator.Iter.constructor | PC Build/Pods/leveldb-library/table/block.cc:115-124 | starts past the end of any bytes with a restart array; on a built block, of its entries |
| BlockIterator.Iter.ParseNextKey | PC Build/Pods/leveldb-library/table/block.cc:224-251 | on any bytes: the end, a corruption, or the entry that is there, with its key rebuilt from the one before; on a built block the next entry, and never a corruption |
| BlockIterator.Iter.Next | PC Build/Pods/leveldb-library/table/block.cc:137-140 | the next entry |
| BlockIterator.Iter.Prev | PC Build/Pods/leveldb-library/table/block.cc:142-161 | the entry before: undoes Next |
| BlockIterator.Iter.FindRestart | PC Build/Pods/leveldb-library/table/block.cc:163-189 | binary search: the last restart point whose key is below the target |
| BlockIterator.Iter.Seek | PC Build/Pods/leveldb-library/table/block.cc:163-201 | the first entry not below the target, for every restart interval |
| BlockIterator.Iter.SeekToFirst | PC Build/Pods/leveldb-library/table/block.cc:203-206 | the first entry |
| BlockIterator.Iter.SeekToLast | PC Build/Pods/leveldb-library/table/block.cc:208-213 | the last entry |
| BlockIterator.Iter.Entry | PC Build/Pods/leveldb-library/table/block.cc:128-135 | key and value are those added |
| FilterBlock.FilterBlockBuilder.StartBlock | PC Build/Pods/leveldb-library/table/filter_block.cc:21-27 | filters are made up to the one of the block's offset |
| FilterBlock.FilterBlockBuilder.AddKey | PC Build/Pods/leveldb-library/table/filter_block.cc:29-33 | the key will be in the filter of its block's offset |
| FilterBlock.FilterBlockBuilder.GenerateFilter | PC Build/Pods/leveldb-library/table/filter_block.cc:51-75 | the pending keys become the next filter |
| FilterBlock.FilterBlockBuilder.Finish | PC Build/Pods/leveldb-library/table/filter_block.cc:35-49 | every key added is in the group of its block's offset; the contents are the filters and their offsets |
| FilterBlock.MatchesOwnFilter | PC Build/Pods/leveldb-library/table/filter_block.cc:77-104 | KeyMayMatch asks exactly the filter of the 2 KB the block begins in |
| FilterBlock.NoKeyIsMissed | PC Build/Pods/leveldb-library/table/filter_block.cc:90-104 | no false negatives, if the policy has none |
| FilterBlock.ErrorsMatch | PC Build/Pods/leveldb-library/table/filter_block.cc:90-104 | on any bytes: a key is ruled out by a filter that is there or an empty one, never by an error |
| FilterBlock.ShortBlockMatches | PC Build/Pods/leveldb-library/table/filter_block.cc:77-88 | what is no filter block matches every key |
| FilterBlock.BuildFilterBlock | PC Build/Pods/leveldb-library/table/filter_block.cc:21-75 | for any sequence of blocks with nondecreasing offsets and their keys: every key may match under the offset of its block |
| GroupCommit.RunHoldsInv | PC Build/Pods/leveldb-library/db/db_impl.cc:1185-1256 | in every run, with every writer in its own wait loop: writers leave in the order of arrival; the log holds the logged groups in that order with their sequence numbers; the temporary batch is empty between leaders |
| GroupCommit.OnlyTheFrontLeads | PC Build/Pods/leveldb-library/db/db_impl.cc:1192-1201 | in every run at most one writer is past its wait, and it is the front of the queue and not done |
| GroupCommit.ReturnsItsGroupsStatus | PC Build/Pods/leveldb-library/db/db_impl.cc:1196-1198 | a writer that has returned left the queue in the group at its place, and returned that group's status |
| GroupCommit.ReturningIsFinal | PC Build/Pods/leveldb-library/db/db_impl.cc:1239-1255 | it returns once: no later step touches it |
| GroupCommit.NobodySleepsOn | PC Build/Pods/leveldb-library/db/db_impl.cc:1239-1253 | in every run a waiting writer that is done or at the front has been signalled |
| GroupCommit.OperationIsLogged | PC Build/Pods/leveldb-library/db/db_impl.cc:1204-1215 | an operation of a logged group is in the log under its own sequence number |
| GroupCommit.NumbersIncrease | PC Build/Pods/leveldb-library/db/db_impl.cc:1206-1236 | sequence numbers increase in the order of arrival: none is given twice |
| GroupCommit.LogHasNoGap | PC Build/Pods/leveldb-library/db/db_impl.cc:1206-1236 | if every batch tried was logged, the log's sequence numbers are consecutive from the first |
| GroupCommit.GroupsAreSynced | PC Build/Pods/leveldb-library/db/db_impl.cc:1282-1285 | a write that asked for a sync is not led by one that did not |
| GroupCommit.GroupIsBounded | PC Build/Pods/leveldb-library/db/db_impl.cc:1264-1304 | a group has at most 1 MB unless one write alone has more, one behind a small write at most 128 KB more; it ends only before a sync write that may not join or where the next is too much |
| GroupCommit.WrittenIsTold | PC Build/Pods/leveldb-library/db/db_impl.cc:1226-1253 | when a batch has been written its leader returns with the status of that write, and all others of its group are told the same |
| GroupCommit.NoRoomIsTold | PC Build/Pods/leveldb-library/db/db_impl.cc:1201-1204 | a writer for which no room was made returns alone, with that status, and nothing is logged |
| GroupCommit.WriterQueue.Enqueue | PC Build/Pods/leveldb-library/db/db_impl.cc:1185-1195 | is the arrival step |
| GroupCommit.WriterQueue.WaitOrGoOn | PC Build/Pods/leveldb-library/db/db_impl.cc:1192-1198 | is one turn of the wait loop: return, lead or sleep |
| GroupCommit.WriterQueue.WakeUp | PC Build/Pods/leveldb-library/db/db_impl.cc:1192-1198 | is the step of a writer that wakes up, with or without a signal |
| GroupCommit.WriterQueue.PopWriters | PC Build/Pods/leveldb-library/db/db_impl.cc:1239-1248 | takes the writers up to the last one of the group off the queue and marks all but the leader done with its status |
| GroupCommit.WriterQueue.BuildBatchGroup | PC Build/Pods/leveldb-library/db/db_impl.cc:1260-1306 | the longest group within the limits, and its operations in order |
| GroupCommit.WriterQueue.RoomIsMade | PC Build/Pods/leveldb-library/db/db_impl.cc:1201-1214 | is the step from making room to releasing the mutex |
| GroupCommit.WriterQueue.WriteIsDone | PC Build/Pods/leveldb-library/db/db_impl.cc:1226-1255 | is the step that publishes the sequence number and releases the group |
| GroupCommit.WriterQueue.PopGroup | PC Build/Pods/leveldb-library/db/db_impl.cc:1239-1253 | exactly the group leaves, the leader returns, and the new front is woken up |
| BackgroundWork.StepKeepsInv | PC Build/Pods/leveldb-library/db/db_impl.cc:648-686 | work to do means a job is scheduled; nobody waits without one |
| BackgroundWork.NoWorkIsStranded | PC Build/Pods/leveldb-library/db/db_impl.cc:1336-1344 | in every run, while there is no error and no shutdown |
| BackgroundWork.JobsHaveWork | PC Build/Pods/leveldb-library/db/db_impl.cc:648-664 | a step that schedules a job leaves work for it; none is scheduled after an error or when closing |
| BackgroundWork.RoomIsMadeOrAwaited | PC Build/Pods/leveldb-library/db/db_impl.cc:1330-1366 | a writer that needs room waits while there is an immutable memtable or level 0 has twelve files, and otherwise its memtable becomes the immutable one; either way a job is scheduled |
| BackgroundWork.RequestsAreScheduled | PC Build/Pods/leveldb-library/db/db_impl.cc:594-640 | requests become work, and work a job |
| BackgroundWork.JobsEnd | PC Build/Pods/leveldb-library/db/db_impl.cc:667-686 | the end of a job wakes everyone, and another follows if and only if there is work |
| BackgroundWork.JobsBegin | PC Build/Pods/leveldb-library/db/db_impl.cc:688-700 | a job is for the immutable memtable first, and for a manual compaction only if there is none |
| BackgroundWork.ErrorsEndWaiting | PC Build/Pods/leveldb-library/db/db_impl.cc:640-646 | an error wakes everyone and stays |
| FileLifetime.AddedVersionCounts | PC Build/Pods/leveldb-library/db/version_set.cc:741-754 | a new version takes one reference to each of its files |
| FileLifetime.RemovedVersionCounts | PC Build/Pods/leveldb-library/db/version_set.cc:68-86 | a deleted version gives one back, and a file with none left goes |
| FileLifetime.RunHoldsInv | PC Build/Pods/leveldb-library/db/db_impl.cc:223-278 | in every run with one background thread, reference counts of versions and files are exact and no table of a version is missing |
| FileLifetime.TablesInUseExist | PC Build/Pods/leveldb-library/db/db_impl.cc:232-254 | the tables of the current version, of every reader's version and of the compaction's inputs exist |
| FileLifetime.CollectingIsExact | PC Build/Pods/leveldb-library/db/db_impl.cc:223-278 | without an error exactly the tables that are being written or that an installed version lists are left; after an error all are |
| FileLifetime.OpenedIsClean | PC Build/Pods/leveldb-library/db/db_impl.cc:1503-1505 | a database just opened has the tables of its version and no others |
| FileLifetime.CollectedIsClean | PC Build/Pods/leveldb-library/db/db_impl.cc:554-566 | in every run, after an install that collects every table is being written or listed by a version still held; after that of a compaction it is listed |
| FileLifetime.InputIsGone | PC Build/Pods/leveldb-library/db/db_impl.cc:734-743 | so an input of a compaction that no remaining version lists is gone |
| FileLifetime.EditReplacesInputs | PC Build/Pods/leveldb-library/db/db_impl.cc:860-876 | the version a compaction installs lists what the current one does, without the inputs and with the outputs |
| FileLifetime.EditAddsTable | PC Build/Pods/leveldb-library/db/db_impl.cc:547-556 | that of a flush lists one table more |
| FileLifetime.InstalledIsCurrent | PC Build/Pods/leveldb-library/db/version_set.cc:867-871 | when the manifest has been written that version is current, with its files |
| FileLifetime.FailedInstallDeletesNothing | PC Build/Pods/leveldb-library/db/version_set.cc:872-881 | when it has not, the current version stays, an error is recorded, and nothing is deleted any more |
| FileLifetime.FailuresAreRecorded | PC Build/Pods/leveldb-library/db/db_impl.cc:563-565 | a flush that fails records an error and leaves the current version |
| FileLifetime.DeletingIsSafeIff | PC Build/Pods/leveldb-library/db/db_impl.cc:223-278 | in every run, deleting obsolete files while an edit is being written loses no table if and only if the edit is that of a compaction or a move, not of a flush |
| PbRoundTrip.ScalarRoundTrips | PC Build/Pods/nanopb/pb_encode.c:767-850 | every number of every type and size is read back |
| PbRoundTrip.Varint32Reads | PC Build/Pods/nanopb/pb_decode.c:187-247 | the 32-bit decoder reads every 32-bit number |
| PbRoundTrip.OrIsSum | PC Build/Pods/nanopb/pb_decode.c:233-235 | or-ing in bits above those already there adds them |
| PbRoundTrip.FindIs | PC Build/Pods/nanopb/pb_common.c:78-95 | wherever the circular iterator is, it finds the field with a tag |
| PbRoundTrip.PackedSlotReads | PC Build/Pods/nanopb/pb_decode.c:424-453 | a packed array is read back |
| PbRoundTrip.ItemsRead | PC Build/Pods/nanopb/pb_decode.c:454-464 | an array with a tag for each item is read back, up to an item that cannot be |
| PbRoundTrip.MessageRoundTrips | PC Build/Pods/nanopb/pb_decode.c:925-1087 | decoding an encoded message gives it back but for values of absent optional fields, if and only if every encoded string leaves room for its terminating zero; otherwise it fails |
| PbRoundTrip.FullStringFails | PC Build/Pods/nanopb/pb_decode.c:1468-1501 | the encoding of a string that fills its array is refused |
| PbDecode.DefaultFits | PC Build/Pods/nanopb/pb_decode.c:835-919 | the initial message fits its structure |
| PbDecode.DecodeFields | PC Build/Pods/nanopb/pb_decode.c:925-1073 | on any bytes: what is decoded fits its structure |
| PbDecode.DecodePacked | PC Build/Pods/nanopb/pb_decode.c:425-453 | on any bytes: no more items than there is room for |
| PbDecode.DecodeRaw | PC Build/Pods/nanopb/pb_decode.c:1431-1501 | on any bytes: no more bytes than there is room for |
| PbEncode.VarintBytes | PC Build/Pods/nanopb/pb_encode.c:608-628 | the base-128 digits, least first |
| PbEncode.OStream.Write | PC Build/Pods/nanopb/pb_encode.c:103-124 | a stream that only counts never fails; another fails exactly when it is full |
| PbEncode.OStream.WritePacked | PC Build/Pods/nanopb/pb_encode.c:147-205 | the length counted beforehand is that of the items written |
| PbEncode.OStream.WriteField | PC Build/Pods/nanopb/pb_encode.c:341-426 | writes the encoding of the field, and fails exactly when there is none or no room |
| PbEncode.OStream.WriteMessage | PC Build/Pods/nanopb/pb_encode.c:528-550 | the same for a message: both kinds of stream count the same bytes |
| PbEncode.OStream.WriteSubmessage | PC Build/Pods/nanopb/pb_encode.c:717-765 | the two passes agree: a changed size is impossible |
| PbReader.IStream.ReadVarint32 | PC Build/Pods/nanopb/pb_decode.c:187-247 | on any bytes: the value decoded, or failure |
| PbReader.IStream.ReadVarint | PC Build/Pods/nanopb/pb_decode.c:255-275 | on any bytes: the value decoded, or failure |
| PbReader.IStream.MakeStringSubstream | PC Build/Pods/nanopb/pb_decode.c:372-400 | a substream of the length read, within this one, which goes on after it |
| PbReader.IStream.SkipField | PC Build/Pods/nanopb/pb_decode.c:321-331 | passes over an unknown field |
| PbUnknown.ValueIsSkipped | PC Build/Pods/nanopb/pb_decode.c:321-331 | a value of any kind is passed over exactly, by its wire type |
| PbUnknown.OtherTypesAreRefused | PC Build/Pods/nanopb/pb_decode.c:321-331 | groups and wire types that do not exist are refused |
| PbUnknown.UnknownFieldIsIgnored | PC Build/Pods/nanopb/pb_decode.c:940-990 | an unknown field of any kind, put before, between or behind the fields in any bytes, changes nothing of what they decode to |
| PbUnknown.FieldsAreLocal | PC Build/Pods/nanopb/pb_decode.c:925-1073 | a message decodes the same wherever its bytes are and whatever is around them |
| PbUnknown.MissingFieldIsRefused | PC Build/Pods/nanopb/pb_decode.c:1030-1070 | any bytes decode if and only if no field of theirs fails and the first 64 required fields are all among them |
| PbMerge.ConcatenationMerges | PC Build/Pods/nanopb/pb_decode.c:925-1073 | decoding a message into the result of another is decoding both, one behind the other (section Last One Wins) |
| PbMerge.SubmessagesMerge | PC Build/Pods/nanopb/pb_decode.c:406-424 | a submessage that comes twice is the message of both parts together |
| PbMerge.LastValueWins | PC Build/Pods/nanopb/pb_decode.c:406-424 | of several values of another field the last counts |
| PbMerge.ArraysGrow | PC Build/Pods/nanopb/pb_decode.c:455-470 | an array keeps its items and gets one more |
| PbLimits.UnsignedIsTakenIffItFits | PC Build/Pods/nanopb/pb_decode.c:1366-1390 | a number is taken for an unsigned field if and only if it fits |
| PbLimits.SignedIsTakenIffItFits | PC Build/Pods/nanopb/pb_decode.c:1329-1364 | for a signed one, by its low 32 bits unless the field has 64 |
| PbLimits.ZigZagIsTakenIffItFits | PC Build/Pods/nanopb/pb_decode.c:1392-1412 | and for one in zigzag form |
| PbLimits.TooLargeIsRefused | PC Build/Pods/nanopb/pb_decode.c:187-247 | a tag, length or bool of more than 32 bits is refused, unless its low bits are those of a negative number |
| PbLimits.NegativeReads | PC Build/Pods/nanopb/pb_decode.c:213-235 | a negative number in ten bytes is read as its low 32 bits |
| PbLimits.ElevenBytesAreRefused | PC Build/Pods/nanopb/pb_decode.c:255-275 | a number that goes on after ten bytes is refused |
| PbLimits.LongArrayIsRefused | PC Build/Pods/nanopb/pb_decode.c:425-453 | a packed array with more items than there is room for is refused, not cut off |
| PbLimits.FullArrayIsRefused | PC Build/Pods/nanopb/pb_decode.c:455-464 | and so is one more item for a full array |
| PbLimits.ZeroEndsMessage | PC Build/Pods/nanopb/pb_decode.c:298-318 | a zero where a tag should be ends the message: what is behind it is not read |
| Formats.ZigZagTable | PC Build/Pods/nanopb/pb_encode.c:630-640 | the zigzag numbers of the specification's table |
| Formats.MessageExamples | PC Build/Pods/nanopb/pb_encode.c:669-720 | the specification's examples of a number and of a string |
| Formats.PackedExample | PC Build/Pods/nanopb/pb_encode.c:147-230 | and of a packed array |
| Formats.WireTypes | PC Build/Pods/nanopb/pb_encode.c:669-706 | wire types, a negative number in ten bytes, and one in zigzag form |
| PbReader.IStream.ReadSlot | PC Build/Pods/nanopb/pb_decode.c:406-480 | one field, by its rule and wire type |
| PbReader.IStream.ReadFields | PC Build/Pods/nanopb/pb_decode.c:925-1073 | the decoding loop: what the bytes decode to, or failure |
| PbReader.FindField | PC Build/Pods/nanopb/pb_common.c:78-95 | goes round the table once from where the iterator is |

## Left out

- User keys are their ranks, as reals, under the user comparator: any countable total order embeds there. Bytes get their ranks in ManifestRecovery and WriteBatches; in tables and blocks, keys as bytes and keys as ranks are not connected.
- CompactionWork.DoCompactionWork: does not interleave the flush of the immutable memtable (db_impl.cc:908-918); compaction, flush and recovery are atomic between mutex boundaries. Where tables are split is an arbitrary function. It requires a smallest snapshot below the greatest sequence number, since at that number the loop's initial value would drop every first entry.
- StoreRuns.RunHoldsInv: compactions in a run are those that uncover nothing, because the property is false of others, as said above.
- StoreRuns.EveryReadIsExact: the same holds of it; TombstoneBoundary.DeletedKeyComesBack is the run that shows why.
- StoreRuns.SnapshotIsStable: and of it.
- DbImpl.DBImpl.CrashAndRecover: a crash cuts whole records off the logs, since that is what LogRoundTrip.TruncatedLogReads and WriteBatches.LoggedBatchesAreRead make of a cut anywhere; every log may be cut anywhere, so that a synced write is never lost is not said. `reuse_logs` is off, so opening always writes a new manifest; `prev_log_number` is always zero.
- StoreInvariant.RecoverKeepsInv: the manifest and the tables are taken to be whole after a crash, since both are synced before they are used (version_set.cc:849-852, builder.cc:46-48).
- ManifestRecovery.Recover: expects a manifest in which no file number is reused and keys parse, as those of every run do; the CURRENT file, and which error of several is returned, are not modelled.
- ManifestSpelling.ManifestIsSpelled: numbers have 64 bits, which the store's states, with unbounded numbers, do not say; it is a hypothesis.
- VersionBuilder.Builder.Apply: the seeks a new file is allowed are not kept.
- DbImpl.DBImpl.constructor: opens a new store; opening one that exists is CrashAndRecover.
- DbImpl.DBImpl.Write: failures to write, and other threads while the mutex is released, are in GroupCommit.
- DbImpl.DBImpl.CompactMemTable: errors and shutdown while a table is built are not modelled.
- Recovery.RecoverLogFile: how many records go into one table is not stated; it reads whole records; what is reported and skipped is in LogReader and WriteBatches, and reusing the log is left out.
- Recovery.RecoverLogs: the check that no table file is missing is not modelled.
- CompactionPicking.PickCompaction: which level or file triggers it is a parameter.
- CompactionWork.Merge: merges forward only.
- InternalIterator.Merged: is one such merge.
- DbImpl.DBImpl.RunCompaction: errors, shutdown and corrupt keys in a compaction are not modelled.
- DbImpl.DBImpl.BackgroundCompaction: which level is over its size (a floating-point score) or which file was sought too often is a parameter; seek statistics are not kept.
- DbImpl.DBImpl.NewIterator: the merging and concatenating iterators are one sorted merge of all memtables and tables; moving the children individually in both directions is not modelled.
- VersionReads.Lookup: finding an entry in a table goes by its sorted contents; the index block, the table cache and bloom filters' arithmetic are not modelled. Blocks and filter blocks are modelled by themselves.
- MemTables.Add: takes the sorted contents of the memtable; that the skip list inserts at the same place is SkipLists.SkipList.Insert. The arena, memory orderings and the encoding of memtable entries are not modelled, and a concurrent search is a sequence of steps between stores.
- WriteBatches.RecordIsPerformed: sequence numbers have 56 bits; a record that goes beyond is not modelled, and neither is stopping at the first malformed one (`paranoid_checks`).
- WriteBatches.WriteBatch.Put: a batch has fewer than 2^31 operations; the count would be negative beyond.
- The checksum is any function of type and payload, and is always verified; file input and output succeed, and reading starts at offset 0.
- BlockIterator.Iter.ParseNextKey: the lengths of a corrupt entry may lead beyond the block; what is read there is arbitrary bytes. Offsets are not taken modulo 2^32. Moving and seeking are proved on built blocks.
- GroupCommit.WriterQueue.RoomIsMade: making room is one step with an arbitrary outcome; waiting inside it is in BackgroundWork. Sizes of batches are an arbitrary function, and writers are values in a table, not objects on their threads' stacks.
- BackgroundWork.NoWorkIsStranded: says nothing of threads that wait while the database is being closed.
- FileLifetime.FailedInstallDeletesNothing: a table whose building failed is deleted at once in the code, and never in the model.
- FileLifetime.RunHoldsInv: steps are functions of a value, not updates of linked objects; the list of versions is a map, and logs and manifests are left to the store.
- PbReader.IStream.ReadSlot: fields are those PbDecode.DecodeFields models.
- PbReader.IStream.ReadFields: so are messages; what is written outside an empty message is not modelled.
- PbDecode.DecodeFields: of nanopb, oneof and proto3 singular fields, fixed-length bytes, callbacks, extensions, allocated pointers and fixed-count arrays are not modelled; nor are callbacks of streams that fail. Sizes are unbounded numbers where the source has `size_t`.
- PbRoundTrip.MessageRoundTrips: is for encodings shorter than 2^32 bytes, the limit of the decoder's lengths.
- `FindShortestSeparator`, `FindShortSuccessor`, `ApproximateOffsetOf`, properties, repair, dumping and the C interface: no effect on results.
- The application's own Swift code: user interface and network calls.
