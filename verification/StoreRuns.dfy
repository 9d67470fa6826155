/**
 Runs of the store: over every sequence of steps the invariant holds, reads at
 live snapshots are exact, and no step but a crash changes what a live snapshot
 sees.
 */
module StoreRuns {
  import opened Basics
  import opened InternalKeys
  import opened Reads
  import opened Tables
  import opened CompactionPicking
  import opened VersionReads
  import opened VersionBuilder
  import opened VersionSteps
  import opened VersionEdits
  import opened EditSteps
  import opened Store
  import opened CrashedLogs
  import opened StoreInvariant

  datatype Step =
    | WriteStep(batch: seq<Entry>)
    | SwitchStep
    | FlushStep(level: nat, tables: seq<File>)
    | MoveStep(c: Compaction)
    | CompactStep(c: Compaction, outputs: seq<File>)
    | GetSnapshotStep
    | ReleaseSnapshotStep(i: nat)
    | DeleteLogsStep
    | RecoverStep(keep: seq<nat>, base: Version, tables: seq<File>)

  // What the code does.
  ghost predicate CodeNext(s: State, step: Step, s': State) {
    match step
    case WriteStep(batch) => Write(s, batch, s')
    case SwitchStep => SwitchMemTable(s, s')
    case FlushStep(level, tables) => Flush(s, level, tables, s')
    case MoveStep(c) => TrivialMove(s, c, s')
    case CompactStep(c, outputs) => Compact(s, c, outputs, s')
    case GetSnapshotStep => GetSnapshot(s, s')
    case ReleaseSnapshotStep(i) => ReleaseSnapshot(s, i, s')
    case DeleteLogsStep => DeleteObsoleteLogs(s, s')
    case RecoverStep(keep, base, tables) => CrashAndRecover(s, keep, base, tables, s')
  }

  // As long as no compaction uncovers an old value.
  ghost predicate Next(s: State, step: Step, s': State) {
    CodeNext(s, step, s') && (step.CompactStep? ==> UncoversNothing(s, step.c))
  }

  lemma NextKeepsInv(s: State, step: Step, s': State)
    requires Inv(s) && Next(s, step, s')
    ensures Inv(s')
  {
    hide Inv, Write, SwitchMemTable, Flush, TrivialMove, Compact, UncoversNothing, DeleteObsoleteLogs;
    hide CrashAndRecover;
    match step {
      case WriteStep(batch) => WriteKeepsInv(s, batch, s');
      case SwitchStep => SwitchKeepsInv(s, s');
      case FlushStep(level, tables) => FlushKeepsInv(s, level, tables, s');
      case MoveStep(c) => TrivialMoveKeepsInv(s, c, s');
      case CompactStep(c, outputs) => CompactKeepsInv(s, c, outputs, s');
      case GetSnapshotStep => SnapshotsKeepInv(s, 0, s');
      case ReleaseSnapshotStep(i) => SnapshotsKeepInv(s, i, s');
      case DeleteLogsStep => DeleteKeepsInv(s, s');
      case RecoverStep(keep, base, tables) => RecoverKeepsInv(s, keep, base, tables, s');
    }
  }

  lemma InitHoldsInv(s: State)
    requires Init(s)
    ensures Inv(s)
  {
    hide GoodVersion, VersionContents, LogsInv, ReadAt, ManifestInv;
    InitManifest(s);
    EmptyRecords();
    EmptyVersionIsGood();
    InitLogs(s);
    EmptyVersionHasNoFiles();
  }

  lemma InitManifest(s: State)
    requires Init(s)
    ensures ManifestInv(s)
  {
    hide SnapshotEdit, Replays, NeverReused, FilesAdded, FoundNumbers, NumbersOf, ValidEdit;
    EmptyVersionIsGood();
    assert NumbersBelow(EMPTY_VERSION, 0) by { EmptyVersionHasNoFiles(); }
    var first, edit := SnapshotEdit(s.comparator, NO_POINTERS, EMPTY_VERSION), FileEdit({}, []);
    SnapshotIsRecord(s.comparator, NO_POINTERS, EMPTY_VERSION, 0);
    EmptyEdit();
    hide GoodVersion, VersionContents, NumbersBelow, Applied, FilesOf, ManifestInv, OneFilePerNumber;
    FewNumbersBelow(FilesAdded([first]), 0, 4);
    assert FilesAdded([first]) + {} == FilesAdded([first]);
    TwoRecords(first, EMPTY_VERSION, edit, s);
  }

  // The record that NewDB writes, from which the first Open goes on: it takes file
  // number 2 for its manifest and 3 for its log.
  lemma NewDatabaseReplays(comparator: Bytes)
    ensures var edit := NoEdit<InternalKey, File>()
        .(comparator := Some(comparator), logNumber := Some(0), nextFile := Some(2), lastSequence := Some(0));
      && Replays([edit], EMPTY_VERSION) && FoundNumbers([edit]) == Some(Manifest(0, 2, 0))
      && ReplayPointers([edit]) == NO_POINTERS
  {
    var edit := NoEdit<InternalKey, File>()
      .(comparator := Some(comparator), logNumber := Some(0), nextFile := Some(2), lastSequence := Some(0));
    assert [edit][..0] == [];
    forall l | 0 <= l < NUM_LEVELS ensures SavedLevel({}, {}, AddedAt(edit.added, l), EMPTY_VERSION[l]) {
      assert EMPTY_VERSION[l] == [];
    }
    OneEditReplays(edit, EMPTY_VERSION);
  }

  lemma EmptyEdit()
    ensures ValidEdit(FileEdit({}, [])) && Applied(EMPTY_VERSION, FileEdit({}, []), EMPTY_VERSION)
    ensures FilesOf(FileEdit({}, []).added) == {} && FileEdit({}, []).comparator == None
  {
    forall l: nat | l < NUM_LEVELS ensures EMPTY_VERSION[l] == [] {}
  }

  lemma EmptyVersionHasNoFiles()
    ensures NumbersBelow(EMPTY_VERSION, 0)
  {
    forall l: nat | l < NUM_LEVELS ensures EMPTY_VERSION[l] == [] {}
  }

  lemma InitLogs(s: State)
    requires Init(s)
    ensures LogsInv(s)
  {
    hide LaterRecordsAbove, RecordsContents, LogsContents, LiveLogs, AllRecords;
    EmptyRecords();
    LiveSplit(s.logs, 3);
    NoLiveLogs([], 3);
    assert s.logs[..|s.logs| - 1] == [];
    NoRecords();
    NoRecordsAbove();
    assert AllRecords(LiveLogs(s.logs, 3)) == [];
  }

  lemma NoRecords()
    ensures AllRecords([]) == []
  {
  }

  lemma EmptyVersionIsGood()
    ensures GoodVersion(EMPTY_VERSION) && VersionContents(EMPTY_VERSION) == {}
  {
    hide *;
    EmptyVersionHoldsNothing();
    EmptyVersionParts();
    GoodFromParts(EMPTY_VERSION);
  }

  lemma EmptyVersionHoldsNothing()
    ensures VersionContents(EMPTY_VERSION) == {} && DistinctSequences(VersionContents(EMPTY_VERSION))
  {
    hide VersionContents;
    forall e ensures e !in VersionContents(EMPTY_VERSION) {
      ContentsOfVersion(EMPTY_VERSION, e);
      forall l: nat | l < NUM_LEVELS ensures e !in LevelContents(EMPTY_VERSION[l]) {
        assert EMPTY_VERSION[l] == [];
      }
    }
  }

  lemma EmptyVersionParts()
    ensures forall l: nat :: l < NUM_LEVELS ==> GoodLevel(EMPTY_VERSION, l) && SortedBySmallest(EMPTY_VERSION[l])
    ensures forall l: nat, m: nat :: l < m < NUM_LEVELS ==>
      NewerThan(LevelContents(EMPTY_VERSION[l]), LevelContents(EMPTY_VERSION[m]))
    ensures NumberedByAge(EMPTY_VERSION[0]) && DistinctNumbers(EMPTY_VERSION) && SortedLevels(EMPTY_VERSION)
  {
    forall l: nat | l < NUM_LEVELS ensures EMPTY_VERSION[l] == [] {}
  }

  // A run: each step leads from one state to the next, from a new database on.
  ghost predicate Run(states: seq<State>, steps: seq<Step>) {
    && |states| == |steps| + 1 && Init(states[0])
    && forall i :: 0 <= i < |steps| ==> Next(states[i], steps[i], states[i + 1])
  }

  lemma {:induction false} RunHoldsInv(states: seq<State>, steps: seq<Step>, i: nat)
    requires Run(states, steps) && i < |states|
    ensures Inv(states[i])
  {
    hide Inv, Next, Init;
    if i == 0 {
      InitHoldsInv(states[0]);
    } else {
      RunHoldsInv(states, steps, i - 1);
      NextKeepsInv(states[i - 1], steps[i - 1], states[i]);
    }
  }

  // A sequence number that a reader may hold.
  ghost predicate LiveSequence(s: State, t: nat) {
    t == s.lastSequence || t in s.snapshots
  }

  lemma LiveIsRespected(s: State, t: nat)
    requires NumbersInv(s) && LiveSequence(s, t)
    ensures s.horizon <= t <= s.lastSequence
  {
  }

  // In every state of every run, a read of any key at any live snapshot gives
  // what the set of all writes gives.
  lemma EveryReadIsExact(states: seq<State>, steps: seq<Step>, i: nat, k: UserKey, t: nat)
    requires Run(states, steps) && i < |states| && LiveSequence(states[i], t)
    ensures Answer(StoreNewest(states[i], k, t)) == ReadAt(states[i].written, k, t)
  {
    hide MemoryInv, LogsInv, ManifestInv, TablesAgree, GoodVersion, StoreNewest, ReadAt, Run, NumbersInv;
    RunHoldsInv(states, steps, i);
    LiveIsRespected(states[i], t);
    ReadsAreExactAt(states[i], k, t);
  }

  // In every state of every run, replaying the manifest gives the current version
  // and no other, and the numbers that were recorded last.
  lemma ManifestReplays(states: seq<State>, steps: seq<Step>, i: nat, v: Version)
    requires Run(states, steps) && i < |states|
    ensures NeverReused(states[i].edits)
    ensures Replays(states[i].edits, v) <==> v == states[i].version
    ensures FoundNumbers(states[i].edits) == Some(states[i].manifest)
  {
    hide MemoryInv, LogsInv, TablesAgree, GoodVersion, Run, NumbersInv, NeverReused, Replays, FoundNumbers;
    RunHoldsInv(states, steps, i);
    if Replays(states[i].edits, v) { ReplayIsUnique(states[i].edits, v, states[i].version); }
  }

  // Its records name the store's comparator or none.
  lemma ManifestComparators(states: seq<State>, steps: seq<Step>, i: nat)
    requires Run(states, steps) && i < |states|
    ensures var s := states[i];
      && (forall k :: 0 <= k < |s.edits| ==>
         s.edits[k].comparator == None || s.edits[k].comparator == Some(s.comparator))
      && NumbersOf(s.edits).prevLogNumber == Some(0)
  {
    hide MemoryInv, LogsInv, TablesAgree, GoodVersion, Run, NumbersInv, NeverReused, Replays, FoundNumbers, NumbersOf;
    hide ValidEdit;
    RunHoldsInv(states, steps, i);
  }

  // So a recovery starts from the version and the numbers the store had.
  lemma RecoveryStartsFromLast(states: seq<State>, steps: seq<Step>, i: nat)
    requires Run(states, steps) && i < |steps| && steps[i].RecoverStep?
    ensures steps[i].base == states[i].version
    ensures FoundNumbers(states[i].edits) == Some(states[i].manifest)
  {
    hide Inv, Init, FoundNumbers;
    assert Next(states[i], steps[i], states[i + 1]);
    RunHoldsInv(states, steps, i);
    RecoverStarts(states[i], steps[i].keep, steps[i].base, steps[i].tables, states[i + 1]);
  }

  // No flush, move, compaction, snapshot, log deletion or later write changes
  // what a snapshot sees.
  lemma SnapshotIsStable(s: State, step: Step, s': State, k: UserKey, t: nat)
    requires Inv(s) && Next(s, step, s') && !step.RecoverStep? && LiveSequence(s, t)
    ensures Answer(StoreNewest(s', k, t)) == Answer(StoreNewest(s, k, t))
  {
    hide StoreNewest, ReadAt, Inv, Next;
    NextKeepsInv(s, step, s');
    ReadsOfState(s, k, t);
    ReadsOfState(s', k, t);
    WrittenGrows(s, step, s', k, t);
    HorizonRespectsReaders(s, step, s', t);
  }

  // A compaction respects the oldest snapshot, hence all of them.
  lemma HorizonRespectsReaders(s: State, step: Step, s': State, t: nat)
    requires Inv(s) && Next(s, step, s') && LiveSequence(s, t)
    ensures t >= s'.horizon
  {
    hide GoodVersion, MemoryInv, LogsInv, ManifestInv, TablesAgree, GoodCompaction, UncoversNothing, LogAndApply;
    hide CompactedOutputs, Applied, RecoveredTables, Replays, FoundNumbers, SnapshotEdit, Stamped, AddEdit;
    hide ReplayPointers;
    LiveIsRespected(s, t);
  }

  lemma ReadsOfState(s: State, k: UserKey, t: nat)
    requires Inv(s) 
    ensures t >= s.horizon ==> Answer(StoreNewest(s, k, t)) == ReadAt(s.written, k, t)
    ensures LiveSequence(s, t) ==> s.horizon <= t <= s.lastSequence
  {
    hide MemoryInv, LogsInv, ManifestInv, TablesAgree, GoodVersion, StoreNewest, ReadAt;
    if t >= s.horizon { ReadsAreExactAt(s, k, t); }
  }

  lemma WrittenGrows(s: State, step: Step, s': State, k: UserKey, t: nat)
    requires Inv(s) && Next(s, step, s') && !step.RecoverStep? && t <= s.lastSequence
    ensures ReadAt(s'.written, k, t) == ReadAt(s.written, k, t)
  {
    hide LogsInv, ManifestInv, TablesAgree, GoodVersion, Flush, TrivialMove, Compact, UncoversNothing, VersionContents;
    if step.WriteStep? {
      hide NewestAt;
      WriteKeepsMemory(s, step.batch, s');
      BatchSequences(step.batch, s.lastSequence);
      SameVisible(s'.written, s.written, k, t);
    } else {
      StepsKeepWritten(s, step, s');
    }
  }

  lemma StepsKeepWritten(s: State, step: Step, s': State)
    requires Next(s, step, s') && !step.RecoverStep? && !step.WriteStep?
    ensures s'.written == s.written
  {
  }
}
