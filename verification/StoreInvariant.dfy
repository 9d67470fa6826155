/**
 Every step of the store keeps its invariant, so every read at a live snapshot
 in every run is exact.
 */
module StoreInvariant {
  import opened Basics
  import opened InternalKeys
  import opened Reads
  import opened Tables
  import opened VersionSearch
  import opened CompactionPicking
  import opened VersionReads
  import opened CompactionWork
  import opened VersionBuilder
  import opened VersionSteps
  import opened VersionEdits
  import opened EditSteps
  import opened Store
  import opened CrashedLogs

  // ----- what the invariant says, part by part -------------------------------------------

  lemma Parts(s: State)
    requires Inv(s)
    ensures GoodVersion(s.version) && MemoryInv(s) && NumbersInv(s) && TablesAgree(s) && LogsInv(s) && s.logs != []
    ensures ManifestInv(s)
  {
  }

  lemma MemorySorted(s: State)
    requires MemoryInv(s)
    ensures Sorted(s.mem) && DistinctSequences(Contents(s.mem))
    ensures s.imm.Some? ==> Sorted(s.imm.value) && DistinctSequences(Contents(s.imm.value))
  {
  }

  lemma WrittenUpToLast(s: State)
    requires MemoryInv(s) && NumbersInv(s)
    ensures forall e :: e in s.mem ==> e.key.sequence <= s.lastSequence
  {
  }

  lemma WrittenIsDistinct(s: State)
    requires Inv(s)
    ensures DistinctSequences(s.written) && UpTo(s.written, s.lastSequence)
  {
  }

  lemma GoodIsOrdered(v: Version)
    requires GoodVersion(v)
    ensures OrderedVersion(v) && WellFormedVersion(v)
  {
  }

  // ----- the manifest ----------------------------------------------------------------------

  lemma SameManifest(s: State, s': State)
    requires ManifestInv(s)
    requires s'.comparator == s.comparator && s'.edits == s.edits && s'.version == s.version
    requires s'.manifest == s.manifest
    ensures ManifestInv(s')
  {
  }

  // A new record keeps the manifest right, if its files have new numbers or are
  // files of the manifest.
  lemma ManifestGrows(s: State, edit: VersionEdit, s': State)
    requires ManifestInv(s) && s'.comparator == s.comparator && LogAndApply(s, edit, s')
    requires ValidEdit(edit) && edit.comparator == None && s'.manifest.nextFile >= s.manifest.nextFile
    requires OneFilePerNumber(FilesAdded(s.edits) + FilesOf(edit.added))
    requires FileNumbersBelow(FilesOf(edit.added), s'.manifest.nextFile)
    ensures ManifestInv(s')
  {
    hide ValidEdit, OneFilePerNumber, Replays, FilesOf, NumbersOf, FoundNumbers;
    StampedNumbers(s.edits, edit, s'.manifest);
    assert FilesAdded(s'.edits) == FilesAdded(s.edits) + FilesOf(edit.added);
    hide Applied, FilesAdded;
    ReplayExtends(s.edits, s.version, Stamped(edit, s'.manifest), s'.version);
  }

  lemma NewNumbers(known: set<File>, more: set<File>, n: nat)
    requires OneFilePerNumber(known) && OneFilePerNumber(more)
    requires FileNumbersBelow(known, n) && forall f :: f in more ==> f.number >= n
    ensures OneFilePerNumber(known + more)
  {
  }

  // The files of the version were added by the manifest.
  lemma VersionIsInManifest(edits: seq<VersionEdit>, v: Version, l: nat)
    requires Replays(edits, v) && l < NUM_LEVELS
    ensures Files(v[l]) <= FilesAdded(edits)
  {
    hide SortedBySmallest;
    AddedIsAdded(edits, l);
  }

  // ----- Write ---------------------------------------------------------------------------

  lemma BatchSequences(batch: seq<Entry>, last: nat)
    requires Sequenced(batch, last)
    ensures From(Contents(batch), last) && UpTo(Contents(batch), last + |batch|) && AscendingRecord(batch)
    ensures forall a, b :: a in batch && b in batch && a.key.sequence == b.key.sequence ==> a == b
  {
    forall e | e in batch ensures last < e.key.sequence <= last + |batch| {
      var i :| 0 <= i < |batch| && batch[i] == e;
    }
    forall a, b | a in batch && b in batch && a.key.sequence == b.key.sequence ensures a == b {
      var i :| 0 <= i < |batch| && batch[i] == a;
      var j :| 0 <= j < |batch| && batch[j] == b;
      assert i == j;
    }
  }

  lemma WriteKeepsMemory(s: State, batch: seq<Entry>, s': State)
    requires MemoryInv(s) && NumbersInv(s) && Write(s, batch, s')
    ensures MemoryInv(s') && NumbersInv(s')
  {
    hide Sorted, VersionContents;
    BatchSequences(batch, s.lastSequence);
    BatchIsDistinct(s.written, Contents(batch), s.lastSequence);
    hide DistinctSequences;
    assert Above(Contents(batch), s.written);
    assert Above(Contents(s'.mem), ImmContents(s') + s'.flushed);
  }

  lemma BatchIsDistinct(written: set<Entry>, batch: set<Entry>, last: nat)
    requires DistinctSequences(written) && DistinctSequences(batch) && UpTo(written, last) && From(batch, last)
    ensures DistinctSequences(written + batch)
  {
  }

  // The logs that recovery reads are the older ones among them and the current one.
  lemma LiveSplit(logs: seq<Log>, n: nat)
    requires logs != [] && n <= logs[|logs| - 1].number
    ensures var front, last := LiveLogs(logs[..|logs| - 1], n), logs[|logs| - 1];
      && LiveLogs(logs, n) == front + [last]
      && AllRecords(LiveLogs(logs, n)) == AllRecords(front) + last.records
      && LogsContents(LiveLogs(logs, n)) == LogsContents(front) + RecordsContents(last.records)
  {
    var m := |logs| - 1;
    assert logs == logs[..m] + [logs[m]];
    LiveLogsConcat(logs[..m], [logs[m]], n);
    assert LiveLogs([logs[m]], n) == [logs[m]];
    var front := LiveLogs(logs[..m], n);
    AllRecordsConcat(front, [logs[m]]);
    OneLog(logs[m]);
    RecordsContentsConcat(AllRecords(front), logs[m].records);
  }

  lemma LaterRecordAppended(records: seq<seq<Entry>>, r: seq<Entry>)
    requires LaterRecordsAbove(records) && Above(Contents(r), RecordsContents(records)) && AscendingRecord(r)
    ensures LaterRecordsAbove(records + [r])
  {
    var longer := records + [r];
    forall i, j | 0 <= i < j < |longer| ensures Above(Contents(longer[j]), Contents(longer[i])) {
      if j == |records| {
        assert longer[i] in records;
        assert Contents(longer[i]) <= RecordsContents(records);
      }
    }
  }

  lemma WriteKeepsLogs(s: State, batch: seq<Entry>, s': State)
    requires MemoryInv(s) && LogsInv(s) && Write(s, batch, s') && UpTo(s.written, s.lastSequence)
    ensures LogsInv(s')
  {
    hide MemoryInv, Sorted, RecordsContents, LiveLogs, LogsContents, LaterRecordsAbove, AllRecords, Contents;
    var n, front := s.manifest.logNumber, s.logs[..|s.logs| - 1];
    BatchSequences(batch, s.lastSequence);
    LiveSplit(s.logs, n);
    LiveSplit(s'.logs, n);
    assert s'.logs[..|s'.logs| - 1] == front;
    var records := LastLog(s).records;
    RecordsContentsConcat(records, [batch]);
    OneRecordContents(batch);
    LiveIsWritten(s);
    LogsAreRecords(LiveLogs(s.logs, n));
    assert AllRecords(LiveLogs(front, n)) + records + [batch] == AllRecords(LiveLogs(front, n)) + (records + [batch]);
    LaterRecordAppended(AllRecords(LiveLogs(s.logs, n)), batch);
  }

  lemma LiveIsWritten(s: State)
    requires MemoryInv(s) && LogsInv(s)
    ensures LogsContents(LiveLogs(s.logs, s.manifest.logNumber)) == ImmContents(s) + Contents(s.mem) <= s.written
  {
    hide LaterRecordsAbove, LiveLogs, LogsContents, DistinctSequences, Above, VersionContents;
    LiveSplit(s.logs, s.manifest.logNumber);
  }

  lemma LogsAreRecords(logs: seq<Log>)
    ensures LogsContents(logs) == RecordsContents(AllRecords(logs))
  {
  }

  lemma WriteKeepsInv(s: State, batch: seq<Entry>, s': State)
    requires Inv(s) && Write(s, batch, s')
    ensures Inv(s')
  {
    hide MemoryInv, LogsInv, GoodVersion, ReadAt, ManifestInv;
    WriteKeepsLogs(s, batch, s');
    WriteKeepsMemory(s, batch, s');
    SameManifest(s, s');
  }

  // ----- SwitchMemTable --------------------------------------------------------------------

  lemma SwitchKeepsInv(s: State, s': State)
    requires Inv(s) && SwitchMemTable(s, s')
    ensures Inv(s')
  {
    hide GoodVersion, ReadAt, MemoryInv, LogsInv, NumbersInv, ManifestInv;
    SwitchKeepsMemory(s, s');
    SwitchKeepsNumbers(s, s');
    SwitchKeepsLogs(s, s');
    SameManifest(s, s');
  }

  lemma SwitchKeepsMemory(s: State, s': State)
    requires MemoryInv(s) && SwitchMemTable(s, s')
    ensures MemoryInv(s')
  {
    hide DistinctSequences, VersionContents;
    assert Contents(s'.mem) == {};
  }

  lemma SwitchKeepsNumbers(s: State, s': State)
    requires NumbersInv(s) && SwitchMemTable(s, s')
    ensures NumbersInv(s')
  {
  }

  lemma SwitchKeepsLogs(s: State, s': State)
    requires LogsInv(s) && SwitchMemTable(s, s')
    ensures LogsInv(s')
  {
    hide RecordsContents, LiveLogs, LogsContents, LaterRecordsAbove, AllRecords;
    var n := s.manifest.logNumber;
    assert s'.logs[..|s'.logs| - 1] == s.logs;
    LiveSplit(s.logs, n);
    LiveSplit(s'.logs, n);
    EmptyRecords();
    assert AllRecords(LiveLogs(s'.logs, n)) == AllRecords(LiveLogs(s.logs, n));
  }

  // ----- Flush --------------------------------------------------------------------------------

  lemma {:induction false} NoLiveLogs(logs: seq<Log>, n: nat)
    requires LogNumbersBelow(logs, n)
    ensures LiveLogs(logs, n) == []
  {
    if logs != [] { NoLiveLogs(logs[1..], n); }
  }

  // Tables and reference grow by the same newer entries.
  lemma SameGrowthAgrees(T: set<Entry>, F: set<Entry>, N: set<Entry>, horizon: nat)
    requires DistinctSequences(F + N) && T <= F && Above(N, F)
    requires forall k, t: nat :: t >= horizon ==> ReadAt(T, k, t) == ReadAt(F, k, t)
    ensures forall k, t: nat :: t >= horizon ==> ReadAt(T + N, k, t) == ReadAt(F + N, k, t)
  {
    hide NewestAt, Above;
    assert DistinctSequences(T + N);
    assert Above(N, T) by { AboveSubset(N, F, T); }
    AboveIsNewer(N, F);
    AboveIsNewer(N, T);
    assert T + N == N + T && F + N == N + F;
    forall k, t: nat | t >= horizon ensures ReadAt(T + N, k, t) == ReadAt(F + N, k, t) {
      NewerPartFirst(N, T, k, t);
      NewerPartFirst(N, F, k, t);
      assert ReadAt(T, k, t) == ReadAt(F, k, t);
    }
  }

  lemma AboveSubset(N: set<Entry>, F: set<Entry>, T: set<Entry>)
    requires Above(N, F) && T <= F
    ensures Above(N, T)
  {
  }

  lemma OneFileContents(f: File)
    ensures FilesContents({f}) == Contents(f.entries)
  {
  }

  // A flushed memtable may be added where PickLevelForMemTableOutput puts it.
  lemma FlushIsAddable(s: State, level: nat, f: File)
    requires GoodVersion(s.version) && MemoryInv(s) && NumbersInv(s) && s.imm.Some?
    requires ValidFile(f) && f.number == s.nextFile && f.entries == s.imm.value
    requires Placeable(s.version, level, f.smallest.user, f.largest.user)
    ensures Addable(s.version, level, {f}) && FilesContents({f}) == ImmContents(s)
  {
    hide GoodVersion, Placeable, DistinctSequences, VersionContents, ValidFile, NewerThan;
    OneFileContents(f);
    AboveSubset(ImmContents(s), s.flushed, VersionContents(s.version));
    AboveIsNewer(ImmContents(s), VersionContents(s.version));
    SubsetDistinct(VersionContents(s.version) + ImmContents(s), s.written);
    OneTableIsAddable(s.version, level, f);
  }

  lemma SubsetDistinct(S: set<Entry>, T: set<Entry>)
    requires DistinctSequences(T) && S <= T
    ensures DistinctSequences(S)
  {
  }

  lemma OneTableIsAddable(v: Version, level: nat, f: File)
    requires ValidFile(f) && Placeable(v, level, f.smallest.user, f.largest.user) && NumbersBelow(v, f.number)
    requires NewerThan(Contents(f.entries), VersionContents(v))
    requires DistinctSequences(VersionContents(v) + Contents(f.entries))
    ensures Addable(v, level, {f})
  {
    hide ValidFile, SomeOverlap, VersionContents, NewerThan, DistinctSequences;
    OneFileContents(f);
  }

  // What a flush adds.
  lemma FlushAdds(s: State, level: nat, tables: seq<File>, s': State)
    requires GoodVersion(s.version) && MemoryInv(s) && NumbersInv(s) && Flush(s, level, tables, s')
    ensures tables == [] || (level < NUM_LEVELS && Addable(s.version, level, Files(tables)))
    ensures Added(s.version, level, Files(tables), s'.version) && FilesContents(Files(tables)) == ImmContents(s)
    ensures forall f :: f in tables ==> f.number == s.nextFile
  {
    hide GoodVersion, MemoryInv, NumbersInv, Placeable, VersionContents, Applied, Addable;
    AddEditAdds(s.version, level, tables, s'.version);
    if s.imm.value == [] {
      assert ImmContents(s) == {} == FilesContents(Files(tables));
    } else {
      assert Files(tables) == {tables[0]};
      FlushIsAddable(s, level, tables[0]);
      AddableLevel(s.version, level, Files(tables));
    }
  }

  lemma AddableLevel(v: Version, level: nat, fs: set<File>)
    requires Addable(v, level, fs)
    ensures level < NUM_LEVELS
  {
    hide ValidFile, Placeable, VersionContents, NewerThan;
  }

  lemma NothingAdded(v: Version, level: nat, v': Version)
    requires Added(v, level, {}, v') && SortedLevels(v)
    ensures v' == v
  {
    forall l | 0 <= l < NUM_LEVELS ensures v'[l] == v[l] {
      SortedIsUnique(v'[l], v[l]);
    }
  }

  lemma FlushInstalls(s: State, level: nat, tables: seq<File>, s': State)
    requires GoodVersion(s.version) && MemoryInv(s) && NumbersInv(s) && Flush(s, level, tables, s')
    ensures GoodVersion(s'.version)
    ensures VersionContents(s'.version) == VersionContents(s.version) + ImmContents(s)
    ensures NumbersBelow(s'.version, s.nextFile + 1)
  {
    hide *;
    FlushAdds(s, level, tables, s');
    BelowNextFile(s);
    TablesBelow(tables, s.nextFile);
    AddedNumbersBelow(s.version, level, Files(tables), s'.version, s.nextFile + 1);
    if tables == [] {
      NoFiles(tables);
      GoodIsSorted(s.version);
      NothingAdded(s.version, level, s'.version);
    } else {
      AddedIsGood(s.version, level, Files(tables), s'.version);
      AddedContents(s.version, level, Files(tables), s'.version);
    }
  }

  lemma TablesBelow(tables: seq<File>, n: nat)
    requires forall f :: f in tables ==> f.number == n
    ensures forall f :: f in Files(tables) ==> f.number < n + 1
  {
  }

  lemma BelowNextFile(s: State)
    requires NumbersInv(s)
    ensures NumbersBelow(s.version, s.nextFile) && NumbersBelow(s.version, s.nextFile + 1)
  {
  }

  lemma NoFiles(files: seq<File>)
    requires files == []
    ensures Files(files) == {} && FilesContents(Files(files)) == {}
  {
  }

  lemma GoodIsSorted(v: Version)
    requires GoodVersion(v)
    ensures SortedLevels(v)
  {
  }

  lemma AddEditIsValid(level: nat, tables: seq<File>)
    requires tables == [] || level < NUM_LEVELS
    ensures ValidEdit(AddEdit(level, tables)) && AddEdit(level, tables).comparator == None
    ensures FilesOf(AddEdit(level, tables).added) == Files(tables)
  {
    FilesAtLevel(level, tables);
  }

  lemma FlushKeepsManifest(s: State, level: nat, tables: seq<File>, s': State)
    requires ManifestInv(s) && NumbersInv(s) && Flush(s, level, tables, s')
    ensures ManifestInv(s')
  {
    hide Replays, NeverReused, ValidEdit, FilesAdded, FoundNumbers, NumbersOf, LogAndApply, NumbersBelow, ValidFile;
    hide AddEdit;
    AddEditIsValid(level, tables);
    FewTables(tables);
    KnownFiles(s);
    NewNumbers(FilesAdded(s.edits), Files(tables), s.nextFile);
    hide ManifestInv;
    ManifestGrows(s, AddEdit(level, tables), s');
  }

  lemma FewTables(tables: seq<File>)
    requires |tables| <= 1
    ensures OneFilePerNumber(Files(tables)) && forall f :: f in Files(tables) ==> f == tables[0]
  {
  }

  lemma KnownFiles(s: State)
    requires ManifestInv(s)
    ensures OneFilePerNumber(FilesAdded(s.edits)) && FileNumbersBelow(FilesAdded(s.edits), s.manifest.nextFile)
    ensures NumbersInv(s) ==> FileNumbersBelow(FilesAdded(s.edits), s.nextFile)
  {
    hide Replays, ValidEdit, FilesAdded, FoundNumbers, NumbersOf;
  }

  lemma AddedNumbersBelow(v: Version, target: nat, fs: set<File>, v': Version, n: nat)
    requires Added(v, target, fs, v') && NumbersBelow(v, n) && forall f :: f in fs ==> f.number < n
    ensures NumbersBelow(v', n)
  {
    forall l, f | 0 <= l < NUM_LEVELS && f in v'[l] ensures f.number < n {
      assert f in Files(v'[l]);
    }
  }

  lemma FlushKeepsInv(s: State, level: nat, tables: seq<File>, s': State)
    requires Inv(s) && Flush(s, level, tables, s')
    ensures Inv(s')
  {
    hide GoodVersion, Placeable, VersionContents, ReadAt, LiveLogs, ManifestInv, LogAndApply;
    FlushKeepsManifest(s, level, tables, s');
    FlushInstalls(s, level, tables, s');
    assert DistinctSequences(s.flushed + ImmContents(s));
    SameGrowthAgrees(VersionContents(s.version), s.flushed, ImmContents(s), s.horizon);
    NoLiveLogs(s.logs[..|s.logs| - 1], LastLog(s).number);
    FlushKeepsRest(s, level, tables, s');
  }

  lemma FlushKeepsMemory(s: State, level: nat, tables: seq<File>, s': State)
    requires MemoryInv(s) && NumbersInv(s) && Flush(s, level, tables, s')
    requires VersionContents(s'.version) == VersionContents(s.version) + ImmContents(s)
    ensures MemoryInv(s') && UpTo(s'.flushed, s.lastSequence)
  {
    hide Placeable, VersionContents, LogAndApply, NumbersBelow, Sorted, DistinctSequences;
    assert ImmContents(s') == {};
  }

  lemma FlushKeepsRest(s: State, level: nat, tables: seq<File>, s': State)
    requires MemoryInv(s) && NumbersInv(s) && LogsInv(s) && Flush(s, level, tables, s')
    requires VersionContents(s'.version) == VersionContents(s.version) + ImmContents(s)
    requires NumbersBelow(s'.version, s.nextFile + 1)
    requires LiveLogs(s.logs[..|s.logs| - 1], LastLog(s).number) == []
    ensures MemoryInv(s') && NumbersInv(s') && LogsInv(s')
  {
    hide MemoryInv, NumbersInv, LogsInv, Flush;
    FlushKeepsMemory(s, level, tables, s');
    FlushKeepsNumbers(s, level, tables, s');
    FlushKeepsLogs(s, level, tables, s');
  }

  lemma FlushKeepsNumbers(s: State, level: nat, tables: seq<File>, s': State)
    requires MemoryInv(s) && NumbersInv(s) && Flush(s, level, tables, s')
    requires NumbersBelow(s'.version, s.nextFile + 1)
    ensures NumbersInv(s')
  {
    hide Placeable, VersionContents, LogAndApply, NumbersBelow, Sorted, DistinctSequences, Above;
    assert ImmContents(s) <= s.written;
  }

  lemma FlushKeepsLogs(s: State, level: nat, tables: seq<File>, s': State)
    requires LogsInv(s) && Flush(s, level, tables, s')
    requires LiveLogs(s.logs[..|s.logs| - 1], LastLog(s).number) == []
    ensures LogsInv(s')
  {
    hide Placeable, VersionContents, LiveLogs, LogAndApply, NumbersBelow, Sorted, DistinctSequences;
    hide LaterRecordsAbove, LogsContents, RecordsContents;
    EmptyRecords();
    assert ImmContents(s') == {};
    LiveSplit(s.logs, s.manifest.logNumber);
    LiveSplit(s.logs, LastLog(s).number);
    LaterRecordsSuffix(AllRecords(LiveLogs(s.logs[..|s.logs| - 1], s.manifest.logNumber)), LastLog(s).records);
    assert AllRecords(LiveLogs(s.logs, LastLog(s).number)) == LastLog(s).records;
  }

  // ----- TrivialMove and Compact --------------------------------------------------------------

  lemma TrivialMoveFits(v: Version, c: Compaction)
    requires GoodVersion(v) && GoodCompaction(v, c) && |c.inputs0| == 1 && c.inputs1 == []
    ensures GoodOutputs(c, c.inputs0) && NumbersFit(v, c, c.inputs0)
  {
    InputsAreMembers(v, c);
    var f := c.inputs0[0];
    assert f in v[c.level];
    assert DistinctNumbers(v);
  }

  lemma InstalledNumbersBelow(v: Version, c: Compaction, outputs: seq<File>, v': Version, n: nat)
    requires Installed(v, c, outputs, v') && NumbersBelow(v, n) && forall o :: o in outputs ==> o.number < n
    ensures NumbersBelow(v', n)
  {
    forall l, f | 0 <= l < NUM_LEVELS && f in v'[l] ensures f.number < n {
      assert f in Files(v'[l]) && f in LevelAfter(v, c, outputs, l);
    }
  }

  lemma TrivialMoveContents(v: Version, c: Compaction, v': Version)
    requires GoodVersion(v) && GoodCompaction(v, c) && |c.inputs0| == 1 && c.inputs1 == []
    requires Installed(v, c, c.inputs0, v')
    ensures VersionContents(v') == VersionContents(v)
  {
    hide GoodVersion, GoodCompaction, Installed, VersionContents, SortedDisjoint, GoodOutputs;
    TrivialMoveFits(v, c);
    InstalledSplitsContents(v, c, c.inputs0, v');
    assert InputContents(c) == LevelContents(c.inputs0);
  }

  lemma MoveInstalls(s: State, c: Compaction, s': State)
    requires GoodVersion(s.version) && TrivialMove(s, c, s')
    ensures Installed(s.version, c, c.inputs0, s'.version)
  {
    hide GoodVersion, GoodCompaction, Installed, GoodOutputs, NumbersFit, Applied, CompactionEdit;
    TrivialMoveFits(s.version, c);
    CompactionEditInstalls(s.version, c, c.inputs0, s'.version);
  }

  lemma TrivialMoveKeepsInv(s: State, c: Compaction, s': State)
    requires Inv(s) && TrivialMove(s, c, s')
    ensures Inv(s')
  {
    hide GoodVersion, GoodCompaction, Installed, VersionContents, ReadAt, LogsInv, GoodOutputs, NumbersFit;
    hide ManifestInv, LogAndApply;
    TrivialMoveFits(s.version, c);
    MoveInstalls(s, c, s');
    InstalledIsGood(s.version, c, c.inputs0, s'.version);
    TrivialMoveContents(s.version, c, s'.version);
    MovedNumbers(s.version, c, s.manifest.nextFile);
    InstalledNumbersBelow(s.version, c, c.inputs0, s'.version, s.nextFile);
    SameLogs(s, s');
    MoveKeepsManifest(s, c, s');
  }

  lemma CompactionEditIsValid(c: Compaction, outputs: seq<File>)
    requires c.level + 1 < NUM_LEVELS
    ensures ValidEdit(CompactionEdit(c, outputs)) && CompactionEdit(c, outputs).comparator == None
    ensures FilesOf(CompactionEdit(c, outputs).added) == Files(outputs)
  {
    FilesAtLevel(c.level + 1, outputs);
  }

  lemma MoveKeepsManifest(s: State, c: Compaction, s': State)
    requires ManifestInv(s) && NumbersInv(s) && TrivialMove(s, c, s')
    ensures ManifestInv(s')
  {
    hide Replays, NeverReused, ValidEdit, FilesAdded, FoundNumbers, NumbersOf, LogAndApply, NumbersBelow;
    hide CompactionEdit;
    hide OlderGoesFirst, Separated, SameUserRange;
    CompactionEditIsValid(c, c.inputs0);
    KnownFiles(s);
    VersionIsInManifest(s.edits, s.version, c.level);
    assert FilesAdded(s.edits) + Files(c.inputs0) == FilesAdded(s.edits);
    hide ManifestInv;
    ManifestGrows(s, CompactionEdit(c, c.inputs0), s');
  }

  lemma MovedNumbers(v: Version, c: Compaction, n: nat)
    requires GoodCompaction(v, c) && NumbersBelow(v, n)
    ensures forall o :: o in c.inputs0 ==> o.number < n
  {
  }

  // LogsInv does not look at the version.
  lemma SameLogs(s: State, s': State)
    requires LogsInv(s) && s'.logs == s.logs && s'.mem == s.mem && s'.imm == s.imm && s'.written == s.written
    requires s'.nextFile >= s.nextFile && s'.manifest.logNumber == s.manifest.logNumber
    ensures LogsInv(s')
  {
  }

  lemma CompactOutputsFit(s: State, c: Compaction, outputs: seq<File>, s': State)
    requires NumbersInv(s) && Compact(s, c, outputs, s')
    ensures GoodOutputs(c, outputs) && NumbersFit(s.version, c, outputs)
  {
    forall o, l, g | o in outputs && 0 <= l < NUM_LEVELS && g in s.version[l] ensures g.number != o.number {
      assert g.number < s.manifest.nextFile;
    }
  }

  lemma CompactInstalls(s: State, c: Compaction, outputs: seq<File>, s': State)
    requires GoodVersion(s.version) && Compact(s, c, outputs, s') && NumbersFit(s.version, c, outputs)
    ensures Installed(s.version, c, outputs, s'.version)
  {
    hide GoodVersion, GoodCompaction, Installed, NumbersFit, Applied, CompactionEdit, CompactedOutputs;
    hide OneFilePerNumber;
    CompactionEditInstalls(s.version, c, outputs, s'.version);
  }

  lemma CompactKeepsManifest(s: State, c: Compaction, outputs: seq<File>, s': State)
    requires ManifestInv(s) && NumbersInv(s) && Compact(s, c, outputs, s')
    ensures ManifestInv(s')
  {
    hide Replays, NeverReused, ValidEdit, FilesAdded, FoundNumbers, NumbersOf, LogAndApply, NumbersBelow;
    hide CompactionEdit;
    hide OlderGoesFirst, Separated, SameUserRange, CompactedOutputs, OneFilePerNumber;
    CompactionEditIsValid(c, outputs);
    KnownFiles(s);
    NewNumbers(FilesAdded(s.edits), Files(outputs), s.nextFile);
    hide ManifestInv;
    ManifestGrows(s, CompactionEdit(c, outputs), s');
  }

  lemma CompactKeepsReads(s: State, c: Compaction, outputs: seq<File>, s': State)
    requires Inv(s) && Compact(s, c, outputs, s') && UncoversNothing(s, c)
    requires Installed(s.version, c, outputs, s'.version)
    ensures TablesAgree(s')
  {
    hide ManifestInv, LogAndApply;
    hide GoodVersion, GoodCompaction, Installed, VersionContents, ReadAt, CompactedOutputs, LogsInv;
    hide MemoryInv, Uncovers;
    forall k, t: nat | t >= s'.horizon ensures ReadAt(VersionContents(s'.version), k, t) == ReadAt(s.flushed, k, t) {
      CompactionPreservesReads(s.version, c, SmallestSnapshot(s), outputs, s'.version, k);
      assert !Uncovers(s.version, c, SmallestSnapshot(s), k);
      assert ReadAt(VersionContents(s'.version), k, t) == ReadAt(VersionContents(s.version), k, t);
      assert ReadAt(VersionContents(s.version), k, t) == ReadAt(s.flushed, k, t);
    }
  }

  lemma CompactKeepsInv(s: State, c: Compaction, outputs: seq<File>, s': State)
    requires Inv(s) && Compact(s, c, outputs, s') && UncoversNothing(s, c)
    ensures Inv(s')
  {
    hide GoodVersion, GoodCompaction, Installed, VersionContents, ReadAt, LogsInv, GoodOutputs, NumbersFit;
    hide CompactedOutputs, UncoversNothing, ManifestInv, LogAndApply;
    CompactOutputsFit(s, c, outputs, s');
    CompactInstalls(s, c, outputs, s');
    InstalledIsGood(s.version, c, outputs, s'.version);
    InstalledContents(s.version, c, outputs, s'.version);
    InstalledNumbersBelow(s.version, c, outputs, s'.version, s'.nextFile);
    CompactKeepsReads(s, c, outputs, s');
    SameLogs(s, s');
    CompactKeepsManifest(s, c, outputs, s');
  }

  // ----- snapshots and obsolete logs ---------------------------------------------------------------

  lemma SnapshotsKeepInv(s: State, i: nat, s': State)
    requires Inv(s) && (GetSnapshot(s, s') || ReleaseSnapshot(s, i, s'))
    ensures Inv(s')
  {
    hide GoodVersion, VersionContents, ReadAt, ManifestInv;
    SameLogs(s, s');
    SameManifest(s, s');
  }

  lemma {:induction false} AllLive(logs: seq<Log>, n: nat)
    requires forall i :: 0 <= i < |logs| ==> logs[i].number >= n
    ensures LiveLogs(logs, n) == logs
  {
    if logs != [] {
      AllLive(logs[1..], n);
      assert logs == [logs[0]] + logs[1..];
    }
  }

  // Deleting the logs below the manifest's log number loses nothing.
  lemma DeleteKeepsInv(s: State, s': State)
    requires Inv(s) && DeleteObsoleteLogs(s, s')
    ensures Inv(s')
  {
    hide GoodVersion, VersionContents, ReadAt, MemoryInv, NumbersInv, TablesAgree, LogsInv, ManifestInv;
    SameManifest(s, s');
    DeleteKeepsLogs(s, s');
    SameStore(s, s');
  }

  lemma SameStore(s: State, s': State)
    requires MemoryInv(s) && NumbersInv(s) && TablesAgree(s) && s' == s.(logs := s'.logs)
    ensures MemoryInv(s') && NumbersInv(s') && TablesAgree(s')
  {
  }

  lemma {:induction false} LiveLogsAscend(logs: seq<Log>, n: nat)
    requires AscendingLogs(logs)
    ensures AscendingLogs(LiveLogs(logs, n))
  {
    if logs != [] {
      var rest := LiveLogs(logs[1..], n);
      assert AscendingLogs(logs[1..]);
      LiveLogsAscend(logs[1..], n);
      LiveLogsMembers(logs[1..], n);
      forall i | 0 <= i < |rest| ensures logs[0].number < rest[i].number {
        assert rest[i] in rest && rest[i] in logs[1..];
        var j :| 1 <= j < |logs| && logs[j] == rest[i];
      }
      assert AscendingLogs([logs[0]] + rest);
    }
  }

  lemma DeleteKeepsLogs(s: State, s': State)
    requires LogsInv(s) && DeleteObsoleteLogs(s, s')
    ensures LogsInv(s')
  {
    hide LaterRecordsAbove, AllRecords, LogsContents, RecordsContents, Contents, LiveLogs;
    var n, live := s.manifest.logNumber, s'.logs;
    LiveSplit(s.logs, n);
    LiveLogsAscend(s.logs, n);
    LiveLogsMembers(s.logs, n);
    forall i | 0 <= i < |live| ensures n <= live[i].number < s.nextFile {
      assert live[i] in live && live[i] in s.logs;
    }
    AllLive(live, n);
    AllLive(live[..|live| - 1], n);
    assert live[..|live| - 1] == LiveLogs(s.logs[..|s.logs| - 1], n);
  }

  // ----- CrashAndRecover ------------------------------------------------------------------------------

  // What recovery replays of the memtables is what the cut logs still hold.
  lemma ReplayContents(s: State, keep: seq<nat>)
    requires MemoryInv(s) && LogsInv(s) && IsCut(s.logs, keep)
    ensures var replay := LogsContents(LiveLogs(Truncate(s.logs, keep), s.manifest.logNumber));
      var lost := LostEntries(s.logs, keep, s.manifest.logNumber);
      && ImmContents(s) + Contents(s.mem) == replay + lost && replay !! lost
      && replay + lost <= s.written && Above(replay, s.flushed) && Above(lost, s.flushed)
  {
    LiveIsWritten(s);
    hide LiveLogs, LogsContents, LaterRecordsAbove, RecordsContents, AllRecords, LostEntries;
    CutSplits(s.logs, keep, s.manifest.logNumber);
  }

  // Replaying the manifest finds the current version and the recorded numbers.
  lemma ReplayFinds(s: State, base: Version)
    requires ManifestInv(s) && Replays(s.edits, base)
    ensures base == s.version && FoundNumbers(s.edits) == Some(s.manifest)
  {
    hide Replays, NeverReused, ValidEdit, FilesAdded, FoundNumbers, NumbersOf;
    ReplayIsUnique(s.edits, base, s.version);
  }

  // A crash loses the writes of the records cut off the live logs, and nothing
  // else.  They are the newest writes if and only if no log that lost some has a
  // later one with some left; otherwise a middle stretch is lost.
  lemma RecoveryLosesTheCut(s: State, keep: seq<nat>, base: Version, tables: seq<File>, s': State)
    requires Inv(s) && CrashAndRecover(s, keep, base, tables, s')
    ensures IsCut(s.logs, keep)
    ensures s'.written == s.written - LostEntries(s.logs, keep, s.manifest.logNumber)
    ensures Above(s.written - s'.written, s'.written) <==> NoGap(s.logs, keep, s.manifest.logNumber)
  {
    hide *;
    RecoverStarts(s, keep, base, tables, s');
    RecoveredFields(s, keep, base, tables, s');
    LiveRecordsAscend(s);
    Parts(s);
    ReplayContents(s, keep);
    WrittenParts(s);
    LostIsNewestIff(s.logs, keep, s.manifest.logNumber);
    var lost := LostEntries(s.logs, keep, s.manifest.logNumber);
    var replay := LogsContents(LiveLogs(Truncate(s.logs, keep), s.manifest.logNumber));
    AboveApart(lost, s.flushed);
    AboveBoth(lost, s.flushed, replay);
    WhatIsLost(s.written, s.flushed, replay, lost);
  }

  lemma WhatIsLost(written: set<Entry>, flushed: set<Entry>, replay: set<Entry>, lost: set<Entry>)
    requires written == flushed + (replay + lost) && lost !! flushed && replay !! lost
    ensures flushed + replay == written - lost && written - (flushed + replay) == lost
  {
  }

  lemma LiveRecordsAscend(s: State)
    requires Inv(s)
    ensures LaterRecordsAbove(AllRecords(LiveLogs(s.logs, s.manifest.logNumber)))
  {
    hide GoodVersion, MemoryInv, NumbersInv, TablesAgree, ManifestInv, LaterRecordsAbove, AllRecords, LiveLogs;
  }

  lemma WrittenParts(s: State)
    requires MemoryInv(s)
    ensures s.written == s.flushed + (ImmContents(s) + Contents(s.mem))
  {
  }

  lemma AboveBoth(A: set<Entry>, B: set<Entry>, C: set<Entry>)
    requires Above(A, B)
    ensures Above(A, B + C) <==> Above(A, C)
  {
  }

  lemma RecoveredIsAddable(s: State, keep: seq<nat>, tables: seq<File>, replay: set<Entry>, n: nat)
    requires GoodVersion(s.version) && MemoryInv(s) && NumbersInv(s)
    requires RecoveredTables(replay, tables, s.manifest.nextFile, n)
    requires replay <= s.written && Above(replay, s.flushed)
    ensures Addable(s.version, 0, Files(tables)) && FilesContents(Files(tables)) == replay
  {
    hide GoodVersion, MemoryInv, Placeable, DistinctSequences, VersionContents, ValidFile, NewerThan, LevelContents;
    LevelIsFilesContents(tables);
    TablesByNumber(tables);
    AboveSubset(replay, s.flushed, VersionContents(s.version)) by { VersionIsFlushed(s); }
    AboveIsNewer(replay, VersionContents(s.version));
    VersionIsFlushed(s);
    SubsetDistinct(VersionContents(s.version) + replay, s.written);
    forall f | f in Files(tables) ensures Placeable(s.version, 0, f.smallest.user, f.largest.user) {
      PlaceableAtTop(s.version, f.smallest.user, f.largest.user);
    }
    TablesAddable(s.version, tables, s.manifest.nextFile, n);
  }

  lemma PlaceableAtTop(v: Version, lo: UserKey, hi: UserKey)
    ensures Placeable(v, 0, lo, hi)
  {
  }

  lemma VersionIsFlushed(s: State)
    requires MemoryInv(s)
    ensures VersionContents(s.version) <= s.flushed <= s.written && DistinctSequences(s.written)
  {
  }

  lemma TablesByNumber(tables: seq<File>)
    requires forall i, j :: 0 <= i < j < |tables| ==>
      tables[i].number < tables[j].number && Above(Contents(tables[j].entries), Contents(tables[i].entries))
    ensures OneFilePerNumber(Files(tables))
    ensures forall f, g :: f in tables && g in tables && f.number > g.number ==>
      NewerThan(Contents(f.entries), Contents(g.entries))
  {
    forall f, g | f in tables && g in tables
      ensures f.number == g.number ==> f == g
      ensures f.number > g.number ==> NewerThan(Contents(f.entries), Contents(g.entries))
    {
      var i :| 0 <= i < |tables| && tables[i] == f;
      var j :| 0 <= j < |tables| && tables[j] == g;
      if f.number > g.number {
        assert j < i;
        AboveIsNewer(Contents(f.entries), Contents(g.entries));
      }
    }
  }

  lemma TablesAddable(v: Version, tables: seq<File>, first: nat, n: nat)
    requires ValidFiles(tables) && NumbersBelow(v, first)
    requires forall i :: 0 <= i < |tables| ==> first <= tables[i].number < n
    requires OneFilePerNumber(Files(tables))
    requires forall f, g :: f in tables && g in tables && f.number > g.number ==>
      NewerThan(Contents(f.entries), Contents(g.entries))
    requires forall f :: f in Files(tables) ==> Placeable(v, 0, f.smallest.user, f.largest.user)
    requires NewerThan(FilesContents(Files(tables)), VersionContents(v))
    requires DistinctSequences(VersionContents(v) + FilesContents(Files(tables)))
    ensures Addable(v, 0, Files(tables))
  {
    hide Placeable, NewerThan, VersionContents, FilesContents, DistinctSequences;
  }

  // What recovery starts from is what the crashed store had.
  lemma RecoverStarts(s: State, keep: seq<nat>, base: Version, tables: seq<File>, s': State)
    requires Inv(s) && CrashAndRecover(s, keep, base, tables, s')
    ensures base == s.version && FoundNumbers(s.edits) == Some(s.manifest)
    ensures var replay := LogsContents(LiveLogs(Truncate(s.logs, keep), s.manifest.logNumber));
      && RecoveredTables(replay, tables, s.manifest.nextFile, s'.manifest.nextFile)
      && IsLastSequence(s'.lastSequence, s.manifest.lastSequence, replay)
      && s'.written == s'.flushed == s.flushed + replay
    ensures Applied(s.version, AddEdit(0, tables), s'.version) && Added(s.version, 0, Files(tables), s'.version)
    ensures s'.edits == [SnapshotEdit(s.comparator, ReplayPointers(s.edits), s.version),
      Stamped(AddEdit(0, tables), s'.manifest)]
  {
    hide GoodVersion, MemoryInv, NumbersInv, TablesAgree, LogsInv, LiveLogs, LogsContents, RecoveredTables;
    hide IsLastSequence;
    hide Added, Applied, Replays, FoundNumbers, SnapshotEdit, Stamped, AddEdit, ReplayPointers, LogNumbersBelow;
    hide Truncate;
    ReplayFinds(s, base);
    hide ManifestInv;
    AddEditAdds(base, 0, tables, s'.version);
  }

  lemma RecoverKeepsInv(s: State, keep: seq<nat>, base: Version, tables: seq<File>, s': State)
    requires Inv(s) && CrashAndRecover(s, keep, base, tables, s')
    ensures Inv(s')
  {
    RecoverStarts(s, keep, base, tables, s');
    RecoveredFields(s, keep, base, tables, s');
    hide GoodVersion, VersionContents, ReadAt, LiveLogs, LogsContents, RecordsContents, RecoveredTables;
    hide CrashAndRecover;
    hide Added, Applied, LaterRecordsAbove, Sorted, ManifestInv, SnapshotEdit, Stamped, AddEdit, ReplayPointers;
    hide FoundNumbers;
    var logs := Truncate(s.logs, keep);
    var replay := LogsContents(LiveLogs(logs, s.manifest.logNumber));
    ReplayContents(s, keep);
    assert Above(replay, s.flushed) && replay <= s.written;
    RecoveredIsAddable(s, keep, tables, replay, s'.manifest.nextFile);
    AddedIsGood(s.version, 0, Files(tables), s'.version);
    AddedContents(s.version, 0, Files(tables), s'.version);
    SubsetDistinct(s.flushed + replay, s.written);
    SameGrowthAgrees(VersionContents(s.version), s.flushed, replay, s.horizon);
    RecoveredNumbers(s, tables, replay, s');
    RecoveredLogs(s, keep, s');
    RecoveredMemory(s, replay, s');
    RecoveredManifest(s, tables, replay, s');
  }

  lemma RecoveredFields(s: State, keep: seq<nat>, base: Version, tables: seq<File>, s': State)
    requires Inv(s) && CrashAndRecover(s, keep, base, tables, s') && FoundNumbers(s.edits) == Some(s.manifest)
    ensures IsCut(s.logs, keep) && s'.comparator == s.comparator
    ensures s'.mem == [] && s'.imm == None && s'.snapshots == [] && s'.horizon == s.horizon
    ensures s'.logs == Truncate(s.logs, keep) + [Log(s'.manifest.logNumber, [])]
    ensures LogNumbersBelow(s.logs, s'.manifest.logNumber)
    ensures s'.manifest.lastSequence == s'.lastSequence && s'.manifest.nextFile == s'.nextFile >= s.manifest.nextFile
    ensures s'.manifest.logNumber < s'.nextFile
  {
    hide Inv, LiveLogs, LogsContents, RecoveredTables, IsLastSequence, Truncate, LogNumbersBelow;
    hide Applied, Replays, FoundNumbers, SnapshotEdit, Stamped, AddEdit, ReplayPointers;
  }

  // The new manifest replays to the new version.
  lemma RecoveredManifest(s: State, tables: seq<File>, replay: set<Entry>, s': State)
    requires GoodVersion(s.version) && NumbersInv(s)
    requires RecoveredTables(replay, tables, s.manifest.nextFile, s'.manifest.nextFile)
    requires s'.comparator == s.comparator && s'.manifest.nextFile >= s.manifest.nextFile
    requires s'.edits == [SnapshotEdit(s.comparator, ReplayPointers(s.edits), s.version),
      Stamped(AddEdit(0, tables), s'.manifest)]
    requires Applied(s.version, AddEdit(0, tables), s'.version)
    ensures ManifestInv(s')
  {
    BelowRecorded(s);
    hide *;
    var snapshot := SnapshotEdit(s.comparator, ReplayPointers(s.edits), s.version);
    SnapshotIsRecord(s.comparator, ReplayPointers(s.edits), s.version, s.manifest.nextFile);
    AddEditIsValid(0, tables);
    TableNumbers(replay, tables, s.manifest.nextFile, s'.manifest.nextFile);
    NewNumbers(FilesAdded([snapshot]), Files(tables), s.manifest.nextFile);
    FewNumbersBelow(FilesAdded([snapshot]), s.manifest.nextFile, s'.manifest.nextFile);
    TwoRecords(snapshot, s.version, AddEdit(0, tables), s');
  }

  lemma BelowRecorded(s: State)
    requires NumbersInv(s)
    ensures NumbersBelow(s.version, s.manifest.nextFile)
  {
  }

  lemma FewNumbersBelow(fs: set<File>, n: nat, m: nat)
    requires FileNumbersBelow(fs, n) && n <= m
    ensures FileNumbersBelow(fs, m)
  {
  }

  lemma SnapshotIsRecord(comparator: Bytes, ps: Pointers, v: Version, n: nat)
    requires GoodVersion(v) && NumbersBelow(v, n)
    ensures var snapshot := SnapshotEdit(comparator, ps, v);
      && ValidEdit(snapshot) && snapshot.comparator == Some(comparator) && Replays([snapshot], v)
      && OneFilePerNumber(FilesAdded([snapshot])) && FileNumbersBelow(FilesAdded([snapshot]), n)
  {
    GoodIsSorted(v);
    SnapshotReplays(comparator, ps, v);
    hide GoodVersion, ValidEdit, FilesAdded, SnapshotPointers, SnapshotFiles, Replays;
    VersionNumbers(v, FilesAdded([SnapshotEdit(comparator, ps, v)]), n);
  }

  lemma TableNumbers(replay: set<Entry>, tables: seq<File>, first: nat, next: nat)
    requires RecoveredTables(replay, tables, first, next)
    ensures OneFilePerNumber(Files(tables)) && FileNumbersBelow(Files(tables), next)
    ensures forall f :: f in Files(tables) ==> f.number >= first
  {
    hide LevelContents, Above, ValidFiles;
    TablesByNumber(tables);
  }

  lemma TwoRecords(first: VersionEdit, v: Version, edit: VersionEdit, s: State)
    requires s.edits == [first, Stamped(edit, s.manifest)]
    requires ValidEdit(first) && first.comparator == Some(s.comparator) && Replays([first], v)
    requires ValidEdit(edit) && edit.comparator == None && Applied(v, edit, s.version)
    requires OneFilePerNumber(FilesAdded([first]) + FilesOf(edit.added))
    requires FileNumbersBelow(FilesAdded([first]), s.manifest.nextFile)
    requires FileNumbersBelow(FilesOf(edit.added), s.manifest.nextFile)
    ensures ManifestInv(s)
  {
    var last := Stamped(edit, s.manifest);
    assert last.comparator == None;
    SplitPair(first, last);
    StampedNumbers([first], edit, s.manifest);
    FilesBelowBoth(FilesAdded([first]), FilesOf(edit.added), s.manifest.nextFile);
    IsNeverReused(s.edits);
    hide *;
    ReplayExtends([first], v, last, s.version);
    ManifestParts(first, last, s);
  }

  lemma SplitPair(first: VersionEdit, last: VersionEdit)
    ensures [first] + [last] == [first, last]
  {
  }

  lemma IsNeverReused(edits: seq<VersionEdit>)
    ensures NeverReused(edits) <==> OneFilePerNumber(FilesAdded(edits))
  {
  }

  lemma FilesBelowBoth(a: set<File>, b: set<File>, n: nat)
    ensures FileNumbersBelow(a, n) && FileNumbersBelow(b, n) ==> FileNumbersBelow(a + b, n)
  {
  }

  lemma ManifestParts(first: VersionEdit, last: VersionEdit, s: State)
    requires s.edits == [first, last] && ValidEdit(first) && ValidEdit(last)
    requires first.comparator == Some(s.comparator) && last.comparator == None
    requires NeverReused(s.edits) && FileNumbersBelow(FilesAdded(s.edits), s.manifest.nextFile)
    requires Replays(s.edits, s.version)
    requires FoundNumbers(s.edits) == Some(s.manifest) && NumbersOf(s.edits).prevLogNumber == Some(0)
    ensures ManifestInv(s)
  {
    hide ValidEdit, NeverReused, FileNumbersBelow, FilesAdded, Replays, FoundNumbers, NumbersOf;
  }

  lemma VersionNumbers(v: Version, fs: set<File>, n: nat)
    requires GoodVersion(v) && NumbersBelow(v, n)
    requires forall f :: f in fs <==> exists l :: 0 <= l < NUM_LEVELS && f in v[l]
    ensures OneFilePerNumber(fs) && FileNumbersBelow(fs, n)
  {
    hide OrderedVersion, SortedLevels;
  }

  lemma RecoveredMemory(s: State, replay: set<Entry>, s': State)
    requires MemoryInv(s) && replay <= s.written && s'.mem == [] && s'.imm == None
    requires s'.written == s'.flushed == s.flushed + replay
    requires VersionContents(s'.version) == VersionContents(s.version) + replay
    ensures MemoryInv(s')
  {
    hide VersionContents;
    EmptyRecords();
  }

  lemma RecoveredNumbers(s: State, tables: seq<File>, replay: set<Entry>, s': State)
    requires NumbersInv(s) && replay <= s.written
    requires RecoveredTables(replay, tables, s.manifest.nextFile, s'.nextFile)
    requires Added(s.version, 0, Files(tables), s'.version)
    requires IsLastSequence(s'.lastSequence, s.manifest.lastSequence, replay)
    requires s'.manifest.lastSequence == s'.lastSequence && s'.manifest.nextFile == s'.nextFile >= s.manifest.nextFile
    requires s'.written == s'.flushed == s.flushed + replay && s'.snapshots == [] && s'.horizon == s.horizon
    ensures NumbersInv(s')
  {
    hide Above, LevelContents;
    AddedNumbersBelow(s.version, 0, Files(tables), s'.version, s'.nextFile);
  }

  lemma RecoveredLogs(s: State, keep: seq<nat>, s': State)
    requires LogsInv(s) && IsCut(s.logs, keep) && s'.mem == [] && s'.imm == None
    requires s'.logs == Truncate(s.logs, keep) + [Log(s'.manifest.logNumber, [])]
    requires LogNumbersBelow(s.logs, s'.manifest.logNumber)
    requires s'.manifest.logNumber < s'.nextFile
    ensures LogsInv(s')
  {
    hide LiveLogs, LogsContents, LaterRecordsAbove, RecordsContents, AscendingLogs, LogNumbersBelow, Contents;
    LogNumbersAfterCrash(s, keep, s');
    var t, n := Truncate(s.logs, keep), s'.manifest.logNumber;
    assert s'.logs[..|s'.logs| - 1] == t;
    NoLiveLogs(t, n);
    LiveSplit(s'.logs, n);
    EmptyRecords();
    assert AllRecords(LiveLogs(s'.logs, n)) == [];
    NoRecordsAbove();
  }

  lemma LogNumbersAfterCrash(s: State, keep: seq<nat>, s': State)
    requires s.logs != [] && IsCut(s.logs, keep) && AscendingLogs(s.logs)
    requires s'.logs == Truncate(s.logs, keep) + [Log(s'.manifest.logNumber, [])]
    requires LogNumbersBelow(s.logs, s'.manifest.logNumber) && s'.manifest.logNumber < s'.nextFile
    ensures AscendingLogs(s'.logs) && LogNumbersBelow(s'.logs, s'.nextFile)
    ensures LogNumbersBelow(Truncate(s.logs, keep), s'.manifest.logNumber)
  {
    var t := Truncate(s.logs, keep);
    assert forall i :: 0 <= i < |t| ==> t[i].number == s.logs[i].number;
  }

  // The records that survive a crash still ascend.
  lemma TruncatedLogsAscend(s: State, keep: seq<nat>)
    requires LogsInv(s) && IsCut(s.logs, keep)
    ensures LaterRecordsAbove(AllRecords(LiveLogs(Truncate(s.logs, keep), s.manifest.logNumber)))
  {
    hide LiveLogs, LogsContents, LaterRecordsAbove, RecordsContents, AllRecords, LostEntries, Truncate;
    CutSplits(s.logs, keep, s.manifest.logNumber);
  }

  // A number above those of the live logs is above those of all logs.
  lemma LogsBelowLive(s: State, keep: seq<nat>, next: nat)
    requires LogsInv(s) && IsCut(s.logs, keep)
    requires forall log :: log in LiveLogs(Truncate(s.logs, keep), s.manifest.logNumber) ==> log.number < next
    ensures LogNumbersBelow(s.logs, next)
  {
    hide LogsContents, LaterRecordsAbove, RecordsContents, AllRecords, LiveLogs;
    var t, n := Truncate(s.logs, keep), |s.logs| - 1;
    LiveLogsMembers(t, s.manifest.logNumber);
    assert t[n] in t && t[n].number == s.logs[n].number;
  }

  lemma WiderNumbers(replay: set<Entry>, tables: seq<File>, first: nat, next: nat, first': nat, next': nat)
    requires RecoveredTables(replay, tables, first, next) && first' <= first && next <= next'
    ensures RecoveredTables(replay, tables, first', next')
  {
  }

  // What a crash leaves to replay was written after everything in tables.
  lemma ReplayIsNewer(s: State, keep: seq<nat>)
    requires MemoryInv(s) && LogsInv(s) && IsCut(s.logs, keep)
    ensures var replay := LogsContents(LiveLogs(Truncate(s.logs, keep), s.manifest.logNumber));
      replay <= s.written && Above(replay, s.flushed)
  {
    hide LiveLogs, LogsContents, RecordsContents, LaterRecordsAbove;
    ReplayContents(s, keep);
  }
}
