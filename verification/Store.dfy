/**
 The store as a state machine over its mutex boundaries (db/db_impl.cc): every
 write, memtable switch, flush, trivial move, compaction, snapshot and
 crash-and-recovery is one step.  Over every run, a read at any live snapshot
 gives what the plain set of all writes gives.
 */
module Store {
  import opened Basics
  import opened InternalKeys
  import opened Reads
  import opened Tables
  import opened VersionSearch
  import opened CompactionPicking
  import opened VersionReads
  import opened CompactionWork
  import opened VersionBuilder
  import opened VersionSteps
  import opened VersionEdits
  import opened EditSteps

  // A log file: one record per write batch.
  datatype Log = Log(number: nat, records: seq<seq<Entry>>)

  datatype State = State(
    // The name of the user comparator
    comparator: Bytes,
    mem: seq<Entry>,
    imm: Option<seq<Entry>>,
    version: Version,
    lastSequence: nat,
    nextFile: nat,
    snapshots: seq<nat>,
    logs: seq<Log>,
    // The records of the manifest, and what the last one says
    edits: seq<VersionEdit>,
    manifest: Manifest,
    // The reference: everything written, and the part of it in tables
    written: set<Entry>,
    flushed: set<Entry>,
    // No compaction has used a smaller smallest snapshot than allowed by reads
    // at sequence numbers from here on
    horizon: nat)

  ghost function ImmContents(s: State): set<Entry> {
    if s.imm.Some? then Contents(s.imm.value) else {}
  }

  // Everything in A was written after everything in B.
  ghost predicate Above(A: set<Entry>, B: set<Entry>) {
    forall a, b :: a in A && b in B ==> a.key.sequence > b.key.sequence
  }

  ghost predicate UpTo(S: set<Entry>, n: nat) {
    forall e :: e in S ==> e.key.sequence <= n
  }

  ghost predicate From(S: set<Entry>, n: nat) {
    forall e :: e in S ==> e.key.sequence > n
  }

  ghost function RecordsContents(records: seq<seq<Entry>>): set<Entry> {
    set r, e | r in records && e in r :: e
  }

  // All records of the logs, oldest first.
  function AllRecords(logs: seq<Log>): seq<seq<Entry>> {
    if logs == [] then [] else AllRecords(logs[..|logs| - 1]) + logs[|logs| - 1].records
  }

  ghost function LogsContents(logs: seq<Log>): set<Entry> {
    RecordsContents(AllRecords(logs))
  }

  predicate AscendingRecord(r: seq<Entry>) {
    forall i, j :: 0 <= i < j < |r| ==> r[i].key.sequence < r[j].key.sequence
  }

  // Sequence numbers ascend from entry to entry and from record to record.
  ghost predicate LaterRecordsAbove(records: seq<seq<Entry>>) {
    && (forall i :: 0 <= i < |records| ==> AscendingRecord(records[i]))
    && (forall i, j :: 0 <= i < j < |records| ==> Above(Contents(records[j]), Contents(records[i])))
  }

  // The logs a recovery reads.
  function LiveLogs(logs: seq<Log>, logNumber: nat): seq<Log> {
    if logs == [] then []
    else if logs[0].number >= logNumber then [logs[0]] + LiveLogs(logs[1..], logNumber)
    else LiveLogs(logs[1..], logNumber)
  }

  function LastLog(s: State): Log
    requires s.logs != []
  {
    s.logs[|s.logs| - 1]
  }

  // ----- the invariant ---------------------------------------------------------------------

  ghost predicate MemoryInv(s: State) {
    && Sorted(s.mem) && (s.imm.Some? ==> Sorted(s.imm.value))
    && DistinctSequences(s.written)
    && s.written == s.flushed + ImmContents(s) + Contents(s.mem)
    && VersionContents(s.version) <= s.flushed
    && Above(Contents(s.mem), ImmContents(s) + s.flushed)
    && Above(ImmContents(s), s.flushed)
  }

  ghost predicate NumbersInv(s: State) {
    && s.manifest.nextFile <= s.nextFile && NumbersBelow(s.version, s.manifest.nextFile)
    && s.horizon <= s.manifest.lastSequence <= s.lastSequence < MAX_SEQUENCE
    && UpTo(s.flushed, s.manifest.lastSequence) && UpTo(s.written, s.lastSequence)
    && (forall i :: 0 <= i < |s.snapshots| ==> s.horizon <= s.snapshots[i] <= s.lastSequence)
    && (forall i, j :: 0 <= i < j < |s.snapshots| ==> s.snapshots[i] <= s.snapshots[j])
  }

  // Reads from the tables are reads from all that was flushed.
  ghost predicate TablesAgree(s: State) {
    forall k, t: nat :: t >= s.horizon ==> ReadAt(VersionContents(s.version), k, t) == ReadAt(s.flushed, k, t)
  }

  predicate AscendingLogs(logs: seq<Log>) {
    forall i, j :: 0 <= i < j < |logs| ==> logs[i].number < logs[j].number
  }

  predicate LogNumbersBelow(logs: seq<Log>, n: nat) {
    forall i :: 0 <= i < |logs| ==> logs[i].number < n
  }

  // Every write that is not in a table is in a log that recovery will read.
  ghost predicate LogsInv(s: State) {
    && s.logs != []
    && LogNumbersBelow(s.logs, s.nextFile) && AscendingLogs(s.logs)
    && s.manifest.logNumber <= LastLog(s).number
    && RecordsContents(LastLog(s).records) == Contents(s.mem)
    && LogsContents(LiveLogs(s.logs[..|s.logs| - 1], s.manifest.logNumber)) == ImmContents(s)
    && LaterRecordsAbove(AllRecords(LiveLogs(s.logs, s.manifest.logNumber)))
  }

  // Replaying the manifest gives the current version and the numbers last
  // recorded, and no file number stands for two files in it.
  ghost predicate ManifestInv(s: State) {
    && (forall i :: 0 <= i < |s.edits| ==> ValidEdit(s.edits[i]))
    && (forall i :: 0 <= i < |s.edits| ==> s.edits[i].comparator == None || s.edits[i].comparator == Some(s.comparator))
    && NeverReused(s.edits) && FileNumbersBelow(FilesAdded(s.edits), s.manifest.nextFile)
    && Replays(s.edits, s.version)
    && FoundNumbers(s.edits) == Some(s.manifest) && NumbersOf(s.edits).prevLogNumber == Some(0)
  }

  ghost predicate FileNumbersBelow(fs: set<File>, n: nat) {
    forall f :: f in fs ==> f.number < n
  }

  ghost predicate Inv(s: State) {
    GoodVersion(s.version) && MemoryInv(s) && NumbersInv(s) && TablesAgree(s) && LogsInv(s) && ManifestInv(s)
  }

  // ----- reads -------------------------------------------------------------------------------

  // DBImpl::Get: the memtable, then the immutable one, then the tables.
  ghost function StoreNewest(s: State, k: UserKey, t: nat): Option<Entry> {
    if NewestAt(Contents(s.mem), k, t).Some? then NewestAt(Contents(s.mem), k, t)
    else if NewestAt(ImmContents(s), k, t).Some? then NewestAt(ImmContents(s), k, t)
    else NewestAt(VersionContents(s.version), k, t)
  }

  lemma AboveIsNewer(A: set<Entry>, B: set<Entry>)
    requires Above(A, B)
    ensures NewerThan(A, B)
  {
  }

  lemma ReadsAreExactAt(s: State, k: UserKey, t: nat)
    requires MemoryInv(s) && TablesAgree(s) && t >= s.horizon
    ensures Answer(StoreNewest(s, k, t)) == ReadAt(s.written, k, t)
  {
    hide VersionContents, Contents, NewestAt;
    var A, B := Contents(s.mem), ImmContents(s);
    AboveIsNewer(A, B + s.flushed);
    AboveIsNewer(B, s.flushed);
    assert s.written == A + (B + s.flushed);
    assert DistinctSequences(B + s.flushed);
    NewerPartFirst(A, B + s.flushed, k, t);
    NewerPartFirst(B, s.flushed, k, t);
    assert ReadAt(VersionContents(s.version), k, t) == ReadAt(s.flushed, k, t);
  }

  // ----- logs ----------------------------------------------------------------------------------

  // The logs with a record appended to the current one.
  function Append(logs: seq<Log>, record: seq<Entry>): seq<Log>
    requires logs != []
  {
    var n := |logs| - 1;
    logs[..n] + [Log(logs[n].number, logs[n].records + [record])]
  }

  // How many records a crash leaves in each log.
  predicate IsCut(logs: seq<Log>, keep: seq<nat>) {
    |keep| == |logs| && forall i :: 0 <= i < |logs| ==> keep[i] <= |logs[i].records|
  }

  // The logs after a crash: each keeps its first records.
  function Truncate(logs: seq<Log>, keep: seq<nat>): (r: seq<Log>)
    requires IsCut(logs, keep)
    ensures |r| == |logs|
  {
    seq(|logs|, i requires 0 <= i < |logs| => Log(logs[i].number, logs[i].records[..keep[i]]))
  }

  lemma {:induction false} LiveLogsMembers(logs: seq<Log>, n: nat)
    ensures forall log :: log in LiveLogs(logs, n) <==> log in logs && log.number >= n
  {
    if logs != [] {
      LiveLogsMembers(logs[1..], n);
      assert logs == [logs[0]] + logs[1..];
    }
  }

  lemma {:induction false} LiveLogsConcat(a: seq<Log>, b: seq<Log>, n: nat)
    ensures LiveLogs(a + b, n) == LiveLogs(a, n) + LiveLogs(b, n)
  {
    if a == [] {
      assert a + b == b;
    } else {
      assert (a + b)[1..] == a[1..] + b && (a + b)[0] == a[0];
      LiveLogsConcat(a[1..], b, n);
      hide LiveLogs;
      LiveLogsFirst(a, n);
      LiveLogsFirst(a + b, n);
    }
  }

  lemma LiveLogsFirst(logs: seq<Log>, n: nat)
    requires logs != []
    ensures LiveLogs(logs, n) == (if logs[0].number >= n then [logs[0]] else []) + LiveLogs(logs[1..], n)
  {
  }

  lemma {:induction false} AllRecordsConcat(a: seq<Log>, b: seq<Log>)
    ensures AllRecords(a + b) == AllRecords(a) + AllRecords(b)
  {
    if b == [] {
      assert a + b == a;
    } else {
      var n := |b| - 1;
      AllRecordsConcat(a, b[..n]);
      assert (a + b)[..|a + b| - 1] == a + b[..n];
    }
  }

  lemma OneLog(log: Log)
    ensures AllRecords([log]) == log.records && LogsContents([log]) == RecordsContents(log.records)
  {
    assert [log][..0] == [];
  }

  lemma RecordsContentsConcat(a: seq<seq<Entry>>, b: seq<seq<Entry>>)
    ensures RecordsContents(a + b) == RecordsContents(a) + RecordsContents(b)
  {
  }

  lemma OneRecordContents(r: seq<Entry>)
    ensures RecordsContents([r]) == Contents(r)
  {
    assert forall x :: x in [r] <==> x == r;
  }

  // ----- the steps --------------------------------------------------------------------------------

  // The entries of a batch get the next sequence numbers.
  ghost predicate Sequenced(batch: seq<Entry>, last: nat) {
    forall i :: 0 <= i < |batch| ==> batch[i].key.sequence == last + 1 + i
  }

  ghost predicate Write(s: State, batch: seq<Entry>, s': State) {
    && s.logs != [] && s.lastSequence + |batch| < MAX_SEQUENCE
    && Sequenced(batch, s.lastSequence)
    && Sorted(s'.mem) && Contents(s'.mem) == Contents(s.mem) + Contents(batch)
    && s' == s.(mem := s'.mem, lastSequence := s.lastSequence + |batch|,
                logs := Append(s.logs, batch), written := s.written + Contents(batch))
  }

  ghost predicate SwitchMemTable(s: State, s': State) {
    && s.imm.None?
    && s' == s.(imm := Some(s.mem), mem := [], nextFile := s.nextFile + 1, logs := s.logs + [Log(s.nextFile, [])])
  }

  // LogAndApply: the edit, with the numbers, becomes the last record of the
  // manifest, and what it makes of the version becomes current.
  ghost predicate LogAndApply(s: State, edit: VersionEdit, s': State) {
    Applied(s.version, edit, s'.version) && s'.edits == s.edits + [Stamped(edit, s'.manifest)]
  }

  // The immutable memtable becomes a table, or none if it is empty.
  ghost predicate FlushedTables(s: State, level: nat, tables: seq<File>)
    requires s.imm.Some?
  {
    if s.imm.value == [] then tables == []
    else
      && |tables| == 1 && ValidFile(tables[0]) && tables[0].number == s.nextFile && tables[0].entries == s.imm.value
      && Placeable(s.version, level, tables[0].smallest.user, tables[0].largest.user)
  }

  ghost predicate Flush(s: State, level: nat, tables: seq<File>, s': State) {
    && s.imm.Some? && s.logs != []
    && FlushedTables(s, level, tables)
    && LogAndApply(s, AddEdit(level, tables), s')
    && s' == s.(imm := None, version := s'.version, nextFile := s.nextFile + 1, edits := s'.edits,
                manifest := Manifest(LastLog(s).number, s.nextFile + 1, s.lastSequence),
                flushed := s.flushed + ImmContents(s))
  }

  ghost predicate TrivialMove(s: State, c: Compaction, s': State) {
    && GoodCompaction(s.version, c) && EndsAtPointer(c) && |c.inputs0| == 1 && c.inputs1 == []
    && LogAndApply(s, CompactionEdit(c, c.inputs0), s')
    && s' == s.(version := s'.version, edits := s'.edits,
                manifest := Manifest(s.manifest.logNumber, s.nextFile, s.lastSequence))
  }

  function SmallestSnapshot(s: State): nat {
    if s.snapshots == [] then s.lastSequence else s.snapshots[0]
  }

  ghost predicate Compact(s: State, c: Compaction, outputs: seq<File>, s': State) {
    && GoodCompaction(s.version, c) && EndsAtPointer(c)
    && CompactedOutputs(s.version, c, SmallestSnapshot(s), outputs)
    && OneFilePerNumber(Files(outputs))
    && (forall o :: o in outputs ==> s.nextFile <= o.number < s'.nextFile)
    && s.nextFile <= s'.nextFile
    && LogAndApply(s, CompactionEdit(c, outputs), s')
    && s' == s.(version := s'.version, nextFile := s'.nextFile, horizon := SmallestSnapshot(s), edits := s'.edits,
                manifest := Manifest(s.manifest.logNumber, s'.nextFile, s.lastSequence))
  }

  // What the tombstone rule needs of a compaction: see CompactionPreservesReads.
  ghost predicate UncoversNothing(s: State, c: Compaction) {
    forall k :: !Uncovers(s.version, c, SmallestSnapshot(s), k)
  }

  ghost predicate GetSnapshot(s: State, s': State) {
    s' == s.(snapshots := s.snapshots + [s.lastSequence])
  }

  ghost predicate ReleaseSnapshot(s: State, i: nat, s': State) {
    i < |s.snapshots| && s' == s.(snapshots := s.snapshots[..i] + s.snapshots[i + 1..])
  }

  ghost predicate DeleteObsoleteLogs(s: State, s': State) {
    s' == s.(logs := LiveLogs(s.logs, s.manifest.logNumber))
  }

  // The tables recovery writes to level 0, oldest first.
  ghost predicate RecoveredTables(replay: set<Entry>, tables: seq<File>, firstNumber: nat, nextNumber: nat) {
    && ValidFiles(tables) && LevelContents(tables) == replay
    && (forall i :: 0 <= i < |tables| ==> firstNumber <= tables[i].number < nextNumber)
    && (forall i, j :: 0 <= i < j < |tables| ==>
         tables[i].number < tables[j].number && Above(Contents(tables[j].entries), Contents(tables[i].entries)))
  }

  // The greatest sequence number of the manifest and the replayed entries.
  ghost predicate IsLastSequence(n: nat, manifestLast: nat, replay: set<Entry>) {
    && manifestLast <= n && UpTo(replay, n)
    && (n == manifestLast || exists e :: e in replay && e.key.sequence == n)
  }

  // A crash that cuts off the logs, and opening the database again: the
  // manifest is replayed, which gives the version and the numbers to start from;
  // then the live logs are, and one edit records their tables and a new log, in
  // a new manifest that begins with a snapshot of the replayed version.
  ghost predicate CrashAndRecover(s: State, keep: seq<nat>, base: Version, tables: seq<File>, s': State) {
    && s.logs != [] && IsCut(s.logs, keep)
    && Replays(s.edits, base) && FoundNumbers(s.edits).Some?
    && var found := FoundNumbers(s.edits).value;
       var logs := Truncate(s.logs, keep);
       var replay := LogsContents(LiveLogs(logs, found.logNumber));
       && RecoveredTables(replay, tables, found.nextFile, s'.manifest.nextFile)
       && Applied(base, AddEdit(0, tables), s'.version)
       && LogNumbersBelow(s.logs, s'.manifest.logNumber)
       && s'.manifest.logNumber < s'.nextFile && found.nextFile <= s'.nextFile
       && IsLastSequence(s'.lastSequence, found.lastSequence, replay)
       && s' == State(s.comparator, [], None, s'.version, s'.lastSequence, s'.nextFile, [],
                      logs + [Log(s'.manifest.logNumber, [])],
                      [SnapshotEdit(s.comparator, ReplayPointers(s.edits), base),
                       Stamped(AddEdit(0, tables), s'.manifest)],
                      Manifest(s'.manifest.logNumber, s'.nextFile, s'.lastSequence),
                      s.flushed + replay, s.flushed + replay, s.horizon)
  }

  // NewDB and Open: the manifest of a new database is replayed and written anew.
  ghost predicate Init(s: State) {
    var manifest := Manifest(3, 4, 0);
    s == State(s.comparator, [], None, EMPTY_VERSION, 0, 4, [], [Log(3, [])],
               [SnapshotEdit(s.comparator, NO_POINTERS, EMPTY_VERSION), Stamped(FileEdit({}, []), manifest)], manifest,
               {}, {}, 0)
  }
}
