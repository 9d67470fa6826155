/**
 The database object (db/db_impl.cc).  Its methods update the fields as DBImpl
 and VersionSet do, and each is a step of the store.
 */
module DbImpl {
  import opened Basics
  import opened InternalKeys
  import opened Reads
  import opened Tables
  import opened VersionSearch
  import opened CompactionPicking
  import opened VersionReads
  import opened CompactionWork
  import opened VersionBuilder
  import opened VersionSteps
  import opened VersionEdits
  import opened EditSteps
  import Store
  import StoreInvariant
  import StoreRuns
  import opened MemTables
  import Recovery
  import InternalIterator
  import opened DbIter

  // ----- the database object --------------------------------------------------------------------

  class DBImpl {
    var mem: seq<Entry>
    var imm: Option<seq<Entry>>
    var version: Version
    var lastSequence: nat
    var nextFile: nat
    var snapshots: seq<nat>
    var logs: seq<Store.Log>
    var edits: seq<VersionEdit>
    var manifest: Manifest
    var compactPointers: Pointers

    ghost var written: set<Entry>
    ghost var flushed: set<Entry>
    ghost var horizon: nat

    // Options
    const comparator: Bytes
    const sizeOf: seq<Entry> -> nat
    const maxFileSize: nat

    ghost function State(): Store.State
      reads this
    {
      Store.State(comparator, mem, imm, version, lastSequence, nextFile, snapshots, logs, edits, manifest,
                  written, flushed, horizon)
    }

    // The compaction pointers are those in the manifest.
    ghost predicate Valid()
      reads this
    {
      Store.Inv(State()) && compactPointers == ReplayPointers(edits)
    }

    // That of a compaction is ahead of the manifest until its edit is applied.
    ghost predicate Picked(c: Compaction)
      reads this
    {
      && Store.Inv(State()) && GoodCompaction(version, c) && EndsAtPointer(c)
      && compactPointers == ReplayPointers(edits)[c.level := Some(c.compactPointer)]
    }

    constructor (comparator: Bytes, sizeOf: seq<Entry> -> nat, maxFileSize: nat)
      ensures Valid() && Store.Init(State())
    {
      this.comparator, this.sizeOf, this.maxFileSize := comparator, sizeOf, maxFileSize;
      mem, imm, version := [], None, EMPTY_VERSION;
      lastSequence, nextFile, snapshots := 0, 4, [];
      logs, manifest, compactPointers := [Store.Log(3, [])], Manifest(3, 4, 0), NO_POINTERS;
      edits := [SnapshotEdit(comparator, NO_POINTERS, EMPTY_VERSION), Stamped(FileEdit({}, []), Manifest(3, 4, 0))];
      written, flushed, horizon := {}, {}, 0;
      new;
      hide Store.Inv, SnapshotEdit, Stamped, ReplayPointers;
      InitialPointers(comparator);
      StoreRuns.InitHoldsInv(State());
    }

    // VersionSet::LogAndApply, for an edit that may set the log number.  overlap
    // says whether a check on the levels above 0 would fire.
    method LogAndApply(edit: VersionEdit, logNumber: Option<nat>) returns (overlap: bool)
      requires SortedLevels(version) && EditFits(version, edit)
      modifies this`version, this`compactPointers, this`edits, this`manifest
      ensures Applied(old(version), edit, version)
      ensures var log := if logNumber.Some? then logNumber.value else old(manifest).logNumber;
        manifest == Manifest(log, nextFile, lastSequence)
      ensures edits == old(edits) + [Stamped(edit, manifest)]
      ensures compactPointers == WithPointers(old(compactPointers), edit.compactPointers)
      ensures !overlap <==> forall l :: 0 < l < NUM_LEVELS ==> AdjacentDisjoint(version[l])
    {
      hide Applied, AdjacentDisjoint, EditFits, WithPointers;
      manifest := Manifest(if logNumber.Some? then logNumber.value else manifest.logNumber, nextFile, lastSequence);
      edits := edits + [Stamped(edit, manifest)];
      version, compactPointers, overlap := ApplyEdit(version, compactPointers, edit);
    }

    // Reads k at a snapshot, or at the latest sequence number.
    method Get(k: UserKey, snapshot: Option<nat>) returns (r: Option<Bytes>)
      requires Valid() && (snapshot.Some? ==> snapshot.value in snapshots)
      ensures r == ReadAt(written, k, if snapshot.Some? then snapshot.value else lastSequence)
    {
      hide Store.MemoryInv, Store.LogsInv, Store.TablesAgree, GoodVersion, NewestAt;
      var t := if snapshot.Some? then snapshot.value else lastSequence;
      StoreRuns.LiveIsRespected(State(), t);
      StoreInvariant.MemorySorted(State());
      StoreInvariant.GoodIsOrdered(version);
      Store.ReadsAreExactAt(State(), k, t);
      var found := Lookup(mem, k, t);
      if found.None? && imm.Some? {
        found := Lookup(imm.value, k, t);
      }
      if found.None? {
        found := VersionReads.Get(version, k, t);
      }
      NoneVisible({}, k, t);
      return Answer(found);
    }

    // A cursor on the keys that reads at a snapshot find, each with its value.
    method NewIterator(snapshot: Option<nat>) returns (iter: DBIter)
      requires Valid() && (snapshot.Some? ==> snapshot.value in snapshots)
      ensures fresh(iter) && iter.Invariant() && !iter.valid
      ensures iter.sequence == if snapshot.Some? then snapshot.value else lastSequence
      ensures forall k, v :: ReadAt(written, k, iter.sequence) == Some(v) <==> iter.Lists(k, v)
    {
      hide Store.MemoryInv, Store.LogsInv, Store.TablesAgree, GoodVersion, NewestAt, Sorted, InternalIterator.Present;
      var t := if snapshot.Some? then snapshot.value else lastSequence;
      StoreRuns.LiveIsRespected(State(), t);
      var es := InternalIterator.Merged(State(), mem, imm, version);
      iter := new DBIter(es, t);
      forall k, v
        ensures ReadAt(written, k, t) == Some(v) <==> iter.Lists(k, v)
      {
        InternalIterator.PresentReadsAreExact(State(), k, t);
        LiveIsWhatReadsFind(es, t, k, v);
      }
    }

    // One write batch: a log record, then the memtable.
    method Write(ops: seq<Op>)
      requires Valid() && lastSequence + |ops| < MAX_SEQUENCE
      modifies this
      ensures Valid()
      ensures Store.Write(old(State()), BatchEntries(ops, old(lastSequence) + 1), State())
      ensures Performed(ops, old(written), old(lastSequence), written, lastSequence)
    {
      hide Store.Inv, Store.MemoryInv, Store.NumbersInv, Store.LogsInv, Store.TablesAgree, Store.Sequenced;
      hide Store.Append;
      hide Sorted, Contents, BatchEntries, GoodVersion, DistinctSequences, Performed;
      ghost var s := State();
      StoreInvariant.Parts(s);
      StoreInvariant.MemorySorted(s);
      StoreInvariant.WrittenUpToLast(s);
      ghost var batch := BatchEntries(ops, lastSequence + 1);
      BatchIsSequenced(ops, lastSequence);
      var newMem := InsertInto(ops, lastSequence + 1, mem);
      logs := Store.Append(logs, BatchEntries(ops, lastSequence + 1));
      lastSequence := lastSequence + |ops|;
      mem := newMem;
      written := written + Contents(batch);
      StoreInvariant.WriteKeepsInv(s, batch, State());
      StoreInvariant.WrittenIsDistinct(s);
      BatchIsPerformed(s.written, ops, s.lastSequence);
    }

    // MakeRoomForWrite when the memtable is full and the previous one is flushed.
    method SwitchMemTable()
      requires Valid() && imm.None?
      modifies this
      ensures Valid() && Store.SwitchMemTable(old(State()), State())
    {
      hide Store.Inv;
      ghost var s := State();
      var newLogNumber := nextFile;
      nextFile := nextFile + 1;
      logs := logs + [Store.Log(newLogNumber, [])];
      imm := Some(mem);
      mem := [];
      StoreInvariant.SwitchKeepsInv(s, State());
    }

    // WriteLevel0Table: the level the table goes to, and the table; there is none
    // for an empty memtable.
    method WriteLevel0Table(entries: seq<Entry>) returns (level: nat, tables: seq<File>)
      requires Sorted(entries) && GoodVersion(version) && NumbersBelow(version, nextFile)
      modifies this`nextFile
      ensures nextFile == old(nextFile) + 1
      ensures if entries == [] then tables == []
        else
          && |tables| == 1 && ValidFile(tables[0]) && tables[0].number == old(nextFile) && tables[0].entries == entries
          && IsOutputLevel(version, level, tables[0].smallest.user, tables[0].largest.user, 10 * maxFileSize)
    {
      hide GoodVersion, Sorted, NumbersBelow, IsOutputLevel;
      var number := nextFile;
      nextFile := nextFile + 1;
      level, tables := 0, [];
      if entries != [] {
        StoreInvariant.GoodIsOrdered(version);
        var f := NewTable(number, sizeOf(entries), entries);
        level := PickLevelForMemTableOutput(version, f.smallest.user, f.largest.user, 10 * maxFileSize);
        tables := [f];
      }
    }

    // Saves the immutable memtable as a table and records the current log.
    method CompactMemTable() returns (ghost level: nat, ghost tables: seq<File>)
      requires Valid() && imm.Some?
      modifies this
      ensures Valid() && Store.Flush(old(State()), level, tables, State())
      ensures tables != [] ==>
        IsOutputLevel(old(version), level, tables[0].smallest.user, tables[0].largest.user, 10 * maxFileSize)
    {
      hide Store.Inv, Store.MemoryInv, Store.LogsInv, Store.TablesAgree, Store.ManifestInv, Store.NumbersInv;
      hide GoodVersion, Sorted, Placeable, ValidFile, Applied, EditFits, AddEdit, NumbersBelow, ReplayPointers;
      hide IsOutputLevel;
      ghost var s := State();
      StoreInvariant.Parts(s);
      StoreInvariant.MemorySorted(s);
      TablesBelowNextFile(s);
      GoodIsSorted(version);
      var outputLevel, built := WriteLevel0Table(imm.value);
      level, tables := outputLevel, built;
      if built != [] {
        OutputIsPlaceable(s.version, level, built[0].smallest.user, built[0].largest.user, 10 * maxFileSize);
      }
      FlushEditFits(s, level, tables);
      var overlap := LogAndApply(AddEdit(outputLevel, built), Some(logs[|logs| - 1].number));
      flushed := flushed + Store.ImmContents(s);
      imm := None;
      NoNewPointers(s.edits, level, tables, manifest);
      FlushIs(s, level, tables, State());
      hide *;
      StoreInvariant.FlushKeepsInv(s, level, tables, State());
      ChecksHold(State());
      assert !overlap;
    }

    // A compaction of one file into nothing just moves the file down.
    method MoveFile(c: Compaction)
      requires Picked(c) && |c.inputs0| == 1 && c.inputs1 == []
      modifies this
      ensures Valid() && Store.TrivialMove(old(State()), c, State())
    {
      hide Store.Inv, Store.LogsInv, Store.MemoryInv, Store.TablesAgree, Store.NumbersInv, Store.ManifestInv;
      hide GoodVersion;
      hide GoodCompaction, GoodOutputs, NumbersFit, Applied, EditFits, CompactionEdit, ReplayPointers;
      ghost var s := State();
      StoreInvariant.Parts(s);
      StoreInvariant.TrivialMoveFits(version, c);
      GoodIsSorted(version);
      NumbersOfEdit(version, c, c.inputs0);
      var overlap := LogAndApply(CompactionEdit(c, c.inputs0), None);
      InputsExist(s.version, c);
      PointerIsLogged(s.edits, c, c.inputs0, manifest);
      assert Store.TrivialMove(s, c, State());
      StoreInvariant.TrivialMoveKeepsInv(s, c, State());
      ChecksHold(State());
      assert !overlap;
    }

    // DoCompactionWork and InstallCompactionResults.
    method RunCompaction(c: Compaction, stopBefore: nat -> bool) returns (ghost outputs: seq<File>)
      requires Picked(c)
      modifies this
      ensures Store.Compact(old(State()), c, outputs, State())
      ensures old(Store.UncoversNothing(State(), c)) ==> Valid()
    {
      hide Store.Inv, Store.LogsInv, Store.MemoryInv, Store.TablesAgree, Store.NumbersInv, Store.ManifestInv;
      hide GoodVersion;
      hide GoodCompaction, Installed, GoodOutputs, NumbersFit, Applied, EditFits, CompactionEdit, ReplayPointers;
      hide Store.UncoversNothing, CompactedOutputs, OneFilePerNumber;
      ghost var s := State();
      StoreInvariant.Parts(s);
      SmallestSnapshotInRange(s);
      TablesBelowNextFile(s);
      GoodIsSorted(version);
      var smallest := if snapshots == [] then lastSequence else snapshots[0];
      var tables, next := CompactTables(version, c, smallest, stopBefore, sizeOf, maxFileSize, nextFile);
      NumbersOfEdit(version, c, tables);
      nextFile := next;
      var overlap := LogAndApply(CompactionEdit(c, tables), None);
      InputsExist(s.version, c);
      PointerIsLogged(s.edits, c, tables, manifest);
      InstalledIsChecked(s.version, c, tables, version);
      assert !overlap;
      horizon := smallest;
      outputs := tables;
      assert Store.Compact(s, c, outputs, State());
      if Store.UncoversNothing(s, c) {
        StoreInvariant.CompactKeepsInv(s, c, outputs, State());
      }
    }

    // PickCompaction with the level's compaction pointer, which moves on at once.
    method PickInputs(trigger: Trigger) returns (c: Compaction)
      requires Valid() && trigger.level + 1 < NUM_LEVELS && version[trigger.level] != []
      requires trigger.SeekOf? ==> trigger.file in version[trigger.level]
      modifies this`compactPointers
      ensures Picked(c) && State() == old(State())
      ensures IsAutomatic(version, trigger, old(compactPointers)[trigger.level], 25 * maxFileSize, c)
    {
      hide Store.Inv, Store.LogsInv, Store.MemoryInv, Store.TablesAgree, Store.NumbersInv, Store.ManifestInv;
      hide GoodVersion;
      hide GoodCompaction, ReplayPointers, IsAutomatic, EndsAtPointer, IsPick;
      hide WellFormedVersion, OrderedVersion;
      StoreInvariant.Parts(State());
      StoreInvariant.GoodIsOrdered(version);
      c := PickCompaction(version, trigger, compactPointers[trigger.level], 25 * maxFileSize);
      compactPointers := compactPointers[c.level := Some(c.compactPointer)];
    }

    // What a turn of the background thread does: the immutable memtable if there is one,
    // else a compaction as the code picks it, which is a move if it is trivial.
    // The result is a good state unless the compaction uncovers an old value.
    twostate predicate TookTurn(trigger: Trigger, new c: Option<Compaction>)
      requires trigger.level + 1 < NUM_LEVELS
      reads this
    {
      match c
      case None => old(imm).Some? && Valid() && FlushStep(old(State()), State())
      case Some(compaction) =>
        && old(imm).None? && GoodCompaction(old(version), compaction)
        && IsAutomatic(old(version), trigger, old(compactPointers)[trigger.level], 25 * maxFileSize, compaction)
        && var moves := |compaction.inputs0| == 1 && |compaction.inputs1| == 0
             && TotalFileSize(compaction.grandparents) <= 10 * maxFileSize;
           && (if moves then Store.TrivialMove(old(State()), compaction, State())
               else CompactStep(old(State()), compaction, State()))
           && (moves || Store.UncoversNothing(old(State()), compaction) ==> Valid())
    }

    method BackgroundCompaction(trigger: Trigger, stopBefore: nat -> bool) returns (ghost c: Option<Compaction>)
      requires trigger.level + 1 < NUM_LEVELS && version[trigger.level] != []
      requires trigger.SeekOf? ==> trigger.file in version[trigger.level]
      requires Valid()
      modifies this
      ensures TookTurn(trigger, c)
    {
      hide Store.Inv, GoodVersion, GoodCompaction, Store.UncoversNothing, Store.Flush, Store.TrivialMove;
      hide Store.Compact, ReplayPointers, IsAutomatic;
      ghost var s := State();
      if imm.Some? {
        ghost var level, tables := CompactMemTable();
        return None;
      }
      var picked := PickInputs(trigger);
      c := Some(picked);
      if |picked.inputs0| == 1 && |picked.inputs1| == 0 && TotalFileSize(picked.grandparents) <= 10 * maxFileSize {
        MoveFile(picked);
      } else {
        ghost var outputs := RunCompaction(picked, stopBefore);
      }
    }

    ghost predicate CompactStep(s: Store.State, c: Compaction, t: Store.State) {
      exists outputs :: Store.Compact(s, c, outputs, t)
    }

    ghost predicate FlushStep(s: Store.State, t: Store.State) {
      exists level, tables :: Store.Flush(s, level, tables, t)
    }

    twostate predicate CompactedManually(level: nat, begin: Option<UserKey>, end: Option<UserKey>, new c: Compaction)
      requires level + 1 < NUM_LEVELS
      reads this
    {
      && GoodCompaction(old(version), c) && CompactStep(old(State()), c, State())
      && IsManual(old(version), level, begin, end, maxFileSize, 25 * maxFileSize, c)
      && (Store.UncoversNothing(old(State()), c) ==> Valid())
    }

    // A manual compaction of a key range of one level.
    method ManualCompaction(level: nat, begin: Option<UserKey>, end: Option<UserKey>, stopBefore: nat -> bool)
      returns (done: bool, ghost c: Option<Compaction>)
      requires level + 1 < NUM_LEVELS && imm.None? && Valid()
      modifies this
      ensures done <==> !SomeOverlap(old(version)[level], begin, end)
      ensures if done then c.None? && State() == old(State()) && Valid()
        else c.Some? && CompactedManually(level, begin, end, c.value)
    {
      hide Store.Inv, GoodVersion, GoodCompaction, Store.UncoversNothing, Store.Compact, ReplayPointers;
      hide Store.LogsInv, Store.MemoryInv, Store.TablesAgree, Store.NumbersInv, Store.ManifestInv;
      hide WellFormedVersion, OrderedVersion, SomeOverlap, Overlapping, IsManual, EndsAtPointer;
      StoreInvariant.Parts(State());
      StoreInvariant.GoodIsOrdered(version);
      var picked := CompactRange(version, level, begin, end, maxFileSize, 25 * maxFileSize);
      if picked.None? {
        return true, None;
      }
      compactPointers := compactPointers[level := Some(picked.value.compactPointer)];
      ghost var outputs := RunCompaction(picked.value, stopBefore);
      return false, picked;
    }

    method GetSnapshot() returns (snapshot: nat)
      requires Valid()
      modifies this
      ensures Valid() && snapshot == lastSequence && Store.GetSnapshot(old(State()), State())
    {
      hide Store.Inv;
      ghost var s := State();
      snapshot := lastSequence;
      snapshots := snapshots + [snapshot];
      StoreInvariant.SnapshotsKeepInv(s, 0, State());
    }

    method ReleaseSnapshot(i: nat)
      requires Valid() && i < |snapshots|
      modifies this
      ensures Valid() && Store.ReleaseSnapshot(old(State()), i, State())
    {
      hide Store.Inv;
      ghost var s := State();
      snapshots := snapshots[..i] + snapshots[i + 1..];
      StoreInvariant.SnapshotsKeepInv(s, i, State());
    }

    // DeleteObsoleteFiles, as far as logs go: a log is kept from the manifest's
    // log number on.
    method DeleteObsoleteLogs()
      requires Valid()
      modifies this
      ensures Valid() && Store.DeleteObsoleteLogs(old(State()), State())
    {
      hide Store.Inv;
      ghost var s := State();
      var all := logs;
      var kept: seq<Store.Log> := [];
      for i := 0 to |all|
        invariant kept == Store.LiveLogs(all[..i], manifest.logNumber)
        modifies {}
      {
        assert all[..i + 1] == all[..i] + [all[i]];
        Store.LiveLogsConcat(all[..i], [all[i]], manifest.logNumber);
        if all[i].number >= manifest.logNumber {
          kept := kept + [all[i]];
        }
      }
      assert all[..|all|] == all;
      logs := kept;
      StoreInvariant.DeleteKeepsInv(s, State());
    }

    // What VersionSet::Recover makes of the manifest.
    method RecoverManifest() returns (replayed: Version, pointers: Pointers, found: Manifest)
      requires Valid()
      ensures Replays(edits, replayed) && replayed == version
      ensures pointers == ReplayPointers(edits)
      ensures FoundNumbers(edits) == Some(found) && found == manifest
    {
      hide Store.Inv, Store.ManifestInv, Replays, NumbersOf, ReplayPointers, ValidEdit, NeverReused;
      ManifestIsReplayable(State());
      var numbers, overlap;
      replayed, pointers, numbers, overlap := ReplayManifest(edits);
      StoreInvariant.ReplayFinds(State(), replayed);
      found := Manifest(numbers.logNumber.value, numbers.nextFile.value, numbers.lastSequence.value);
    }

    // The fields after opening: nothing in memory but the version.
    method StartMemory(v: Version, pointers: Pointers, maxSequence: nat, next: nat)
      modifies this`version, this`compactPointers, this`mem, this`imm, this`snapshots, this`lastSequence, this`nextFile
      ensures version == v && compactPointers == pointers && mem == [] && imm == None && snapshots == []
      ensures lastSequence == maxSequence && nextFile == next + 1
    {
      version, compactPointers := v, pointers;
      mem, imm, snapshots := [], None, [];
      lastSequence, nextFile := maxSequence, next + 1;
    }

    // A new log and a new manifest.
    method StartRecords(oldLogs: seq<Store.Log>, next: nat, snapshot: VersionEdit, edit: VersionEdit,
                        ghost recovered: set<Entry>)
      modifies this`logs, this`manifest, this`edits, this`written, this`flushed
      ensures logs == oldLogs + [Store.Log(next, [])] && manifest == Manifest(next, nextFile, lastSequence)
      ensures edits == [snapshot, Stamped(edit, manifest)] && written == flushed == recovered
    {
      logs := oldLogs + [Store.Log(next, [])];
      manifest := Manifest(next, nextFile, lastSequence);
      edits := [snapshot, Stamped(edit, manifest)];
      written, flushed := recovered, recovered;
    }

    // A crash that cuts off every log after its first records, followed by
    // opening the database again: the manifest is replayed, the live logs are
    // replayed into level-0 tables, and one edit records them with a new log, in
    // a new manifest.
    method CrashAndRecover(keep: seq<nat>,
                           full: seq<Entry> -> bool) returns (ghost base: Version, ghost tables: seq<File>)
      requires Valid() && Store.IsCut(logs, keep)
      modifies this
      ensures Valid() && compactPointers == old(compactPointers)
      ensures Store.CrashAndRecover(old(State()), keep, base, tables, State())
    {
      hide Store.Inv, Store.LogsInv, Store.MemoryInv, Store.TablesAgree, Store.ManifestInv, GoodVersion;
      hide Store.RecoveredTables, Store.IsLastSequence, Applied, Replays, FoundNumbers, AddEdit, SnapshotEdit, Stamped;
      hide Store.LogsContents, Store.LiveLogs, Store.Truncate, Store.NumbersInv, Store.LogNumbersBelow;
      hide Store.LaterRecordsAbove, Store.AllRecords, ReplayPointers, ValidEdit, NeverReused;
      ghost var s := State();
      HasLogs(s);
      var replayed, pointers, found := RecoverManifest();
      var truncated := Store.Truncate(logs, keep);
      var recovered, maxSequence, next, v := Reopen(truncated, found, replayed, full, sizeOf, s, keep);
      base, tables := replayed, recovered;
      var snapshot := WriteSnapshot(comparator, pointers, replayed);
      StartMemory(v, pointers, maxSequence, next);
      StartRecords(truncated, next, snapshot, AddEdit(0, recovered),
                   flushed + Store.LogsContents(Store.LiveLogs(truncated, s.manifest.logNumber)));
      CrashIs(s, keep, base, tables, found, State());
      AddEditHasNoPointers(0, recovered);
      VersionIsSorted(s);
      NewPointers(comparator, pointers, replayed, AddEdit(0, recovered), manifest);
      hide *;
      StoreInvariant.RecoverKeepsInv(s, keep, base, tables, State());
    }
  }

  // DB::Open on what a crash left: replays the logs and adds the tables.
  method Reopen(logs: seq<Store.Log>, manifest: Manifest, version: Version,
                full: seq<Entry> -> bool, sizeOf: seq<Entry> -> nat, ghost s: Store.State, ghost keep: seq<nat>)
    returns (tables: seq<File>, maxSequence: nat, next: nat, v: Version)
    requires s.logs != [] && Store.IsCut(s.logs, keep)
    requires logs == Store.Truncate(s.logs, keep) && manifest == s.manifest && version == s.version
    requires Store.Inv(s)
    ensures var replay := Store.LogsContents(Store.LiveLogs(logs, manifest.logNumber));
      && Store.RecoveredTables(replay, tables, manifest.nextFile, next + 1)
      && Store.IsLastSequence(maxSequence, manifest.lastSequence, replay)
    ensures Applied(version, AddEdit(0, tables), v) && Store.LogNumbersBelow(s.logs, next) && manifest.nextFile <= next
  {
    hide Store.Inv, Store.LogsInv, Store.MemoryInv, Store.TablesAgree, GoodVersion, Store.RecoveredTables;
    hide Store.IsLastSequence, Applied, AddEdit, Store.ManifestInv;
    hide Store.LogsContents, Store.LiveLogs, Store.Truncate, Store.NumbersInv, Store.LogNumbersBelow;
    hide Store.LaterRecordsAbove;
    hide Store.AllRecords, Addable;
    StoreInvariant.Parts(s);
    StoreInvariant.TruncatedLogsAscend(s, keep);
    ghost var replay := Store.LogsContents(Store.LiveLogs(logs, manifest.logNumber));
    tables, maxSequence, next :=
      Recovery.RecoverLogs(logs, manifest.logNumber, manifest.nextFile + 1, manifest.lastSequence, full, sizeOf);
    StoreInvariant.LogsBelowLive(s, keep, next);
    StoreInvariant.WiderNumbers(replay, tables, manifest.nextFile + 1, next, manifest.nextFile, next + 1);
    StoreInvariant.ReplayIsNewer(s, keep);
    StoreInvariant.RecoveredIsAddable(s, keep, tables, replay, next + 1);
    v := InstallRecovered(version, tables);
  }

  // One edit adds the recovered tables to level 0; no check fires.
  method InstallRecovered(v: Version, tables: seq<File>) returns (v': Version)
    requires GoodVersion(v) && Addable(v, 0, Files(tables))
    ensures Applied(v, AddEdit(0, tables), v') && GoodVersion(v')
  {
    hide GoodVersion, Addable, EditFits, Added, Applied, AddEdit;
    AddEditFits(v, 0, tables);
    GoodIsSorted(v);
    var pointers, overlap;
    v', pointers, overlap := ApplyEdit(v, NO_POINTERS, AddEdit(0, tables));
    AddEditAdds(v, 0, tables, v');
    AddedIsGood(v, 0, Files(tables), v');
    GoodHasNoOverlap(v');
    assert !overlap;
  }

  // ----- the manifest -------------------------------------------------------------------------

  lemma ManifestIsReplayable(s: Store.State)
    requires Store.Inv(s)
    ensures Store.ManifestInv(s) && NeverReused(s.edits) && forall i :: 0 <= i < |s.edits| ==> ValidEdit(s.edits[i])
  {
    hide GoodVersion, Store.LogsInv, Store.MemoryInv, Store.TablesAgree, Store.NumbersInv, Replays, FoundNumbers;
  }

  lemma VersionIsSorted(s: Store.State)
    requires Store.Inv(s)
    ensures forall l :: 0 <= l < NUM_LEVELS ==> SortedBySmallest(s.version[l])
  {
    hide Store.LogsInv, Store.MemoryInv, Store.TablesAgree, Store.NumbersInv, Store.ManifestInv, OrderedVersion;
    hide DistinctNumbers;
  }

  lemma NothingIsSorted()
    ensures forall l :: 0 <= l < NUM_LEVELS ==> SortedBySmallest(EMPTY_VERSION[l])
  {
    forall l | 0 <= l < NUM_LEVELS ensures EMPTY_VERSION[l] == [] {}
  }

  lemma InitialPointers(comparator: Bytes)
    ensures ReplayPointers([SnapshotEdit(comparator, NO_POINTERS, EMPTY_VERSION),
      Stamped(FileEdit({}, []), Manifest(3, 4, 0))]) == NO_POINTERS
  {
    NothingIsSorted();
    hide SnapshotEdit, Stamped, ReplayPointers, SortedBySmallest;
    NewPointers(comparator, NO_POINTERS, EMPTY_VERSION, FileEdit({}, []), Manifest(3, 4, 0));
  }

  lemma AddEditHasNoPointers(level: nat, files: seq<File>)
    ensures AddEdit(level, files).compactPointers == []
  {
  }

  // The pointers of a manifest that begins with a snapshot.
  lemma NewPointers(comparator: Bytes, ps: Pointers, v: Version, edit: VersionEdit, m: Manifest)
    requires edit.compactPointers == [] && forall l :: 0 <= l < NUM_LEVELS ==> SortedBySmallest(v[l])
    ensures ReplayPointers([SnapshotEdit(comparator, ps, v), Stamped(edit, m)]) == ps
  {
    SnapshotReplays(comparator, ps, v);
    hide SnapshotEdit, SortedBySmallest;
    var first, last := SnapshotEdit(comparator, ps, v), Stamped(edit, m);
    assert [first, last][..1] == [first];
  }

  lemma NoNewPointers(edits: seq<VersionEdit>, level: nat, files: seq<File>, m: Manifest)
    ensures ReplayPointers(edits + [Stamped(AddEdit(level, files), m)]) == ReplayPointers(edits)
    ensures WithPointers(ReplayPointers(edits), AddEdit(level, files).compactPointers) == ReplayPointers(edits)
  {
    var last := Stamped(AddEdit(level, files), m);
    assert (edits + [last])[..|edits|] == edits;
  }

  lemma PointerIsLogged(edits: seq<VersionEdit>, c: Compaction, outputs: seq<File>, m: Manifest)
    requires c.level < NUM_LEVELS
    ensures ReplayPointers(edits + [Stamped(CompactionEdit(c, outputs), m)])
      == ReplayPointers(edits)[c.level := Some(c.compactPointer)]
      == WithPointers(ReplayPointers(edits)[c.level := Some(c.compactPointer)],
        CompactionEdit(c, outputs).compactPointers)
  {
    var last := Stamped(CompactionEdit(c, outputs), m);
    var update := [(c.level, c.compactPointer)];
    assert (edits + [last])[..|edits|] == edits && last.compactPointers == update;
    hide ReplayPointers;
    PointerSet(ReplayPointers(edits), update);
    PointerSet(ReplayPointers(edits)[c.level := Some(c.compactPointer)], update);
  }

  lemma OutputIsPlaceable(v: Version, level: nat, lo: UserKey, hi: UserKey, maxGrandParentOverlap: nat)
    requires IsOutputLevel(v, level, lo, hi, maxGrandParentOverlap)
    ensures Placeable(v, level, lo, hi)
  {
  }

  lemma FlushIs(s: Store.State, level: nat, tables: seq<File>, s': Store.State)
    requires s.imm.Some? && s.logs != [] && Store.FlushedTables(s, level, tables)
    requires Applied(s.version, AddEdit(level, tables), s'.version)
    requires s'.manifest == Manifest(Store.LastLog(s).number, s.nextFile + 1, s.lastSequence)
    requires s'.edits == s.edits + [Stamped(AddEdit(level, tables), s'.manifest)]
    requires s' == s.(imm := None, version := s'.version, nextFile := s.nextFile + 1, edits := s'.edits,
                      manifest := s'.manifest, flushed := s.flushed + Store.ImmContents(s))
    ensures Store.Flush(s, level, tables, s')
  {
    hide Store.FlushedTables, Applied, AddEdit, Stamped, Store.ImmContents;
  }

  lemma CrashIs(s: Store.State, keep: seq<nat>, base: Version, tables: seq<File>, m: Manifest, s': Store.State)
    requires s.logs != [] && Store.IsCut(s.logs, keep) && Replays(s.edits, base) && FoundNumbers(s.edits) == Some(m)
    requires var logs := Store.Truncate(s.logs, keep);
      var replay := Store.LogsContents(Store.LiveLogs(logs, m.logNumber));
      && Store.RecoveredTables(replay, tables, m.nextFile, s'.manifest.nextFile)
      && Store.IsLastSequence(s'.lastSequence, m.lastSequence, replay)
      && s'.logs == logs + [Store.Log(s'.manifest.logNumber, [])]
      && s'.written == s'.flushed == s.flushed + replay
    requires Applied(base, AddEdit(0, tables), s'.version) && Store.LogNumbersBelow(s.logs, s'.manifest.logNumber)
    requires s'.manifest.logNumber < s'.nextFile && m.nextFile <= s'.nextFile
    requires s'.manifest == Manifest(s'.manifest.logNumber, s'.nextFile, s'.lastSequence)
    requires s'.edits == [SnapshotEdit(s.comparator, ReplayPointers(s.edits), base),
      Stamped(AddEdit(0, tables), s'.manifest)]
    requires s'.comparator == s.comparator && s'.mem == [] && s'.imm == None && s'.snapshots == []
    requires s'.horizon == s.horizon
    ensures Store.CrashAndRecover(s, keep, base, tables, s')
  {
    hide Store.RecoveredTables, Store.IsLastSequence, Applied, Replays, FoundNumbers, AddEdit, SnapshotEdit, Stamped;
    hide Store.LogsContents, Store.LiveLogs, Store.Truncate, Store.LogNumbersBelow, ReplayPointers;
  }

  // The checks of SaveTo do not fire.
  lemma ChecksHold(s: Store.State)
    requires Store.Inv(s)
    ensures forall l :: 0 < l < NUM_LEVELS ==> AdjacentDisjoint(s.version[l])
  {
    hide GoodVersion, Store.LogsInv, Store.MemoryInv, Store.TablesAgree, Store.NumbersInv, Store.ManifestInv;
    hide AdjacentDisjoint;
    GoodHasNoOverlap(s.version);
  }

  lemma InstalledIsChecked(v: Version, c: Compaction, outputs: seq<File>, v': Version)
    requires GoodVersion(v) && GoodCompaction(v, c) && GoodOutputs(c, outputs) && NumbersFit(v, c, outputs)
    requires Applied(v, CompactionEdit(c, outputs), v')
    ensures forall l :: 0 < l < NUM_LEVELS ==> AdjacentDisjoint(v'[l])
  {
    hide *;
    CompactionEditInstalls(v, c, outputs, v');
    InstalledIsGood(v, c, outputs, v');
    GoodHasNoOverlap(v');
  }

  // A flushed table may be added; nothing may be, too.
  lemma FlushEditFits(s: Store.State, level: nat, tables: seq<File>)
    requires Store.Inv(s) && s.imm.Some? && Store.FlushedTables(s, level, tables)
    ensures EditFits(s.version, AddEdit(level, tables))
  {
    hide GoodVersion, Store.LogsInv, Store.MemoryInv, Store.TablesAgree, Store.NumbersInv, Store.ManifestInv;
    hide Placeable, EditFits, Addable, AddEdit, ValidFile;
    if tables == [] {
      NoTablesFit(s.version, level, tables);
    } else {
      StoreInvariant.FlushIsAddable(s, level, tables[0]);
      assert Files(tables) == {tables[0]};
      AddEditFits(s.version, level, tables);
    }
  }

  lemma NoTablesFit(v: Version, level: nat, tables: seq<File>)
    requires tables == []
    ensures EditFits(v, AddEdit(level, tables))
  {
    FilesAtLevel(level, tables);
  }

  lemma HasLogs(s: Store.State)
    requires Store.Inv(s)
    ensures s.logs != []
  {
  }

  lemma TablesBelowNextFile(s: Store.State)
    requires Store.NumbersInv(s)
    ensures NumbersBelow(s.version, s.nextFile)
  {
  }

  lemma GoodIsSorted(v: Version)
    requires GoodVersion(v)
    ensures SortedLevels(v)
  {
  }

  lemma SmallestSnapshotInRange(s: Store.State)
    requires Store.NumbersInv(s)
    ensures Store.SmallestSnapshot(s) < MAX_SEQUENCE
  {
  }

  // Merges the inputs and writes the output tables.
  method CompactTables(v: Version, c: Compaction, smallest: nat, stopBefore: nat -> bool, sizeOf: seq<Entry> -> nat,
                       maxFileSize: nat, nextFile: nat) returns (tables: seq<File>, next: nat)
    requires GoodVersion(v) && GoodCompaction(v, c) && NumbersBelow(v, nextFile) && smallest < MAX_SEQUENCE
    ensures CompactedOutputs(v, c, smallest, tables) && GoodOutputs(c, tables) && NumbersFit(v, c, tables)
    ensures OneFilePerNumber(Files(tables)) && next >= nextFile
    ensures forall o :: o in tables ==> nextFile <= o.number < next
  {
    hide *;
    StoreInvariant.GoodIsOrdered(v);
    var all := c.inputs0 + c.inputs1;
    var runs: seq<seq<Entry>> := seq(|all|, i requires 0 <= i < |all| => all[i].entries);
    InputRunsMergeable(v, c, runs);
    var input := Merge(runs);
    InputIsDistinct(v, c, Contents(input));
    tables, next := DoCompactionWork(v, c.level, input, smallest, stopBefore, sizeOf, maxFileSize, nextFile);
    OutputsFit(v, c, smallest, tables, nextFile, next);
  }

  lemma InputRunsMergeable(v: Version, c: Compaction, runs: seq<seq<Entry>>)
    requires GoodVersion(v) && GoodCompaction(v, c)
    requires var all := c.inputs0 + c.inputs1;
      |runs| == |all| && forall i :: 0 <= i < |all| ==> runs[i] == all[i].entries
    ensures Mergeable(runs) && RunsContents(runs) == InputContents(c)
  {
    hide GoodVersion, OlderGoesFirst, Separated, SameUserRange, ValidFile;
    InputsAreMembers(v, c);
    var all, n := c.inputs0 + c.inputs1, |c.inputs0|;
    forall i | 0 <= i < |runs| ensures Sorted(runs[i]) {
      RunIsSorted(all, i);
    }
    forall i, j, a, b | 0 <= i < j < |runs| && a in runs[i] && b in runs[j] ensures a.key != b.key {
      var l, m := if i < n then c.level else c.level + 1, if j < n then c.level else c.level + 1;
      InputIsInLevel(v, c, i);
      InputIsInLevel(v, c, j);
      if a.key == b.key {
        SameKeySameFile(v, l, m, all[i], all[j], a, b);
        InputsHaveNoDuplicates(v, c, i, j);
        assert false;
      }
    }
    RunsAreInputs(c, runs);
  }

  lemma InputIsInLevel(v: Version, c: Compaction, i: nat)
    requires GoodCompaction(v, c) && i < |c.inputs0 + c.inputs1|
    ensures (c.inputs0 + c.inputs1)[i] in v[if i < |c.inputs0| then c.level else c.level + 1]
  {
    hide OlderGoesFirst, Separated, SameUserRange;
    var all, n := c.inputs0 + c.inputs1, |c.inputs0|;
    assert all[i] == if i < n then c.inputs0[i] else c.inputs1[i - n];
    assert if i < n then all[i] in c.inputs0 else all[i] in c.inputs1;
  }

  lemma RunIsSorted(all: seq<File>, i: nat)
    requires ValidFiles(all) && i < |all|
    ensures Sorted(all[i].entries)
  {
  }

  lemma InputsHaveNoDuplicates(v: Version, c: Compaction, i: nat, j: nat)
    requires GoodCompaction(v, c)
    requires i < j < |c.inputs0 + c.inputs1| && (i < |c.inputs0| <==> j < |c.inputs0|)
    ensures (c.inputs0 + c.inputs1)[i] != (c.inputs0 + c.inputs1)[j]
  {
    hide OlderGoesFirst, Separated, SameUserRange;
    var all, n := c.inputs0 + c.inputs1, |c.inputs0|;
    if i < n {
      assert all[i] == c.inputs0[i] && all[j] == c.inputs0[j];
    } else {
      assert all[i] == c.inputs1[i - n] && all[j] == c.inputs1[j - n];
    }
  }

  lemma RunsAreInputs(c: Compaction, runs: seq<seq<Entry>>)
    requires var all := c.inputs0 + c.inputs1;
      |runs| == |all| && forall i :: 0 <= i < |all| ==> runs[i] == all[i].entries
    ensures RunsContents(runs) == InputContents(c)
  {
    var all := c.inputs0 + c.inputs1;
    forall e | e in RunsContents(runs) ensures e in InputContents(c) {
      var run :| run in runs && e in run;
      var i :| 0 <= i < |runs| && runs[i] == run;
      assert all[i] in all;
    }
    forall f, e | f in all && e in f.entries ensures e in RunsContents(runs) {
      var i :| 0 <= i < |all| && all[i] == f;
      assert runs[i] in runs;
    }
    forall e | e in InputContents(c) ensures e in RunsContents(runs) {
      if e in LevelContents(c.inputs0) {
        var f :| f in c.inputs0 && e in f.entries;
        assert f in all;
      } else {
        var f :| f in c.inputs1 && e in f.entries;
        assert f in all;
      }
    }
  }

  lemma InputIsDistinct(v: Version, c: Compaction, I: set<Entry>)
    requires GoodVersion(v) && GoodCompaction(v, c) && I == InputContents(c)
    ensures DistinctSequences(I)
  {
    hide GoodCompaction, VersionContents, InputContents, WellFormedVersion;
    InputsAreInVersion(v, c);
  }

  lemma InputsAreInVersion(v: Version, c: Compaction)
    requires GoodVersion(v) && GoodCompaction(v, c)
    ensures InputContents(c) <= VersionContents(v)
  {
    hide GoodVersion, VersionContents, LevelContents, OlderGoesFirst, Separated, SameUserRange;
    InputsAreMembers(v, c);
    forall e | e in InputContents(c) ensures e in VersionContents(v) {
      ContentsOfVersion(v, e);
      assert e in LevelContents(v[c.level]) || e in LevelContents(v[c.level + 1]);
    }
  }

  lemma OutputsFit(v: Version, c: Compaction, smallest: nat, tables: seq<File>, first: nat, next: nat)
    requires NumbersBelow(v, first) && GoodCompaction(v, c)
    requires ValidFiles(tables) && SortedDisjoint(tables)
    requires LevelContents(tables) == Kept(InputContents(c), smallest, BaseKeys(v, c.level, InputContents(c)))
    requires next == first + |tables|
    requires forall i :: 0 <= i < |tables| ==> tables[i].number == first + i
    ensures CompactedOutputs(v, c, smallest, tables) && GoodOutputs(c, tables) && NumbersFit(v, c, tables)
    ensures OneFilePerNumber(Files(tables)) && forall o :: o in tables ==> first <= o.number < next
  {
    hide LevelContents, BaseKeys, SortedDisjoint, ValidFile, GoodCompaction, InputContents, Dropped;
    forall o | o in tables ensures first <= o.number < next {
      var i :| 0 <= i < |tables| && tables[i] == o;
    }
    forall f, g | f in tables && g in tables && f.number == g.number ensures f == g {
      var i :| 0 <= i < |tables| && tables[i] == f;
      var j :| 0 <= j < |tables| && tables[j] == g;
      assert i == j;
    }
  }
}
