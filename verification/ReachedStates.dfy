/** States that runs of the store reach, one step after another. */
module ReachedStates {
  import opened Basics
  import opened InternalKeys
  import opened Reads
  import opened Tables
  import opened VersionEdits
  import opened VersionBuilder
  import opened VersionSteps
  import opened EditSteps
  import opened Store
  import opened StoreInvariant
  import opened StoreRuns

  // Some run of the store ends in s.
  ghost predicate Reached(s: State) {
    exists states, steps :: states != [] && Run(states, steps) && states[|states| - 1] == s
  }

  lemma Extend(s: State, step: Step, s': State)
    requires Next(s, step, s') && Reached(s)
    ensures Reached(s')
  {
    hide Init, Next;
    var states, steps :| states != [] && Run(states, steps) && states[|states| - 1] == s;
    var more, all := states + [s'], steps + [step];
    forall i | 0 <= i < |all| ensures Next(more[i], all[i], more[i + 1]) {
      if i < |steps| { assert Next(states[i], steps[i], states[i + 1]); }
    }
    assert Run(more, all);
  }

  lemma ReachedHoldsInv(s: State)
    requires Reached(s)
    ensures Inv(s)
  {
    hide Inv, Run;
    var states, steps :| states != [] && Run(states, steps) && states[|states| - 1] == s;
    RunHoldsInv(states, steps, |states| - 1);
  }

  lemma WriteTo(s: State, batch: seq<Entry>, mem: seq<Entry>) returns (s': State)
    requires s.logs != [] && s.lastSequence + |batch| < MAX_SEQUENCE && Sequenced(batch, s.lastSequence)
    requires Sorted(mem) && Contents(mem) == Contents(s.mem) + Contents(batch)
    requires Reached(s)
    ensures s' == s.(mem := mem, lastSequence := s.lastSequence + |batch|, logs := Append(s.logs, batch),
                     written := s.written + Contents(batch))
    ensures Reached(s')
  {
    hide Sequenced, Sorted, Reached;
    s' := s.(mem := mem, lastSequence := s.lastSequence + |batch|, logs := Append(s.logs, batch),
             written := s.written + Contents(batch));
    assert Next(s, WriteStep(batch), s');
    Extend(s, WriteStep(batch), s');
  }

  lemma SwitchTo(s: State) returns (s': State)
    requires s.imm == None && Reached(s)
    ensures s' == s.(imm := Some(s.mem), mem := [], nextFile := s.nextFile + 1, logs := s.logs + [Log(s.nextFile, [])])
    ensures Reached(s')
  {
    s' := s.(imm := Some(s.mem), mem := [], nextFile := s.nextFile + 1, logs := s.logs + [Log(s.nextFile, [])]);
    assert Next(s, SwitchStep, s');
    hide Reached, Next;
    Extend(s, SwitchStep, s');
  }

  lemma NewStore() returns (s: State)
    ensures s.version == EMPTY_VERSION && s.mem == [] && s.imm == None && s.logs == [Log(3, [])]
    ensures s.written == {} == s.flushed
    ensures s.lastSequence == 0 && s.nextFile == 4 && s.snapshots == [] && s.manifest == Manifest(3, 4, 0)
    ensures Reached(s)
  {
    var manifest := Manifest(3, 4, 0);
    s := State([], [], None, EMPTY_VERSION, 0, 4, [], [Log(3, [])],
               [SnapshotEdit([], NO_POINTERS, EMPTY_VERSION), Stamped(FileEdit({}, []), manifest)],
               manifest, {}, {}, 0);
    assert Init(s);
    hide Init;
    assert Run([s], []);
  }

  // A table that is alone in its level.
  lemma AddsAlone(v: Version, level: nat, f: File)
    requires SortedLevels(v) && level < NUM_LEVELS && v[level] == []
    ensures Applied(v, AddEdit(level, [f]), v[level := [f]])
  {
    FilesAtLevel(level, [f]);
    hide AtLevel, BySmallest;
    var edit, v' := AddEdit(level, [f]), v[level := [f]];
    forall l: nat | l < NUM_LEVELS
      ensures SavedLevel(Files(v[l]), DeletedAt(edit, l) - NumbersAt(edit.added, l), AddedAt(edit.added, l), v'[l])
    {
      assert DeletedAt(edit, l) == {};
      assert SortedBySmallest([f]);
    }
  }

  lemma SnapshotTo(s: State) returns (s': State)
    requires Reached(s)
    ensures s' == s.(snapshots := s.snapshots + [s.lastSequence]) && Reached(s')
  {
    s' := s.(snapshots := s.snapshots + [s.lastSequence]);
    assert Next(s, GetSnapshotStep, s');
    hide Reached, Next;
    Extend(s, GetSnapshotStep, s');
  }

  lemma ReleaseFirst(s: State) returns (s': State)
    requires s.snapshots != [] && Reached(s)
    ensures s' == s.(snapshots := s.snapshots[1..]) && Reached(s')
  {
    assert s.snapshots[..0] + s.snapshots[1..] == s.snapshots[1..];
    s' := s.(snapshots := s.snapshots[1..]);
    assert Next(s, ReleaseSnapshotStep(0), s');
    hide Reached, Next;
    Extend(s, ReleaseSnapshotStep(0), s');
  }

  // A crash, and the store opened again with these tables and numbers.
  lemma RecoverTo(s: State, keep: seq<nat>, tables: seq<File>, v: Version, m: Manifest) returns (s': State)
    requires Reached(s) && s.logs != [] && IsCut(s.logs, keep)
    requires var replay := LogsContents(LiveLogs(Truncate(s.logs, keep), s.manifest.logNumber));
      && RecoveredTables(replay, tables, s.manifest.nextFile, m.nextFile)
      && IsLastSequence(m.lastSequence, s.manifest.lastSequence, replay)
    requires Applied(s.version, AddEdit(0, tables), v) && LogNumbersBelow(s.logs, m.logNumber)
    requires m.logNumber < m.nextFile && s.manifest.nextFile <= m.nextFile
    ensures CrashAndRecover(s, keep, s.version, tables, s') && Reached(s')
    ensures s'.written == s.flushed + LogsContents(LiveLogs(Truncate(s.logs, keep), s.manifest.logNumber))
    ensures s'.version == v && s'.manifest == m
  {
    hide Reached, Replays, FoundNumbers, RecoveredTables, Applied, AddEdit, SnapshotEdit, Stamped, ReplayPointers;
    hide LogsContents, LiveLogs, Truncate, IsCut, IsLastSequence, LogNumbersBelow, Inv;
    ReachedHoldsInv(s);
    Parts(s);
    CurrentReplays(s);
    var logs := Truncate(s.logs, keep);
    var all := s.flushed + LogsContents(LiveLogs(logs, s.manifest.logNumber));
    s' := State(s.comparator, [], None, v, m.lastSequence, m.nextFile, [], logs + [Log(m.logNumber, [])],
                [SnapshotEdit(s.comparator, ReplayPointers(s.edits), s.version), Stamped(AddEdit(0, tables), m)],
                m, all, all, s.horizon);
    hide CrashAndRecover;
    Extend(s, RecoverStep(keep, s.version, tables), s');
  }

  lemma CurrentReplays(s: State)
    requires ManifestInv(s)
    ensures Replays(s.edits, s.version) && FoundNumbers(s.edits) == Some(s.manifest)
  {
    hide Replays, FoundNumbers, NeverReused, ValidEdit;
  }
}
