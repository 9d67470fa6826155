/** What the steps of the store do: which files, logs and snapshots are there after them. */
module StoreEffects {
  import opened Basics
  import opened InternalKeys
  import opened Reads
  import opened Tables
  import opened CompactionPicking
  import opened CompactionWork
  import opened VersionBuilder
  import opened VersionSteps
  import opened EditSteps
  import opened Store
  import opened StoreInvariant

  lemma SwitchStartsAfresh(s: State, s': State)
    requires SwitchMemTable(s, s')
    ensures s'.mem == [] && s'.imm == Some(s.mem) && s'.written == s.written && s'.version == s.version
    ensures s'.logs == s.logs + [Log(s.nextFile, [])] && s'.nextFile > s.nextFile
  {
  }

  // After a flush the entries of the immutable memtable are in one new table of the
  // level, and no log but the current one is needed any more.
  lemma FlushSaves(s: State, level: nat, tables: seq<File>, s': State)
    requires Inv(s) && Flush(s, level, tables, s')
    ensures s'.imm == None && s'.mem == s.mem && s'.logs == s.logs
    ensures forall l :: 0 <= l < NUM_LEVELS ==>
      Files(s'.version[l]) == Files(s.version[l]) + if l == level then Files(tables) else {}
    ensures if s.imm.value == [] then tables == [] else |tables| == 1 && tables[0].entries == s.imm.value
    ensures LiveLogs(s'.logs, s'.manifest.logNumber) == [LastLog(s)]
  {
    AddEditAdds(s.version, level, tables, s'.version);
    hide GoodVersion, MemoryInv, NumbersInv, TablesAgree, ManifestInv, Applied, AddEdit, Stamped;
    OnlyLastIsLive(s.logs);
  }

  lemma {:induction false} NoneIsLive(logs: seq<Log>, n: nat)
    requires forall i :: 0 <= i < |logs| ==> logs[i].number < n
    ensures LiveLogs(logs, n) == []
  {
    if logs != [] { NoneIsLive(logs[1..], n); }
  }

  lemma OnlyLastIsLive(logs: seq<Log>)
    requires logs != [] && AscendingLogs(logs)
    ensures LiveLogs(logs, logs[|logs| - 1].number) == [logs[|logs| - 1]]
  {
    var n := |logs| - 1;
    var last := logs[n].number;
    NoneIsLive(logs[..n], last);
    LiveLogsConcat(logs[..n], [logs[n]], last);
    assert logs == logs[..n] + [logs[n]] && [logs[n]][1..] == [];
  }

  // A trivial move takes a file out of its level and puts it into the next.
  lemma MoveMoves(s: State, c: Compaction, s': State, f: File)
    requires Inv(s) && TrivialMove(s, c, s') && c.inputs0 == [f]
    ensures c.level + 1 < NUM_LEVELS && f in s.version[c.level]
    ensures forall l :: 0 <= l < NUM_LEVELS ==>
      Files(s'.version[l]) ==
        if l == c.level then Files(s.version[l]) - {f} else if l == c.level + 1 then Files(s.version[l]) + {f}
        else Files(s.version[l])
    ensures s'.mem == s.mem && s'.imm == s.imm && s'.logs == s.logs && s'.written == s.written
  {
    Parts(s);
    MoveInstalls(s, c, s');
    InputsExist(s.version, c);
    hide GoodVersion, GoodCompaction, Inv, LogAndApply, Installed, EndsAtPointer, Files;
    assert f in c.inputs0;
    MovedFiles(s.version, c, s'.version, f);
  }

  lemma MovedFiles(v: Version, c: Compaction, v': Version, f: File)
    requires Installed(v, c, c.inputs0, v') && c.inputs0 == [f] && c.inputs1 == []
    ensures forall l :: 0 <= l < NUM_LEVELS ==>
      Files(v'[l]) == if l == c.level then Files(v[l]) - {f} else if l == c.level + 1 then Files(v[l]) + {f}
                      else Files(v[l])
  {
    hide SortedLevels;
    assert Files(c.inputs0) == {f} && Files(c.inputs1) == {};
    hide Files;
  }

  lemma MoveInstalls(s: State, c: Compaction, s': State)
    requires GoodVersion(s.version) && TrivialMove(s, c, s')
    ensures Installed(s.version, c, c.inputs0, s'.version)
  {
    hide GoodVersion, GoodCompaction, NumbersFit, GoodOutputs, Applied, CompactionEdit, Installed, EndsAtPointer;
    TrivialMoveFits(s.version, c);
    CompactionEditInstalls(s.version, c, c.inputs0, s'.version);
  }

  // A compaction replaces its inputs by tables that hold an entry of theirs unless a
  // newer one of its key is seen by every snapshot, or it is a tombstone that all of
  // them see, of a key in no deeper level.
  lemma CompactReplaces(s: State, c: Compaction, outputs: seq<File>, s': State)
    requires Inv(s) && Compact(s, c, outputs, s')
    ensures c.level + 1 < NUM_LEVELS
    ensures forall l :: 0 <= l < NUM_LEVELS ==>
      Files(s'.version[l]) ==
        if l == c.level then Files(s.version[l]) - Files(c.inputs0)
        else if l == c.level + 1 then Files(s.version[l]) - Files(c.inputs1) + Files(outputs)
        else Files(s.version[l])
    ensures s'.mem == s.mem && s'.imm == s.imm && s'.logs == s.logs && s'.written == s.written
  {
    Parts(s);
    CompactOutputsFit(s, c, outputs, s');
    CompactInstalls(s, c, outputs, s');
    InputsExist(s.version, c);
    hide GoodVersion, GoodCompaction, NumbersFit, GoodOutputs, Applied, CompactionEdit, Inv, CompactedOutputs;
    hide OneFilePerNumber, LogAndApply;
  }

  lemma OutputsHold(s: State, c: Compaction, outputs: seq<File>, s': State, e: Entry)
    requires Compact(s, c, outputs, s')
    ensures e in LevelContents(outputs) <==>
      && e in LevelContents(c.inputs0) + LevelContents(c.inputs1)
      && !(exists newer :: newer in LevelContents(c.inputs0) + LevelContents(c.inputs1)
             && newer.key.user == e.key.user
             && e.key.sequence < newer.key.sequence <= if s.snapshots == [] then s.lastSequence else s.snapshots[0])
      && !(e.key.typ.TypeDeletion?
             && e.key.sequence <= (if s.snapshots == [] then s.lastSequence else s.snapshots[0])
             && forall l, i :: c.level + 2 <= l < NUM_LEVELS && 0 <= i < |s.version[l]| ==>
                  !(s.version[l][i].smallest.user <= e.key.user <= s.version[l][i].largest.user))
  {
    hide GoodCompaction, LogAndApply, LevelContents, SortedDisjoint, ValidFiles, OneFilePerNumber;
  }

  // Deleting obsolete logs leaves those from the log number on, in their order.
  lemma DeleteLeavesLive(s: State, s': State)
    requires DeleteObsoleteLogs(s, s')
    ensures forall log :: log in s'.logs <==> log in s.logs && log.number >= s.manifest.logNumber
    ensures AscendingLogs(s.logs) ==> AscendingLogs(s'.logs)
    ensures s' == s.(logs := s'.logs)
  {
    LiveLogsMembers(s.logs, s.manifest.logNumber);
    if AscendingLogs(s.logs) { LiveAscend(s.logs, s.manifest.logNumber); }
  }

  lemma {:induction false} LiveAscend(logs: seq<Log>, n: nat)
    requires AscendingLogs(logs)
    ensures AscendingLogs(LiveLogs(logs, n))
  {
    if logs != [] {
      LiveAscend(logs[1..], n);
      LiveLogsMembers(logs[1..], n);
      var rest := LiveLogs(logs[1..], n);
      forall j | 0 <= j < |rest| ensures rest[j].number > logs[0].number {
        assert rest[j] in logs[1..];
      }
    }
  }

  // A snapshot is of the last sequence number, and stays until it is released.
  lemma SnapshotsComeAndGo(s: State, taken: State, i: nat, released: State)
    requires GetSnapshot(s, taken) && ReleaseSnapshot(taken, i, released)
    ensures |taken.snapshots| == |s.snapshots| + 1 && taken.snapshots[|s.snapshots|] == s.lastSequence
    ensures forall j :: 0 <= j < |s.snapshots| ==> taken.snapshots[j] == s.snapshots[j]
    ensures multiset(released.snapshots) == multiset(taken.snapshots) - multiset{taken.snapshots[i]}
    ensures i == |s.snapshots| ==> released == s
  {
    var snapshots := taken.snapshots;
    assert snapshots == snapshots[..i] + [snapshots[i]] + snapshots[i + 1..];
    if i == |s.snapshots| { assert released.snapshots == s.snapshots; }
  }
}
