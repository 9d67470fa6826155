/**
 A crash that loses a middle stretch of the writes: the log of the immutable
 memtable is closed without being synced (MakeRoomForWrite in db/db_impl.cc), so it
 may lose its end while the current log keeps what was written later.
 */
module CrashGap {
  import opened Basics
  import opened InternalKeys
  import opened Reads
  import opened Tables
  import opened VersionBuilder
  import opened Store
  import opened CrashedLogs
  import opened EditSteps
  import opened StoreInvariant
  import opened StoreRuns
  import opened ReachedStates

  const OLDER := Entry(InternalKey(1.0, 1, TypeValue), [1])
  const NEWER := Entry(InternalKey(2.0, 2, TypeValue), [2])
  const TABLE := File(5, 1, NEWER.key, NEWER.key, [NEWER])
  const RECOVERED: Version := [[TABLE], [], [], [], [], [], []]

  const LOGS := [Log(3, [[OLDER]]), Log(4, [[NEWER]])]
  // The older log loses its record, the newer one none.
  const KEEP: seq<nat> := [0, 1]

  lemma AppendToEmpty(logs: seq<Log>, number: nat, record: seq<Entry>)
    ensures Append(logs + [Log(number, [])], record) == logs + [Log(number, [record])]
  {
    assert (logs + [Log(number, [])])[..|logs|] == logs;
    assert [] + [record] == [record];
  }

  // One write, a memtable switch, and another write.
  lemma TwoLiveLogs() returns (s: State)
    ensures s.logs == LOGS && s.manifest.logNumber == 3 && s.written == {OLDER, NEWER}
    ensures s.version == EMPTY_VERSION && s.flushed == {} && s.manifest == Manifest(3, 4, 0)
    ensures Reached(s)
  {
    hide Reached;
    s := NewStore();
    AppendToEmpty([], 3, [OLDER]);
    assert [] + [Log(3, [])] == s.logs;
    s := WriteTo(s, [OLDER], [OLDER]);
    assert s.logs == [] + [Log(3, [[OLDER]])] == [Log(3, [[OLDER]])];
    s := SwitchTo(s);
    AppendToEmpty([Log(3, [[OLDER]])], 4, [NEWER]);
    s := WriteTo(s, [NEWER], [NEWER]);
    assert s.logs == [Log(3, [[OLDER]])] + [Log(4, [[NEWER]])] && s.written == {OLDER, NEWER};
  }

  lemma LeftAndLost()
    ensures IsCut(LOGS, KEEP) && Lost(LOGS, KEEP, 0) == {OLDER} && Left(LOGS, KEEP, 0) == {}
    ensures Lost(LOGS, KEEP, 1) == {} && Left(LOGS, KEEP, 1) == {NEWER}
  {
    assert [[OLDER]][0..] == [[OLDER]] && [[OLDER]][..0] == [] && [[NEWER]][1..] == [] && [[NEWER]][..1] == [[NEWER]];
    OneRecordContents([OLDER]);
    OneRecordContents([NEWER]);
    EmptyRecords();
  }

  lemma OlderIsLost()
    ensures IsCut(LOGS, KEEP) && !NoGap(LOGS, KEEP, 3) && LostEntries(LOGS, KEEP, 3) == {OLDER}
  {
    LeftAndLost();
    hide Lost, Left;
    assert LOGS[0].number == 3 && LOGS[1].number == 4;
  }

  lemma NewerIsLeft()
    ensures IsCut(LOGS, KEEP) && LogsContents(LiveLogs(Truncate(LOGS, KEEP), 3)) == {NEWER}
  {
    assert [[OLDER]][..0] == [] && [[NEWER]][..1] == [[NEWER]];
    var logs := Truncate(LOGS, KEEP);
    assert logs == [Log(3, []), Log(4, [[NEWER]])];
    NewerIsLive(logs);
  }

  lemma NewerIsLive(logs: seq<Log>)
    requires logs == [Log(3, []), Log(4, [[NEWER]])]
    ensures LogsContents(LiveLogs(logs, 3)) == {NEWER}
  {
    hide LiveLogs, LogsContents, RecordsContents;
    LiveLast(logs, 3);
    LiveLast([Log(3, [])], 3);
    assert logs[..1] == [Log(3, [])] && [Log(3, [])][..0] == [];
    EmptyRecords();
    NothingLive();
    OneRecordContents([NEWER]);
    assert Contents([NEWER]) == {NEWER};
  }

  lemma NothingLive()
    ensures LiveLogs([], 3) == []
  {
  }

  lemma NewerIsRecovered()
    ensures RecoveredTables({NEWER}, [TABLE], 4, 7) && Applied(EMPTY_VERSION, AddEdit(0, [TABLE]), RECOVERED)
    ensures IsLastSequence(2, 0, {NEWER}) && LOGS != [] && LogNumbersBelow(LOGS, 6)
    ensures OLDER.key.sequence < NEWER.key.sequence
  {
    AddsAlone(EMPTY_VERSION, 0, TABLE);
    assert EMPTY_VERSION[0 := [TABLE]] == RECOVERED;
    assert TABLE in [TABLE] && NEWER in TABLE.entries;
    forall e | e in LevelContents([TABLE]) ensures e == NEWER {}
    assert LevelContents([TABLE]) == {NEWER};
    assert NEWER in {NEWER} && NEWER.key.sequence == 2;
    hide Applied, AddEdit;
  }

  // A run reaches a state, and a crash that cuts the older log and not the newer
  // one another, where the later write is found and the earlier is not.
  lemma MiddleStretchIsLost() returns (s: State, tables: seq<File>, s': State)
    ensures Reached(s) && CrashAndRecover(s, KEEP, s.version, tables, s') && Reached(s')
    ensures !NoGap(s.logs, KEEP, s.manifest.logNumber)
    ensures s.written == {OLDER, NEWER} && s'.written == {NEWER} && OLDER.key.sequence < NEWER.key.sequence
  {
    hide *;
    s := TwoLiveLogs();
    tables := [TABLE];
    OlderIsLost();
    NewerIsLeft();
    NewerIsRecovered();
    s' := RecoverTo(s, KEEP, tables, RECOVERED, Manifest(6, 7, 2));
  }
}
