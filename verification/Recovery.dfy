/**
 Replaying the logs after a crash (DBImpl::Recover and RecoverLogFile in
 db/db_impl.cc).
 */
module Recovery {
  import opened Basics
  import opened InternalKeys
  import opened Reads
  import opened Tables
  import opened VersionReads
  import opened VersionSteps
  import opened Store
  import opened CrashedLogs
  import opened StoreInvariant
  import opened MemTables

  // The tables written so far and the memtable being filled hold the entries
  // read so far, oldest first.
  ghost predicate Replayed(read: set<Entry>, tables: seq<File>, mem: seq<Entry>, first: nat, next: nat) {
    && ValidFiles(tables) && Sorted(mem) && first <= next
    && LevelContents(tables) + Contents(mem) == read
    && (forall i :: 0 <= i < |tables| ==> first <= tables[i].number < next)
    && (forall i, j :: 0 <= i < j < |tables| ==> tables[i].number < tables[j].number)
    && (forall i, j :: 0 <= i < j < |tables| ==> Above(Contents(tables[j].entries), Contents(tables[i].entries)))
    && (forall i :: 0 <= i < |tables| ==> Above(Contents(mem), Contents(tables[i].entries)))
  }

  lemma ReplayedTables(read: set<Entry>, tables: seq<File>, first: nat, next: nat)
    requires Replayed(read, tables, [], first, next)
    ensures RecoveredTables(read, tables, first, next)
  {
  }

  lemma NothingReplayed(first: nat)
    ensures Replayed({}, [], [], first, first)
  {
  }

  // The memtable becomes a level-0 table with the next file number.
  lemma WriteTable(read: set<Entry>, tables: seq<File>, mem: seq<Entry>, first: nat, next: nat, size: nat)
    requires Replayed(read, tables, mem, first, next) && mem != []
    ensures Replayed(read, tables + [NewTable(next, size, mem)], [], first, next + 1)
  {
    var f := NewTable(next, size, mem);
    var longer := tables + [f];
    TableAppended(tables, f);
    assert Contents([]) == {};
    hide LevelContents, Contents, Sorted, ValidFile, NewTable, Above;
    forall i, j | 0 <= i < j < |longer| ensures Above(Contents(longer[j].entries), Contents(longer[i].entries)) {
      assert longer[i] == tables[i];
    }
    forall i | 0 <= i < |longer| ensures Above(Contents([]), Contents(longer[i].entries)) {
      NothingAbove(Contents(longer[i].entries));
    }
  }

  lemma TableAppended(tables: seq<File>, f: File)
    ensures LevelContents(tables + [f]) == LevelContents(tables) + Contents(f.entries)
  {
    assert forall g :: g in tables + [f] <==> g in tables || g == f;
  }

  lemma NothingAbove(S: set<Entry>)
    ensures Above(Contents([]), S)
  {
  }

  lemma SkipNumber(read: set<Entry>, tables: seq<File>, mem: seq<Entry>, first: nat, next: nat)
    requires Replayed(read, tables, mem, first, next)
    ensures Replayed(read, tables, mem, first, next + 1)
  {
  }

  // A newer entry goes to the memtable.
  lemma InsertEntry(read: set<Entry>, tables: seq<File>, mem: seq<Entry>, first: nat, next: nat, e: Entry,
                    mem': seq<Entry>)
    requires Replayed(read, tables, mem, first, next) && Above({e}, read)
    requires Sorted(mem') && Contents(mem') == Contents(mem) + {e}
    ensures Replayed(read + {e}, tables, mem', first, next)
  {
    forall i | 0 <= i < |tables| ensures Above(Contents(mem'), Contents(tables[i].entries)) {
      TableIsRead(tables, i);
      hide LevelContents, Sorted, ValidFiles;
    }
  }

  lemma TableIsRead(tables: seq<File>, i: nat)
    requires i < |tables|
    ensures Contents(tables[i].entries) <= LevelContents(tables)
  {
    assert tables[i] in tables;
  }

  lemma MaxGrows(S: set<Entry>, low: nat, n: nat, e: Entry)
    requires IsLastSequence(n, low, S)
    ensures IsLastSequence(if e.key.sequence > n then e.key.sequence else n, low, S + {e})
  {
    assert e in S + {e};
  }

  // One record: its entries go to the memtable in order.
  method InsertRecord(record: seq<Entry>, mem: seq<Entry>, maxSequence: nat,
                      ghost read: set<Entry>, ghost tables: seq<File>, ghost first: nat, ghost next: nat,
                      ghost low: nat)
    returns (mem': seq<Entry>, max': nat)
    requires Replayed(read, tables, mem, first, next) && IsLastSequence(maxSequence, low, read)
    requires AscendingRecord(record) && Above(Contents(record), read)
    ensures Replayed(read + Contents(record), tables, mem', first, next)
    ensures IsLastSequence(max', low, read + Contents(record))
  {
    hide Replayed, IsLastSequence, AscendingRecord;
    mem', max' := mem, maxSequence;
    assert read + Contents([]) == read;
    for i := 0 to |record|
      invariant Replayed(read + Contents(record[..i]), tables, mem', first, next)
      invariant IsLastSequence(max', low, read + Contents(record[..i]))
    {
      var e := record[i];
      ghost var seen := read + Contents(record[..i]);
      RecordPrefix(record, i, read);
      MemBelow(seen, tables, mem', first, next, e);
      var grown := Add(mem', e);
      InsertEntry(seen, tables, mem', first, next, e, grown);
      MaxGrows(seen, low, max', e);
      mem' := grown;
      if e.key.sequence > max' { max' := e.key.sequence; }
      assert seen + {e} == read + Contents(record[..i + 1]);
    }
    assert record[..|record|] == record;
  }

  lemma RecordPrefix(record: seq<Entry>, i: nat, read: set<Entry>)
    requires i < |record| && AscendingRecord(record) && Above(Contents(record), read)
    ensures Above({record[i]}, read + Contents(record[..i]))
    ensures Contents(record[..i + 1]) == Contents(record[..i]) + {record[i]}
  {
    assert record[..i + 1] == record[..i] + [record[i]];
    assert record[i] in Contents(record);
  }

  lemma MemBelow(read: set<Entry>, tables: seq<File>, mem: seq<Entry>, first: nat, next: nat, e: Entry)
    requires Replayed(read, tables, mem, first, next) && Above({e}, read)
    ensures Sorted(mem) && forall x :: x in mem ==> x.key.sequence < e.key.sequence
  {
    assert forall x :: x in mem ==> x in Contents(mem);
  }

  // RecoverLogFile: whenever the memtable is over the write buffer size, and at
  // the end of the log, it becomes a level-0 table.
  method RecoverLogFile(records: seq<seq<Entry>>, tables0: seq<File>, maxSequence: nat, nextFile: nat,
                        full: seq<Entry> -> bool, sizeOf: seq<Entry> -> nat, ghost read: set<Entry>, ghost first: nat,
                        ghost low: nat)
    returns (tables: seq<File>, max': nat, next: nat)
    requires Replayed(read, tables0, [], first, nextFile) && IsLastSequence(maxSequence, low, read)
    requires LaterRecordsAbove(records) && Above(RecordsContents(records), read)
    ensures Replayed(read + RecordsContents(records), tables, [], first, next)
    ensures IsLastSequence(max', low, read + RecordsContents(records)) && next >= nextFile
  {
    hide Replayed, IsLastSequence, LaterRecordsAbove, RecordsContents;
    tables, max', next := tables0, maxSequence, nextFile;
    var mem: Option<seq<Entry>> := None;
    EmptyRecords();
    assert read + {} == read;
    for i := 0 to |records|
      invariant Replayed(read + RecordsContents(records[..i]), tables, if mem.Some? then mem.value else [], first, next)
      invariant IsLastSequence(max', low, read + RecordsContents(records[..i])) && next >= nextFile
    {
      NextRecord(records, i, read);
      ghost var seen := read + RecordsContents(records[..i]);
      assert read + RecordsContents(records[..i + 1]) == seen + Contents(records[i]);
      if mem.None? { mem := Some([]); }
      var grown;
      grown, max' := InsertRecord(records[i], mem.value, max', seen, tables, first, next, low);
      mem := Some(grown);
      if full(grown) {
        tables, next := WriteLevel0Table(tables, grown, next, sizeOf, seen + Contents(records[i]), first);
        mem := None;
      }
    }
    assert records[..|records|] == records;
    if mem.Some? {
      tables, next := WriteLevel0Table(tables, mem.value, next, sizeOf, read + RecordsContents(records), first);
    }
  }

  // An empty memtable uses up a number but leaves no table.
  method WriteLevel0Table(tables0: seq<File>, mem: seq<Entry>, nextFile: nat, sizeOf: seq<Entry> -> nat,
                          ghost read: set<Entry>, ghost first: nat)
    returns (tables: seq<File>, next: nat)
    requires Replayed(read, tables0, mem, first, nextFile)
    ensures Replayed(read, tables, [], first, next) && next == nextFile + 1
  {
    next := nextFile + 1;
    if mem == [] {
      SkipNumber(read, tables0, mem, first, nextFile);
      tables := tables0;
    } else {
      WriteTable(read, tables0, mem, first, nextFile, sizeOf(mem));
      tables := tables0 + [NewTable(nextFile, sizeOf(mem), mem)];
    }
  }

  lemma NextRecord(records: seq<seq<Entry>>, i: nat, read: set<Entry>)
    requires i < |records| && LaterRecordsAbove(records) && Above(RecordsContents(records), read)
    ensures AscendingRecord(records[i]) && Above(Contents(records[i]), read + RecordsContents(records[..i]))
    ensures RecordsContents(records[..i + 1]) == RecordsContents(records[..i]) + Contents(records[i])
  {
    assert records[..i + 1] == records[..i] + [records[i]];
    RecordsContentsConcat(records[..i], [records[i]]);
    OneRecordContents(records[i]);
    forall e | e in RecordsContents(records[..i])
      ensures forall x :: x in records[i] ==> x.key.sequence > e.key.sequence
    {
      var r :| r in records[..i] && e in r;
      var j :| 0 <= j < i && records[j] == r;
      assert Above(Contents(records[i]), Contents(records[j]));
    }
    assert records[i] in records;
  }

  // All live logs, in the order of their numbers.  Numbers of replayed logs are
  // marked as used only after their tables got theirs.
  method RecoverLogs(logs: seq<Log>, minLog: nat, nextFile: nat, lastSequence: nat,
                     full: seq<Entry> -> bool, sizeOf: seq<Entry> -> nat)
    returns (tables: seq<File>, max': nat, next: nat)
    requires LaterRecordsAbove(AllRecords(LiveLogs(logs, minLog)))
    ensures var replay := LogsContents(LiveLogs(logs, minLog));
      RecoveredTables(replay, tables, nextFile, next) && IsLastSequence(max', lastSequence, replay)
    ensures next >= nextFile && forall log :: log in LiveLogs(logs, minLog) ==> log.number < next
  {
    hide Replayed, IsLastSequence, LaterRecordsAbove, RecordsContents, AllRecords, LiveLogs, RecoveredTables;
    var live := LiveLogs(logs, minLog);
    tables, max', next := [], lastSequence, nextFile;
    NothingReplayed(nextFile);
    EmptyRecords();
    NoEntries(lastSequence);
    assert live[..0] == [];
    for i := 0 to |live|
      invariant Replayed(LogsContents(live[..i]), tables, [], nextFile, next)
      invariant IsLastSequence(max', lastSequence, LogsContents(live[..i]))
      invariant next >= nextFile && forall j :: 0 <= j < i ==> live[j].number < next
    {
      NextLog(live, i);
      tables, max', next :=
        RecoverLogFile(live[i].records, tables, max', next, full, sizeOf, LogsContents(live[..i]), nextFile,
                       lastSequence);
      if next <= live[i].number {
        MoreNumbers(LogsContents(live[..i + 1]), tables, [], nextFile, next, live[i].number + 1);
        next := live[i].number + 1;
      }
    }
    assert live[..|live|] == live;
    ReplayedTables(LogsContents(live), tables, nextFile, next);
  }

  lemma NoEntries(low: nat)
    ensures IsLastSequence(low, low, {})
  {
  }

  lemma MoreNumbers(read: set<Entry>, tables: seq<File>, mem: seq<Entry>, first: nat, next: nat, next': nat)
    requires Replayed(read, tables, mem, first, next) && next <= next'
    ensures Replayed(read, tables, mem, first, next')
  {
  }

  lemma NextLog(live: seq<Log>, i: nat)
    requires i < |live| && LaterRecordsAbove(AllRecords(live))
    ensures LaterRecordsAbove(live[i].records)
    ensures Above(RecordsContents(live[i].records), LogsContents(live[..i]))
    ensures LogsContents(live[..i + 1]) == LogsContents(live[..i]) + RecordsContents(live[i].records)
  {
    hide LaterRecordsAbove, RecordsContents, AllRecords, Above;
    SplitLogs(live, i);
    LaterRecordsSuffix(AllRecords(live[..i + 1]), AllRecords(live[i + 1..]));
    LaterRecordsSuffix(AllRecords(live[..i]), live[i].records);
    RecordsContentsConcat(AllRecords(live[..i]), live[i].records);
    LaterHalfAbove(AllRecords(live[..i]), live[i].records);
  }

  lemma SplitLogs(live: seq<Log>, i: nat)
    requires i < |live|
    ensures AllRecords(live) == AllRecords(live[..i + 1]) + AllRecords(live[i + 1..])
    ensures AllRecords(live[..i + 1]) == AllRecords(live[..i]) + live[i].records
  {
    hide AllRecords, LogsContents, RecordsContents;
    SplitAt(live, i);
    AllRecordsConcat(live[..i + 1], live[i + 1..]);
    AllRecordsConcat(live[..i], [live[i]]);
    OneLog(live[i]);
  }

  lemma SplitAt<T>(s: seq<T>, i: nat)
    requires i < |s|
    ensures s == s[..i + 1] + s[i + 1..] && s[..i + 1] == s[..i] + [s[i]]
  {
  }
}
