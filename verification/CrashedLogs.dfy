/**
 What a crash of the machine leaves of the logs (db/db_impl.cc, options.h): no log
 is synced unless a write asks for it, and MakeRoomForWrite closes a log without
 syncing it, so every log may lose its last records.
 */
module CrashedLogs {
  import opened Basics
  import opened InternalKeys
  import opened Reads
  import opened Store

  // ----- records in order -----------------------------------------------------------------

  lemma EmptyRecords()
    ensures RecordsContents([]) == {} && Contents([]) == {} && LogsContents([]) == {}
  {
  }

  lemma NoRecordsAbove()
    ensures LaterRecordsAbove([])
  {
  }

  lemma LaterRecordsSuffix(a: seq<seq<Entry>>, b: seq<seq<Entry>>)
    requires LaterRecordsAbove(a + b)
    ensures LaterRecordsAbove(a) && LaterRecordsAbove(b)
  {
    var ab := a + b;
    forall i | 0 <= i < |b| ensures AscendingRecord(b[i]) { assert ab[|a| + i] == b[i]; }
    forall i | 0 <= i < |a| ensures AscendingRecord(a[i]) { assert ab[i] == a[i]; }
    forall i, j | 0 <= i < j < |b| ensures Above(Contents(b[j]), Contents(b[i])) {
      assert ab[|a| + j] == b[j] && ab[|a| + i] == b[i];
    }
    forall i, j | 0 <= i < j < |a| ensures Above(Contents(a[j]), Contents(a[i])) {
      assert ab[j] == a[j] && ab[i] == a[i];
    }
  }

  lemma LaterHalfAbove(a: seq<seq<Entry>>, b: seq<seq<Entry>>)
    requires LaterRecordsAbove(a + b)
    ensures Above(RecordsContents(b), RecordsContents(a))
  {
    var ab := a + b;
    forall x, y | x in RecordsContents(b) && y in RecordsContents(a) ensures x.key.sequence > y.key.sequence {
      var s :| s in b && x in s;
      var j :| 0 <= j < |b| && b[j] == s;
      var r :| r in a && y in r;
      var i :| 0 <= i < |a| && a[i] == r;
      assert ab[i] == r && ab[|a| + j] == s;
    }
  }

  lemma LaterRecordsJoin(a: seq<seq<Entry>>, b: seq<seq<Entry>>)
    requires LaterRecordsAbove(a) && LaterRecordsAbove(b) && Above(RecordsContents(b), RecordsContents(a))
    ensures LaterRecordsAbove(a + b)
  {
    var ab := a + b;
    forall i, j | 0 <= i < j < |ab| ensures Above(Contents(ab[j]), Contents(ab[i])) {
      if i < |a| <= j {
        assert ab[i] in a && ab[j] in b;
        assert Contents(ab[i]) <= RecordsContents(a) && Contents(ab[j]) <= RecordsContents(b);
      }
    }
  }

  lemma FirstRecords(records: seq<seq<Entry>>, k: nat)
    requires k <= |records|
    ensures RecordsContents(records) == RecordsContents(records[..k]) + RecordsContents(records[k..])
    ensures LaterRecordsAbove(records) ==>
      LaterRecordsAbove(records[..k]) && Above(RecordsContents(records[k..]), RecordsContents(records[..k]))
  {
    hide RecordsContents, LaterRecordsAbove;
    assert records == records[..k] + records[k..];
    RecordsContentsConcat(records[..k], records[k..]);
    if LaterRecordsAbove(records) {
      LaterRecordsSuffix(records[..k], records[k..]);
      LaterHalfAbove(records[..k], records[k..]);
    }
  }

  // The records of the live logs, by the last one.
  lemma LiveLast(logs: seq<Log>, n: nat)
    requires logs != []
    ensures var m := |logs| - 1;
      var last := if logs[m].number >= n then logs[m].records else [];
      && AllRecords(LiveLogs(logs, n)) == AllRecords(LiveLogs(logs[..m], n)) + last
      && LogsContents(LiveLogs(logs, n)) == LogsContents(LiveLogs(logs[..m], n)) + RecordsContents(last)
  {
    var m := |logs| - 1;
    var last := if logs[m].number >= n then logs[m].records else [];
    OneLive(logs[m], n);
    hide LiveLogs, AllRecords, RecordsContents;
    assert logs == logs[..m] + [logs[m]];
    LiveLogsConcat(logs[..m], [logs[m]], n);
    AllRecordsConcat(LiveLogs(logs[..m], n), LiveLogs([logs[m]], n));
    RecordsContentsConcat(AllRecords(LiveLogs(logs[..m], n)), last);
  }

  lemma OneLive(log: Log, n: nat)
    ensures AllRecords(LiveLogs([log], n)) == if log.number >= n then log.records else []
  {
    OneLog(log);
    assert [log][1..] == [];
  }

  // ----- what is left, and what is lost ------------------------------------------------------

  ghost function Left(logs: seq<Log>, keep: seq<nat>, i: nat): set<Entry>
    requires IsCut(logs, keep) && i < |logs|
  {
    RecordsContents(logs[i].records[..keep[i]])
  }

  ghost function Lost(logs: seq<Log>, keep: seq<nat>, i: nat): set<Entry>
    requires IsCut(logs, keep) && i < |logs|
  {
    RecordsContents(logs[i].records[keep[i]..])
  }

  // The entries of the records cut off the live logs.
  ghost function LostEntries(logs: seq<Log>, keep: seq<nat>, n: nat): set<Entry>
    requires IsCut(logs, keep)
  {
    set i, e | 0 <= i < |logs| && logs[i].number >= n && e in Lost(logs, keep, i) :: e
  }

  lemma CutFront(logs: seq<Log>, keep: seq<nat>)
    requires IsCut(logs, keep) && logs != []
    ensures var m := |logs| - 1;
      && IsCut(logs[..m], keep[..m]) && Truncate(logs, keep)[..m] == Truncate(logs[..m], keep[..m])
      && Truncate(logs, keep)[m] == Log(logs[m].number, logs[m].records[..keep[m]])
  {
  }

  lemma LostGrows(logs: seq<Log>, keep: seq<nat>, n: nat)
    requires IsCut(logs, keep) && logs != []
    ensures var m := |logs| - 1;
      && IsCut(logs[..m], keep[..m])
      && LostEntries(logs, keep, n) ==
           LostEntries(logs[..m], keep[..m], n) + if logs[m].number >= n then Lost(logs, keep, m) else {}
  {
    hide RecordsContents;
    var m := |logs| - 1;
    forall i | 0 <= i < m ensures Lost(logs, keep, i) == Lost(logs[..m], keep[..m], i) {}
  }

  // What is left and what is lost make up the live logs, with nothing in both; and
  // what is left still ascends.
  lemma {:induction false} CutSplits(logs: seq<Log>, keep: seq<nat>, n: nat)
    requires IsCut(logs, keep) && LaterRecordsAbove(AllRecords(LiveLogs(logs, n)))
    ensures var all, left := LogsContents(LiveLogs(logs, n)), LogsContents(LiveLogs(Truncate(logs, keep), n));
      && all == left + LostEntries(logs, keep, n) && left !! LostEntries(logs, keep, n)
      && LaterRecordsAbove(AllRecords(LiveLogs(Truncate(logs, keep), n)))
  {
    hide LiveLogs, AllRecords, RecordsContents, LaterRecordsAbove, LogsContents, LostEntries, Lost;
    if logs == [] {
      NothingLost(logs, keep, n);
    } else {
      var m := |logs| - 1;
      CutFront(logs, keep);
      LiveLast(logs, n);
      LiveLast(Truncate(logs, keep), n);
      LostGrows(logs, keep, n);
      var last := if logs[m].number >= n then logs[m].records else [];
      var k := if logs[m].number >= n then keep[m] else 0;
      var front := AllRecords(LiveLogs(logs[..m], n));
      LaterRecordsSuffix(front, last);
      LaterHalfAbove(front, last);
      FirstRecords(last, k);
      CutSplits(logs[..m], keep[..m], n);
      LastParts(logs, keep, m);
      ContentsAreRecords(LiveLogs(logs[..m], n));
      EmptyRecords();
      JoinsLast(logs, keep, n, last, k);
    }
  }

  // The last log, after what holds for the others.
  lemma JoinsLast(logs: seq<Log>, keep: seq<nat>, n: nat, last: seq<seq<Entry>>, k: nat)
    requires logs != [] && IsCut(logs, keep) && IsCut(logs[..|logs| - 1], keep[..|logs| - 1])
    requires var m := |logs| - 1;
      if logs[m].number >= n then last == logs[m].records && k == keep[m] else last == [] && k == 0
    requires LaterRecordsAbove(last)
    requires var m := |logs| - 1;
      && LostEntries(logs, keep, n) == LostEntries(logs[..m], keep[..m], n) + RecordsContents(last[k..])
      && AllRecords(LiveLogs(Truncate(logs, keep), n)) ==
         AllRecords(LiveLogs(Truncate(logs[..m], keep[..m]), n)) + last[..k]
      && LogsContents(LiveLogs(Truncate(logs, keep), n)) ==
           LogsContents(LiveLogs(Truncate(logs[..m], keep[..m]), n)) + RecordsContents(last[..k])
      && LogsContents(LiveLogs(logs, n)) == LogsContents(LiveLogs(logs[..m], n)) + RecordsContents(last)
      && Above(RecordsContents(last), LogsContents(LiveLogs(logs[..m], n)))
    requires var m := |logs| - 1;
      var all, left := LogsContents(LiveLogs(logs[..m], n)), LogsContents(LiveLogs(Truncate(logs[..m], keep[..m]), n));
      && all == left + LostEntries(logs[..m], keep[..m], n) && left !! LostEntries(logs[..m], keep[..m], n)
      && LaterRecordsAbove(AllRecords(LiveLogs(Truncate(logs[..m], keep[..m]), n)))
    ensures var all, left := LogsContents(LiveLogs(logs, n)), LogsContents(LiveLogs(Truncate(logs, keep), n));
      && all == left + LostEntries(logs, keep, n) && left !! LostEntries(logs, keep, n)
      && LaterRecordsAbove(AllRecords(LiveLogs(Truncate(logs, keep), n)))
  {
    var m := |logs| - 1;
    var before, older := LogsContents(LiveLogs(logs[..m], n)), LiveLogs(Truncate(logs[..m], keep[..m]), n);
    ContentsAreRecords(older);
    hide LiveLogs, AllRecords, RecordsContents, LaterRecordsAbove, LogsContents, LostEntries, Above, Truncate;
    FirstRecords(last, k);
    AboveParts(RecordsContents(last), before, RecordsContents(last[..k]), LogsContents(older));
    AboveApart(RecordsContents(last), before);
    AboveApart(RecordsContents(last[k..]), RecordsContents(last[..k]));
    LaterRecordsJoin(AllRecords(older), last[..k]);
  }

  lemma ContentsAreRecords(logs: seq<Log>)
    ensures LogsContents(logs) == RecordsContents(AllRecords(logs))
  {
  }

  lemma AboveParts(A: set<Entry>, B: set<Entry>, A': set<Entry>, B': set<Entry>)
    requires Above(A, B) && A' <= A && B' <= B
    ensures Above(A', B')
  {
  }

  lemma AboveApart(A: set<Entry>, B: set<Entry>)
    requires Above(A, B)
    ensures A !! B
  {
    forall e | e in A ensures e !in B {
      assert e in B ==> e.key.sequence > e.key.sequence;
    }
  }

  lemma NothingLost(logs: seq<Log>, keep: seq<nat>, n: nat)
    requires logs == [] && IsCut(logs, keep)
    ensures LostEntries(logs, keep, n) == {} && LogsContents(LiveLogs(logs, n)) == {} && Truncate(logs, keep) == logs
  {
  }

  // ----- losing a middle stretch ----------------------------------------------------------------

  // No log that lost entries has a later one with entries left.
  ghost predicate NoGap(logs: seq<Log>, keep: seq<nat>, n: nat)
    requires IsCut(logs, keep)
  {
    forall i, j :: 0 <= i < j < |logs| && logs[i].number >= n && logs[j].number >= n && Lost(logs, keep, i) != {}
      ==> Left(logs, keep, j) == {}
  }

  lemma LostIsListed(logs: seq<Log>, keep: seq<nat>, n: nat, i: nat)
    requires IsCut(logs, keep) && i < |logs| && logs[i].number >= n
    ensures Lost(logs, keep, i) <= LostEntries(logs, keep, n)
  {
  }

  lemma NoGapGrows(logs: seq<Log>, keep: seq<nat>, n: nat)
    requires IsCut(logs, keep) && logs != []
    ensures var m := |logs| - 1;
      && IsCut(logs[..m], keep[..m])
      && (NoGap(logs, keep, n) <==>
           && NoGap(logs[..m], keep[..m], n)
           && (logs[m].number >= n && Left(logs, keep, m) != {} ==> LostEntries(logs[..m], keep[..m], n) == {}))
  {
    hide RecordsContents;
    var m := |logs| - 1;
    var older, kept := logs[..m], keep[..m];
    forall i | 0 <= i < m
      ensures Lost(logs, keep, i) == Lost(older, kept, i) && Left(logs, keep, i) == Left(older, kept, i)
    {
    }
    if LostEntries(older, kept, n) != {} {
      var e :| e in LostEntries(older, kept, n);
      var i :| 0 <= i < m && older[i].number >= n && e in Lost(older, kept, i);
      assert Lost(logs, keep, i) != {};
    } else {
      forall i | 0 <= i < m && older[i].number >= n ensures Lost(older, kept, i) == {} {
        LostIsListed(older, kept, n, i);
      }
    }
  }

  // Everything lost is newer than everything left if and only if there is no gap.
  lemma {:induction false} LostIsNewestIff(logs: seq<Log>, keep: seq<nat>, n: nat)
    requires IsCut(logs, keep) && LaterRecordsAbove(AllRecords(LiveLogs(logs, n)))
    ensures Above(LostEntries(logs, keep, n), LogsContents(LiveLogs(Truncate(logs, keep), n))) <==> NoGap(logs, keep, n)
  {
    hide LiveLogs, AllRecords, RecordsContents, LaterRecordsAbove, LogsContents, LostEntries, Lost, Left, NoGap;
    if logs == [] {
      NothingLost(logs, keep, n);
      NoGapOfNone(logs, keep, n);
    } else {
      var m := |logs| - 1;
      CutFront(logs, keep);
      LiveLast(logs, n);
      LiveLast(Truncate(logs, keep), n);
      LostGrows(logs, keep, n);
      NoGapGrows(logs, keep, n);
      var last := if logs[m].number >= n then logs[m].records else [];
      var front := AllRecords(LiveLogs(logs[..m], n));
      LaterRecordsSuffix(front, last);
      LaterHalfAbove(front, last);
      LostIsNewestIff(logs[..m], keep[..m], n);
      CutSplits(logs[..m], keep[..m], n);
      LastDecides(logs, keep, n);
    }
  }

  lemma NoGapOfNone(logs: seq<Log>, keep: seq<nat>, n: nat)
    requires logs == [] && IsCut(logs, keep)
    ensures NoGap(logs, keep, n)
  {
  }

  lemma LastDecides(logs: seq<Log>, keep: seq<nat>, n: nat)
    requires logs != [] && IsCut(logs, keep) && IsCut(logs[..|logs| - 1], keep[..|logs| - 1])
    requires LaterRecordsAbove(AllRecords(LiveLogs(logs, n)))
    ensures var m := |logs| - 1;
      var lost, left := LostEntries(logs[..m], keep[..m], n), LogsContents(LiveLogs(Truncate(logs[..m], keep[..m]), n));
      Above(LostEntries(logs, keep, n), LogsContents(LiveLogs(Truncate(logs, keep), n))) <==>
        Above(lost, left) && (logs[m].number >= n && Left(logs, keep, m) != {} ==> lost == {})
  {
    hide LiveLogs, AllRecords, RecordsContents, LaterRecordsAbove, LogsContents, LostEntries, Lost, Left, Above;
    hide Truncate;
    var m := |logs| - 1;
    var older, kept := logs[..m], keep[..m];
    CutFront(logs, keep);
    LiveLast(logs, n);
    LiveLast(Truncate(logs, keep), n);
    LostGrows(logs, keep, n);
    var front := AllRecords(LiveLogs(older, n));
    ContentsAreRecords(LiveLogs(older, n));
    var last := if logs[m].number >= n then logs[m].records else [];
    LaterRecordsSuffix(front, last);
    LaterHalfAbove(front, last);
    CutSplits(older, kept, n);
    var lost, left := LostEntries(older, kept, n), LogsContents(LiveLogs(Truncate(older, kept), n));
    if logs[m].number >= n {
      LastParts(logs, keep, m);
      FirstRecords(last, keep[m]);
      var lastLeft, lastLost := Left(logs, keep, m), Lost(logs, keep, m);
      AboveParts(RecordsContents(last), LogsContents(LiveLogs(older, n)), lastLost, left);
      AboveParts(RecordsContents(last), LogsContents(LiveLogs(older, n)), lastLeft, lost);
      AboveSums(lost, lastLost, left, lastLeft);
    } else {
      NothingMore(lost, left);
    }
  }

  lemma LastParts(logs: seq<Log>, keep: seq<nat>, m: nat)
    requires IsCut(logs, keep) && m < |logs|
    ensures Left(logs, keep, m) == RecordsContents(logs[m].records[..keep[m]])
    ensures Lost(logs, keep, m) == RecordsContents(logs[m].records[keep[m]..])
  {
  }

  lemma NothingMore(lost: set<Entry>, left: set<Entry>)
    ensures RecordsContents([]) == {} && lost + {} == lost && left + {} == left
  {
  }

  lemma AboveSums(lost: set<Entry>, lastLost: set<Entry>, left: set<Entry>, lastLeft: set<Entry>)
    requires Above(lastLost, left) && Above(lastLeft, lost) && Above(lastLost, lastLeft)
    ensures Above(lost + lastLost, left + lastLeft) <==> Above(lost, left) && (lastLeft != {} ==> lost == {})
  {
    if Above(lost + lastLost, left + lastLeft) {
      AboveParts(lost + lastLost, left + lastLeft, lost, lastLeft);
      BothAbove(lost, lastLeft);
    }
  }

  lemma BothAbove(A: set<Entry>, B: set<Entry>)
    requires Above(A, B) && Above(B, A)
    ensures A == {} || B == {}
  {
    if A != {} && B != {} {
      var a :| a in A;
      var b :| b in B;
      assert false;
    }
  }
}
