/**
 The compaction loop (DBImpl::DoCompactionWork in db/db_impl.cc), the merged
 input it reads (table/merger.cc) and Compaction::IsBaseLevelForKey
 (db/version_set.cc).
 */
module CompactionWork {
  import opened Basics
  import opened InternalKeys
  import opened Reads
  import opened Tables
  import opened VersionReads
  import opened CompactionPicking

  // ----- MergingIterator -------------------------------------------------------

  ghost function RunsContents(runs: seq<seq<Entry>>): set<Entry> {
    set run, e | run in runs && e in run :: e
  }

  // The runs are sorted and no internal key occurs twice.
  ghost predicate Mergeable(runs: seq<seq<Entry>>) {
    && (forall i :: 0 <= i < |runs| ==> Sorted(runs[i]))
    && (forall i, j, a, b :: 0 <= i < j < |runs| && a in runs[i] && b in runs[j] ==> a.key != b.key)
  }

  // The run whose head has the smallest key, or |runs| when all are used up.
  method FindSmallest(runs: seq<seq<Entry>>) returns (m: nat)
    ensures m <= |runs|
    ensures m == |runs| <==> forall i :: 0 <= i < |runs| ==> runs[i] == []
    ensures m < |runs| ==>
      && |runs[m]| > 0
      && forall i :: 0 <= i < |runs| && |runs[i]| > 0 ==> LessEq(runs[m][0].key, runs[i][0].key)
  {
    m := |runs|;
    for i := 0 to |runs|
      invariant m == |runs| || m < i
      invariant m == |runs| ==> forall j :: 0 <= j < i ==> runs[j] == []
      invariant m < |runs| ==>
        && |runs[m]| > 0
        && forall j :: 0 <= j < i && |runs[j]| > 0 ==> LessEq(runs[m][0].key, runs[j][0].key)
    {
      if |runs[i]| > 0 {
        if m == |runs| || Less(runs[i][0].key, runs[m][0].key) {
          m := i;
        }
      }
    }
  }

  ghost function TotalLength(runs: seq<seq<Entry>>): nat {
    if runs == [] then 0 else |runs[0]| + TotalLength(runs[1..])
  }

  lemma {:induction false} TakingShortens(runs: seq<seq<Entry>>, m: nat)
    requires m < |runs| && |runs[m]| > 0
    ensures TotalLength(runs[m := runs[m][1..]]) < TotalLength(runs)
  {
    var next: seq<seq<Entry>> := runs[m := runs[m][1..]];
    if m > 0 {
      TakingShortens(runs[1..], m - 1);
      assert next[1..] == runs[1..][m - 1 := runs[m][1..]];
    } else {
      assert next[1..] == runs[1..];
    }
  }

  lemma TakingKeepsMergeable(runs: seq<seq<Entry>>, m: nat)
    requires Mergeable(runs) && m < |runs| && |runs[m]| > 0
    ensures Mergeable(runs[m := runs[m][1..]])
  {
    var next: seq<seq<Entry>> := runs[m := runs[m][1..]];
    forall i | 0 <= i < |next| ensures forall a :: a in next[i] ==> a in runs[i] {
    }
  }

  lemma TakingSplitsContents(runs: seq<seq<Entry>>, m: nat)
    requires m < |runs| && |runs[m]| > 0
    ensures RunsContents(runs) == RunsContents(runs[m := runs[m][1..]]) + {runs[m][0]}
  {
    var next: seq<seq<Entry>> := runs[m := runs[m][1..]];
    assert runs[m] == [runs[m][0]] + next[m];
    forall e | e in RunsContents(runs) ensures e in RunsContents(next) + {runs[m][0]} {
      var run :| run in runs && e in run;
      var i :| 0 <= i < |runs| && runs[i] == run;
      assert next[i] in next;
    }
    forall e | e in RunsContents(next) ensures e in RunsContents(runs) {
      var run :| run in next && e in run;
      var i :| 0 <= i < |next| && next[i] == run;
      assert runs[i] in runs && e in runs[i];
    }
    assert runs[m] in runs && runs[m][0] in runs[m];
    assert RunsContents(runs) == RunsContents(next) + {runs[m][0]};
  }

  // Every entry still to come is above key.
  ghost predicate AllAbove(runs: seq<seq<Entry>>, key: InternalKey) {
    forall i, j :: 0 <= i < |runs| && 0 <= j < |runs[i]| ==> Less(key, runs[i][j].key)
  }

  lemma RestIsAbove(runs: seq<seq<Entry>>, m: nat)
    requires Mergeable(runs) && m < |runs| && |runs[m]| > 0
    requires forall i :: 0 <= i < |runs| && |runs[i]| > 0 ==> LessEq(runs[m][0].key, runs[i][0].key)
    ensures AllAbove(runs[m := runs[m][1..]], runs[m][0].key)
  {
    var next: seq<seq<Entry>> := runs[m := runs[m][1..]];
    var key := runs[m][0].key;
    forall i: nat, j: nat | i < |next| && j < |next[i]| ensures Less(key, next[i][j].key) {
      if i == m {
        assert Less(runs[m][0].key, runs[m][j + 1].key);
      } else {
        assert runs[m][0] in runs[m] && runs[i][j] in runs[i];
        assert j > 0 ==> Less(runs[i][0].key, runs[i][j].key);
      }
    }
  }

  // Reads the runs as one sorted run.
  method Merge(runs: seq<seq<Entry>>) returns (r: seq<Entry>)
    requires Mergeable(runs)
    ensures Sorted(r) && Contents(r) == RunsContents(runs)
  {
    hide Mergeable, Less, LessEq;
    r := [];
    var rest := runs;
    var m: nat := FindSmallest(rest);
    while m < |rest|
      invariant m <= |rest| && Mergeable(rest) && Sorted(r)
      invariant m == |rest| ==> forall i :: 0 <= i < |rest| ==> rest[i] == []
      invariant m < |rest| ==>
        && |rest[m]| > 0
        && forall i :: 0 <= i < |rest| && |rest[i]| > 0 ==> LessEq(rest[m][0].key, rest[i][0].key)
      invariant RunsContents(runs) == Contents(r) + RunsContents(rest)
      invariant forall n :: 0 <= n < |r| ==> AllAbove(rest, r[n].key)
      decreases TotalLength(rest)
    {
      var e := rest[m][0];
      TakingShortens(rest, m);
      TakingKeepsMergeable(rest, m);
      TakingSplitsContents(rest, m);
      RestIsAbove(rest, m);
      forall n | 0 <= n < |r| ensures Less(r[n].key, e.key) && AllAbove(rest[m := rest[m][1..]], r[n].key) {
        assert AllAbove(rest, r[n].key);
        StillAbove(rest, m, r[n].key);
      }
      assert Contents(r + [e]) == Contents(r) + {e};
      r := r + [e];
      rest := rest[m := rest[m][1..]];
      m := FindSmallest(rest);
    }
    assert RunsContents(rest) == {};
  }

  lemma StillAbove(runs: seq<seq<Entry>>, m: nat, key: InternalKey)
    requires m < |runs| && |runs[m]| > 0 && AllAbove(runs, key)
    ensures AllAbove(runs[m := runs[m][1..]], key)
  {
    var next: seq<seq<Entry>> := runs[m := runs[m][1..]];
    forall i: nat, j: nat | i < |next| && j < |next[i]| ensures Less(key, next[i][j].key) {
      assert next[i][j] == runs[i][if i == m then j + 1 else j];
    }
  }

  // ----- IsBaseLevelForKey -------------------------------------------------------

  // No file of a level below the output level covers k: the exhaustive scan.
  predicate IsBaseKey(v: Version, level: nat, k: UserKey) {
    forall l, i :: level + 2 <= l < NUM_LEVELS && 0 <= i < |v[l]| ==>
      !(v[l][i].smallest.user <= k <= v[l][i].largest.user)
  }

  ghost function BaseKeys(v: Version, level: nat, I: set<Entry>): set<UserKey> {
    set e | e in I && IsBaseKey(v, level, e.key.user) :: e.key.user
  }

  // Nothing of a base key is stored below the output level.
  lemma BaseKeyIsAbsentBelow(v: Version, level: nat, k: UserKey, l: nat, e: Entry)
    requires WellFormedVersion(v) && IsBaseKey(v, level, k)
    requires level + 2 <= l < NUM_LEVELS && e in LevelContents(v[l])
    ensures e.key.user != k
  {
    var f :| f in v[l] && e in f.entries;
    var i :| 0 <= i < |v[l]| && v[l][i] == f;
    EntryInRange(f, e);
  }

  // One index per level moves forward over the files that end before the key.
  class BaseLevelCursor {
    const v: Version
    const level: nat
    const levelPtrs: array<nat>
    ghost var asked: Option<UserKey>

    ghost predicate Valid()
      reads this, levelPtrs
    {
      && levelPtrs.Length == NUM_LEVELS
      && WellFormedVersion(v)
      && forall l :: level + 2 <= l < NUM_LEVELS ==> Skipped(l, levelPtrs[l], asked)
    }

    // The first n files of level l end before the last key asked for.
    ghost predicate Skipped(l: nat, n: nat, k: Option<UserKey>)
      requires l < NUM_LEVELS
    {
      n <= |v[l]| && forall i :: 0 <= i < n ==> k.Some? && v[l][i].largest.user < k.value
    }

    constructor (v: Version, level: nat)
      requires WellFormedVersion(v)
      ensures Valid() && fresh(levelPtrs) && asked == None && this.v == v && this.level == level
    {
      this.v, this.level := v, level;
      levelPtrs := new nat[NUM_LEVELS](_ => 0);
      asked := None;
    }

    // For nondecreasing keys the moving indices answer as the full scan would.
    method IsBaseLevelForKey(k: UserKey) returns (r: bool)
      requires Valid() && (asked.Some? ==> asked.value <= k)
      modifies this`asked, levelPtrs
      ensures Valid() && asked == Some(k)
      ensures r == IsBaseKey(v, level, k)
    {
      var lvl := level + 2;
      ghost var before := asked;
      while lvl < NUM_LEVELS
        invariant level + 2 <= lvl
        invariant levelPtrs.Length == NUM_LEVELS && asked == before
        invariant forall l :: level + 2 <= l < NUM_LEVELS ==> Skipped(l, levelPtrs[l], Some(k))
        invariant forall l, i :: level + 2 <= l < lvl && l < NUM_LEVELS && 0 <= i < |v[l]| ==>
          !(v[l][i].smallest.user <= k <= v[l][i].largest.user)
      {
        while levelPtrs[lvl] < |v[lvl]|
          invariant levelPtrs.Length == NUM_LEVELS && asked == before
          invariant forall l :: level + 2 <= l < NUM_LEVELS ==> Skipped(l, levelPtrs[l], Some(k))
          decreases |v[lvl]| - levelPtrs[lvl]
        {
          var f := v[lvl][levelPtrs[lvl]];
          if k <= f.largest.user {
            if k >= f.smallest.user {
              asked := Some(k);
              return false;
            }
            break;
          }
          levelPtrs[lvl] := levelPtrs[lvl] + 1;
        }
        NoFileCovers(v[lvl], levelPtrs[lvl], k);
        lvl := lvl + 1;
      }
      asked := Some(k);
      r := true;
    }
  }

  lemma NoFileCovers(files: seq<File>, n: nat, k: UserKey)
    requires ValidFiles(files) && SortedDisjoint(files) && n <= |files|
    requires forall i :: 0 <= i < n ==> files[i].largest.user < k
    requires n < |files| ==> k < files[n].smallest.user
    ensures forall i :: 0 <= i < |files| ==> !(files[i].smallest.user <= k <= files[i].largest.user)
  {
    SortedDisjointIsMonotone(files);
    forall i | n <= i < |files| ensures k < files[i].smallest.user {
      SmallestBeforeLargest(files[n]);
    }
  }

  // ----- the loop ------------------------------------------------------------------

  // In a sorted input an entry is shadowed exactly when the entry just before
  // it has its user key and is seen by every live snapshot.
  lemma ShadowedByPrevious(input: seq<Entry>, i: nat, smallest: nat)
    requires Sorted(input) && DistinctSequences(Contents(input)) && i < |input|
    ensures Shadowed(Contents(input), smallest, input[i])
            <==> i > 0 && input[i - 1].key.user == input[i].key.user && input[i - 1].key.sequence <= smallest
  {
    if i > 0 && input[i - 1].key.user == input[i].key.user && input[i - 1].key.sequence <= smallest {
      assert Less(input[i - 1].key, input[i].key);
      assert input[i - 1] in Contents(input) && input[i] in Contents(input);
    }
    forall e' | e' in Contents(input) && e'.key.user == input[i].key.user &&
      input[i].key.sequence < e'.key.sequence <= smallest
      ensures i > 0 && input[i - 1].key.user == input[i].key.user && input[i - 1].key.sequence <= smallest
    {
      forall m | i < m < |input| && input[m].key.user == input[i].key.user
        ensures input[m].key.sequence <= input[i].key.sequence
      {
        assert Less(input[i].key, input[m].key);
      }
      var j :| 0 <= j < |input| && input[j] == e';
      assert j < i - 1 ==> Less(input[j].key, input[i - 1].key);
      assert Less(input[i - 1].key, input[i].key);
    }
  }

  // The finished output tables and the entries of the table being built.
  ghost predicate Outputs(outputs: seq<File>, builder: seq<Entry>) {
    && ValidFiles(outputs) && SortedDisjoint(outputs) && Sorted(builder)
    && (builder != [] ==> forall i :: 0 <= i < |outputs| ==> Less(outputs[i].largest, builder[0].key))
  }

  ghost predicate OutputsBelow(outputs: seq<File>, builder: seq<Entry>, key: InternalKey) {
    && (forall i :: 0 <= i < |outputs| ==> Less(outputs[i].largest, key))
    && (forall i :: 0 <= i < |builder| ==> Less(builder[i].key, key))
  }

  function FinishedTable(number: nat, size: nat, builder: seq<Entry>): File
    requires builder != []
  {
    File(number, size, builder[0].key, builder[|builder| - 1].key, builder)
  }

  lemma FinishOutput(outputs: seq<File>, builder: seq<Entry>, number: nat, size: nat)
    requires Outputs(outputs, builder) && builder != []
    ensures Outputs(outputs + [FinishedTable(number, size, builder)], [])
    ensures LevelContents(outputs + [FinishedTable(number, size, builder)]) ==
      LevelContents(outputs) + Contents(builder)
    ensures forall key :: OutputsBelow(outputs, builder, key) ==>
      OutputsBelow(outputs + [FinishedTable(number, size, builder)], [], key)
  {
    var f := FinishedTable(number, size, builder);
    var longer := outputs + [f];
    assert f in longer;
    assert forall g :: g in longer <==> g in outputs || g == f;
  }

  lemma AddToBuilder(outputs: seq<File>, builder: seq<Entry>, e: Entry)
    requires Outputs(outputs, builder) && OutputsBelow(outputs, builder, e.key)
    ensures Outputs(outputs, builder + [e])
    ensures Contents(builder + [e]) == Contents(builder) + {e}
    ensures forall key :: OutputsBelow(outputs, builder, key) && Less(e.key, key) ==>
      OutputsBelow(outputs, builder + [e], key)
  {
  }

  // What the loop keeps of the first n entries.
  ghost function KeptPrefix(input: seq<Entry>, n: nat, smallest: nat, base: set<UserKey>): set<Entry>
    requires n <= |input|
  {
    set e | e in input[..n] && !Dropped(Contents(input), smallest, base, e)
  }

  lemma KeptPrefixGrows(input: seq<Entry>, n: nat, smallest: nat, base: set<UserKey>)
    requires n < |input|
    ensures KeptPrefix(input, n + 1, smallest, base)
            == KeptPrefix(input, n, smallest, base)
               + if Dropped(Contents(input), smallest, base, input[n]) then {} else {input[n]}
  {
    assert input[..n + 1] == input[..n] + [input[n]];
  }

  lemma NothingKeptYet(input: seq<Entry>, smallest: nat, base: set<UserKey>)
    ensures KeptPrefix(input, 0, smallest, base) == {} && LevelContents([]) + Contents([]) == {}
    ensures Outputs([], []) && forall key :: OutputsBelow([], [], key)
  {
  }

  lemma AllKept(input: seq<Entry>, smallest: nat, base: set<UserKey>)
    ensures KeptPrefix(input, |input|, smallest, base) == Kept(Contents(input), smallest, base)
  {
    assert input[..|input|] == input;
  }

  lemma OutputsAreValid(outputs: seq<File>)
    requires Outputs(outputs, [])
    ensures ValidFiles(outputs) && SortedDisjoint(outputs)
  {
  }

  lemma NextIsAbove(input: seq<Entry>, i: nat, outputs: seq<File>, builder: seq<Entry>)
    requires Sorted(input) && i < |input|
    ensures i > 0 ==> input[i - 1].key.user <= input[i].key.user
    ensures i + 1 < |input| ==> Less(input[i].key, input[i + 1].key)
    ensures OutputsBelow(outputs, builder, input[i].key) && i + 1 < |input| ==>
      OutputsBelow(outputs, builder, input[i + 1].key)
  {
    assert i > 0 ==> Less(input[i - 1].key, input[i].key);
  }

  // What the loop decides to drop is what Dropped says.
  lemma DropMeansDropped(v: Version, level: nat, input: seq<Entry>, i: nat, smallest: nat, drop: bool)
    requires i < |input|
    requires drop <==>
      || Shadowed(Contents(input), smallest, input[i])
      || (input[i].key.typ.TypeDeletion? && input[i].key.sequence <= smallest && IsBaseKey(v, level, input[i].key.user))
    ensures drop <==> Dropped(Contents(input), smallest, BaseKeys(v, level, Contents(input)), input[i])
  {
    assert input[i] in Contents(input);
  }

  // Numbers are given out in order.
  ghost predicate NumberedFrom(outputs: seq<File>, first: nat) {
    forall i :: 0 <= i < |outputs| ==> outputs[i].number == first + i
  }

  lemma NextNumber(outputs: seq<File>, first: nat, size: nat, builder: seq<Entry>)
    requires NumberedFrom(outputs, first) && builder != []
    ensures NumberedFrom(outputs + [FinishedTable(first + |outputs|, size, builder)], first)
  {
  }

  // FinishCompactionOutputFile.
  method FinishCompactionOutputFile(outputs: seq<File>, builder: seq<Entry>, size: nat, ghost first: nat,
                                    nextNumber: nat)
    returns (r: seq<File>, next: nat)
    requires Outputs(outputs, builder) && builder != [] && NumberedFrom(outputs, first)
    requires nextNumber == first + |outputs|
    ensures Outputs(r, []) && NumberedFrom(r, first) && next == first + |r|
    ensures LevelContents(r) + Contents([]) == LevelContents(outputs) + Contents(builder)
    ensures forall key :: OutputsBelow(outputs, builder, key) ==> OutputsBelow(r, [], key)
  {
    FinishOutput(outputs, builder, nextNumber, size);
    NextNumber(outputs, first, size, builder);
    r := outputs + [FinishedTable(nextNumber, size, builder)];
    next := nextNumber + 1;
    hide Outputs, OutputsBelow, LevelContents, FinishedTable, NumberedFrom;
  }

  // The loop after an entry: what it tells about the next one.
  ghost predicate LastEntryWas(input: seq<Entry>, i: nat, currentUserKey: Option<UserKey>, lastSequenceForKey: nat)
    requires i <= |input|
  {
    if i == 0 then currentUserKey == None
    else currentUserKey == Some(input[i - 1].key.user) && lastSequenceForKey == input[i - 1].key.sequence
  }

  // Whether to drop entry i.
  method ShouldDrop(input: seq<Entry>, i: nat, smallest: nat, currentUserKey: Option<UserKey>, lastSequenceForKey: nat,
                    cursor: BaseLevelCursor) returns (drop: bool)
    requires cursor.Valid() && Sorted(input) && DistinctSequences(Contents(input)) && i < |input|
    requires smallest < MAX_SEQUENCE
    requires cursor.asked.Some? ==> i > 0 && cursor.asked.value <= input[i - 1].key.user
    requires LastEntryWas(input, i, currentUserKey, lastSequenceForKey)
    modifies cursor, cursor.levelPtrs
    ensures cursor.Valid()
    ensures cursor.asked.Some? ==> cursor.asked.value <= input[i].key.user
    ensures drop <==> Dropped(Contents(input), smallest, BaseKeys(cursor.v, cursor.level, Contents(input)), input[i])
  {
    hide BaseKeys, IsBaseKey, Dropped, DistinctSequences, Sorted, Shadowed, WellFormedVersion;
    var e := input[i];
    drop := false;
    // At the first occurrence of a user key nothing hides it
    var last := if currentUserKey.None? || currentUserKey.value != e.key.user then MAX_SEQUENCE else lastSequenceForKey;
    ShadowedByPrevious(input, i, smallest);
    PreviousUser(input, i);
    if last <= smallest {
      drop := true;  // hidden by a newer entry of the same user key
    } else if e.key.typ.TypeDeletion? && e.key.sequence <= smallest {
      drop := cursor.IsBaseLevelForKey(e.key.user);
    }
    DropMeansDropped(cursor.v, cursor.level, input, i, smallest, drop);
  }

  lemma PreviousUser(input: seq<Entry>, i: nat)
    requires Sorted(input) && i < |input|
    ensures i > 0 ==> input[i - 1].key.user <= input[i].key.user
  {
    assert i > 0 ==> Less(input[i - 1].key, input[i].key);
  }

  // The compaction loop.  Where tables are split is left to stopBefore (the
  // entry before which ShouldStopBefore ends a table) and to the table size:
  // the outputs hold the same entries however it is done.
  method DoCompactionWork(v: Version, level: nat, input: seq<Entry>, smallest: nat,
                          stopBefore: nat -> bool, sizeOf: seq<Entry> -> nat, maxOutputFileSize: nat, firstNumber: nat)
    returns (outputs: seq<File>, nextNumber: nat)
    requires WellFormedVersion(v) && Sorted(input) && DistinctSequences(Contents(input))
    requires smallest < MAX_SEQUENCE
    ensures ValidFiles(outputs) && SortedDisjoint(outputs)
    ensures LevelContents(outputs) == Kept(Contents(input), smallest, BaseKeys(v, level, Contents(input)))
    ensures nextNumber == firstNumber + |outputs|
    ensures forall i :: 0 <= i < |outputs| ==> outputs[i].number == firstNumber + i
  {
    hide Kept, BaseKeys, IsBaseKey, Dropped, Outputs, OutputsBelow, LevelContents, KeptPrefix, WellFormedVersion;
    hide DistinctSequences, Sorted, NumberedFrom;
    ghost var base := BaseKeys(v, level, Contents(input));
    var cursor := new BaseLevelCursor(v, level);
    outputs, nextNumber := [], firstNumber;
    var builder: seq<Entry> := [];
    var currentUserKey: Option<UserKey> := None;
    var lastSequenceForKey := MAX_SEQUENCE;
    NothingKeptYet(input, smallest, base);
    NoneNumbered(firstNumber);
    var i := 0;
    while i < |input|
      invariant 0 <= i <= |input|
      invariant cursor.Valid() && cursor.v == v && cursor.level == level && fresh(cursor) && fresh(cursor.levelPtrs)
      invariant cursor.asked.Some? ==> i > 0 && cursor.asked.value <= input[i - 1].key.user
      invariant LastEntryWas(input, i, currentUserKey, lastSequenceForKey)
      invariant Outputs(outputs, builder)
      invariant i < |input| ==> OutputsBelow(outputs, builder, input[i].key)
      invariant LevelContents(outputs) + Contents(builder) == KeptPrefix(input, i, smallest, base)
      invariant NumberedFrom(outputs, firstNumber) && nextNumber == firstNumber + |outputs|
    {
      var e := input[i];
      if stopBefore(i) && builder != [] {
        outputs, nextNumber := FinishCompactionOutputFile(outputs, builder, sizeOf(builder), firstNumber, nextNumber);
        builder := [];
      }
      var drop := ShouldDrop(input, i, smallest, currentUserKey, lastSequenceForKey, cursor);
      currentUserKey, lastSequenceForKey := Some(e.key.user), e.key.sequence;
      NextIsAbove(input, i, outputs, builder);
      KeptPrefixGrows(input, i, smallest, base);
      if !drop {
        outputs, builder, nextNumber :=
          AddToTable(outputs, builder, e, sizeOf, maxOutputFileSize, firstNumber, nextNumber);
      }
      i := i + 1;
    }
    if builder != [] {
      outputs, nextNumber := FinishCompactionOutputFile(outputs, builder, sizeOf(builder), firstNumber, nextNumber);
    }
    AllKept(input, smallest, base);
    OutputsAreValid(outputs);
    NumberedMeans(outputs, firstNumber);
  }

  // Adds an entry to the open table, and closes it if it is big enough.
  method AddToTable(outputs: seq<File>, builder: seq<Entry>, e: Entry,
                    sizeOf: seq<Entry> -> nat, maxOutputFileSize: nat,
                    ghost first: nat, nextNumber: nat) returns (r: seq<File>, b: seq<Entry>, next: nat)
    requires Outputs(outputs, builder) && OutputsBelow(outputs, builder, e.key)
    requires NumberedFrom(outputs, first) && nextNumber == first + |outputs|
    ensures Outputs(r, b) && NumberedFrom(r, first) && next == first + |r|
    ensures LevelContents(r) + Contents(b) == LevelContents(outputs) + Contents(builder) + {e}
    ensures forall key :: OutputsBelow(outputs, builder, key) && Less(e.key, key) ==> OutputsBelow(r, b, key)
  {
    hide Outputs, OutputsBelow, LevelContents, NumberedFrom, Less;
    AddToBuilder(outputs, builder, e);
    r, b, next := outputs, builder + [e], nextNumber;
    if sizeOf(b) >= maxOutputFileSize {
      r, next := FinishCompactionOutputFile(r, b, sizeOf(b), first, next);
      b := [];
    }
  }

  lemma NoneNumbered(first: nat)
    ensures NumberedFrom([], first)
  {
  }

  lemma NumberedMeans(outputs: seq<File>, first: nat)
    requires NumberedFrom(outputs, first)
    ensures forall i :: 0 <= i < |outputs| ==> outputs[i].number == first + i
    ensures Contents([]) == {}
  {
  }
}
