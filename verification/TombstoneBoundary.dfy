/**
 A run of the store that brings a deleted key back.  SetupOtherInputs adds
 boundary files to the inputs of the level (db/version_set.cc), but not to those
 of the next level; and IsBaseLevelForKey looks only below the next level.  When
 two files of the next level share a user key and only the first is read, its
 tombstone is dropped while the older value stays in the second.
 */
module TombstoneBoundary {
  import opened Basics
  import opened InternalKeys
  import opened Reads
  import opened Tables
  import opened VersionSearch
  import opened CompactionPicking
  import opened VersionReads
  import opened CompactionWork
  import opened VersionEdits
  import opened VersionBuilder
  import opened VersionSteps
  import opened EditSteps
  import opened Store
  import opened StoreInvariant
  import opened StoreRuns
  import opened ReachedStates

  // The keys are 1.0, 2.0 and 3.0; key 2.0 is written and then deleted.
  const OLD_B := Entry(InternalKey(2.0, 1, TypeValue), [1])
  const DELETED_B := Entry(InternalKey(2.0, 2, TypeDeletion), [])
  const OLD_A := Entry(InternalKey(1.0, 3, TypeValue), [3])
  const NEW_C := Entry(InternalKey(3.0, 4, TypeValue), [4])
  const NEW_A := Entry(InternalKey(1.0, 5, TypeValue), [5])

  const FIRST := File(5, 2, DELETED_B.key, OLD_B.key, [DELETED_B, OLD_B])
  const WIDE := File(7, 2, OLD_A.key, NEW_C.key, [OLD_A, NEW_C])
  const LEFT := File(8, 2, OLD_A.key, DELETED_B.key, [OLD_A, DELETED_B])
  const RIGHT := File(9, 2, OLD_B.key, NEW_C.key, [OLD_B, NEW_C])
  const UPPER := File(11, 1, NEW_A.key, NEW_A.key, [NEW_A])
  const OUTPUT := File(12, 1, NEW_A.key, NEW_A.key, [NEW_A])

  const ONE_FLUSHED: Version := [[], [], [FIRST], [], [], [], []]
  const TWO_FLUSHED: Version := [[], [WIDE], [FIRST], [], [], [], []]
  const SPLIT: Version := [[], [], [LEFT, RIGHT], [], [], [], []]
  const BEFORE: Version := [[], [UPPER], [LEFT, RIGHT], [], [], [], []]
  const AFTER: Version := [[], [], [OUTPUT, RIGHT], [], [], [], []]

  const SPLITTING := Compaction(1, [WIDE], [FIRST], [], WIDE.largest)
  const DROPPING := Compaction(1, [UPPER], [LEFT], [], UPPER.largest)

  // ----- the code makes these choices -----------------------------------------------------

  // A flush goes no deeper than level 1 where level 2 overlaps.
  lemma FlushesStopAtLevel1()
    ensures SomeOverlap(ONE_FLUSHED[2], Some(WIDE.smallest.user), Some(WIDE.largest.user))
    ensures SomeOverlap(SPLIT[2], Some(UPPER.smallest.user), Some(UPPER.largest.user))
  {
    assert Overlaps(ONE_FLUSHED[2][0], Some(WIDE.smallest.user), Some(WIDE.largest.user));
    assert Overlaps(SPLIT[2][0], Some(UPPER.smallest.user), Some(UPPER.largest.user));
  }

  // The inputs: one file of level 1 with no boundary file, the files of level 2
  // that overlap it, and no room to grow.
  lemma InputsAreTheCodesChoice()
    ensures Chosen(BEFORE, 1, [UPPER]) && NoBoundary(BEFORE[1], UPPER.largest)
    ensures DROPPING.inputs1 == Overlapping(BEFORE[2], Some(UPPER.smallest.user), Some(UPPER.largest.user))
    ensures Overlapping(BEFORE[1], Some(UPPER.smallest.user), Some(LEFT.largest.user)) == DROPPING.inputs0
  {
    assert [UPPER] == BEFORE[1][0..1];
    OverlappingAll([UPPER], Some(UPPER.smallest.user), Some(LEFT.largest.user));
    assert BEFORE[2] == [LEFT] + [RIGHT];
    OverlappingConcat([LEFT], [RIGHT], Some(UPPER.smallest.user), Some(UPPER.largest.user));
    OverlappingAll([LEFT], Some(UPPER.smallest.user), Some(UPPER.largest.user));
    OverlappingNone([RIGHT], Some(UPPER.smallest.user), Some(UPPER.largest.user));
  }

  lemma SplittingIsTheCodesChoice()
    ensures Chosen(TWO_FLUSHED, 1, [WIDE]) && NoBoundary(TWO_FLUSHED[1], WIDE.largest)
    ensures SPLITTING.inputs1 == Overlapping(TWO_FLUSHED[2], Some(WIDE.smallest.user), Some(WIDE.largest.user))
  {
    assert [WIDE] == TWO_FLUSHED[1][0..1];
    OverlappingAll([FIRST], Some(WIDE.smallest.user), Some(WIDE.largest.user));
  }

  // A compaction of the only file of level 1.
  lemma OneFileCompaction(v: Version, c: Compaction, f: File)
    requires WellFormedVersion(v) && c.level == 1 && c.inputs0 == [f] == v[1]
    requires c.inputs1 == Overlapping(v[2], Some(f.smallest.user), Some(f.largest.user))
    requires c.compactPointer == f.largest
    ensures GoodCompaction(v, c) && EndsAtPointer(c)
  {
    hide WellFormedVersion, Overlapping;
    assert f in c.inputs0;
    assert IsRange(c.inputs0, f.smallest, f.largest);
    hide GoodCompaction;
    RangeMakesGoodCompaction(v, c, f.smallest, f.largest);
  }

  // ----- building a run ------------------------------------------------------------------------

  // The store between flushes.
  ghost predicate Rests(s: State, v: Version, lastSequence: nat, nextFile: nat, snapshots: seq<nat>,
                        written: set<Entry>) {
    && s.mem == [] && s.imm == None && s.logs != [] && s.version == v
    && s.lastSequence == lastSequence && s.nextFile == nextFile && s.snapshots == snapshots && s.written == written
  }

  lemma SwitchAndFlush(s: State, level: nat, f: File) returns (s': State)
    requires level < NUM_LEVELS && s.version[level] == [] && s.logs != [] && s.imm == None
    requires ValidFile(f) && f.number == s.nextFile + 1 && f.entries == s.mem
    requires SortedLevels(s.version) && Placeable(s.version, level, f.smallest.user, f.largest.user)
    requires Reached(s)
    ensures Rests(s', s.version[level := [f]], s.lastSequence, s.nextFile + 2, s.snapshots, s.written)
    ensures Reached(s')
  {
    hide Reached, ValidFile, Placeable, SortedLevels;
    AddsAlone(s.version, level, f);
    var s1 := SwitchTo(s);
    var manifest := Manifest(LastLog(s1).number, s1.nextFile + 1, s1.lastSequence);
    s' := s1.(imm := None, version := s.version[level := [f]], nextFile := s1.nextFile + 1,
              edits := s1.edits + [Stamped(AddEdit(level, [f]), manifest)], manifest := manifest,
              flushed := s1.flushed + ImmContents(s1));
    assert FlushedTables(s1, level, [f]) by { ValidFileHasEntries(f); }
    hide Applied, AddEdit, Stamped, FlushedTables;
    FlushIsStep(s1, level, [f], s');
    Extend(s1, FlushStep(level, [f]), s');
  }

  lemma FlushIsStep(s: State, level: nat, tables: seq<File>, s': State)
    requires Flush(s, level, tables, s')
    ensures Next(s, FlushStep(level, tables), s')
  {
    hide Flush;
  }

  lemma ValidFileHasEntries(f: File)
    requires ValidFile(f)
    ensures f.entries != []
  {
  }

  // ----- the two compactions ---------------------------------------------------------------------

  lemma TwoFiles(files: seq<File>, f: File, g: File)
    requires files == [f, g]
    ensures LevelContents(files) == Contents(f.entries) + Contents(g.entries)
  {
    assert f in files && g in files;
    assert forall h :: h in files <==> h == f || h == g;
  }

  lemma InputsOfOne(c: Compaction, f: File, g: File)
    requires c.inputs0 == [f] && c.inputs1 == [g]
    ensures InputContents(c) == Contents(f.entries) + Contents(g.entries)
  {
    assert f in c.inputs0 && g in c.inputs1;
  }

  // Applying the edit of a compaction of one file and one file.
  lemma ReplacesPair(v: Version, c: Compaction, f: File, g: File, rest: seq<File>, outputs: seq<File>, v': Version)
    requires c.level == 1 && c.inputs0 == [f] == v[1] && c.inputs1 == [g] && v[2] == [g] + rest
    requires forall o :: o in outputs ==> o.number != g.number
    requires forall h :: h in rest ==> h.number != g.number && forall o :: o in outputs ==> o.number != h.number
    requires v' == v[1 := []][2 := outputs + rest] && SortedLevels(v) && SortedBySmallest(outputs + rest)
    ensures Applied(v, CompactionEdit(c, outputs), v')
  {
    hide BySmallest;
    var edit := CompactionEdit(c, outputs);
    forall l: nat | l < NUM_LEVELS
      ensures SavedLevel(Files(v[l]), DeletedAt(edit, l) - NumbersAt(edit.added, l), AddedAt(edit.added, l), v'[l])
    {
      CompactionEditAt(c, outputs, l);
      hide CompactionEdit, AddedAt, NumbersAt, DeletedAt;
      if l == 2 {
        assert Files(v'[2]) == Files(outputs) + Files(rest);
        assert Files(v[2]) == {g} + Files(rest);
      }
    }
  }

  lemma SplittingInputs()
    ensures InputContents(SPLITTING) == {OLD_A, NEW_C, DELETED_B, OLD_B} == LevelContents([LEFT, RIGHT])
  {
    InputsOfOne(SPLITTING, WIDE, FIRST);
    TwoFiles([LEFT, RIGHT], LEFT, RIGHT);
  }

  lemma SplittingKeepsAll()
    ensures CompactedOutputs(TWO_FLUSHED, SPLITTING, 1, [LEFT, RIGHT])
  {
    hide InputContents, BaseKeys, LevelContents, SortedDisjoint;
    SplittingInputs();
    var I := InputContents(SPLITTING);
    NothingDropped(I, BaseKeys(TWO_FLUSHED, 1, I));
    SplitIsSorted();
    hide Dropped;
    assert Kept(I, 1, BaseKeys(TWO_FLUSHED, 1, I)) == I;
  }

  lemma NothingDropped(I: set<Entry>, base: set<UserKey>)
    requires I == {OLD_A, NEW_C, DELETED_B, OLD_B}
    ensures forall e :: e in I ==> !Dropped(I, 1, base, e)
  {
  }

  lemma SplitIsSorted()
    ensures ValidFiles([LEFT, RIGHT]) && SortedDisjoint([LEFT, RIGHT])
  {
  }

  lemma SplittingUncoversNothing()
    ensures forall k :: !Uncovers(TWO_FLUSHED, SPLITTING, 1, k)
  {
    hide InputContents, LevelContents, LeftBehind, VersionContents, IsBaseKey, ReadAt;
    SplittingInputs();
  }

  lemma DroppingKeepsOne()
    ensures CompactedOutputs(BEFORE, DROPPING, 5, [OUTPUT])
  {
    InputsOfOne(DROPPING, UPPER, LEFT);
    var I := InputContents(DROPPING);
    assert I == {NEW_A, OLD_A, DELETED_B};
    assert OUTPUT in [OUTPUT] && LevelContents([OUTPUT]) == {NEW_A};
    assert IsBaseKey(BEFORE, 1, 2.0) by {
      assert forall l :: 3 <= l < NUM_LEVELS ==> BEFORE[l] == [];
    }
    var base := BaseKeys(BEFORE, 1, I);
    assert DELETED_B in I && 2.0 in base;
    hide InputContents, LevelContents, BaseKeys, IsBaseKey;
    assert Shadowed(I, 5, OLD_A) by { assert NEW_A in I; }
    assert !Dropped(I, 5, base, NEW_A);
  }

  lemma CompactTo(s: State, c: Compaction, outputs: seq<File>, v': Version, nextFile: nat) returns (s': State)
    requires GoodCompaction(s.version, c) && EndsAtPointer(c)
    requires CompactedOutputs(s.version, c, SmallestSnapshot(s), outputs)
    requires Applied(s.version, CompactionEdit(c, outputs), v') && OneFilePerNumber(Files(outputs))
    requires s.nextFile <= nextFile && forall o :: o in outputs ==> s.nextFile <= o.number < nextFile
    ensures CodeNext(s, CompactStep(c, outputs), s')
    ensures s'.version == v' && s'.nextFile == nextFile && s'.mem == s.mem && s'.imm == s.imm && s'.logs == s.logs
    ensures s'.lastSequence == s.lastSequence && s'.snapshots == s.snapshots && s'.written == s.written
  {
    hide GoodCompaction, CompactedOutputs, Applied, CompactionEdit, OneFilePerNumber, Stamped;
    var manifest := Manifest(s.manifest.logNumber, nextFile, s.lastSequence);
    s' := s.(version := v', nextFile := nextFile, horizon := SmallestSnapshot(s),
             edits := s.edits + [Stamped(CompactionEdit(c, outputs), manifest)], manifest := manifest);
  }

  // ----- the run -----------------------------------------------------------------------------------

  lemma LevelsAreSorted(s: State)
    requires Reached(s)
    ensures SortedLevels(s.version) && WellFormedVersion(s.version)
  {
    ReachedHoldsInv(s);
    Parts(s);
    hide Reached, GoodVersion;
    GoodIsSorted(s.version);
    GoodIsOrdered(s.version);
  }

  // Key 2.0 is written, a snapshot is taken, and key 2.0 is deleted; the memtable
  // goes to level 2.
  lemma DeleteB() returns (s: State)
    ensures Rests(s, ONE_FLUSHED, 2, 6, [1], {OLD_B, DELETED_B}) && Reached(s)
  {
    hide Next, Placeable, SortedLevels, WellFormedVersion, Reached, Init;
    s := NewStore();
    s := WriteTo(s, [OLD_B], [OLD_B]);
    s := SnapshotTo(s);
    s := WriteTo(s, [DELETED_B], [DELETED_B, OLD_B]);
    LevelsAreSorted(s);
    NothingOverlaps(EMPTY_VERSION, 2, 2.0, 2.0);
    s := SwitchAndFlush(s, 2, FIRST);
    assert EMPTY_VERSION[2 := [FIRST]] == ONE_FLUSHED;
    assert s.written == {OLD_B, DELETED_B};
  }

  lemma NothingOverlaps(v: Version, level: nat, lo: UserKey, hi: UserKey)
    requires level < NUM_LEVELS && forall l :: 0 <= l <= level ==> v[l] == []
    ensures Placeable(v, level, lo, hi)
  {
  }

  // Keys 1.0 and 3.0 are written around it, to level 1.
  lemma WriteAround() returns (s: State)
    ensures Rests(s, TWO_FLUSHED, 4, 8, [1], {OLD_B, DELETED_B, OLD_A, NEW_C}) && Reached(s)
  {
    hide Reached, Placeable, SortedLevels, WellFormedVersion;
    s := DeleteB();
    s := WriteTo(s, [OLD_A, NEW_C], [OLD_A, NEW_C]);
    LevelsAreSorted(s);
    NothingOverlaps(ONE_FLUSHED, 1, 1.0, 3.0);
    s := SwitchAndFlush(s, 1, WIDE);
    assert ONE_FLUSHED[1 := [WIDE]] == TWO_FLUSHED;
    assert s.written == {OLD_B, DELETED_B, OLD_A, NEW_C};
  }

  // The snapshot makes the compaction keep both entries of key 2.0; its outputs
  // are split between them.
  lemma SplitB() returns (s: State)
    ensures Rests(s, SPLIT, 4, 10, [1], {OLD_B, DELETED_B, OLD_A, NEW_C}) && Reached(s)
  {
    hide Reached, WellFormedVersion, GoodCompaction, CompactedOutputs, Uncovers;
    var s0 := WriteAround();
    LevelsAreSorted(s0);
    SplittingIsTheCodesChoice();
    OneFileCompaction(TWO_FLUSHED, SPLITTING, WIDE);
    SplittingKeepsAll();
    SplittingUncoversNothing();
    SplitFits();
    hide SortedLevels, Applied, CompactionEdit, Files;
    s := CompactTo(s0, SPLITTING, [LEFT, RIGHT], SPLIT, 10);
    assert Next(s0, CompactStep(SPLITTING, [LEFT, RIGHT]), s);
    hide Next;
    Extend(s0, CompactStep(SPLITTING, [LEFT, RIGHT]), s);
  }

  lemma SplitFits()
    requires SortedLevels(TWO_FLUSHED)
    ensures Applied(TWO_FLUSHED, CompactionEdit(SPLITTING, [LEFT, RIGHT]), SPLIT)
    ensures OneFilePerNumber(Files([LEFT, RIGHT]))
  {
    assert [LEFT, RIGHT] + [] == SPLIT[2] && [FIRST] + [] == TWO_FLUSHED[2] && SortedBySmallest(SPLIT[2]);
    ReplacesPair(TWO_FLUSHED, SPLITTING, WIDE, FIRST, [], [LEFT, RIGHT], SPLIT);
  }

  // The snapshot is released, and key 1.0 is written again, to level 1.
  lemma WriteAgain() returns (s: State)
    ensures Rests(s, BEFORE, 5, 12, [], {OLD_B, DELETED_B, OLD_A, NEW_C, NEW_A}) && Reached(s)
  {
    hide Reached, Placeable, SortedLevels, WellFormedVersion;
    s := SplitB();
    s := ReleaseFirst(s);
    s := WriteTo(s, [NEW_A], [NEW_A]);
    LevelsAreSorted(s);
    NothingOverlaps(SPLIT, 1, 1.0, 1.0);
    s := SwitchAndFlush(s, 1, UPPER);
    assert SPLIT[1 := [UPPER]] == BEFORE;
    assert s.written == {OLD_B, DELETED_B, OLD_A, NEW_C, NEW_A};
  }

  lemma AfterContents()
    ensures VersionContents(AFTER) == {NEW_A, OLD_B, NEW_C}
  {
    TwoFiles(AFTER[2], OUTPUT, RIGHT);
    assert LevelContents(AFTER[2]) == {NEW_A, OLD_B, NEW_C};
    forall e ensures e in VersionContents(AFTER) <==> e in {NEW_A, OLD_B, NEW_C} {
      ContentsOfVersion(AFTER, e);
      assert forall l :: 0 <= l < NUM_LEVELS && l != 2 ==> AFTER[l] == [];
    }
  }

  lemma DropFits()
    requires SortedLevels(BEFORE)
    ensures Applied(BEFORE, CompactionEdit(DROPPING, [OUTPUT]), AFTER) && OneFilePerNumber(Files([OUTPUT]))
  {
    assert SortedBySmallest([OUTPUT] + [RIGHT]);
    assert [OUTPUT] + [RIGHT] == AFTER[2] && [LEFT] + [RIGHT] == BEFORE[2];
    ReplacesPair(BEFORE, DROPPING, UPPER, LEFT, [RIGHT], [OUTPUT], AFTER);
  }

  lemma DroppingIsPicked()
    requires WellFormedVersion(BEFORE) && SortedLevels(BEFORE)
    ensures GoodCompaction(BEFORE, DROPPING) && EndsAtPointer(DROPPING)
    ensures CompactedOutputs(BEFORE, DROPPING, 5, [OUTPUT])
    ensures Applied(BEFORE, CompactionEdit(DROPPING, [OUTPUT]), AFTER) && OneFilePerNumber(Files([OUTPUT]))
  {
    hide WellFormedVersion, SortedLevels, GoodCompaction, CompactedOutputs, Applied, CompactionEdit, Files;
    InputsAreTheCodesChoice();
    OneFileCompaction(BEFORE, DROPPING, UPPER);
    DroppingKeepsOne();
    DropFits();
  }

  lemma DropB(s: State) returns (s': State)
    requires Rests(s, BEFORE, 5, 12, [], {OLD_B, DELETED_B, OLD_A, NEW_C, NEW_A}) && Reached(s)
    ensures CodeNext(s, CompactStep(DROPPING, [OUTPUT]), s')
    ensures Rests(s', AFTER, 5, 13, [], {OLD_B, DELETED_B, OLD_A, NEW_C, NEW_A})
  {
    hide Reached, WellFormedVersion, SortedLevels, GoodCompaction, CompactedOutputs, Applied, CompactionEdit, Files;
    hide CodeNext, EndsAtPointer, OneFilePerNumber;
    LevelsAreSorted(s);
    DroppingIsPicked();
    s' := CompactTo(s, DROPPING, [OUTPUT], AFTER, 13);
  }

  // After one more compaction that the code picks, a read of key 2.0 at the
  // latest sequence number gives the old value, though the key is deleted.
  lemma DeletedKeyComesBack() returns (s: State, s': State)
    ensures s.version == BEFORE && LiveSequence(s', s'.lastSequence)
    ensures Answer(StoreNewest(s', 2.0, s'.lastSequence)) == Some([1])
    ensures ReadAt(s'.written, 2.0, s'.lastSequence) == None
    ensures !UncoversNothing(s, DROPPING) && !NoSharedBoundary(s.version, DROPPING)
    ensures CodeNext(s, CompactStep(DROPPING, [OUTPUT]), s') && Reached(s)
  {
    hide Reached, NoSharedBoundary, UncoversNothing, StoreNewest, ReadAt, CodeNext;
    s := WriteAgain();
    s' := DropB(s);
    DeletedKeyIsShared();
    OldValueIsRead(s');
    WrongReadMeansUncovered(s, DROPPING, [OUTPUT], s');
  }

  lemma OldValueIsRead(s: State)
    requires Rests(s, AFTER, 5, 13, [], {OLD_B, DELETED_B, OLD_A, NEW_C, NEW_A})
    ensures Answer(StoreNewest(s, 2.0, 5)) == Some([1]) && ReadAt(s.written, 2.0, 5) == None
  {
    hide VersionContents;
    AfterContents();
    NoneVisible({}, 2.0, 5);
    assert Contents(s.mem) == {} == ImmContents(s);
    assert IsNewest({NEW_A, OLD_B, NEW_C}, 2.0, 5, OLD_B);
    NewestIsUnique({NEW_A, OLD_B, NEW_C}, 2.0, 5, OLD_B);
    assert IsNewest(s.written, 2.0, 5, DELETED_B);
    NewestIsUnique(s.written, 2.0, 5, DELETED_B);
  }

  lemma DeletedKeyIsShared()
    ensures !NoSharedBoundary(BEFORE, DROPPING)
  {
    assert LEFT in DROPPING.inputs1 && RIGHT in BEFORE[2] && RIGHT !in DROPPING.inputs1;
    assert SameUserRange(LEFT, RIGHT);
  }

  // A compaction that uncovers nothing would have kept the reads exact.
  lemma WrongReadMeansUncovered(s: State, c: Compaction, outputs: seq<File>, s': State)
    requires Answer(StoreNewest(s', 2.0, s'.lastSequence)) != ReadAt(s'.written, 2.0, s'.lastSequence)
    requires CodeNext(s, CompactStep(c, outputs), s') && Reached(s)
    ensures !UncoversNothing(s, c)
  {
    hide StoreNewest, ReadAt, UncoversNothing, CodeNext, Run;
    if UncoversNothing(s, c) {
      Extend(s, CompactStep(c, outputs), s');
      var states, steps :| states != [] && Run(states, steps) && states[|states| - 1] == s';
      EveryReadIsExact(states, steps, |states| - 1, 2.0, s'.lastSequence);
      assert false;
    }
  }
}
