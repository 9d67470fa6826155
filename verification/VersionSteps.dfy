/**
 What installing a flushed memtable, a moved file or the outputs of a
 compaction does to a version (VersionSet::LogAndApply in db/version_set.cc,
 CompactMemTable, BackgroundCompaction and InstallCompactionResults in
 db/db_impl.cc): levels stay sorted and disjoint, and versions of a key never
 cross levels.
 */
module VersionSteps {
  import opened Basics
  import opened InternalKeys
  import opened Reads
  import opened Tables
  import opened VersionSearch
  import opened CompactionPicking
  import opened VersionReads
  import opened CompactionWork
  import opened VersionBuilder

  // ----- sets of files ---------------------------------------------------------------

  ghost function FilesContents(S: set<File>): set<Entry> {
    set f, e | f in S && e in f.entries :: e
  }

  ghost predicate PairwiseDisjoint(S: set<File>) {
    forall f, g :: f in S && g in S && f != g ==> Less(f.largest, g.smallest) || Less(g.largest, f.smallest)
  }

  lemma DisjointFromPairwise(files: seq<File>)
    requires ValidFiles(files) && SortedBySmallest(files) && PairwiseDisjoint(Files(files))
    ensures SortedDisjoint(files)
  {
    forall i, j | 0 <= i < j < |files| ensures Less(files[i].largest, files[j].smallest) {
      assert BySmallest(files[i], files[j]);
      SmallestBeforeLargest(files[j]);
      assert files[i] in Files(files) && files[j] in Files(files);
    }
  }

  lemma PairwiseFromDisjoint(files: seq<File>)
    requires SortedDisjoint(files)
    ensures PairwiseDisjoint(Files(files))
  {
    forall f, g | f in Files(files) && g in Files(files) && f != g
      ensures Less(f.largest, g.smallest) || Less(g.largest, f.smallest)
    {
      var i :| 0 <= i < |files| && files[i] == f;
      var j :| 0 <= j < |files| && files[j] == g;
      assert i != j;
    }
  }

  lemma ValidFromMembers(files: seq<File>)
    requires forall f :: f in Files(files) ==> ValidFile(f)
    ensures ValidFiles(files)
  {
    forall i | 0 <= i < |files| ensures ValidFile(files[i]) {
      assert files[i] in Files(files);
    }
  }

  lemma MembersOfValid(files: seq<File>)
    requires ValidFiles(files)
    ensures forall f :: f in Files(files) ==> ValidFile(f)
  {
  }

  lemma LevelIsFilesContents(files: seq<File>)
    ensures LevelContents(files) == FilesContents(Files(files))
  {
  }

  // ----- well-formed versions, by their file sets -----------------------------------------

  // A file number occurs once in a version.
  ghost predicate DistinctNumbers(v: Version) {
    forall l, m, f, g :: 0 <= l < NUM_LEVELS && 0 <= m < NUM_LEVELS && f in v[l] && g in v[m] && f.number == g.number
      ==> l == m && f == g
  }

  ghost predicate NumbersBelow(v: Version, n: nat) {
    forall l, f :: 0 <= l < NUM_LEVELS && f in v[l] ==> f.number < n
  }

  ghost predicate SortedLevels(v: Version) {
    forall l :: 0 <= l < NUM_LEVELS ==> SortedBySmallest(v[l])
  }

  // Everything a version must be at a step boundary.
  ghost predicate GoodVersion(v: Version) {
    OrderedVersion(v) && SortedLevels(v) && DistinctNumbers(v)
  }

  lemma NumbersOfSorted(files: seq<File>)
    requires SortedBySmallest(files) && OneFilePerNumber(Files(files))
    ensures forall i, j :: 0 <= i < j < |files| ==> files[i].number != files[j].number
  {
    forall i, j | 0 <= i < j < |files| ensures files[i].number != files[j].number {
      assert BySmallest(files[i], files[j]);
      assert files[i] in Files(files) && files[j] in Files(files);
    }
  }

  lemma ContentsOfVersion(v: Version, e: Entry)
    ensures e in VersionContents(v) <==> exists l :: 0 <= l < NUM_LEVELS && e in LevelContents(v[l])
  {
    FromLevelMembers(v, 0, e);
  }

  // ----- installing compaction outputs -----------------------------------------------------

  // The entries a compaction reads.
  ghost function InputContents(c: Compaction): set<Entry> {
    LevelContents(c.inputs0) + LevelContents(c.inputs1)
  }

  // The files of level l after the compaction.
  ghost function LevelAfter(v: Version, c: Compaction, outputs: seq<File>, l: nat): set<File>
    requires l < NUM_LEVELS
  {
    if l == c.level then Files(v[l]) - Files(c.inputs0)
    else if l == c.level + 1 then Files(v[l]) - Files(c.inputs1) + Files(outputs)
    else Files(v[l])
  }

  ghost predicate Installed(v: Version, c: Compaction, outputs: seq<File>, v': Version) {
    SortedLevels(v') && forall l :: 0 <= l < NUM_LEVELS ==> Files(v'[l]) == LevelAfter(v, c, outputs, l)
  }

  ghost predicate GoodOutputs(c: Compaction, outputs: seq<File>) {
    ValidFiles(outputs) && SortedDisjoint(outputs) && LevelContents(outputs) <= InputContents(c)
  }

  lemma InputsAreMembers(v: Version, c: Compaction)
    requires GoodVersion(v) && GoodCompaction(v, c)
    ensures ValidFiles(c.inputs0) && ValidFiles(c.inputs1)
    ensures LevelContents(c.inputs0) <= LevelContents(v[c.level])
    ensures LevelContents(c.inputs1) <= LevelContents(v[c.level + 1])
  {
    MembersAreValid(v[c.level], c.inputs0);
    MembersAreValid(v[c.level + 1], c.inputs1);
  }

  lemma InstalledFilesAreValid(v: Version, c: Compaction, outputs: seq<File>, v': Version, l: nat)
    requires GoodVersion(v) && GoodCompaction(v, c) && GoodOutputs(c, outputs) && Installed(v, c, outputs, v')
    requires l < NUM_LEVELS
    ensures ValidFiles(v'[l])
  {
    hide OrderedVersion, DistinctNumbers, SortedDisjoint, SortedBySmallest, Separated, OlderGoesFirst, SameUserRange;
    ValidLevels(v, l);
    forall f | f in Files(v'[l]) ensures ValidFile(f) {
      assert f in LevelAfter(v, c, outputs, l);
      assert f in v[l] || f in outputs;
    }
    ValidFromMembers(v'[l]);
  }

  lemma ValidLevels(v: Version, l: nat)
    requires GoodVersion(v) && l < NUM_LEVELS
    ensures ValidFiles(v[l]) && (l > 0 ==> SortedDisjoint(v[l])) && DistinctSequences(LevelContents(v[l]))
  {
  }

  // An output lies on the same side of a left-behind file as the inputs do.
  lemma OutputsAreSeparated(c: Compaction, outputs: seq<File>, o: File, g: File)
    requires ValidFiles(c.inputs0) && ValidFiles(c.inputs1) && GoodOutputs(c, outputs)
    requires o in outputs && ValidFile(g) && Separated(g, c.inputs0 + c.inputs1)
    ensures Less(o.largest, g.smallest) || Less(g.largest, o.smallest)
  {
    var all := c.inputs0 + c.inputs1;
    var first, last := o.entries[0], o.entries[|o.entries| - 1];
    var i :| 0 <= i < |outputs| && outputs[i] == o;
    assert first in o.entries && last in o.entries;
    assert first in LevelContents(outputs) && last in LevelContents(outputs);
    var f := InputOf(c, first);
    var h := InputOf(c, last);
    EntryInRange(f, first);
    EntryInRange(h, last);
    assert f in all && h in all;
  }

  lemma InputOf(c: Compaction, e: Entry) returns (f: File)
    requires ValidFiles(c.inputs0) && ValidFiles(c.inputs1) && e in InputContents(c)
    ensures f in c.inputs0 || f in c.inputs1
    ensures ValidFile(f) && e in f.entries
  {
    if e in LevelContents(c.inputs0) {
      f :| f in c.inputs0 && e in f.entries;
    } else {
      f :| f in c.inputs1 && e in f.entries;
    }
  }

  // Levels above 0 stay sorted and disjoint: the checks in SaveTo never fire.
  lemma InstalledStaysDisjoint(v: Version, c: Compaction, outputs: seq<File>, v': Version, l: nat)
    requires GoodVersion(v) && GoodCompaction(v, c) && GoodOutputs(c, outputs) && Installed(v, c, outputs, v')
    requires 0 < l < NUM_LEVELS
    ensures SortedDisjoint(v'[l])
  {
    hide OrderedVersion, DistinctNumbers, OlderGoesFirst, SameUserRange;
    InstalledFilesAreValid(v, c, outputs, v', l);
    ValidLevels(v, l);
    InputsAreMembers(v, c);
    PairwiseFromDisjoint(v[l]);
    PairwiseFromDisjoint(outputs);
    assert PairwiseDisjoint(Files(v'[l])) by {
      assert Files(v'[l]) == LevelAfter(v, c, outputs, l);
      if l == c.level + 1 {
        LevelWithOutputs(v, c, outputs);
      }
    }
    DisjointFromPairwise(v'[l]);
  }

  lemma LevelWithOutputs(v: Version, c: Compaction, outputs: seq<File>)
    requires c.level + 1 < NUM_LEVELS && GoodOutputs(c, outputs)
    requires ValidFiles(c.inputs0) && ValidFiles(c.inputs1) && ValidFiles(v[c.level + 1])
    requires forall g :: g in v[c.level + 1] && g !in c.inputs1 ==> Separated(g, c.inputs0 + c.inputs1)
    requires PairwiseDisjoint(Files(v[c.level + 1])) && PairwiseDisjoint(Files(outputs))
    ensures PairwiseDisjoint(Files(v[c.level + 1]) - Files(c.inputs1) + Files(outputs))
  {
    var rest := Files(v[c.level + 1]) - Files(c.inputs1);
    forall g, o | g in rest && o in outputs ensures Less(o.largest, g.smallest) || Less(g.largest, o.smallest) {
      OutputsAreSeparated(c, outputs, o, g);
    }
  }

  // Where an entry of the new version was before.
  lemma InstalledOrigin(v: Version, c: Compaction, outputs: seq<File>, v': Version, l: nat, e: Entry)
    requires GoodVersion(v) && GoodCompaction(v, c) && GoodOutputs(c, outputs) && Installed(v, c, outputs, v')
    requires l < NUM_LEVELS && e in LevelContents(v'[l])
    ensures e in LevelContents(v[l]) || (l == c.level + 1 && e in LevelContents(c.inputs0))
    ensures l == c.level ==> exists g :: g in v[l] && g !in c.inputs0 && e in g.entries
  {
    hide OrderedVersion, DistinctNumbers, SortedDisjoint, SortedBySmallest, Separated, OlderGoesFirst, SameUserRange;
    InputsAreMembers(v, c);
    var f :| f in v'[l] && e in f.entries;
    assert f in Files(v'[l]) && f in LevelAfter(v, c, outputs, l);
    if l == c.level + 1 && f in outputs {
      assert e in LevelContents(outputs);
    }
  }

  lemma InstalledKeepsOrder(v: Version, c: Compaction, outputs: seq<File>, v': Version, l: nat, m: nat)
    requires GoodVersion(v) && GoodCompaction(v, c) && GoodOutputs(c, outputs) && Installed(v, c, outputs, v')
    requires l < m < NUM_LEVELS
    ensures NewerThan(LevelContents(v'[l]), LevelContents(v'[m]))
  {
    forall a, b | a in LevelContents(v'[l]) && b in LevelContents(v'[m]) && a.key.user == b.key.user
      ensures a.key.sequence > b.key.sequence
    {
      PairStaysOrdered(v, c, outputs, v', l, m, a, b);
    }
  }

  lemma EntriesOrdered(v: Version, l: nat, m: nat, a: Entry, b: Entry)
    requires GoodVersion(v) && l < m < NUM_LEVELS && a.key.user == b.key.user
    requires a in LevelContents(v[l]) && b in LevelContents(v[m])
    ensures a.key.sequence > b.key.sequence
  {
    hide LevelContents, WellFormedVersion, NumberedByAge, DistinctSequences, SortedLevels, DistinctNumbers;
    assert NewerThan(LevelContents(v[l]), LevelContents(v[m]));
  }

  lemma LeftBehindIsNewer(v: Version, c: Compaction, g: File, f: File, a: Entry, b: Entry)
    requires GoodCompaction(v, c) && g in v[c.level] && g !in c.inputs0 && f in c.inputs0
    requires a in g.entries && b in f.entries && a.key.user == b.key.user
    ensures a.key.sequence > b.key.sequence
  {
  }

  lemma PairStaysOrdered(v: Version, c: Compaction, outputs: seq<File>, v': Version, l: nat, m: nat, a: Entry, b: Entry)
    requires GoodVersion(v) && GoodCompaction(v, c) && GoodOutputs(c, outputs) && Installed(v, c, outputs, v')
    requires l < m < NUM_LEVELS && a in LevelContents(v'[l]) && b in LevelContents(v'[m]) && a.key.user == b.key.user
    ensures a.key.sequence > b.key.sequence
  {
    hide GoodVersion, GoodOutputs, Installed, OlderGoesFirst, Separated, SameUserRange;
    InstalledOrigin(v, c, outputs, v', l, a);
    InstalledOrigin(v, c, outputs, v', m, b);
    InputsAreMembers(v, c);
    var l0 := if a in LevelContents(v[l]) then l else c.level;
    var m0 := if b in LevelContents(v[m]) then m else c.level;
    if l0 == m0 {
      var g :| g in v[l] && g !in c.inputs0 && a in g.entries;
      var f :| f in c.inputs0 && b in f.entries;
      LeftBehindIsNewer(v, c, g, f, a, b);
    } else {
      EntriesOrdered(v, l0, m0, a, b);
    }
  }

  lemma InstalledContents(v: Version, c: Compaction, outputs: seq<File>, v': Version)
    requires GoodVersion(v) && GoodCompaction(v, c) && GoodOutputs(c, outputs) && Installed(v, c, outputs, v')
    ensures VersionContents(v') <= VersionContents(v)
  {
    hide *;
    forall e | e in VersionContents(v') ensures e in VersionContents(v) {
      ContentsOfVersion(v', e);
      var l :| 0 <= l < NUM_LEVELS && e in LevelContents(v'[l]);
      InstalledWasThere(v, c, outputs, v', l, e);
      ContentsOfVersion(v, e);
    }
  }

  lemma InstalledWasThere(v: Version, c: Compaction, outputs: seq<File>, v': Version, l: nat, e: Entry)
    requires GoodVersion(v) && GoodCompaction(v, c) && GoodOutputs(c, outputs) && Installed(v, c, outputs, v')
    requires l < NUM_LEVELS && e in LevelContents(v'[l])
    ensures exists m :: 0 <= m < NUM_LEVELS && e in LevelContents(v[m])
  {
    InstalledOrigin(v, c, outputs, v', l, e);
    InputsAreMembers(v, c);
    hide GoodVersion, GoodOutputs, Installed;
    var m := if e in LevelContents(v[l]) then l else c.level;
    assert e in LevelContents(v[m]);
  }

  // The outputs have numbers of their own, or the one file moved keeps its number.
  ghost predicate NumbersFit(v: Version, c: Compaction, outputs: seq<File>) {
    && OneFilePerNumber(Files(outputs))
    && forall o, l, g :: o in outputs && 0 <= l < NUM_LEVELS && g in v[l] && g.number == o.number
         ==> l == c.level && g in c.inputs0
  }

  lemma InstalledNumbers(v: Version, c: Compaction, outputs: seq<File>, v': Version)
    requires GoodVersion(v) && GoodCompaction(v, c) && Installed(v, c, outputs, v') && NumbersFit(v, c, outputs)
    ensures DistinctNumbers(v')
  {
    hide OrderedVersion, SortedBySmallest, GoodCompaction;
    forall l, m, f, g | 0 <= l < NUM_LEVELS && 0 <= m < NUM_LEVELS && f in v'[l] && g in v'[m] && f.number == g.number
      ensures l == m && f == g
    {
      assert f in Files(v'[l]) && g in Files(v'[m]);
      assert f in LevelAfter(v, c, outputs, l) && g in LevelAfter(v, c, outputs, m);
      assert f in v[l] || (l == c.level + 1 && f in outputs);
      assert g in v[m] || (m == c.level + 1 && g in outputs);
    }
  }

  ghost predicate GoodLevel(v: Version, l: nat)
    requires l < NUM_LEVELS
  {
    ValidFiles(v[l]) && (l > 0 ==> SortedDisjoint(v[l])) && DistinctSequences(LevelContents(v[l]))
  }

  lemma InstalledGoodLevel(v: Version, c: Compaction, outputs: seq<File>, v': Version, l: nat)
    requires GoodVersion(v) && GoodCompaction(v, c) && GoodOutputs(c, outputs) && Installed(v, c, outputs, v')
    requires l < NUM_LEVELS
    ensures GoodLevel(v', l) && DistinctSequences(VersionContents(v'))
  {
    hide GoodVersion, GoodCompaction, GoodOutputs, Installed, DistinctSequences, SortedDisjoint, ValidFiles;
    hide VersionContents;
    InstalledContents(v, c, outputs, v');
    InstalledFilesAreValid(v, c, outputs, v', l);
    if l > 0 { InstalledStaysDisjoint(v, c, outputs, v', l); }
    SubsetIsDistinct(v, v', l);
  }

  // After any compaction or trivial move the version is still good.
  lemma InstalledIsGood(v: Version, c: Compaction, outputs: seq<File>, v': Version)
    requires GoodVersion(v) && GoodCompaction(v, c) && GoodOutputs(c, outputs)
    requires NumbersFit(v, c, outputs) && Installed(v, c, outputs, v')
    ensures GoodVersion(v')
  {
    hide GoodVersion, GoodCompaction, GoodOutputs, NumbersFit, GoodLevel, DistinctSequences, NewerThan, NumberedByAge;
    hide DistinctNumbers, SortedBySmallest, LevelAfter, LevelContents, VersionContents;
    forall l: nat | l < NUM_LEVELS ensures GoodLevel(v', l) {
      InstalledGoodLevel(v, c, outputs, v', l);
    }
    InstalledGoodLevel(v, c, outputs, v', 0);
    forall l: nat, m: nat | l < m < NUM_LEVELS ensures NewerThan(LevelContents(v'[l]), LevelContents(v'[m])) {
      InstalledKeepsOrder(v, c, outputs, v', l, m);
    }
    InstalledNumbers(v, c, outputs, v');
    InstalledLevel0(v, c, outputs, v');
    GoodFromParts(v');
  }

  lemma SubsetIsDistinct(v: Version, v': Version, l: nat)
    requires GoodVersion(v) && VersionContents(v') <= VersionContents(v) && l < NUM_LEVELS
    ensures DistinctSequences(LevelContents(v'[l])) && DistinctSequences(VersionContents(v'))
  {
    forall e | e in LevelContents(v'[l]) ensures e in VersionContents(v') {
      ContentsOfVersion(v', e);
    }
  }

  lemma InstalledLevel0(v: Version, c: Compaction, outputs: seq<File>, v': Version)
    requires GoodVersion(v) && Installed(v, c, outputs, v') && DistinctNumbers(v')
    ensures NumberedByAge(v'[0])
  {
    hide WellFormedVersion, DistinctSequences, BySmallest;
    assert NumberedByAge(v[0]);
    forall f | f in v'[0] ensures f in v[0] {
      assert f in Files(v'[0]) && f in LevelAfter(v, c, outputs, 0);
    }
    Level0Subset(v, v');
  }

  lemma Level0Subset(v: Version, v': Version)
    requires NumberedByAge(v[0]) && SortedLevels(v') && DistinctNumbers(v')
    requires forall f :: f in v'[0] ==> f in v[0]
    ensures NumberedByAge(v'[0])
  {
    NumbersOfSorted(v'[0]);
  }

  lemma SortedHasNoDuplicates(files: seq<File>)
    requires SortedBySmallest(files)
    ensures NoDuplicates(files)
  {
    forall i, j | 0 <= i < j < |files| ensures files[i] != files[j] {
      assert BySmallest(files[i], files[j]);
    }
  }

  lemma GoodFromParts(v: Version)
    requires forall l: nat :: l < NUM_LEVELS ==> GoodLevel(v, l)
    requires DistinctSequences(VersionContents(v))
    requires forall l: nat, m: nat :: l < m < NUM_LEVELS ==> NewerThan(LevelContents(v[l]), LevelContents(v[m]))
    requires NumberedByAge(v[0]) && SortedLevels(v) && DistinctNumbers(v)
    ensures GoodVersion(v)
  {
    hide NewerThan, DistinctSequences, NumberedByAge, SortedBySmallest, DistinctNumbers, ValidFiles;
    hide SortedDisjoint, VersionContents, LevelContents;
    assert forall l: nat :: l < NUM_LEVELS ==> GoodLevel(v, l) && ValidFiles(v[l]);
    forall l: nat | l < NUM_LEVELS ensures NoDuplicates(v[l]) {
      SortedHasNoDuplicates(v[l]);
    }
  }

  // ----- adding flushed tables ---------------------------------------------------------------

  // The new tables hold newer entries than the version, in the order of their
  // numbers; below level 0 there is one, placed where nothing overlaps it.
  ghost predicate Addable(v: Version, target: nat, fs: set<File>) {
    && target < NUM_LEVELS
    && (forall f :: f in fs ==> ValidFile(f) && Placeable(v, target, f.smallest.user, f.largest.user))
    && (forall f, l, g :: f in fs && 0 <= l < NUM_LEVELS && g in v[l] ==> g.number < f.number)
    && OneFilePerNumber(fs)
    && (forall f, g :: f in fs && g in fs && f.number > g.number ==>
       NewerThan(Contents(f.entries), Contents(g.entries)))
    && (target > 0 ==> forall f, g :: f in fs && g in fs ==> f == g)
    && NewerThan(FilesContents(fs), VersionContents(v))
    && DistinctSequences(VersionContents(v) + FilesContents(fs))
  }

  ghost predicate Added(v: Version, target: nat, fs: set<File>, v': Version) {
    SortedLevels(v') && forall l :: 0 <= l < NUM_LEVELS ==> Files(v'[l]) == Files(v[l]) + if l == target then fs else {}
  }

  lemma AddedOrigin(v: Version, target: nat, fs: set<File>, v': Version, l: nat)
    requires Added(v, target, fs, v') && l < NUM_LEVELS
    ensures LevelContents(v'[l]) == LevelContents(v[l]) + if l == target then FilesContents(fs) else {}
  {
    hide SortedLevels;
    LevelIsFilesContents(v'[l]);
    LevelIsFilesContents(v[l]);
  }

  lemma AddedContents(v: Version, target: nat, fs: set<File>, v': Version)
    requires Added(v, target, fs, v') && target < NUM_LEVELS
    ensures VersionContents(v') == VersionContents(v) + FilesContents(fs)
  {
    hide Added, LevelContents, VersionContents;
    forall e ensures e in VersionContents(v') <==> e in VersionContents(v) + FilesContents(fs) {
      ContentsOfVersion(v, e);
      ContentsOfVersion(v', e);
      forall l: nat | l < NUM_LEVELS
        ensures e in LevelContents(v'[l]) <==> e in LevelContents(v[l]) || (l == target && e in FilesContents(fs))
      {
        AddedOrigin(v, target, fs, v', l);
      }
      if e in FilesContents(fs) { assert e in LevelContents(v'[target]); }
    }
  }

  // A file that overlaps no file of a level is disjoint from them all.
  lemma PlacedIsDisjoint(files: seq<File>, f: File, g: File)
    requires ValidFiles(files) && ValidFile(f) && g in files
    requires !SomeOverlap(files, Some(f.smallest.user), Some(f.largest.user))
    ensures g.largest.user < f.smallest.user || f.largest.user < g.smallest.user
  {
    var i :| 0 <= i < |files| && files[i] == g;
    assert !Overlaps(files[i], Some(f.smallest.user), Some(f.largest.user));
  }

  lemma AddedGoodLevel(v: Version, target: nat, fs: set<File>, v': Version, l: nat)
    requires GoodVersion(v) && Addable(v, target, fs) && Added(v, target, fs, v') && l < NUM_LEVELS
    ensures GoodLevel(v', l)
  {
    hide OrderedVersion, DistinctNumbers, NewerThan, OneFilePerNumber, VersionContents, BySmallest;
    ValidLevels(v, l);
    forall f | f in Files(v'[l]) ensures ValidFile(f) {
      assert f in v[l] || f in fs;
    }
    ValidFromMembers(v'[l]);
    if l > 0 {
      PairwiseFromDisjoint(v[l]);
      AddedIsPairwiseDisjoint(v, target, fs, l);
      DisjointFromPairwise(v'[l]);
    }
    AddedOrigin(v, target, fs, v', l);
    AddedLevelIsDistinct(v, target, fs, v', l);
  }

  lemma AddedLevelIsDistinct(v: Version, target: nat, fs: set<File>, v': Version, l: nat)
    requires Addable(v, target, fs) && l < NUM_LEVELS
    requires LevelContents(v'[l]) == LevelContents(v[l]) + if l == target then FilesContents(fs) else {}
    ensures DistinctSequences(LevelContents(v'[l]))
  {
    hide Placeable, NewerThan, OneFilePerNumber, LevelContents, FilesContents;
    forall e | e in LevelContents(v[l]) ensures e in VersionContents(v) {
      ContentsOfVersion(v, e);
    }
  }

  lemma AddedIsPairwiseDisjoint(v: Version, target: nat, fs: set<File>, l: nat)
    requires Addable(v, target, fs) && 0 < l < NUM_LEVELS && ValidFiles(v[l]) && PairwiseDisjoint(Files(v[l]))
    ensures PairwiseDisjoint(Files(v[l]) + if l == target then fs else {})
  {
    hide NewerThan, OneFilePerNumber, DistinctSequences, VersionContents, FilesContents;
    if l == target {
      forall f, g | f in fs && g in v[l] ensures Less(f.largest, g.smallest) || Less(g.largest, f.smallest) {
        assert Placeable(v, target, f.smallest.user, f.largest.user);
        PlacedIsDisjoint(v[l], f, g);
      }
    }
  }

  lemma AddedKeepsOrder(v: Version, target: nat, fs: set<File>, v': Version, l: nat, m: nat)
    requires GoodVersion(v) && Addable(v, target, fs) && Added(v, target, fs, v') && l < m < NUM_LEVELS
    ensures NewerThan(LevelContents(v'[l]), LevelContents(v'[m]))
  {
    hide GoodVersion, Addable, Added, LevelContents, FilesContents;
    AddedOrigin(v, target, fs, v', l);
    AddedOrigin(v, target, fs, v', m);
    forall a, b | a in LevelContents(v'[l]) && b in LevelContents(v'[m]) && a.key.user == b.key.user
      ensures a.key.sequence > b.key.sequence
    {
      if a in LevelContents(v[l]) && b in LevelContents(v[m]) {
        EntriesOrdered(v, l, m, a, b);
      } else if b in LevelContents(v[m]) {
        AddedIsNewest(v, target, fs, m, a, b);
      } else {
        PlacedSharesNoKey(v, target, fs, l, a, b);
        assert false;
      }
    }
  }

  lemma AddedIsNewest(v: Version, target: nat, fs: set<File>, m: nat, a: Entry, b: Entry)
    requires Addable(v, target, fs) && m < NUM_LEVELS
    requires a in FilesContents(fs) && b in LevelContents(v[m]) && a.key.user == b.key.user
    ensures a.key.sequence > b.key.sequence
  {
    ContentsOfVersion(v, b);
    assert b in VersionContents(v);
  }

  lemma PlacedSharesNoKey(v: Version, target: nat, fs: set<File>, l: nat, a: Entry, b: Entry)
    requires GoodVersion(v) && Addable(v, target, fs) && l < target
    requires a in LevelContents(v[l]) && b in FilesContents(fs)
    ensures a.key.user != b.key.user
  {
    hide NewerThan, OneFilePerNumber, DistinctSequences, VersionContents, SortedLevels, DistinctNumbers;
    hide NumberedByAge;
    ValidLevels(v, l);
    var f :| f in fs && b in f.entries;
    var g :| g in v[l] && a in g.entries;
    assert Placeable(v, target, f.smallest.user, f.largest.user);
    var i :| 0 <= i < |v[l]| && v[l][i] == g;
    PlacedIsDisjoint(v[l], f, g);
    EntryInRange(f, b);
    EntryInRange(g, a);
  }

  lemma AddedNumbers(v: Version, target: nat, fs: set<File>, v': Version)
    requires GoodVersion(v) && Addable(v, target, fs) && Added(v, target, fs, v')
    ensures DistinctNumbers(v') && NumberedByAge(v'[0])
  {
    hide OrderedVersion, Placeable, NewerThan, DistinctSequences, VersionContents, FilesContents;
    hide SortedBySmallest, ValidFile;
    forall l, m, f, g | 0 <= l < NUM_LEVELS && 0 <= m < NUM_LEVELS && f in v'[l] && g in v'[m] && f.number == g.number
      ensures l == m && f == g
    {
      assert f in Files(v'[l]) && g in Files(v'[m]);
      assert f in v[l] || (l == target && f in fs);
      assert g in v[m] || (m == target && g in fs);
    }
    NumbersOfSorted(v'[0]);
    forall f, g | f in v'[0] && g in v'[0] && f.number > g.number
      ensures NewerThan(Contents(f.entries), Contents(g.entries))
    {
      AddedLevel0Age(v, target, fs, v', f, g);
    }
  }

  lemma AddedLevel0Age(v: Version, target: nat, fs: set<File>, v': Version, f: File, g: File)
    requires GoodVersion(v) && Addable(v, target, fs) && Added(v, target, fs, v')
    requires f in v'[0] && g in v'[0] && f.number > g.number
    ensures NewerThan(Contents(f.entries), Contents(g.entries))
  {
    hide Placeable, DistinctSequences, SortedLevels, DistinctNumbers, ValidFile, WellFormedVersion;
    assert f in Files(v'[0]) && g in Files(v'[0]);
    assert NumberedByAge(v[0]);
    if f in fs && g !in fs {
      forall a, b | a in f.entries && b in g.entries && a.key.user == b.key.user
        ensures a.key.sequence > b.key.sequence
      {
        assert a in FilesContents(fs) && b in LevelContents(v[0]);
        AddedIsNewest(v, target, fs, 0, a, b);
      }
    }
  }

  // After any flush or recovery the version is still good.
  lemma AddedIsGood(v: Version, target: nat, fs: set<File>, v': Version)
    requires GoodVersion(v) && Addable(v, target, fs) && Added(v, target, fs, v')
    ensures GoodVersion(v')
  {
    hide GoodVersion, GoodLevel, NewerThan, NumberedByAge, DistinctNumbers, LevelContents, VersionContents;
    hide FilesContents;
    hide SortedBySmallest, Placeable, OneFilePerNumber, ValidFile;
    forall l: nat | l < NUM_LEVELS ensures GoodLevel(v', l) {
      AddedGoodLevel(v, target, fs, v', l);
    }
    forall l: nat, m: nat | l < m < NUM_LEVELS ensures NewerThan(LevelContents(v'[l]), LevelContents(v'[m])) {
      AddedKeepsOrder(v, target, fs, v', l, m);
    }
    AddedContents(v, target, fs, v');
    AddedNumbers(v, target, fs, v');
    GoodFromParts(v');
  }

  // ----- reads across a compaction -----------------------------------------------------------

  // Two files of a good version share no entry.
  lemma EntryInOneFile(v: Version, l: nat, m: nat, f: File, g: File, e: Entry)
    requires GoodVersion(v) && l < NUM_LEVELS && m < NUM_LEVELS
    requires f in v[l] && g in v[m] && e in f.entries && e in g.entries
    ensures l == m && f == g
  {
    hide SortedLevels, VersionContents;
    assert e in LevelContents(v[l]) && e in LevelContents(v[m]);
    if l < m { EntriesOrdered(v, l, m, e, e); assert false; }
    if m < l { EntriesOrdered(v, m, l, e, e); assert false; }
    if f != g { EntryInOneLevelFile(v, l, f, g, e); assert false; }
  }

  lemma SameKeySameFile(v: Version, l: nat, m: nat, f: File, g: File, a: Entry, b: Entry)
    requires GoodVersion(v) && l < NUM_LEVELS && m < NUM_LEVELS && f in v[l] && g in v[m]
    requires a in f.entries && b in g.entries && a.key == b.key
    ensures l == m && f == g
  {
    hide VersionContents, NewerThan, WellFormedVersion, SortedLevels, DistinctNumbers, NumberedByAge;
    ContentsOfVersion(v, a);
    ContentsOfVersion(v, b);
    assert a in LevelContents(v[l]) && b in LevelContents(v[m]);
    EntryInOneFile(v, l, m, f, g, a);
  }

  lemma EntryInOneLevelFile(v: Version, l: nat, f: File, g: File, e: Entry)
    requires GoodVersion(v) && l < NUM_LEVELS && f in v[l] && g in v[l] && e in f.entries && e in g.entries
    ensures f == g
  {
    hide DistinctSequences, VersionContents, LevelContents, SortedBySmallest, NewerThan, NumberedByAge;
    hide DistinctNumbers;
    ValidLevels(v, l);
    if l > 0 {
      EntryInOneSortedFile(v[l], f, g, e);
    } else {
      assert NumberedByAge(v[0]);
      EntryInOneLevel0File(v[0], f, g, e);
    }
  }

  lemma EntryInOneSortedFile(files: seq<File>, f: File, g: File, e: Entry)
    requires ValidFiles(files) && SortedDisjoint(files)
    requires f in files && g in files && e in f.entries && e in g.entries
    ensures f == g
  {
    var i :| 0 <= i < |files| && files[i] == f;
    var j :| 0 <= j < |files| && files[j] == g;
    EntryInRange(f, e);
    EntryInRange(g, e);
    assert i < j ==> Less(f.largest, g.smallest);
    assert j < i ==> Less(g.largest, f.smallest);
  }

  lemma EntryInOneLevel0File(files: seq<File>, f: File, g: File, e: Entry)
    requires NumberedByAge(files) && f in files && g in files && e in f.entries && e in g.entries
    ensures f == g
  {
    assert e in Contents(f.entries) && e in Contents(g.entries);
    UniqueNumbers(files, f, g);
  }

  // Everything but the compaction's inputs stays; the inputs become the outputs.
  lemma InstalledSplitsContents(v: Version, c: Compaction, outputs: seq<File>, v': Version)
    requires GoodVersion(v) && GoodCompaction(v, c) && GoodOutputs(c, outputs) && Installed(v, c, outputs, v')
    ensures InputContents(c) <= VersionContents(v)
    ensures VersionContents(v') == VersionContents(v) - InputContents(c) + LevelContents(outputs)
  {
    hide GoodVersion, GoodOutputs, LevelContents, VersionContents;
    InputsAreMembers(v, c);
    InstalledContents(v, c, outputs, v');
    forall e | e in InputContents(c) ensures e in VersionContents(v) {
      ContentsOfVersion(v, e);
      assert e in LevelContents(v[c.level]) || e in LevelContents(v[c.level + 1]);
    }
    forall e | e in VersionContents(v') ensures e in VersionContents(v) - InputContents(c) + LevelContents(outputs) {
      NewContentsOrigin(v, c, outputs, v', e);
    }
    forall e | e in VersionContents(v) - InputContents(c) + LevelContents(outputs) ensures e in VersionContents(v') {
      OldContentsStay(v, c, outputs, v', e);
    }
  }

  lemma NewContentsOrigin(v: Version, c: Compaction, outputs: seq<File>, v': Version, e: Entry)
    requires GoodVersion(v) && GoodCompaction(v, c) && Installed(v, c, outputs, v') && e in VersionContents(v')
    ensures e in LevelContents(outputs) || e !in InputContents(c)
  {
    hide GoodVersion, VersionContents, SortedLevels, OlderGoesFirst, Separated, SameUserRange;
    ContentsOfVersion(v', e);
    var l :| 0 <= l < NUM_LEVELS && e in LevelContents(v'[l]);
    var g :| g in v'[l] && e in g.entries;
    assert g in Files(v'[l]) && g in LevelAfter(v, c, outputs, l);
    if g !in outputs {
      forall f, m | 0 <= m < NUM_LEVELS && f in v[m] && e in f.entries ensures m == l && f == g {
        EntryInOneFile(v, l, m, g, f, e);
      }
    }
  }

  lemma OldContentsStay(v: Version, c: Compaction, outputs: seq<File>, v': Version, e: Entry)
    requires GoodCompaction(v, c) && Installed(v, c, outputs, v')
    requires e in VersionContents(v) - InputContents(c) + LevelContents(outputs)
    ensures e in VersionContents(v')
  {
    hide VersionContents, SortedLevels, OlderGoesFirst, Separated, SameUserRange;
    ContentsOfVersion(v, e);
    ContentsOfVersion(v', e);
    if e in LevelContents(outputs) {
      var o :| o in outputs && e in o.entries;
      assert o in LevelAfter(v, c, outputs, c.level + 1) && o in Files(v'[c.level + 1]);
      assert e in LevelContents(v'[c.level + 1]);
    } else {
      var l :| 0 <= l < NUM_LEVELS && e in LevelContents(v[l]);
      var g :| g in v[l] && e in g.entries;
      assert g !in c.inputs0 && g !in c.inputs1;
      assert g in LevelAfter(v, c, outputs, l) && g in Files(v'[l]);
      assert e in LevelContents(v'[l]);
    }
  }

  // The files of the next level that the compaction does not read.
  ghost function LeftBehind(v: Version, c: Compaction): set<Entry> {
    if c.level + 1 < NUM_LEVELS then FilesContents(Files(v[c.level + 1]) - Files(c.inputs1)) else {}
  }

  // A compaction uncovers k when it drops the tombstone that deletes k for every
  // live snapshot and the newest entry of k in the files of the next level that
  // it does not read is a value.
  ghost predicate Uncovers(v: Version, c: Compaction, smallest: nat, k: UserKey) {
    exists e :: && e in InputContents(c) && e.key.user == k
                && e.key.typ.TypeDeletion? && IsBaseKey(v, c.level, k)
                && IsNewest(VersionContents(v), k, smallest, e)
                && ReadAt(LeftBehind(v, c), k, e.key.sequence) != None
  }

  // Older entries of a base key in files the compaction does not read are in
  // the next level.
  lemma OlderOfBaseKey(v: Version, c: Compaction, e: Entry, r: Entry)
    requires GoodVersion(v) && GoodCompaction(v, c) && IsBaseKey(v, c.level, e.key.user)
    requires e in InputContents(c) && r in VersionContents(v) && r !in InputContents(c)
    requires r.key.user == e.key.user && r.key.sequence <= e.key.sequence
    ensures r in LeftBehind(v, c)
  {
    hide GoodVersion, GoodCompaction, IsBaseKey, VersionContents, InputContents, LeftBehind;
    ContentsOfVersion(v, r);
    var m :| 0 <= m < NUM_LEVELS && r in LevelContents(v[m]);
    var g :| g in v[m] && r in g.entries;
    if m >= c.level + 2 {
      GoodIsWellFormed(v);
      BaseKeyIsAbsentBelow(v, c.level, e.key.user, m, r);
      assert false;
    } else if m <= c.level {
      OlderIsNotAbove(v, c, m, g, r, e);
      assert false;
    } else {
      InNextLevel(v, c, g, r);
    }
  }

  lemma GoodIsWellFormed(v: Version)
    requires GoodVersion(v)
    ensures WellFormedVersion(v)
  {
  }

  lemma InNextLevel(v: Version, c: Compaction, g: File, r: Entry)
    requires c.level + 1 < NUM_LEVELS && g in v[c.level + 1] && r in g.entries && r !in InputContents(c)
    ensures r in LeftBehind(v, c)
  {
    assert g !in c.inputs1;
  }

  lemma OlderIsNotAbove(v: Version, c: Compaction, m: nat, g: File, r: Entry, e: Entry)
    requires GoodVersion(v) && GoodCompaction(v, c) && m <= c.level
    requires e in InputContents(c) && g in v[m] && r in g.entries && r !in InputContents(c) && r.key.user == e.key.user
    ensures r.key.sequence > e.key.sequence
  {
    hide GoodVersion, Separated, SameUserRange, OlderGoesFirst;
    InputsAreMembers(v, c);
    assert r in LevelContents(v[m]);
    if e in LevelContents(c.inputs1) {
      EntriesOrdered(v, m, c.level + 1, r, e);
    } else if m < c.level {
      EntriesOrdered(v, m, c.level, r, e);
    } else {
      var f :| f in c.inputs0 && e in f.entries;
      assert g !in c.inputs0;
      LeftBehindIsNewer(v, c, g, f, r, e);
    }
  }

  lemma ResurrectsMeansUncovers(v: Version, c: Compaction, smallest: nat, k: UserKey)
    requires GoodVersion(v) && GoodCompaction(v, c) && InputContents(c) <= VersionContents(v)
    ensures Uncovers(v, c, smallest, k)
            <==> Resurrects(VersionContents(v) - InputContents(c), InputContents(c), smallest,
              BaseKeys(v, c.level, InputContents(c)), k)
  {
    hide GoodVersion, GoodCompaction, InputContents, VersionContents, LeftBehind, IsBaseKey, NewestAt;
    var V, I := VersionContents(v), InputContents(c);
    var R := V - I;
    assert R + I == V;
    forall e | e in I && e.key.user == k && IsBaseKey(v, c.level, k) && IsNewest(V, k, smallest, e)
      ensures ReadAt(LeftBehind(v, c), k, e.key.sequence) == ReadAt(R, k, e.key.sequence)
    {
      ReadsLeftBehind(v, c, k, e);
    }
  }

  lemma ReadsLeftBehind(v: Version, c: Compaction, k: UserKey, e: Entry)
    requires GoodVersion(v) && GoodCompaction(v, c) && InputContents(c) <= VersionContents(v)
    requires e in InputContents(c) && e.key.user == k && IsBaseKey(v, c.level, k)
    ensures NewestAt(LeftBehind(v, c), k, e.key.sequence) ==
      NewestAt(VersionContents(v) - InputContents(c), k, e.key.sequence)
  {
    hide GoodCompaction, VersionContents, LeftBehind, IsBaseKey, InputContents;
    var R := VersionContents(v) - InputContents(c);
    LeftBehindIsNotRead(v, c);
    forall r | r in R && Visible(r, k, e.key.sequence) ensures r in LeftBehind(v, c) {
      OlderOfBaseKey(v, c, e, r);
    }
    SameVisible(R, LeftBehind(v, c), k, e.key.sequence);
  }

  lemma LeftBehindIsNotRead(v: Version, c: Compaction)
    requires GoodVersion(v) && GoodCompaction(v, c)
    ensures LeftBehind(v, c) <= VersionContents(v) - InputContents(c)
  {
    hide GoodVersion, VersionContents, OlderGoesFirst, Separated, SameUserRange;
    forall e | e in LeftBehind(v, c) ensures e in VersionContents(v) && e !in InputContents(c) {
      var g :| g in Files(v[c.level + 1]) - Files(c.inputs1) && e in g.entries;
      ContentsOfVersion(v, e);
      assert e in LevelContents(v[c.level + 1]);
      forall f, m | 0 <= m < NUM_LEVELS && f in v[m] && e in f.entries ensures m == c.level + 1 && f == g {
        EntryInOneFile(v, c.level + 1, m, g, f, e);
      }
    }
  }

  // The outputs DoCompactionWork writes.
  ghost predicate CompactedOutputs(v: Version, c: Compaction, smallest: nat, outputs: seq<File>) {
    && ValidFiles(outputs) && SortedDisjoint(outputs)
    && LevelContents(outputs) == Kept(InputContents(c), smallest, BaseKeys(v, c.level, InputContents(c)))
  }

  // A compaction keeps every read of k at every live snapshot if and only if it
  // does not uncover k.
  lemma CompactionPreservesReads(v: Version, c: Compaction, smallest: nat, outputs: seq<File>, v': Version, k: UserKey)
    requires GoodVersion(v) && GoodCompaction(v, c)
    requires CompactedOutputs(v, c, smallest, outputs) && Installed(v, c, outputs, v')
    ensures (forall t: nat :: t >= smallest ==> ReadAt(VersionContents(v'), k, t) == ReadAt(VersionContents(v), k, t))
            <==> !Uncovers(v, c, smallest, k)
  {
    hide GoodCompaction, Installed, InputContents, VersionContents, LevelContents, BaseKeys, Uncovers;
    hide Resurrects, ReadAt, SortedDisjoint;
    var V, I := VersionContents(v), InputContents(c);
    var base := BaseKeys(v, c.level, I);
    assert GoodOutputs(c, outputs);
    InstalledSplitsContents(v, c, outputs, v');
    assert V - I + I == V;
    CompactionKeepsReads(V - I, I, smallest, base, k);
    ResurrectsMeansUncovers(v, c, smallest, k);
  }

  // No file left at the next level shares a user key with a file that is read.
  ghost predicate NoSharedBoundary(v: Version, c: Compaction)
    requires c.level + 1 < NUM_LEVELS
  {
    forall f, g :: f in c.inputs1 && g in v[c.level + 1] && g !in c.inputs1 ==> !SameUserRange(f, g)
  }

  lemma NoSharedBoundaryIsSafe(v: Version, c: Compaction, smallest: nat, k: UserKey)
    requires GoodVersion(v) && GoodCompaction(v, c) && NoSharedBoundary(v, c)
    ensures !Uncovers(v, c, smallest, k)
  {
    forall e | e in InputContents(c) && e.key.user == k
      ensures ReadAt(LeftBehind(v, c), k, e.key.sequence) == None
    {
      forall r | r in LeftBehind(v, c) ensures r.key.user != k {
        NotLeftBehind(v, c, e, r);
      }
      NoneVisible(LeftBehind(v, c), k, e.key.sequence);
    }
  }

  lemma NotLeftBehind(v: Version, c: Compaction, e: Entry, r: Entry)
    requires GoodVersion(v) && GoodCompaction(v, c) && NoSharedBoundary(v, c)
    requires e in InputContents(c) && r in LeftBehind(v, c)
    ensures r.key.user != e.key.user
  {
    hide GoodVersion, OlderGoesFirst, Separated, InputContents, SortedDisjoint, DistinctSequences, ValidFile;
    InputsAreMembers(v, c);
    ValidLevels(v, c.level + 1);
    var g :| g in Files(v[c.level + 1]) - Files(c.inputs1) && r in g.entries;
    var f := InputOf(c, e);
    MembersOfValid(v[c.level + 1]);
    EntryInRange(f, e);
    EntryInRange(g, r);
    assert !SameUserRange(f, g);
  }
}
