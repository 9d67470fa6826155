/**
 Choosing the inputs of a compaction (db/version_set.cc): AddBoundaryInputs,
 SetupOtherInputs, PickCompaction and CompactRange.  Whatever they pick is a
 GoodCompaction: installing it cannot reorder versions of a key nor make two
 files of a level overlap.
 */
module CompactionPicking {
  import opened Basics
  import opened InternalKeys
  import opened Reads
  import opened Tables
  import opened VersionSearch

  // compactPointer is where the next compaction of the level starts; the edit of
  // the compaction records it.
  datatype Compaction = Compaction(level: nat, inputs0: seq<File>, inputs1: seq<File>, grandparents: seq<File>,
                                     compactPointer: InternalKey)

  ghost predicate WellFormedVersion(v: Version) {
    && (forall l :: 0 <= l < NUM_LEVELS ==> ValidFiles(v[l]))
    && (forall l :: 0 < l < NUM_LEVELS ==> SortedDisjoint(v[l]))
    && (forall l :: 0 <= l < NUM_LEVELS ==> DistinctSequences(LevelContents(v[l])))
    && (forall l :: 0 <= l < NUM_LEVELS ==> NoDuplicates(v[l]))
  }

  predicate SameUserRange(f: File, g: File) {
    f.smallest.user <= g.largest.user && g.smallest.user <= f.largest.user
  }

  // What stays behind in the level is newer, key by key, than what leaves it.
  ghost predicate OlderGoesFirst(files: seq<File>, inputs: seq<File>) {
    forall f, g, x, y ::
      (f in inputs && g in files && g !in inputs && x in f.entries && y in g.entries && x.key.user == y.key.user)
      ==> y.key.sequence > x.key.sequence
  }

  // g lies wholly on one side of all the inputs.
  ghost predicate Separated(g: File, inputs: seq<File>) {
    || (forall f :: f in inputs ==> Less(g.largest, f.smallest))
    || (forall f :: f in inputs ==> Less(f.largest, g.smallest))
  }

  ghost predicate GoodCompaction(v: Version, c: Compaction) {
    && c.level + 1 < NUM_LEVELS
    && c.inputs0 != [] && NoDuplicates(c.inputs0) && NoDuplicates(c.inputs1)
    && (forall f :: f in c.inputs0 ==> f in v[c.level])
    && (forall f :: f in c.inputs1 ==> f in v[c.level + 1])
    && OlderGoesFirst(v[c.level], c.inputs0)
    && (forall g :: g in v[c.level + 1] && g !in c.inputs1 ==> Separated(g, c.inputs0 + c.inputs1))
    && (forall f, g :: f in c.inputs0 && g in v[c.level + 1] && g !in c.inputs1 ==> !SameUserRange(f, g))
  }

  // The compaction pointer is the largest key of the level's inputs.
  ghost predicate EndsAtPointer(c: Compaction) {
    exists s :: IsRange(c.inputs0, s, c.compactPointer)
  }

  // ----- GetRange ------------------------------------------------------

  ghost predicate IsRange(inputs: seq<File>, smallest: InternalKey, largest: InternalKey) {
    && (exists f :: f in inputs && f.smallest == smallest)
    && (exists f :: f in inputs && f.largest == largest)
    && (forall f :: f in inputs ==> LessEq(smallest, f.smallest) && LessEq(f.largest, largest))
  }

  method GetRange(inputs: seq<File>) returns (smallest: InternalKey, largest: InternalKey)
    requires inputs != []
    ensures IsRange(inputs, smallest, largest)
  {
    smallest, largest := inputs[0].smallest, inputs[0].largest;
    ghost var s, l := 0, 0;
    for i := 1 to |inputs|
      invariant s < i && l < i && inputs[s].smallest == smallest && inputs[l].largest == largest
      invariant forall j :: 0 <= j < i ==> LessEq(smallest, inputs[j].smallest) && LessEq(inputs[j].largest, largest)
    {
      if Less(inputs[i].smallest, smallest) { smallest := inputs[i].smallest; s := i; }
      if Less(largest, inputs[i].largest) { largest := inputs[i].largest; l := i; }
    }
    assert inputs[s] in inputs && inputs[l] in inputs;
  }

  // ----- AddBoundaryInputs ---------------------------------------------

  // f starts after key, with older entries of the same user key.
  predicate IsBoundary(f: File, key: InternalKey) {
    Less(key, f.smallest) && f.smallest.user == key.user
  }

  ghost predicate NoBoundary(files: seq<File>, key: InternalKey) {
    forall i :: 0 <= i < |files| ==> !IsBoundary(files[i], key)
  }

  ghost predicate IsSmallestBoundary(files: seq<File>, key: InternalKey, f: File) {
    && f in files && IsBoundary(f, key)
    && forall i :: 0 <= i < |files| && IsBoundary(files[i], key) ==> LessEq(f.smallest, files[i].smallest)
  }

  method FindSmallestBoundaryFile(files: seq<File>, key: InternalKey) returns (r: Option<File>)
    ensures r.None? ==> NoBoundary(files, key)
    ensures r.Some? ==> IsSmallestBoundary(files, key, r.value)
  {
    r := None;
    for i := 0 to |files|
      invariant r.None? ==> forall j :: 0 <= j < i ==> !IsBoundary(files[j], key)
      invariant r.Some? ==> r.value in files && IsBoundary(r.value, key)
      invariant r.Some? ==> forall j :: 0 <= j < i && IsBoundary(files[j], key) ==>
        LessEq(r.value.smallest, files[j].smallest)
    {
      if IsBoundary(files[i], key) {
        if r.None? || Less(files[i].smallest, r.value.smallest) {
          r := Some(files[i]);
        }
      }
    }
  }

  ghost function Beyond(files: seq<File>, key: InternalKey): nat {
    if files == [] then 0 else (if Less(key, files[0].smallest) then 1 else 0) + Beyond(files[1..], key)
  }

  lemma {:induction false} BeyondShrinks(files: seq<File>, k0: InternalKey, k1: InternalKey)
    requires Less(k0, k1)
    ensures Beyond(files, k1) <= Beyond(files, k0)
    ensures forall f :: f in files && Less(k0, f.smallest) && LessEq(f.smallest, k1) ==>
      Beyond(files, k1) < Beyond(files, k0)
  {
    if files != [] { BeyondShrinks(files[1..], k0, k1); }
  }

  // The key after which the i-th boundary file is looked for.
  function ChainKey(start: InternalKey, extra: seq<File>, i: nat): InternalKey
    requires i <= |extra|
  {
    if i == 0 then start else extra[i - 1].largest
  }

  ghost predicate BoundaryChain(files: seq<File>, start: InternalKey, extra: seq<File>) {
    forall i :: 0 <= i < |extra| ==> IsSmallestBoundary(files, ChainKey(start, extra, i), extra[i])
  }

  // Adds, one after the other, the files that hold the next older entries of
  // the largest user key, until there is none.
  method AddBoundaryInputs(levelFiles: seq<File>, compactionFiles: seq<File>)
    returns (r: seq<File>, ghost largest: InternalKey, ghost extra: seq<File>)
    requires ValidFiles(levelFiles) && compactionFiles != []
    ensures exists smallest :: IsRange(compactionFiles, smallest, largest)
    ensures r == compactionFiles + extra && BoundaryChain(levelFiles, largest, extra)
    ensures compactionFiles <= r && forall f :: f in r ==> f in compactionFiles || f in levelFiles
    ensures NoBoundary(levelFiles, ChainKey(largest, extra, |extra|))
  {
    var smallest, largestKey := GetRange(compactionFiles);
    largest, extra := largestKey, [];
    r := compactionFiles;
    var continueSearching := true;
    while continueSearching
      invariant r == compactionFiles + extra && BoundaryChain(levelFiles, largest, extra)
      invariant largestKey == ChainKey(largest, extra, |extra|)
      invariant !continueSearching ==> NoBoundary(levelFiles, largestKey)
      decreases continueSearching, Beyond(levelFiles, largestKey)
    {
      var b := FindSmallestBoundaryFile(levelFiles, largestKey);
      if b.Some? {
        SmallestBeforeLargest(b.value);
        BeyondShrinks(levelFiles, largestKey, b.value.largest);
        ChainGrows(levelFiles, largest, extra, b.value);
        r := r + [b.value];
        extra := extra + [b.value];
        largestKey := b.value.largest;
      } else {
        continueSearching := false;
      }
    }
  }

  lemma ChainGrows(files: seq<File>, start: InternalKey, extra: seq<File>, f: File)
    requires BoundaryChain(files, start, extra)
    requires IsSmallestBoundary(files, ChainKey(start, extra, |extra|), f)
    ensures BoundaryChain(files, start, extra + [f])
  {
    hide IsSmallestBoundary;
    var longer := extra + [f];
    forall i | 0 <= i < |longer| ensures IsSmallestBoundary(files, ChainKey(start, longer, i), longer[i]) {
      assert ChainKey(start, longer, i) == ChainKey(start, extra, i);
    }
  }

  // From a run of consecutive files the chain goes on consecutively.
  lemma {:induction false} ChainFollowsSlice(files: seq<File>, hi: nat, extra: seq<File>, i: nat)
    requires ValidFiles(files) && SortedDisjoint(files)
    requires 0 < hi <= |files| && i < |extra|
    requires BoundaryChain(files, files[hi - 1].largest, extra)
    ensures hi + i < |files| && extra[i] == files[hi + i]
  {
    hide IsSmallestBoundary, SortedDisjoint, ValidFiles;
    if i > 0 { ChainFollowsSlice(files, hi, extra, i - 1); }
    assert ChainKey(files[hi - 1].largest, extra, i) == files[hi + i - 1].largest;
    assert IsSmallestBoundary(files, ChainKey(files[hi - 1].largest, extra, i), extra[i]);
    SmallestBoundaryIsNext(files, hi + i, extra[i]);
  }

  lemma ChainExtendsSlice(files: seq<File>, lo: nat, hi: nat, extra: seq<File>)
    requires ValidFiles(files) && SortedDisjoint(files) && lo < hi <= |files|
    requires BoundaryChain(files, files[hi - 1].largest, extra)
    ensures hi + |extra| <= |files| && files[lo..hi] + extra == files[lo..hi + |extra|]
    ensures ChainKey(files[hi - 1].largest, extra, |extra|) == files[hi + |extra| - 1].largest
  {
    forall i | 0 <= i < |extra| ensures hi + i < |files| && extra[i] == files[hi + i] {
      ChainFollowsSlice(files, hi, extra, i);
    }
    if |extra| > 0 { ChainFollowsSlice(files, hi, extra, |extra| - 1); }
    SliceAppend(files, lo, hi, extra);
  }

  lemma SmallestBoundaryIsNext(files: seq<File>, m: nat, f: File)
    requires ValidFiles(files) && SortedDisjoint(files) && 0 < m <= |files|
    requires IsSmallestBoundary(files, files[m - 1].largest, f)
    ensures m < |files| && files[m] == f
  {
    var key := files[m - 1].largest;
    var j :| 0 <= j < |files| && files[j] == f;
    if j < m {
      SmallestBeforeLargest(files[j]);
      assert j < m - 1 ==> Less(files[j].largest, files[m - 1].smallest);
      SmallestBeforeLargest(files[m - 1]);
      assert false;
    }
    if m < j {
      SmallestBeforeLargest(files[m]);
      assert Less(files[m].largest, files[j].smallest);
      assert Less(key, files[m].smallest);
      assert IsBoundary(files[m], key);
      assert false;
    }
  }

  // No older entry of a user key stays behind a run with no boundary file.
  lemma SliceGoesFirst(files: seq<File>, lo: nat, hi: nat)
    requires ValidFiles(files) && SortedDisjoint(files) && DistinctSequences(LevelContents(files))
    requires lo < hi <= |files| && NoBoundary(files, files[hi - 1].largest)
    ensures OlderGoesFirst(files, files[lo..hi])
  {
    forall f, g, x, y | f in files[lo..hi] && g in files && g !in files[lo..hi] && x in f.entries && y in g.entries
      && x.key.user == y.key.user
      ensures y.key.sequence > x.key.sequence
    {
      var i :| lo <= i < hi && files[i] == f;
      var j :| 0 <= j < |files| && files[j] == g;
      if lo <= j < hi {
        InSlice(files, lo, hi, j);
        assert false;
      } else if j < i {
        EarlierFileIsNewer(files, j, i, y, x);
      } else {
        BeyondSliceIsOtherKey(files, hi, i, j, x, y);
        assert false;
      }
    }
  }

  lemma EarlierFileIsNewer(files: seq<File>, j: nat, i: nat, y: Entry, x: Entry)
    requires ValidFiles(files) && SortedDisjoint(files) && DistinctSequences(LevelContents(files))
    requires j < i < |files| && y in files[j].entries && x in files[i].entries && x.key.user == y.key.user
    ensures y.key.sequence > x.key.sequence
  {
    EntryInRange(files[j], y);
    EntryInRange(files[i], x);
    assert Less(files[j].largest, files[i].smallest);
    assert x in LevelContents(files) && y in LevelContents(files);
  }

  lemma BeyondSliceIsOtherKey(files: seq<File>, hi: nat, i: nat, j: nat, x: Entry, y: Entry)
    requires ValidFiles(files) && SortedDisjoint(files)
    requires i < hi <= j < |files| && NoBoundary(files, files[hi - 1].largest)
    requires x in files[i].entries && y in files[j].entries
    ensures x.key.user != y.key.user
  {
    EntryInRange(files[i], x);
    EntryInRange(files[j], y);
    SortedDisjointIsMonotone(files);
    SmallestBeforeLargest(files[hi - 1]);
    SmallestBeforeLargest(files[hi]);
    assert Less(files[hi - 1].largest, files[hi].smallest);
    assert !IsBoundary(files[hi], files[hi - 1].largest);
    assert files[hi - 1].largest.user < files[hi].smallest.user;
    assert i < hi - 1 ==> files[i].largest.user <= files[hi - 1].smallest.user;
    assert hi < j ==> files[hi].largest.user <= files[j].smallest.user;
  }

  // ----- level 0: closed sets --------------------------------------------

  lemma ClosedSetHasNoBoundary(files: seq<File>, begin: Option<UserKey>, end: Option<UserKey>,
                               smallest: InternalKey, largest: InternalKey)
    requires ValidFiles(files) && ClosedRange(files, begin, end)
    requires IsRange(Overlapping(files, begin, end), smallest, largest)
    ensures NoBoundary(files, largest)
  {
    var inputs := Overlapping(files, begin, end);
    OverlappingMembers(files, begin, end);
    var f :| f in inputs && f.largest == largest;
    var n :| 0 <= n < |files| && files[n] == f;
    SmallestBeforeLargest(f);
    forall i | 0 <= i < |files| ensures !IsBoundary(files[i], largest) {
      SmallestBeforeLargest(files[i]);
      if files[i].smallest.user == largest.user {
        assert Overlaps(files[i], begin, end);
        assert files[i] in inputs;
      }
    }
  }

  lemma ClosedSetGoesFirst(files: seq<File>, begin: Option<UserKey>, end: Option<UserKey>)
    requires ValidFiles(files) && ClosedRange(files, begin, end)
    ensures OlderGoesFirst(files, Overlapping(files, begin, end))
  {
    hide Overlapping, ClosedRange, ValidFile;
    var inputs := Overlapping(files, begin, end);
    OverlappingMembers(files, begin, end);
    forall f, g, x, y | f in inputs && g in files && g !in inputs && x in f.entries && y in g.entries
      ensures x.key.user != y.key.user
    {
      ClosedSetSharesNoKey(files, begin, end, f, g, x, y);
    }
  }

  lemma ClosedSetSharesNoKey(files: seq<File>, begin: Option<UserKey>, end: Option<UserKey>, f: File, g: File, x: Entry,
                             y: Entry)
    requires ValidFiles(files) && ClosedRange(files, begin, end) && f in files && g in files
    requires Overlaps(f, begin, end) && !Overlaps(g, begin, end) && x in f.entries && y in g.entries
    ensures x.key.user != y.key.user
  {
    hide ValidFile;
    var n :| 0 <= n < |files| && files[n] == f;
    var m :| 0 <= m < |files| && files[m] == g;
    assert Overlaps(files[n], begin, end);
    EntryInRange(f, x);
    EntryInRange(g, y);
  }

  // ----- level + 1 ---------------------------------------------------------

  lemma LeftBehindIsSeparated(files: seq<File>, inputs0: seq<File>, smallest: InternalKey, largest: InternalKey,
                              g: File)
    requires ValidFiles(files) && SortedDisjoint(files) && ValidFiles(inputs0)
    requires IsRange(inputs0, smallest, largest)
    requires g in files && g !in Overlapping(files, Some(smallest.user), Some(largest.user))
    ensures Separated(g, inputs0 + Overlapping(files, Some(smallest.user), Some(largest.user)))
    ensures forall f :: f in inputs0 ==> !SameUserRange(f, g)
  {
    var begin, end := Some(smallest.user), Some(largest.user);
    OverlappingMembers(files, begin, end);
    forall f | f in inputs0
      ensures AfterFile(begin, g) ==> Less(g.largest, f.smallest)
      ensures BeforeFile(end, g) ==> Less(f.largest, g.smallest)
      ensures !SameUserRange(f, g)
    {
      OutOfRange(inputs0, smallest, largest, f, g);
    }
    forall f | f in Overlapping(files, begin, end)
      ensures AfterFile(begin, g) ==> Less(g.largest, f.smallest)
      ensures BeforeFile(end, g) ==> Less(f.largest, g.smallest)
    {
      OnOneSide(files, begin, end, f, g);
    }
    hide Overlapping, SortedDisjoint, IsRange, SameUserRange, AfterFile, BeforeFile, Less;
    assert !Overlaps(g, begin, end);
  }

  lemma OutOfRange(inputs0: seq<File>, smallest: InternalKey, largest: InternalKey, f: File, g: File)
    requires ValidFiles(inputs0) && IsRange(inputs0, smallest, largest) && f in inputs0
    requires !Overlaps(g, Some(smallest.user), Some(largest.user))
    ensures AfterFile(Some(smallest.user), g) ==> Less(g.largest, f.smallest)
    ensures BeforeFile(Some(largest.user), g) ==> Less(f.largest, g.smallest)
    ensures !SameUserRange(f, g)
  {
    var n :| 0 <= n < |inputs0| && inputs0[n] == f;
    SmallestBeforeLargest(f);
  }

  lemma OnOneSide(files: seq<File>, begin: Option<UserKey>, end: Option<UserKey>, f: File, g: File)
    requires ValidFiles(files) && SortedDisjoint(files) && f in files && g in files
    requires Overlaps(f, begin, end) && !Overlaps(g, begin, end)
    requires begin.Some? && end.Some?
    ensures AfterFile(begin, g) ==> Less(g.largest, f.smallest)
    ensures BeforeFile(end, g) ==> Less(f.largest, g.smallest)
  {
    var i :| 0 <= i < |files| && files[i] == g;
    var j :| 0 <= j < |files| && files[j] == f;
    SmallestBeforeLargest(g);
    SmallestBeforeLargest(f);
    assert i < j ==> Less(files[i].largest, files[j].smallest);
    assert j < i ==> Less(files[j].largest, files[i].smallest);
    hide ValidFile;
  }

  // ----- the picks -----------------------------------------------------------

  // What PickCompaction and CompactRange start from: on level 0 a set closed
  // under overlap, deeper down a run of consecutive files.
  ghost predicate Chosen(v: Version, level: nat, inputs: seq<File>)
    requires level < NUM_LEVELS
  {
    if level == 0 then
      exists begin, end :: ClosedRange(v[0], begin, end) && inputs == Overlapping(v[0], begin, end)
    else
      exists lo, hi :: 0 <= lo < hi <= |v[level]| && inputs == v[level][lo..hi]
  }

  lemma BoundaryClosesInputs(v: Version, level: nat, inputs: seq<File>, smallest: InternalKey, largest: InternalKey,
                             extra: seq<File>)
    requires level < NUM_LEVELS && WellFormedVersion(v) && inputs != [] && Chosen(v, level, inputs)
    requires IsRange(inputs, smallest, largest) && BoundaryChain(v[level], largest, extra)
    requires NoBoundary(v[level], ChainKey(largest, extra, |extra|))
    ensures OlderGoesFirst(v[level], inputs + extra) && NoDuplicates(inputs + extra)
    ensures forall f :: f in inputs + extra ==> f in v[level]
  {
    hide OlderGoesFirst, IsRange, BoundaryChain, NoBoundary, DistinctSequences, Overlapping, ClosedRange;
    if level == 0 {
      var begin, end :| ClosedRange(v[0], begin, end) && inputs == Overlapping(v[0], begin, end);
      ClosedSetIsComplete(v[0], begin, end, smallest, largest, extra);
      OverlappingHasNoDuplicates(v[0], begin, end);
      assert inputs + extra == inputs;
    } else {
      var lo, hi :| 0 <= lo < hi <= |v[level]| && inputs == v[level][lo..hi];
      SliceIsCompleted(v[level], lo, hi, smallest, largest, extra);
    }
  }

  lemma ClosedSetIsComplete(files: seq<File>, begin: Option<UserKey>, end: Option<UserKey>,
                            smallest: InternalKey, largest: InternalKey, extra: seq<File>)
    requires ValidFiles(files) && ClosedRange(files, begin, end)
    requires IsRange(Overlapping(files, begin, end), smallest, largest) && BoundaryChain(files, largest, extra)
    ensures extra == [] && OlderGoesFirst(files, Overlapping(files, begin, end))
    ensures forall f :: f in Overlapping(files, begin, end) ==> f in files
  {
    ClosedSetHasNoBoundary(files, begin, end, smallest, largest);
    ClosedSetGoesFirst(files, begin, end);
    OverlappingMembers(files, begin, end);
    assert extra == [] by {
      if extra != [] { ChainNeedsBoundary(files, largest, extra); }
    }
  }

  lemma SliceIsCompleted(files: seq<File>, lo: nat, hi: nat, smallest: InternalKey, largest: InternalKey,
                         extra: seq<File>)
    requires ValidFiles(files) && SortedDisjoint(files) && DistinctSequences(LevelContents(files))
    requires lo < hi <= |files| && IsRange(files[lo..hi], smallest, largest) && NoDuplicates(files)
    requires BoundaryChain(files, largest, extra) && NoBoundary(files, ChainKey(largest, extra, |extra|))
    ensures OlderGoesFirst(files, files[lo..hi] + extra) && NoDuplicates(files[lo..hi] + extra)
    ensures forall f :: f in files[lo..hi] + extra ==> f in files
  {
    hide DistinctSequences, OlderGoesFirst, NoBoundary, BoundaryChain, IsRange, SortedDisjoint, ValidFiles;
    hide LevelContents;
    SliceEndsAtLargest(files, lo, hi, smallest, largest);
    ChainExtendsSlice(files, lo, hi, extra);
    SliceGoesFirst(files, lo, hi + |extra|);
    var r := files[lo..hi] + extra;
    assert r == files[lo..hi + |extra|];
  }

  lemma ChainNeedsBoundary(files: seq<File>, largest: InternalKey, extra: seq<File>)
    requires BoundaryChain(files, largest, extra) && extra != []
    ensures !NoBoundary(files, largest)
  {
    assert IsSmallestBoundary(files, ChainKey(largest, extra, 0), extra[0]);
  }

  lemma SliceEndsAtLargest(files: seq<File>, lo: nat, hi: nat, smallest: InternalKey, largest: InternalKey)
    requires ValidFiles(files) && SortedDisjoint(files) && lo < hi <= |files|
    requires IsRange(files[lo..hi], smallest, largest)
    ensures files[hi - 1].largest == largest
  {
    InSlice(files, lo, hi, hi - 1);
    var f :| f in files[lo..hi] && f.largest == largest;
    var i :| lo <= i < hi && files[i] == f;
    LastIsGreatest(files, i, hi);
    LessIsTotalOrder(largest, files[hi - 1].largest, largest);
    hide ValidFiles, SortedDisjoint, Less;
  }

  lemma LastIsGreatest(files: seq<File>, i: nat, hi: nat)
    requires ValidFiles(files) && SortedDisjoint(files) && i < hi <= |files|
    ensures LessEq(files[i].largest, files[hi - 1].largest)
  {
    if i < hi - 1 { LargestAscends(files, i, hi - 1); }
  }

  lemma RangeMakesGoodCompaction(v: Version, c: Compaction, smallest: InternalKey, largest: InternalKey)
    requires WellFormedVersion(v) && c.level + 1 < NUM_LEVELS && c.inputs0 != []
    requires forall f :: f in c.inputs0 ==> f in v[c.level]
    requires OlderGoesFirst(v[c.level], c.inputs0) && NoDuplicates(c.inputs0)
    requires IsRange(c.inputs0, smallest, largest)
    requires c.inputs1 == Overlapping(v[c.level + 1], Some(smallest.user), Some(largest.user))
    ensures GoodCompaction(v, c)
  {
    hide NoDuplicates, OlderGoesFirst, DistinctSequences, Separated, SameUserRange, Overlapping;
    hide SortedDisjoint, IsRange;
    OverlappingMembers(v[c.level + 1], Some(smallest.user), Some(largest.user));
    OverlappingHasNoDuplicates(v[c.level + 1], Some(smallest.user), Some(largest.user));
    assert ValidFiles(c.inputs0) by { MembersAreValid(v[c.level], c.inputs0); }
    forall g | g in v[c.level + 1] && g !in c.inputs1
      ensures Separated(g, c.inputs0 + c.inputs1)
      ensures forall f :: f in c.inputs0 ==> !SameUserRange(f, g)
    {
      LeftBehindIsSeparated(v[c.level + 1], c.inputs0, smallest, largest, g);
    }
  }

  lemma MembersAreValid(files: seq<File>, inputs: seq<File>)
    requires ValidFiles(files) && forall f :: f in inputs ==> f in files
    ensures ValidFiles(inputs)
  {
    forall i | 0 <= i < |inputs| ensures ValidFile(inputs[i]) {
      assert inputs[i] in inputs && inputs[i] in files;
    }
  }

  // The chosen files and the chain of their boundary files, to its end.
  ghost predicate WithBoundary(files: seq<File>, chosen: seq<File>, all: seq<File>) {
    exists s, l, extra ::
      && IsRange(chosen, s, l) && all == chosen + extra && BoundaryChain(files, l, extra)
      && NoBoundary(files, ChainKey(l, extra, |extra|))
  }

  // The inputs that the chosen files need: with their boundary files, what they
  // overlap in the next level, up to the largest key.
  ghost predicate Completed(v: Version, level: nat, chosen: seq<File>, c: Compaction)
    requires level + 1 < NUM_LEVELS
  {
    && c.level == level && WithBoundary(v[level], chosen, c.inputs0)
    && exists smallest ::
         && IsRange(c.inputs0, smallest, c.compactPointer)
         && c.inputs1 == Overlapping(v[level + 1], Some(smallest.user), Some(c.compactPointer.user))
  }

  // Adds the boundary files to the level's inputs and collects what they
  // overlap in the next level.
  method CompleteInputs(v: Version, level: nat, chosen: seq<File>)
    returns (c: Compaction)
    requires WellFormedVersion(v) && level + 1 < NUM_LEVELS
    requires chosen != [] && Chosen(v, level, chosen)
    ensures GoodCompaction(v, c) && Completed(v, level, chosen, c) && c.grandparents == []
    ensures c.level == level && EndsAtPointer(c) && chosen <= c.inputs0
  {
    hide GoodCompaction, Chosen, BoundaryChain, NoBoundary, OlderGoesFirst, IsRange, SortedDisjoint;
    hide DistinctSequences;
    var inputs0, l0, extra := AddBoundaryInputs(v[level], chosen);
    ghost var s0 :| IsRange(chosen, s0, l0);
    BoundaryClosesInputs(v, level, chosen, s0, l0, extra);
    var smallest, largest := GetRange(inputs0);
    var inputs1, _, _ := GetOverlappingInputs(v, level + 1, Some(smallest.user), Some(largest.user));
    c := Compaction(level, inputs0, inputs1, [], largest);
    RangeMakesGoodCompaction(v, c, smallest, largest);
  }

  // The range in which files of a level are looked for: as it is, or on level 0
  // the least closed one around it.
  ghost predicate IsSearched(v: Version, level: nat, begin: Option<UserKey>, end: Option<UserKey>,
                             b: Option<UserKey>, e: Option<UserKey>)
    requires level < NUM_LEVELS
  {
    if level > 0 then b == begin && e == end
    else Widens(begin, end, b, e) && ClosedRange(v[0], b, e) && WithinEveryClosure(v[0], begin, end, b, e)
  }

  // What the inputs of both levels overlap in the level, completed.
  ghost predicate IsWider(v: Version, c: Compaction, wider: Compaction)
    requires c.level + 1 < NUM_LEVELS
  {
    && wider.grandparents == []
    && exists s, l, b, e ::
         && IsRange(c.inputs0 + c.inputs1, s, l) && IsSearched(v, c.level, Some(s.user), Some(l.user), b, e)
         && Completed(v, c.level, Overlapping(v[c.level], b, e), wider)
  }

  // When it is taken: if that adds files, brings in no further file of the next
  // level and stays within the limit.
  ghost predicate Grown(c: Compaction, wider: Compaction, expandedLimit: nat) {
    && |wider.inputs0| > |c.inputs0| && |wider.inputs1| == |c.inputs1|
    && TotalFileSize(c.inputs1) + TotalFileSize(wider.inputs0) < expandedLimit
  }

  // The inputs of a compaction after the attempt to grow them.
  ghost predicate IsGrown(v: Version, c: Compaction, expandedLimit: nat, r: Compaction)
    requires c.level + 1 < NUM_LEVELS
  {
    if c.inputs1 == [] then r == c
    else exists wider :: IsWider(v, c, wider) && r == if Grown(c, wider, expandedLimit) then wider else c
  }

  // What SetupOtherInputs makes of the files chosen: completed, grown, and with the
  // grandparents.
  ghost predicate IsSetUp(v: Version, level: nat, chosen: seq<File>, expandedLimit: nat, c: Compaction)
    requires level + 1 < NUM_LEVELS
  {
    && (exists plain ::
         && Completed(v, level, chosen, plain) && plain.grandparents == []
         && IsGrown(v, plain, expandedLimit, c.(grandparents := [])))
    && c.level == level && if level + 2 < NUM_LEVELS then HasGrandparents(v, c) else c.grandparents == []
  }

  // Completes the inputs of a compaction, growing the level's own inputs when
  // that costs no further file of the next level.
  method SetupOtherInputs(v: Version, level: nat, chosen: seq<File>, expandedLimit: nat)
    returns (c: Compaction)
    requires WellFormedVersion(v) && level + 1 < NUM_LEVELS
    requires chosen != [] && Chosen(v, level, chosen)
    ensures c.level == level && GoodCompaction(v, c) && IsSetUp(v, level, chosen, expandedLimit, c)
    ensures forall f :: f in chosen ==> f in c.inputs0
    ensures EndsAtPointer(c)
  {
    hide Chosen, IsRange, GoodCompaction, WellFormedVersion, Overlapping, WithBoundary, IsGrown, IsSearched, Completed;
    var plain := CompleteInputs(v, level, chosen);
    var grown := GrowInputs(v, plain, expandedLimit);
    InputsExist(v, grown);
    var allStart, allLimit := GetRange(grown.inputs0 + grown.inputs1);
    c := grown;
    if level + 2 < NUM_LEVELS {
      var grandparents, _, _ := GetOverlappingInputs(v, level + 2, Some(allStart.user), Some(allLimit.user));
      c := c.(grandparents := grandparents);
    }
    assert c.(grandparents := []) == grown;
    SameInputs(v, c);
  }

  ghost predicate HasGrandparents(v: Version, c: Compaction)
    requires c.level + 2 < NUM_LEVELS
  {
    exists s, l :: IsRange(c.inputs0 + c.inputs1, s, l) &&
      c.grandparents == Overlapping(v[c.level + 2], Some(s.user), Some(l.user))
  }

  lemma SameInputs(v: Version, c: Compaction)
    requires GoodCompaction(v, c.(grandparents := []))
    ensures GoodCompaction(v, c)
  {
  }

  method GrowInputs(v: Version, c: Compaction, expandedLimit: nat) returns (r: Compaction)
    requires WellFormedVersion(v) && GoodCompaction(v, c) && c.grandparents == []
    requires EndsAtPointer(c)
    ensures GoodCompaction(v, r) && r.level == c.level && r.grandparents == []
    ensures forall f :: f in c.inputs0 ==> f in r.inputs0
    ensures c.level + 1 < NUM_LEVELS && IsGrown(v, c, expandedLimit, r)
    ensures EndsAtPointer(r)
  {
    hide Chosen, IsRange, GoodCompaction, WellFormedVersion, Overlapping, Completed, WithinEveryClosure, ClosedRange;
    hide Widens;
    r := c;
    InputsExist(v, c);
    if c.inputs1 != [] {
      var allStart, allLimit := GetRange(c.inputs0 + c.inputs1);
      var expanded, eb, ee := GetOverlappingInputs(v, c.level, Some(allStart.user), Some(allLimit.user));
      InputsOverlap(v, c, allStart, allLimit, eb, ee);
      assert c.inputs0[0] in expanded;
      OverlappingIsChosen(v, c.level, eb, ee);
      var wider := CompleteInputs(v, c.level, expanded);
      assert IsWider(v, c, wider);
      if |wider.inputs0| > |c.inputs0|
         && TotalFileSize(c.inputs1) + TotalFileSize(wider.inputs0) < expandedLimit
         && |wider.inputs1| == |c.inputs1| {
        assert expanded == wider.inputs0[..|expanded|];
        r := wider;
      }
    }
  }

  lemma InputsExist(v: Version, c: Compaction)
    requires GoodCompaction(v, c)
    ensures c.level + 1 < NUM_LEVELS && c.inputs0 != []
    ensures forall f :: f in c.inputs0 ==> f in v[c.level]
  {
  }

  // The inputs themselves are among the files in their range.
  lemma InputsOverlap(v: Version, c: Compaction, s: InternalKey, l: InternalKey, begin: Option<UserKey>,
                      end: Option<UserKey>)
    requires WellFormedVersion(v) && c.level < NUM_LEVELS && forall f :: f in c.inputs0 ==> f in v[c.level]
    requires IsRange(c.inputs0 + c.inputs1, s, l) && Widens(Some(s.user), Some(l.user), begin, end)
    ensures forall f :: f in c.inputs0 ==> f in Overlapping(v[c.level], begin, end)
  {
    OverlappingMembers(v[c.level], begin, end);
    forall f | f in c.inputs0 ensures f in Overlapping(v[c.level], begin, end) {
      assert f in c.inputs0 + c.inputs1;
      assert ValidFile(f);
      SmallestBeforeLargest(f);
    }
  }

  lemma OverlappingIsChosen(v: Version, level: nat, begin: Option<UserKey>, end: Option<UserKey>)
    requires WellFormedVersion(v) && level < NUM_LEVELS
    requires Overlapping(v[level], begin, end) != []
    requires level == 0 ==> ClosedRange(v[0], begin, end)
    ensures Chosen(v, level, Overlapping(v[level], begin, end))
  {
    if level > 0 {
      SortedDisjointIsMonotone(v[level]);
      var lo, hi := FindOverlapSlice(v[level], begin, end);
      OverlappingIsSlice(v[level], begin, end, lo, hi);
    }
  }

  // What triggers an automatic compaction: a level over its size, or a file
  // that too many seeks have hit.
  datatype Trigger = SizeOf(level: nat) | SeekOf(level: nat, file: File)

  // The file a compaction of the level starts from: the first one after the
  // compaction pointer, wrapping around, or the file hit by too many seeks.
  ghost predicate IsPick(files: seq<File>, trigger: Trigger, compactPointer: Option<InternalKey>, pick: nat) {
    && pick < |files|
    && match trigger
       case SeekOf(_, file) => files[pick] == file
       case SizeOf(_) =>
         if compactPointer.None? then pick == 0
         else
           || (Less(compactPointer.value, files[pick].largest)
               && forall i :: 0 <= i < pick ==> !Less(compactPointer.value, files[i].largest))
           || (pick == 0 && forall i :: 0 <= i < |files| ==> !Less(compactPointer.value, files[i].largest))
  }

  method PickFile(files: seq<File>, trigger: Trigger, compactPointer: Option<InternalKey>) returns (pick: nat)
    requires files != [] && (trigger.SeekOf? ==> trigger.file in files)
    ensures IsPick(files, trigger, compactPointer, pick)
    // The first file that ends after the pointer, or the first of all.
    ensures trigger.SizeOf? ==>
      || (pick < |files| && (compactPointer.None? || Less(compactPointer.value, files[pick].largest)))
      || (compactPointer.Some? && forall i :: 0 <= i < |files| ==> !Less(compactPointer.value, files[i].largest))
    ensures trigger.SizeOf? && pick > 0 ==>
      compactPointer.Some? && forall i :: 0 <= i < pick && i < |files| ==> !Less(compactPointer.value, files[i].largest)
    ensures trigger.SeekOf? ==> pick < |files| && files[pick] == trigger.file
  {
    pick := 0;
    if trigger.SizeOf? {
      while pick < |files| && compactPointer.Some? && !Less(compactPointer.value, files[pick].largest)
        invariant 0 <= pick <= |files|
        invariant compactPointer.Some? ==> forall i :: 0 <= i < pick ==> !Less(compactPointer.value, files[i].largest)
        invariant compactPointer.None? ==> pick == 0
      {
        pick := pick + 1;
      }
      if pick == |files| { pick := 0; }
    } else {
      while files[pick] != trigger.file
        invariant 0 <= pick < |files| && exists i :: pick <= i < |files| && files[i] == trigger.file
        decreases |files| - pick
      {
        pick := pick + 1;
      }
    }
  }

  // What an automatic compaction starts from: the file picked or, on level 0, all
  // that it overlaps there.
  ghost predicate StartsFrom(v: Version, level: nat, f: File, chosen: seq<File>)
    requires level < NUM_LEVELS
  {
    if level > 0 then chosen == [f]
    else exists b, e ::
      IsSearched(v, 0, Some(f.smallest.user), Some(f.largest.user), b, e) && chosen == Overlapping(v[0], b, e)
  }

  // An automatic compaction as the code picks it.
  ghost predicate IsAutomatic(v: Version, trigger: Trigger, compactPointer: Option<InternalKey>, expandedLimit: nat,
                              c: Compaction)
    requires trigger.level + 1 < NUM_LEVELS
  {
    exists pick: nat, chosen ::
      && IsPick(v[trigger.level], trigger, compactPointer, pick)
      && StartsFrom(v, trigger.level, v[trigger.level][pick], chosen)
      && IsSetUp(v, trigger.level, chosen, expandedLimit, c)
  }

  // Picks the inputs of an automatic compaction.  compactPointer is the key at
  // which the last compaction of the level ended.
  method PickCompaction(v: Version, trigger: Trigger, compactPointer: Option<InternalKey>, expandedLimit: nat)
    returns (c: Compaction)
    requires WellFormedVersion(v) && trigger.level + 1 < NUM_LEVELS && v[trigger.level] != []
    requires trigger.SeekOf? ==> trigger.file in v[trigger.level]
    ensures c.level == trigger.level && GoodCompaction(v, c)
    ensures exists pick: nat :: IsPick(v[c.level], trigger, compactPointer, pick) && v[c.level][pick] in c.inputs0
    ensures IsAutomatic(v, trigger, compactPointer, expandedLimit, c)
    ensures EndsAtPointer(c)
  {
    hide GoodCompaction, SortedDisjoint, DistinctSequences, Overlapping, IsRange, IsSetUp, WithinEveryClosure, IsPick;
    var level := trigger.level;
    var pick := PickFile(v[level], trigger, compactPointer);
    var inputs0 := [v[level][pick]];
    if level == 0 {
      var f := v[0][pick];
      SmallestBeforeLargest(f);
      ghost var b, e;
      inputs0, b, e := GetOverlappingInputs(v, 0, Some(f.smallest.user), Some(f.largest.user));
      OverlappingMembers(v[0], b, e);
      assert f in inputs0;
    } else {
      assert inputs0 == v[level][pick..pick + 1];
    }
    assert v[level][pick] in inputs0;
    c := SetupOtherInputs(v, level, inputs0, expandedLimit);
  }

  lemma WiderRangeOverlaps(f: File, b0: Option<UserKey>, e0: Option<UserKey>, b1: Option<UserKey>, e1: Option<UserKey>)
    requires Widens(b0, e0, b1, e1)
    ensures Overlaps(f, b0, e0) ==> Overlaps(f, b1, e1)
  {
  }

  // Cuts the chosen files off after the one that reaches maxFileSize.
  method LimitInputs(v: Version, level: nat, inputs: seq<File>, maxFileSize: nat) returns (r: seq<File>)
    requires 0 < level < NUM_LEVELS && inputs != [] && Chosen(v, level, inputs)
    ensures r != [] && Chosen(v, level, r) && r <= inputs
    ensures r != inputs ==> TotalFileSize(r) >= maxFileSize
    ensures |r| > 1 ==> TotalFileSize(r[..|r| - 1]) < maxFileSize
  {
    var total, i := 0, 0;
    while i < |inputs|
      invariant 0 <= i <= |inputs| && total == TotalFileSize(inputs[..i]) && (total < maxFileSize || i == 0)
    {
      total := total + inputs[i].size;
      TotalOfPrefix(inputs, i);
      if total >= maxFileSize {
        PrefixIsChosen(v, level, inputs, i + 1);
        assert inputs[..i + 1][..i] == inputs[..i];
        return inputs[..i + 1];
      }
      i := i + 1;
    }
    assert inputs[..i] == inputs;
    PrefixTotal(inputs, |inputs| - 1);
    return inputs;
  }

  lemma {:induction false} TotalOfPrefix(files: seq<File>, i: nat)
    requires i < |files|
    ensures TotalFileSize(files[..i + 1]) == TotalFileSize(files[..i]) + files[i].size
  {
    if i > 0 {
      TotalOfPrefix(files[1..], i - 1);
      assert files[..i + 1][1..] == files[1..][..i] && files[..i][1..] == files[1..][..i - 1];
    }
  }

  lemma PrefixTotal(files: seq<File>, i: nat)
    requires i < |files|
    ensures TotalFileSize(files[..i]) <= TotalFileSize(files[..i + 1])
  {
    TotalOfPrefix(files, i);
  }

  lemma PrefixIsChosen(v: Version, level: nat, inputs: seq<File>, n: nat)
    requires 0 < level < NUM_LEVELS && Chosen(v, level, inputs) && 0 < n <= |inputs|
    ensures Chosen(v, level, inputs[..n])
  {
    var lo, hi :| 0 <= lo < hi <= |v[level]| && inputs == v[level][lo..hi];
    assert inputs[..n] == v[level][lo..lo + n];
  }

  // What a manual compaction starts from: on level 0 all that overlaps the range,
  // deeper down no more than about maxFileSize bytes of it.
  ghost predicate IsManualChoice(v: Version, level: nat, begin: Option<UserKey>, end: Option<UserKey>, maxFileSize: nat,
                                 chosen: seq<File>)
    requires level < NUM_LEVELS
  {
    && chosen != []
    && if level == 0 then exists b, e :: IsSearched(v, 0, begin, end, b, e) && chosen == Overlapping(v[0], b, e)
       else
         && chosen <= Overlapping(v[level], begin, end)
         && (chosen != Overlapping(v[level], begin, end) ==> TotalFileSize(chosen) >= maxFileSize)
         && (|chosen| > 1 ==> TotalFileSize(chosen[..|chosen| - 1]) < maxFileSize)
  }

  ghost predicate IsManual(v: Version, level: nat, begin: Option<UserKey>, end: Option<UserKey>, maxFileSize: nat,
                           expandedLimit: nat, c: Compaction)
    requires level + 1 < NUM_LEVELS
  {
    exists chosen ::
      IsManualChoice(v, level, begin, end, maxFileSize, chosen) && IsSetUp(v, level, chosen, expandedLimit, c)
  }

  // Picks the inputs of a manual compaction of [begin,end].
  method CompactRange(v: Version, level: nat, begin: Option<UserKey>, end: Option<UserKey>,
                      maxFileSize: nat, expandedLimit: nat)
    returns (r: Option<Compaction>)
    requires WellFormedVersion(v) && level + 1 < NUM_LEVELS
    ensures r.None? <==> !SomeOverlap(v[level], begin, end)
    ensures r.Some? ==> r.value.level == level && GoodCompaction(v, r.value) && EndsAtPointer(r.value)
    ensures r.Some? ==> IsManual(v, level, begin, end, maxFileSize, expandedLimit, r.value)
    ensures r.Some? && level == 0 ==> forall f :: f in v[0] && Overlaps(f, begin, end) ==> f in r.value.inputs0
  {
    hide GoodCompaction, SortedDisjoint, DistinctSequences, Overlapping, Chosen, IsSetUp, ClosedRange;
    hide WithinEveryClosure, Overlaps;
    var inputs, b, e := GetOverlappingInputs(v, level, begin, end);
    OverlappingMembers(v[level], b, e);
    NothingOverlapsWider(v[level], begin, end, b, e);
    if inputs == [] {
      return None;
    }
    OverlappingIsChosen(v, level, b, e);
    if level > 0 {
      inputs := LimitInputs(v, level, inputs, maxFileSize);
    } else {
      forall f | f in v[0] && Overlaps(f, begin, end) ensures f in inputs {
        WiderRangeOverlaps(f, begin, end, b, e);
      }
    }
    var c := SetupOtherInputs(v, level, inputs, expandedLimit);
    assert IsManualChoice(v, level, begin, end, maxFileSize, inputs);
    return Some(c);
  }

  // The least closed range around one that nothing overlaps is that range.
  lemma NothingOverlapsWider(files: seq<File>, begin: Option<UserKey>, end: Option<UserKey>,
                             b: Option<UserKey>, e: Option<UserKey>)
    requires Widens(begin, end, b, e) && WithinEveryClosure(files, begin, end, b, e)
    ensures Overlapping(files, b, e) == [] <==> !SomeOverlap(files, begin, end)
  {
    OverlappingMembers(files, b, e);
    if Overlapping(files, b, e) == [] {
      forall i | 0 <= i < |files| ensures !Overlaps(files[i], begin, end) {
        WiderRangeOverlaps(files[i], begin, end, b, e);
      }
    } else {
      assert Overlapping(files, b, e)[0] in Overlapping(files, b, e);
      NothingClosesRange(files, begin, end, b, e);
    }
  }

  lemma NothingClosesRange(files: seq<File>, begin: Option<UserKey>, end: Option<UserKey>,
                           b: Option<UserKey>, e: Option<UserKey>)
    requires Widens(begin, end, b, e) && WithinEveryClosure(files, begin, end, b, e)
    ensures !SomeOverlap(files, begin, end) ==> b == begin && e == end
  {
    assert Widens(begin, end, begin, end);
  }
}
