/**
 The inputs of a compaction are determined by the version and the files it starts
 from (SetupOtherInputs in db/version_set.cc): there is one way to complete them,
 one to grow them, and one outcome.
 */
module CompactionChoice {
  import opened Basics
  import opened InternalKeys
  import opened Reads
  import opened Tables
  import opened VersionSearch
  import opened CompactionPicking

  lemma RangeIsUnique(inputs: seq<File>, s1: InternalKey, l1: InternalKey, s2: InternalKey, l2: InternalKey)
    requires IsRange(inputs, s1, l1) && IsRange(inputs, s2, l2)
    ensures s1 == s2 && l1 == l2
  {
    assert LessEq(s1, s2) && LessEq(s2, s1) && LessEq(l1, l2) && LessEq(l2, l1);
    LessIsTotalOrder(s1, s2, s1);
    LessIsTotalOrder(l1, l2, l1);
  }

  lemma SearchedIsUnique(v: Version, level: nat, begin: Option<UserKey>, end: Option<UserKey>,
                         b1: Option<UserKey>, e1: Option<UserKey>, b2: Option<UserKey>, e2: Option<UserKey>)
    requires level < NUM_LEVELS
    requires IsSearched(v, level, begin, end, b1, e1) && IsSearched(v, level, begin, end, b2, e2)
    ensures b1 == b2 && e1 == e2
  {
    hide ClosedRange;
    if level == 0 { assert Widens(b1, e1, b2, e2) && Widens(b2, e2, b1, e1); }
  }

  // On a sorted level the chain of boundary files ends at one file.
  lemma ChainIsNotShorter(files: seq<File>, lo: nat, hi: nat, short: seq<File>, long: seq<File>)
    requires ValidFiles(files) && SortedDisjoint(files) && lo < hi <= |files|
    requires BoundaryChain(files, files[hi - 1].largest, short) && BoundaryChain(files, files[hi - 1].largest, long)
    requires NoBoundary(files, ChainKey(files[hi - 1].largest, short, |short|))
    ensures |short| >= |long|
  {
    hide ValidFiles, SortedDisjoint, NoBoundary, BoundaryChain, ChainKey;
    ChainExtendsSlice(files, lo, hi, short);
    if |short| < |long| {
      NextIsBoundary(files, hi, long, |short|);
    }
  }

  lemma NextIsBoundary(files: seq<File>, hi: nat, extra: seq<File>, n: nat)
    requires ValidFiles(files) && SortedDisjoint(files) && 0 < hi <= |files| && n < |extra|
    requires BoundaryChain(files, files[hi - 1].largest, extra)
    ensures hi + n <= |files| && !NoBoundary(files, files[hi + n - 1].largest)
  {
    hide ValidFiles, SortedDisjoint, NoBoundary, IsSmallestBoundary;
    var start := files[hi - 1].largest;
    assert IsSmallestBoundary(files, ChainKey(start, extra, n), extra[n]);
    SmallestIsBoundary(files, ChainKey(start, extra, n), extra[n]);
    hide BoundaryChain;
    if n > 0 { ChainFollowsSlice(files, hi, extra, n - 1); }
  }

  lemma SmallestIsBoundary(files: seq<File>, key: InternalKey, f: File)
    requires IsSmallestBoundary(files, key, f)
    ensures !NoBoundary(files, key)
  {
  }

  lemma BoundaryIsUnique(v: Version, level: nat, chosen: seq<File>, a: seq<File>, b: seq<File>)
    requires WellFormedVersion(v) && level < NUM_LEVELS && chosen != [] && Chosen(v, level, chosen)
    requires WithBoundary(v[level], chosen, a) && WithBoundary(v[level], chosen, b)
    ensures a == b
  {
    hide IsRange, BoundaryChain, NoBoundary, SortedDisjoint, DistinctSequences, Overlapping, ClosedRange;
    var files := v[level];
    var s1, l1, x :| IsRange(chosen, s1, l1) && a == chosen + x && BoundaryChain(files, l1, x) &&
      NoBoundary(files, ChainKey(l1, x, |x|));
    var s2, l2, y :| IsRange(chosen, s2, l2) && b == chosen + y && BoundaryChain(files, l2, y) &&
      NoBoundary(files, ChainKey(l2, y, |y|));
    RangeIsUnique(chosen, s1, l1, s2, l2);
    if level == 0 {
      var begin, end :| ClosedRange(v[0], begin, end) && chosen == Overlapping(v[0], begin, end);
      ClosedSetIsComplete(v[0], begin, end, s1, l1, x);
      ClosedSetIsComplete(v[0], begin, end, s2, l2, y);
    } else {
      var lo, hi :| 0 <= lo < hi <= |files| && chosen == files[lo..hi];
      SliceEndsAtLargest(files, lo, hi, s1, l1);
      SliceChainIsUnique(files, lo, hi, x, y);
    }
  }

  lemma SliceChainIsUnique(files: seq<File>, lo: nat, hi: nat, x: seq<File>, y: seq<File>)
    requires ValidFiles(files) && SortedDisjoint(files) && lo < hi <= |files|
    requires BoundaryChain(files, files[hi - 1].largest, x) && BoundaryChain(files, files[hi - 1].largest, y)
    requires NoBoundary(files, ChainKey(files[hi - 1].largest, x, |x|))
    requires NoBoundary(files, ChainKey(files[hi - 1].largest, y, |y|))
    ensures x == y
  {
    hide ValidFiles, SortedDisjoint, NoBoundary, BoundaryChain, ChainKey;
    ChainIsNotShorter(files, lo, hi, x, y);
    ChainIsNotShorter(files, lo, hi, y, x);
    forall i | 0 <= i < |x| ensures x[i] == y[i] {
      ChainFollowsSlice(files, hi, x, i);
      ChainFollowsSlice(files, hi, y, i);
    }
  }

  lemma CompletedIsUnique(v: Version, level: nat, chosen: seq<File>, c: Compaction, d: Compaction)
    requires WellFormedVersion(v) && level + 1 < NUM_LEVELS && chosen != [] && Chosen(v, level, chosen)
    requires Completed(v, level, chosen, c) && Completed(v, level, chosen, d)
    ensures c.(grandparents := []) == d.(grandparents := [])
  {
    hide WellFormedVersion, Chosen, WithBoundary, IsRange, Overlapping;
    BoundaryIsUnique(v, level, chosen, c.inputs0, d.inputs0);
    var s1 :| IsRange(c.inputs0, s1, c.compactPointer) &&
      c.inputs1 == Overlapping(v[level + 1], Some(s1.user), Some(c.compactPointer.user));
    var s2 :| IsRange(d.inputs0, s2, d.compactPointer) &&
      d.inputs1 == Overlapping(v[level + 1], Some(s2.user), Some(d.compactPointer.user));
    RangeIsUnique(c.inputs0, s1, c.compactPointer, s2, d.compactPointer);
  }

  lemma WiderIsUnique(v: Version, c: Compaction, w1: Compaction, w2: Compaction)
    requires WellFormedVersion(v) && GoodCompaction(v, c) && IsWider(v, c, w1) && IsWider(v, c, w2)
    ensures w1 == w2
  {
    hide WellFormedVersion, GoodCompaction, IsRange, Overlapping, Completed, IsSearched;
    InputsExist(v, c);
    var s1, l1, b1, e1 :| IsRange(c.inputs0 + c.inputs1, s1, l1) &&
      IsSearched(v, c.level, Some(s1.user), Some(l1.user), b1, e1) &&
      Completed(v, c.level, Overlapping(v[c.level], b1, e1), w1);
    var s2, l2, b2, e2 :| IsRange(c.inputs0 + c.inputs1, s2, l2) &&
      IsSearched(v, c.level, Some(s2.user), Some(l2.user), b2, e2) &&
      Completed(v, c.level, Overlapping(v[c.level], b2, e2), w2);
    RangeIsUnique(c.inputs0 + c.inputs1, s1, l1, s2, l2);
    SearchedIsUnique(v, c.level, Some(s1.user), Some(l1.user), b1, e1, b2, e2);
    SearchedIsChosen(v, c, s1, l1, b1, e1);
    CompletedIsUnique(v, c.level, Overlapping(v[c.level], b1, e1), w1, w2);
    assert w1.(grandparents := []) == w1 && w2.(grandparents := []) == w2;
  }

  lemma SearchedIsChosen(v: Version, c: Compaction, s: InternalKey, l: InternalKey, b: Option<UserKey>,
                         e: Option<UserKey>)
    requires WellFormedVersion(v) && c.level + 1 < NUM_LEVELS && c.inputs0 != []
    requires forall f :: f in c.inputs0 ==> f in v[c.level]
    requires IsRange(c.inputs0 + c.inputs1, s, l) && IsSearched(v, c.level, Some(s.user), Some(l.user), b, e)
    ensures Overlapping(v[c.level], b, e) != [] && Chosen(v, c.level, Overlapping(v[c.level], b, e))
  {
    hide WellFormedVersion, IsRange, Overlapping, WithinEveryClosure, ClosedRange;
    InputsOverlap(v, c, s, l, b, e);
    assert c.inputs0[0] in Overlapping(v[c.level], b, e);
    OverlappingIsChosen(v, c.level, b, e);
  }

  // Growing is not a choice: when what the inputs of both levels overlap brings more
  // files of the level, none of the next and is within the limit, it is taken, and
  // otherwise the inputs stay as they are.
  lemma GrowthIsTaken(v: Version, c: Compaction, wider: Compaction, expandedLimit: nat, r: Compaction)
    requires WellFormedVersion(v) && GoodCompaction(v, c) && c.inputs1 != [] && IsWider(v, c, wider)
    requires IsGrown(v, c, expandedLimit, r)
    ensures
      if |wider.inputs0| > |c.inputs0| && |wider.inputs1| == |c.inputs1|
         && TotalFileSize(c.inputs1) + TotalFileSize(wider.inputs0) < expandedLimit
      then r == wider else r == c
  {
    GrownTakes(v, c, wider, expandedLimit, r);
    GrownIs(c, wider, expandedLimit);
    hide *;
  }

  lemma GrownTakes(v: Version, c: Compaction, wider: Compaction, expandedLimit: nat, r: Compaction)
    requires WellFormedVersion(v) && GoodCompaction(v, c) && c.inputs1 != [] && IsWider(v, c, wider)
    requires IsGrown(v, c, expandedLimit, r)
    ensures r == if Grown(c, wider, expandedLimit) then wider else c
  {
    InputsExist(v, c);
    hide WellFormedVersion, GoodCompaction, IsWider, Grown;
    var w :| IsWider(v, c, w) && r == if Grown(c, w, expandedLimit) then w else c;
    WiderIsUnique(v, c, w, wider);
  }

  lemma GrownIs(c: Compaction, wider: Compaction, expandedLimit: nat)
    ensures Grown(c, wider, expandedLimit) <==>
      && |wider.inputs0| > |c.inputs0| && |wider.inputs1| == |c.inputs1|
      && TotalFileSize(c.inputs1) + TotalFileSize(wider.inputs0) < expandedLimit
  {
  }
}
