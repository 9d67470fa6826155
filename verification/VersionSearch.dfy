/**
 Searching the files of a version (db/version_set.cc): FindFile, the overlap
 tests, GetOverlappingInputs and PickLevelForMemTableOutput.
 */
module VersionSearch {
  import opened Basics
  import opened InternalKeys
  import opened Reads
  import opened Tables

  const MAX_MEM_COMPACT_LEVEL := 2

  // Binary search for the first file whose largest key is not below key.
  method FindFile(files: seq<File>, key: InternalKey) returns (right: nat)
    requires ValidFiles(files) && SortedDisjoint(files)
    ensures right <= |files|
    ensures forall i :: 0 <= i < right ==> Less(files[i].largest, key)
    ensures forall i :: right <= i < |files| ==> !Less(files[i].largest, key)
  {
    var left := 0;
    right := |files|;
    while left < right
      invariant left <= right <= |files|
      invariant forall i :: 0 <= i < left ==> Less(files[i].largest, key)
      invariant forall i :: right <= i < |files| ==> !Less(files[i].largest, key)
    {
      var mid := (left + right) / 2;
      if Less(files[mid].largest, key) {
        forall i | 0 <= i < mid ensures Less(files[i].largest, key) {
          LargestAscends(files, i, mid);
        }
        left := mid + 1;
      } else {
        forall i | mid < i < |files| ensures !Less(files[i].largest, key) {
          LargestAscends(files, mid, i);
        }
        right := mid;
      }
    }
  }

  lemma LargestAscends(files: seq<File>, i: nat, j: nat)
    requires ValidFiles(files) && SortedDisjoint(files) && i < j < |files|
    ensures Less(files[i].largest, files[j].largest)
  {
    SmallestBeforeLargest(files[j]);
    assert Less(files[i].largest, files[j].smallest);
  }

  // The linear branch (level 0) and the binary-search branch (deeper levels)
  // decide the same question.
  method SomeFileOverlapsRange(disjointSortedFiles: bool, files: seq<File>,
                               smallestUserKey: Option<UserKey>, largestUserKey: Option<UserKey>)
    returns (overlap: bool)
    requires ValidFiles(files)
    requires disjointSortedFiles ==> SortedDisjoint(files)
    ensures overlap == SomeOverlap(files, smallestUserKey, largestUserKey)
  {
    if !disjointSortedFiles {
      for i := 0 to |files|
        invariant forall j :: 0 <= j < i ==> !Overlaps(files[j], smallestUserKey, largestUserKey)
      {
        if AfterFile(smallestUserKey, files[i]) || BeforeFile(largestUserKey, files[i]) {
          // No overlap
        } else {
          return true;
        }
      }
      return false;
    }

    var index := 0;
    if smallestUserKey.Some? {
      // The earliest internal key of smallestUserKey
      index := FindFile(files, InternalKey(smallestUserKey.value, MAX_SEQUENCE, TypeValue));
    }
    assert forall i :: 0 <= i < |files| ==> (AfterFile(smallestUserKey, files[i]) <==> i < index);
    if index >= |files| {
      return false;
    }
    if BeforeFile(largestUserKey, files[index]) {
      forall i | index <= i < |files| ensures BeforeFile(largestUserKey, files[i]) {
        SmallestAscends(files, index, i);
      }
    } else {
      assert Overlaps(files[index], smallestUserKey, largestUserKey);
    }
    return !BeforeFile(largestUserKey, files[index]);
  }

  lemma SmallestAscends(files: seq<File>, i: nat, j: nat)
    requires ValidFiles(files) && SortedDisjoint(files) && i <= j < |files|
    ensures LessEq(files[i].smallest, files[j].smallest)
  {
    SmallestBeforeLargest(files[i]);
    assert i < j ==> Less(files[i].largest, files[j].smallest);
  }

  method OverlapInLevel(v: Version, level: nat, smallestUserKey: Option<UserKey>, largestUserKey: Option<UserKey>)
    returns (overlap: bool)
    requires level < NUM_LEVELS && ValidFiles(v[level])
    requires level > 0 ==> SortedDisjoint(v[level])
    ensures overlap == SomeOverlap(v[level], smallestUserKey, largestUserKey)
  {
    overlap := SomeFileOverlapsRange(level > 0, v[level], smallestUserKey, largestUserKey);
  }

  // Where a flushed memtable may go: no file of a shallower level, nor of the
  // level itself, overlaps its user keys unless the level is 0.
  ghost predicate Placeable(v: Version, level: nat, lo: UserKey, hi: UserKey) {
    level < NUM_LEVELS && (level > 0 ==> forall l :: 0 <= l <= level ==> !SomeOverlap(v[l], Some(lo), Some(hi)))
  }

  // The deepest level up to 2 that can be reached one level at a time: nothing
  // overlaps down to it, and the grandparents on the way are small enough.
  ghost predicate IsOutputLevel(v: Version, level: nat, lo: UserKey, hi: UserKey, maxGrandParentOverlap: nat) {
    && level <= MAX_MEM_COMPACT_LEVEL && Placeable(v, level, lo, hi)
    && (level >= 1 ==> TotalFileSize(Overlapping(v[2], Some(lo), Some(hi))) <= maxGrandParentOverlap)
    && (level == 2 ==> TotalFileSize(Overlapping(v[3], Some(lo), Some(hi))) <= maxGrandParentOverlap)
    && (level < MAX_MEM_COMPACT_LEVEL ==>
         || (level == 0 && SomeOverlap(v[0], Some(lo), Some(hi)))
         || SomeOverlap(v[level + 1], Some(lo), Some(hi))
         || TotalFileSize(Overlapping(v[level + 2], Some(lo), Some(hi))) > maxGrandParentOverlap)
  }

  lemma OutputLevelIsUnique(v: Version, a: nat, b: nat, lo: UserKey, hi: UserKey, maxGrandParentOverlap: nat)
    requires IsOutputLevel(v, a, lo, hi, maxGrandParentOverlap) && IsOutputLevel(v, b, lo, hi, maxGrandParentOverlap)
    ensures a == b
  {
    hide SomeOverlap, Overlapping, TotalFileSize;
  }

  method PickLevelForMemTableOutput(v: Version, lo: UserKey, hi: UserKey, maxGrandParentOverlap: nat)
    returns (level: nat)
    requires forall l :: 0 <= l < NUM_LEVELS ==> ValidFiles(v[l]) && (l > 0 ==> SortedDisjoint(v[l]))
    ensures IsOutputLevel(v, level, lo, hi, maxGrandParentOverlap)
  {
    hide Overlapping, TotalFileSize, SomeOverlap, ValidFiles, SortedDisjoint;
    level := 0;
    var overlap := OverlapInLevel(v, 0, Some(lo), Some(hi));
    if !overlap {
      while level < MAX_MEM_COMPACT_LEVEL
        invariant level <= MAX_MEM_COMPACT_LEVEL
        invariant forall l :: 0 <= l <= level ==> !SomeOverlap(v[l], Some(lo), Some(hi))
        invariant level >= 1 ==> TotalFileSize(Overlapping(v[2], Some(lo), Some(hi))) <= maxGrandParentOverlap
        invariant level == 2 ==> TotalFileSize(Overlapping(v[3], Some(lo), Some(hi))) <= maxGrandParentOverlap
      {
        overlap := OverlapInLevel(v, level + 1, Some(lo), Some(hi));
        if overlap { break; }
        var overlaps, _, _ := GetOverlappingInputs(v, level + 2, Some(lo), Some(hi));
        if TotalFileSize(overlaps) > maxGrandParentOverlap { break; }
        level := level + 1;
      }
    }
  }

  // Every file that overlaps the range lies inside it.
  ghost predicate ClosedRange(files: seq<File>, begin: Option<UserKey>, end: Option<UserKey>) {
    forall i :: 0 <= i < |files| && Overlaps(files[i], begin, end) ==> Covers(begin, end, files[i])
  }

  predicate Covers(begin: Option<UserKey>, end: Option<UserKey>, f: File) {
    (begin.Some? ==> begin.value <= f.smallest.user) && (end.Some? ==> f.largest.user <= end.value)
  }

  // The range [b1,e1] contains the range [b0,e0].
  predicate Widens(b0: Option<UserKey>, e0: Option<UserKey>, b1: Option<UserKey>, e1: Option<UserKey>) {
    && b0.Some? == b1.Some? && (b0.Some? ==> b1.value <= b0.value)
    && e0.Some? == e1.Some? && (e0.Some? ==> e0.value <= e1.value)
  }

  // The number of files that reach out of the range: what a restart decreases.
  ghost function Outside(files: seq<File>, begin: Option<UserKey>, end: Option<UserKey>): nat {
    if files == [] then 0
    else (if begin.Some? && files[0].smallest.user < begin.value then 1 else 0)
         + (if end.Some? && files[0].largest.user > end.value then 1 else 0)
         + Outside(files[1..], begin, end)
  }

  lemma {:induction false} OutsideShrinks(files: seq<File>, b0: Option<UserKey>, e0: Option<UserKey>,
                                          b1: Option<UserKey>, e1: Option<UserKey>, i: nat)
    requires Widens(b0, e0, b1, e1)
    ensures Outside(files, b1, e1) <= Outside(files, b0, e0)
    ensures i < |files| && b0.Some? && files[i].smallest.user < b0.value && b1.value == files[i].smallest.user
            ==> Outside(files, b1, e1) < Outside(files, b0, e0)
    ensures i < |files| && e0.Some? && files[i].largest.user > e0.value && e1.value == files[i].largest.user
            ==> Outside(files, b1, e1) < Outside(files, b0, e0)
  {
    if files != [] {
      OutsideShrinks(files[1..], b0, e0, b1, e1, if i == 0 then |files| else i - 1);
    }
  }

  // Every closed range around [b0,e0] contains [b1,e1].
  ghost predicate WithinEveryClosure(files: seq<File>, b0: Option<UserKey>, e0: Option<UserKey>,
                                     b1: Option<UserKey>, e1: Option<UserKey>) {
    forall b, e :: Widens(b0, e0, b, e) && ClosedRange(files, b, e) ==> Widens(b1, e1, b, e)
  }

  lemma GrownRangeStaysWithin(files: seq<File>, i: nat, b0: Option<UserKey>, e0: Option<UserKey>,
                              b1: Option<UserKey>, e1: Option<UserKey>)
    requires i < |files| && Overlaps(files[i], b1, e1) && WithinEveryClosure(files, b0, e0, b1, e1)
    ensures b1.Some? ==> WithinEveryClosure(files, b0, e0, Some(files[i].smallest.user), e1)
    ensures e1.Some? ==> WithinEveryClosure(files, b0, e0, b1, Some(files[i].largest.user))
  {
    forall b, e | Widens(b0, e0, b, e) && ClosedRange(files, b, e)
      ensures b1.Some? ==> b.value <= files[i].smallest.user
      ensures e1.Some? ==> files[i].largest.user <= e.value
    {
      assert Widens(b1, e1, b, e);
      assert Overlaps(files[i], b, e);
    }
  }

  lemma NoFilesOverlap(files: seq<File>)
    ensures forall b, e :: Overlapping(files[..0], b, e) == [] && ClosedRange(files[..0], b, e)
    ensures files[..|files|] == files
  {
  }

  // One more file of a scan.
  lemma PrefixOverlap(files: seq<File>, i: nat, begin: Option<UserKey>, end: Option<UserKey>)
    requires i < |files|
    ensures Overlapping(files[..i + 1], begin, end)
      == Overlapping(files[..i], begin, end) + if Overlaps(files[i], begin, end) then [files[i]] else []
    ensures ClosedRange(files[..i], begin, end) && (Overlaps(files[i], begin, end) ==> Covers(begin, end, files[i]))
      ==> ClosedRange(files[..i + 1], begin, end)
  {
    assert files[..i + 1][..i] == files[..i];
    hide Overlapping;
    if ClosedRange(files[..i], begin, end) && (Overlaps(files[i], begin, end) ==> Covers(begin, end, files[i])) {
      forall j | 0 <= j < i && Overlaps(files[j], begin, end) ensures Covers(begin, end, files[j]) {
        assert files[..i][j] == files[j];
      }
    }
  }

  lemma StartsWithin(files: seq<File>, begin: Option<UserKey>, end: Option<UserKey>)
    ensures WithinEveryClosure(files, begin, end, begin, end)
  {
  }

  // Store in inputs the files of a level that overlap [begin,end].  On level 0,
  // whose files may overlap each other, the range grows to the least range
  // that is closed under overlap, restarting the scan whenever it grows.
  method GetOverlappingInputs(v: Version, level: nat, begin: Option<UserKey>, end: Option<UserKey>)
    returns (inputs: seq<File>, userBegin: Option<UserKey>, userEnd: Option<UserKey>)
    requires level < NUM_LEVELS
    ensures Widens(begin, end, userBegin, userEnd)
    ensures inputs == Overlapping(v[level], userBegin, userEnd)
    ensures level > 0 ==> userBegin == begin && userEnd == end
    ensures level == 0 ==> ClosedRange(v[0], userBegin, userEnd)
    ensures WithinEveryClosure(v[level], begin, end, userBegin, userEnd)
  {
    hide WithinEveryClosure, Outside, Overlapping, ClosedRange;
    var files := v[level];
    inputs, userBegin, userEnd := [], begin, end;
    StartsWithin(files, begin, end);
    NoFilesOverlap(files);
    var i := 0;
    while i < |files|
      invariant 0 <= i <= |files|
      invariant Widens(begin, end, userBegin, userEnd)
      invariant level > 0 ==> userBegin == begin && userEnd == end
      invariant inputs == Overlapping(files[..i], userBegin, userEnd)
      invariant level == 0 ==> ClosedRange(files[..i], userBegin, userEnd)
      invariant WithinEveryClosure(files, begin, end, userBegin, userEnd)
      decreases Outside(files, userBegin, userEnd), |files| - i
    {
      var f := files[i];
      var i0 := i;
      PrefixOverlap(files, i0, userBegin, userEnd);
      i := i + 1;
      if userBegin.Some? && f.largest.user < userBegin.value {
        // f is completely before the range
      } else if userEnd.Some? && f.smallest.user > userEnd.value {
        // f is completely after the range
      } else {
        inputs := inputs + [f];
        if level == 0 {
          GrownRangeStaysWithin(files, i0, begin, end, userBegin, userEnd);
          if userBegin.Some? && f.smallest.user < userBegin.value {
            OutsideShrinks(files, userBegin, userEnd, Some(f.smallest.user), userEnd, i0);
            userBegin := Some(f.smallest.user);
            inputs := [];
            i := 0;
          } else if userEnd.Some? && f.largest.user > userEnd.value {
            OutsideShrinks(files, userBegin, userEnd, userBegin, Some(f.largest.user), i0);
            userEnd := Some(f.largest.user);
            inputs := [];
            i := 0;
          }
        }
      }
    }
    assert files[..|files|] == files;
  }
}
