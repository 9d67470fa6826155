/**
 Table files and versions: what FileMetaData and Version::files_ stand for
 (db/version_edit.h, db/version_set.h), with the entries a table holds.
 */
module Tables {
  import opened Basics
  import opened InternalKeys
  import opened Reads

  const NUM_LEVELS := 7

  // The metadata records the key range; the entries are the table's contents.
  datatype File = File(number: nat, size: nat, smallest: InternalKey, largest: InternalKey, entries: seq<Entry>)

  predicate ValidFile(f: File) {
    && |f.entries| > 0
    && Sorted(f.entries)
    && f.smallest == f.entries[0].key
    && f.largest == f.entries[|f.entries| - 1].key
  }

  predicate ValidFiles(files: seq<File>) {
    forall i :: 0 <= i < |files| ==> ValidFile(files[i])
  }

  type Version = v: seq<seq<File>> | |v| == NUM_LEVELS witness [[], [], [], [], [], [], []]

  predicate LessEq(a: InternalKey, b: InternalKey) { !Less(b, a) }

  ghost function LevelContents(files: seq<File>): set<Entry> {
    set f, e | f in files && e in f.entries :: e
  }

  // The entries of level l and of the levels below it.
  ghost function FromLevel(v: Version, l: nat): set<Entry>
    decreases NUM_LEVELS - l
  {
    if l >= NUM_LEVELS then {} else LevelContents(v[l]) + FromLevel(v, l + 1)
  }

  ghost function VersionContents(v: Version): set<Entry> {
    FromLevel(v, 0)
  }

  lemma {:induction false} FromLevelMembers(v: Version, l: nat, e: Entry)
    ensures e in FromLevel(v, l) <==> exists m :: l <= m < NUM_LEVELS && e in LevelContents(v[m])
    decreases NUM_LEVELS - l
  {
    if l < NUM_LEVELS { FromLevelMembers(v, l + 1, e); }
  }

  // Levels above 0: sorted by key and pairwise disjoint.
  predicate SortedDisjoint(files: seq<File>) {
    forall i, j :: 0 <= i < j < |files| ==> Less(files[i].largest, files[j].smallest)
  }

  lemma EntryInRange(f: File, e: Entry)
    requires ValidFile(f) && e in f.entries
    ensures LessEq(f.smallest, e.key) && LessEq(e.key, f.largest)
    ensures f.smallest.user <= e.key.user <= f.largest.user
  {
    var i :| 0 <= i < |f.entries| && f.entries[i] == e;
    assert i > 0 ==> Less(f.entries[0].key, f.entries[i].key);
    assert i < |f.entries| - 1 ==> Less(f.entries[i].key, f.entries[|f.entries| - 1].key);
  }

  lemma SmallestBeforeLargest(f: File)
    requires ValidFile(f)
    ensures LessEq(f.smallest, f.largest) && f.smallest.user <= f.largest.user
  {
    EntryInRange(f, f.entries[0]);
  }

  function TotalFileSize(files: seq<File>): nat {
    if files == [] then 0 else files[0].size + TotalFileSize(files[1..])
  }

  predicate NoDuplicates<T(==)>(s: seq<T>) {
    forall i, j :: 0 <= i < j < |s| ==> s[i] != s[j]
  }

  // Overlap of a file with a user-key range; None is an open end.
  predicate AfterFile(k: Option<UserKey>, f: File) {
    k.Some? && k.value > f.largest.user
  }

  predicate BeforeFile(k: Option<UserKey>, f: File) {
    k.Some? && k.value < f.smallest.user
  }

  predicate Overlaps(f: File, begin: Option<UserKey>, end: Option<UserKey>) {
    !AfterFile(begin, f) && !BeforeFile(end, f)
  }

  predicate SomeOverlap(files: seq<File>, begin: Option<UserKey>, end: Option<UserKey>) {
    exists i :: 0 <= i < |files| && Overlaps(files[i], begin, end)
  }

  // The files that overlap a range, in their order.
  function Overlapping(files: seq<File>, begin: Option<UserKey>, end: Option<UserKey>): seq<File> {
    if files == [] then []
    else
      var last := files[|files| - 1];
      Overlapping(files[..|files| - 1], begin, end) + if Overlaps(last, begin, end) then [last] else []
  }

  // On a sorted disjoint level the user-key bounds never decrease.
  ghost predicate UserMonotone(files: seq<File>) {
    forall i, j :: 0 <= i < j < |files| ==> files[i].largest.user <= files[j].smallest.user
  }

  lemma SortedDisjointIsMonotone(files: seq<File>)
    requires SortedDisjoint(files)
    ensures UserMonotone(files)
  {
    forall i, j | 0 <= i < j < |files| ensures files[i].largest.user <= files[j].smallest.user {
      assert Less(files[i].largest, files[j].smallest);
    }
  }

  lemma InSlice<T>(s: seq<T>, lo: nat, hi: nat, i: nat)
    requires lo <= i < hi <= |s|
    ensures s[i] in s[lo..hi]
  {
    assert s[lo..hi][i - lo] == s[i];
  }

  lemma SliceAppend<T>(s: seq<T>, lo: nat, hi: nat, extra: seq<T>)
    requires lo <= hi && hi + |extra| <= |s|
    requires forall i :: 0 <= i < |extra| ==> extra[i] == s[hi + i]
    ensures s[lo..hi] + extra == s[lo..hi + |extra|]
  {
  }

  lemma {:induction false} OverlappingConcat(a: seq<File>, b: seq<File>, begin: Option<UserKey>, end: Option<UserKey>)
    ensures Overlapping(a + b, begin, end) == Overlapping(a, begin, end) + Overlapping(b, begin, end)
  {
    if b == [] {
      assert a + b == a;
    } else {
      var n := |b| - 1;
      OverlappingConcat(a, b[..n], begin, end);
      assert (a + b)[..|a + b| - 1] == a + b[..n];
    }
  }

  lemma {:induction false} OverlappingAll(files: seq<File>, begin: Option<UserKey>, end: Option<UserKey>)
    requires forall f :: f in files ==> Overlaps(f, begin, end)
    ensures Overlapping(files, begin, end) == files
  {
    if files != [] {
      var n := |files| - 1;
      OverlappingAll(files[..n], begin, end);
      assert files == files[..n] + [files[n]];
    }
  }

  lemma {:induction false} OverlappingNone(files: seq<File>, begin: Option<UserKey>, end: Option<UserKey>)
    requires forall f :: f in files ==> !Overlaps(f, begin, end)
    ensures Overlapping(files, begin, end) == []
  {
    if files != [] {
      OverlappingNone(files[..|files| - 1], begin, end);
    }
  }

  lemma {:induction false} OverlappingMembers(files: seq<File>, begin: Option<UserKey>, end: Option<UserKey>)
    ensures forall f :: f in Overlapping(files, begin, end) <==> f in files && Overlaps(f, begin, end)
    ensures |Overlapping(files, begin, end)| <= |files|
  {
    if files != [] {
      var n := |files| - 1;
      OverlappingMembers(files[..n], begin, end);
      assert files == files[..n] + [files[n]];
    }
  }

  lemma {:induction false} OverlappingHasNoDuplicates(files: seq<File>, begin: Option<UserKey>, end: Option<UserKey>)
    requires NoDuplicates(files)
    ensures NoDuplicates(Overlapping(files, begin, end))
  {
    if files != [] {
      var n := |files| - 1;
      OverlappingHasNoDuplicates(files[..n], begin, end);
      OverlappingMembers(files[..n], begin, end);
      var front := Overlapping(files[..n], begin, end);
      forall i | 0 <= i < |front| ensures front[i] != files[n] {
        assert front[i] in front && front[i] in files[..n];
      }
    }
  }

  // files[lo..hi] are the overlapping files: those before it end too early and
  // those after it start too late.
  ghost predicate IsOverlapSlice(files: seq<File>, begin: Option<UserKey>, end: Option<UserKey>, lo: nat, hi: nat) {
    && lo <= hi <= |files|
    && (forall i :: lo <= i < hi ==> Overlaps(files[i], begin, end))
    && (if lo < hi then
          && (forall i :: 0 <= i < lo ==> AfterFile(begin, files[i]))
          && (forall i :: hi <= i < |files| ==> BeforeFile(end, files[i]))
        else
          forall i :: 0 <= i < |files| ==> !Overlaps(files[i], begin, end))
  }

  // On a sorted disjoint level the overlapping files are consecutive.
  lemma FindOverlapSlice(files: seq<File>, begin: Option<UserKey>, end: Option<UserKey>) returns (lo: nat, hi: nat)
    requires ValidFiles(files) && UserMonotone(files)
    ensures IsOverlapSlice(files, begin, end, lo, hi)
  {
    lo, hi := 0, |files|;
    if SomeOverlap(files, begin, end) {
      while !Overlaps(files[lo], begin, end)
        invariant lo < |files|
        invariant forall i :: 0 <= i < lo ==> !Overlaps(files[i], begin, end)
        invariant SomeOverlap(files, begin, end)
        decreases |files| - lo
      {
        lo := lo + 1;
      }
      while !Overlaps(files[hi - 1], begin, end)
        decreases hi
        invariant lo < hi <= |files|
        invariant forall i :: hi <= i < |files| ==> !Overlaps(files[i], begin, end)
        invariant Overlaps(files[lo], begin, end)
      {
        hi := hi - 1;
      }
      ConvexOverlap(files, begin, end, lo, hi - 1);
    } else {
      hi := lo;
    }
  }

  lemma ConvexOverlap(files: seq<File>, begin: Option<UserKey>, end: Option<UserKey>, l: nat, h: nat)
    requires ValidFiles(files) && UserMonotone(files) && l <= h < |files|
    requires Overlaps(files[l], begin, end) && Overlaps(files[h], begin, end)
    ensures forall i :: l <= i <= h ==> Overlaps(files[i], begin, end)
    ensures forall i :: 0 <= i < l && !Overlaps(files[i], begin, end) ==> AfterFile(begin, files[i])
    ensures forall i :: h < i < |files| && !Overlaps(files[i], begin, end) ==> BeforeFile(end, files[i])
  {
    forall i | 0 <= i < |files|
      ensures l <= i <= h ==> Overlaps(files[i], begin, end)
      ensures i < l ==> !BeforeFile(end, files[i])
      ensures i > h ==> !AfterFile(begin, files[i])
    {
      SmallestBeforeLargest(files[i]);
      assert l < i ==> files[l].largest.user <= files[i].smallest.user;
      assert i < h ==> files[i].largest.user <= files[h].smallest.user;
      SmallestBeforeLargest(files[l]);
      SmallestBeforeLargest(files[h]);
      assert i < l ==> files[i].largest.user <= files[l].smallest.user;
      assert h < i ==> files[h].largest.user <= files[i].smallest.user;
    }
  }

  lemma SliceParts(files: seq<File>, begin: Option<UserKey>, end: Option<UserKey>, lo: nat, hi: nat)
    requires IsOverlapSlice(files, begin, end, lo, hi) && lo < hi
    ensures Overlapping(files[..lo], begin, end) == [] && Overlapping(files[hi..], begin, end) == []
    ensures Overlapping(files[lo..hi], begin, end) == files[lo..hi] && hi <= |files|
  {
    hide Overlapping;
    OverlappingNone(files[..lo], begin, end);
    OverlappingAll(files[lo..hi], begin, end);
    OverlappingNone(files[hi..], begin, end);
  }

  lemma OverlappingIsSlice(files: seq<File>, begin: Option<UserKey>, end: Option<UserKey>, lo: nat, hi: nat)
    requires IsOverlapSlice(files, begin, end, lo, hi)
    ensures Overlapping(files, begin, end) == files[lo..hi]
  {
    if lo < hi {
      hide *;
      SliceParts(files, begin, end, lo, hi);
      Thirds(files, lo, hi);
      OverlappingConcat(files[..lo], files[lo..hi] + files[hi..], begin, end);
      OverlappingConcat(files[lo..hi], files[hi..], begin, end);
    } else {
      hide Overlapping;
      OverlappingNone(files, begin, end);
    }
  }

  lemma Thirds<T>(s: seq<T>, lo: nat, hi: nat)
    requires lo <= hi <= |s|
    ensures s == s[..lo] + (s[lo..hi] + s[hi..])
  {
  }
}
