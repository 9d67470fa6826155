/**
 Point reads: MemTable::Get (db/memtable.cc) and Version::Get
 (db/version_set.cc), which looks level by level, newest file first on level 0
 and in one file per deeper level.
 */
module VersionReads {
  import opened Basics
  import opened InternalKeys
  import opened Reads
  import opened Tables
  import opened VersionSearch
  import opened CompactionPicking

  // Versions of a key never cross: what is shallower, or in a level-0 file with
  // a higher number, is newer.
  ghost predicate OrderedVersion(v: Version) {
    && WellFormedVersion(v)
    && DistinctSequences(VersionContents(v))
    && (forall l, m :: 0 <= l < m < NUM_LEVELS ==> NewerThan(LevelContents(v[l]), LevelContents(v[m])))
    && NumberedByAge(v[0])
  }

  ghost predicate NumberedByAge(files: seq<File>) {
    && (forall i, j :: 0 <= i < j < |files| ==> files[i].number != files[j].number)
    && (forall f, g :: f in files && g in files && f.number > g.number ==>
       NewerThan(Contents(f.entries), Contents(g.entries)))
  }

  lemma LevelNewerThanRest(v: Version, l: nat)
    requires OrderedVersion(v) && l < NUM_LEVELS
    ensures NewerThan(LevelContents(v[l]), FromLevel(v, l + 1))
    ensures FromLevel(v, l) <= VersionContents(v)
  {
    forall a, b | a in LevelContents(v[l]) && b in FromLevel(v, l + 1) && a.key.user == b.key.user
      ensures a.key.sequence > b.key.sequence
    {
      FromLevelMembers(v, l + 1, b);
    }
    forall e | e in FromLevel(v, l) ensures e in VersionContents(v) {
      FromLevelMembers(v, l, e);
      FromLevelMembers(v, 0, e);
    }
  }

  // Where a seek lands in a sorted run.  The skip list of a memtable and the
  // blocks of a table get there faster.
  method Seek(es: seq<Entry>, target: InternalKey) returns (i: nat)
    requires Sorted(es)
    ensures IsSeekPosition(es, target, i)
  {
    i := 0;
    while i < |es| && Less(es[i].key, target)
      invariant 0 <= i <= |es|
      invariant forall j :: 0 <= j < i ==> Less(es[j].key, target)
    {
      i := i + 1;
    }
  }

  // The entry a lookup finds in a memtable or a table, if it finds its key.
  method Lookup(es: seq<Entry>, k: UserKey, s: SequenceNumber) returns (r: Option<Entry>)
    requires Sorted(es) && DistinctSequences(Contents(es))
    ensures r == NewestAt(Contents(es), k, s)
  {
    var i := Seek(es, LookupKey(k, s));
    SeekFindsNewest(es, k, s, i);
    r := if i < |es| && es[i].key.user == k then Some(es[i]) else None;
  }

  // Reading from a part that holds every visible entry is reading from the whole.
  lemma SameVisible(S: set<Entry>, T: set<Entry>, k: UserKey, s: nat)
    requires DistinctSequences(S) && T <= S
    requires forall e :: e in S && Visible(e, k, s) ==> e in T
    ensures NewestAt(S, k, s) == NewestAt(T, k, s)
  {
    var o := NewestAt(T, k, s);
    if o.Some? {
      assert IsNewest(S, k, s, o.value);
      NewestIsUnique(S, k, s, o.value);
    } else {
      NoneVisible(S, k, s);
    }
  }

  // ----- level 0 -------------------------------------------------------------

  predicate NewestFirst(files: seq<File>) {
    forall i, j :: 0 <= i < j < |files| ==> files[i].number > files[j].number
  }

  // Sorting by decreasing file number.
  method SortNewestFirst(files: seq<File>) returns (r: seq<File>)
    requires forall i, j :: 0 <= i < j < |files| ==> files[i].number != files[j].number
    ensures NewestFirst(r) && forall f :: f in r <==> f in files
  {
    r := [];
    for i := 0 to |files|
      invariant NewestFirst(r) && forall f :: f in r <==> f in files[..i]
    {
      var f, j := files[i], 0;
      while j < |r| && r[j].number > f.number
        invariant 0 <= j <= |r| && forall n :: 0 <= n < j ==> r[n].number > f.number
      {
        j := j + 1;
      }
      assert j < |r| ==> r[j] in r && r[j] in files[..i];
      r := InsertAt(r, j, f);
      assert files[..i + 1] == files[..i] + [f];
    }
    assert files[..|files|] == files;
  }

  function InsertAt(r: seq<File>, j: nat, f: File): (q: seq<File>)
    requires j <= |r| && NewestFirst(r)
    requires forall n :: 0 <= n < j ==> r[n].number > f.number
    requires j < |r| ==> r[j].number < f.number
    ensures NewestFirst(q) && forall g :: g in q <==> g in r || g == f
  {
    var q := r[..j] + [f] + r[j..];
    assert forall g :: g in r <==> g in r[..j] || g in r[j..] by { assert r == r[..j] + r[j..]; }
    q
  }

  lemma UniqueNumbers(files: seq<File>, f: File, g: File)
    requires NumberedByAge(files) && f in files && g in files && f.number == g.number
    ensures f == g
  {
  }

  lemma {:induction false} OverlappingHasUniqueNumbers(files: seq<File>, begin: Option<UserKey>, end: Option<UserKey>)
    requires forall i, j :: 0 <= i < j < |files| ==> files[i].number != files[j].number
    ensures var r := Overlapping(files, begin, end); forall i, j :: 0 <= i < j < |r| ==> r[i].number != r[j].number
  {
    if files != [] {
      var n := |files| - 1;
      OverlappingHasUniqueNumbers(files[..n], begin, end);
      OverlappingMembers(files[..n], begin, end);
      var front := Overlapping(files[..n], begin, end);
      forall i | 0 <= i < |front| ensures front[i].number != files[n].number {
        assert front[i] in front && front[i] in files[..n];
      }
    }
  }

  method ReadLevel0(files: seq<File>, k: UserKey, s: SequenceNumber) returns (r: Option<Entry>)
    requires ValidFiles(files) && NumberedByAge(files) && DistinctSequences(LevelContents(files))
    ensures r == NewestAt(LevelContents(files), k, s)
  {
    var tmp := Overlapping(files, Some(k), Some(k));
    OverlappingHasUniqueNumbers(files, Some(k), Some(k));
    OverlappingMembers(files, Some(k), Some(k));
    tmp := SortNewestFirst(tmp);
    OnlyOverlappingMatter(files, tmp, k, s);
    var i := 0;
    while i < |tmp|
      invariant 0 <= i <= |tmp|
      invariant NewestAt(LevelContents(files), k, s) == NewestAt(LevelContents(tmp[i..]), k, s)
    {
      var f := tmp[i];
      HeadFileIsNewest(files, tmp, i, k, s);
      r := Lookup(f.entries, k, s);
      if r.Some? { return; }
      i := i + 1;
    }
    NoneVisible(LevelContents(tmp[i..]), k, s);
    r := None;
  }

  lemma OnlyOverlappingMatter(files: seq<File>, tmp: seq<File>, k: UserKey, s: SequenceNumber)
    requires ValidFiles(files) && DistinctSequences(LevelContents(files))
    requires forall f :: f in tmp <==> f in files && Overlaps(f, Some(k), Some(k))
    ensures NewestAt(LevelContents(files), k, s) == NewestAt(LevelContents(tmp), k, s)
  {
    forall e | e in LevelContents(files) && Visible(e, k, s) ensures e in LevelContents(tmp) {
      var f :| f in files && e in f.entries;
      EntryInRange(f, e);
      assert f in tmp;
    }
    SameVisible(LevelContents(files), LevelContents(tmp), k, s);
  }

  lemma HeadFileIsNewest(files: seq<File>, tmp: seq<File>, i: nat, k: UserKey, s: SequenceNumber)
    requires ValidFiles(files) && NumberedByAge(files) && DistinctSequences(LevelContents(files))
    requires i < |tmp| && NewestFirst(tmp) && forall f :: f in tmp ==> f in files
    ensures Sorted(tmp[i].entries) && DistinctSequences(Contents(tmp[i].entries))
    ensures NewestAt(LevelContents(tmp[i..]), k, s)
            == if NewestAt(Contents(tmp[i].entries), k, s).Some? then NewestAt(Contents(tmp[i].entries), k, s)
               else NewestAt(LevelContents(tmp[i + 1..]), k, s)
  {
    var A, B := Contents(tmp[i].entries), LevelContents(tmp[i + 1..]);
    assert tmp[i] in tmp && tmp[i] in files;
    assert tmp[i..] == [tmp[i]] + tmp[i + 1..];
    assert LevelContents(tmp[i..]) == A + B;
    assert A + B <= LevelContents(files);
    forall a, b | a in A && b in B && a.key.user == b.key.user ensures a.key.sequence > b.key.sequence {
      var g :| g in tmp[i + 1..] && b in g.entries;
      assert g in tmp && g in files && tmp[i].number > g.number;
    }
    NewerPartFirst(A, B, k, s);
  }

  // ----- deeper levels ---------------------------------------------------------

  method ReadSortedLevel(files: seq<File>, k: UserKey, s: SequenceNumber) returns (r: Option<Entry>)
    requires ValidFiles(files) && SortedDisjoint(files) && DistinctSequences(LevelContents(files))
    ensures r == NewestAt(LevelContents(files), k, s)
  {
    var index := FindFile(files, LookupKey(k, s));
    if index >= |files| {
      NothingBeforeFile(files, index, k, s);
      return None;
    }
    OneFileHoldsNewest(files, index, k, s);
    if k < files[index].smallest.user {
      return None;
    }
    assert Contents(files[index].entries) <= LevelContents(files);
    r := Lookup(files[index].entries, k, s);
  }

  lemma NothingBeforeFile(files: seq<File>, index: nat, k: UserKey, s: SequenceNumber)
    requires ValidFiles(files) && index <= |files|
    requires forall i :: 0 <= i < index ==> Less(files[i].largest, LookupKey(k, s))
    ensures forall e :: e in LevelContents(files[..index]) ==> !Visible(e, k, s)
    ensures index == |files| ==> NewestAt(LevelContents(files), k, s) == None
  {
    forall e | e in LevelContents(files[..index]) ensures !Visible(e, k, s) {
      var f :| f in files[..index] && e in f.entries;
      var i :| 0 <= i < index && files[i] == f;
      EntryInRange(f, e);
      assert Less(e.key, LookupKey(k, s));
    }
    if index == |files| { assert files[..index] == files; }
  }

  lemma OneFileHoldsNewest(files: seq<File>, index: nat, k: UserKey, s: SequenceNumber)
    requires ValidFiles(files) && SortedDisjoint(files) && DistinctSequences(LevelContents(files))
    requires index < |files|
    requires forall i :: 0 <= i < index ==> Less(files[i].largest, LookupKey(k, s))
    requires !Less(files[index].largest, LookupKey(k, s))
    ensures NewestAt(LevelContents(files), k, s)
            == if k < files[index].smallest.user then None else NewestAt(Contents(files[index].entries), k, s)
  {
    var S, T := LevelContents(files), Contents(files[index].entries);
    var o := NewestAt(S, k, s);
    if o.Some? {
      NewestIsInFile(files, index, k, s, o.value);
      EntryInRange(files[index], o.value);
      assert IsNewest(T, k, s, o.value);
      assert DistinctSequences(T) by { assert T <= S; }
      NewestIsUnique(T, k, s, o.value);
    } else {
      forall e | e in T ensures !Visible(e, k, s) { assert e in S; }
      NoneVisible(T, k, s);
    }
  }

  lemma NewestIsInFile(files: seq<File>, index: nat, k: UserKey, s: SequenceNumber, e: Entry)
    requires ValidFiles(files) && SortedDisjoint(files) && DistinctSequences(LevelContents(files))
    requires index < |files| && IsNewest(LevelContents(files), k, s, e)
    requires forall i :: 0 <= i < index ==> Less(files[i].largest, LookupKey(k, s))
    requires !Less(files[index].largest, LookupKey(k, s))
    ensures e in files[index].entries
  {
    var f :| f in files && e in f.entries;
    var i :| 0 <= i < |files| && files[i] == f;
    if i > index {
      LaterFileIsOlder(files, index, i, k, s, e);
      assert false;
    } else if i < index {
      EntryInRange(f, e);
      assert false;
    }
  }

  // A visible entry in a later file is hidden by the last entry of this one.
  lemma LaterFileIsOlder(files: seq<File>, index: nat, i: nat, k: UserKey, s: SequenceNumber, e: Entry)
    requires ValidFiles(files) && SortedDisjoint(files) && DistinctSequences(LevelContents(files))
    requires index < i < |files| && e in files[i].entries && Visible(e, k, s)
    requires !Less(files[index].largest, LookupKey(k, s))
    ensures !IsNewest(LevelContents(files), k, s, e)
  {
    var last := files[index].entries[|files[index].entries| - 1];
    EntryInRange(files[i], e);
    assert Less(files[index].largest, files[i].smallest);
    assert files[index] in files && last in files[index].entries && last in LevelContents(files);
    assert files[i] in files && e in LevelContents(files);
    assert Visible(last, k, s) && last.key.sequence >= e.key.sequence;
  }

  // ----- Version::Get ------------------------------------------------------------

  // The first level that has the key has its newest visible entry.
  method Get(v: Version, k: UserKey, s: SequenceNumber) returns (r: Option<Entry>)
    requires OrderedVersion(v)
    ensures r == NewestAt(VersionContents(v), k, s)
  {
    hide NewestAt, NewerThan, DistinctSequences, NumberedByAge, SortedDisjoint, LevelContents;
    r := None;
    for level := 0 to NUM_LEVELS
      invariant r.None?
      invariant NewestAt(VersionContents(v), k, s) == NewestAt(FromLevel(v, level), k, s)
    {
      LevelDecides(v, level, k, s);
      if level == 0 {
        r := ReadLevel0(v[0], k, s);
      } else {
        r := ReadSortedLevel(v[level], k, s);
      }
      if r.Some? { return; }
    }
    NoneVisible(FromLevel(v, NUM_LEVELS), k, s);
  }

  lemma LevelDecides(v: Version, l: nat, k: UserKey, s: SequenceNumber)
    requires OrderedVersion(v) && l < NUM_LEVELS
    ensures NewestAt(FromLevel(v, l), k, s)
            == if NewestAt(LevelContents(v[l]), k, s).Some? then NewestAt(LevelContents(v[l]), k, s)
               else NewestAt(FromLevel(v, l + 1), k, s)
    ensures DistinctSequences(LevelContents(v[l]))
  {
    LevelNewerThanRest(v, l);
    NewerPartFirst(LevelContents(v[l]), FromLevel(v, l + 1), k, s);
  }
}
