/** DBImpl::NewInternalIterator: everything in the store as one sorted run (db/db_impl.cc). */
module InternalIterator {
  import opened Basics
  import opened InternalKeys
  import opened Reads
  import opened Tables
  import opened CompactionPicking
  import opened VersionReads
  import opened CompactionWork
  import opened VersionSteps
  import Store
  import StoreInvariant

  // What a reader that looks everywhere sees.
  ghost function Present(s: Store.State): set<Entry> {
    Contents(s.mem) + (Store.ImmContents(s) + VersionContents(s.version))
  }

  // Nothing is lost, and nothing that compactions left behind shows.
  lemma PresentReadsAreExact(s: Store.State, k: UserKey, t: nat)
    requires Store.MemoryInv(s) && Store.TablesAgree(s) && t >= s.horizon
    ensures DistinctSequences(Present(s)) && ReadAt(Present(s), k, t) == ReadAt(s.written, k, t)
  {
    hide VersionContents, Contents, NewestAt;
    Store.ReadsAreExactAt(s, k, t);
    var A, B, V := Contents(s.mem), Store.ImmContents(s), VersionContents(s.version);
    Store.AboveIsNewer(A, B + V);
    Store.AboveIsNewer(B, V);
    assert A + (B + V) <= s.written;
    NewerPartFirst(A, B + V, k, t);
    NewerPartFirst(B, V, k, t);
  }

  // Runs and one more, none of whose keys occurs in them.
  lemma AddRun(runs: seq<seq<Entry>>, run: seq<Entry>)
    requires Mergeable(runs) && Sorted(run)
    requires forall a, b :: a in RunsContents(runs) && b in run ==> a.key != b.key
    ensures Mergeable(runs + [run]) && RunsContents(runs + [run]) == RunsContents(runs) + Contents(run)
  {
    hide Sorted;
    var all: seq<seq<Entry>> := runs + [run];
    forall i, j, a, b | 0 <= i < j < |all| && a in all[i] && b in all[j] ensures a.key != b.key {
      if j == |runs| {
        assert all[i] == runs[i] && runs[i] in runs;
        assert a in RunsContents(runs);
      } else {
        assert all[i] == runs[i] && all[j] == runs[j];
      }
    }
    forall e | e in RunsContents(all) ensures e in RunsContents(runs) + Contents(run) {
      var r :| r in all && e in r;
      assert r in runs || r == run;
    }
    forall e | e in RunsContents(runs) + Contents(run) ensures e in RunsContents(all) {
      if e in RunsContents(runs) {
        var r :| r in runs && e in r;
        assert r in all;
      } else {
        assert run in all && e in run;
      }
    }
  }

  // What is in memory and in the first levels.
  ghost function Above(s: Store.State, l: nat): set<Entry>
    requires l <= NUM_LEVELS
  {
    if l == 0 then Contents(s.mem) + Store.ImmContents(s) else Above(s, l - 1) + LevelContents(s.version[l - 1])
  }

  lemma {:induction false} AboveMembers(s: Store.State, l: nat, e: Entry)
    requires l <= NUM_LEVELS
    ensures e in Above(s, l) <==>
      e in Contents(s.mem) || e in Store.ImmContents(s) || exists m :: 0 <= m < l && e in LevelContents(s.version[m])
  {
    if l > 0 { AboveMembers(s, l - 1, e); }
  }

  lemma AllLevelsAbove(s: Store.State)
    ensures Above(s, NUM_LEVELS) == Present(s)
  {
    forall e ensures e in Above(s, NUM_LEVELS) <==> e in Present(s) {
      AboveMembers(s, NUM_LEVELS, e);
      FromLevelMembers(s.version, 0, e);
    }
  }

  // A table in a level shares no key with memory, the levels above or the
  // tables before it.
  lemma TableIsApart(s: Store.State, l: nat, i: nat, a: Entry, b: Entry)
    requires Store.Inv(s) && l < NUM_LEVELS && i < |s.version[l]|
    requires a in Above(s, l) + LevelContents(s.version[l][..i]) && b in s.version[l][i].entries
    ensures a.key != b.key
  {
    hide GoodVersion, Store.LogsInv, Store.ManifestInv, Store.TablesAgree, Store.NumbersInv, LevelContents;
    hide VersionContents;
    AboveMembers(s, l, a);
    var g := s.version[l][i];
    TableIsFlushed(s, l, g, b);
    if a !in Contents(s.mem) && a !in Store.ImmContents(s) {
      StoreInvariant.GoodIsOrdered(s.version);
      var m, f := FileOf(s, l, i, a);
      if a.key == b.key {
        SameKeySameFile(s.version, m, l, f, g, a, b);
        NotBefore(s.version, l, i, f);
        assert false;
      }
    }
  }

  lemma TableIsFlushed(s: Store.State, l: nat, g: File, b: Entry)
    requires Store.MemoryInv(s) && l < NUM_LEVELS && g in s.version[l] && b in g.entries
    ensures b in s.flushed
  {
    assert b in LevelContents(s.version[l]);
    FromLevelMembers(s.version, 0, b);
  }

  lemma FileOf(s: Store.State, l: nat, i: nat, a: Entry) returns (m: nat, f: File)
    requires l < NUM_LEVELS && i < |s.version[l]|
    requires (exists m :: 0 <= m < l && a in LevelContents(s.version[m])) || a in LevelContents(s.version[l][..i])
    ensures m <= l && f in s.version[m] && a in f.entries && (m == l ==> f in s.version[l][..i])
  {
    if m0 :| 0 <= m0 < l && a in LevelContents(s.version[m0]) {
      m := m0;
      f :| f in s.version[m] && a in f.entries;
    } else {
      m := l;
      f :| f in s.version[l][..i] && a in f.entries;
    }
  }

  lemma NotBefore(v: Version, l: nat, i: nat, f: File)
    requires WellFormedVersion(v) && l < NUM_LEVELS && i < |v[l]| && f in v[l][..i]
    ensures f != v[l][i]
  {
    assert NoDuplicates(v[l]);
  }

  // The runs of a level: the tables of level 0 may overlap, and those of the
  // deeper levels are read one after the other.
  method AddLevel(ghost s: Store.State, files: seq<File>, l: nat, runs: seq<seq<Entry>>) returns (r: seq<seq<Entry>>)
    requires Store.Inv(s) && l < NUM_LEVELS && files == s.version[l]
    requires Mergeable(runs) && RunsContents(runs) == Above(s, l)
    ensures Mergeable(r) && RunsContents(r) == Above(s, l + 1)
  {
    hide Store.Inv, Mergeable, RunsContents, Sorted;
    r := runs;
    assert LevelContents(files[..0]) == {};
    for i := 0 to |files|
      invariant Mergeable(r) && RunsContents(r) == Above(s, l) + LevelContents(files[..i])
    {
      TableIsSorted(s, l, i);
      forall a: Entry, b: Entry | a in RunsContents(r) && b in files[i].entries ensures a.key != b.key {
        TableIsApart(s, l, i, a, b);
      }
      AddRun(r, files[i].entries);
      OneMoreFile(files, i);
      r := r + [files[i].entries];
    }
    assert files[..|files|] == files;
  }

  lemma TableIsSorted(s: Store.State, l: nat, i: nat)
    requires Store.Inv(s) && l < NUM_LEVELS && i < |s.version[l]|
    ensures Sorted(s.version[l][i].entries)
  {
    hide Store.LogsInv, Store.ManifestInv, Store.TablesAgree, Store.NumbersInv, Store.MemoryInv;
    StoreInvariant.GoodIsOrdered(s.version);
    assert ValidFile(s.version[l][i]);
  }

  lemma OneMoreFile(files: seq<File>, i: nat)
    requires i < |files|
    ensures LevelContents(files[..i + 1]) == LevelContents(files[..i]) + Contents(files[i].entries)
  {
    assert files[..i + 1] == files[..i] + [files[i]];
  }

  lemma MemoryRuns(s: Store.State)
    requires Store.Inv(s)
    ensures var runs := [s.mem] + if s.imm.Some? then [s.imm.value] else [];
      Mergeable(runs) && RunsContents(runs) == Above(s, 0)
  {
    hide GoodVersion, Store.LogsInv, Store.ManifestInv, Store.TablesAgree, Store.NumbersInv;
    StoreInvariant.MemorySorted(s);
    assert Mergeable([]) && RunsContents([]) == {};
    AddRun([], s.mem);
    assert [] + [s.mem] == [s.mem];
    if s.imm.Some? {
      AddRun([s.mem], s.imm.value);
    }
  }

  // The merging iterator over the memtables and all tables.
  method Merged(ghost s: Store.State, mem: seq<Entry>, imm: Option<seq<Entry>>,
                version: Version) returns (es: seq<Entry>)
    requires Store.Inv(s) && s.mem == mem && s.imm == imm && s.version == version
    ensures Sorted(es) && Contents(es) == Present(s)
  {
    hide Store.Inv, Mergeable, RunsContents, Sorted;
    MemoryRuns(s);
    var runs := [mem] + if imm.Some? then [imm.value] else [];
    for l := 0 to NUM_LEVELS
      invariant Mergeable(runs) && RunsContents(runs) == Above(s, l)
    {
      runs := AddLevel(s, version[l], l, runs);
    }
    AllLevelsAbove(s);
    es := Merge(runs);
  }
}
