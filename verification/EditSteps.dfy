/**
 The edits that flushes, recoveries and compactions hand to LogAndApply
 (db/db_impl.cc, db/version_set.cc), and what they make of a version.
 */
module EditSteps {
  import opened Basics
  import opened InternalKeys
  import opened Reads
  import opened Tables
  import opened VersionEdits
  import opened VersionSearch
  import opened CompactionPicking
  import opened VersionReads
  import opened CompactionWork
  import opened VersionBuilder
  import opened VersionSteps

  // The edit that adds tables to a level.
  function AddEdit(level: nat, files: seq<File>): VersionEdit {
    FileEdit({}, AtLevel(level, files))
  }

  lemma AddEditAdds(v: Version, level: nat, files: seq<File>, v': Version)
    requires Applied(v, AddEdit(level, files), v')
    ensures Added(v, level, Files(files), v')
  {
    hide BySmallest, SortedBySmallest, AtLevel;
    var edit := AddEdit(level, files);
    FilesAtLevel(level, files);
    forall l: nat | l < NUM_LEVELS
      ensures SortedBySmallest(v'[l]) && Files(v'[l]) == Files(v[l]) + if l == level then Files(files) else {}
    {
      assert SavedLevel(Files(v[l]), DeletedAt(edit, l) - NumbersAt(edit.added, l), AddedAt(edit.added, l), v'[l]);
    }
  }

  lemma AddEditFits(v: Version, level: nat, files: seq<File>)
    requires Addable(v, level, Files(files))
    ensures EditFits(v, AddEdit(level, files))
  {
    hide Placeable, NewerThan, VersionContents, FilesContents, DistinctSequences, ValidFile;
    FilesAtLevel(level, files);
    forall l: nat | l < NUM_LEVELS
      ensures OneFilePerNumber(AddedAt(AtLevel(level, files), l))
      ensures NoClash(Files(v[l]), AddedAt(AtLevel(level, files), l))
    {
    }
  }

  // What BackgroundCompaction and InstallCompactionResults put into the edit.
  function CompactionEdit(c: Compaction, outputs: seq<File>): VersionEdit {
    FileEdit(
      (set f | f in c.inputs0 :: (c.level, f.number)) + (set f | f in c.inputs1 :: (c.level + 1, f.number)),
      AtLevel(c.level + 1, outputs)).(compactPointers := [(c.level, c.compactPointer)])
  }

  lemma NumbersAtLevel(level: nat, files: seq<File>, l: nat)
    ensures NumbersAt(AtLevel(level, files), l) == if l == level then set f | f in files :: f.number else {}
  {
    var added := AtLevel(level, files);
    forall f | f in files ensures (level, f) in added {
      var i :| 0 <= i < |files| && files[i] == f;
      assert added[i] == (level, f);
    }
    assert forall p :: p in added ==> p.0 == level && p.1 in files;
    if l == level {
      assert NumbersAt(added, l) == set f | f in files :: f.number;
    }
  }

  lemma CompactionEditAt(c: Compaction, outputs: seq<File>, l: nat)
    ensures var edit := CompactionEdit(c, outputs);
      && AddedAt(edit.added, l) == (if l == c.level + 1 then Files(outputs) else {})
      && NumbersAt(edit.added, l) == (if l == c.level + 1 then set f | f in outputs :: f.number else {})
      && DeletedAt(edit, l) == (if l == c.level then set f | f in c.inputs0 :: f.number
                                else if l == c.level + 1 then set f | f in c.inputs1 :: f.number else {})
  {
    var edit := CompactionEdit(c, outputs);
    FilesAtLevel(c.level + 1, outputs);
    NumbersAtLevel(c.level + 1, outputs, l);
    assert forall f :: f in c.inputs0 ==> (c.level, f.number) in edit.deleted;
    assert forall f :: f in c.inputs1 ==> (c.level + 1, f.number) in edit.deleted;
    if l == c.level + 1 {
      assert DeletedAt(edit, l) == set f | f in c.inputs1 :: f.number;
    } else if l == c.level {
      assert DeletedAt(edit, l) == set f | f in c.inputs0 :: f.number;
    }
  }

  lemma CompactionEditInstalls(v: Version, c: Compaction, outputs: seq<File>, v': Version)
    requires GoodVersion(v) && GoodCompaction(v, c) && NumbersFit(v, c, outputs)
    requires Applied(v, CompactionEdit(c, outputs), v')
    ensures Installed(v, c, outputs, v')
  {
    hide OrderedVersion, BySmallest, OlderGoesFirst, Separated, SameUserRange;
    var edit := CompactionEdit(c, outputs);
    forall l: nat | l < NUM_LEVELS ensures SortedBySmallest(v'[l]) && Files(v'[l]) == LevelAfter(v, c, outputs, l) {
      assert SavedLevel(Files(v[l]), DeletedAt(edit, l) - NumbersAt(edit.added, l), AddedAt(edit.added, l), v'[l]);
      CompactionEditAt(c, outputs, l);
      InstallsLevel(v, c, outputs, l, DeletedAt(edit, l) - NumbersAt(edit.added, l), AddedAt(edit.added, l), v'[l]);
    }
  }

  // Deleting by number deletes the inputs and nothing else.
  lemma InstallsLevel(v: Version, c: Compaction, outputs: seq<File>, l: nat, deleted: set<nat>, added: set<File>,
                      files: seq<File>)
    requires DistinctNumbers(v) && NumbersFit(v, c, outputs) && c.level + 1 < NUM_LEVELS && l < NUM_LEVELS
    requires forall f :: f in c.inputs0 ==> f in v[c.level]
    requires forall f :: f in c.inputs1 ==> f in v[c.level + 1]
    requires SavedLevel(Files(v[l]), deleted, added, files)
    requires added == if l == c.level + 1 then Files(outputs) else {}
    requires deleted == (if l == c.level then set f | f in c.inputs0 :: f.number
                         else if l == c.level + 1 then set f | f in c.inputs1 :: f.number else {})
                        - (if l == c.level + 1 then set f | f in outputs :: f.number else {})
    ensures Files(files) == LevelAfter(v, c, outputs, l)
  {
    hide SortedBySmallest;
    forall f | f in Files(v[l]) + added ensures f in Files(files) <==> f in LevelAfter(v, c, outputs, l) {
      if f in v[l] {
        assert forall g :: g in c.inputs0 && g.number == f.number ==> l == c.level && g == f;
        assert forall g :: g in c.inputs1 && g.number == f.number ==> l == c.level + 1 && g == f;
        assert forall g :: g in outputs && g.number == f.number ==> l == c.level;
      }
    }
  }

  lemma NumbersOfEdit(v: Version, c: Compaction, outputs: seq<File>)
    requires GoodVersion(v) && GoodCompaction(v, c) && NumbersFit(v, c, outputs)
    ensures EditFits(v, CompactionEdit(c, outputs))
  {
    hide OrderedVersion, BySmallest, OlderGoesFirst, Separated, SameUserRange, DistinctNumbers;
    forall l: nat | l < NUM_LEVELS
      ensures OneFilePerNumber(AddedAt(CompactionEdit(c, outputs).added, l))
      ensures NoClash(Files(v[l]), AddedAt(CompactionEdit(c, outputs).added, l))
    {
      CompactionEditAt(c, outputs, l);
    }
  }

  // The added files are new to their level.
  ghost predicate EditFits(v: Version, edit: VersionEdit) {
    && ValidEdit(edit)
    && forall l :: 0 <= l < NUM_LEVELS ==>
       OneFilePerNumber(AddedAt(edit.added, l)) && NoClash(Files(v[l]), AddedAt(edit.added, l))
  }

  // The new version that LogAndApply makes; overlap says whether a check on the
  // levels above 0 would fire.
  method ApplyEdit(v: Version, pointers: Pointers,
                   edit: VersionEdit) returns (v': Version, pointers': Pointers, overlap: bool)
    requires SortedLevels(v) && EditFits(v, edit)
    ensures Applied(v, edit, v') && pointers' == WithPointers(pointers, edit.compactPointers)
    ensures !overlap <==> forall l :: 0 < l < NUM_LEVELS ==> AdjacentDisjoint(v'[l])
  {
    hide SortedBySmallest, BySmallest, OneFilePerNumber, NoClash, WithPointers;
    var builder := new Builder(v, pointers);
    forall l: nat | l < NUM_LEVELS ensures Files(builder.levels[l].added) == {} {}
    assert forall l :: 0 <= l < NUM_LEVELS ==> {} + AddedAt(edit.added, l) == AddedAt(edit.added, l);
    builder.Apply(edit);
    forall l: nat | l < NUM_LEVELS
      ensures builder.levels[l].deleted == DeletedAt(edit, l) - NumbersAt(edit.added, l)
      ensures Files(builder.levels[l].added) == AddedAt(edit.added, l)
    {
    }
    v', overlap := builder.SaveTo();
    pointers' := builder.compactPointers;
  }

  lemma GoodHasNoOverlap(v: Version)
    requires GoodVersion(v)
    ensures forall l :: 0 < l < NUM_LEVELS ==> AdjacentDisjoint(v[l])
  {
  }
}
