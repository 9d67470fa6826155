/**
 Version edits and VersionSet::Builder (db/version_edit.h, db/version_set.cc):
 applying one edit at a time and replaying a whole manifest in one builder
 give the same versions.
 */
module VersionBuilder {
  import opened Basics
  import opened InternalKeys
  import opened Tables
  import opened VersionEdits

  // What an edit record stands for.
  type VersionEdit = Edit<InternalKey, File>

  function FileEdit(deleted: set<(nat, nat)>, added: seq<(nat, File)>): VersionEdit {
    NoEdit<InternalKey, File>().(deleted := deleted, added := added)
  }

  predicate ValidEdit(edit: VersionEdit) {
    && (forall i :: 0 <= i < |edit.added| ==> edit.added[i].0 < NUM_LEVELS)
    && (forall i :: 0 <= i < |edit.compactPointers| ==> edit.compactPointers[i].0 < NUM_LEVELS)
    && (forall p :: p in edit.deleted ==> p.0 < NUM_LEVELS)
  }

  // For each level, the key at which its next compaction starts.
  type Pointers = ps: seq<Option<InternalKey>> | |ps| == NUM_LEVELS witness [None, None, None, None, None, None, None]

  const NO_POINTERS: Pointers := [None, None, None, None, None, None, None]

  function WithPointers(ps: Pointers, updates: seq<(nat, InternalKey)>): Pointers {
    if updates == [] then ps
    else
      var n := |updates| - 1;
      var front := WithPointers(ps, updates[..n]);
      if updates[n].0 < NUM_LEVELS then front[updates[n].0 := Some(updates[n].1)] else front
  }

  // Increasing smallest key; ties are broken by file number.
  predicate BySmallest(f: File, g: File) {
    Less(f.smallest, g.smallest) || (f.smallest == g.smallest && f.number < g.number)
  }

  predicate SortedBySmallest(files: seq<File>) {
    forall i, j :: 0 <= i < j < |files| ==> BySmallest(files[i], files[j])
  }

  // std::set<FileMetaData*, BySmallestKey> treats these as one element.
  predicate Equivalent(f: File, g: File) {
    f.smallest == g.smallest && f.number == g.number
  }

  ghost predicate NoClash(A: set<File>, B: set<File>) {
    forall f, g :: f in A && g in B ==> !Equivalent(f, g)
  }

  ghost function AddedAt(added: seq<(nat, File)>, l: nat): set<File> {
    set p | p in added && p.0 == l :: p.1
  }

  ghost function NumbersAt(added: seq<(nat, File)>, l: nat): set<nat> {
    set p | p in added && p.0 == l :: p.1.number
  }

  ghost function DeletedAt(edit: VersionEdit, l: nat): set<nat> {
    set p | p in edit.deleted && p.0 == l :: p.1
  }

  ghost function Files(files: seq<File>): set<File> {
    set f | f in files
  }

  // A sorted list of files is determined by its members.
  lemma {:induction false} SortedIsUnique(a: seq<File>, b: seq<File>)
    requires SortedBySmallest(a) && SortedBySmallest(b) && Files(a) == Files(b)
    ensures a == b
  {
    if a == [] || b == [] {
      if a != [] { NonEmpty(a); }
      if b != [] { NonEmpty(b); }
    } else {
      SameHead(a, b);
      var a', b' := a[1..], b[1..];
      assert a == [a[0]] + a' && b == [b[0]] + b';
      HeadOnce(a);
      HeadOnce(b);
      assert Files(a') == Files(a) - {a[0]} && Files(b') == Files(b) - {b[0]};
      SortedIsUnique(a', b');
    }
  }

  lemma NonEmpty(a: seq<File>)
    requires a != []
    ensures Files(a) != {}
  {
    assert a[0] in Files(a);
  }

  lemma SameHead(a: seq<File>, b: seq<File>)
    requires SortedBySmallest(a) && SortedBySmallest(b) && Files(a) == Files(b) && a != [] && b != []
    ensures a[0] == b[0]
  {
    assert a[0] in Files(b) && b[0] in Files(a);
    var i :| 0 <= i < |b| && b[i] == a[0];
    var j :| 0 <= j < |a| && a[j] == b[0];
    assert i > 0 ==> BySmallest(b[0], b[i]);
    assert j > 0 ==> BySmallest(a[0], a[j]);
  }

  lemma HeadOnce(a: seq<File>)
    requires SortedBySmallest(a) && a != []
    ensures a[0] !in a[1..]
  {
    forall i | 1 <= i < |a| ensures a[i] != a[0] {
      assert BySmallest(a[0], a[i]);
    }
  }

  // ----- the specification of a builder ----------------------------------------

  // The base and added files that are not deleted, in order.
  ghost predicate SavedLevel(base: set<File>, deleted: set<nat>, added: set<File>, files: seq<File>) {
    SortedBySmallest(files) && Files(files) == set f | f in base + added && f.number !in deleted
  }

  // Installing one edit: LogAndApply's new version.
  ghost predicate Applied(base: Version, edit: VersionEdit, v: Version) {
    forall l :: 0 <= l < NUM_LEVELS ==>
      SavedLevel(Files(base[l]), DeletedAt(edit, l) - NumbersAt(edit.added, l), AddedAt(edit.added, l), v[l])
  }

  // A file number stands for one file.
  ghost predicate OneFilePerNumber(S: set<File>) {
    forall f, g :: f in S && g in S && f.number == g.number ==> f == g
  }

  // ----- the builder ---------------------------------------------------------------

  datatype LevelState = LevelState(deleted: set<nat>, added: seq<File>)

  // std::set::insert: an equivalent element that is already there stays.
  method Insert(added: seq<File>, f: File) returns (r: seq<File>)
    requires SortedBySmallest(added) && OneFilePerNumber(Files(added) + {f})
    ensures SortedBySmallest(r) && Files(r) == Files(added) + {f}
  {
    var i := 0;
    while i < |added| && BySmallest(added[i], f)
      invariant 0 <= i <= |added|
      invariant forall j :: 0 <= j < i ==> BySmallest(added[j], f)
    {
      i := i + 1;
    }
    if i < |added| && Equivalent(added[i], f) {
      assert added[i] in Files(added);
      return added;
    }
    InsertKeepsOrder(added, i, f);
    r := added[..i] + [f] + added[i..];
  }

  lemma InsertKeepsOrder(files: seq<File>, i: nat, f: File)
    requires SortedBySmallest(files) && i <= |files|
    requires forall j :: 0 <= j < i ==> BySmallest(files[j], f)
    requires i < |files| ==> !BySmallest(files[i], f) && !Equivalent(files[i], f)
    ensures SortedBySmallest(files[..i] + [f] + files[i..])
    ensures Files(files[..i] + [f] + files[i..]) == Files(files) + {f}
  {
    forall j | i <= j < |files| ensures BySmallest(f, files[j]) {
      assert j > i ==> BySmallest(files[i], files[j]);
    }
    assert files == files[..i] + files[i..];
  }

  class Builder {
    const base: Version
    var levels: seq<LevelState>
    // Those of the VersionSet
    var compactPointers: Pointers

    ghost predicate Valid()
      reads this
    {
      && |levels| == NUM_LEVELS
      && forall l :: 0 <= l < NUM_LEVELS ==> SortedBySmallest(levels[l].added)
    }

    constructor (base: Version, pointers: Pointers)
      ensures Valid() && this.base == base && compactPointers == pointers
      ensures forall l :: 0 <= l < NUM_LEVELS ==> levels[l] == LevelState({}, [])
    {
      this.base, compactPointers := base, pointers;
      levels := seq(NUM_LEVELS, _ => LevelState({}, []));
    }

    method DeleteFiles(edit: VersionEdit)
      requires Valid()
      modifies this`levels
      ensures Valid()
      ensures forall l :: 0 <= l < NUM_LEVELS ==>
        levels[l] == LevelState(old(levels)[l].deleted + DeletedAt(edit, l), old(levels)[l].added)
    {
      for l := 0 to NUM_LEVELS
        invariant Valid()
        invariant forall m :: 0 <= m < NUM_LEVELS ==>
          var more := if m < l then DeletedAt(edit, m) else {};
          levels[m] == LevelState(old(levels)[m].deleted + more, old(levels)[m].added)
      {
        var del := set p | p in edit.deleted && p.0 == l :: p.1;
        levels := levels[l := levels[l].(deleted := levels[l].deleted + del)];
      }
    }

    // An added number is no longer deleted.
    method AddFile(l: nat, f: File)
      requires Valid() && l < NUM_LEVELS && OneFilePerNumber(Files(levels[l].added) + {f})
      modifies this`levels
      ensures Valid()
      ensures forall m :: 0 <= m < NUM_LEVELS && m != l ==> levels[m] == old(levels)[m]
      ensures levels[l].deleted == old(levels)[l].deleted - {f.number}
      ensures Files(levels[l].added) == Files(old(levels)[l].added) + {f}
    {
      var inserted := Insert(levels[l].added, f);
      levels := levels[l := LevelState(levels[l].deleted - {f.number}, inserted)];
    }

    method UpdatePointers(edit: VersionEdit)
      requires ValidEdit(edit)
      modifies this`compactPointers
      ensures compactPointers == WithPointers(old(compactPointers), edit.compactPointers)
    {
      var updates := edit.compactPointers;
      for i := 0 to |updates|
        invariant compactPointers == WithPointers(old(compactPointers), updates[..i])
      {
        assert updates[..i + 1][..i] == updates[..i];
        compactPointers := compactPointers[updates[i].0 := Some(updates[i].1)];
      }
      assert updates[..|updates|] == updates;
    }

    // Pointers and deletions first, then additions.
    method Apply(edit: VersionEdit)
      requires Valid() && ValidEdit(edit)
      requires forall l :: 0 <= l < NUM_LEVELS ==> OneFilePerNumber(Files(levels[l].added) + AddedAt(edit.added, l))
      modifies this`levels, this`compactPointers
      ensures Valid()
      ensures compactPointers == WithPointers(old(compactPointers), edit.compactPointers)
      ensures forall l :: 0 <= l < NUM_LEVELS ==>
        levels[l].deleted == old(levels)[l].deleted + DeletedAt(edit, l) - NumbersAt(edit.added, l)
      ensures forall l :: 0 <= l < NUM_LEVELS ==>
        Files(levels[l].added) == Files(old(levels)[l].added) + AddedAt(edit.added, l)
    {
      hide SortedBySmallest, AddedAt, NumbersAt, DeletedAt, OneFilePerNumber, WithPointers;
      NoAdditions(edit);
      UpdatePointers(edit);
      DeleteFiles(edit);
      for i := 0 to |edit.added|
        invariant Valid() && compactPointers == WithPointers(old(compactPointers), edit.compactPointers)
        invariant forall l :: 0 <= l < NUM_LEVELS ==>
          levels[l].deleted == old(levels)[l].deleted + DeletedAt(edit, l) - NumbersAt(edit.added[..i], l)
        invariant forall l :: 0 <= l < NUM_LEVELS ==>
          Files(levels[l].added) == Files(old(levels)[l].added) + AddedAt(edit.added[..i], l)
      {
        var l, f := edit.added[i].0, edit.added[i].1;
        assert (l, f) in edit.added;
        PrefixGrows(edit.added, i);
        PrefixIsPart(edit.added, i);
        PartIsOnePerNumber(Files(levels[l].added) + {f}, Files(old(levels)[l].added) + AddedAt(edit.added, l));
        AddFile(l, f);
      }
      assert edit.added[..|edit.added|] == edit.added;
    }

    // Merges the added files into the base files of every level.  overlap tells
    // whether a check on the levels above 0 would fire.
    method SaveTo() returns (v: Version, overlap: bool)
      requires Valid()
      requires forall l :: 0 <= l < NUM_LEVELS ==>
        SortedBySmallest(base[l]) && NoClash(Files(base[l]), Files(levels[l].added))
      ensures forall l :: 0 <= l < NUM_LEVELS ==>
        SavedLevel(Files(base[l]), levels[l].deleted, Files(levels[l].added), v[l])
      ensures !overlap <==> forall l :: 0 < l < NUM_LEVELS ==> AdjacentDisjoint(v[l])
    {
      v := [[], [], [], [], [], [], []];
      overlap := false;
      for l := 0 to NUM_LEVELS
        invariant forall m :: 0 <= m < l ==> SavedLevel(Files(base[m]), levels[m].deleted, Files(levels[m].added), v[m])
        invariant !overlap <==> forall m :: 0 < m < l ==> AdjacentDisjoint(v[m])
      {
        var files, clash := MergeLevel(base[l], levels[l].added, levels[l].deleted);
        v := v[l := files];
        overlap := overlap || (l > 0 && clash);
      }
    }
  }

  lemma NoAdditions(edit: VersionEdit)
    ensures forall l :: AddedAt(edit.added[..0], l) == {} && NumbersAt(edit.added[..0], l) == {}
  {
  }

  lemma PartIsOnePerNumber(part: set<File>, all: set<File>)
    requires part <= all && OneFilePerNumber(all)
    ensures OneFilePerNumber(part)
  {
  }

  lemma PrefixIsPart(added: seq<(nat, File)>, i: nat)
    requires i < |added|
    ensures added[i].1 in AddedAt(added, added[i].0)
    ensures forall l :: AddedAt(added[..i], l) <= AddedAt(added, l)
  {
    assert added[i] in added;
  }

  lemma PrefixGrows(added: seq<(nat, File)>, i: nat)
    requires i < |added|
    ensures forall l ::
      AddedAt(added[..i + 1], l) == AddedAt(added[..i], l) + if added[i].0 == l then {added[i].1} else {}
    ensures forall l ::
      NumbersAt(added[..i + 1], l) == NumbersAt(added[..i], l) + if added[i].0 == l then {added[i].1.number} else {}
  {
    assert added[..i + 1] == added[..i] + [added[i]];
    forall l: nat
      ensures AddedAt(added[..i + 1], l) == AddedAt(added[..i], l) + if added[i].0 == l then {added[i].1} else {}
      ensures NumbersAt(added[..i + 1], l) ==
        NumbersAt(added[..i], l) + if added[i].0 == l then {added[i].1.number} else {}
    {
    }
  }

  // What SaveTo and MaybeAddFile check on the levels above 0.
  predicate AdjacentDisjoint(files: seq<File>) {
    forall i :: 0 < i < |files| ==> Less(files[i - 1].largest, files[i].smallest)
  }

  // files is the sorted list of the live ones among the first b base files and
  // the first a added files, and the others all come later.
  ghost predicate Merged(base: seq<File>, added: seq<File>, deleted: set<nat>, b: nat, a: nat, files: seq<File>) {
    && b <= |base| && a <= |added|
    && SavedLevel(Files(base[..b]), deleted, Files(added[..a]), files)
    && (forall i :: 0 <= i < |files| ==>
         && (forall j :: b <= j < |base| ==> BySmallest(files[i], base[j]))
         && (forall j :: a <= j < |added| ==> BySmallest(files[i], added[j])))
  }

  method MaybeAddFile(files: seq<File>, deleted: set<nat>, f: File) returns (r: seq<File>, clash: bool)
    ensures r == if f.number in deleted then files else files + [f]
    ensures clash <==> f.number !in deleted && files != [] && !Less(files[|files| - 1].largest, f.smallest)
    ensures AdjacentDisjoint(r) <==> AdjacentDisjoint(files) && !clash
  {
    clash := false;
    if f.number in deleted {
      r := files;
    } else {
      if files != [] && !Less(files[|files| - 1].largest, f.smallest) { clash := true; }
      r := files + [f];
      AppendAdjacent(files, f);
    }
  }

  lemma AppendAdjacent(files: seq<File>, f: File)
    ensures AdjacentDisjoint(files + [f]) <==>
      AdjacentDisjoint(files) && (files != [] ==> Less(files[|files| - 1].largest, f.smallest))
  {
    var r, n := files + [f], |files|;
    if AdjacentDisjoint(r) {
      assert n > 0 ==> Less(r[n - 1].largest, r[n].smallest);
      forall i | 0 < i < n ensures Less(files[i - 1].largest, files[i].smallest) {
        assert Less(r[i - 1].largest, r[i].smallest);
      }
    }
  }

  method MergeLevel(base: seq<File>, added: seq<File>, deleted: set<nat>) returns (files: seq<File>, overlap: bool)
    requires SortedBySmallest(base) && SortedBySmallest(added) && NoClash(Files(base), Files(added))
    ensures SavedLevel(Files(base), deleted, Files(added), files)
    ensures overlap <==> !AdjacentDisjoint(files)
  {
    hide SavedLevel, BySmallest, SortedBySmallest, NoClash;
    files, overlap := [], false;
    var b, a := 0, 0;
    NothingMerged(base, added, deleted);
    var clash;
    while a < |added|
      invariant 0 <= a <= |added| && 0 <= b <= |base| && Merged(base, added, deleted, b, a, files)
      invariant overlap <==> !AdjacentDisjoint(files)
    {
      // upper_bound: the base files that are not above the added one
      while b < |base| && !BySmallest(added[a], base[b])
        invariant 0 <= b <= |base| && Merged(base, added, deleted, b, a, files)
        invariant overlap <==> !AdjacentDisjoint(files)
      {
        TakeBaseFile(base, added, deleted, b, a, files);
        files, clash := MaybeAddFile(files, deleted, base[b]);
        overlap := overlap || clash;
        b := b + 1;
      }
      TakeAddedFile(base, added, deleted, b, a, files);
      files, clash := MaybeAddFile(files, deleted, added[a]);
      overlap := overlap || clash;
      a := a + 1;
    }
    while b < |base|
      invariant 0 <= b <= |base| && Merged(base, added, deleted, b, a, files)
      invariant overlap <==> !AdjacentDisjoint(files)
    {
      TakeBaseFile(base, added, deleted, b, a, files);
      files, clash := MaybeAddFile(files, deleted, base[b]);
      overlap := overlap || clash;
      b := b + 1;
    }
    assert base[..b] == base && added[..a] == added;
  }

  lemma NothingMerged(base: seq<File>, added: seq<File>, deleted: set<nat>)
    ensures Merged(base, added, deleted, 0, 0, [])
  {
  }

  lemma BySmallestIsOrder(f: File, g: File, h: File)
    ensures BySmallest(f, g) && BySmallest(g, h) ==> BySmallest(f, h)
    ensures BySmallest(f, g) || BySmallest(g, f) || Equivalent(f, g)
  {
  }

  lemma BaseGoesFirst(base: seq<File>, added: seq<File>, b: nat, a: nat)
    requires SortedBySmallest(added) && NoClash(Files(base), Files(added)) && b < |base|
    requires a < |added| ==> !BySmallest(added[a], base[b])
    ensures forall j :: a <= j < |added| ==> BySmallest(base[b], added[j])
  {
    hide BySmallest, Equivalent;
    var f := base[b];
    forall j | a <= j < |added| ensures BySmallest(f, added[j]) {
      assert f in Files(base) && added[a] in Files(added);
      BySmallestIsOrder(f, added[a], added[j]);
    }
  }

  lemma TakeBaseFile(base: seq<File>, added: seq<File>, deleted: set<nat>, b: nat, a: nat, files: seq<File>)
    requires SortedBySmallest(base) && SortedBySmallest(added) && NoClash(Files(base), Files(added))
    requires Merged(base, added, deleted, b, a, files) && b < |base|
    requires a < |added| ==> !BySmallest(added[a], base[b])
    ensures Merged(base, added, deleted, b + 1, a, if base[b].number in deleted then files else files + [base[b]])
  {
    hide BySmallest, Equivalent, SavedLevel;
    var f := base[b];
    assert base[..b + 1] == base[..b] + [f];
    BaseGoesFirst(base, added, b, a);
    SavedGrows(Files(base[..b]), deleted, Files(added[..a]), files, f);
    assert Files(base[..b + 1]) == Files(base[..b]) + {f};
  }

  lemma TakeAddedFile(base: seq<File>, added: seq<File>, deleted: set<nat>, b: nat, a: nat, files: seq<File>)
    requires SortedBySmallest(base) && SortedBySmallest(added)
    requires Merged(base, added, deleted, b, a, files) && a < |added|
    requires b < |base| ==> BySmallest(added[a], base[b])
    ensures Merged(base, added, deleted, b, a + 1, if added[a].number in deleted then files else files + [added[a]])
  {
    hide BySmallest, Equivalent, SavedLevel;
    var f := added[a];
    assert added[..a + 1] == added[..a] + [f];
    forall j | b <= j < |base| ensures BySmallest(f, base[j]) {
      BySmallestIsOrder(f, base[b], base[j]);
    }
    SavedGrows(Files(base[..b]), deleted, Files(added[..a]), files, f);
    assert Files(added[..a + 1]) == Files(added[..a]) + {f};
  }

  lemma SavedGrows(base: set<File>, deleted: set<nat>, added: set<File>, files: seq<File>, f: File)
    requires SavedLevel(base, deleted, added, files)
    requires forall i :: 0 <= i < |files| ==> BySmallest(files[i], f)
    ensures var r := if f.number in deleted then files else files + [f];
      SavedLevel(base + {f}, deleted, added, r) && SavedLevel(base, deleted, added + {f}, r)
  {
    assert Files(files + [f]) == Files(files) + {f};
  }

  // ----- replaying a manifest -----------------------------------------------------------

  const EMPTY_VERSION: Version := [[], [], [], [], [], [], []]

  ghost function ReplayAdded(edits: seq<VersionEdit>, l: nat): set<File> {
    if edits == [] then {}
    else ReplayAdded(edits[..|edits| - 1], l) + AddedAt(edits[|edits| - 1].added, l)
  }

  ghost function ReplayDeleted(edits: seq<VersionEdit>, l: nat): set<nat> {
    if edits == [] then {}
    else
      var last := edits[|edits| - 1];
      ReplayDeleted(edits[..|edits| - 1], l) + DeletedAt(last, l) - NumbersAt(last.added, l)
  }

  function ReplayPointers(edits: seq<VersionEdit>): Pointers {
    if edits == [] then NO_POINTERS
    else WithPointers(ReplayPointers(edits[..|edits| - 1]), edits[|edits| - 1].compactPointers)
  }

  // What one builder over all edits saves.
  ghost predicate Replays(edits: seq<VersionEdit>, v: Version) {
    forall l :: 0 <= l < NUM_LEVELS ==> SavedLevel({}, ReplayDeleted(edits, l), ReplayAdded(edits, l), v[l])
  }

  ghost function FilesOf(added: seq<(nat, File)>): set<File> {
    set p | p in added :: p.1
  }

  ghost function FilesAdded(edits: seq<VersionEdit>): set<File> {
    if edits == [] then {} else FilesAdded(edits[..|edits| - 1]) + FilesOf(edits[|edits| - 1].added)
  }

  // A number is never given to two different files.
  ghost predicate NeverReused(edits: seq<VersionEdit>) {
    OneFilePerNumber(FilesAdded(edits))
  }

  // versions[i + 1] is what LogAndApply made of versions[i] with edits[i].
  ghost predicate StepByStep(versions: seq<Version>, edits: seq<VersionEdit>) {
    && |versions| == |edits| + 1 && versions[0] == EMPTY_VERSION
    && forall i :: 0 <= i < |edits| ==> Applied(versions[i], edits[i], versions[i + 1])
  }

  lemma {:induction false} AddedIsAdded(edits: seq<VersionEdit>, l: nat)
    ensures ReplayAdded(edits, l) <= FilesAdded(edits)
  {
    if edits != [] { AddedIsAdded(edits[..|edits| - 1], l); }
  }

  lemma {:induction false} AddedGrows(edits: seq<VersionEdit>, n: nat)
    requires n <= |edits|
    ensures FilesAdded(edits[..n]) <= FilesAdded(edits)
  {
    if n < |edits| {
      AddedGrows(edits[..|edits| - 1], n);
      assert edits[..|edits| - 1][..n] == edits[..n];
    } else {
      assert edits[..n] == edits;
    }
  }

  lemma NothingReplays()
    ensures Replays([], EMPTY_VERSION)
  {
  }

  // One more edit, applied to the version, is one more edit replayed.
  lemma ReplayExtends(edits: seq<VersionEdit>, v: Version, edit: VersionEdit, v': Version)
    requires Replays(edits, v) && Applied(v, edit, v') && NeverReused(edits + [edit])
    ensures Replays(edits + [edit], v')
  {
    hide SavedLevel, OneFilePerNumber;
    var longer := edits + [edit];
    assert longer[..|edits|] == edits;
    forall l | 0 <= l < NUM_LEVELS
      ensures SavedLevel({}, ReplayDeleted(longer, l), ReplayAdded(longer, l), v'[l])
    {
      AddedIsAdded(longer, l);
      PartIsOnePerNumber(ReplayAdded(longer, l), FilesAdded(longer));
      ReplayStep(v[l], edit, l, ReplayDeleted(edits, l), ReplayAdded(edits, l), v'[l]);
    }
  }

  lemma FewerNeverReused(edits: seq<VersionEdit>, n: nat)
    requires NeverReused(edits) && n <= |edits|
    ensures NeverReused(edits[..n])
  {
    AddedGrows(edits, n);
    PartIsOnePerNumber(FilesAdded(edits[..n]), FilesAdded(edits));
  }

  // One builder over all edits ends with the version that applying the edits
  // one version at a time ends with.
  lemma {:induction false} ReplayIsStepwise(versions: seq<Version>, edits: seq<VersionEdit>)
    requires StepByStep(versions, edits) && NeverReused(edits)
    ensures Replays(edits, versions[|edits|])
  {
    hide Replays, Applied, NeverReused;
    if edits == [] {
      NothingReplays();
    } else {
      var n := |edits| - 1;
      FewerNeverReused(edits, n);
      ReplayIsStepwise(versions[..n + 1], edits[..n]);
      assert edits[..n] + [edits[n]] == edits;
      ReplayExtends(edits[..n], versions[n], edits[n], versions[n + 1]);
    }
  }

  // A list of edits gives one version.
  lemma ReplayIsUnique(edits: seq<VersionEdit>, v: Version, w: Version)
    requires Replays(edits, v) && Replays(edits, w)
    ensures v == w
  {
    forall l | 0 <= l < NUM_LEVELS ensures v[l] == w[l] {
      SortedIsUnique(v[l], w[l]);
    }
  }

  lemma ReplayStep(before: seq<File>, edit: VersionEdit, l: nat, deleted: set<nat>, added: set<File>, after: seq<File>)
    requires SavedLevel({}, deleted, added, before)
    requires SavedLevel(Files(before), DeletedAt(edit, l) - NumbersAt(edit.added, l), AddedAt(edit.added, l), after)
    requires OneFilePerNumber(added + AddedAt(edit.added, l))
    ensures SavedLevel({}, deleted + DeletedAt(edit, l) - NumbersAt(edit.added, l),
                       added + AddedAt(edit.added, l), after)
  {
    var A, N, D := AddedAt(edit.added, l), NumbersAt(edit.added, l), DeletedAt(edit, l);
    forall f | f in added + A
      ensures f in after <==> f.number !in deleted + D - N
    {
      assert f in Files(after) <==> f in Files(before) + A && f.number !in D - N;
      assert f in Files(before) <==> f in added && f.number !in deleted;
      if f.number in N {
        var p :| p in edit.added && p.0 == l && p.1.number == f.number;
        assert p.1 in A;
      } else {
        assert forall p :: p in edit.added && p.0 == l ==> p.1.number in N;
        assert f !in A;
      }
    }
    assert forall f :: f in Files(after) ==> f in added + A;
  }

  // VersionSet::Recover: one builder over every edit of the manifest.  overlap
  // tells whether a check on the levels above 0 would fire.
  method ReplayManifest(edits: seq<VersionEdit>)
    returns (v: Version, pointers: Pointers, numbers: Numbers, overlap: bool)
    requires forall i :: 0 <= i < |edits| ==> ValidEdit(edits[i])
    requires NeverReused(edits)
    ensures Replays(edits, v) && pointers == ReplayPointers(edits) && numbers == NumbersOf(edits)
    ensures !overlap <==> forall l :: 0 < l < NUM_LEVELS ==> AdjacentDisjoint(v[l])
  {
    hide WithPointers, SavedLevel, SortedBySmallest, BySmallest, OneFilePerNumber, AdjacentDisjoint;
    var builder := new Builder(EMPTY_VERSION, NO_POINTERS);
    numbers := Numbers(None, None, None, None);
    assert edits[..0] == [];
    for i := 0 to |edits|
      invariant builder.Valid() && fresh(builder) && builder.base == EMPTY_VERSION
      invariant Built(builder, edits[..i]) && numbers == NumbersOf(edits[..i])
    {
      BuilderTakes(builder, edits, i);
      builder.Apply(edits[i]);
      numbers := NumbersAfter(numbers, edits[i]);
      assert edits[..i + 1][..i] == edits[..i];
    }
    assert edits[..|edits|] == edits;
    NothingClashes(builder.levels);
    v, overlap := builder.SaveTo();
    pointers := builder.compactPointers;
  }

  // The builder after some edits.
  ghost predicate Built(builder: Builder, edits: seq<VersionEdit>)
    reads builder
  {
    && builder.Valid() && builder.compactPointers == ReplayPointers(edits)
    && (forall l :: 0 <= l < NUM_LEVELS ==> builder.levels[l].deleted == ReplayDeleted(edits, l))
    && (forall l :: 0 <= l < NUM_LEVELS ==> Files(builder.levels[l].added) == ReplayAdded(edits, l))
  }

  lemma BuilderTakes(builder: Builder, edits: seq<VersionEdit>, i: nat)
    requires i < |edits| && Built(builder, edits[..i]) && NeverReused(edits)
    ensures forall l :: 0 <= l < NUM_LEVELS ==>
      OneFilePerNumber(Files(builder.levels[l].added) + AddedAt(edits[i].added, l))
  {
    hide OneFilePerNumber, WithPointers;
    var next := edits[..i + 1];
    assert next[..i] == edits[..i];
    AddedGrows(edits, i + 1);
    forall l | 0 <= l < NUM_LEVELS
      ensures OneFilePerNumber(Files(builder.levels[l].added) + AddedAt(edits[i].added, l))
    {
      AddedIsAdded(next, l);
      assert ReplayAdded(next, l) == ReplayAdded(edits[..i], l) + AddedAt(next[i].added, l);
      PartIsOnePerNumber(ReplayAdded(next, l), FilesAdded(edits));
    }
  }

  lemma NothingClashes(levels: seq<LevelState>)
    requires |levels| == NUM_LEVELS
    ensures forall l :: 0 <= l < NUM_LEVELS ==>
      SortedBySmallest(EMPTY_VERSION[l]) && Files(EMPTY_VERSION[l]) == {} && NoClash({}, Files(levels[l].added))
  {
    forall l | 0 <= l < NUM_LEVELS ensures EMPTY_VERSION[l] == [] {}
  }

  // ----- what a record says besides the files -------------------------------------------

  // What the last record of a manifest says besides the version.
  datatype Manifest = Manifest(logNumber: nat, nextFile: nat, lastSequence: nat)

  // What Recover needs to find.
  function FoundNumbers(edits: seq<VersionEdit>): Option<Manifest> {
    var n := NumbersOf(edits);
    if n.nextFile.None? || n.logNumber.None? || n.lastSequence.None? then None
    else Some(Manifest(n.logNumber.value, n.nextFile.value, n.lastSequence.value))
  }

  // LogAndApply puts the numbers into every edit.
  function Stamped(edit: VersionEdit, m: Manifest): VersionEdit {
    edit.(logNumber := Some(m.logNumber), prevLogNumber := Some(0), nextFile := Some(m.nextFile),
          lastSequence := Some(m.lastSequence))
  }

  lemma StampedNumbers(edits: seq<VersionEdit>, edit: VersionEdit, m: Manifest)
    ensures NumbersOf(edits + [Stamped(edit, m)]) ==
      Numbers(Some(m.logNumber), Some(0), Some(m.nextFile), Some(m.lastSequence))
    ensures FoundNumbers(edits + [Stamped(edit, m)]) == Some(m)
    ensures ValidEdit(edit) ==> ValidEdit(Stamped(edit, m))
    ensures forall v, v' :: Applied(v, edit, v') ==> Applied(v, Stamped(edit, m), v')
    ensures FilesAdded(edits + [Stamped(edit, m)]) == FilesAdded(edits) + FilesOf(edit.added)
  {
    var longer := edits + [Stamped(edit, m)];
    assert longer[..|edits|] == edits;
    hide SavedLevel;
  }

  // ----- snapshots -----------------------------------------------------------------------

  function AtLevel(l: nat, files: seq<File>): seq<(nat, File)> {
    seq(|files|, i requires 0 <= i < |files| => (l, files[i]))
  }

  // The files of the first n levels.
  function SnapshotFiles(v: Version, n: nat): seq<(nat, File)>
    requires n <= NUM_LEVELS
  {
    if n == 0 then [] else SnapshotFiles(v, n - 1) + AtLevel(n - 1, v[n - 1])
  }

  function SnapshotPointers(ps: Pointers, n: nat): seq<(nat, InternalKey)>
    requires n <= NUM_LEVELS
  {
    if n == 0 then []
    else SnapshotPointers(ps, n - 1) + if ps[n - 1].Some? then [(n - 1, ps[n - 1].value)] else []
  }

  // The edit at the head of a new manifest.
  function SnapshotEdit(comparator: Bytes, ps: Pointers, v: Version): VersionEdit {
    Edit(Some(comparator), None, None, None, None, SnapshotPointers(ps, NUM_LEVELS), {}, SnapshotFiles(v, NUM_LEVELS))
  }

  lemma FilesAtLevel(l: nat, files: seq<File>)
    ensures FilesOf(AtLevel(l, files)) == Files(files)
    ensures forall m: nat :: AddedAt(AtLevel(l, files), m) == if m == l then Files(files) else {}
  {
    var added := AtLevel(l, files);
    forall f | f in files ensures (l, f) in added {
      var i :| 0 <= i < |files| && files[i] == f;
      assert added[i] == (l, f);
    }
    assert forall p :: p in added ==> p.0 == l && p.1 in files;
    forall m: nat ensures AddedAt(added, m) == if m == l then Files(files) else {} {
      forall f | f in Files(files) ensures m == l ==> f in AddedAt(added, m) {
        assert (l, f) in added;
      }
    }
    forall f | f in Files(files) ensures f in FilesOf(added) {
      assert (l, f) in added;
    }
  }

  lemma AddedConcat(a: seq<(nat, File)>, b: seq<(nat, File)>)
    ensures FilesOf(a + b) == FilesOf(a) + FilesOf(b)
    ensures forall l: nat :: AddedAt(a + b, l) == AddedAt(a, l) + AddedAt(b, l)
  {
    assert forall p :: p in a + b <==> p in a || p in b;
  }

  lemma {:induction false} SnapshotAdds(v: Version, n: nat, l: nat)
    requires n <= NUM_LEVELS
    ensures AddedAt(SnapshotFiles(v, n), l) == if l < n then Files(v[l]) else {}
    ensures forall i :: 0 <= i < |SnapshotFiles(v, n)| ==> SnapshotFiles(v, n)[i].0 < n
  {
    if n > 0 {
      SnapshotAdds(v, n - 1, l);
      AddedConcat(SnapshotFiles(v, n - 1), AtLevel(n - 1, v[n - 1]));
      FilesAtLevel(n - 1, v[n - 1]);
      hide AddedAt, Files;
    }
  }

  lemma {:induction false} SnapshotHasFiles(v: Version, n: nat)
    requires n <= NUM_LEVELS
    ensures forall f :: f in FilesOf(SnapshotFiles(v, n)) <==> exists l :: 0 <= l < n && f in v[l]
  {
    if n > 0 {
      SnapshotHasFiles(v, n - 1);
      AddedConcat(SnapshotFiles(v, n - 1), AtLevel(n - 1, v[n - 1]));
      FilesAtLevel(n - 1, v[n - 1]);
      hide AddedAt, FilesOf, AtLevel, SnapshotFiles;
      forall f ensures f in FilesOf(SnapshotFiles(v, n)) <==> exists l :: 0 <= l < n && f in v[l] {
        if exists l :: 0 <= l < n && f in v[l] {
          var l :| 0 <= l < n && f in v[l];
          assert l < n - 1 || f in Files(v[n - 1]);
        }
      }
    }
  }

  lemma {:induction false} PointersConcat(ps: Pointers, a: seq<(nat, InternalKey)>, b: seq<(nat, InternalKey)>)
    ensures WithPointers(ps, a + b) == WithPointers(WithPointers(ps, a), b)
  {
    if b == [] {
      assert a + b == a;
    } else {
      PointersConcat(ps, a, b[..|b| - 1]);
      assert (a + b)[..|a + b| - 1] == a + b[..|b| - 1];
    }
  }

  lemma {:induction false} SnapshotSetsPointers(ps: Pointers, n: nat)
    requires n <= NUM_LEVELS
    ensures WithPointers(NO_POINTERS, SnapshotPointers(ps, n)) == ps[..n] + NO_POINTERS[n..]
    ensures forall i :: 0 <= i < |SnapshotPointers(ps, n)| ==> SnapshotPointers(ps, n)[i].0 < n
  {
    if n > 0 {
      SnapshotSetsPointers(ps, n - 1);
      var more: seq<(nat, InternalKey)> := if ps[n - 1].Some? then [(n - 1, ps[n - 1].value)] else [];
      PointersConcat(NO_POINTERS, SnapshotPointers(ps, n - 1), more);
      var before := ps[..n - 1] + NO_POINTERS[n - 1..];
      PointerSet(before, more);
      hide WithPointers, SnapshotPointers;
      OnePointerMore(ps, n);
    }
  }

  lemma OnePointerMore(ps: Pointers, n: nat)
    requires 0 < n <= NUM_LEVELS
    ensures ps[..n] + NO_POINTERS[n..] ==
      var before := ps[..n - 1] + NO_POINTERS[n - 1..];
      if ps[n - 1].Some? then before[n - 1 := ps[n - 1]] else before
  {
    var r, before := ps[..n] + NO_POINTERS[n..], ps[..n - 1] + NO_POINTERS[n - 1..];
    forall i | 0 <= i < NUM_LEVELS && i != n - 1 ensures r[i] == before[i] {}
    assert NO_POINTERS[n - 1] == None && before[n - 1] == None;
  }

  lemma PointerSet(ps: Pointers, more: seq<(nat, InternalKey)>)
    requires |more| <= 1 && forall i :: 0 <= i < |more| ==> more[i].0 < NUM_LEVELS
    ensures WithPointers(ps, more) == if more == [] then ps else ps[more[0].0 := Some(more[0].1)]
  {
    if more != [] { assert more[..0] == []; }
  }

  // A manifest that begins with a snapshot replays to its version and pointers.
  lemma SnapshotReplays(comparator: Bytes, ps: Pointers, v: Version)
    requires forall l :: 0 <= l < NUM_LEVELS ==> SortedBySmallest(v[l])
    ensures var edit := SnapshotEdit(comparator, ps, v);
      && ValidEdit(edit) && Applied(EMPTY_VERSION, edit, v) && Replays([edit], v) && ReplayPointers([edit]) == ps
      && forall f :: f in FilesAdded([edit]) <==> exists l :: 0 <= l < NUM_LEVELS && f in v[l]
  {
    hide SnapshotFiles, SnapshotPointers, WithPointers, BySmallest, SortedBySmallest, FilesOf;
    var edit := SnapshotEdit(comparator, ps, v);
    SnapshotSetsPointers(ps, NUM_LEVELS);
    SnapshotHasFiles(v, NUM_LEVELS);
    assert ps[..NUM_LEVELS] + NO_POINTERS[NUM_LEVELS..] == ps;
    assert [edit][..0] == [];
    assert {} + FilesOf(edit.added) == FilesOf(edit.added);
    SnapshotAdds(v, NUM_LEVELS, 0);
    forall l | 0 <= l < NUM_LEVELS
      ensures EMPTY_VERSION[l] == [] && DeletedAt(edit, l) == {}
      ensures SavedLevel({}, {}, AddedAt(edit.added, l), v[l])
    {
      SnapshotAdds(v, NUM_LEVELS, l);
    }
    OneEditReplays(edit, v);
  }

  lemma OneEditReplays(edit: VersionEdit, v: Version)
    requires edit.deleted == {} && forall l :: 0 <= l < NUM_LEVELS ==> SavedLevel({}, {}, AddedAt(edit.added, l), v[l])
    ensures Replays([edit], v)
  {
    hide SavedLevel, AddedAt;
    assert [edit][..0] == [];
    forall l | 0 <= l < NUM_LEVELS ensures SavedLevel({}, ReplayDeleted([edit], l), ReplayAdded([edit], l), v[l]) {
      assert ReplayAdded([edit], l) == {} + AddedAt(edit.added, l) == AddedAt(edit.added, l);
      assert ReplayDeleted([edit], l) == {};
    }
  }

  // VersionSet::WriteSnapshot.
  method WriteSnapshot(comparator: Bytes, ps: Pointers, v: Version) returns (edit: VersionEdit)
    ensures edit == SnapshotEdit(comparator, ps, v)
  {
    var pointers: seq<(nat, InternalKey)> := [];
    for l := 0 to NUM_LEVELS
      invariant pointers == SnapshotPointers(ps, l)
    {
      if ps[l].Some? { pointers := pointers + [(l, ps[l].value)]; }
    }
    var added: seq<(nat, File)> := [];
    for l := 0 to NUM_LEVELS
      invariant added == SnapshotFiles(v, l)
    {
      ghost var before := added;
      for i := 0 to |v[l]|
        invariant added == before + AtLevel(l, v[l])[..i]
      {
        added := added + [(l, v[l][i])];
      }
      assert AtLevel(l, v[l])[..|v[l]|] == AtLevel(l, v[l]);
    }
    edit := Edit(Some(comparator), None, None, None, None, pointers, {}, added);
  }

  // The check of neighbours decides whether any two files of a level overlap.
  lemma {:induction false} NeighboursDecide(files: seq<File>)
    requires ValidFiles(files)
    ensures AdjacentDisjoint(files) <==> SortedDisjoint(files)
  {
    if |files| > 1 {
      var n := |files| - 1;
      NeighboursDecide(files[..n]);
      if AdjacentDisjoint(files) {
        assert AdjacentDisjoint(files[..n]);
        forall i | 0 <= i < n ensures Less(files[i].largest, files[n].smallest) {
          SmallestBeforeLargest(files[n - 1]);
          assert i < n - 1 ==> Less(files[..n][i].largest, files[..n][n - 1].smallest);
        }
      }
    }
  }
}
