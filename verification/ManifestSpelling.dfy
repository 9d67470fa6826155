/**
 The manifest of every state that a run reaches can be written in bytes: its user
 keys have names, by the files and the first pointers they occur in, from which
 their ranks and the contents of the tables can be told.
 */
module ManifestSpelling {
  import opened Basics
  import opened Coding
  import opened InternalKeys
  import opened Tables
  import opened CompactionPicking
  import opened VersionEdits
  import opened VersionBuilder
  import opened VersionSteps
  import opened EditSteps
  import opened Store
  import opened StoreInvariant
  import opened StoreRuns
  import opened LogFormat
  import opened LogReader
  import opened LogRoundTrip
  import opened ManifestRecovery

  // ----- the keys of a manifest ------------------------------------------------------------

  // A pointer in a record but the first is the largest key of a file of the manifest.
  ghost predicate PointersKnown(edits: seq<VersionEdit>) {
    && edits != [] && |edits[0].compactPointers| <= NUM_LEVELS
    && forall i :: 1 <= i < |edits| ==> PointersIn(edits[i], FilesAdded(edits))
  }

  ghost predicate PointersIn(edit: VersionEdit, files: set<File>) {
    forall j :: 0 <= j < |edit.compactPointers| ==> IsLargest(files, edit.compactPointers[j].1)
  }

  ghost predicate IsLargest(files: set<File>, k: InternalKey) {
    exists f :: f in files && f.largest == k
  }

  lemma RecordKeepsPointers(edits: seq<VersionEdit>, edit: VersionEdit)
    requires PointersKnown(edits) && PointersIn(edit, FilesAdded(edits + [edit]))
    ensures PointersKnown(edits + [edit])
  {
    var longer := edits + [edit];
    assert longer[..|edits|] == edits;
    assert FilesAdded(edits) <= FilesAdded(longer);
    hide FilesAdded;
    forall i | 1 <= i < |longer| ensures PointersIn(longer[i], FilesAdded(longer)) {
      if i < |edits| {
        assert longer[i] == edits[i];
        MoreFiles(edits[i], FilesAdded(edits), FilesAdded(longer));
      }
    }
  }

  lemma MoreFiles(edit: VersionEdit, few: set<File>, files: set<File>)
    requires PointersIn(edit, few) && few <= files
    ensures PointersIn(edit, files)
  {
    forall j | 0 <= j < |edit.compactPointers| ensures IsLargest(files, edit.compactPointers[j].1) {
      assert IsLargest(few, edit.compactPointers[j].1);
    }
  }

  lemma AddEditKeepsPointers(edits: seq<VersionEdit>, level: nat, tables: seq<File>, m: Manifest)
    requires PointersKnown(edits)
    ensures PointersKnown(edits + [Stamped(AddEdit(level, tables), m)])
  {
    hide PointersKnown, FilesAdded, AtLevel;
    RecordKeepsPointers(edits, Stamped(AddEdit(level, tables), m));
  }

  // The pointer of a compaction is the largest key of one of its inputs.
  lemma CompactionKeepsPointers(s: State, c: Compaction, outputs: seq<File>, m: Manifest)
    requires PointersKnown(s.edits) && Replays(s.edits, s.version) && GoodCompaction(s.version, c) && EndsAtPointer(c)
    ensures PointersKnown(s.edits + [Stamped(CompactionEdit(c, outputs), m)])
  {
    var edit := Stamped(CompactionEdit(c, outputs), m);
    var longer := s.edits + [edit];
    InputIsLargest(s, c);
    assert longer[..|s.edits|] == s.edits;
    assert FilesAdded(s.edits) <= FilesAdded(longer);
    assert edit.compactPointers == [(c.level, c.compactPointer)];
    hide PointersKnown, FilesAdded, CompactionEdit, Stamped, GoodCompaction;
    RecordKeepsPointers(s.edits, edit);
  }

  lemma InputIsLargest(s: State, c: Compaction)
    requires Replays(s.edits, s.version) && GoodCompaction(s.version, c) && EndsAtPointer(c)
    ensures IsLargest(FilesAdded(s.edits), c.compactPointer)
  {
    VersionIsInManifest(s.edits, s.version, c.level);
    hide Replays, FilesAdded, OlderGoesFirst, Separated, SameUserRange;
    var f :| f in c.inputs0 && f.largest == c.compactPointer;
    assert f in Files(s.version[c.level]);
  }

  lemma {:induction false} FewPointers(ps: Pointers, n: nat)
    requires n <= NUM_LEVELS
    ensures |SnapshotPointers(ps, n)| <= n
  {
    if n > 0 { FewPointers(ps, n - 1); }
  }

  lemma NewManifestKnowsPointers(comparator: Bytes, ps: Pointers, v: Version, level: nat, tables: seq<File>,
                                 m: Manifest)
    ensures PointersKnown([SnapshotEdit(comparator, ps, v), Stamped(AddEdit(level, tables), m)])
  {
    FewPointers(ps, NUM_LEVELS);
    var snapshot := SnapshotEdit(comparator, ps, v);
    assert PointersKnown([snapshot]);
    hide PointersKnown, AddEdit, SnapshotEdit;
    AddEditKeepsPointers([snapshot], level, tables, m);
    assert [snapshot] + [Stamped(AddEdit(level, tables), m)] == [snapshot, Stamped(AddEdit(level, tables), m)];
  }

  lemma StepKeepsPointers(s: State, step: Step, s': State)
    requires Inv(s) && Next(s, step, s') && PointersKnown(s.edits)
    ensures PointersKnown(s'.edits)
  {
    CurrentReplays(s);
    hide Inv, PointersKnown, Flush, TrivialMove, Compact, CrashAndRecover, UncoversNothing, Replays, ValidEdit;
    hide NeverReused;
    match step
    case FlushStep(level, tables) => FlushKeepsPointers(s, level, tables, s');
    case MoveStep(c) => MoveKeepsPointers(s, c, s');
    case CompactStep(c, outputs) => CompactKeepsPointers(s, c, outputs, s');
    case RecoverStep(keep, base, tables) => RecoverKeepsPointers(s, keep, base, tables, s');
    case _ => assert s'.edits == s.edits;
  }

  lemma FlushKeepsPointers(s: State, level: nat, tables: seq<File>, s': State)
    requires Flush(s, level, tables, s') && PointersKnown(s.edits)
    ensures PointersKnown(s'.edits)
  {
    hide PointersKnown, FlushedTables, Applied, AddEdit, Stamped;
    AddEditKeepsPointers(s.edits, level, tables, s'.manifest);
  }

  lemma MoveKeepsPointers(s: State, c: Compaction, s': State)
    requires TrivialMove(s, c, s') && PointersKnown(s.edits) && Replays(s.edits, s.version)
    ensures PointersKnown(s'.edits)
  {
    hide PointersKnown, GoodCompaction, EndsAtPointer, Applied, CompactionEdit, Stamped, Replays;
    CompactionKeepsPointers(s, c, c.inputs0, s'.manifest);
  }

  lemma CompactKeepsPointers(s: State, c: Compaction, outputs: seq<File>, s': State)
    requires Compact(s, c, outputs, s') && PointersKnown(s.edits) && Replays(s.edits, s.version)
    ensures PointersKnown(s'.edits)
  {
    hide PointersKnown, GoodCompaction, EndsAtPointer, Applied, CompactionEdit, Stamped, Replays, CompactedOutputs;
    CompactionKeepsPointers(s, c, outputs, s'.manifest);
  }

  lemma RecoverKeepsPointers(s: State, keep: seq<nat>, base: Version, tables: seq<File>, s': State)
    requires CrashAndRecover(s, keep, base, tables, s')
    ensures PointersKnown(s'.edits)
  {
    hide PointersKnown, SnapshotEdit, AddEdit, Stamped, Applied, Replays, FoundNumbers, RecoveredTables, IsLastSequence;
    hide ReplayPointers, Truncate, LogsContents, LiveLogs, LogNumbersBelow;
    NewManifestKnowsPointers(s.comparator, ReplayPointers(s.edits), base, 0, tables, s'.manifest);
  }

  lemma CurrentReplays(s: State)
    requires Inv(s)
    ensures Replays(s.edits, s.version) && NeverReused(s.edits)
    ensures forall i :: 0 <= i < |s.edits| ==> ValidEdit(s.edits[i])
  {
    hide GoodVersion, MemoryInv, NumbersInv, TablesAgree, LogsInv, FoundNumbers, NumbersOf, Replays, NeverReused;
    hide ValidEdit;
  }

  lemma FirstPointers(s: State)
    requires Init(s)
    ensures PointersKnown(s.edits)
  {
    var m := Manifest(3, 4, 0);
    NewManifestKnowsPointers(s.comparator, NO_POINTERS, EMPTY_VERSION, 0, [], m);
    assert AddEdit(0, []) == FileEdit({}, []);
  }

  lemma {:induction false} RunKnowsPointers(states: seq<State>, steps: seq<Step>, i: nat)
    requires Run(states, steps) && i < |states|
    ensures PointersKnown(states[i].edits)
  {
    hide Init, Next, Inv, PointersKnown;
    if i == 0 {
      FirstPointers(states[0]);
    } else {
      RunKnowsPointers(states, steps, i - 1);
      RunHoldsInv(states, steps, i - 1);
      StepKeepsPointers(states[i - 1], steps[i - 1], states[i]);
    }
  }

  // ----- names -------------------------------------------------------------------------------

  // Where a user key is first found: it is an end of a file, or a first pointer.
  datatype Place = Smallest(number: nat) | Largest(number: nat) | Pointer(index: nat) | Nowhere

  datatype Keys = Keys(files: set<File>, pointers: seq<(nat, InternalKey)>)

  ghost predicate Distinct(ks: Keys) {
    && OneFilePerNumber(ks.files) && |ks.pointers| <= NUM_LEVELS
    && forall f :: f in ks.files ==> f.number < LIMIT64
  }

  ghost function FileWith(ks: Keys, number: nat): Option<File> {
    if exists f :: f in ks.files && f.number == number then
      var f :| f in ks.files && f.number == number; Some(f)
    else None
  }

  lemma FileIs(ks: Keys, f: File)
    requires Distinct(ks) && f in ks.files
    ensures FileWith(ks, f.number) == Some(f)
  {
  }

  ghost function PlaceOf(ks: Keys, u: UserKey): Place {
    if exists f :: f in ks.files && f.smallest.user == u then
      var f :| f in ks.files && f.smallest.user == u; Smallest(f.number)
    else if exists f :: f in ks.files && f.largest.user == u then
      var f :| f in ks.files && f.largest.user == u; Largest(f.number)
    else if exists i :: 0 <= i < |ks.pointers| && ks.pointers[i].1.user == u then
      var i :| 0 <= i < |ks.pointers| && ks.pointers[i].1.user == u; Pointer(i)
    else Nowhere
  }

  ghost function KeyAt(ks: Keys, p: Place): UserKey {
    match p
    case Smallest(n) => if FileWith(ks, n).Some? then FileWith(ks, n).value.smallest.user else 0.0
    case Largest(n) => if FileWith(ks, n).Some? then FileWith(ks, n).value.largest.user else 0.0
    case Pointer(i) => if i < |ks.pointers| then ks.pointers[i].1.user else 0.0
    case Nowhere => 0.0
  }

  ghost predicate IsKnown(ks: Keys, u: UserKey) {
    || (exists f :: f in ks.files && (f.smallest.user == u || f.largest.user == u))
    || (exists i :: 0 <= i < |ks.pointers| && ks.pointers[i].1.user == u)
  }

  lemma PlaceIsRight(ks: Keys, u: UserKey)
    requires Distinct(ks) && IsKnown(ks, u)
    ensures KeyAt(ks, PlaceOf(ks, u)) == u && !PlaceOf(ks, u).Nowhere? && PlaceFits(PlaceOf(ks, u))
  {
    hide FileWith;
    if exists f :: f in ks.files && f.smallest.user == u {
      var f :| f in ks.files && f.smallest.user == u && PlaceOf(ks, u) == Smallest(f.number);
      FileIs(ks, f);
    } else if exists f :: f in ks.files && f.largest.user == u {
      var f :| f in ks.files && f.largest.user == u && PlaceOf(ks, u) == Largest(f.number);
      FileIs(ks, f);
    }
  }

  predicate PlaceFits(p: Place) {
    match p
    case Smallest(n) => n < LIMIT64
    case Largest(n) => n < LIMIT64
    case Pointer(i) => i < LIMIT64
    case Nowhere => true
  }

  // A place as nine bytes.
  function NameOf(p: Place): Bytes {
    match p
    case Smallest(n) => [0] + Fixed64(n)
    case Largest(n) => [1] + Fixed64(n)
    case Pointer(i) => [2] + Fixed64(i)
    case Nowhere => []
  }

  function PlaceNamed(name: Bytes): Place {
    if |name| != 9 then Nowhere
    else if name[0] == 0 then Smallest(DecodeFixed64(name, 1))
    else if name[0] == 1 then Largest(DecodeFixed64(name, 1))
    else Pointer(DecodeFixed64(name, 1))
  }

  lemma NameIsRead(p: Place)
    requires PlaceFits(p)
    ensures PlaceNamed(NameOf(p)) == p && |NameOf(p)| <= 9
  {
    hide Fixed64, DecodeFixed64, Holds;
    if !p.Nowhere? {
      var n := match p case Smallest(n) => n case Largest(n) => n case Pointer(i) => i case Nowhere => 0;
      var kind: Byte := match p case Smallest(_) => 0 case Largest(_) => 1 case Pointer(_) => 2 case Nowhere => 0;
      FixedIsEight(n);
      assert NameOf(p) == [kind] + Fixed64(n);
      EndHolds([kind], Fixed64(n));
      Fixed64RoundTrips(NameOf(p), 1, n);
    }
  }

  // ----- a spelling --------------------------------------------------------------------------

  ghost function Spell(ks: Keys, k: InternalKey): Bytes {
    InternalKeyBytes(NameOf(PlaceOf(ks, k.user)), k.sequence, k.typ)
  }

  ghost function ContentsOf(ks: Keys, number: nat): seq<Entry> {
    var f := FileWith(ks, number);
    if f.Some? then f.value.entries else []
  }

  ghost function MeaningsOf(ks: Keys): Meanings {
    Meanings((name: Bytes) => KeyAt(ks, PlaceNamed(name)), (number: nat) => ContentsOf(ks, number))
  }

  lemma KeyIsSpelled(ks: Keys, k: InternalKey)
    requires Distinct(ks) && IsKnown(ks, k.user)
    ensures KeyOf(MeaningsOf(ks), Spell(ks, k)) == Some(k) && |Spell(ks, k)| <= 17
  {
    hide Distinct, IsKnown, KeyAt, PlaceOf, NameOf, PlaceNamed, ParseInternalKey, Fixed64;
    PlaceIsRight(ks, k.user);
    NameIsRead(PlaceOf(ks, k.user));
    KeyRoundTrips(NameOf(PlaceOf(ks, k.user)), k.sequence, k.typ);
    FixedIsEight(PackSequenceAndType(k.sequence, k.typ));
  }

  // The numbers have 64 bits, and the name of the comparator is short enough.
  ghost predicate NumbersFit(e: VersionEdit) {
    && (e.comparator.Some? ==> |e.comparator.value| < LIMIT32)
    && NumberFits(e.logNumber) && NumberFits(e.prevLogNumber) && NumberFits(e.nextFile) && NumberFits(e.lastSequence)
    && (forall p :: p in e.deleted ==> p.1 < LIMIT64)
    && (forall i :: 0 <= i < |e.added| ==> e.added[i].1.number < LIMIT64 && e.added[i].1.size < LIMIT64)
  }

  // The files and keys of an edit are among those of the manifest.
  ghost predicate Covers(ks: Keys, e: VersionEdit) {
    && (forall i :: 0 <= i < |e.added| ==> e.added[i].1 in ks.files)
    && (forall j :: 0 <= j < |e.compactPointers| ==> IsKnown(ks, e.compactPointers[j].1.user))
  }

  ghost function SpelledEdit(ks: Keys, e: VersionEdit): EditRecord {
    Spelled(e, (k: InternalKey) => Spell(ks, k))
  }

  lemma EditIsSpelled(ks: Keys, e: VersionEdit)
    requires Distinct(ks) && Covers(ks, e) && NumbersFit(e) && ValidEdit(e)
    ensures KeysParse(SpelledEdit(ks, e)) && Meaning(MeaningsOf(ks), SpelledEdit(ks, e)) == e
    ensures Fits(SpelledEdit(ks, e))
  {
    var m, spell := MeaningsOf(ks), (k: InternalKey) => Spell(ks, k);
    forall i | 0 <= i < |e.added|
      ensures var f := e.added[i].1;
        && IsSpelled(m, spell, f.smallest) && IsSpelled(m, spell, f.largest) && m.contents(f.number) == f.entries
        && |spell(f.smallest)| <= 17 && |spell(f.largest)| <= 17
    {
      FileIsSpelled(ks, e.added[i].1);
    }
    forall j | 0 <= j < |e.compactPointers|
      ensures IsSpelled(m, spell, e.compactPointers[j].1) && |spell(e.compactPointers[j].1)| <= 17
    {
      KeyIsSpelled(ks, e.compactPointers[j].1);
    }
    hide Distinct, MeaningsOf, Spell, IsSpelled, Covers, IsKnown, NumbersFit, ValidEdit, KeysParse, Meaning, Fits;
    hide Spelled;
    SpelledMeans(m, e, spell);
    SpelledFits(e, spell);
  }

  lemma SpelledFits(e: VersionEdit, spell: InternalKey -> Bytes)
    requires NumbersFit(e) && ValidEdit(e)
    requires forall i :: 0 <= i < |e.added| ==>
      |spell(e.added[i].1.smallest)| <= 17 && |spell(e.added[i].1.largest)| <= 17
    requires forall j :: 0 <= j < |e.compactPointers| ==> |spell(e.compactPointers[j].1)| <= 17
    ensures Fits(Spelled(e, spell))
  {
  }

  lemma FileIsSpelled(ks: Keys, f: File)
    requires Distinct(ks) && f in ks.files
    ensures var m := MeaningsOf(ks);
      && KeyOf(m, Spell(ks, f.smallest)) == Some(f.smallest) && KeyOf(m, Spell(ks, f.largest)) == Some(f.largest)
      && |Spell(ks, f.smallest)| <= 17 && |Spell(ks, f.largest)| <= 17 && m.contents(f.number) == f.entries
  {
    FileIs(ks, f);
    assert IsKnown(ks, f.smallest.user) && IsKnown(ks, f.largest.user);
    KeyIsSpelled(ks, f.smallest);
    KeyIsSpelled(ks, f.largest);
  }

  // ----- every manifest --------------------------------------------------------------------------

  lemma {:induction false} AddedFilesAre(edits: seq<VersionEdit>, i: nat)
    requires i < |edits|
    ensures FilesOf(edits[i].added) <= FilesAdded(edits)
  {
    if i < |edits| - 1 {
      AddedFilesAre(edits[..|edits| - 1], i);
    }
  }

  lemma {:induction false} FileNumbersFit(edits: seq<VersionEdit>)
    requires forall i :: 0 <= i < |edits| ==> NumbersFit(edits[i])
    ensures forall f :: f in FilesAdded(edits) ==> f.number < LIMIT64
  {
    if edits != [] {
      var n := |edits| - 1;
      FileNumbersFit(edits[..n]);
      forall f | f in FilesOf(edits[n].added) ensures f.number < LIMIT64 {
        var p :| p in edits[n].added && p.1 == f;
        var j :| 0 <= j < |edits[n].added| && edits[n].added[j] == p;
      }
    }
  }

  ghost function KeysOf(edits: seq<VersionEdit>): Keys
    requires edits != []
  {
    Keys(FilesAdded(edits), edits[0].compactPointers)
  }

  lemma EditIsCovered(edits: seq<VersionEdit>, i: nat)
    requires PointersKnown(edits) && i < |edits|
    ensures Covers(KeysOf(edits), edits[i])
  {
    var ks, e := KeysOf(edits), edits[i];
    AddedFilesAre(edits, i);
    hide FilesAdded;
    forall j | 0 <= j < |e.added| ensures e.added[j].1 in ks.files {
      assert e.added[j] in e.added;
    }
    forall j | 0 <= j < |e.compactPointers| ensures IsKnown(ks, e.compactPointers[j].1.user) {
      if i == 0 {
        assert ks.pointers[j].1.user == e.compactPointers[j].1.user;
      } else {
        assert PointersIn(e, FilesAdded(edits));
        assert IsLargest(ks.files, e.compactPointers[j].1);
        var f :| f in ks.files && f.largest == e.compactPointers[j].1;
      }
    }
  }

  lemma KeysAreDistinct(edits: seq<VersionEdit>)
    requires PointersKnown(edits) && NeverReused(edits) && forall i :: 0 <= i < |edits| ==> NumbersFit(edits[i])
    ensures Distinct(KeysOf(edits))
  {
    FileNumbersFit(edits);
    hide FilesAdded, NumbersFit;
  }

  // In every state of every run whose numbers fit their 64 bits there are byte
  // records that stand for the edits of the manifest, and their encodings.
  lemma ManifestIsSpelled(states: seq<State>, steps: seq<Step>, i: nat)
    returns (m: Meanings, rs: seq<EditRecord>, records: seq<Bytes>)
    requires Run(states, steps) && i < |states|
    requires forall k :: 0 <= k < |states[i].edits| ==> NumbersFit(states[i].edits[k])
    ensures Encoded(rs, records) && (forall k :: 0 <= k < |rs| ==> KeysParse(rs[k]))
    ensures MeaningOfAll(m, rs) == states[i].edits
  {
    var edits := states[i].edits;
    RunHoldsInv(states, steps, i);
    RunKnowsPointers(states, steps, i);
    CurrentReplays(states[i]);
    hide *;
    m, rs, records := EditsAreSpelled(edits);
  }

  lemma EditsAreSpelled(edits: seq<VersionEdit>) returns (m: Meanings, rs: seq<EditRecord>, records: seq<Bytes>)
    requires forall k :: 0 <= k < |edits| ==> NumbersFit(edits[k]) && ValidEdit(edits[k])
    requires PointersKnown(edits) && NeverReused(edits)
    ensures Encoded(rs, records) && (forall k :: 0 <= k < |rs| ==> KeysParse(rs[k])) && MeaningOfAll(m, rs) == edits
  {
    KeysAreDistinct(edits);
    var ks := KeysOf(edits);
    m := MeaningsOf(ks);
    hide PointersKnown, NeverReused, Distinct, NumbersFit, ValidEdit, SpelledEdit, KeysParse, Meaning, Fits, EncodeEdit;
    hide Covers;
    hide KeysOf, MeaningsOf, FilesAdded;
    rs := seq(|edits|, k requires 0 <= k < |edits| => SpelledEdit(ks, edits[k]));
    records := seq(|rs|, k requires 0 <= k < |rs| => EncodeEdit(rs[k]));
    forall k | 0 <= k < |edits| ensures KeysParse(rs[k]) && Meaning(m, rs[k]) == edits[k] && Fits(rs[k]) {
      EditIsCovered(edits, k);
      EditIsSpelled(ks, edits[k]);
    }
    assert MeaningOfAll(m, rs) == edits;
  }

  // So every manifest can be written, and whatever is cut off a record behind it,
  // recovering its bytes gives the state it was written for.
  lemma WrittenManifestRecovers(states: seq<State>, steps: seq<Step>, i: nat, crc: Checksum, next: Bytes)
    returns (m: Meanings, rs: seq<EditRecord>, records: seq<Bytes>)
    requires Run(states, steps) && i < |states|
    requires forall k :: 0 <= k < |states[i].edits| ==> NumbersFit(states[i].edits[k])
    ensures Encoded(rs, records) && (forall k :: 0 <= k < |rs| ==> KeysParse(rs[k]))
    ensures MeaningOfAll(m, rs) == states[i].edits
    ensures LogLength(crc, records) < LogLength(crc, records + [next])
    ensures forall cut: nat :: LogLength(crc, records) <= cut < LogLength(crc, records + [next]) ==>
      RecoversTo(m, rs, states[i].comparator, Scan(crc, EncodeAll(crc, records + [next])[..cut], 0, None),
        StateOf(states[i]))
  {
    hide Run, NumbersFit, Encoded, KeysParse, RecoversTo, StateOf, Scan, EncodeAll;
    m, rs, records := ManifestIsSpelled(states, steps, i);
    LogIsLonger(crc, records, next);
    forall cut: nat | LogLength(crc, records) <= cut < LogLength(crc, records + [next])
      ensures RecoversTo(m, rs, states[i].comparator, Scan(crc, EncodeAll(crc, records + [next])[..cut], 0, None),
        StateOf(states[i]))
    {
      ManifestRecovers(states, steps, i, m, rs, crc, records, next, cut);
    }
  }

  lemma LogIsLonger(crc: Checksum, records: seq<Bytes>, next: Bytes)
    ensures LogLength(crc, records) < LogLength(crc, records + [next])
  {
    assert (records + [next])[..|records|] == records;
    EncodeStep(crc, LogLength(crc, records) % BLOCK_SIZE, next, true);
    hide Encode;
  }
}
