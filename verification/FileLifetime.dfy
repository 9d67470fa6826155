/**
 How long tables and versions live (db/db_impl.cc, db/version_set.cc): a state
 machine whose steps are taken with the mutex held.

 Readers hold the version they read.  The one background thread flushes and
 compacts; a flush may come in the middle of a compaction.  An edit is written
 to the manifest without the mutex: the new version is made before, and
 installed after.
 */
module FileLifetime {
  import opened Basics

  // A FileMetaData object and the number of its table; a trivial move makes a
  // new object for the same table.
  datatype Meta = Meta(id: nat, number: nat)

  datatype VersionState = VersionState(files: set<Meta>, refs: nat)

  datatype Flush = Flush(base: nat, number: nat)

  datatype Compaction = Compaction(input: nat, inputs: set<Meta>, outputs: set<nat>)

  datatype State = State(
    versions: map<nat, VersionState>,
    current: nat,
    nextVersion: nat,
    fileRefs: map<Meta, nat>,
    nextFile: nat,
    disk: set<nat>,
    pendingOutputs: set<nat>,
    readers: multiset<nat>,
    flush: Option<Flush>,
    compaction: Option<Compaction>,
    // The version whose edit is being written to the manifest
    installing: Option<nat>,
    // Whether the edit is that of the compaction
    ofCompaction: bool,
    error: bool)

  // ----- versions and references -------------------------------------------------------

  function Numbers(files: set<Meta>): set<nat> {
    set f | f in files :: f.number
  }

  // The versions that list a file.
  function Listing(versions: map<nat, VersionState>, f: Meta): set<nat> {
    set v | v in versions && f in versions[v].files
  }

  // Builder::SaveTo takes a reference to every file of the new version.
  function AddVersion(s: State, files: set<Meta>): State {
    s.(versions := s.versions[s.nextVersion := VersionState(files, 0)],
       nextVersion := s.nextVersion + 1,
       fileRefs := map f | f in s.fileRefs.Keys + files ::
         (if f in s.fileRefs then s.fileRefs[f] else 0) + if f in files then 1 else 0)
  }

  // Version::~Version drops the references; a file that has none left is forgotten.
  function RemoveVersion(s: State, v: nat): State
    requires v in s.versions
  {
    var files := s.versions[v].files;
    s.(versions := s.versions - {v},
       fileRefs := map f | f in s.fileRefs && (f in files ==> s.fileRefs[f] > 1) ::
         if f in files && s.fileRefs[f] > 0 then s.fileRefs[f] - 1 else s.fileRefs[f])
  }

  function Ref(s: State, v: nat): State
    requires v in s.versions
  {
    s.(versions := s.versions[v := s.versions[v].(refs := s.versions[v].refs + 1)])
  }

  function Unref(s: State, v: nat): State
    requires v in s.versions && s.versions[v].refs >= 1
  {
    if s.versions[v].refs == 1 then RemoveVersion(s, v)
    else s.(versions := s.versions[v := s.versions[v].(refs := s.versions[v].refs - 1)])
  }

  // DeleteObsoleteFiles on tables: keeps pending outputs and the files of
  // installed versions.
  function LiveTables(s: State): set<nat> {
    s.pendingOutputs + set v, f | v in s.versions && s.installing != Some(v) && f in s.versions[v].files :: f.number
  }

  function DeleteObsoleteFiles(s: State): State {
    if s.error then s else s.(disk := s.disk * LiveTables(s))
  }

  // ----- the steps ------------------------------------------------------------------------

  // A read or an iterator begins and ends.
  function Acquire(s: State): State
    requires s.current in s.versions
  {
    Ref(s, s.current).(readers := s.readers + multiset{s.current})
  }

  function Release(s: State, v: nat): State
    requires v in s.versions && s.versions[v].refs >= 1
  {
    Unref(s, v).(readers := s.readers - multiset{v})
  }

  // A table gets a number and is created; it is a pending output.
  function NewTable(s: State): State {
    s.(nextFile := s.nextFile + 1, pendingOutputs := s.pendingOutputs + {s.nextFile}, disk := s.disk + {s.nextFile})
  }

  function BeginFlush(s: State): State
    requires s.current in s.versions
  {
    Ref(NewTable(s), s.current).(flush := Some(Flush(s.current, s.nextFile)))
  }

  // The table is built and no longer pending; LogAndApply begins.
  function TableBuilt(s: State, id: nat): State
    requires s.flush.Some? && s.current in s.versions
    requires s.flush.value.base in s.versions && s.versions[s.flush.value.base].refs >= 1
  {
    var n := s.flush.value.number;
    var files := s.versions[s.current].files + {Meta(id, n)};
    AddVersion(Unref(s.(pendingOutputs := s.pendingOutputs - {n}, flush := None), s.flush.value.base), files)
    .(installing := Some(s.nextVersion), ofCompaction := false)
  }

  function BeginCompaction(s: State, inputs: set<Meta>): State
    requires s.current in s.versions
  {
    Ref(s, s.current).(compaction := Some(Compaction(s.current, inputs, {})))
  }

  function OpenOutput(s: State): State
    requires s.compaction.Some?
  {
    NewTable(s).(compaction := Some(s.compaction.value.(outputs := s.compaction.value.outputs + {s.nextFile})))
  }

  // LogAndApply begins for a compaction; a trivial move adds its input again.
  function BeginInstall(s: State, added: set<Meta>): State
    requires s.compaction.Some? && s.current in s.versions
  {
    AddVersion(s, s.versions[s.current].files - s.compaction.value.inputs + added)
    .(installing := Some(s.nextVersion), ofCompaction := true)
  }

  // AppendVersion makes a version current.
  function Append(s: State, v: nat): State
    requires v in s.versions && s.current in s.versions && s.versions[s.current].refs >= 1 && v != s.current
  {
    var t := Unref(s, s.current);
    Ref(t, v).(current := v, installing := None)
  }

  // CleanupCompaction and ReleaseInputs.
  function EndCompaction(s: State): State
    requires s.compaction.Some? && s.compaction.value.input in s.versions
    requires s.versions[s.compaction.value.input].refs >= 1
  {
    Unref(s, s.compaction.value.input)
    .(pendingOutputs := s.pendingOutputs - s.compaction.value.outputs, compaction := None)
  }

  // Building a table fails.
  function FailFlush(s: State): State
    requires s.flush.Some? && s.flush.value.base in s.versions && s.versions[s.flush.value.base].refs >= 1
  {
    Unref(s, s.flush.value.base)
    .(pendingOutputs := s.pendingOutputs - {s.flush.value.number}, flush := None, error := true)
  }

  // ----- the invariant -----------------------------------------------------------------------

  // Who holds which version.
  function Holders(s: State): multiset<nat> {
    s.readers + JobHolders(s)
  }

  function JobHolders(s: State): multiset<nat> {
    multiset{s.current}
    + (if s.flush.Some? then multiset{s.flush.value.base} else multiset{})
    + (if s.compaction.Some? then multiset{s.compaction.value.input} else multiset{})
  }

  // A version lives as long as it is held, and its count says by how many.
  ghost predicate RefsAreExact(s: State, holders: multiset<nat>) {
    && (forall v :: v in s.versions <==> v in holders || s.installing == Some(v))
    && (forall v :: v in s.versions ==> s.versions[v].refs == holders[v] && v < s.nextVersion)
    && (s.installing.Some? ==> s.installing.value !in holders)
  }

  // A file object lives as long as a version lists it, and its count says how many do.
  ghost predicate FileRefsAreExact(s: State) {
    && (forall f :: f in s.fileRefs <==> Listing(s.versions, f) != {})
    && (forall f :: f in s.fileRefs ==> s.fileRefs[f] == |Listing(s.versions, f)|)
  }

  // No table of a version is missing.
  ghost predicate TablesExist(s: State) {
    forall v :: v in s.versions ==> Numbers(s.versions[v].files) <= s.disk
  }

  // The table of the flush and those of the compaction.
  function BeingWritten(s: State): set<nat> {
    (if s.flush.Some? then {s.flush.value.number} else {})
    + if s.compaction.Some? then s.compaction.value.outputs else {}
  }

  ghost predicate Outputs(s: State) {
    && (forall n :: n in s.disk ==> n < s.nextFile)
    && s.pendingOutputs <= s.disk && s.pendingOutputs == BeingWritten(s)
    && (s.flush.Some? ==> s.installing.None?)
    && (s.compaction.Some? ==>
      && (s.flush.Some? ==> s.flush.value.number !in s.compaction.value.outputs)
      && s.compaction.value.input in s.versions
      && s.compaction.value.inputs <= s.versions[s.compaction.value.input].files)
    && (s.installing.Some? && s.ofCompaction ==> s.compaction.Some?)
  }

  ghost predicate Counted(s: State, holders: multiset<nat>) {
    RefsAreExact(s, holders) && FileRefsAreExact(s) && TablesExist(s)
  }

  ghost predicate Inv(s: State) {
    Counted(s, Holders(s)) && Outputs(s)
  }

  // ----- reference counts of files ----------------------------------------------------------

  lemma AddedVersionCounts(s: State, files: set<Meta>)
    requires FileRefsAreExact(s) && s.nextVersion !in s.versions
    ensures FileRefsAreExact(AddVersion(s, files))
  {
    var t := AddVersion(s, files);
    forall f
      ensures f in t.fileRefs <==> Listing(t.versions, f) != {}
      ensures f in t.fileRefs ==> t.fileRefs[f] == |Listing(t.versions, f)|
    {
      AddedListing(s, files, f);
      hide Listing;
    }
  }

  lemma AddedListing(s: State, files: set<Meta>, f: Meta)
    requires s.nextVersion !in s.versions
    ensures s.nextVersion !in Listing(s.versions, f)
    ensures Listing(AddVersion(s, files).versions, f) ==
      Listing(s.versions, f) + if f in files then {s.nextVersion} else {}
  {
  }

  lemma RemovedVersionCounts(s: State, v: nat)
    requires FileRefsAreExact(s) && v in s.versions
    ensures FileRefsAreExact(RemoveVersion(s, v))
  {
    var t := RemoveVersion(s, v);
    forall f
      ensures f in t.fileRefs <==> Listing(t.versions, f) != {}
      ensures f in t.fileRefs ==> t.fileRefs[f] == |Listing(t.versions, f)|
    {
      var before, after := Listing(s.versions, f), Listing(t.versions, f);
      assert after == before - {v};
      assert f in s.versions[v].files ==> v in before && |before| == |after| + 1;
      assert after != {} ==> |after| > 0;
    }
  }

  lemma SameListing(s: State, t: State)
    requires FileRefsAreExact(s) && t.fileRefs == s.fileRefs && t.versions.Keys == s.versions.Keys
    requires forall v :: v in s.versions ==> t.versions[v].files == s.versions[v].files
    ensures FileRefsAreExact(t)
  {
    forall f ensures Listing(t.versions, f) == Listing(s.versions, f) { }
  }

  ghost predicate KeepsFiles(s: State, t: State) {
    forall u :: u in t.versions && u in s.versions ==> t.versions[u].files == s.versions[u].files
  }

  lemma RefCounts(s: State, v: nat, holders: multiset<nat>)
    requires Counted(s, holders) && v in s.versions && s.installing != Some(v)
    ensures Counted(Ref(s, v), holders + multiset{v})
  {
    SameListing(s, Ref(s, v));
  }

  lemma UnrefCounts(s: State, v: nat, holders: multiset<nat>)
    requires Counted(s, holders) && v in holders
    ensures v in s.versions && s.versions[v].refs >= 1
    ensures Counted(Unref(s, v), holders - multiset{v})
    ensures KeepsFiles(s, Unref(s, v))
    ensures Unref(s, v) == s.(versions := Unref(s, v).versions, fileRefs := Unref(s, v).fileRefs)
  {
    if s.versions[v].refs == 1 {
      RemovedVersionCounts(s, v);
    } else {
      SameListing(s, Unref(s, v));
    }
  }

  lemma AddCounts(s: State, files: set<Meta>, holders: multiset<nat>)
    requires Counted(s, holders) && s.installing.None? && Numbers(files) <= s.disk
    ensures Counted(AddVersion(s, files).(installing := Some(s.nextVersion)), holders)
  {
    AddedVersionCounts(s, files);
    SameListing(AddVersion(s, files), AddVersion(s, files).(installing := Some(s.nextVersion)));
  }

  // ----- every step keeps the invariant ------------------------------------------------------

  lemma SameHolders(s: State, t: State, holders: multiset<nat>)
    requires Counted(s, holders) && t.versions == s.versions && t.fileRefs == s.fileRefs
    requires t.nextVersion == s.nextVersion
    requires t.installing == s.installing && s.disk <= t.disk
    ensures Counted(t, holders)
  {
    SameListing(s, t);
  }

  lemma AcquireKeepsInv(s: State)
    requires Inv(s)
    ensures Inv(Acquire(s))
  {
    RefCounts(s, s.current, Holders(s));
    var t := Acquire(s);
    SameHolders(Ref(s, s.current), t, Holders(s) + multiset{s.current});
    assert Holders(t) == Holders(s) + multiset{s.current};
  }

  lemma ReleaseKeepsInv(s: State, v: nat)
    requires Inv(s) && v in s.readers
    ensures v in s.versions && s.versions[v].refs >= 1 && Inv(Release(s, v))
  {
    hide Unref, FileRefsAreExact, TablesExist, RefsAreExact, KeepsFiles;
    var h := Holders(s);
    UnrefCounts(s, v, h);
    var t := Release(s, v);
    SameHolders(Unref(s, v), t, h - multiset{v});
    ReleasedHolders(s, t, v);
    SameOutputs(s, t);
  }

  lemma ReleasedHolders(s: State, t: State, v: nat)
    requires v in s.readers && t.current == s.current && t.readers == s.readers - multiset{v}
    requires t.flush == s.flush && t.compaction == s.compaction
    ensures Holders(t) == Holders(s) - multiset{v} && v in Holders(s)
  {
    assert JobHolders(t) == JobHolders(s);
    hide JobHolders;
    TakeFromFirst(s.readers, JobHolders(s), v);
  }

  lemma TakeFromFirst(a: multiset<nat>, b: multiset<nat>, v: nat)
    requires v in a
    ensures (a - multiset{v}) + b == (a + b) - multiset{v}
  {
  }

  // The background job is where it was, and its input version still lives.
  lemma SameOutputs(s: State, t: State)
    requires Inv(s) && Counted(t, Holders(t)) && KeepsFiles(s, t)
    requires t.disk == s.disk && t.nextFile == s.nextFile && t.pendingOutputs == s.pendingOutputs
    requires t.flush == s.flush && t.compaction == s.compaction && t.installing == s.installing
    requires t.ofCompaction == s.ofCompaction
    ensures Outputs(t)
  {
    if s.compaction.Some? { assert s.compaction.value.input in Holders(t); }
  }

  lemma FlushHolders(s: State, f: Flush)
    requires s.flush.None?
    ensures Holders(s.(flush := Some(f))) == Holders(s) + multiset{f.base}
  {
  }

  lemma CompactionHolders(s: State, c: Compaction)
    requires s.compaction.None?
    ensures Holders(s.(compaction := Some(c))) == Holders(s) + multiset{c.input}
  {
  }

  lemma BeginFlushKeepsInv(s: State)
    requires Inv(s) && s.installing.None? && s.flush.None?
    ensures Inv(BeginFlush(s))
  {
    hide FileRefsAreExact, TablesExist, RefsAreExact, JobHolders;
    CurrentLives(s);
    var t := NewTable(s);
    SameHolders(s, t, Holders(s));
    RefCounts(t, s.current, Holders(s));
    var u := BeginFlush(s);
    SameHolders(Ref(t, s.current), u, Holders(s) + multiset{s.current});
    FlushHolders(t, Flush(s.current, s.nextFile));
    JobHoldersOnly(u, t.(flush := u.flush));
    JobHoldersOnly(t, s);
  }

  lemma JobHoldersOnly(s: State, t: State)
    requires s.readers == t.readers && s.current == t.current && s.flush == t.flush
    requires s.compaction.Some? == t.compaction.Some?
    requires (s.compaction.Some? ==> s.compaction.value.input == t.compaction.value.input)
    ensures Holders(s) == Holders(t)
  {
  }

  lemma CurrentLives(s: State)
    requires Inv(s)
    ensures s.current in s.versions && s.versions[s.current].refs >= 1 && s.installing != Some(s.current)
  {
    assert s.current in Holders(s);
  }

  lemma FlushBaseLives(s: State)
    requires Inv(s) && s.flush.Some?
    ensures s.flush.value.base in s.versions && s.versions[s.flush.value.base].refs >= 1
    ensures Holders(s) == Holders(s.(flush := None)) + multiset{s.flush.value.base}
  {
    FlushHolders(s.(flush := None), s.flush.value);
    assert s.(flush := None).(flush := s.flush) == s;
    assert s.flush.value.base in Holders(s);
  }

  // The flush lets go of its version and of its table.
  function LeaveFlush(s: State): State
    requires s.flush.Some? && s.flush.value.base in s.versions && s.versions[s.flush.value.base].refs >= 1
  {
    Unref(s.(pendingOutputs := s.pendingOutputs - {s.flush.value.number}, flush := None), s.flush.value.base)
  }

  lemma LeaveFlushKeepsInv(s: State)
    requires Inv(s) && s.flush.Some?
    ensures s.flush.value.base in s.versions && s.versions[s.flush.value.base].refs >= 1
    ensures Inv(LeaveFlush(s)) && LeaveFlush(s).installing.None? && LeaveFlush(s).flush.None?
    ensures LeaveFlush(s).disk == s.disk && KeepsFiles(s, LeaveFlush(s)) && LeaveFlush(s).current == s.current
    ensures LeaveFlush(s).nextVersion == s.nextVersion
  {
    hide FileRefsAreExact, TablesExist, RefsAreExact, JobHolders, Unref;
    FlushBaseLives(s);
    var base := s.flush.value.base;
    var t := s.(pendingOutputs := s.pendingOutputs - {s.flush.value.number}, flush := None);
    SameHolders(s, t, Holders(s));
    UnrefCounts(t, base, Holders(s));
    JobHoldersOnly(t, s.(flush := None));
    JobHoldersOnly(LeaveFlush(s), t);
    assert Holders(s) - multiset{base} == Holders(t);
    if s.compaction.Some? { InputLives(LeaveFlush(s)); }
  }

  lemma InputLives(s: State)
    requires Counted(s, Holders(s)) && s.compaction.Some?
    ensures s.compaction.value.input in s.versions && s.compaction.value.input in Holders(s)
  {
    assert s.compaction.value.input in Holders(s);
  }

  // TableBuilt is leaving the flush and adding a version.
  lemma TableBuiltKeepsInv(s: State, id: nat)
    requires Inv(s) && s.installing.None? && s.flush.Some?
    ensures s.current in s.versions && s.flush.value.base in s.versions && s.versions[s.flush.value.base].refs >= 1
    ensures Inv(TableBuilt(s, id))
  {
    hide FileRefsAreExact, RefsAreExact, JobHolders, Unref, AddVersion;
    CurrentLives(s);
    LeaveFlushKeepsInv(s);
    var files := s.versions[s.current].files + {Meta(id, s.flush.value.number)};
    AddKeepsInv(LeaveFlush(s), files, false);
  }

  // LogAndApply begins.
  function AddInstalling(s: State, files: set<Meta>, ofCompaction: bool): State {
    AddVersion(s, files).(installing := Some(s.nextVersion), ofCompaction := ofCompaction)
  }

  lemma AddKeepsInv(s: State, files: set<Meta>, ofCompaction: bool)
    requires Inv(s) && s.installing.None? && s.flush.None? && Numbers(files) <= s.disk
    requires (ofCompaction ==> s.compaction.Some?)
    ensures Inv(AddInstalling(s, files, ofCompaction))
  {
    hide FileRefsAreExact, JobHolders;
    var t := AddInstalling(s, files, ofCompaction);
    AddCounts(s, files, Holders(s));
    SameHolders(AddVersion(s, files).(installing := Some(s.nextVersion)), t, Holders(s));
    JobHoldersOnly(s, t);
  }

  lemma BeginCompactionKeepsInv(s: State, inputs: set<Meta>)
    requires Inv(s) && s.installing.None? && s.flush.None? && s.compaction.None?
    requires s.current in s.versions && inputs <= s.versions[s.current].files
    ensures Inv(BeginCompaction(s, inputs))
  {
    hide FileRefsAreExact, TablesExist, JobHolders;
    CurrentLives(s);
    RefCounts(s, s.current, Holders(s));
    var t := BeginCompaction(s, inputs);
    SameHolders(Ref(s, s.current), t, Holders(s) + multiset{s.current});
    CompactionHolders(s, t.compaction.value);
    JobHoldersOnly(t, s.(compaction := t.compaction));
  }

  lemma OpenOutputKeepsInv(s: State)
    requires Inv(s) && s.installing.None? && s.flush.None? && s.compaction.Some?
    ensures Inv(OpenOutput(s))
  {
    hide FileRefsAreExact, TablesExist, JobHolders, RefsAreExact;
    SameHolders(s, OpenOutput(s), Holders(s));
    JobHoldersOnly(s, OpenOutput(s));
  }

  lemma BeginInstallKeepsInv(s: State, added: set<Meta>)
    requires Inv(s) && s.installing.None? && s.flush.None? && s.compaction.Some? && Installable(s, added)
    ensures s.current in s.versions && Inv(BeginInstall(s, added))
  {
    hide FileRefsAreExact, JobHolders, RefsAreExact, AddVersion;
    CurrentLives(s);
    InputLives(s);
    NumbersOfParts(s.compaction.value.inputs, s.versions[s.compaction.value.input].files, {});
    NumbersOfParts(s.versions[s.current].files - s.compaction.value.inputs, s.versions[s.current].files, added);
    AddKeepsInv(s, s.versions[s.current].files - s.compaction.value.inputs + added, true);
  }

  lemma NumbersOfParts(a: set<Meta>, b: set<Meta>, c: set<Meta>)
    requires a <= b
    ensures Numbers(a) <= Numbers(b) && Numbers(a + c) <= Numbers(b) + Numbers(c)
  {
  }

  lemma AppendKeepsInv(s: State)
    requires Inv(s) && s.installing.Some?
    ensures var v := s.installing.value;
      && v in s.versions && s.current in s.versions && s.versions[s.current].refs >= 1 && v != s.current
      && Inv(Append(s, v)) && Append(s, v).compaction == s.compaction && Append(s, v).installing.None?
  {
    hide FileRefsAreExact, TablesExist, JobHolders, Unref;
    var v := s.installing.value;
    CurrentLives(s);
    var h := Holders(s);
    UnrefCounts(s, s.current, h);
    var t := Unref(s, s.current);
    var u := Append(s, v);
    SwapHolder(s, u, v);
    AppendedCounts(t, v, h - multiset{s.current});
    if s.compaction.Some? { InputLives(u); }
  }

  lemma AppendedCounts(t: State, v: nat, holders: multiset<nat>)
    requires Counted(t, holders) && t.installing == Some(v)
    ensures v in t.versions && Counted(Ref(t, v).(current := v, installing := None), holders + multiset{v})
  {
    SameListing(t, Ref(t, v).(current := v, installing := None));
  }

  lemma SwapHolder(s: State, u: State, v: nat)
    requires u.readers == s.readers && u.flush == s.flush && u.compaction == s.compaction && u.current == v
    ensures Holders(u) == Holders(s) - multiset{s.current} + multiset{v}
  {
  }

  lemma DiscardKeepsInv(s: State)
    requires Inv(s) && s.installing.Some?
    ensures s.installing.value in s.versions
    ensures Inv(RemoveVersion(s, s.installing.value).(installing := None, error := true))
  {
    hide JobHolders;
    var v := s.installing.value;
    var t := RemoveVersion(s, v).(installing := None, error := true);
    RemovedVersionCounts(s, v);
    SameListing(RemoveVersion(s, v), t);
    JobHoldersOnly(s, t);
    if s.compaction.Some? { InputLives(s); }
  }

  lemma EndOutputs(s: State)
    requires Inv(s) && s.installing.None? && s.flush.None? && s.compaction.Some?
    ensures s.compaction.value.input in s.versions && s.versions[s.compaction.value.input].refs >= 1
    ensures Outputs(EndCompaction(s))
  {
    HoldersLive(s);
    hide FileRefsAreExact, TablesExist, RefsAreExact;
  }

  lemma EndCompactionKeepsInv(s: State)
    requires Inv(s) && s.installing.None? && s.flush.None? && s.compaction.Some?
    ensures s.compaction.value.input in s.versions && s.versions[s.compaction.value.input].refs >= 1
    ensures Inv(EndCompaction(s))
  {
    EndOutputs(s);
    hide FileRefsAreExact, TablesExist, JobHolders, Unref, RefsAreExact, Outputs;
    var t := s.(compaction := None);
    CompactionHolders(t, s.compaction.value);
    assert t.(compaction := s.compaction) == s;
    var input := s.compaction.value.input;
    assert input in Holders(s);
    UnrefCounts(s, input, Holders(s));
    var u := EndCompaction(s);
    SameHolders(Unref(s, input), u, Holders(s) - multiset{input});
    JobHoldersOnly(t, u);
    assert Holders(s) - multiset{input} == Holders(t);
  }

  // Deleting what no installed version lists and no output is pending loses
  // nothing, if no edit is being written.
  lemma DeleteKeepsInv(s: State)
    requires Inv(s) && s.installing.None?
    ensures Inv(DeleteObsoleteFiles(s))
  {
    hide FileRefsAreExact, JobHolders, RefsAreExact;
    var t := DeleteObsoleteFiles(s);
    SameListing(s, t);
    JobHoldersOnly(s, t);
    SameRefs(s, t);
  }

  lemma SameRefs(s: State, t: State)
    requires RefsAreExact(s, Holders(s)) && Holders(t) == Holders(s)
    requires t.versions == s.versions && t.nextVersion == s.nextVersion && t.installing == s.installing
    ensures RefsAreExact(t, Holders(t))
  {
  }

  // The manifest is written, or not.  After an error nothing is deleted any more.
  function Install(s: State, ok: bool, gc: bool): State
    requires Inv(s) && s.installing.Some?
  {
    InstallDefined(s);
    var v := s.installing.value;
    var t := if ok then Append(s, v) else RemoveVersion(s, v).(installing := None, error := true);
    var u := if s.ofCompaction then EndCompaction(t) else t;
    if gc then DeleteObsoleteFiles(u) else u
  }

  lemma InstallDefined(s: State)
    requires Inv(s) && s.installing.Some?
    ensures var v := s.installing.value;
      && v in s.versions && s.current in s.versions && s.versions[s.current].refs >= 1 && v != s.current
    ensures Inv(Append(s, s.installing.value)) && Append(s, s.installing.value).installing.None?
    ensures Append(s, s.installing.value).compaction == s.compaction
    ensures Inv(RemoveVersion(s, s.installing.value).(installing := None, error := true))
  {
    AppendKeepsInv(s);
    DiscardKeepsInv(s);
  }

  ghost predicate Step(s: State, s': State)
    requires Inv(s)
  {
    || s' == Acquire(s)
    || (exists v :: v in s.readers && s' == Release(s, v))
    || (s.installing.None? && StepOfJob(s, s'))
    || (s.installing.Some? && exists ok, gc :: s' == Install(s, ok, gc))
  }

  // What the background thread does outside LogAndApply.
  ghost predicate StepOfJob(s: State, s': State)
    requires Inv(s)
  {
    if s.flush.Some? then
      (exists id :: s' == TableBuilt(s, id)) || s' == FailFlush(s)
    else
      || s' == BeginFlush(s)
      || (s.compaction.None?
          && exists inputs :: inputs <= s.versions[s.current].files && s' == BeginCompaction(s, inputs))
      || (s.compaction.Some? && s' == OpenOutput(s))
      || (s.compaction.Some? && exists added :: Installable(s, added) && s' == BeginInstall(s, added))
      || (s.compaction.Some? && s' == EndCompaction(s).(error := true))
  }

  // A compaction installs its outputs or, for a trivial move, its input.
  ghost predicate Installable(s: State, added: set<Meta>)
    requires s.compaction.Some?
  {
    Numbers(added) <= s.compaction.value.outputs + Numbers(s.compaction.value.inputs)
  }

  lemma InstallKeepsInv(s: State, ok: bool, gc: bool)
    requires Inv(s) && s.installing.Some?
    ensures Inv(Install(s, ok, gc))
  {
    hide RefsAreExact, FileRefsAreExact, TablesExist, EndCompaction, DeleteObsoleteFiles, RemoveVersion, Append;
    InstallDefined(s);
    var v := s.installing.value;
    var t := if ok then Append(s, v) else RemoveVersion(s, v).(installing := None, error := true);
    InstallLeavesJob(s, ok);
    if s.ofCompaction { EndCompactionKeepsInv(t); }
    var u := if s.ofCompaction then EndCompaction(t) else t;
    if s.ofCompaction { EndLeavesInstalling(t); }
    if gc { DeleteKeepsInv(u); }
  }

  lemma InstallLeavesJob(s: State, ok: bool)
    requires Inv(s) && s.installing.Some? && s.installing.value in s.versions
    requires s.current in s.versions && s.versions[s.current].refs >= 1 && s.installing.value != s.current
    ensures var v := s.installing.value;
      var t := if ok then Append(s, v) else RemoveVersion(s, v).(installing := None, error := true);
      t.installing.None? && t.flush.None? && t.compaction == s.compaction
  {
  }

  lemma EndLeavesInstalling(t: State)
    requires t.installing.None?
    requires t.compaction.Some? && t.compaction.value.input in t.versions
    requires t.versions[t.compaction.value.input].refs >= 1
    ensures EndCompaction(t).installing.None?
  {
  }

  lemma HoldersLive(s: State)
    requires Inv(s)
    ensures s.current in s.versions && s.versions[s.current].refs >= 1
    ensures forall v :: v in s.readers ==> v in s.versions && s.versions[v].refs >= 1
    ensures s.flush.Some? ==> s.flush.value.base in s.versions && s.versions[s.flush.value.base].refs >= 1
    ensures s.compaction.Some? ==>
      s.compaction.value.input in s.versions && s.versions[s.compaction.value.input].refs >= 1
  {
    forall v | v in s.readers || v in JobHolders(s) ensures v in Holders(s) { }
  }

  lemma StepOfJobKeepsInv(s: State, s': State)
    requires Inv(s) && s.installing.None? && StepOfJob(s, s')
    ensures Inv(s')
  {
    HoldersLive(s);
    hide RefsAreExact, FileRefsAreExact, TablesExist, Outputs, Installable, TableBuilt, FailFlush, BeginFlush;
    hide BeginCompaction, OpenOutput, BeginInstall, EndCompaction;
    if s.flush.Some? {
      if id :| s' == TableBuilt(s, id) {
        TableBuiltKeepsInv(s, id);
      } else {
        LeaveFlushKeepsInv(s);
        FailIsLeaving(s);
        ErrorKeepsInv(LeaveFlush(s));
      }
    } else if s' == BeginFlush(s) {
      BeginFlushKeepsInv(s);
    } else if s.compaction.None? {
      var inputs :| inputs <= s.versions[s.current].files && s' == BeginCompaction(s, inputs);
      BeginCompactionKeepsInv(s, inputs);
    } else if s' == OpenOutput(s) {
      OpenOutputKeepsInv(s);
    } else if added :| Installable(s, added) && s' == BeginInstall(s, added) {
      BeginInstallKeepsInv(s, added);
    } else {
      EndCompactionKeepsInv(s);
      ErrorKeepsInv(EndCompaction(s));
    }
  }

  lemma FailIsLeaving(s: State)
    requires s.flush.Some? && s.flush.value.base in s.versions && s.versions[s.flush.value.base].refs >= 1
    ensures FailFlush(s) == LeaveFlush(s).(error := true)
  {
  }

  lemma ErrorKeepsInv(s: State)
    requires Inv(s)
    ensures Inv(s.(error := true))
  {
    hide FileRefsAreExact;
    SameListing(s, s.(error := true));
    JobHoldersOnly(s, s.(error := true));
  }

  lemma StepKeepsInv(s: State, s': State)
    requires Inv(s) && Step(s, s')
    ensures Inv(s')
  {
    HoldersLive(s);
    hide RefsAreExact, FileRefsAreExact, TablesExist, Outputs, Acquire, Release, Install, StepOfJob;
    if s' == Acquire(s) {
      AcquireKeepsInv(s);
    } else if v :| v in s.readers && s' == Release(s, v) {
      ReleaseKeepsInv(s, v);
    } else if s.installing.Some? {
      var ok, gc :| s' == Install(s, ok, gc);
      InstallKeepsInv(s, ok, gc);
    } else {
      StepOfJobKeepsInv(s, s');
    }
  }

  // ----- all runs ---------------------------------------------------------------------------

  // A version has been recovered, all of whose tables exist.
  ghost predicate Loaded(s: State) {
    && s.current in s.versions && s.current < s.nextVersion
    && s.versions == map[s.current := VersionState(s.versions[s.current].files, 1)]
    && s.fileRefs == (map f | f in s.versions[s.current].files :: 1)
    && Numbers(s.versions[s.current].files) <= s.disk && (forall n :: n in s.disk ==> n < s.nextFile)
    && s.pendingOutputs == {} && s.readers == multiset{} && s.flush.None? && s.compaction.None? && s.installing.None?
  }

  // The database has just been opened; what was left over is deleted.
  ghost predicate Init(s: State) {
    exists t :: Loaded(t) && !t.error && s == DeleteObsoleteFiles(t)
  }

  lemma InitHoldsInv(s: State)
    requires Init(s)
    ensures Inv(s) && s.flush.None? && s.installing.None? && !s.error
  {
    var t :| Loaded(t) && !t.error && s == DeleteObsoleteFiles(t);
    LoadedHoldsInv(t);
    hide Inv;
    DeleteKeepsInv(t);
  }

  lemma LoadedHoldsInv(s: State)
    requires Loaded(s)
    ensures Inv(s)
  {
    assert JobHolders(s) == multiset{s.current};
    assert Holders(s) == multiset{s.current};
    forall f ensures Listing(s.versions, f) == if f in s.versions[s.current].files then {s.current} else {} { }
    assert FileRefsAreExact(s);
  }

  // The steps are defined while the assertions of the source hold, which Inv
  // implies; nothing is required of a run that gets past a failed one.
  ghost predicate Run(states: seq<State>) {
    && states != [] && Init(states[0])
    && forall i :: 0 <= i < |states| - 1 ==> Inv(states[i]) ==> Step(states[i], states[i + 1])
  }

  // In every run the counts are exact, and no table that a reader, the
  // compaction or the current version may read is ever deleted.
  lemma {:induction false} RunHoldsInv(states: seq<State>)
    requires Run(states)
    ensures Inv(states[|states| - 1])
  {
    hide Step;
    if |states| == 1 {
      InitHoldsInv(states[0]);
    } else {
      RunHoldsInv(states[..|states| - 1]);
      StepKeepsInv(states[|states| - 2], states[|states| - 1]);
    }
  }

  // What is in use exists.
  lemma TablesInUseExist(s: State, v: nat)
    requires Inv(s) && (v == s.current || v in s.readers)
    ensures v in s.versions && Numbers(s.versions[v].files) <= s.disk
    ensures s.compaction.Some? ==> Numbers(s.compaction.value.inputs) <= s.disk
  {
    HoldersLive(s);
    if s.compaction.Some? {
      NumbersOfParts(s.compaction.value.inputs, s.versions[s.compaction.value.input].files, {});
    }
  }

  // ----- when deleting is safe --------------------------------------------------------------

  // Whether the tables of the version being installed are kept by something
  // besides it.
  ghost predicate InstallInv(s: State)
    requires s.installing.Some?
  {
    && s.installing.value in s.versions
    && var numbers := Numbers(s.versions[s.installing.value].files);
       if s.ofCompaction then
         && s.compaction.Some? && s.current in s.versions && s.compaction.value.input in s.versions
         && s.installing.value != s.current && s.installing.value != s.compaction.value.input
         && numbers <= s.pendingOutputs + Numbers(s.versions[s.current].files)
                       + Numbers(s.versions[s.compaction.value.input].files)
       else
         exists n :: n in numbers && n !in s.pendingOutputs && ListedOnlyBy(s, n, s.installing)
  }

  ghost predicate ListedOnlyBy(s: State, n: nat, v: Option<nat>) {
    forall w :: w in s.versions && v != Some(w) ==> n !in Numbers(s.versions[w].files)
  }

  ghost predicate ProtectionInv(s: State) {
    && (s.flush.Some? ==> ListedOnlyBy(s, s.flush.value.number, None))
    && (s.installing.Some? ==> InstallInv(s))
  }

  // Fewer versions, with the same files, and the same jobs.
  lemma FewerVersions(s: State, t: State)
    requires Inv(s) && Inv(t) && ProtectionInv(s) && t.versions.Keys <= s.versions.Keys && KeepsFiles(s, t)
    requires t.flush == s.flush && t.compaction == s.compaction && t.installing == s.installing
    requires t.current == s.current
    requires t.ofCompaction == s.ofCompaction && t.pendingOutputs == s.pendingOutputs
    ensures ProtectionInv(t)
  {
    HoldersLive(t);
    hide FileRefsAreExact, TablesExist;
    assert forall v :: v in t.versions ==> v in s.versions && t.versions[v].files == s.versions[v].files;
    if t.installing.Some? && !t.ofCompaction {
      var n :| n in Numbers(s.versions[s.installing.value].files) && n !in s.pendingOutputs &&
        ListedOnlyBy(s, n, s.installing);
      assert ListedOnlyBy(t, n, t.installing);
    }
  }

  lemma BuiltIsUnprotected(s: State, id: nat)
    requires Inv(s) && ProtectionInv(s) && s.installing.None? && s.flush.Some?
    requires s.current in s.versions && s.flush.value.base in s.versions && s.versions[s.flush.value.base].refs >= 1
    ensures ProtectionInv(TableBuilt(s, id))
  {
    var t, n := TableBuilt(s, id), s.flush.value.number;
    assert t.flush.None? && t.installing == Some(s.nextVersion) && !t.ofCompaction by { OnlyNewVersionLists(s, id); }
    OnlyNewVersionLists(s, id);
    TableBuiltLists(s, id);
    hide Unref, TableBuilt;
    assert ListedOnlyBy(t, n, t.installing);
  }

  lemma TableBuiltLists(s: State, id: nat)
    requires s.flush.Some? && s.current in s.versions
    requires s.flush.value.base in s.versions && s.versions[s.flush.value.base].refs >= 1
    ensures var t := TableBuilt(s, id);
      && s.nextVersion in t.versions && s.flush.value.number in Numbers(t.versions[s.nextVersion].files)
      && t.flush.None? && t.installing == Some(s.nextVersion) && !t.ofCompaction
  {
    hide Unref;
    UnrefOnly(s.(pendingOutputs := s.pendingOutputs - {s.flush.value.number}, flush := None), s.flush.value.base);
    var t, n := TableBuilt(s, id), s.flush.value.number;
    assert Meta(id, n) in t.versions[s.nextVersion].files;
  }

  lemma NewTableIsNew(s: State)
    requires Inv(s) && s.installing.None? && s.flush.None? && s.current in s.versions
    ensures ProtectionInv(BeginFlush(s))
  {
    hide FileRefsAreExact, RefsAreExact;
    forall v | v in s.versions ensures s.nextFile !in Numbers(s.versions[v].files) {
      assert Numbers(s.versions[v].files) <= s.disk;
    }
  }

  lemma OutputsAreProtected(s: State, added: set<Meta>)
    requires Inv(s) && s.installing.None? && s.flush.None? && s.compaction.Some? && Installable(s, added)
    requires s.current in s.versions
    ensures ProtectionInv(BeginInstall(s, added))
  {
    HoldersLive(s);
    hide FileRefsAreExact, TablesExist;
    var t := BeginInstall(s, added);
    var c := s.compaction.value;
    assert s.nextVersion !in s.versions;
    assert t.versions[s.nextVersion].files == s.versions[s.current].files - c.inputs + added;
    assert Numbers(c.inputs) <= Numbers(s.versions[c.input].files);
    assert Numbers(s.versions[s.current].files - c.inputs + added)
      <= Numbers(s.versions[s.current].files) + Numbers(added);
  }

  lemma IdleIsProtected(s: State)
    requires s.flush.None? && s.installing.None?
    ensures ProtectionInv(s)
  {
  }

  lemma JobKeepsProtection(s: State, s': State)
    requires Inv(s) && ProtectionInv(s) && s.installing.None? && StepOfJob(s, s')
    ensures ProtectionInv(s')
  {
    HoldersLive(s);
    hide Inv, ProtectionInv, Installable;
    if s.flush.Some? {
      if id :| s' == TableBuilt(s, id) {
        BuiltIsUnprotected(s, id);
      } else {
        FailedIsIdle(s);
        IdleIsProtected(s');
      }
    } else if s' == BeginFlush(s) {
      NewTableIsNew(s);
    } else if s.compaction.None? {
      IdleIsProtected(s');
    } else if s' == OpenOutput(s) {
      IdleIsProtected(s');
    } else if added :| Installable(s, added) && s' == BeginInstall(s, added) {
      OutputsAreProtected(s, added);
    } else {
      EndedIsIdle(s);
      IdleIsProtected(s');
    }
  }

  lemma FailedIsIdle(s: State)
    requires s.flush.Some? && s.flush.value.base in s.versions && s.versions[s.flush.value.base].refs >= 1
    ensures FailFlush(s).flush.None? && FailFlush(s).installing == s.installing
  {
  }

  lemma EndedIsIdle(s: State)
    requires s.compaction.Some? && s.compaction.value.input in s.versions
    requires s.versions[s.compaction.value.input].refs >= 1
    ensures EndCompaction(s).flush == s.flush && EndCompaction(s).installing == s.installing
  {
  }

  lemma InstalledIsIdle(s: State, ok: bool, gc: bool)
    requires Inv(s) && s.installing.Some?
    ensures Install(s, ok, gc).flush.None? && Install(s, ok, gc).installing.None?
  {
    hide RefsAreExact, FileRefsAreExact, TablesExist, RemoveVersion, Append;
    InstallDefined(s);
    InstallLeavesJob(s, ok);
    var v := s.installing.value;
    var t := if ok then Append(s, v) else RemoveVersion(s, v).(installing := None, error := true);
    if s.ofCompaction {
      HoldersLive(t);
      EndedIsIdle(t);
    }
  }

  lemma StepKeepsProtection(s: State, s': State)
    requires Inv(s) && ProtectionInv(s) && Step(s, s')
    ensures ProtectionInv(s')
  {
    HoldersLive(s);
    StepKeepsInv(s, s');
    hide Inv, ProtectionInv, Install, StepOfJob, Acquire, Release;
    if s' == Acquire(s) {
      AcquireProtects(s);
    } else if v :| v in s.readers && s' == Release(s, v) {
      ReleaseProtects(s, v);
    } else if s.installing.Some? {
      var ok, gc :| s' == Install(s, ok, gc);
      InstalledIsIdle(s, ok, gc);
      IdleIsProtected(s');
    } else {
      JobKeepsProtection(s, s');
    }
  }

  lemma AcquireProtects(s: State)
    requires Inv(s) && ProtectionInv(s) && s.current in s.versions && Inv(Acquire(s))
    ensures ProtectionInv(Acquire(s))
  {
    hide Inv, ProtectionInv;
    FewerVersions(s, Acquire(s));
  }

  lemma ReleaseProtects(s: State, v: nat)
    requires Inv(s) && ProtectionInv(s) && v in s.versions && s.versions[v].refs >= 1 && Inv(Release(s, v))
    ensures ProtectionInv(Release(s, v))
  {
    hide Inv, ProtectionInv, Unref;
    UnrefOnly(s, v);
    FewerVersions(s, Release(s, v));
  }

  lemma {:induction false} RunIsProtected(states: seq<State>)
    requires Run(states)
    ensures ProtectionInv(states[|states| - 1])
  {
    hide Step, Inv, ProtectionInv, Init;
    if |states| == 1 {
      InitIsIdle(states[0]);
    } else {
      var front := states[..|states| - 1];
      RunIsProtected(front);
      RunHoldsInv(front);
      StepKeepsProtection(states[|states| - 2], states[|states| - 1]);
    }
  }

  lemma InitIsIdle(s: State)
    requires Init(s)
    ensures ProtectionInv(s)
  {
  }

  // In every run, deleting obsolete files while an edit is written to the manifest
  // loses no table if and only if the edit is that of a compaction or a move: the
  // outputs of a compaction are pending until it is installed, and the table of a
  // flush is not.  Only the one background thread deletes.
  lemma DeletingIsSafeIff(states: seq<State>)
    requires Run(states)
    requires states[|states| - 1].installing.Some? && !states[|states| - 1].error
    ensures TablesExist(DeleteObsoleteFiles(states[|states| - 1])) <==> states[|states| - 1].ofCompaction
  {
    hide Step, Init;
    RunHoldsInv(states);
    RunIsProtected(states);
    var s := states[|states| - 1];
    var v := s.installing.value;
    var numbers := Numbers(s.versions[v].files);
    DeletingKeepsLive(s);
    hide FileRefsAreExact, RefsAreExact;
    if s.ofCompaction {
      LiveIsKept(s, s.current);
      LiveIsKept(s, s.compaction.value.input);
    } else {
      var n :| n in numbers && n !in s.pendingOutputs && ListedOnlyBy(s, n, s.installing);
      assert n !in LiveTables(s);
    }
  }

  lemma LiveIsKept(s: State, v: nat)
    requires v in s.versions && s.installing != Some(v)
    ensures Numbers(s.versions[v].files) <= LiveTables(s)
  {
  }

  lemma DeletingKeepsLive(s: State)
    requires Inv(s) && !s.error && s.installing.Some? && s.installing.value in s.versions
    ensures TablesExist(DeleteObsoleteFiles(s)) <==> Numbers(s.versions[s.installing.value].files) <= LiveTables(s)
  {
    var t := DeleteObsoleteFiles(s);
    forall v | v in s.versions && v != s.installing.value ensures Numbers(s.versions[v].files) <= t.disk { }
  }

  lemma OnlyNewVersionLists(s: State, id: nat)
    requires s.installing.None? && s.flush.Some?
    requires s.current in s.versions && s.flush.value.base in s.versions && s.versions[s.flush.value.base].refs >= 1
    ensures var t := TableBuilt(s, id);
      && t.installing.Some? && s.flush.value.number !in t.pendingOutputs && t.error == s.error
      && forall v :: v in t.versions && t.installing != Some(v) ==>
         v in s.versions && t.versions[v].files == s.versions[v].files
  {
    hide Unref;
    UnrefOnly(s.(pendingOutputs := s.pendingOutputs - {s.flush.value.number}, flush := None), s.flush.value.base);
  }

  lemma UnrefOnly(s: State, v: nat)
    requires v in s.versions && s.versions[v].refs >= 1
    ensures Unref(s, v) == s.(versions := Unref(s, v).versions, fileRefs := Unref(s, v).fileRefs)
    ensures Unref(s, v).versions.Keys <= s.versions.Keys && KeepsFiles(s, Unref(s, v))
  {
  }

  // ----- what is obsolete goes --------------------------------------------------------------------

  // An installed version lists a table.
  ghost predicate IsListed(s: State, n: nat) {
    exists v, f :: v in s.versions && s.installing != Some(v) && f in s.versions[v].files && f.number == n
  }

  // Collecting deletes the tables that are neither being written nor listed by an
  // installed version, and no others; after an error it deletes none.
  lemma CollectingIsExact(s: State, n: nat)
    ensures s.error ==> DeleteObsoleteFiles(s) == s
    ensures !s.error ==>
      (n in DeleteObsoleteFiles(s).disk <==> n in s.disk && (n in s.pendingOutputs || IsListed(s, n)))
    ensures DeleteObsoleteFiles(s) == s.(disk := DeleteObsoleteFiles(s).disk)
  {
  }

  // A database just opened has the tables of its version and no others.
  lemma OpenedIsClean(s: State, n: nat)
    requires Init(s)
    ensures s.current in s.versions && (n in s.disk <==> n in Numbers(s.versions[s.current].files))
  {
    var t :| Loaded(t) && !t.error && s == DeleteObsoleteFiles(t);
    CollectingIsExact(t, n);
  }

  // What an install comes to before it collects.
  lemma InstallsFirst(s: State) returns (u: State)
    requires Inv(s) && s.installing.Some?
    ensures u.disk == s.disk && u.error == s.error && u.flush.None? && u.installing.None?
    ensures s.ofCompaction ==> u.compaction.None?
    ensures Install(s, true, true) == DeleteObsoleteFiles(u) && Install(s, true, false) == u
  {
    InstallDefined(s);
    InstallKeepsInv(s, true, false);
    InstallLeavesJob(s, true);
    u := Install(s, true, false);
    var t := Append(s, s.installing.value);
    AppendKeepsRest(s);
    if s.ofCompaction {
      HoldersLive(t);
      EndKeepsRest(t);
    }
    hide Inv, Append, EndCompaction, DeleteObsoleteFiles;
  }

  lemma AppendKeepsRest(s: State)
    requires s.installing.Some? && s.installing.value in s.versions && s.current in s.versions
    requires s.versions[s.current].refs >= 1 && s.installing.value != s.current
    ensures Append(s, s.installing.value).disk == s.disk && Append(s, s.installing.value).error == s.error
  {
  }

  lemma EndKeepsRest(s: State)
    requires s.compaction.Some? && s.compaction.value.input in s.versions
    requires s.versions[s.compaction.value.input].refs >= 1
    ensures var t := EndCompaction(s);
      t.disk == s.disk && t.error == s.error && t.compaction.None? && t.flush == s.flush && t.installing == s.installing
  {
  }

  // After an install that collects, in any run, every table on the disk is in use:
  // it is being written or a version that is still held lists it.
  lemma CollectedIsClean(states: seq<State>, i: nat, n: nat)
    requires Run(states) && i + 1 < |states|
    ensures Inv(states[i])
    ensures var s, s' := states[i], states[i + 1];
      s.installing.Some? && !s.error && s' == Install(s, true, true) ==>
        && (n in s'.disk <==> n in s.disk && (n in s'.pendingOutputs || IsListed(s', n)))
        && (s.ofCompaction ==> (n in s'.disk <==> IsListed(s', n)))
  {
    PrefixHoldsInv(states, i);
    hide Inv, Step, DeleteObsoleteFiles, IsListed, Install;
    var s, s' := states[i], states[i + 1];
    if s.installing.Some? && !s.error && s' == Install(s, true, true) {
      var u := InstallsFirst(s);
      CollectingIsExact(u, n);
      SameIsListed(u, s', n);
      InstallKeepsInv(s, true, true);
      if s.ofCompaction { NothingIsWritten(s', n); }
    }
  }

  lemma PrefixHoldsInv(states: seq<State>, i: nat)
    requires Run(states) && i < |states|
    ensures Inv(states[i])
  {
    hide Step, Inv;
    RunHoldsInv(states[..i + 1]);
  }

  lemma SameIsListed(s: State, t: State, n: nat)
    requires t.versions == s.versions && t.installing == s.installing
    ensures IsListed(t, n) <==> IsListed(s, n)
  {
  }

  // Between jobs no table is being written, and what is listed is there.
  lemma NothingIsWritten(s: State, n: nat)
    requires Inv(s) && s.flush.None? && s.compaction.None?
    ensures s.pendingOutputs == {} && (IsListed(s, n) ==> n in s.disk)
  {
    hide RefsAreExact, FileRefsAreExact;
    if v, f :| v in s.versions && s.installing != Some(v) && f in s.versions[v].files && f.number == n {
      assert n in Numbers(s.versions[v].files);
    }
  }

  // So an input of a compaction that no remaining version lists is gone.
  lemma InputIsGone(states: seq<State>, i: nat, f: Meta)
    requires Run(states) && i + 1 < |states| && Inv(states[i]) && states[i].installing.Some? && !states[i].error
    requires states[i].ofCompaction && states[i + 1] == Install(states[i], true, true)
    requires states[i].compaction.Some? && f in states[i].compaction.value.inputs
    requires ListedOnlyBy(states[i + 1], f.number, None)
    ensures f.number !in states[i + 1].disk
  {
    hide Inv, Step, Install;
    assert !IsListed(states[i + 1], f.number);
    CollectedIsClean(states, i, f.number);
  }

  // ----- what an edit does to the files ------------------------------------------------------------

  // The version that is about to be installed has what the current one has, without
  // the inputs of the compaction and with what the edit adds.
  lemma EditReplacesInputs(s: State, added: set<Meta>, f: Meta)
    requires s.compaction.Some? && s.current in s.versions && s.nextVersion !in s.versions
    ensures var t := BeginInstall(s, added);
      && t.installing == Some(s.nextVersion) && t.current == s.current && s.nextVersion in t.versions
      && (f in t.versions[s.nextVersion].files <==>
           f in added || (f in s.versions[s.current].files && f !in s.compaction.value.inputs))
  {
  }

  lemma EditAddsTable(s: State, id: nat, f: Meta)
    requires s.flush.Some? && s.current in s.versions
    requires s.flush.value.base in s.versions && s.versions[s.flush.value.base].refs >= 1
    ensures var t := TableBuilt(s, id);
      && t.installing == Some(s.nextVersion) && t.current == s.current && s.nextVersion in t.versions
      && (f in t.versions[s.nextVersion].files <==>
           f in s.versions[s.current].files || f == Meta(id, s.flush.value.number))
  {
    UnrefOnly(s.(pendingOutputs := s.pendingOutputs - {s.flush.value.number}, flush := None), s.flush.value.base);
    hide Unref;
  }

  // When the manifest has been written that version is current, with its files.
  lemma InstalledIsCurrent(s: State, gc: bool)
    requires Inv(s) && s.installing.Some?
    ensures var v, t := s.installing.value, Install(s, true, gc);
      v in s.versions && t.current == v && v in t.versions && t.versions[v].files == s.versions[v].files
  {
    InstallDefined(s);
    var v, t := s.installing.value, Append(s, s.installing.value);
    InstallKeepsInv(s, true, gc);
    UnrefOnly(s, s.current);
    hide Unref;
    assert t.current == v && t.versions[v].files == s.versions[v].files;
    if s.ofCompaction {
      HoldersLive(t);
      UnrefOnly(t, t.compaction.value.input);
    }
    hide RefsAreExact, FileRefsAreExact, TablesExist;
    CurrentLives(Install(s, true, gc));
    hide Inv;
  }

  // When it has not, nothing changes but that an error is recorded, and from then
  // on no table is deleted.
  lemma FailedInstallDeletesNothing(s: State, gc: bool)
    requires Inv(s) && s.installing.Some?
    ensures var t := Install(s, false, gc);
      t.error && t.current == s.current && t.disk == s.disk && s.installing.value !in t.versions
  {
    InstallDefined(s);
    var v := s.installing.value;
    var t := RemoveVersion(s, v).(installing := None, error := true);
    if s.ofCompaction {
      HoldersLive(t);
      UnrefOnly(t, t.compaction.value.input);
      EndKeepsRest(t);
    }
    hide RefsAreExact, FileRefsAreExact, TablesExist;
  }

  lemma FailuresAreRecorded(s: State)
    requires s.flush.Some? && s.flush.value.base in s.versions && s.versions[s.flush.value.base].refs >= 1
    ensures FailFlush(s).error && FailFlush(s).current == s.current && FailFlush(s).flush == None
  {
  }
}
