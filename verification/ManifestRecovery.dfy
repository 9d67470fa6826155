/**
 VersionSet::Recover on the bytes of a manifest (db/version_set.cc): the records
 of the log file are decoded into edits and replayed.  In every run of the store
 the manifest it has written recovers the current version and the numbers that
 were recorded last.
 */
module ManifestRecovery {
  import opened Basics
  import opened Coding
  import opened InternalKeys
  import opened Tables
  import opened VersionEdits
  import opened VersionBuilder
  import opened LogFormat
  import opened LogReader
  import opened LogRoundTrip
  import opened LogReports
  import Store
  import StoreRuns

  // ----- internal keys as bytes -----------------------------------------------------------

  // AppendInternalKey (db/dbformat.cc).
  function InternalKeyBytes(user: Bytes, s: SequenceNumber, t: ValueType): Bytes {
    user + Fixed64(PackSequenceAndType(s, t))
  }

  datatype ParsedKey = ParsedKey(user: Bytes, sequence: SequenceNumber, typ: ValueType)

  // The tag has 64 bits, so the sequence number is never too large.
  lemma TagLimit(key: Bytes)
    requires |key| >= 8
    ensures DecodeFixed64(key, |key| - 8) / 256 <= MAX_SEQUENCE
  {
    Fixed32Limit(key, |key| - 8);
    Fixed32Limit(key, |key| - 4);
    hide DecodeFixed32;
  }

  // ParseInternalKey (db/dbformat.h).
  function ParseInternalKey(key: Bytes): (r: Option<ParsedKey>) {
    var n := |key|;
    if n < 8 then None
    else
      var tag := DecodeFixed64(key, n - 8);
      TagLimit(key);
      if tag % 256 > 1 then None
      else Some(ParsedKey(key[..n - 8], tag / 256, if tag % 256 == 1 then TypeValue else TypeDeletion))
  }

  // A key parses if and only if it has room for a tag with a type that exists.
  lemma ParsesIff(key: Bytes)
    ensures ParseInternalKey(key).Some? <==> |key| >= 8 && key[|key| - 8] <= 1
  {
    if |key| >= 8 { LowByte(key, |key| - 8); }
  }

  lemma LowByte(data: Bytes, p: nat)
    requires p + 8 <= |data|
    ensures DecodeFixed64(data, p) % 256 == data[p]
  {
    var rest := data[p + 1] as int + 256 * data[p + 2] as int + 65536 * data[p + 3] as int
      + 16777216 * DecodeFixed32(data, p + 4);
    assert DecodeFixed64(data, p) == data[p] as int + 256 * rest;
  }

  lemma KeyRoundTrips(user: Bytes, s: SequenceNumber, t: ValueType)
    ensures ParseInternalKey(InternalKeyBytes(user, s, t)) == Some(ParsedKey(user, s, t))
  {
    hide Fixed64, DecodeFixed64, Holds;
    var tag := PackSequenceAndType(s, t);
    var key := InternalKeyBytes(user, s, t);
    FixedIsEight(tag);
    assert Holds(key, |user|, Fixed64(tag)) by { EndHolds(user, Fixed64(tag)); }
    Fixed64RoundTrips(key, |user|, tag);
    assert tag / 256 == s && tag % 256 == if t.TypeValue? then 1 else 0;
  }

  lemma EndHolds(a: Bytes, b: Bytes)
    ensures Holds(a + b, |a|, b)
  {
  }

  // ----- what a record stands for ------------------------------------------------------------

  // The ranks of user keys under the comparator, and what the table with each
  // number was written with.
  datatype Meanings = Meanings(rank: Bytes -> UserKey, contents: nat -> seq<Entry>)

  function KeyOf(m: Meanings, key: Bytes): Option<InternalKey> {
    var parsed := ParseInternalKey(key);
    if parsed.None? then None
    else Some(InternalKey(m.rank(parsed.value.user), parsed.value.sequence, parsed.value.typ))
  }

  predicate KeysParse(r: EditRecord) {
    && (forall i :: 0 <= i < |r.compactPointers| ==> ParseInternalKey(r.compactPointers[i].1).Some?)
    && (forall i :: 0 <= i < |r.added| ==>
         ParseInternalKey(r.added[i].1.smallest).Some? && ParseInternalKey(r.added[i].1.largest).Some?)
  }

  function FileOf(m: Meanings, meta: FileMeta): File
    requires ParseInternalKey(meta.smallest).Some? && ParseInternalKey(meta.largest).Some?
  {
    File(meta.number, meta.size, KeyOf(m, meta.smallest).value, KeyOf(m, meta.largest).value, m.contents(meta.number))
  }

  function Meaning(m: Meanings, r: EditRecord): VersionEdit
    requires KeysParse(r)
  {
    Edit(r.comparator, r.logNumber, r.prevLogNumber, r.nextFile, r.lastSequence,
         seq(|r.compactPointers|, i requires 0 <= i < |r.compactPointers| =>
           (r.compactPointers[i].0, KeyOf(m, r.compactPointers[i].1).value)),
         r.deleted,
         seq(|r.added|, i requires 0 <= i < |r.added| => (r.added[i].0, FileOf(m, r.added[i].1))))
  }

  function MeaningOfAll(m: Meanings, rs: seq<EditRecord>): seq<VersionEdit>
    requires forall i :: 0 <= i < |rs| ==> KeysParse(rs[i])
  {
    seq(|rs|, i requires 0 <= i < |rs| => Meaning(m, rs[i]))
  }

  // An edit as a record, with a way to spell internal keys.
  function Spelled(edit: VersionEdit, spell: InternalKey -> Bytes): EditRecord {
    Edit(edit.comparator, edit.logNumber, edit.prevLogNumber, edit.nextFile, edit.lastSequence,
         seq(|edit.compactPointers|, i requires 0 <= i < |edit.compactPointers| =>
           (edit.compactPointers[i].0, spell(edit.compactPointers[i].1))),
         edit.deleted,
         seq(|edit.added|, i requires 0 <= i < |edit.added| =>
           var f := edit.added[i].1;
           (edit.added[i].0, FileMeta(f.number, f.size, spell(f.smallest), spell(f.largest)))))
  }

  predicate IsSpelled(m: Meanings, spell: InternalKey -> Bytes, k: InternalKey) {
    KeyOf(m, spell(k)) == Some(k)
  }

  // Spelling an edit and reading it again gives the edit.
  lemma SpelledMeans(m: Meanings, edit: VersionEdit, spell: InternalKey -> Bytes)
    requires forall i :: 0 <= i < |edit.compactPointers| ==> IsSpelled(m, spell, edit.compactPointers[i].1)
    requires forall i :: 0 <= i < |edit.added| ==>
      var f := edit.added[i].1;
      IsSpelled(m, spell, f.smallest) && IsSpelled(m, spell, f.largest) && m.contents(f.number) == f.entries
    ensures KeysParse(Spelled(edit, spell)) && Meaning(m, Spelled(edit, spell)) == edit
  {
    var r := Spelled(edit, spell);
    forall i | 0 <= i < |edit.compactPointers|
      ensures ParseInternalKey(r.compactPointers[i].1).Some?
      ensures (r.compactPointers[i].0, KeyOf(m, r.compactPointers[i].1).value) == edit.compactPointers[i]
    {
      assert IsSpelled(m, spell, edit.compactPointers[i].1);
    }
    forall i | 0 <= i < |edit.added|
      ensures ParseInternalKey(r.added[i].1.smallest).Some? && ParseInternalKey(r.added[i].1.largest).Some?
      ensures (r.added[i].0, FileOf(m, r.added[i].1)) == edit.added[i]
    {
      var f := edit.added[i].1;
      assert IsSpelled(m, spell, f.smallest) && IsSpelled(m, spell, f.largest);
    }
  }

  // ----- reading the records ---------------------------------------------------------------------

  // The edit of a record, if it can be decoded and names the right comparator.
  function ReadEdit(comparator: Bytes, record: Bytes): Option<EditRecord> {
    match DecodeEdit(record)
    case Corruption(_) => None
    case Ok(e) => if e.comparator.Some? && e.comparator.value != comparator then None else Some(e)
  }

  // The edits up to the first record that is refused.
  function Readable(comparator: Bytes, records: seq<Bytes>): (r: seq<EditRecord>)
    ensures |r| <= |records|
  {
    if records == [] then []
    else
      var n := |records| - 1;
      var front := Readable(comparator, records[..n]);
      var e := ReadEdit(comparator, records[n]);
      if |front| < n || e.None? then front else front + [e.value]
  }

  datatype Recovered =
    | Failed
    | Recovered(version: Version, pointers: Pointers, manifestFileNumber: nat, nextFileNumber: nat,
                lastSequence: nat, logNumber: nat, prevLogNumber: nat)

  // What VersionSet::Recover does with the records and the drops that were
  // reported: it fails if there were any, if a record is refused, or if a number
  // is missing.
  ghost predicate Recovers(m: Meanings, comparator: Bytes, reading: Reading, r: Recovered)
    requires forall e :: e in Readable(comparator, reading.records) ==> KeysParse(e)
  {
    var records := Readable(comparator, reading.records);
    var edits := MeaningOfAll(m, records);
    var numbers := NumbersOf(edits);
    && (r.Recovered? <==> reading.drops == [] && |records| == |reading.records| && FoundNumbers(edits).Some?)
    && (r.Recovered? ==>
      && Replays(edits, r.version) && r.pointers == ReplayPointers(edits)
      && numbers.nextFile == Some(r.manifestFileNumber) && r.nextFileNumber == r.manifestFileNumber + 1
      && numbers.lastSequence == Some(r.lastSequence) && numbers.logNumber == Some(r.logNumber)
      && r.prevLogNumber == if numbers.prevLogNumber.Some? then numbers.prevLogNumber.value else 0)
  }

  // The loop over the records: ok tells that none was refused or dropped.
  method ReadRecords(crc: Checksum, file: Bytes, comparator: Bytes) returns (edits: seq<EditRecord>, ok: bool)
    ensures var reading := Scan(crc, file, 0, None);
      && (ok <==> reading.drops == [] && |Readable(comparator, reading.records)| == |reading.records|)
      && (ok ==> edits == Readable(comparator, reading.records))
  {
    hide PhysicalAt, Scan, ReadEdit, Readable;
    var reader := new Reader(crc, file);
    ghost var all, records := Scan(crc, file, 0, None), [];
    Unread(all);
    edits := [];
    NothingReadable(comparator);
    while true
      invariant reader.Valid() && fresh(reader) && reader.crc == crc && reader.file == file && reader.drops == []
      invariant all == Before(records, [], Scan(crc, file, reader.Pos(), None))
      invariant edits == Readable(comparator, records) && |edits| == |records|
      decreases |file| - reader.Pos()
    {
      var record := reader.ReadRecord();
      assert reader.drops[0..] == reader.drops;
      if record.None? {
        assert records + [] == records;
        return edits, reader.drops == [];
      }
      ghost var rest := Scan(crc, file, reader.Pos(), None);
      BeforeBefore(records, [], [record.value], reader.drops, rest);
      if reader.drops != [] {
        return edits, false;
      }
      var e := ReadEdit(comparator, record.value);
      ReadableNext(comparator, records, record.value);
      if e.None? {
        RefusedStays(comparator, records + [record.value], rest.records);
        return edits, false;
      }
      records := records + [record.value];
      edits := edits + [e.value];
    }
  }

  lemma NothingReadable(comparator: Bytes)
    ensures Readable(comparator, []) == []
  {
  }

  lemma ReadableNext(comparator: Bytes, records: seq<Bytes>, record: Bytes)
    requires |Readable(comparator, records)| == |records|
    ensures var e := ReadEdit(comparator, record);
      Readable(comparator, records + [record]) == Readable(comparator, records) + if e.None? then [] else [e.value]
  {
    assert (records + [record])[..|records|] == records;
    hide ReadEdit;
  }

  // After a refused record nothing is read.
  lemma {:induction false} RefusedStays(comparator: Bytes, records: seq<Bytes>, more: seq<Bytes>)
    requires |Readable(comparator, records)| < |records|
    ensures |Readable(comparator, records + more)| < |records + more|
  {
    if more == [] {
      assert records + more == records;
    } else {
      var n := |more| - 1;
      RefusedStays(comparator, records, more[..n]);
      assert (records + more)[..|records + more| - 1] == records + more[..n];
    }
  }

  // All records are read if and only if each decodes and names no other comparator,
  // and then they are what was decoded, in order.
  lemma {:induction false} ReadableIff(comparator: Bytes, records: seq<Bytes>)
    ensures |Readable(comparator, records)| == |records| <==>
      forall i :: 0 <= i < |records| ==>
        var e := DecodeEdit(records[i]);
        e.Ok? && (e.edit.comparator == None || e.edit.comparator == Some(comparator))
    ensures forall i :: 0 <= i < |Readable(comparator, records)| ==>
      DecodeEdit(records[i]) == Ok(Readable(comparator, records)[i])
  {
    hide DecodeEdit;
    if records != [] { ReadableIff(comparator, records[..|records| - 1]); }
  }

  // A decoded record has levels that exist.
  lemma {:induction false} ReadableFits(comparator: Bytes, records: seq<Bytes>)
    ensures forall i :: 0 <= i < |Readable(comparator, records)| ==> Fits(Readable(comparator, records)[i])
  {
    if records != [] {
      var n := |records| - 1;
      ReadableFits(comparator, records[..n]);
      NothingFits();
      DecodedFits(records[n], 0, NoEdit());
      hide Fits, DecodeRest;
    }
  }

  lemma MeaningIsValid(m: Meanings, r: EditRecord)
    requires KeysParse(r) && Fits(r)
    ensures ValidEdit(Meaning(m, r))
  {
    forall i | 0 <= i < |r.added| ensures r.added[i].0 < NUM_LEVELS {
      assert ItemFits(NewFile(r.added[i].0, r.added[i].1));
    }
    forall i | 0 <= i < |r.compactPointers| ensures r.compactPointers[i].0 < NUM_LEVELS {
      assert ItemFits(CompactPointer(r.compactPointers[i].0, r.compactPointers[i].1));
    }
    hide KeyOf, FileOf, ParseInternalKey;
  }

  lemma ReadableIsValid(m: Meanings, comparator: Bytes, records: seq<Bytes>)
    requires forall e :: e in Readable(comparator, records) ==> KeysParse(e)
    ensures var edits := MeaningOfAll(m, Readable(comparator, records));
      forall i :: 0 <= i < |edits| ==> ValidEdit(edits[i])
  {
    hide Readable, KeysParse, Meaning, Fits, ValidEdit;
    var rs := Readable(comparator, records);
    ReadableFits(comparator, records);
    forall i | 0 <= i < |rs| ensures ValidEdit(Meaning(m, rs[i])) {
      assert rs[i] in rs;
      MeaningIsValid(m, rs[i]);
    }
  }

  // VersionSet::Recover, for a manifest in which no file number is reused.
  method Recover(crc: Checksum, file: Bytes, comparator: Bytes, m: Meanings) returns (r: Recovered)
    requires var records := Readable(comparator, Scan(crc, file, 0, None).records);
      && (forall e :: e in records ==> KeysParse(e))
      && NeverReused(MeaningOfAll(m, records))
    ensures Recovers(m, comparator, Scan(crc, file, 0, None), r)
  {
    hide PhysicalAt, Scan, Readable, KeysParse, Meaning, NeverReused, Replays, NumbersOf, ReplayPointers, ValidEdit;
    var records, ok := ReadRecords(crc, file, comparator);
    if !ok { return Failed; }
    var edits := MeaningOfAll(m, records);
    ReadableIsValid(m, comparator, Scan(crc, file, 0, None).records);
    var version, pointers, numbers, _ := ReplayManifest(edits);
    if numbers.nextFile.None? || numbers.logNumber.None? || numbers.lastSequence.None? {
      return Failed;
    }
    var prevLogNumber := if numbers.prevLogNumber.Some? then numbers.prevLogNumber.value else 0;
    r := Recovered(version, pointers, numbers.nextFile.value, numbers.nextFile.value + 1,
                   numbers.lastSequence.value, numbers.logNumber.value, prevLogNumber);
  }

  // A record that does not decode, or names another comparator, makes it fail.
  lemma RefusedRecordFails(m: Meanings, comparator: Bytes, reading: Reading, i: nat, r: Recovered)
    requires forall e :: e in Readable(comparator, reading.records) ==> KeysParse(e)
    requires i < |reading.records| && Recovers(m, comparator, reading, r)
    requires var e := DecodeEdit(reading.records[i]);
      e.Ok? ==> e.edit.comparator.Some? && e.edit.comparator.value != comparator
    ensures r.Failed?
  {
    ReadableIff(comparator, reading.records);
    hide Readable, DecodeEdit, Replays, NumbersOf, ReplayPointers, MeaningOfAll, KeysParse;
  }

  // So does a manifest that never says the log, the next file or the last sequence.
  lemma MissingNumberFails(m: Meanings, comparator: Bytes, reading: Reading, r: Recovered)
    requires forall e :: e in Readable(comparator, reading.records) ==> KeysParse(e)
    requires Recovers(m, comparator, reading, r)
    requires var rs := Readable(comparator, reading.records);
      || (forall e :: e in rs ==> e.nextFile == None)
      || (forall e :: e in rs ==> e.logNumber == None)
      || (forall e :: e in rs ==> e.lastSequence == None)
    ensures r.Failed?
  {
    var rs := Readable(comparator, reading.records);
    hide Readable, Replays, ReplayPointers, MeaningOfAll, KeysParse, NumbersOf;
    NumbersAreTheRecords(m, rs);
  }

  // The numbers recovered are the ones set last; the old log's is 0 if none is.
  lemma RecoveredNumbersAreLast(m: Meanings, comparator: Bytes, reading: Reading, r: Recovered)
    requires forall e :: e in Readable(comparator, reading.records) ==> KeysParse(e)
    requires Recovers(m, comparator, reading, r) && r.Recovered?
    ensures var rs := Readable(comparator, reading.records);
      && IsLastSet(Some(r.logNumber), seq(|rs|, i requires 0 <= i < |rs| => rs[i].logNumber))
      && IsLastSet(Some(r.lastSequence), seq(|rs|, i requires 0 <= i < |rs| => rs[i].lastSequence))
      && IsLastSet(Some(r.manifestFileNumber), seq(|rs|, i requires 0 <= i < |rs| => rs[i].nextFile))
      && r.nextFileNumber == r.manifestFileNumber + 1
      && var prevs := seq(|rs|, i requires 0 <= i < |rs| => rs[i].prevLogNumber);
         IsLastSet(Some(r.prevLogNumber), prevs) || (IsLastSet(None, prevs) && r.prevLogNumber == 0)
  {
    var rs := Readable(comparator, reading.records);
    hide Readable, Replays, ReplayPointers, MeaningOfAll, KeysParse, NumbersOf, IsLastSet;
    NumbersAreTheRecords(m, rs);
  }

  lemma NumbersAreTheRecords(m: Meanings, rs: seq<EditRecord>)
    requires forall e :: e in rs ==> KeysParse(e)
    ensures var n := NumbersOf(MeaningOfAll(m, rs));
      && IsLastSet(n.logNumber, seq(|rs|, i requires 0 <= i < |rs| => rs[i].logNumber))
      && IsLastSet(n.prevLogNumber, seq(|rs|, i requires 0 <= i < |rs| => rs[i].prevLogNumber))
      && IsLastSet(n.nextFile, seq(|rs|, i requires 0 <= i < |rs| => rs[i].nextFile))
      && IsLastSet(n.lastSequence, seq(|rs|, i requires 0 <= i < |rs| => rs[i].lastSequence))
  {
    var edits := MeaningOfAll(m, rs);
    NumbersAreLastSet(edits);
    hide NumbersOf, IsLastSet;
    var n := |rs|;
    assert seq(n, i requires 0 <= i < n => edits[i].logNumber) == seq(n, i requires 0 <= i < n => rs[i].logNumber);
    assert seq(n, i requires 0 <= i < n => edits[i].prevLogNumber) ==
      seq(n, i requires 0 <= i < n => rs[i].prevLogNumber);
    assert seq(n, i requires 0 <= i < n => edits[i].nextFile) == seq(n, i requires 0 <= i < n => rs[i].nextFile);
    assert seq(n, i requires 0 <= i < n => edits[i].lastSequence) ==
      seq(n, i requires 0 <= i < n => rs[i].lastSequence);
  }

  // So does damage that the reader comes upon.
  lemma DamagedManifestFails(m: Meanings, comparator: Bytes, crc: Checksum, damaged: Bytes, records: seq<Bytes>, i: nat,
                             h: nat, r: Recovered)
    requires |damaged| == LogLength(crc, records) && AllNoticed(crc, damaged, records)
    requires i < |records| && HasHeader(LogLength(crc, records[..i]), records[i], h)
    requires Same(EncodeAll(crc, records), damaged, BlockStart(h), h) && h <= |damaged| && ReportsBlock(crc, damaged, h)
    requires forall e :: e in Readable(comparator, Scan(crc, damaged, 0, None).records) ==> KeysParse(e)
    requires Recovers(m, comparator, Scan(crc, damaged, 0, None), r)
    ensures r.Failed?
  {
    hide Readable, DecodeEdit, Replays, NumbersOf, ReplayPointers, MeaningOfAll, KeysParse, Scan, EncodeAll, AllNoticed;
    hide HasHeader, Same, ReportsBlock;
    DamageIsReported(crc, damaged, records, i, h);
  }

  // ----- manifests that were written ------------------------------------------------------------------

  // records are the encodings of rs, which fit.
  ghost predicate Encoded(rs: seq<EditRecord>, records: seq<Bytes>) {
    |records| == |rs| && forall i :: 0 <= i < |rs| ==> Fits(rs[i]) && records[i] == EncodeEdit(rs[i])
  }

  ghost predicate NamesComparator(rs: seq<EditRecord>, comparator: Bytes) {
    forall i :: 0 <= i < |rs| ==> rs[i].comparator == None || rs[i].comparator == Some(comparator)
  }

  // Encoded records read as what was encoded.
  lemma {:induction false} EncodedIsReadable(comparator: Bytes, rs: seq<EditRecord>, records: seq<Bytes>)
    requires Encoded(rs, records) && NamesComparator(rs, comparator)
    ensures Readable(comparator, records) == rs
  {
    hide Fits, EncodeEdit, DecodeEdit;
    if rs != [] {
      var n := |rs| - 1;
      EncodedIsReadable(comparator, rs[..n], records[..n]);
      EditRoundTrips(rs[n]);
      assert rs == rs[..n] + [rs[n]];
    }
  }

  // A manifest cut off inside the record after its last whole one.
  lemma CutManifestReads(crc: Checksum, records: seq<Bytes>, next: Bytes, cut: nat)
    requires LogLength(crc, records) <= cut < LogLength(crc, records + [next])
    ensures Scan(crc, EncodeAll(crc, records + [next])[..cut], 0, None) == Reading(records, [])
  {
    hide Scan, EncodeAll, WholeRecords;
    var longer := records + [next];
    TruncatedLogReads(crc, longer, cut);
    var k := WholeRecords(crc, longer, cut);
    WholeRecordsFit(crc, longer, cut);
    assert longer[..|records|] == records && longer[..|longer|] == longer;
    if k < |records| {
      LogGrows(crc, records, k + 1);
      PrefixOfLonger(records, next, k + 1);
      assert false;
    }
  }

  lemma PrefixOfLonger(records: seq<Bytes>, next: Bytes, k: nat)
    requires k <= |records|
    ensures (records + [next])[..k] == records[..k]
  {
  }

  lemma {:induction false} LogGrows(crc: Checksum, records: seq<Bytes>, k: nat)
    requires k <= |records|
    ensures LogLength(crc, records[..k]) <= LogLength(crc, records)
  {
    hide Encode;
    if k < |records| {
      var n := |records| - 1;
      LogGrows(crc, records[..n], k);
      assert records[..n][..k] == records[..k];
    } else {
      assert records[..k] == records;
    }
  }

  // Reading gives the records back, and VersionSet::Recover, which may read them,
  // gives a version with its pointers and numbers and nothing else.
  ghost predicate RecoversTo(m: Meanings, rs: seq<EditRecord>, comparator: Bytes, reading: Reading, r: Recovered) {
    && Readable(comparator, reading.records) == rs && (forall e :: e in rs ==> KeysParse(e))
    && NeverReused(MeaningOfAll(m, rs))
    && forall r' :: Recovers(m, comparator, reading, r') <==> r' == r
  }

  // What recovering a state's manifest must give.
  function StateOf(s: Store.State): Recovered {
    Recovered(s.version, ReplayPointers(s.edits), s.manifest.nextFile, s.manifest.nextFile + 1,
              s.manifest.lastSequence, s.manifest.logNumber, 0)
  }

  // In every state of every run: write the manifest's edits to a log, in any
  // spelling of keys that means them, and cut the file anywhere inside the record
  // that comes next.  Recovering it gives the current version, its pointers and
  // the numbers recorded last.  ManifestSpelling shows that there is a spelling.
  lemma ManifestRecovers(states: seq<Store.State>, steps: seq<StoreRuns.Step>, i: nat, m: Meanings, rs: seq<EditRecord>,
                         crc: Checksum, records: seq<Bytes>, next: Bytes, cut: nat)
    requires StoreRuns.Run(states, steps) && i < |states|
    requires Encoded(rs, records) && forall k :: 0 <= k < |rs| ==> KeysParse(rs[k])
    requires MeaningOfAll(m, rs) == states[i].edits
    requires LogLength(crc, records) <= cut < LogLength(crc, records + [next])
    ensures RecoversTo(m, rs, states[i].comparator, Scan(crc, EncodeAll(crc, records + [next])[..cut], 0, None),
      StateOf(states[i]))
  {
    hide Scan, EncodeAll, Fits, KeysParse, EncodeEdit, StoreRuns.Run, Replays, NumbersOf, ReplayPointers, NeverReused;
    hide StateOf;
    hide Recovers;
    var s := states[i];
    CutManifestReads(crc, records, next, cut);
    StoreRuns.ManifestReplays(states, steps, i, s.version);
    StoreRuns.ManifestComparators(states, steps, i);
    MeaningKeepsComparators(m, rs, s.comparator);
    EncodedIsReadable(s.comparator, rs, records);
    forall r ensures Recovers(m, s.comparator, Reading(records, []), r) <==> r == StateOf(s) {
      StateIsRecovered(states, steps, i, m, rs, records, r);
    }
  }

  lemma StateIsRecovered(states: seq<Store.State>, steps: seq<StoreRuns.Step>, i: nat, m: Meanings, rs: seq<EditRecord>,
                         records: seq<Bytes>, r: Recovered)
    requires StoreRuns.Run(states, steps) && i < |states| && |rs| == |records|
    requires Readable(states[i].comparator, records) == rs && forall k :: 0 <= k < |rs| ==> KeysParse(rs[k])
    requires MeaningOfAll(m, rs) == states[i].edits
    ensures Recovers(m, states[i].comparator, Reading(records, []), r) <==> r == StateOf(states[i])
  {
    hide Readable, KeysParse, StoreRuns.Run, Replays, NumbersOf, ReplayPointers, NeverReused;
    var s := states[i];
    StoreRuns.ManifestReplays(states, steps, i, if r.Recovered? then r.version else s.version);
    StoreRuns.ManifestReplays(states, steps, i, s.version);
    StoreRuns.ManifestComparators(states, steps, i);
  }

  lemma MeaningKeepsComparators(m: Meanings, rs: seq<EditRecord>, comparator: Bytes)
    requires forall k :: 0 <= k < |rs| ==> KeysParse(rs[k])
    requires var edits := MeaningOfAll(m, rs);
      forall k :: 0 <= k < |edits| ==> edits[k].comparator == None || edits[k].comparator == Some(comparator)
    ensures NamesComparator(rs, comparator)
  {
    hide KeysParse;
    forall k | 0 <= k < |rs| ensures rs[k].comparator == None || rs[k].comparator == Some(comparator) {
      assert MeaningOfAll(m, rs)[k].comparator == rs[k].comparator;
    }
  }
}
