/**
 What the log reader reports (ReportCorruption in db/log_reader.cc): damage is
 reported where the reader comes upon it, and no byte of a fragment gets lost
 without a report.
 */
module LogReports {
  import opened Basics
  import opened LogFormat
  import opened LogReader
  import opened LogRoundTrip

  // ----- one header ---------------------------------------------------------------------------

  function StoredLength(file: Bytes, pos: nat): nat
    requires pos + HEADER_SIZE <= |file|
  {
    file[pos + 4] as nat + 256 * file[pos + 5] as nat
  }

  predicate ChecksumMatches(crc: Checksum, file: Bytes, pos: nat)
    requires pos + HEADER_SIZE <= |file| && pos + HEADER_SIZE + StoredLength(file, pos) <= |file|
  {
    Crc(file[pos], file[pos + 1], file[pos + 2], file[pos + 3]) ==
      crc(file[pos + 6..pos + HEADER_SIZE + StoredLength(file, pos)])
  }

  // The reader gives up the rest of the block, and reports it.
  ghost predicate ReportsBlock(crc: Checksum, file: Bytes, pos: nat)
    requires pos <= |file|
  {
    PhysicalAt(crc, file, pos) == Bad(BlockEnd(file, pos), Some(BlockEnd(file, pos) - pos))
  }

  // A length past the end of a full block is reported; past the end of the file it
  // is that of a record cut off.
  lemma WrongLengthIsReported(crc: Checksum, file: Bytes, pos: nat)
    requires pos + HEADER_SIZE <= BlockEnd(file, pos)
    requires pos + HEADER_SIZE + StoredLength(file, pos) > BlockEnd(file, pos)
    ensures FullBlock(file, pos) ==> ReportsBlock(crc, file, pos)
    ensures !FullBlock(file, pos) ==> PhysicalAt(crc, file, pos) == Eof
  {
  }

  // A header inside its block: one of zeros leaves the block quietly, as a file
  // written in place has them; any other is read if and only if its checksum is
  // right, and reported if it is wrong.  Types 5 and 6 are taken for the reader's own.
  lemma WrongChecksumIsReported(crc: Checksum, file: Bytes, pos: nat)
    requires pos + HEADER_SIZE <= BlockEnd(file, pos)
    requires pos + HEADER_SIZE + StoredLength(file, pos) <= BlockEnd(file, pos)
    ensures var n, t := StoredLength(file, pos), file[pos + 6];
      && (n == 0 && t == 0 ==> PhysicalAt(crc, file, pos) == Bad(BlockEnd(file, pos), None))
      && (!(n == 0 && t == 0) && !ChecksumMatches(crc, file, pos) ==> ReportsBlock(crc, file, pos))
      && (!(n == 0 && t == 0) && ChecksumMatches(crc, file, pos) ==>
           PhysicalAt(crc, file, pos) ==
             if t == 5 then Eof else if t == 6 then Bad(pos + HEADER_SIZE + n, None)
             else Record(t, file[pos + HEADER_SIZE..pos + HEADER_SIZE + n], pos + HEADER_SIZE + n))
  {
    var n := StoredLength(file, pos);
    assert file[pos + 6..pos + HEADER_SIZE + n] == [file[pos + 6]] + file[pos + HEADER_SIZE..pos + HEADER_SIZE + n];
  }

  // ----- where the reader comes ------------------------------------------------------------------

  // Reading from p comes to q; at the padding of a block it is at the next.
  ghost predicate Leads(crc: Checksum, file: Bytes, p: nat, q: nat)
    requires p <= |file| && q <= |file|
    decreases |file| - p
  {
    var r := PhysicalAt(crc, file, p);
    r == PhysicalAt(crc, file, q) || (!r.Eof? && Leads(crc, file, r.next, q))
  }

  lemma {:induction false} LeadsOn(crc: Checksum, file: Bytes, p: nat, q: nat, r: nat)
    requires p <= |file| && q <= |file| && r <= |file|
    requires Leads(crc, file, p, q) && Leads(crc, file, q, r)
    ensures Leads(crc, file, p, r)
    decreases |file| - p
  {
    hide PhysicalAt;
    var at := PhysicalAt(crc, file, p);
    if at != PhysicalAt(crc, file, q) { LeadsOn(crc, file, at.next, q, r); }
  }

  // Wherever the reader comes, it reports what is wrong there.
  lemma {:induction false} ReportsOnTheWay(crc: Checksum, file: Bytes, p: nat, q: nat, scratch: Option<Bytes>)
    requires p <= |file| && q <= |file| && Leads(crc, file, p, q) && ReportsBlock(crc, file, q)
    ensures BlockEnd(file, q) - q in Scan(crc, file, p, scratch).drops
    decreases |file| - p
  {
    hide PhysicalAt, Handle;
    var r := PhysicalAt(crc, file, p);
    if r != PhysicalAt(crc, file, q) { ReportsOnTheWay(crc, file, r.next, q, Handle(scratch, r).scratch); }
  }

  // After a fragment of a damaged log the reader is where it should be, unless it
  // is at the end of the file.
  ghost predicate Arrives(crc: Checksum, file: Bytes, damaged: Bytes, p: nat, pos: nat)
    requires p <= |damaged| == |file| && pos <= |file|
  {
    Leads(crc, damaged, p, ReaderAt(file, damaged, pos)) || ReaderAt(file, damaged, pos) == |file|
  }

  lemma SkipsPadding(crc: Checksum, file: Bytes, damaged: Bytes, pos: nat)
    requires |damaged| == |file| && HeaderPos(pos) <= |file|
    ensures Leads(crc, damaged, ReaderAt(file, damaged, pos), ReaderAt(file, damaged, HeaderPos(pos)))
  {
    hide PhysicalAt;
    HeaderPosInBlock(pos);
    var header := HeaderPos(pos);
    if header > pos {
      assert BlockEnd(file, pos) == header && BlockStart(header) == header;
      PaddingIsSkipped(crc, damaged, pos);
    }
  }

  lemma FragmentLeads(crc: Checksum, file: Bytes, damaged: Bytes, pos: nat, data: Bytes, begin: bool)
    requires |damaged| == |file| && Holds(file, pos, FirstFragment(crc, pos % BLOCK_SIZE, data, begin))
    requires AfterFragment(pos, data) <= |file|
    requires Same(file, damaged, HeaderPos(pos), AfterFragment(pos, data)) || Rejected(crc, damaged, HeaderPos(pos))
    ensures var header, next := HeaderPos(pos), AfterFragment(pos, data);
      || Leads(crc, damaged, ReaderAt(file, damaged, header), ReaderAt(file, damaged, next))
      || ReaderAt(file, damaged, next) == |file|
  {
    hide PhysicalAt, FirstFragment, Holds, Physical, ReaderAt, Same;
    var header, next, n := HeaderPos(pos), AfterFragment(pos, data), FragmentLength(pos % BLOCK_SIZE, |data|);
    HeaderPosInBlock(pos);
    ReaderAfter(file, damaged, header, next);
    SameParts(file, damaged, BlockStart(header), header, next);
    ReaderAtHeader(file, damaged, header);
    SameBlockEnd(file, damaged, header);
    if Same(file, damaged, BlockStart(header), next) {
      var t, payload := FragmentType(begin, n == |data|), data[..n];
      FragmentHolds(crc, file, pos, data, begin);
      PhysicalLength(crc, t, payload);
      SameHolds(file, damaged, header, Physical(crc, t, payload));
      PhysicalParses(crc, damaged, header, t, payload);
    }
  }

  lemma ArrivesAfter(crc: Checksum, file: Bytes, damaged: Bytes, p: nat, pos: nat, data: Bytes, begin: bool)
    requires |damaged| == |file| && Holds(file, pos, FirstFragment(crc, pos % BLOCK_SIZE, data, begin))
    requires AfterFragment(pos, data) <= |file| && p <= |file|
    requires Same(file, damaged, HeaderPos(pos), AfterFragment(pos, data)) || Rejected(crc, damaged, HeaderPos(pos))
    requires Arrives(crc, file, damaged, p, pos)
    ensures Arrives(crc, file, damaged, p, HeaderPos(pos)) && Arrives(crc, file, damaged, p, AfterFragment(pos, data))
  {
    hide Leads, Holds, FirstFragment, Same, Rejected, FragmentLength;
    var header, next := HeaderPos(pos), AfterFragment(pos, data);
    HeaderPosInBlock(pos);
    SkipsPadding(crc, file, damaged, pos);
    FragmentLeads(crc, file, damaged, pos, data, begin);
    hide ReaderAt;
    if ReaderAt(file, damaged, pos) == |file| { StaysAtEnd(file, damaged, pos, header); }
    if ReaderAt(file, damaged, header) == |file| { StaysAtEnd(file, damaged, header, next); }
    if ReaderAt(file, damaged, pos) != |file| {
      LeadsOn(crc, damaged, p, ReaderAt(file, damaged, pos), ReaderAt(file, damaged, header));
    }
    if ReaderAt(file, damaged, header) != |file| && ReaderAt(file, damaged, next) != |file| {
      LeadsOn(crc, damaged, p, ReaderAt(file, damaged, header), ReaderAt(file, damaged, next));
    }
  }

  // A reader that has left the last block stays at the end.
  lemma StaysAtEnd(file: Bytes, damaged: Bytes, pos: nat, next: nat)
    requires |damaged| == |file| && pos <= next <= |file| && ReaderAt(file, damaged, pos) == |file|
    ensures ReaderAt(file, damaged, next) == |file|
  {
    if pos < |file| && next < |file| {
      assert BlockEnd(file, pos) == |file|;
      assert BlockStart(next) == BlockStart(pos);
      SameParts(file, damaged, BlockStart(pos), pos, next);
    }
  }

  // ----- a damaged log ------------------------------------------------------------------------------

  // One of the fragments of data, written at pos, has its header at h.
  ghost predicate HasHeader(pos: nat, data: Bytes, h: nat)
    decreases |data|, Measure(pos)
  {
    var n := FragmentLength(pos % BLOCK_SIZE, |data|);
    h == HeaderPos(pos) || (n < |data| && (Shrinks(pos, data); HasHeader(AfterFragment(pos, data), data[n..], h)))
  }

  lemma {:induction false} RecordLeads(crc: Checksum, file: Bytes, damaged: Bytes, p: nat, pos: nat, data: Bytes,
                                       begin: bool, h: nat)
    requires |damaged| == |file| && Holds(file, pos, Encode(crc, pos % BLOCK_SIZE, data, begin))
    requires Noticed(crc, file, damaged, pos, data) && p <= |file| && Arrives(crc, file, damaged, p, pos)
    ensures pos + |Encode(crc, pos % BLOCK_SIZE, data, begin)| <= |file|
    ensures Arrives(crc, file, damaged, p, RecordEnd(crc, pos, data, begin))
    ensures HasHeader(pos, data, h) ==> h <= |file| && Arrives(crc, file, damaged, p, h)
    decreases |data|, Measure(pos)
  {
    hide Encode, FirstFragment, Arrives, Same, PhysicalAt, HeaderPos, Padding, FragmentLength, Holds, Rejected;
    var n := FragmentLength(pos % BLOCK_SIZE, |data|);
    EncodeAtPos(crc, file, pos, data, begin);
    var first := FirstFragment(crc, pos % BLOCK_SIZE, data, begin);
    var next := AfterFragment(pos, data);
    var rest := if n == |data| then [] else Encode(crc, next % BLOCK_SIZE, data[n..], false);
    HoldsParts(file, pos, first, rest);
    HoldsInside(file, pos, first + rest);
    ArrivesAfter(crc, file, damaged, p, pos, data, begin);
    if n < |data| {
      Shrinks(pos, data);
      RecordLeads(crc, file, damaged, p, next, data[n..], false, h);
    }
  }

  lemma {:induction false} RecordsLead(crc: Checksum, damaged: Bytes, records: seq<Bytes>, k: nat)
    requires |damaged| == LogLength(crc, records) && AllNoticed(crc, damaged, records) && k <= |records|
    ensures LogLength(crc, records[..k]) <= |damaged|
    ensures Arrives(crc, EncodeAll(crc, records), damaged, 0, LogLength(crc, records[..k]))
  {
    hide Encode, EncodeAll, Holds, Noticed, Arrives, HasHeader, FragmentLength;
    var file := EncodeAll(crc, records);
    if k == 0 {
      EmptyLog(crc);
      assert records[..0] == [];
      StartIsReached(crc, file, damaged);
    } else {
      var pos := LogLength(crc, records[..k - 1]);
      LogHolds(crc, records, k - 1);
      RecordsLead(crc, damaged, records, k - 1);
      RecordLeads(crc, file, damaged, 0, pos, records[k - 1], true, 0);
      assert records[..k][..k - 1] == records[..k - 1];
    }
  }

  lemma StartIsReached(crc: Checksum, file: Bytes, damaged: Bytes)
    requires |damaged| == |file|
    ensures Arrives(crc, file, damaged, 0, 0)
  {
    hide PhysicalAt;
    ReaderAtHeader(file, damaged, 0);
  }

  // Damage that the reader comes upon is reported: if the header of a fragment has
  // a wrong checksum, or a wrong length, and nothing before it in its block was
  // changed, then the size of the rest of that block is among the drops.
  lemma DamageIsReported(crc: Checksum, damaged: Bytes, records: seq<Bytes>, i: nat, h: nat)
    requires |damaged| == LogLength(crc, records) && AllNoticed(crc, damaged, records)
    requires i < |records| && HasHeader(LogLength(crc, records[..i]), records[i], h)
    requires Same(EncodeAll(crc, records), damaged, BlockStart(h), h) && h <= |damaged| && ReportsBlock(crc, damaged, h)
    ensures BlockEnd(damaged, h) - h in Scan(crc, damaged, 0, None).drops
  {
    hide Encode, EncodeAll, Holds, Noticed, HasHeader, Same, PhysicalAt, ReportsBlock, Leads, Scan;
    var file := EncodeAll(crc, records);
    RecordsLead(crc, damaged, records, i);
    LogHolds(crc, records, i);
    RecordLeads(crc, file, damaged, 0, LogLength(crc, records[..i]), records[i], true, h);
    ReportIsInside(crc, damaged, h);
    ReportsOnTheWay(crc, damaged, 0, h, None);
  }

  lemma ReportIsInside(crc: Checksum, file: Bytes, h: nat)
    requires h <= |file| && ReportsBlock(crc, file, h)
    ensures h < |file|
  {
  }

  // ----- no byte gets lost ------------------------------------------------------------------------------

  ghost function Sum(ns: seq<nat>): nat {
    if ns == [] then 0 else ns[0] + Sum(ns[1..])
  }

  ghost function Lengths(records: seq<Bytes>): nat {
    if records == [] then 0 else |records[0]| + Lengths(records[1..])
  }

  function ScratchLength(scratch: Option<Bytes>): nat {
    if scratch.Some? then |scratch.value| else 0
  }

  // The bytes that a physical record gives to ReadRecord, or that are reported
  // in its place.
  function Given(r: PhysicalRecord): nat {
    match r
    case Eof => 0
    case Bad(_, drop) => if drop.Some? then drop.value else 0
    case Record(_, payload, _) => |payload|
  }

  ghost function GivenFrom(crc: Checksum, file: Bytes, pos: nat): nat
    requires pos <= |file|
    decreases |file| - pos
  {
    var r := PhysicalAt(crc, file, pos);
    if r.Eof? then 0 else Given(r) + GivenFrom(crc, file, r.next)
  }

  // The fragments of a record that the end of the file cuts off.
  ghost function UnfinishedFrom(crc: Checksum, file: Bytes, pos: nat, scratch: Option<Bytes>): nat
    requires pos <= |file|
    decreases |file| - pos
  {
    var r := PhysicalAt(crc, file, pos);
    if r.Eof? then ScratchLength(scratch) else UnfinishedFrom(crc, file, r.next, Handle(scratch, r).scratch)
  }

  lemma {:induction false} SumOfBoth(a: seq<nat>, b: seq<nat>)
    ensures Sum(a + b) == Sum(a) + Sum(b)
  {
    if a == [] {
      assert a + b == b;
    } else {
      SumOfBoth(a[1..], b);
      assert (a + b)[1..] == a[1..] + b;
    }
  }

  lemma OneMore(record: Option<Bytes>, records: seq<Bytes>)
    ensures Lengths(One(record) + records) == ScratchLength(record) + Lengths(records)
  {
    if record.Some? {
      assert (One(record) + records)[1..] == records;
    } else {
      assert One(record) + records == records;
    }
  }

  lemma SumOfOne(n: nat)
    ensures Sum([n]) == n && Sum([]) == 0
  {
    assert [n][1..] == [];
  }

  lemma HandledBytes(scratch: Option<Bytes>, r: PhysicalRecord)
    requires !r.Eof?
    ensures var h := Handle(scratch, r);
      ScratchLength(h.record) + Sum(Dropped(r) + h.drops) + ScratchLength(h.scratch) ==
      ScratchLength(scratch) + Given(r)
  {
    var h := Handle(scratch, r);
    SumOfBoth(Dropped(r), h.drops);
    SumOfOne(ScratchLength(scratch));
    if r.Record? {
      SumOfOne(|r.payload|);
      SumOfOne(|r.payload| + ScratchLength(scratch));
    } else if r.drop.Some? {
      SumOfOne(r.drop.value);
    }
    hide Sum;
  }

  // On any bytes: all that the physical records give is in a record returned, in a
  // report, or in a record that the end of the file cuts off.
  lemma {:induction false} NoByteGetsLost(crc: Checksum, file: Bytes, pos: nat, scratch: Option<Bytes>)
    requires pos <= |file|
    ensures var all := Scan(crc, file, pos, scratch);
      Lengths(all.records) + Sum(all.drops) + UnfinishedFrom(crc, file, pos, scratch) ==
      ScratchLength(scratch) + GivenFrom(crc, file, pos)
    decreases |file| - pos
  {
    hide PhysicalAt, Handle, Dropped, One, Given, ScratchLength;
    var r := PhysicalAt(crc, file, pos);
    if !r.Eof? {
      var h := Handle(scratch, r);
      var rest := Scan(crc, file, r.next, h.scratch);
      HandledBytes(scratch, r);
      OneMore(h.record, rest.records);
      SumOfBoth(Dropped(r) + h.drops, rest.drops);
      NoByteGetsLost(crc, file, r.next, h.scratch);
    }
  }
}
