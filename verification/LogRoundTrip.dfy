/**
 Reading back what log::Writer wrote: whole logs, logs cut off anywhere, and
 logs with a damaged block.
 */
module LogRoundTrip {
  import opened Basics
  import opened LogFormat
  import opened LogWriter
  import opened LogReader

  // ----- one fragment -----------------------------------------------------------------------

  // A physical record inside one block parses to its type and payload.
  lemma PhysicalParses(crc: Checksum, file: Bytes, pos: nat, t: Byte, payload: Bytes)
    requires |payload| < 65536 && ZERO_TYPE < t <= LAST_TYPE
    requires pos % BLOCK_SIZE + HEADER_SIZE + |payload| <= BLOCK_SIZE
    requires Holds(file, pos, Physical(crc, t, payload))
    ensures PhysicalAt(crc, file, pos) == Record(t, payload, pos + HEADER_SIZE + |payload|)
  {
    var bytes := Physical(crc, t, payload);
    var s := file[pos..pos + |bytes|];
    forall k | 0 <= k < |bytes| ensures file[pos + k] == bytes[k] { assert s[k] == file[pos + k]; }
    assert file[pos + HEADER_SIZE..pos + HEADER_SIZE + |payload|] == payload;
    assert |payload| % 256 + 256 * (|payload| / 256) == |payload|;
    assert pos + HEADER_SIZE + |payload| <= BlockEnd(file, pos);
  }

  // The position of the header of the first fragment written at pos.
  function HeaderPos(pos: nat): nat { pos + Padding(pos % BLOCK_SIZE) }

  // The position after the first fragment.
  function AfterFragment(pos: nat, data: Bytes): nat {
    HeaderPos(pos) + HEADER_SIZE + FragmentLength(pos % BLOCK_SIZE, |data|)
  }

  lemma HeaderPosInBlock(pos: nat)
    ensures HeaderPos(pos) % BLOCK_SIZE == Start(pos % BLOCK_SIZE)
    ensures HeaderPos(pos) > pos ==>
      HeaderPos(pos) == pos / BLOCK_SIZE * BLOCK_SIZE + BLOCK_SIZE && HeaderPos(pos) - pos < HEADER_SIZE
  {
  }

  lemma FragmentHolds(crc: Checksum, file: Bytes, pos: nat, data: Bytes, begin: bool)
    requires Holds(file, pos, FirstFragment(crc, pos % BLOCK_SIZE, data, begin))
    ensures var n := FragmentLength(pos % BLOCK_SIZE, |data|);
      Holds(file, HeaderPos(pos), Physical(crc, FragmentType(begin, n == |data|), data[..n]))
  {
    hide Physical;
    var n := FragmentLength(pos % BLOCK_SIZE, |data|);
    HoldsParts(file, pos, Zeros(Padding(pos % BLOCK_SIZE)), Physical(crc, FragmentType(begin, n == |data|), data[..n]));
  }

  lemma PaddingIsSkipped(crc: Checksum, file: Bytes, pos: nat)
    requires HeaderPos(pos) <= |file|
    ensures PhysicalAt(crc, file, pos) == PhysicalAt(crc, file, HeaderPos(pos))
  {
    HeaderPosInBlock(pos);
    if HeaderPos(pos) > pos {
      assert BlockEnd(file, pos) == HeaderPos(pos) && FullBlock(file, pos);
    }
  }

  lemma FragmentReads(crc: Checksum, file: Bytes, pos: nat, data: Bytes, begin: bool)
    requires Holds(file, pos, FirstFragment(crc, pos % BLOCK_SIZE, data, begin))
    ensures var n := FragmentLength(pos % BLOCK_SIZE, |data|);
      PhysicalAt(crc, file, pos) == Record(FragmentType(begin, n == |data|), data[..n], AfterFragment(pos, data))
    ensures AfterFragment(pos, data) <= |file|
  {
    hide PhysicalAt, Physical, FirstFragment;
    var n := FragmentLength(pos % BLOCK_SIZE, |data|);
    FragmentHolds(crc, file, pos, data, begin);
    HeaderPosInBlock(pos);
    PhysicalLength(crc, FragmentType(begin, n == |data|), data[..n]);
    PaddingIsSkipped(crc, file, pos);
    PhysicalParses(crc, file, HeaderPos(pos), FragmentType(begin, n == |data|), data[..n]);
  }

  lemma PhysicalLength(crc: Checksum, t: Byte, payload: Bytes)
    requires |payload| < 65536
    ensures |Physical(crc, t, payload)| == HEADER_SIZE + |payload|
  {
  }

  // The bytes of a record from pos on: the first fragment, then the rest.
  lemma EncodeAtPos(crc: Checksum, file: Bytes, pos: nat, data: Bytes, begin: bool)
    ensures var n := FragmentLength(pos % BLOCK_SIZE, |data|);
      var rest := if n == |data| then [] else Encode(crc, AfterFragment(pos, data) % BLOCK_SIZE, data[n..], false);
      && Encode(crc, pos % BLOCK_SIZE, data, begin) == FirstFragment(crc, pos % BLOCK_SIZE, data, begin) + rest
      && pos + |FirstFragment(crc, pos % BLOCK_SIZE, data, begin)| == AfterFragment(pos, data)
  {
    hide Encode, FirstFragment;
    var n := FragmentLength(pos % BLOCK_SIZE, |data|);
    EncodeStep(crc, pos % BLOCK_SIZE, data, begin);
    HeaderPosInBlock(pos);
    if Start(pos % BLOCK_SIZE) + HEADER_SIZE + n == BLOCK_SIZE {
      EncodeAtBlockEnd(crc, data[n..], false);
    }
  }

  // ----- one record ----------------------------------------------------------------------------

  function RecordEnd(crc: Checksum, pos: nat, data: Bytes, begin: bool): nat {
    pos + |Encode(crc, pos % BLOCK_SIZE, data, begin)|
  }

  function Measure(pos: nat): nat {
    if Start(pos % BLOCK_SIZE) + HEADER_SIZE == BLOCK_SIZE then 1 else 0
  }

  // After an empty fragment, written where only a header fits, comes a longer one.
  lemma Shrinks(pos: nat, data: Bytes)
    requires FragmentLength(pos % BLOCK_SIZE, |data|) < |data|
    ensures FragmentLength(pos % BLOCK_SIZE, |data|) > 0 || Measure(AfterFragment(pos, data)) < Measure(pos)
  {
    HeaderPosInBlock(pos);
  }

  // The fragments read so far of a record; None before the first.
  function Scratch(begin: bool, sofar: Bytes): Option<Bytes> {
    if begin then None else Some(sofar)
  }

  lemma {:induction false} RecordReads(crc: Checksum, file: Bytes, pos: nat, data: Bytes, begin: bool, sofar: Bytes)
    requires Holds(file, pos, Encode(crc, pos % BLOCK_SIZE, data, begin)) && (begin ==> sofar == [])
    ensures Scan(crc, file, pos, Scratch(begin, sofar))
      == Before([sofar + data], [], Scan(crc, file, RecordEnd(crc, pos, data, begin), None))
    decreases |data|, Measure(pos)
  {
    hide PhysicalAt, Encode, FirstFragment, Scan, Holds, HeaderPos, Padding, FragmentLength;
    var n := FragmentLength(pos % BLOCK_SIZE, |data|);
    EncodeAtPos(crc, file, pos, data, begin);
    var first := FirstFragment(crc, pos % BLOCK_SIZE, data, begin);
    var next := AfterFragment(pos, data);
    var rest := if n == |data| then [] else Encode(crc, next % BLOCK_SIZE, data[n..], false);
    HoldsParts(file, pos, first, rest);
    FragmentReads(crc, file, pos, data, begin);
    ScanStep(crc, file, pos, begin, sofar, data, n, next);
    if n < |data| {
      Shrinks(pos, data);
      RecordReads(crc, file, next, data[n..], false, sofar + data[..n]);
      assert sofar + data[..n] + data[n..] == sofar + data;
    }
  }

  lemma ScanStep(crc: Checksum, file: Bytes, pos: nat, begin: bool, sofar: Bytes, data: Bytes, n: nat, next: nat)
    requires pos < next <= |file| && n <= |data| && (begin ==> sofar == [])
    requires PhysicalAt(crc, file, pos) == Record(FragmentType(begin, n == |data|), data[..n], next)
    ensures Scan(crc, file, pos, Scratch(begin, sofar)) ==
      if n == |data| then Before([sofar + data], [], Scan(crc, file, next, None))
      else Scan(crc, file, next, Scratch(false, sofar + data[..n]))
  {
    hide PhysicalAt;
    assert n == |data| ==> data[..n] == data && [] + data == data;
    if n < |data| { Unread(Scan(crc, file, next, Scratch(false, sofar + data[..n]))); }
    assert begin ==> sofar + data[..n] == data[..n];
  }

  // ----- a record that is cut off ---------------------------------------------------------------

  // A fragment that is cut off reads as the end of the file.
  lemma CutFragmentIsEof(crc: Checksum, file: Bytes, cut: nat, pos: nat, data: Bytes, begin: bool)
    requires Holds(file, pos, FirstFragment(crc, pos % BLOCK_SIZE, data, begin))
    requires pos <= cut < AfterFragment(pos, data) && cut <= |file|
    ensures PhysicalAt(crc, file[..cut], pos).Eof?
  {
    hide Physical, FirstFragment;
    var n := FragmentLength(pos % BLOCK_SIZE, |data|);
    var header := HeaderPos(pos);
    HeaderPosInBlock(pos);
    if cut < header {
      assert BlockEnd(file[..cut], pos) == cut;
    } else {
      PaddingIsSkipped(crc, file[..cut], pos);
      FragmentHolds(crc, file, pos, data, begin);
      var t, payload := FragmentType(begin, n == |data|), data[..n];
      PhysicalLength(crc, t, payload);
      assert BlockEnd(file[..cut], header) == cut && !FullBlock(file[..cut], header);
      if header + HEADER_SIZE <= cut {
        LengthBytes(crc, file, header, t, payload);
        assert file[..cut][header + 4] == file[header + 4] && file[..cut][header + 5] == file[header + 5];
      }
    }
  }

  lemma LengthBytes(crc: Checksum, file: Bytes, pos: nat, t: Byte, payload: Bytes)
    requires |payload| < 65536 && Holds(file, pos, Physical(crc, t, payload))
    ensures pos + HEADER_SIZE <= |file| && file[pos + 4] as int + 256 * file[pos + 5] as int == |payload|
  {
    var bytes := Physical(crc, t, payload);
    var s := file[pos..pos + |bytes|];
    assert s[4] == file[pos + 4] && s[5] == file[pos + 5];
  }

  lemma {:induction false} CutRecordIsIgnored(crc: Checksum, file: Bytes, cut: nat, pos: nat, data: Bytes, begin: bool,
                                              sofar: Bytes)
    requires Holds(file, pos, Encode(crc, pos % BLOCK_SIZE, data, begin)) && (begin ==> sofar == [])
    requires pos <= cut < RecordEnd(crc, pos, data, begin) && cut <= |file|
    ensures Scan(crc, file[..cut], pos, Scratch(begin, sofar)) == Reading([], [])
    decreases |data|, Measure(pos)
  {
    hide PhysicalAt, Encode, FirstFragment;
    var n := FragmentLength(pos % BLOCK_SIZE, |data|);
    EncodeAtPos(crc, file, pos, data, begin);
    var first := FirstFragment(crc, pos % BLOCK_SIZE, data, begin);
    var next := AfterFragment(pos, data);
    var rest := if n == |data| then [] else Encode(crc, next % BLOCK_SIZE, data[n..], false);
    HoldsParts(file, pos, first, rest);
    if cut < next {
      CutFragmentIsEof(crc, file, cut, pos, data, begin);
    } else {
      HoldsPrefix(file, cut, pos, first);
      FragmentReads(crc, file[..cut], pos, data, begin);
      ScanStep(crc, file[..cut], pos, begin, sofar, data, n, next);
      Shrinks(pos, data);
      CutRecordIsIgnored(crc, file, cut, next, data[n..], false, sofar + data[..n]);
    }
  }

  // ----- whole logs ---------------------------------------------------------------------------------

  function LogLength(crc: Checksum, records: seq<Bytes>): nat { |EncodeAll(crc, records)| }

  // A log written so far is a prefix of the log, and the next record follows it.
  lemma {:induction false} LogHolds(crc: Checksum, records: seq<Bytes>, k: nat)
    requires k <= |records|
    ensures LogLength(crc, records[..k]) <= LogLength(crc, records)
    ensures k < |records| ==>
      var pos := LogLength(crc, records[..k]);
      && Holds(EncodeAll(crc, records), pos, Encode(crc, pos % BLOCK_SIZE, records[k], true))
      && LogLength(crc, records[..k + 1]) == RecordEnd(crc, pos, records[k], true)
  {
    hide Encode;
    if k == |records| {
      assert records[..k] == records;
    } else {
      var front := records[..|records| - 1];
      LogHolds(crc, front, k);
      assert front[..k] == records[..k] && records[..k + 1][..k] == records[..k];
      assert k < |front| ==> front[..k + 1] == records[..k + 1];
      if k < |front| {
        HoldsAppended(EncodeAll(crc, front), LogLength(crc, records[..k]),
                      Encode(crc, LogLength(crc, records[..k]) % BLOCK_SIZE, records[k], true),
                      EncodeAll(crc, records));
      } else {
        assert records[..k + 1] == records;
      }
    }
  }

  // The records that a cut log still holds whole.
  function WholeRecords(crc: Checksum, records: seq<Bytes>, cut: nat): (k: nat)
    ensures k <= |records|
  {
    if records == [] || LogLength(crc, records) <= cut then |records|
    else WholeRecords(crc, records[..|records| - 1], cut)
  }

  // They fit, and one more would not.
  lemma {:induction false} WholeRecordsFit(crc: Checksum, records: seq<Bytes>, cut: nat)
    ensures var k := WholeRecords(crc, records, cut);
      && LogLength(crc, records[..k]) <= cut
      && (k < |records| ==> cut < LogLength(crc, records[..k + 1]))
  {
    hide EncodeAll;
    EmptyLog(crc);
    assert records[..|records|] == records;
    if records != [] && LogLength(crc, records) > cut {
      var front := records[..|records| - 1];
      WholeRecordsFit(crc, front, cut);
      var k := WholeRecords(crc, front, cut);
      assert front[..k] == records[..k];
      assert k < |front| ==> front[..k + 1] == records[..k + 1];
    }
  }

  // Reading the first k records of a log, from a file that goes on as the log
  // does up to there.
  lemma {:induction false} RecordsRead(crc: Checksum, records: seq<Bytes>, k: nat, cut: nat)
    requires k <= |records| && LogLength(crc, records[..k]) <= cut <= LogLength(crc, records)
    ensures Scan(crc, EncodeAll(crc, records)[..cut], 0, None)
      == Before(records[..k], [], Scan(crc, EncodeAll(crc, records)[..cut], LogLength(crc, records[..k]), None))
  {
    hide Encode, Scan, EncodeAll, Holds;
    var file := EncodeAll(crc, records);
    if k == 0 {
      EmptyLog(crc);
      assert records[..0] == [];
      Unread(Scan(crc, file[..cut], 0, None));
    } else {
      var pos := LogLength(crc, records[..k - 1]);
      LogHolds(crc, records, k - 1);
      RecordsRead(crc, records, k - 1, cut);
      HoldsPrefix(file, cut, pos, Encode(crc, pos % BLOCK_SIZE, records[k - 1], true));
      RecordReads(crc, file[..cut], pos, records[k - 1], true, []);
      assert [] + records[k - 1] == records[k - 1];
      assert records[..k] == records[..k - 1] + [records[k - 1]];
      BeforeBefore(records[..k - 1], [], [records[k - 1]], [],
        Scan(crc, file[..cut], LogLength(crc, records[..k]), None));
    }
  }

  lemma EmptyLog(crc: Checksum)
    ensures EncodeAll(crc, []) == []
  {
  }

  // A log cut off at any byte reads as the records that fit whole, and nothing
  // is reported.
  lemma TruncatedLogReads(crc: Checksum, records: seq<Bytes>, cut: nat)
    requires cut <= LogLength(crc, records)
    ensures Scan(crc, EncodeAll(crc, records)[..cut], 0, None) ==
      Reading(records[..WholeRecords(crc, records, cut)], [])
  {
    hide Encode, Scan, EncodeAll;
    var file := EncodeAll(crc, records);
    var k := WholeRecords(crc, records, cut);
    WholeRecordsFit(crc, records, cut);
    var pos := LogLength(crc, records[..k]);
    RecordsRead(crc, records, k, cut);
    LogHolds(crc, records, k);
    if k < |records| {
      CutRecordIsIgnored(crc, file, cut, pos, records[k], true, []);
    } else {
      assert records[..k] == records;
      EndIsEof(crc, file[..cut]);
    }
  }

  lemma EndIsEof(crc: Checksum, file: Bytes)
    ensures Scan(crc, file, |file|, None) == Reading([], [])
  {
    assert PhysicalAt(crc, file, |file|).Eof?;
  }

  // What was written is read back, and nothing is reported.
  lemma LogRoundTrips(crc: Checksum, records: seq<Bytes>)
    ensures Scan(crc, EncodeAll(crc, records), 0, None) == Reading(records, [])
  {
    hide Encode, Scan, EncodeAll;
    var file := EncodeAll(crc, records);
    TruncatedLogReads(crc, records, |file|);
    assert file[..|file|] == file && records[..|records|] == records;
    WholeRecordsFit(crc, records, |file|);
    LogHolds(crc, records, WholeRecords(crc, records, |file|));
    LogHoldsAll(crc, records, WholeRecords(crc, records, |file|));
  }

  // The log grows with every record.
  lemma LogHoldsAll(crc: Checksum, records: seq<Bytes>, k: nat)
    requires k < |records| ==> LogLength(crc, records) < LogLength(crc, records[..k + 1])
    ensures k >= |records|
  {
    if k < |records| { LogHolds(crc, records, k + 1); }
  }

  // ----- damaged logs -------------------------------------------------------------------------------

  // The damaged file is as long as the log and the same in [lo, hi).
  ghost predicate Same(file: Bytes, damaged: Bytes, lo: nat, hi: nat) {
    |damaged| == |file| && lo <= hi <= |file| && damaged[lo..hi] == file[lo..hi]
  }

  function BlockStart(pos: nat): nat { pos / BLOCK_SIZE * BLOCK_SIZE }

  // What is at pos makes the reader leave the block around it.
  ghost predicate Rejected(crc: Checksum, file: Bytes, pos: nat)
    requires pos <= |file|
  {
    match PhysicalAt(crc, file, pos)
    case Eof => BlockEnd(file, pos) == |file|
    case Bad(next, _) => next == BlockEnd(file, pos)
    case Record(_, _, _) => false
  }

  // A wrong length or a wrong checksum is noticed.
  lemma WrongChecksumIsRejected(crc: Checksum, file: Bytes, pos: nat)
    requires pos + HEADER_SIZE <= BlockEnd(file, pos)
    ensures var length := file[pos + 4] as int + 256 * file[pos + 5] as int;
      pos + HEADER_SIZE + length > BlockEnd(file, pos)
      || Crc(file[pos], file[pos + 1], file[pos + 2], file[pos + 3])
           != crc([file[pos + 6]] + file[pos + HEADER_SIZE..pos + HEADER_SIZE + length])
      ==> Rejected(crc, file, pos)
  {
  }

  // Every change to a fragment of data, written at pos, is noticed by the
  // checksum (or the length) in its header.
  ghost predicate Noticed(crc: Checksum, file: Bytes, damaged: Bytes, pos: nat, data: Bytes)
    decreases |data|, Measure(pos)
  {
    var n := FragmentLength(pos % BLOCK_SIZE, |data|);
    var next := AfterFragment(pos, data);
    && next <= |damaged|
    && (Same(file, damaged, HeaderPos(pos), next) || Rejected(crc, damaged, HeaderPos(pos)))
    && (n == |data| || (Shrinks(pos, data); Noticed(crc, file, damaged, next, data[n..])))
  }

  // A record survives if nothing was changed from the beginning of the block
  // that its header is in up to its last byte.
  ghost predicate Survives(crc: Checksum, file: Bytes, damaged: Bytes, pos: nat, data: Bytes) {
    Same(file, damaged, BlockStart(HeaderPos(pos)), RecordEnd(crc, pos, data, true))
  }

  ghost function Survivors(crc: Checksum, file: Bytes, damaged: Bytes, records: seq<Bytes>): seq<Bytes> {
    if records == [] then []
    else
      var last := |records| - 1;
      Survivors(crc, file, damaged, records[..last])
      + if Survives(crc, file, damaged, LogLength(crc, records[..last]), records[last]) then [records[last]] else []
  }

  // Where the reader is when it has dealt with the log up to pos: there, or at
  // the end of a block that was changed before pos.
  ghost function ReaderAt(file: Bytes, damaged: Bytes, pos: nat): (p: nat)
    requires pos <= |file|
    ensures p <= |file|
  {
    if Same(file, damaged, BlockStart(pos), pos) then pos else BlockEnd(file, pos)
  }

  lemma SameParts(file: Bytes, damaged: Bytes, lo: nat, mid: nat, hi: nat)
    requires lo <= mid <= hi <= |file|
    ensures Same(file, damaged, lo, hi) <==> Same(file, damaged, lo, mid) && Same(file, damaged, mid, hi)
  {
    if Same(file, damaged, lo, hi) {
      assert damaged[lo..mid] == damaged[lo..hi][..mid - lo] && file[lo..mid] == file[lo..hi][..mid - lo];
      assert damaged[mid..hi] == damaged[lo..hi][mid - lo..] && file[mid..hi] == file[lo..hi][mid - lo..];
    }
    if |damaged| == |file| {
      assert damaged[lo..hi] == damaged[lo..mid] + damaged[mid..hi] && file[lo..hi] == file[lo..mid] + file[mid..hi];
    }
  }

  lemma SameHolds(file: Bytes, damaged: Bytes, pos: nat, bytes: Bytes)
    requires Holds(file, pos, bytes) && Same(file, damaged, pos, pos + |bytes|)
    ensures Holds(damaged, pos, bytes)
  {
  }

  // Starting at the padding or after it is the same.
  lemma ScanSkipsPadding(crc: Checksum, file: Bytes, damaged: Bytes, pos: nat, scratch: Option<Bytes>)
    requires |damaged| == |file| && HeaderPos(pos) <= |file|
    ensures Scan(crc, damaged, ReaderAt(file, damaged, pos), scratch)
      == Scan(crc, damaged, ReaderAt(file, damaged, HeaderPos(pos)), scratch)
  {
    hide PhysicalAt;
    HeaderPosInBlock(pos);
    var header := HeaderPos(pos);
    if header > pos {
      assert BlockEnd(file, pos) == header && BlockStart(header) == header;
      PaddingIsSkipped(crc, damaged, pos);
    }
  }

  // Whatever was begun, nothing more comes of a block after a bad header.
  lemma BadEndsBlock(crc: Checksum, file: Bytes, header: nat, scratch: Option<Bytes>)
    requires header + HEADER_SIZE <= |file| && header % BLOCK_SIZE + HEADER_SIZE <= BLOCK_SIZE
    requires Rejected(crc, file, header)
    ensures Scan(crc, file, header, scratch).records == Scan(crc, file, BlockEnd(file, header), None).records
  {
    hide PhysicalAt;
    if PhysicalAt(crc, file, header).Eof? { EndIsEof(crc, file); }
  }

  // Where the reader is after a fragment.
  lemma ReaderAfter(file: Bytes, damaged: Bytes, header: nat, next: nat)
    requires |damaged| == |file| && header + HEADER_SIZE <= next <= |file|
    requires header % BLOCK_SIZE + (next - header) <= BLOCK_SIZE
    ensures ReaderAt(file, damaged, next)
      == if Same(file, damaged, BlockStart(header), next) then next else BlockEnd(file, header)
  {
    if next % BLOCK_SIZE == 0 {
      assert BlockStart(next) == next == BlockEnd(file, header);
    } else {
      assert BlockStart(next) == BlockStart(header) && BlockEnd(file, next) == BlockEnd(file, header);
    }
  }

  // A fragment of a damaged log: it reads as it was written if its block is
  // unchanged up to its end; otherwise the reader leaves the block.
  lemma DamagedFragment(crc: Checksum, file: Bytes, damaged: Bytes, pos: nat, data: Bytes, begin: bool,
                        scratch: Option<Bytes>)
    requires |damaged| == |file| && Holds(file, pos, FirstFragment(crc, pos % BLOCK_SIZE, data, begin))
    requires AfterFragment(pos, data) <= |file|
    requires Same(file, damaged, HeaderPos(pos), AfterFragment(pos, data)) || Rejected(crc, damaged, HeaderPos(pos))
    requires scratch.None? || HeaderPos(pos) % BLOCK_SIZE == 0
    ensures var header, next, n := HeaderPos(pos), AfterFragment(pos, data), FragmentLength(pos % BLOCK_SIZE, |data|);
      if Same(file, damaged, BlockStart(header), next) then
        var h := Handle(scratch, Record(FragmentType(begin, n == |data|), data[..n], next));
        Scan(crc, damaged, ReaderAt(file, damaged, pos), scratch).records
          == One(h.record) + Scan(crc, damaged, ReaderAt(file, damaged, next), h.scratch).records
      else
        Scan(crc, damaged, ReaderAt(file, damaged, pos), scratch).records
          == Scan(crc, damaged, ReaderAt(file, damaged, next), None).records
  {
    hide PhysicalAt, FirstFragment, Holds, Scan, Physical, Handle, ReaderAt, Same;
    var header, next, n := HeaderPos(pos), AfterFragment(pos, data), FragmentLength(pos % BLOCK_SIZE, |data|);
    HeaderPosInBlock(pos);
    ScanSkipsPadding(crc, file, damaged, pos, scratch);
    ReaderAfter(file, damaged, header, next);
    SameParts(file, damaged, BlockStart(header), header, next);
    ReaderAtHeader(file, damaged, header);
    if Same(file, damaged, BlockStart(header), next) {
      var t, payload := FragmentType(begin, n == |data|), data[..n];
      FragmentHolds(crc, file, pos, data, begin);
      PhysicalLength(crc, t, payload);
      SameHolds(file, damaged, header, Physical(crc, t, payload));
      PhysicalParses(crc, damaged, header, t, payload);
      ScanOfRecord(crc, damaged, header, t, payload, next, scratch);
    } else if Same(file, damaged, BlockStart(header), header) {
      BadEndsBlock(crc, damaged, header, scratch);
      SameBlockEnd(file, damaged, header);
    }
  }

  lemma ReaderAtHeader(file: Bytes, damaged: Bytes, header: nat)
    requires |damaged| == |file| && header <= |file|
    ensures ReaderAt(file, damaged, header) ==
      if Same(file, damaged, BlockStart(header), header) then header else BlockEnd(file, header)
    ensures header % BLOCK_SIZE == 0 ==> Same(file, damaged, BlockStart(header), header)
  {
  }

  lemma SameBlockEnd(file: Bytes, damaged: Bytes, header: nat)
    requires |damaged| == |file|
    ensures BlockEnd(damaged, header) == BlockEnd(file, header)
  {
  }

  lemma ScanOfRecord(crc: Checksum, file: Bytes, pos: nat, t: Byte, payload: Bytes, next: nat, scratch: Option<Bytes>)
    requires pos < next <= |file| && PhysicalAt(crc, file, pos) == Record(t, payload, next)
    ensures var h := Handle(scratch, Record(t, payload, next));
      Scan(crc, file, pos, scratch).records == One(h.record) + Scan(crc, file, next, h.scratch).records
  {
  }

  // A fragment that does not end its record fills its block.
  lemma FillsBlock(pos: nat, data: Bytes)
    requires FragmentLength(pos % BLOCK_SIZE, |data|) < |data|
    ensures AfterFragment(pos, data) % BLOCK_SIZE == 0
    ensures HeaderPos(AfterFragment(pos, data)) == BlockStart(AfterFragment(pos, data)) == AfterFragment(pos, data)
  {
    HeaderPosInBlock(pos);
  }

  // The rest of a record whose beginning was lost is dropped.
  lemma {:induction false} DamagedRest(crc: Checksum, file: Bytes, damaged: Bytes, pos: nat, data: Bytes)
    requires |damaged| == |file| && Holds(file, pos, Encode(crc, pos % BLOCK_SIZE, data, false))
    requires Noticed(crc, file, damaged, pos, data)
    ensures Scan(crc, damaged, ReaderAt(file, damaged, pos), None).records
      == Scan(crc, damaged, ReaderAt(file, damaged, RecordEnd(crc, pos, data, false)), None).records
    decreases |data|, Measure(pos)
  {
    hide Encode, FirstFragment, Scan, ReaderAt, Same, PhysicalAt, HeaderPos, Padding, FragmentLength, Holds;
    var n := FragmentLength(pos % BLOCK_SIZE, |data|);
    EncodeAtPos(crc, file, pos, data, false);
    var first := FirstFragment(crc, pos % BLOCK_SIZE, data, false);
    var next := AfterFragment(pos, data);
    HoldsParts(file, pos, first, if n == |data| then [] else Encode(crc, next % BLOCK_SIZE, data[n..], false));
    DamagedFragment(crc, file, damaged, pos, data, false, None);
    if n < |data| {
      Shrinks(pos, data);
      DamagedRest(crc, file, damaged, next, data[n..]);
    }
  }

  // What the reader makes of a record, or of the rest of one begun.
  lemma {:induction false} DamagedRecord(crc: Checksum, file: Bytes, damaged: Bytes, pos: nat, data: Bytes, begin: bool,
                                         sofar: Bytes)
    requires |damaged| == |file| && Holds(file, pos, Encode(crc, pos % BLOCK_SIZE, data, begin))
    requires Noticed(crc, file, damaged, pos, data)
    requires if begin then sofar == [] else HeaderPos(pos) % BLOCK_SIZE == 0
    ensures Scan(crc, damaged, ReaderAt(file, damaged, pos), Scratch(begin, sofar)).records
      == (if Same(file, damaged, BlockStart(HeaderPos(pos)), RecordEnd(crc, pos, data, begin))
          then [sofar + data] else [])
        + Scan(crc, damaged, ReaderAt(file, damaged, RecordEnd(crc, pos, data, begin)), None).records
    decreases |data|, Measure(pos)
  {
    hide Encode, FirstFragment, Scan, ReaderAt, Same, PhysicalAt, HeaderPos, Padding, FragmentLength, Holds;
    hide Handle, FragmentType, BlockEnd, BlockStart;
    var n := FragmentLength(pos % BLOCK_SIZE, |data|);
    EncodeAtPos(crc, file, pos, data, begin);
    var first := FirstFragment(crc, pos % BLOCK_SIZE, data, begin);
    var next := AfterFragment(pos, data);
    HoldsParts(file, pos, first, if n == |data| then [] else Encode(crc, next % BLOCK_SIZE, data[n..], false));
    DamagedFragment(crc, file, damaged, pos, data, begin, Scratch(begin, sofar));
    HandledFragment(begin, sofar, data, n, next);
    if n < |data| {
      Shrinks(pos, data);
      FillsBlock(pos, data);
      RecordEndSplit(crc, file, damaged, pos, data, begin);
      if Same(file, damaged, BlockStart(HeaderPos(pos)), next) {
        DamagedRecord(crc, file, damaged, next, data[n..], false, sofar + data[..n]);
        assert sofar + data[..n] + data[n..] == sofar + data;
      } else {
        DamagedRest(crc, file, damaged, next, data[n..]);
      }
    }
  }

  // A fragment as the writer made it ends or goes on with its record.
  lemma HandledFragment(begin: bool, sofar: Bytes, data: Bytes, n: nat, next: nat)
    requires n <= |data| && (begin ==> sofar == [])
    ensures var h := Handle(Scratch(begin, sofar), Record(FragmentType(begin, n == |data|), data[..n], next));
      if n == |data| then h.record == Some(sofar + data) && h.scratch == None
      else h.record == None && h.scratch == Scratch(false, sofar + data[..n])
  {
    assert n == |data| ==> data[..n] == data;
    assert begin ==> sofar + data[..n] == data[..n];
  }

  lemma RecordEndSplit(crc: Checksum, file: Bytes, damaged: Bytes, pos: nat, data: Bytes, begin: bool)
    requires Holds(file, pos, Encode(crc, pos % BLOCK_SIZE, data, begin))
    requires FragmentLength(pos % BLOCK_SIZE, |data|) < |data|
    ensures var next, rest := AfterFragment(pos, data), data[FragmentLength(pos % BLOCK_SIZE, |data|)..];
      && RecordEnd(crc, next, rest, false) == RecordEnd(crc, pos, data, begin)
      && (Same(file, damaged, BlockStart(HeaderPos(pos)), RecordEnd(crc, pos, data, begin))
        <==>
          Same(file, damaged, BlockStart(HeaderPos(pos)), next)
          && Same(file, damaged, next, RecordEnd(crc, pos, data, begin)))
  {
    hide Encode, FirstFragment, Same;
    EncodeAtPos(crc, file, pos, data, begin);
    HeaderPosInBlock(pos);
    SameParts(file, damaged, BlockStart(HeaderPos(pos)), AfterFragment(pos, data), RecordEnd(crc, pos, data, begin));
  }

  ghost predicate AllNoticed(crc: Checksum, damaged: Bytes, records: seq<Bytes>) {
    forall i | 0 <= i < |records| ::
      Noticed(crc, EncodeAll(crc, records), damaged, LogLength(crc, records[..i]), records[i])
  }

  lemma {:induction false} DamagedRecordsRead(crc: Checksum, damaged: Bytes, records: seq<Bytes>, k: nat)
    requires |damaged| == LogLength(crc, records) && AllNoticed(crc, damaged, records)
    requires k <= |records| && LogLength(crc, records[..k]) <= |damaged|
    ensures var file := EncodeAll(crc, records);
      Scan(crc, damaged, 0, None).records == Survivors(crc, file, damaged, records[..k])
        + Scan(crc, damaged, ReaderAt(file, damaged, LogLength(crc, records[..k])), None).records
  {
    hide Encode, Scan, EncodeAll, Holds, Noticed, ReaderAt, Same;
    var file := EncodeAll(crc, records);
    if k == 0 {
      EmptyLog(crc);
      assert records[..0] == [];
      ReaderAtHeader(file, damaged, 0);
    } else {
      var pos := LogLength(crc, records[..k - 1]);
      LogHolds(crc, records, k - 1);
      DamagedRecordsRead(crc, damaged, records, k - 1);
      DamagedRecord(crc, file, damaged, pos, records[k - 1], true, []);
      assert [] + records[k - 1] == records[k - 1];
      assert records[..k][..k - 1] == records[..k - 1];
    }
  }

  // However a log was changed, if its checksums notice every change to a
  // fragment then exactly the surviving records are read, in order: fragments
  // of different records are never joined.
  lemma DamagedLogReads(crc: Checksum, damaged: Bytes, records: seq<Bytes>)
    requires |damaged| == LogLength(crc, records) && AllNoticed(crc, damaged, records)
    ensures Scan(crc, damaged, 0, None).records == Survivors(crc, EncodeAll(crc, records), damaged, records)
  {
    hide Scan, EncodeAll, Noticed, Survivors;
    assert records[..|records|] == records;
    DamagedRecordsRead(crc, damaged, records, |records|);
    EndIsEof(crc, damaged);
  }
}
