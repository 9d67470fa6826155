/**
 log::Reader (db/log_reader.cc), reading from the beginning of a file, and what
 it makes of any sequence of bytes.
 */
module LogReader {
  import opened Basics
  import opened LogFormat

  // ----- what a file means --------------------------------------------------------------

  const EOF_CODE: Byte := LAST_TYPE + 1
  const BAD_RECORD_CODE: Byte := LAST_TYPE + 2

  datatype PhysicalRecord =
    | Eof
    | Bad(next: nat, drop: Option<nat>)
    | Record(typ: Byte, payload: Bytes, next: nat)

  // The stored type is returned as it is, and 5 and 6 are also the codes for the
  // end of the file and for a bad record (log_reader.h).
  function Returned(t: Byte, payload: Bytes, next: nat): PhysicalRecord {
    if t == EOF_CODE then Eof else if t == BAD_RECORD_CODE then Bad(next, None) else Record(t, payload, next)
  }

  // The end of the block around pos, or of the file.
  function BlockEnd(file: Bytes, pos: nat): nat {
    var end := pos / BLOCK_SIZE * BLOCK_SIZE + BLOCK_SIZE;
    if end <= |file| then end else |file|
  }

  // Whether the block around pos is there in full.
  predicate FullBlock(file: Bytes, pos: nat) {
    pos / BLOCK_SIZE * BLOCK_SIZE + BLOCK_SIZE <= |file|
  }

  // The header and payload at pos, given that a header fits in the block.
  function ParseAt(crc: Checksum, file: Bytes, pos: nat): (r: PhysicalRecord)
    requires pos + HEADER_SIZE <= BlockEnd(file, pos)
    ensures r.Bad? ==> pos < r.next <= |file|
    ensures r.Record? ==> pos < r.next <= |file|
  {
    var end := BlockEnd(file, pos);
    var length: int := file[pos + 4] as int + 256 * file[pos + 5] as int;
    var t := file[pos + 6];
    if pos + HEADER_SIZE + length > end then
      if FullBlock(file, pos) then Bad(end, Some(end - pos)) else Eof
    else if t == ZERO_TYPE && length == 0 then
      Bad(end, None)
    else
      var payload := file[pos + HEADER_SIZE..pos + HEADER_SIZE + length];
      if Crc(file[pos], file[pos + 1], file[pos + 2], file[pos + 3]) != crc([t] + payload) then
        Bad(end, Some(end - pos))
      else
        Returned(t, payload, pos + HEADER_SIZE + length)
  }

  // The physical record found from pos on.
  function PhysicalAt(crc: Checksum, file: Bytes, pos: nat): (r: PhysicalRecord)
    requires pos <= |file|
    ensures r.Bad? ==> pos < r.next <= |file|
    ensures r.Record? ==> pos < r.next <= |file|
    decreases |file| - pos
  {
    if BlockEnd(file, pos) - pos < HEADER_SIZE then
      if FullBlock(file, pos) then PhysicalAt(crc, file, BlockEnd(file, pos)) else Eof
    else
      ParseAt(crc, file, pos)
  }

  // The records read from a file and the sizes of the drops reported.
  datatype Reading = Reading(records: seq<Bytes>, drops: seq<nat>)

  function Before(records: seq<Bytes>, drops: seq<nat>, r: Reading): Reading {
    Reading(records + r.records, drops + r.drops)
  }

  // A record cut short by another one is reported, unless it is empty.
  function CutShort(scratch: Option<Bytes>): seq<nat> {
    if scratch.Some? && scratch.value != [] then [|scratch.value|] else []
  }

  function Dropped(r: PhysicalRecord): seq<nat> {
    if r.Bad? && r.drop.Some? then [r.drop.value] else []
  }

  // What one physical record adds: a finished record, drops to report, and the
  // fragments of a record begun.
  datatype Handled = Handled(record: Option<Bytes>, drops: seq<nat>, scratch: Option<Bytes>)

  function Handle(scratch: Option<Bytes>, r: PhysicalRecord): Handled
    requires !r.Eof?
  {
    match r
    case Bad(_, _) => Handled(None, if scratch.Some? then [|scratch.value|] else [], None)
    case Record(t, payload, _) =>
      if t == FULL_TYPE then
        Handled(Some(payload), CutShort(scratch), None)
      else if t == FIRST_TYPE then
        Handled(None, CutShort(scratch), Some(payload))
      else if t == MIDDLE_TYPE then
        if scratch.None? then Handled(None, [|payload|], None) else Handled(None, [], Some(scratch.value + payload))
      else if t == LAST_TYPE then
        if scratch.None? then Handled(None, [|payload|], None) else Handled(Some(scratch.value + payload), [], None)
      else
        Handled(None, [|payload| + if scratch.Some? then |scratch.value| else 0], None)
  }

  function One(record: Option<Bytes>): seq<Bytes> {
    if record.Some? then [record.value] else []
  }

  // Everything read from pos on; scratch holds the fragments of a record begun.
  function Scan(crc: Checksum, file: Bytes, pos: nat, scratch: Option<Bytes>): Reading
    requires pos <= |file|
    decreases |file| - pos
  {
    var r := PhysicalAt(crc, file, pos);
    if r.Eof? then Reading([], [])
    else
      var h := Handle(scratch, r);
      Before(One(h.record), Dropped(r) + h.drops, Scan(crc, file, r.next, h.scratch))
  }

  // ----- the reader ------------------------------------------------------------------------

  class Reader {
    const crc: Checksum
    const file: Bytes
    var filePos: nat
    var buffer: Bytes
    var eof: bool
    var drops: seq<nat>

    // The buffer holds the rest of the block read last.
    ghost predicate Valid()
      reads this
    {
      && |buffer| <= filePos <= |file|
      && buffer == file[filePos - |buffer|..filePos]
      && |buffer| <= BLOCK_SIZE
      && (if eof then filePos == |file| && |buffer| <= |file| % BLOCK_SIZE else filePos % BLOCK_SIZE == 0)
    }

    function Pos(): nat
      requires Valid()
      reads this
    {
      filePos - |buffer|
    }

    constructor (crc: Checksum, file: Bytes)
      ensures Valid() && this.crc == crc && this.file == file && Pos() == 0 && drops == []
    {
      this.crc, this.file := crc, file;
      filePos, buffer, eof, drops := 0, [], false, [];
    }

    // Reads blocks until a header is in the buffer; false at the end of the file.
    method FillBuffer() returns (more: bool)
      requires Valid()
      modifies this`buffer, this`filePos, this`eof
      ensures Valid()
      ensures !more ==> PhysicalAt(crc, file, old(Pos())).Eof?
      ensures more ==> |buffer| >= HEADER_SIZE && Pos() >= old(Pos())
      ensures more ==> PhysicalAt(crc, file, old(Pos())) == PhysicalAt(crc, file, Pos())
    {
      hide PhysicalAt;
      while |buffer| < HEADER_SIZE
        invariant Valid() && Pos() >= old(Pos())
        invariant PhysicalAt(crc, file, Pos()) == PhysicalAt(crc, file, old(Pos()))
        decreases !eof, |file| - filePos
      {
        if eof {
          // A truncated header at the end of the file is not an error.
          EndOfFile(crc, file, Pos());
          buffer := [];
          return false;
        }
        SkipTrailer(crc, file, Pos(), filePos);
        ReadBlock();
      }
      return true;
    }

    // Skips the trailer and reads the next block.
    method ReadBlock()
      requires Valid() && !eof && |buffer| < HEADER_SIZE
      modifies this`buffer, this`filePos, this`eof
      ensures Valid() && Pos() == old(filePos) && Pos() >= old(Pos())
      ensures eof || filePos > old(filePos)
    {
      var n := if filePos + BLOCK_SIZE <= |file| then BLOCK_SIZE else |file| - filePos;
      NextBlock(|file|, filePos, n);
      buffer := file[filePos..filePos + n];
      filePos := filePos + n;
      if n < BLOCK_SIZE { eof := true; }
    }

    method ReadPhysicalRecord() returns (r: PhysicalRecord)
      requires Valid()
      modifies this
      ensures Valid() && r == PhysicalAt(crc, file, old(Pos()))
      ensures drops == old(drops) + Dropped(r)
      ensures !r.Eof? ==> Pos() == r.next
    {
      hide PhysicalAt, ParseAt, BufferRecord;
      var more := FillBuffer();
      if !more { return Eof; }
      BufferIsBlock(crc, file, filePos, buffer, eof);
      r := ParseBuffer();
    }

    // Takes the record at the beginning of the buffer.
    method ParseBuffer() returns (r: PhysicalRecord)
      requires Valid() && |buffer| >= HEADER_SIZE
      modifies this`buffer, this`drops
      ensures Valid() && r == BufferRecord(crc, filePos, old(buffer), eof)
      ensures drops == old(drops) + Dropped(r)
      ensures !r.Eof? ==> Pos() == r.next
    {
      var length: int := buffer[4] as int + 256 * buffer[5] as int;
      var t := buffer[6];
      if HEADER_SIZE + length > |buffer| {
        var dropSize := |buffer|;
        buffer := [];
        if !eof {
          drops := drops + [dropSize];
          return Bad(filePos, Some(dropSize));
        }
        return Eof;
      }
      if t == ZERO_TYPE && length == 0 {
        buffer := [];
        return Bad(filePos, None);
      }
      var payload := buffer[HEADER_SIZE..HEADER_SIZE + length];
      if Crc(buffer[0], buffer[1], buffer[2], buffer[3]) != crc([t] + payload) {
        var dropSize := |buffer|;
        buffer := [];
        drops := drops + [dropSize];
        return Bad(filePos, Some(dropSize));
      }
      SliceOfSlice(file, filePos - |buffer|, filePos, HEADER_SIZE + length, |buffer|);
      buffer := buffer[HEADER_SIZE + length..];
      return Returned(t, payload, filePos - |buffer|);
    }

    // The switch of ReadRecord on the type of a physical record.
    method Assemble(r: PhysicalRecord, scratch: Option<Bytes>) returns (record: Option<Bytes>, scratch': Option<Bytes>)
      requires !r.Eof?
      modifies this`drops
      ensures record == Handle(scratch, r).record && scratch' == Handle(scratch, r).scratch
      ensures drops == old(drops) + Handle(scratch, r).drops
    {
      record, scratch' := None, scratch;
      if r.Bad? {
        if scratch.Some? {
          drops := drops + [|scratch.value|];
          scratch' := None;
        }
      } else if r.typ == FULL_TYPE {
        drops := drops + CutShort(scratch);
        record, scratch' := Some(r.payload), None;
      } else if r.typ == FIRST_TYPE {
        drops := drops + CutShort(scratch);
        scratch' := Some(r.payload);
      } else if r.typ == MIDDLE_TYPE {
        if scratch.None? {
          drops := drops + [|r.payload|];
        } else {
          scratch' := Some(scratch.value + r.payload);
        }
      } else if r.typ == LAST_TYPE {
        if scratch.None? {
          drops := drops + [|r.payload|];
        } else {
          record, scratch' := Some(scratch.value + r.payload), None;
        }
      } else {
        drops := drops + [|r.payload| + if scratch.Some? then |scratch.value| else 0];
        scratch' := None;
      }
    }

    // The next record, or None at the end.  Reading on gives the rest of what
    // the file holds from here.
    method ReadRecord() returns (record: Option<Bytes>)
      requires Valid()
      modifies this
      ensures Valid() && old(drops) <= drops
      ensures Scan(crc, file, old(Pos()), None) ==
        if record.None? then Reading([], drops[|old(drops)|..])
        else Before([record.value], drops[|old(drops)|..], Scan(crc, file, Pos(), None))
      ensures record.Some? ==> Pos() > old(Pos())
    {
      hide PhysicalAt, Handle, Scan, BufferRecord;
      var scratch: Option<Bytes> := None;
      record := None;
      ghost var all, pos0, drops0, added := Scan(crc, file, Pos(), None), Pos(), drops, [];
      Unread(all);
      while record.None?
        invariant Valid() && drops == drops0 + added && Pos() >= pos0
        invariant record.Some? ==> scratch.None? && Pos() > pos0
        invariant all == Before(One(record), added, Scan(crc, file, Pos(), scratch))
        decreases record.None?, |file| - Pos()
      {
        ghost var oldScratch := scratch;
        ScanTurn(crc, file, Pos(), scratch);
        var r := ReadPhysicalRecord();
        if r.Eof? {
          assert drops[|drops0|..] == added;
          return;
        }
        record, scratch := Assemble(r, scratch);
        ghost var more := Dropped(r) + Handle(oldScratch, r).drops;
        HandledScratch(oldScratch, r);
        BeforeBefore([], added, One(record), more, Scan(crc, file, Pos(), scratch));
        added := added + more;
      }
      assert drops[|drops0|..] == added;
    }

    // Reads to the end, as log recovery does.
    method ReadAll() returns (records: seq<Bytes>)
      requires Valid() && drops == []
      modifies this
      ensures Valid() && Scan(crc, file, old(Pos()), None) == Reading(records, drops)
    {
      hide PhysicalAt, Scan;
      records := [];
      ghost var all := Scan(crc, file, Pos(), None);
      Unread(all);
      while true
        invariant Valid()
        invariant all == Before(records, drops, Scan(crc, file, Pos(), None))
        decreases |file| - Pos()
      {
        ghost var before := drops;
        var record := ReadRecord();
        assert drops == before + drops[|before|..];
        if record.None? { return; }
        BeforeBefore(records, before, [record.value], drops[|before|..], Scan(crc, file, Pos(), None));
        records := records + [record.value];
      }
    }
  }

  lemma ScanTurn(crc: Checksum, file: Bytes, pos: nat, scratch: Option<Bytes>)
    requires pos <= |file|
    ensures var r := PhysicalAt(crc, file, pos);
      Scan(crc, file, pos, scratch) ==
        if r.Eof? then Reading([], [])
        else
          var h := Handle(scratch, r);
          Before(One(h.record), Dropped(r) + h.drops, Scan(crc, file, r.next, h.scratch))
  {
  }

  lemma Unread(r: Reading)
    ensures Before([], [], r) == r
  {
  }

  lemma BeforeBefore(a: seq<Bytes>, b: seq<nat>, a': seq<Bytes>, b': seq<nat>, r: Reading)
    ensures Before(a, b, Before(a', b', r)) == Before(a + a', b + b', r)
  {
  }

  lemma HandledScratch(scratch: Option<Bytes>, r: PhysicalRecord)
    requires !r.Eof?
    ensures Handle(scratch, r).record.Some? ==> Handle(scratch, r).scratch.None?
  {
  }

  // The record at the beginning of a buffer that ends at filePos.
  function BufferRecord(crc: Checksum, filePos: nat, buffer: Bytes, eof: bool): PhysicalRecord
    requires HEADER_SIZE <= |buffer| <= filePos
  {
    var length := buffer[4] as int + 256 * buffer[5] as int;
    if HEADER_SIZE + length > |buffer| then
      if eof then Eof else Bad(filePos, Some(|buffer|))
    else if buffer[6] == ZERO_TYPE && length == 0 then
      Bad(filePos, None)
    else
      var payload := buffer[HEADER_SIZE..HEADER_SIZE + length];
      if Crc(buffer[0], buffer[1], buffer[2], buffer[3]) != crc([buffer[6]] + payload) then
        Bad(filePos, Some(|buffer|))
      else
        Returned(buffer[6], payload, filePos - |buffer| + HEADER_SIZE + length)
  }

  // A header in the buffer is parsed as the file says.
  lemma BufferIsBlock(crc: Checksum, file: Bytes, filePos: nat, buffer: Bytes, eof: bool)
    requires HEADER_SIZE <= |buffer| <= filePos <= |file| && buffer == file[filePos - |buffer|..filePos]
    requires |buffer| <= BLOCK_SIZE
    requires if eof then filePos == |file| && |buffer| <= |file| % BLOCK_SIZE else filePos % BLOCK_SIZE == 0
    ensures PhysicalAt(crc, file, filePos - |buffer|) == BufferRecord(crc, filePos, buffer, eof)
  {
    var pos := filePos - |buffer|;
    BufferEndsBlock(file, filePos, |buffer|, eof);
    ParseBuffered(crc, file, filePos, buffer, eof);
    hide ParseAt, BufferRecord;
  }

  lemma BufferEndsBlock(file: Bytes, filePos: nat, size: nat, eof: bool)
    requires HEADER_SIZE <= size <= filePos <= |file| && size <= BLOCK_SIZE
    requires if eof then filePos == |file| && size <= |file| % BLOCK_SIZE else filePos % BLOCK_SIZE == 0
    ensures BlockEnd(file, filePos - size) == filePos && (FullBlock(file, filePos - size) <==> !eof)
  {
  }

  lemma ParseBuffered(crc: Checksum, file: Bytes, filePos: nat, buffer: Bytes, eof: bool)
    requires HEADER_SIZE <= |buffer| <= filePos <= |file| && buffer == file[filePos - |buffer|..filePos]
    requires BlockEnd(file, filePos - |buffer|) == filePos && (FullBlock(file, filePos - |buffer|) <==> !eof)
    ensures ParseAt(crc, file, filePos - |buffer|) == BufferRecord(crc, filePos, buffer, eof)
  {
    hide BlockEnd, FullBlock;
    var pos := filePos - |buffer|;
    var length := buffer[4] as int + 256 * buffer[5] as int;
    if HEADER_SIZE + length <= |buffer| {
      SliceOfSlice(file, pos, filePos, HEADER_SIZE, HEADER_SIZE + length);
    }
  }

  lemma NextBlock(size: nat, filePos: nat, n: nat)
    requires filePos <= size && filePos % BLOCK_SIZE == 0
    requires n == if filePos + BLOCK_SIZE <= size then BLOCK_SIZE else size - filePos
    ensures if n < BLOCK_SIZE then filePos + n == size && n == size % BLOCK_SIZE else (filePos + n) % BLOCK_SIZE == 0
  {
  }

  lemma EndOfFile(crc: Checksum, file: Bytes, pos: nat)
    requires pos <= |file| && |file| - pos <= |file| % BLOCK_SIZE && |file| - pos < HEADER_SIZE
    ensures PhysicalAt(crc, file, pos).Eof?
  {
  }

  // A full block with no room for a header is left for the next one.
  lemma SkipTrailer(crc: Checksum, file: Bytes, pos: nat, filePos: nat)
    requires pos <= filePos <= |file| && filePos - pos < HEADER_SIZE && filePos % BLOCK_SIZE == 0
    ensures PhysicalAt(crc, file, pos) == PhysicalAt(crc, file, filePos)
  {
    if pos < filePos {
      assert BlockEnd(file, pos) == filePos && FullBlock(file, pos);
    }
  }
}
