/**
 Write batches (db/write_batch.cc): the bytes of a log record, what iterating
 over any bytes does, and that batches are read back from the log as they were
 written.
 */
module WriteBatches {
  import opened Basics
  import opened Coding
  import opened InternalKeys
  import opened Reads
  import opened MemTables
  import opened LogFormat
  import opened LogReader
  import opened LogRoundTrip

  // An 8-byte sequence number and a 4-byte count
  const BATCH_HEADER: nat := 12
  const COUNT_LIMIT: nat := 0x8000_0000

  const DELETION_TAG: Byte := 0
  const VALUE_TAG: Byte := 1

  // The calls that a handler gets.
  datatype BatchOp = PutOp(key: Bytes, value: Bytes) | DeleteOp(key: Bytes)

  // ----- the bytes --------------------------------------------------------------------------

  function EncodeOp(op: BatchOp): (r: Bytes)
    ensures |r| >= 1
  {
    match op
    case PutOp(k, v) => [VALUE_TAG] + (Prefixed(k) + Prefixed(v))
    case DeleteOp(k) => [DELETION_TAG] + Prefixed(k)
  }

  function EncodeOps(ops: seq<BatchOp>): Bytes {
    if ops == [] then [] else EncodeOps(ops[..|ops| - 1]) + EncodeOp(ops[|ops| - 1])
  }

  function BatchBytes(sequence: nat, ops: seq<BatchOp>): Bytes {
    Fixed64(sequence) + (Fixed32(|ops|) + EncodeOps(ops))
  }

  function Sequence(rep: Bytes): nat
    requires |rep| >= BATCH_HEADER
  {
    DecodeFixed64(rep, 0)
  }

  // The count is a signed number.
  function Count(rep: Bytes): int
    requires |rep| >= BATCH_HEADER
  {
    var n := DecodeFixed32(rep, 8);
    if n < COUNT_LIMIT then n else n - LIMIT32
  }

  // ----- iterating over any bytes -------------------------------------------------------------

  datatype Status = OK | Corruption(message: string)

  // What the handler was called with before the iteration ended, and how it ended.
  datatype Iteration = Iteration(ops: seq<BatchOp>, status: Status)

  datatype ReadOp = Read(op: BatchOp, next: nat) | Malformed(message: string)

  function ReadOpAt(rep: Bytes, p: nat): (r: ReadOp)
    requires p < |rep|
    ensures r.Read? ==> p < r.next <= |rep| && OpFits(r.op)
  {
    if rep[p] == VALUE_TAG then
      var key := GetSlice(rep, p + 1);
      if key.None? then Malformed("bad WriteBatch Put") else
      var value := GetSlice(rep, key.value.1);
      if value.None? then Malformed("bad WriteBatch Put") else Read(PutOp(key.value.0, value.value.0), value.value.1)
    else if rep[p] == DELETION_TAG then
      var key := GetSlice(rep, p + 1);
      if key.None? then Malformed("bad WriteBatch Delete") else Read(DeleteOp(key.value.0), key.value.1)
    else
      Malformed("unknown WriteBatch tag")
  }

  function IterateFrom(rep: Bytes, p: nat, found: seq<BatchOp>): Iteration
    requires BATCH_HEADER <= p <= |rep|
    decreases |rep| - p
  {
    if p == |rep| then
      Iteration(found, if |found| == Count(rep) then OK else Corruption("WriteBatch has wrong count"))
    else
      var r := ReadOpAt(rep, p);
      if r.Malformed? then Iteration(found, Corruption(r.message)) else IterateFrom(rep, r.next, found + [r.op])
  }

  // WriteBatch::Iterate.
  function Iterate(rep: Bytes): Iteration {
    if |rep| < BATCH_HEADER then Iteration([], Corruption("malformed WriteBatch (too small)"))
    else IterateFrom(rep, BATCH_HEADER, [])
  }

  // ----- the round trip ------------------------------------------------------------------------

  // Lengths have 32 bits.
  predicate OpFits(op: BatchOp) {
    |op.key| < LIMIT32 && (op.PutOp? ==> |op.value| < LIMIT32)
  }

  predicate OpsFit(ops: seq<BatchOp>) {
    forall i :: 0 <= i < |ops| ==> OpFits(ops[i])
  }

  lemma OpIsRead(rep: Bytes, p: nat, op: BatchOp)
    requires OpFits(op) && Holds(rep, p, EncodeOp(op))
    ensures p < |rep| && ReadOpAt(rep, p) == Read(op, p + |EncodeOp(op)|)
  {
    hide Prefixed, GetSlice, Holds;
    var tag := if op.PutOp? then VALUE_TAG else DELETION_TAG;
    var rest := if op.PutOp? then Prefixed(op.key) + Prefixed(op.value) else Prefixed(op.key);
    HoldsParts(rep, p, [tag], rest);
    TagIs(rep, p, tag);
    if op.PutOp? {
      HoldsParts(rep, p + 1, Prefixed(op.key), Prefixed(op.value));
      SliceIs(rep, p + 1 + |Prefixed(op.key)|, op.value);
    }
    SliceIs(rep, p + 1, op.key);
  }

  lemma TagIs(rep: Bytes, p: nat, tag: Byte)
    requires Holds(rep, p, [tag])
    ensures p < |rep| && rep[p] == tag
  {
    assert rep[p..p + 1][0] == rep[p];
  }

  lemma {:induction false} OpsAreRead(rep: Bytes, ops: seq<BatchOp>)
    requires OpsFit(ops) && |rep| >= BATCH_HEADER && Holds(rep, BATCH_HEADER, EncodeOps(ops))
    ensures IterateFrom(rep, BATCH_HEADER, []) == IterateFrom(rep, BATCH_HEADER + |EncodeOps(ops)|, ops)
  {
    hide EncodeOp, ReadOpAt, OpFits, Holds;
    HoldsInside(rep, BATCH_HEADER, EncodeOps(ops));
    if ops != [] {
      var n := |ops| - 1;
      var front := EncodeOps(ops[..n]);
      HoldsParts(rep, BATCH_HEADER, front, EncodeOp(ops[n]));
      OpsAreRead(rep, ops[..n]);
      OpIsRead(rep, BATCH_HEADER + |front|, ops[n]);
      assert ops == ops[..n] + [ops[n]];
    }
  }

  lemma Parts(a: Bytes, b: Bytes, c: Bytes)
    ensures var all := a + (b + c);
      && |all| == |a| + |b| + |c| && all[..|a|] == a && all[|a|..] == b + c && all[|a| + |b|..] == c
      && Holds(all, 0, a) && Holds(all, |a|, b) && Holds(all, |a| + |b|, c)
  {
    var all := a + (b + c);
    assert all[|a|..|a| + |b|] == b;
  }

  lemma BatchParts(sequence: nat, ops: seq<BatchOp>)
    ensures var rep := BatchBytes(sequence, ops);
      && |rep| == BATCH_HEADER + |EncodeOps(ops)| && rep[..8] == Fixed64(sequence)
      && rep[8..] == Fixed32(|ops|) + EncodeOps(ops) && rep[BATCH_HEADER..] == EncodeOps(ops)
      && Holds(rep, 0, Fixed64(sequence)) && Holds(rep, 8, Fixed32(|ops|)) && Holds(rep, BATCH_HEADER, EncodeOps(ops))
  {
    FixedIsFour(|ops|);
    FixedIsEight(sequence);
    hide Fixed32, Fixed64, EncodeOps, Holds;
    Parts(Fixed64(sequence), Fixed32(|ops|), EncodeOps(ops));
  }

  // The header of a batch: its sequence number and, unless there are too many,
  // the number of its operations.
  lemma HeaderIs(sequence: nat, ops: seq<BatchOp>)
    requires sequence < LIMIT64
    ensures |BatchBytes(sequence, ops)| >= BATCH_HEADER && Sequence(BatchBytes(sequence, ops)) == sequence
    ensures |ops| < COUNT_LIMIT ==> Count(BatchBytes(sequence, ops)) == |ops|
    ensures |ops| >= COUNT_LIMIT ==> Count(BatchBytes(sequence, ops)) != |ops|
  {
    hide BatchBytes, Fixed32, Fixed64, DecodeFixed32, DecodeFixed64, Holds, EncodeOps;
    BatchParts(sequence, ops);
    Fixed64RoundTrips(BatchBytes(sequence, ops), 0, sequence);
    Fixed32Limit(BatchBytes(sequence, ops), 8);
    if |ops| < COUNT_LIMIT { Fixed32RoundTrips(BatchBytes(sequence, ops), 8, |ops|); }
  }

  lemma {:induction false} FoundFits(rep: Bytes, p: nat, found: seq<BatchOp>)
    requires BATCH_HEADER <= p <= |rep| && OpsFit(found)
    ensures OpsFit(IterateFrom(rep, p, found).ops)
    ensures IterateFrom(rep, p, found).status == OK ==> |IterateFrom(rep, p, found).ops| == Count(rep)
    decreases |rep| - p
  {
    hide ReadOpAt, OpFits, Count;
    if p < |rep| {
      var r := ReadOpAt(rep, p);
      if r.Read? { FoundFits(rep, r.next, found + [r.op]); }
    }
  }

  // Iterating over a batch gives its operations in order, and ends well, if and
  // only if their lengths and their number fit.
  lemma BatchRoundTrips(sequence: nat, ops: seq<BatchOp>)
    requires sequence < LIMIT64
    ensures Iterate(BatchBytes(sequence, ops)) == Iteration(ops, OK) <==> OpsFit(ops) && |ops| < COUNT_LIMIT
  {
    hide BatchBytes, EncodeOps, Holds, Count, OpFits, ReadOpAt;
    var rep := BatchBytes(sequence, ops);
    BatchParts(sequence, ops);
    HeaderIs(sequence, ops);
    FoundFits(rep, BATCH_HEADER, []);
    if OpsFit(ops) && |ops| < COUNT_LIMIT {
      OpsAreRead(rep, ops);
    }
  }

  // ----- the object -----------------------------------------------------------------------------

  lemma {:induction false} OpsConcat(a: seq<BatchOp>, b: seq<BatchOp>)
    ensures EncodeOps(a + b) == EncodeOps(a) + EncodeOps(b)
  {
    hide EncodeOp;
    if b == [] {
      assert a + b == a;
    } else {
      var n := |b| - 1;
      OpsConcat(a, b[..n]);
      assert (a + b)[..|a + b| - 1] == a + b[..n];
    }
  }

  lemma OneOp(op: BatchOp)
    ensures EncodeOps([op]) == EncodeOp(op)
  {
    assert [op][..0] == [];
    hide EncodeOp;
    assert EncodeOps([]) == [];
  }

  class WriteBatch {
    var rep: Bytes
    ghost var sequence: nat
    ghost var ops: seq<BatchOp>

    ghost predicate Valid()
      reads this
    {
      sequence < LIMIT64 && |ops| < COUNT_LIMIT && rep == BatchBytes(sequence, ops)
    }

    constructor ()
      ensures Valid() && sequence == 0 && ops == []
    {
      rep, sequence, ops := [0, 0, 0, 0, 0, 0, 0, 0, 0, 0, 0, 0], 0, [];
      assert Fixed32(0) == [0, 0, 0, 0] && EncodeOps([]) == [];
    }

    method SetSequence(n: nat)
      requires Valid() && n < LIMIT64
      modifies this
      ensures Valid() && sequence == n && ops == old(ops)
    {
      hide Fixed64, EncodeOps, Fixed32;
      BatchParts(sequence, ops);
      rep := Fixed64(n) + rep[8..];
      sequence := n;
    }

    // Appends encoded operations, and adds their number to the count.
    method AppendRecords(records: Bytes, n: nat, ghost more: seq<BatchOp>)
      requires Valid() && |ops| + |more| < COUNT_LIMIT && records == EncodeOps(more) && n == |more|
      modifies this
      ensures Valid() && sequence == old(sequence) && ops == old(ops) + more
    {
      hide Fixed64, EncodeOps, Fixed32, BatchBytes, DecodeFixed32;
      BatchParts(sequence, ops);
      HeaderIs(sequence, ops);
      OpsConcat(ops, more);
      var count := Count(rep);
      rep := rep[..8] + (Fixed32(count + n) + (rep[BATCH_HEADER..] + records));
      ops := ops + more;
      BatchIs(rep, sequence, ops);
    }

    method Put(key: Bytes, value: Bytes)
      requires Valid() && |ops| + 1 < COUNT_LIMIT
      modifies this
      ensures Valid() && sequence == old(sequence) && ops == old(ops) + [PutOp(key, value)]
    {
      hide EncodeOps, EncodeOp, BatchBytes;
      OneOp(PutOp(key, value));
      AppendRecords(EncodeOp(PutOp(key, value)), 1, [PutOp(key, value)]);
    }

    method Delete(key: Bytes)
      requires Valid() && |ops| + 1 < COUNT_LIMIT
      modifies this
      ensures Valid() && sequence == old(sequence) && ops == old(ops) + [DeleteOp(key)]
    {
      hide EncodeOps, EncodeOp, BatchBytes;
      OneOp(DeleteOp(key));
      AppendRecords(EncodeOp(DeleteOp(key)), 1, [DeleteOp(key)]);
    }

    // WriteBatchInternal::Append: the records of another batch.
    method Append(source: WriteBatch)
      requires Valid() && source.Valid() && |ops| + |source.ops| < COUNT_LIMIT
      modifies this
      ensures Valid() && sequence == old(sequence) && ops == old(ops) + old(source.ops)
    {
      hide EncodeOps, BatchBytes, DecodeFixed32, Fixed32, Fixed64;
      BatchParts(source.sequence, source.ops);
      HeaderIs(source.sequence, source.ops);
      var n := Count(source.rep);
      AppendRecords(source.rep[BATCH_HEADER..], n, source.ops);
    }

    // The loop of Iterate; calls collects those of the handler.
    method IterateOver() returns (calls: seq<BatchOp>, status: Status)
      ensures Iterate(rep) == Iteration(calls, status)
    {
      hide ReadOpAt, Count;
      calls := [];
      if |rep| < BATCH_HEADER {
        return calls, Corruption("malformed WriteBatch (too small)");
      }
      var p := BATCH_HEADER;
      while p < |rep|
        invariant BATCH_HEADER <= p <= |rep| && Iterate(rep) == IterateFrom(rep, p, calls)
        decreases |rep| - p
      {
        var r := ReadOpAt(rep, p);
        if r.Malformed? { return calls, Corruption(r.message); }
        calls, p := calls + [r.op], r.next;
      }
      status := if |calls| == Count(rep) then OK else Corruption("WriteBatch has wrong count");
    }
  }

  lemma BatchIs(rep: Bytes, sequence: nat, ops: seq<BatchOp>)
    requires rep == Fixed64(sequence) + (Fixed32(|ops|) + EncodeOps(ops))
    ensures rep == BatchBytes(sequence, ops)
  {
  }

  // ----- through the log ----------------------------------------------------------------------------

  // An operation on the rank of its key.
  function OpOf(rank: Bytes -> UserKey, op: BatchOp): Op {
    match op
    case PutOp(k, v) => Put(rank(k), v)
    case DeleteOp(k) => Delete(rank(k))
  }

  function OpsOf(rank: Bytes -> UserKey, ops: seq<BatchOp>): (r: seq<Op>)
    ensures |r| == |ops|
  {
    seq(|ops|, i requires 0 <= i < |ops| => OpOf(rank, ops[i]))
  }

  // What RecoverLogFile inserts for a log record; None for one that is too small.  A
  // batch found to be malformed is reported once the operations before are inserted.
  function RecordEntries(rank: Bytes -> UserKey, record: Bytes): Option<seq<Entry>> {
    if |record| < BATCH_HEADER then None
    else
      var read := Iterate(record);
      if Sequence(record) + |read.ops| > MAX_SEQUENCE then None
      else Some(BatchEntries(OpsOf(rank, read.ops), Sequence(record)))
  }

  // A batch as DBImpl::Write gives it to the log.
  datatype Sequenced = Sequenced(first: nat, ops: seq<BatchOp>)

  predicate CanBeLogged(b: Sequenced) {
    b.first + |b.ops| <= MAX_SEQUENCE && OpsFit(b.ops) && |b.ops| < COUNT_LIMIT
  }

  function Records(batches: seq<Sequenced>): (r: seq<Bytes>)
    ensures |r| == |batches|
  {
    seq(|batches|, i requires 0 <= i < |batches| => BatchBytes(batches[i].first, batches[i].ops))
  }

  lemma RecordIsRead(rank: Bytes -> UserKey, b: Sequenced)
    requires CanBeLogged(b)
    ensures RecordEntries(rank, BatchBytes(b.first, b.ops)) == Some(BatchEntries(OpsOf(rank, b.ops), b.first))
  {
    hide BatchBytes, Iterate, DecodeFixed64, OpsFit, OpsOf, BatchEntries;
    HeaderIs(b.first, b.ops);
    BatchRoundTrips(b.first, b.ops);
  }

  // A log of batches, cut off at any byte: recovery inserts the entries of the
  // batches that fit whole, each under its own sequence number, and reports nothing.
  lemma LoggedBatchesAreRead(crc: Checksum, rank: Bytes -> UserKey, batches: seq<Sequenced>, cut: nat, i: nat)
    requires forall j :: 0 <= j < |batches| ==> CanBeLogged(batches[j])
    requires cut <= LogLength(crc, Records(batches))
    ensures var reading := Scan(crc, EncodeAll(crc, Records(batches))[..cut], 0, None);
      var k := WholeRecords(crc, Records(batches), cut);
      && reading.drops == [] && |reading.records| == k
      && (i < k ==>
           && CanBeLogged(batches[i])
           && RecordEntries(rank, reading.records[i]) ==
              Some(BatchEntries(OpsOf(rank, batches[i].ops), batches[i].first)))
  {
    hide Scan, EncodeAll, WholeRecords, CanBeLogged, RecordEntries, BatchBytes, BatchEntries, OpsOf;
    TruncatedLogReads(crc, Records(batches), cut);
    if i < WholeRecords(crc, Records(batches), cut) {
      RecordIsRead(rank, batches[i]);
    }
  }

  // ----- what the recovered operations do -----------------------------------------------------------

  // The last operation on the key with a rank.
  predicate IsLastOp(rank: Bytes -> UserKey, ops: seq<BatchOp>, k: UserKey, i: nat) {
    i < |ops| && rank(ops[i].key) == k && forall j :: i < j < |ops| ==> rank(ops[j].key) != k
  }

  predicate HasOpOn(rank: Bytes -> UserKey, ops: seq<BatchOp>, k: UserKey) {
    exists i :: 0 <= i < |ops| && rank(ops[i].key) == k
  }

  // Inserting a record, of any bytes: the last operation in it on a key decides
  // what is read, and other keys read as before.
  lemma RecordIsPerformed(rank: Bytes -> UserKey, record: Bytes, S: set<Entry>, k: UserKey, t: nat)
    requires RecordEntries(rank, record).Some? && DistinctSequences(S)
    requires forall e :: e in S ==> e.key.sequence < Sequence(record)
    requires t + 1 >= Sequence(record) + |Iterate(record).ops|
    ensures var ops, after := Iterate(record).ops, S + Contents(RecordEntries(rank, record).value);
      && (forall i: nat :: IsLastOp(rank, ops, k, i) ==>
           ReadAt(after, k, t) == if ops[i].PutOp? then Some(ops[i].value) else None)
      && (!HasOpOn(rank, ops, k) ==> ReadAt(after, k, t) == ReadAt(S, k, t))
  {
    hide Iterate, DecodeFixed64, DistinctSequences, BatchEntries, Contents, ReadAt, IsLastBy;
    var ops, first := Iterate(record).ops, Sequence(record);
    var inserted := OpsOf(rank, ops);
    OperationsAreRead(S, inserted, first, k, t);
    forall i: nat | IsLastOp(rank, ops, k, i) ensures IsLastBy(inserted, first, k, t, i) {
      LastOpIsLast(rank, ops, first, k, t, i);
    }
    assert !HasOpOn(rank, ops, k) ==> forall i :: 0 <= i < |inserted| ==> inserted[i].user != k;
  }

  lemma LastOpIsLast(rank: Bytes -> UserKey, ops: seq<BatchOp>, first: nat, k: UserKey, t: nat, i: nat)
    requires IsLastOp(rank, ops, k, i) && t + 1 >= first + |ops|
    ensures IsLastBy(OpsOf(rank, ops), first, k, t, i)
  {
  }

  // The entries that recovery inserts for the records of a log.
  ghost function RecoveredEntries(rank: Bytes -> UserKey, records: seq<Bytes>): set<Entry> {
    if records == [] then {}
    else
      var n := |records| - 1;
      var last := RecordEntries(rank, records[n]);
      RecoveredEntries(rank, records[..n]) + if last.Some? then Contents(last.value) else {}
  }

  // Each batch has its own sequence numbers, as DBImpl::Write gives them out.
  predicate Numbered(batches: seq<Sequenced>) {
    && (forall i :: 0 <= i < |batches| ==> CanBeLogged(batches[i]))
    && forall i, j :: 0 <= i < j < |batches| ==> batches[i].first + |batches[i].ops| <= batches[j].first
  }

  // The last operation on a key in the batches.
  predicate IsLastIn(rank: Bytes -> UserKey, batches: seq<Sequenced>, k: UserKey, b: nat, i: nat) {
    && b < |batches| && IsLastOp(rank, batches[b].ops, k, i)
    && forall c :: b < c < |batches| ==> !HasOpOn(rank, batches[c].ops, k)
  }

  ghost predicate ReadsAs(rank: Bytes -> UserKey, batches: seq<Sequenced>, S: set<Entry>, k: UserKey, t: nat) {
    && (forall b: nat, i: nat :: IsLastIn(rank, batches, k, b, i) ==>
         var op := batches[b].ops[i];
         ReadAt(S, k, t) == if op.PutOp? then Some(op.value) else None)
    && ((forall b :: 0 <= b < |batches| ==> !HasOpOn(rank, batches[b].ops, k)) ==> ReadAt(S, k, t) == None)
  }

  ghost predicate NumberedBelow(S: set<Entry>, n: nat) {
    DistinctSequences(S) && forall e :: e in S ==> e.key.sequence < n
  }

  function EndOf(batches: seq<Sequenced>): nat {
    if batches == [] then 0 else var b := batches[|batches| - 1]; b.first + |b.ops|
  }

  lemma {:induction false} BatchesAreRead(rank: Bytes -> UserKey, batches: seq<Sequenced>, k: UserKey, t: nat)
    requires Numbered(batches) && t >= EndOf(batches)
    ensures NumberedBelow(RecoveredEntries(rank, Records(batches)), EndOf(batches))
    ensures ReadsAs(rank, batches, RecoveredEntries(rank, Records(batches)), k, t)
  {
    hide BatchBytes, BatchEntries, RecordEntries, OpsOf, CanBeLogged, ReadAt, NumberedBelow, HasOpOn, IsLastOp;
    hide ReadsAs;
    if batches == [] {
      NothingIsRead(rank, k, t);
    } else {
      var n := |batches| - 1;
      var front, b := batches[..n], batches[n];
      assert Records(batches)[..n] == Records(front);
      BatchesAreRead(rank, front, k, t);
      EndsAscend(batches);
      var before := RecoveredEntries(rank, Records(front));
      BatchIsRead(rank, before, EndOf(front), b, k, t);
      OneMoreIsRead(rank, batches, before, RecoveredEntries(rank, Records(batches)), k, t);
    }
  }

  lemma NothingIsRead(rank: Bytes -> UserKey, k: UserKey, t: nat)
    ensures NumberedBelow({}, 0) && ReadsAs(rank, [], {}, k, t)
  {
    NoneVisible({}, k, t);
  }

  lemma OneMoreIsRead(rank: Bytes -> UserKey, batches: seq<Sequenced>, before: set<Entry>, after: set<Entry>,
                      k: UserKey, t: nat)
    requires batches != [] && ReadsAs(rank, batches[..|batches| - 1], before, k, t)
    requires var ops := batches[|batches| - 1].ops;
      && (forall i: nat :: IsLastOp(rank, ops, k, i) ==>
           ReadAt(after, k, t) == if ops[i].PutOp? then Some(ops[i].value) else None)
      && (!HasOpOn(rank, ops, k) ==> ReadAt(after, k, t) == ReadAt(before, k, t))
    ensures ReadsAs(rank, batches, after, k, t)
  {
    hide ReadAt, HasOpOn;
    var n := |batches| - 1;
    forall b: nat, i: nat | IsLastIn(rank, batches, k, b, i) && b < n
      ensures IsLastIn(rank, batches[..n], k, b, i) && !HasOpOn(rank, batches[n].ops, k)
    {
    }
  }

  lemma EndsAscend(batches: seq<Sequenced>)
    requires Numbered(batches) && batches != []
    ensures EndOf(batches[..|batches| - 1]) <= batches[|batches| - 1].first
  {
  }

  // One more batch.
  lemma BatchIsRead(rank: Bytes -> UserKey, S: set<Entry>, n: nat, b: Sequenced, k: UserKey, t: nat)
    requires NumberedBelow(S, n) && n <= b.first && CanBeLogged(b) && t >= b.first + |b.ops|
    ensures RecordEntries(rank, BatchBytes(b.first, b.ops)).Some?
    ensures var after := S + Contents(RecordEntries(rank, BatchBytes(b.first, b.ops)).value);
      && NumberedBelow(after, b.first + |b.ops|)
      && (forall i: nat :: IsLastOp(rank, b.ops, k, i) ==>
           ReadAt(after, k, t) == if b.ops[i].PutOp? then Some(b.ops[i].value) else None)
      && (!HasOpOn(rank, b.ops, k) ==> ReadAt(after, k, t) == ReadAt(S, k, t))
  {
    hide BatchBytes, Iterate, DecodeFixed64, BatchEntries, Contents, ReadAt, HasOpOn, IsLastOp, OpsOf, OpsFit;
    RecordIsRead(rank, b);
    HeaderIs(b.first, b.ops);
    BatchRoundTrips(b.first, b.ops);
    BatchIsDistinct(S, OpsOf(rank, b.ops), b.first);
    BatchMembers(OpsOf(rank, b.ops), b.first);
    RecordIsPerformed(rank, BatchBytes(b.first, b.ops), S, k, t);
  }

  // A log of batches cut off at any byte: after its recovery a key reads as the
  // last operation on it in the batches that fit whole left it.
  lemma RecoveredLogReads(crc: Checksum, rank: Bytes -> UserKey, batches: seq<Sequenced>, cut: nat, k: UserKey, t: nat)
    requires Numbered(batches) && t >= EndOf(batches) && cut <= LogLength(crc, Records(batches))
    ensures var reading := Scan(crc, EncodeAll(crc, Records(batches))[..cut], 0, None);
      var n := WholeRecords(crc, Records(batches), cut);
      n <= |batches| && ReadsAs(rank, batches[..n], RecoveredEntries(rank, reading.records), k, t)
  {
    hide Scan, EncodeAll, WholeRecords, CanBeLogged, RecordEntries, BatchBytes, BatchEntries, OpsOf, ReadsAs;
    hide RecoveredEntries;
    TruncatedLogReads(crc, Records(batches), cut);
    var n := WholeRecords(crc, Records(batches), cut);
    assert Records(batches)[..n] == Records(batches[..n]);
    FewerEndEarlier(batches, n);
    BatchesAreRead(rank, batches[..n], k, t);
  }

  lemma FewerEndEarlier(batches: seq<Sequenced>, n: nat)
    requires Numbered(batches) && n <= |batches|
    ensures Numbered(batches[..n]) && EndOf(batches[..n]) <= EndOf(batches)
  {
    hide CanBeLogged;
    if 0 < n < |batches| { assert batches[n - 1].first + |batches[n - 1].ops| <= batches[|batches| - 1].first; }
  }
}
