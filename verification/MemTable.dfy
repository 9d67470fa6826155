/**
 Memtables (db/memtable.cc) and the entries of write batches
 (MemTableInserter in db/write_batch.cc).
 */
module MemTables {
  import opened Basics
  import opened InternalKeys
  import opened Reads
  import opened Tables
  import Store

  datatype Op = Put(user: UserKey, value: Bytes) | Delete(user: UserKey)

  // The entry MemTableInserter makes of an operation.
  function OpEntry(op: Op, sequence: SequenceNumber): Entry {
    match op
    case Put(u, v) => Entry(InternalKey(u, sequence, TypeValue), v)
    case Delete(u) => Entry(InternalKey(u, sequence, TypeDeletion), [])
  }

  // MemTable::Add: the new entry takes its place in internal-key order.
  method Add(mem: seq<Entry>, e: Entry) returns (r: seq<Entry>)
    requires Sorted(mem) && forall x :: x in mem ==> x.key.sequence < e.key.sequence
    ensures Sorted(r) && Contents(r) == Contents(mem) + {e}
  {
    var i := 0;
    while i < |mem| && Less(mem[i].key, e.key)
      invariant 0 <= i <= |mem|
      invariant forall j :: 0 <= j < i ==> Less(mem[j].key, e.key)
    {
      i := i + 1;
    }
    InsertStaysSorted(mem, i, e);
    r := mem[..i] + [e] + mem[i..];
  }

  lemma InsertStaysSorted(mem: seq<Entry>, i: nat, e: Entry)
    requires Sorted(mem) && i <= |mem| && forall x :: x in mem ==> x.key.sequence < e.key.sequence
    requires forall j :: 0 <= j < i ==> Less(mem[j].key, e.key)
    requires i < |mem| ==> !Less(mem[i].key, e.key)
    ensures Sorted(mem[..i] + [e] + mem[i..]) && Contents(mem[..i] + [e] + mem[i..]) == Contents(mem) + {e}
  {
    forall j | i <= j < |mem| ensures Less(e.key, mem[j].key) {
      assert mem[i] in mem && mem[j] in mem;
      assert j > i ==> Less(mem[i].key, mem[j].key);
    }
    assert mem == mem[..i] + mem[i..];
  }

  // The entries of a batch whose first operation gets the given sequence number.
  function BatchEntries(ops: seq<Op>, first: nat): seq<Entry>
    requires first + |ops| <= MAX_SEQUENCE
  {
    seq(|ops|, i requires 0 <= i < |ops| => OpEntry(ops[i], first + i))
  }

  // WriteBatchInternal::InsertInto: each operation takes the next sequence number.
  method InsertInto(ops: seq<Op>, first: nat, mem: seq<Entry>) returns (r: seq<Entry>)
    requires first + |ops| <= MAX_SEQUENCE
    requires Sorted(mem) && forall x :: x in mem ==> x.key.sequence < first
    ensures Sorted(r) && Contents(r) == Contents(mem) + Contents(BatchEntries(ops, first))
  {
    hide Sorted;
    var sequence := first;
    ghost var batch := BatchEntries(ops, first);
    r := mem;
    for i := 0 to |ops|
      invariant sequence == first + i
      invariant Sorted(r) && Contents(r) == Contents(mem) + Contents(batch[..i])
      invariant forall x :: x in r ==> x.key.sequence < sequence
    {
      var e := OpEntry(ops[i], sequence);
      assert batch[..i + 1] == batch[..i] + [e];
      r := Add(r, e);
      assert forall x :: x in r ==> x in Contents(r);
      sequence := sequence + 1;
    }
    assert batch[..|ops|] == batch;
  }

  lemma BatchIsSequenced(ops: seq<Op>, last: nat)
    requires last + 1 + |ops| <= MAX_SEQUENCE
    ensures Store.Sequenced(BatchEntries(ops, last + 1), last) && |BatchEntries(ops, last + 1)| == |ops|
  {
  }

  // How a key reads after an operation on it.
  function ReadAfter(op: Op): Option<Bytes> {
    if op.Put? then Some(op.value) else None
  }

  // The operation at i is the last of its key among those numbered up to t.
  predicate IsLastBy(ops: seq<Op>, first: nat, k: UserKey, t: nat, i: nat) {
    && i < |ops| && ops[i].user == k && first + i <= t
    && forall j :: i < j < |ops| && ops[j].user == k ==> first + j > t
  }

  // An entry of a batch has the place of its operation as its number.
  lemma BatchMembers(ops: seq<Op>, first: nat)
    requires first + |ops| <= MAX_SEQUENCE
    ensures forall e :: e in Contents(BatchEntries(ops, first)) ==>
      && first <= e.key.sequence < first + |ops|
      && e == OpEntry(ops[e.key.sequence - first], e.key.sequence)
  {
  }

  // At any snapshot a batch is read as its operations say: a key has the value
  // that the last operation on it put, none if that deleted it, and what it had
  // before if there is no operation on it.
  lemma OperationsAreRead(S: set<Entry>, ops: seq<Op>, first: nat, k: UserKey, t: nat)
    requires first + |ops| <= MAX_SEQUENCE && DistinctSequences(S) && forall e :: e in S ==> e.key.sequence < first
    ensures forall i: nat :: IsLastBy(ops, first, k, t, i) ==>
      ReadAt(S + Contents(BatchEntries(ops, first)), k, t) == ReadAfter(ops[i])
    ensures (forall i :: 0 <= i < |ops| && ops[i].user == k ==> first + i > t) ==>
      ReadAt(S + Contents(BatchEntries(ops, first)), k, t) == ReadAt(S, k, t)
  {
    var es := BatchEntries(ops, first);
    var all := S + Contents(es);
    BatchIsDistinct(S, ops, first);
    hide BatchEntries;
    forall i: nat | IsLastBy(ops, first, k, t, i)
      ensures ReadAt(all, k, t) == ReadAfter(ops[i])
    {
      LastIsNewest(S, ops, first, k, t, i);
      NewestIsUnique(all, k, t, OpEntry(ops[i], first + i));
    }
    if forall i :: 0 <= i < |ops| && ops[i].user == k ==> first + i > t {
      OnlyOldVisible(S, ops, first, k, t);
    }
  }

  // The last operation on a key.
  predicate IsLastOn(ops: seq<Op>, k: UserKey, i: nat) {
    i < |ops| && ops[i].user == k && forall j :: i < j < |ops| ==> ops[j].user != k
  }

  predicate IsOn(ops: seq<Op>, k: UserKey) {
    exists i :: 0 <= i < |ops| && ops[i].user == k
  }

  // Reading S' up to last' after operations on what was S up to last: the last
  // operation on a key decides, and other keys read as before.
  ghost predicate Performed(ops: seq<Op>, S: set<Entry>, last: nat, S': set<Entry>, last': nat) {
    && (forall k, i: nat :: IsLastOn(ops, k, i) ==> ReadAt(S', k, last') == ReadAfter(ops[i]))
    && (forall k :: !IsOn(ops, k) ==> ReadAt(S', k, last') == ReadAt(S, k, last))
  }

  lemma BatchIsPerformed(S: set<Entry>, ops: seq<Op>, last: nat)
    requires last + 1 + |ops| <= MAX_SEQUENCE && DistinctSequences(S) && Store.UpTo(S, last)
    ensures Performed(ops, S, last, S + Contents(BatchEntries(ops, last + 1)), last + |ops|)
  {
    hide BatchEntries, Contents, ReadAt, DistinctSequences, IsOn, IsLastBy;
    var t, all := last + |ops|, S + Contents(BatchEntries(ops, last + 1));
    BelowNext(S, last);
    forall k, i: nat | IsLastOn(ops, k, i) ensures ReadAt(all, k, t) == ReadAfter(ops[i]) {
      LastIsLast(ops, last + 1, k, t, i);
      OperationsAreRead(S, ops, last + 1, k, t);
    }
    forall k | !IsOn(ops, k) ensures ReadAt(all, k, t) == ReadAt(S, k, last) {
      NoneOn(ops, k);
      OperationsAreRead(S, ops, last + 1, k, t);
      LaterReadsTheSame(S, k, last, t);
    }
  }

  lemma LastIsLast(ops: seq<Op>, first: nat, k: UserKey, t: nat, i: nat)
    requires IsLastOn(ops, k, i) && t + 1 >= first + |ops|
    ensures i < |ops| && IsLastBy(ops, first, k, t, i)
  {
  }

  lemma NoneOn(ops: seq<Op>, k: UserKey)
    requires !IsOn(ops, k)
    ensures forall i :: 0 <= i < |ops| ==> ops[i].user != k
  {
  }

  lemma BelowNext(S: set<Entry>, last: nat)
    requires Store.UpTo(S, last)
    ensures forall e :: e in S ==> e.key.sequence < last + 1
  {
  }

  lemma LaterReadsTheSame(S: set<Entry>, k: UserKey, last: nat, t: nat)
    requires DistinctSequences(S) && Store.UpTo(S, last) && last <= t
    ensures ReadAt(S, k, t) == ReadAt(S, k, last)
  {
    var o := NewestAt(S, k, last);
    if o.Some? {
      assert IsNewest(S, k, t, o.value);
      NewestIsUnique(S, k, t, o.value);
    } else {
      NoneVisible(S, k, t);
    }
  }

  lemma BatchIsDistinct(S: set<Entry>, ops: seq<Op>, first: nat)
    requires first + |ops| <= MAX_SEQUENCE && DistinctSequences(S) && forall e :: e in S ==> e.key.sequence < first
    ensures DistinctSequences(S + Contents(BatchEntries(ops, first)))
  {
    BatchMembers(ops, first);
    hide BatchEntries, Contents;
  }

  lemma LastIsNewest(S: set<Entry>, ops: seq<Op>, first: nat, k: UserKey, t: nat, i: nat)
    requires first + |ops| <= MAX_SEQUENCE && forall e :: e in S ==> e.key.sequence < first
    requires IsLastBy(ops, first, k, t, i)
    ensures IsNewest(S + Contents(BatchEntries(ops, first)), k, t, OpEntry(ops[i], first + i))
  {
    var es := BatchEntries(ops, first);
    assert es[i] in es;
    BatchMembers(ops, first);
  }

  lemma OnlyOldVisible(S: set<Entry>, ops: seq<Op>, first: nat, k: UserKey, t: nat)
    requires first + |ops| <= MAX_SEQUENCE && DistinctSequences(S) && forall e :: e in S ==> e.key.sequence < first
    requires forall i :: 0 <= i < |ops| && ops[i].user == k ==> first + i > t
    ensures NewestAt(S + Contents(BatchEntries(ops, first)), k, t) == NewestAt(S, k, t)
  {
    var all := S + Contents(BatchEntries(ops, first));
    BatchIsDistinct(S, ops, first);
    BatchMembers(ops, first);
    assert forall e :: e in all && Visible(e, k, t) ==> e in S;
    var o := NewestAt(S, k, t);
    if o.Some? {
      assert IsNewest(all, k, t, o.value);
      NewestIsUnique(all, k, t, o.value);
    } else {
      NoneVisible(all, k, t);
    }
  }

  function NewTable(number: nat, size: nat, entries: seq<Entry>): (f: File)
    requires entries != [] && Sorted(entries)
    ensures ValidFile(f) && f.number == number && f.entries == entries
  {
    File(number, size, entries[0].key, entries[|entries| - 1].key, entries)
  }
}
