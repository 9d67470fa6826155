/**
 Records of the manifest and of the log that end too early or make no sense
 (VersionEdit::DecodeFrom, WriteBatch::Iterate): they are refused, and nothing is
 made up from what is there.
 */
module CutRecords {
  import opened Basics
  import opened Coding
  import VersionEdits
  import opened Tables
  import opened WriteBatches

  // ----- numbers and slices that are cut off ------------------------------------------------

  // The data ends inside what should be at p.
  ghost predicate Cut(data: Bytes, p: nat, bytes: Bytes) {
    p <= |data| < p + |bytes| && data[p..] == bytes[..|data| - p]
  }

  lemma CutParts(data: Bytes, p: nat, a: Bytes, b: Bytes)
    requires Cut(data, p, a + b)
    ensures Cut(data, p, a) || (Holds(data, p, a) && Cut(data, p + |a|, b))
  {
    var n := |data| - p;
    if n < |a| {
      assert (a + b)[..n] == a[..n];
    } else {
      assert data[p..p + |a|] == data[p..][..|a|] == a;
      assert data[p + |a|..] == data[p..][|a|..] == b[..n - |a|];
    }
  }

  lemma {:induction false} CutVarint(data: Bytes, p: nat, v: nat, bytes: nat)
    requires Cut(data, p, Varint(v))
    ensures ParseVarint(data, p, |data|, bytes) == None
    decreases bytes
  {
    if bytes > 0 && p < |data| {
      assert data[p] == data[p..][0] == Varint(v)[0];
      if v >= 128 {
        CutParts(data, p, [v % 128 + 128], Varint(v / 128));
        CutVarint(data, p + 1, v / 128, bytes - 1);
      }
    }
  }

  lemma CutNumber32(data: Bytes, p: nat, v: nat)
    requires Cut(data, p, PutVarint32(v))
    ensures GetVarint32(data, p, |data|) == None
  {
    CutVarint(data, p, v % LIMIT32, 5);
    hide ParseVarint;
  }

  lemma CutNumber64(data: Bytes, p: nat, v: nat)
    requires Cut(data, p, PutVarint64(v))
    ensures GetVarint64(data, p, |data|) == None
  {
    CutVarint(data, p, v % LIMIT64, 10);
    hide ParseVarint;
  }

  lemma CutSlice(data: Bytes, p: nat, s: Bytes)
    requires Cut(data, p, Prefixed(s)) && |s| < LIMIT32
    ensures GetSlice(data, p) == None
  {
    hide PutVarint32, GetVarint32, Holds;
    CutParts(data, p, PutVarint32(|s|), s);
    if Cut(data, p, PutVarint32(|s|)) {
      CutNumber32(data, p, |s|);
    } else {
      Varint32Is(data, p, |s|);
    }
  }

  // ----- write batches --------------------------------------------------------------------------

  lemma CutOp(rep: Bytes, p: nat, op: BatchOp)
    requires OpFits(op) && Cut(rep, p, EncodeOp(op)) && p < |rep|
    ensures ReadOpAt(rep, p) == Malformed(if op.PutOp? then "bad WriteBatch Put" else "bad WriteBatch Delete")
  {
    hide Prefixed, GetSlice, Holds, Cut;
    var tag := if op.PutOp? then VALUE_TAG else DELETION_TAG;
    var rest := if op.PutOp? then Prefixed(op.key) + Prefixed(op.value) else Prefixed(op.key);
    CutParts(rep, p, [tag], rest);
    NoneIsCut(rep, p, tag);
    TagIs(rep, p, tag);
    if op.PutOp? {
      CutParts(rep, p + 1, Prefixed(op.key), Prefixed(op.value));
      if Cut(rep, p + 1, Prefixed(op.key)) {
        CutSlice(rep, p + 1, op.key);
      } else {
        SliceIs(rep, p + 1, op.key);
        CutSlice(rep, p + 1 + |Prefixed(op.key)|, op.value);
      }
    } else {
      CutSlice(rep, p + 1, op.key);
    }
  }

  lemma NoneIsCut(data: Bytes, p: nat, b: Byte)
    requires p < |data|
    ensures !Cut(data, p, [b])
  {
  }

  // After whole operations, one that is cut off ends the iteration with a corruption.
  lemma CutOperationFails(rep: Bytes, ops: seq<BatchOp>, op: BatchOp)
    requires OpsFit(ops) && OpFits(op) && |rep| >= BATCH_HEADER && Holds(rep, BATCH_HEADER, EncodeOps(ops))
    requires Cut(rep, BATCH_HEADER + |EncodeOps(ops)|, EncodeOp(op)) && BATCH_HEADER + |EncodeOps(ops)| < |rep|
    ensures Iterate(rep) ==
      Iteration(ops, Corruption(if op.PutOp? then "bad WriteBatch Put" else "bad WriteBatch Delete"))
  {
    hide EncodeOps, EncodeOp, Holds, Cut, ReadOpAt;
    OpsAreRead(rep, ops);
    CutOp(rep, BATCH_HEADER + |EncodeOps(ops)|, op);
  }

  // So does a tag that is neither a value's nor a deletion's.
  lemma UnknownOperationFails(rep: Bytes, ops: seq<BatchOp>)
    requires OpsFit(ops) && |rep| >= BATCH_HEADER && Holds(rep, BATCH_HEADER, EncodeOps(ops))
    requires var p := BATCH_HEADER + |EncodeOps(ops)|; p < |rep| && rep[p] > 1
    ensures Iterate(rep) == Iteration(ops, Corruption("unknown WriteBatch tag"))
  {
    hide EncodeOps, Holds, GetSlice;
    OpsAreRead(rep, ops);
  }

  // So does a header that counts more or fewer operations than there are.
  lemma WrongCountFails(rep: Bytes, ops: seq<BatchOp>)
    requires OpsFit(ops) && |rep| >= BATCH_HEADER && Holds(rep, BATCH_HEADER, EncodeOps(ops))
    requires |rep| == BATCH_HEADER + |EncodeOps(ops)| && Count(rep) != |ops|
    ensures Iterate(rep) == Iteration(ops, Corruption("WriteBatch has wrong count"))
  {
    hide EncodeOps, Holds, GetSlice;
    OpsAreRead(rep, ops);
  }

  // The operations that are there in full, of those in n bytes.
  lemma {:induction false} WholeOps(ops: seq<BatchOp>, n: nat) returns (k: nat)
    requires n < |EncodeOps(ops)|
    ensures k < |ops| && |EncodeOps(ops[..k])| <= n < |EncodeOps(ops[..k + 1])|
  {
    NoOps();
    hide EncodeOps;
    var m := |ops| - 1;
    if |EncodeOps(ops[..m])| <= n {
      k := m;
      assert ops[..m + 1] == ops;
    } else {
      k := WholeOps(ops[..m], n);
      assert ops[..m][..k] == ops[..k] && ops[..m][..k + 1] == ops[..k + 1];
    }
  }

  lemma NoOps()
    ensures EncodeOps([]) == []
  {
  }

  lemma LastOp(ops: seq<BatchOp>)
    requires ops != []
    ensures EncodeOps(ops) == EncodeOps(ops[..|ops| - 1]) + EncodeOp(ops[|ops| - 1])
  {
    hide EncodeOp;
  }

  lemma CutOfPrefix(data: Bytes, n: nat, p: nat, bytes: Bytes)
    requires p <= n < p + |bytes| && Holds(data, p, bytes)
    ensures n <= |data| && Cut(data[..n], p, bytes)
  {
    assert data[..n][p..] == data[p..n] == data[p..p + |bytes|][..n - p];
  }

  lemma PrefixOfOps(ops: seq<BatchOp>, k: nat)
    requires k < |ops|
    ensures EncodeOps(ops[..k + 1]) == EncodeOps(ops[..k]) + EncodeOp(ops[k])
    ensures EncodeOps(ops) == EncodeOps(ops[..k + 1]) + EncodeOps(ops[k + 1..])
  {
    hide EncodeOp, EncodeOps;
    assert ops[..k + 1][..k] == ops[..k];
    LastOp(ops[..k + 1]);
    OpsConcat(ops[..k + 1], ops[k + 1..]);
    assert ops[..k + 1] + ops[k + 1..] == ops;
  }

  // No batch that lost its end is taken for a shorter one.
  lemma CutBatchIsRefused(sequence: nat, ops: seq<BatchOp>, cut: nat)
    requires sequence < LIMIT64 && OpsFit(ops) && |ops| < COUNT_LIMIT && cut < |BatchBytes(sequence, ops)|
    ensures Iterate(BatchBytes(sequence, ops)[..cut]).status != OK
  {
    hide EncodeOps, EncodeOp, BatchBytes, Holds, Cut, ReadOpAt, Fixed32, Fixed64, DecodeFixed32;
    if cut >= BATCH_HEADER {
      var rep := BatchBytes(sequence, ops);
      var short := rep[..cut];
      BatchParts(sequence, ops);
      HeaderIs(sequence, ops);
      var k := WholeOps(ops, cut - BATCH_HEADER);
      PrefixOfOps(ops, k);
      var p := BATCH_HEADER + |EncodeOps(ops[..k])|;
      HoldsParts(rep, BATCH_HEADER, EncodeOps(ops[..k + 1]), EncodeOps(ops[k + 1..]));
      HoldsParts(rep, BATCH_HEADER, EncodeOps(ops[..k]), EncodeOp(ops[k]));
      HoldsPrefix(rep, cut, BATCH_HEADER, EncodeOps(ops[..k]));
      SameCount(rep, cut);
      if p == cut {
        WrongCountFails(short, ops[..k]);
      } else {
        CutOfPrefix(rep, cut, p, EncodeOp(ops[k]));
        CutOperationFails(short, ops[..k], ops[k]);
      }
    }
  }

  lemma SameCount(rep: Bytes, cut: nat)
    requires BATCH_HEADER <= cut <= |rep|
    ensures Count(rep[..cut]) == Count(rep)
  {
    assert forall i :: 8 <= i < 12 ==> rep[..cut][i] == rep[i];
  }

  // ----- manifest records ---------------------------------------------------------------------------

  // After whole items, one that cannot be read is a corruption, with its name.
  lemma UnreadableItemFails(data: Bytes, items: seq<VersionEdits.Item>, tag: nat)
    requires VersionEdits.ItemsFit(items) && VersionEdits.KnownTag(tag)
    requires Holds(data, 0, VersionEdits.EncodeItems(items))
    requires var p := |VersionEdits.EncodeItems(items)|;
      Holds(data, p, PutVarint32(tag)) && VersionEdits.GetBody(tag, data, p + |PutVarint32(tag)|) == None
    ensures VersionEdits.DecodeEdit(data) == VersionEdits.Corruption(
      if tag == 1 then "comparator name" else if tag == 2 then "log number" else if tag == 3 then "next file number"
      else if tag == 4 then "last sequence number" else if tag == 5 then "compaction pointer"
      else if tag == 6 then "deleted file" else if tag == 7 then "new-file entry" else "previous log number")
  {
    hide VersionEdits.EncodeItems, VersionEdits.GetBody, PutVarint32, GetVarint32, Holds;
    VersionEdits.ItemsAre(data, items);
    Varint32Is(data, |VersionEdits.EncodeItems(items)|, tag);
  }

  lemma CutBody(data: Bytes, p: nat, item: VersionEdits.Item)
    requires VersionEdits.ItemFits(item) && Cut(data, p, VersionEdits.Body(item))
    ensures VersionEdits.GetBody(VersionEdits.TagOf(item), data, p) == None
  {
    hide PutVarint32, PutVarint64, Prefixed, GetVarint32, GetVarint64, GetSlice, Holds, Cut;
    match item
    case Comparator(name) => CutSlice(data, p, name);
    case LogNumber(n) => CutNumber64(data, p, n);
    case PrevLogNumber(n) => CutNumber64(data, p, n);
    case NextFileNumber(n) => CutNumber64(data, p, n);
    case LastSequence(n) => CutNumber64(data, p, n);
    case CompactPointer(level, key) =>
      CutLevel(data, p, level, Prefixed(key));
      if Cut(data, p + |PutVarint32(level)|, Prefixed(key)) { CutSlice(data, p + |PutVarint32(level)|, key); }
    case DeletedFile(level, n) =>
      CutLevel(data, p, level, PutVarint64(n));
      if Cut(data, p + |PutVarint32(level)|, PutVarint64(n)) { CutNumber64(data, p + |PutVarint32(level)|, n); }
    case NewFile(level, f) => CutNewFile(data, p, item);
  }

  lemma CutLevel(data: Bytes, p: nat, level: nat, rest: Bytes)
    requires level < NUM_LEVELS && Cut(data, p, PutVarint32(level) + rest)
    ensures VersionEdits.GetLevel(data, p) == None ||
      (VersionEdits.GetLevel(data, p) == Some((level, p + |PutVarint32(level)|))
       && Cut(data, p + |PutVarint32(level)|, rest))
  {
    hide PutVarint32, GetVarint32, Holds, Cut;
    CutParts(data, p, PutVarint32(level), rest);
    if Cut(data, p, PutVarint32(level)) {
      CutNumber32(data, p, level);
    } else {
      VersionEdits.LevelIs(data, p, level);
    }
  }

  lemma CutNewFile(data: Bytes, p: nat, item: VersionEdits.Item)
    requires item.NewFile? && VersionEdits.ItemFits(item) && Cut(data, p, VersionEdits.Body(item))
    ensures VersionEdits.GetNewFile(data, p) == None
  {
    hide PutVarint32, PutVarint64, Prefixed, GetVarint64, GetSlice, VersionEdits.GetLevel, Holds, Cut;
    var f := item.file;
    var keys := Prefixed(f.smallest) + Prefixed(f.largest);
    CutLevel(data, p, item.level, PutVarint64(f.number) + (PutVarint64(f.size) + keys));
    var q := p + |PutVarint32(item.level)|;
    if VersionEdits.GetLevel(data, p).Some? {
      CutNumberAnd(data, q, f.number, PutVarint64(f.size) + keys);
      if GetVarint64(data, q, |data|).Some? {
        var r := q + |PutVarint64(f.number)|;
        CutNumberAnd(data, r, f.size, keys);
        if GetVarint64(data, r, |data|).Some? { CutKeys(data, r + |PutVarint64(f.size)|, f.smallest, f.largest); }
      }
    }
  }

  lemma CutNumberAnd(data: Bytes, p: nat, n: nat, rest: Bytes)
    requires n < LIMIT64 && Cut(data, p, PutVarint64(n) + rest)
    ensures GetVarint64(data, p, |data|) == None ||
      (GetVarint64(data, p, |data|) == Some((n, p + |PutVarint64(n)|)) && Cut(data, p + |PutVarint64(n)|, rest))
  {
    hide PutVarint64, GetVarint64, Holds, Cut;
    CutParts(data, p, PutVarint64(n), rest);
    if Cut(data, p, PutVarint64(n)) { CutNumber64(data, p, n); } else { Varint64Is(data, p, n); }
  }

  lemma CutKeys(data: Bytes, p: nat, a: Bytes, b: Bytes)
    requires |a| < LIMIT32 && |b| < LIMIT32 && Cut(data, p, Prefixed(a) + Prefixed(b))
    ensures var first := GetSlice(data, p);
      first == None || (first.value.1 == p + |Prefixed(a)| && GetSlice(data, first.value.1) == None)
  {
    hide Prefixed, GetSlice, Holds, Cut;
    CutParts(data, p, Prefixed(a), Prefixed(b));
    if Cut(data, p, Prefixed(a)) {
      CutSlice(data, p, a);
    } else {
      SliceIs(data, p, a);
      CutSlice(data, p + |Prefixed(a)|, b);
    }
  }

  // A record that ends inside an item is refused.
  lemma CutEditIsRefused(items: seq<VersionEdits.Item>, item: VersionEdits.Item, data: Bytes)
    requires VersionEdits.ItemsFit(items) && VersionEdits.ItemFits(item)
    requires Holds(data, 0, VersionEdits.EncodeItems(items)) && |VersionEdits.EncodeItems(items)| < |data|
    requires Cut(data, |VersionEdits.EncodeItems(items)|, VersionEdits.EncodeItem(item))
    ensures VersionEdits.DecodeEdit(data).Corruption?
  {
    hide VersionEdits.EncodeItems, VersionEdits.GetBody, VersionEdits.Body, VersionEdits.ItemFits;
    hide VersionEdits.DecodeEdit, PutVarint32, Holds, Cut;
    var p, tag := |VersionEdits.EncodeItems(items)|, VersionEdits.TagOf(item);
    CutParts(data, p, PutVarint32(tag), VersionEdits.Body(item));
    OneByteTag(tag);
    NoneIsCut(data, p, tag);
    CutBody(data, p + 1, item);
    UnreadableItemFails(data, items, tag);
  }

  lemma OneByteTag(tag: nat)
    requires tag < 128
    ensures PutVarint32(tag) == [tag]
  {
  }
}
