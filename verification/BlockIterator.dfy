/** Block::Iter (table/block.cc). */
module BlockIterator {
  import opened Basics
  import opened Coding
  import opened BlockFormat
  import opened BlockReader

  // The comparator orders keys by their rank.
  type Rank = Bytes -> real

  ghost predicate SortedPairs(rank: Rank, es: seq<Pair>) {
    forall i, j :: 0 <= i < j < |es| ==> rank(es[i].key) < rank(es[j].key)
  }

  // i is the first entry at or after target.
  ghost predicate IsFirstFrom(rank: Rank, es: seq<Pair>, target: Bytes, i: nat) {
    && i <= |es|
    && (forall j :: 0 <= j < i ==> rank(es[j].key) < rank(target))
    && (forall j :: i <= j < |es| ==> rank(es[j].key) >= rank(target))
  }

  class Iter {
    const rank: Rank
    const data: Bytes
    const restarts: nat
    const numRestarts: nat
    ghost const es: seq<Pair>
    ghost const interval: nat
    ghost const offsets: seq<nat>

    var current: nat
    var restartIndex: nat
    var key: Bytes
    // The value is a slice of data
    var valueStart: nat
    var valueLength: nat
    // The status is a corruption
    var corrupted: bool
    // The entry the iterator is at; |es| when it is not valid
    ghost var pos: nat

    ghost predicate OnBlock() {
      Laid(data, restarts, numRestarts, es, interval, offsets)
    }

    // The restart array is inside the data, whatever the bytes are.
    predicate OnBytes() {
      numRestarts > 0 && restarts + 4 * numRestarts <= |data|
    }

    lemma BlockIsBytes()
      requires OnBlock()
      ensures OnBytes()
    {
      assert RestartLaid(data, restarts, es, interval, offsets, numRestarts - 1);
    }

    function NextEntryOffset(): nat
      reads this`valueStart, this`valueLength
    {
      valueStart + valueLength
    }

    // The restart index is that of entry i's restart block or, when reading on
    // has just reached a restart point, of the block before.
    ghost predicate InRestartBlock(i: nat, slack: nat)
      reads this`restartIndex
    {
      && restartIndex < numRestarts
      && RestartEntry(restartIndex, interval) <= i <= RestartEntry(restartIndex, interval) + interval + slack
    }

    // The entries before i of the restart block have been read.
    ghost predicate Before(i: nat)
      reads this`valueStart, this`valueLength, this`key, this`restartIndex
    {
      && i <= |es| < |offsets| && NextEntryOffset() == offsets[i]
      && interval > 0 && (i % interval != 0 ==> key == es[i - 1].key)
      && InRestartBlock(i, 1)
    }

    // The iterator is at entry i.
    ghost predicate At(i: nat)
      reads this`current, this`valueStart, this`valueLength, this`key, this`restartIndex
    {
      && i < |es| < |offsets| && current == offsets[i] && NextEntryOffset() == offsets[i + 1]
      && key == es[i].key
      && NextEntryOffset() <= |data| && data[valueStart..NextEntryOffset()] == es[i].value
      && InRestartBlock(i, 0)
    }

    // At an entry, or at the end.
    ghost predicate AtOrEnd(i: nat)
      reads this`current, this`valueStart, this`valueLength, this`key, this`restartIndex
    {
      if i < |es| then At(i) else i == |es| && current == restarts && restartIndex == numRestarts
    }

    ghost predicate Valid()
      reads this
    {
      OnBlock() && SortedPairs(rank, es) && AtOrEnd(pos)
    }

    // Any bytes with a restart array; es and interval say which block they may be.
    constructor (rank: Rank, data: Bytes, restarts: nat, numRestarts: nat, ghost es: seq<Pair>, ghost interval: nat)
      requires numRestarts > 0 && restarts + 4 * numRestarts <= |data| && interval > 0
      ensures this.rank == rank && this.data == data && this.restarts == restarts && this.numRestarts == numRestarts
      ensures OnBytes() && !corrupted && current == restarts && restartIndex == numRestarts
      ensures Laid(data, restarts, numRestarts, es, interval, Offsets(es, interval)) && SortedPairs(rank, es) ==>
        Valid() && this.es == es && pos == |es|
    {
      this.rank, this.data, this.restarts, this.numRestarts := rank, data, restarts, numRestarts;
      this.es, this.interval, this.offsets := es, interval, Offsets(es, interval);
      current, restartIndex, corrupted := restarts, numRestarts, false;
      key, valueStart, valueLength, pos := [], 0, 0, |es|;
    }

    function GetRestartPoint(index: nat): nat
      requires OnBytes() && index < numRestarts
    {
      DecodeFixed32(data, restarts + 4 * index)
    }

    lemma RestartPointIs(index: nat)
      requires OnBlock() && OnBytes() && index < numRestarts
      ensures RestartEntry(index, interval) <= |es| && GetRestartPoint(index) == offsets[RestartEntry(index, interval)]
    {
      assert RestartLaid(data, restarts, es, interval, offsets, index);
    }

    method SeekToRestartPoint(index: nat)
      requires OnBytes() && index < numRestarts
      modifies this`restartIndex, this`key, this`valueStart, this`valueLength
      ensures key == [] && restartIndex == index && valueStart == GetRestartPoint(index) && valueLength == 0
      ensures OnBlock() ==> Before(RestartEntry(index, interval))
    {
      key := [];
      restartIndex := index;
      // ParseNextKey() starts at the end of the value
      valueStart, valueLength := GetRestartPoint(index), 0;
      if OnBlock() {
        RestartPointIs(index);
        RestartIsMultiple(index, interval);
      }
    }

    method CorruptionError()
      modifies this`current, this`restartIndex, this`key, this`valueStart, this`valueLength, this`corrupted
      ensures current == restarts && restartIndex == numRestarts && corrupted
      ensures key == [] && valueStart == 0 && valueLength == 0
    {
      current, restartIndex, corrupted := restarts, numRestarts, true;
      key, valueStart, valueLength := [], 0, 0;
    }

    // What is behind the data is unknown: the lengths of an entry are added in 32
    // bits, and may go beyond it.
    method BytesAt(p: nat, n: nat) returns (bytes: Bytes)
      ensures |bytes| == n && (p + n <= |data| ==> bytes == data[p..p + n])
    {
      if p + n <= |data| {
        bytes := data[p..p + n];
      } else {
        ghost var zeros: Bytes := seq(n, _ => 0);
        assert |zeros| == n;
        bytes :| |bytes| == n;
      }
    }

    // What an entry whose header is h makes of the key before it.
    ghost predicate IsParsed(h: Header, keyBefore: Bytes)
      reads this
    {
      && h.shared <= |keyBefore| && |key| == h.shared + h.nonShared && key[..h.shared] == keyBefore[..h.shared]
      && (h.next + h.nonShared <= |data| ==> key[h.shared..] == data[h.next..h.next + h.nonShared])
      && valueStart == h.next + h.nonShared && valueLength == h.valueLength
    }

    // What reading on does, on any bytes: they end, or the entry is corrupt, or it is
    // there.
    twostate predicate HasRead(more: bool)
      requires OnBytes()
      reads this
    {
      var p := old(NextEntryOffset());
      var d := DecodeEntry(data, p, restarts);
      if p >= restarts then
        !more && current == restarts && restartIndex == numRestarts && corrupted == old(corrupted)
      else if d.None? || |old(key)| < d.value.shared then
        !more && current == restarts && restartIndex == numRestarts && corrupted && key == []
      else
        && more && current == p && corrupted == old(corrupted)
        && IsParsed(d.value, old(key)) && IsRestartOf(current, old(restartIndex))
    }

    // Reads the next entry.  On a built block the entry is the one that was added, and never corrupt.
    method ParseNextKey(ghost i: nat) returns (more: bool)
      requires OnBytes()
      modifies this`current, this`restartIndex, this`key, this`valueStart, this`valueLength, this`corrupted
      ensures HasRead(more)
      ensures OnBlock() && old(Before(i)) ==> more == (i < |es|) && AtOrEnd(i) && corrupted == old(corrupted)
    {
      hide Laid, DecodeEntry, PassedOver, GetRestartPoint, RestartEntry, Before, InRestartBlock;
      current := NextEntryOffset();
      ghost var inBlock := OnBlock() && Before(i);
      if inBlock { EntryIsThere(i); }
      if current >= restarts {
        // No more entries to return.  Mark as invalid.
        current, restartIndex := restarts, numRestarts;
        return false;
      }
      var d := DecodeEntry(data, current, restarts);
      if d.None? || |key| < d.value.shared {
        CorruptionError();
        return false;
      }
      var delta := BytesAt(d.value.next, d.value.nonShared);
      key := key[..d.value.shared] + delta;
      valueStart, valueLength := d.value.next + d.value.nonShared, d.value.valueLength;
      AdvanceRestartIndex(i);
      more := true;
    }

    // A built block has entry i, and it decodes, or ends there.
    lemma EntryIsThere(i: nat)
      requires OnBlock() && Before(i) && current == NextEntryOffset()
      ensures i <= |es| < |offsets| && (current >= restarts <==> i == |es|)
      ensures current == offsets[i] && InRestartBlock(i, 1)
      ensures i < |es| ==>
        var d := DecodeEntry(data, current, restarts);
        && d.Some? && d.value.shared <= |key|
        && d.value.next + d.value.nonShared + d.value.valueLength == offsets[i + 1] <= |data|
        && key[..d.value.shared] + data[d.value.next..d.value.next + d.value.nonShared] == es[i].key
        && data[d.value.next + d.value.nonShared..offsets[i + 1]] == es[i].value
    {
      if i < |es| { assert EntryLaid(data, restarts, es, interval, offsets, i); }
    }

    ghost predicate PassedOver(offset: nat, from: nat)
      requires OnBytes()
      reads this
    {
      forall r: nat :: from < r <= restartIndex ==> r < numRestarts && GetRestartPoint(r) < offset
    }

    // The restart index has moved on over the restart points before an offset.
    ghost predicate IsRestartOf(offset: nat, from: nat)
      requires OnBytes()
      reads this
    {
      && restartIndex >= from && PassedOver(offset, from)
      && (restartIndex + 1 < numRestarts ==> GetRestartPoint(restartIndex + 1) >= offset)
    }

    method AdvanceRestartIndex(ghost i: nat)
      requires OnBytes()
      modifies this`restartIndex
      ensures IsRestartOf(current, old(restartIndex))
      ensures OnBlock() && i < |es| && current == offsets[i] && old(InRestartBlock(i, 1)) ==> InRestartBlock(i, 0)
    {
      ghost var inBlock := OnBlock() && i < |es| && current == offsets[i] && InRestartBlock(i, 1);
      while restartIndex + 1 < numRestarts && GetRestartPoint(restartIndex + 1) < current
        invariant restartIndex >= old(restartIndex)
        invariant PassedOver(current, old(restartIndex))
        invariant inBlock ==> InRestartBlock(i, 1)
        decreases numRestarts - restartIndex
      {
        if inBlock {
          RestartPointIs(restartIndex + 1);
          NextRestart(restartIndex, interval);
        }
        restartIndex := restartIndex + 1;
      }
      if inBlock {
        NextRestart(restartIndex, interval);
        if restartIndex + 1 < numRestarts { RestartPointIs(restartIndex + 1); }
      }
    }

    method Next()
      requires Valid() && pos < |es|
      modifies this
      ensures Valid() && pos == old(pos) + 1
    {
      BlockIsBytes();
      pos := pos + 1;
      var more := ParseNextKey(pos);
    }

    // Scans backwards to a restart point before the current entry, then forwards.
    method Prev()
      requires Valid() && pos < |es|
      modifies this
      ensures Valid() && pos == if old(pos) == 0 then |es| else old(pos) - 1
    {
      BlockIsBytes();
      hide Laid, SortedPairs;
      var original := current;
      var found := ScanBackwards();
      if !found {
        // No more entries
        current, restartIndex, pos := restarts, numRestarts, |es|;
        return;
      }
      SeekToRestartPoint(restartIndex);
      ReadUpTo(original);
      pos := pos - 1;
    }

    // To the restart point before the current entry, if there is one.
    method ScanBackwards() returns (found: bool)
      requires OnBlock() && At(pos)
      modifies this`restartIndex
      ensures found == (pos > 0)
      ensures found ==> restartIndex < numRestarts && RestartEntry(restartIndex, interval) < pos
    {
      BlockIsBytes();
      while GetRestartPoint(restartIndex) >= current
        invariant InRestartBlock(pos, 0)
        decreases restartIndex
      {
        RestartPointIs(restartIndex);
        OffsetOrder(RestartEntry(restartIndex, interval), pos);
        if restartIndex == 0 {
          return false;
        }
        NextRestart(restartIndex - 1, interval);
        restartIndex := restartIndex - 1;
      }
      RestartPointIs(restartIndex);
      OffsetOrder(RestartEntry(restartIndex, interval), pos);
      return true;
    }

    // Reads on until the end of an entry hits the start of the original one.
    method ReadUpTo(original: nat)
      requires OnBlock() && restartIndex < numRestarts && RestartEntry(restartIndex, interval) < pos < |es|
      requires Before(RestartEntry(restartIndex, interval)) && original == offsets[pos]
      modifies this`current, this`restartIndex, this`key, this`valueStart, this`valueLength, this`corrupted
      ensures At(pos - 1)
    {
      BlockIsBytes();
      hide Laid, HasRead, At, Before, InRestartBlock;
      ghost var j: nat := RestartEntry(restartIndex, interval);
      var more := ParseNextKey(j);
      EndOfEntry(j, pos);
      while more && NextEntryOffset() < original
        invariant more && j < pos && AtOrEnd(j) && Before(j + 1)
        invariant NextEntryOffset() < original <==> j + 1 < pos
        decreases pos - j
      {
        j := j + 1;
        more := ParseNextKey(j);
        EndOfEntry(j, pos);
      }
    }

    lemma OffsetOrder(i: nat, j: nat)
      requires OnBlock() && i <= |es| && j <= |es|
      ensures offsets[i] < offsets[j] <==> i < j
    {
    }

    // The key at a restart point is stored whole.
    method RestartKey(index: nat) returns (midKey: Bytes)
      requires OnBlock() && 0 < index < numRestarts
      ensures RestartEntry(index, interval) < |es| && midKey == es[RestartEntry(index, interval)].key
    {
      BlockIsBytes();
      RestartPointIs(index);
      var offset := GetRestartPoint(index);
      ghost var i := RestartEntry(index, interval);
      NextRestart(index - 1, interval);
      RestartIsMultiple(index, interval);
      assert RestartLaid(data, restarts, es, interval, offsets, index);
      assert EntryLaid(data, restarts, es, interval, offsets, i);
      var d := DecodeEntry(data, offset, restarts);
      midKey := data[d.value.next..d.value.next + d.value.nonShared];
    }

    // The last restart point with a key before target, by binary search.
    method FindRestart(target: Bytes) returns (left: nat)
      requires OnBlock() && SortedPairs(rank, es)
      ensures left < numRestarts
      ensures left > 0 ==>
        RestartEntry(left, interval) < |es| && rank(es[RestartEntry(left, interval)].key) < rank(target)
      ensures left + 1 < numRestarts ==>
        RestartEntry(left + 1, interval) < |es| && rank(es[RestartEntry(left + 1, interval)].key) >= rank(target)
    {
      left := 0;
      var right: nat := numRestarts - 1;
      while left < right
        invariant left <= right < numRestarts
        invariant left > 0 ==>
          RestartEntry(left, interval) < |es| && rank(es[RestartEntry(left, interval)].key) < rank(target)
        invariant right + 1 < numRestarts ==>
          RestartEntry(right + 1, interval) < |es| && rank(es[RestartEntry(right + 1, interval)].key) >= rank(target)
      {
        var mid := (left + right + 1) / 2;
        var midKey := RestartKey(mid);
        if rank(midKey) < rank(target) {
          left := mid;
        } else {
          right := mid - 1;
        }
      }
    }

    method Seek(target: Bytes)
      requires Valid()
      modifies this
      ensures Valid() && IsFirstFrom(rank, es, target, pos)
    {
      BlockIsBytes();
      hide Laid, HasRead, SortedPairs, RestartEntry;
      var left := FindRestart(target);
      ghost var i := RestartEntry(left, interval);
      SeekToRestartPoint(left);
      BeforeIsBelow(target, i);
      SearchFrom(target, i);
    }

    // Linear search (within restart block) for first key >= target.
    method SearchFrom(target: Bytes, ghost from: nat)
      requires OnBlock() && SortedPairs(rank, es) && Before(from)
      requires from <= |es| && forall j :: 0 <= j < from ==> rank(es[j].key) < rank(target)
      modifies this
      ensures Valid() && IsFirstFrom(rank, es, target, pos)
    {
      BlockIsBytes();
      hide Laid, HasRead, SortedPairs, At, AtOrEnd, Before, InRestartBlock, IsFirstFrom;
      ghost var i := from;
      while true
        invariant Before(i) && i <= |es| && forall j :: 0 <= j < i ==> rank(es[j].key) < rank(target)
        decreases |es| - i
      {
        var more := ParseNextKey(i);
        if more { AtIsThere(i); }
        if !more || rank(key) >= rank(target) {
          pos := i;
          FirstIsFrom(target, i);
          return;
        }
        i := i + 1;
      }
    }

    // An entry read is the one before the next.
    lemma AtIsThere(i: nat)
      requires OnBlock() && AtOrEnd(i) && i < |es|
      ensures key == es[i].key && Before(i + 1)
    {
    }

    lemma BeforeIsBelow(target: Bytes, i: nat)
      requires SortedPairs(rank, es) && Before(i)
      requires i > 0 ==> i < |es| && rank(es[i].key) < rank(target)
      ensures i <= |es| && forall j :: 0 <= j < i ==> rank(es[j].key) < rank(target)
    {
    }

    lemma FirstIsFrom(target: Bytes, i: nat)
      requires SortedPairs(rank, es) && i <= |es| && forall j :: 0 <= j < i ==> rank(es[j].key) < rank(target)
      requires i < |es| ==> rank(es[i].key) >= rank(target)
      ensures IsFirstFrom(rank, es, target, i)
    {
    }

    method SeekToFirst()
      requires Valid()
      modifies this
      ensures Valid() && pos == 0
    {
      BlockIsBytes();
      SeekToRestartPoint(0);
      var more := ParseNextKey(0);
      pos := 0;
    }

    method SeekToLast()
      requires Valid()
      modifies this
      ensures Valid() && pos == if es == [] then 0 else |es| - 1
    {
      BlockIsBytes();
      hide Laid, HasRead, SortedPairs, RestartEntry;
      SeekToRestartPoint(numRestarts - 1);
      LastRestartIsInside();
      ReadToEnd(RestartEntry(numRestarts - 1, interval));
    }

    // Keeps reading until the end of the entry is that of the entries.
    method ReadToEnd(ghost from: nat)
      requires OnBlock() && SortedPairs(rank, es) && Before(from) && (es != [] ==> from < |es|)
      modifies this
      ensures Valid() && pos == if es == [] then 0 else |es| - 1
    {
      BlockIsBytes();
      hide Laid, HasRead, SortedPairs, At, AtOrEnd, Before, InRestartBlock;
      ghost var i := from;
      var more := ParseNextKey(i);
      if more { EndOfEntry(i, |es|); }
      while more && NextEntryOffset() < restarts
        invariant AtOrEnd(i) && more == (i < |es|) && (es != [] ==> more)
        invariant more ==> Before(i + 1) && (NextEntryOffset() < restarts <==> i + 1 < |es|)
        decreases |es| - i
      {
        i := i + 1;
        more := ParseNextKey(i);
        EndOfEntry(i, |es|);
      }
      pos := i;
      if !more { EndIsLast(i); }
    }

    lemma EndIsLast(i: nat)
      requires AtOrEnd(i) && i >= |es|
      ensures i == |es|
    {
    }

    // An entry ends before entry n starts, unless it is the one before.
    lemma EndOfEntry(i: nat, n: nat)
      requires OnBlock() && AtOrEnd(i) && i < n <= |es|
      ensures |es| < |offsets| && offsets[|es|] == restarts
      ensures Before(i + 1) && (NextEntryOffset() < offsets[n] <==> i + 1 < n)
    {
      OffsetOrder(i + 1, n);
    }

    lemma LastRestartIsInside()
      requires OnBlock() && numRestarts > 0
      ensures RestartEntry(numRestarts - 1, interval) <= |es|
      ensures es != [] ==> RestartEntry(numRestarts - 1, interval) < |es|
    {
      assert RestartLaid(data, restarts, es, interval, offsets, numRestarts - 1);
    }

    method Entry() returns (p: Pair)
      requires Valid() && pos < |es|
      ensures p == es[pos]
    {
      p := Pair(key, data[valueStart..NextEntryOffset()]);
    }
  }

  function NumRestartsOf(contents: Bytes): nat
    requires |contents| >= 4
  {
    DecodeFixed32(contents, |contents| - 4)
  }

  // The restart array that the last word promises is there.
  predicate HasRestarts(contents: Bytes) {
    |contents| >= 4 && NumRestartsOf(contents) <= (|contents| - 4) / 4
  }

  // Block and Block::NewIterator, of any bytes: an error if the restart array does
  // not fit, an empty iterator if there are no restart points.  A built block gives
  // an iterator on its entries.
  method NewIterator(rank: Rank, contents: Bytes, ghost es: seq<Pair>,
                     ghost interval: nat) returns (bad: bool, iter: Iter?)
    requires interval > 0
    ensures bad == !HasRestarts(contents) && (iter == null <==> bad || NumRestartsOf(contents) == 0)
    ensures iter != null ==>
      && fresh(iter) && iter.OnBytes() && !iter.corrupted
      && iter.data == contents && iter.numRestarts == NumRestartsOf(contents)
      && iter.current == iter.restarts && iter.restartIndex == iter.numRestarts
    ensures Fits(es, interval) && contents == Block(es, interval) && SortedPairs(rank, es) ==>
      iter != null && iter.Valid() && iter.rank == rank && iter.es == es && iter.pos == |es|
  {
    hide Block, Laid, EncodeEntries, NumRestarts, DecodeFixed32, SortedPairs, Fits;
    iter := null;
    ghost var size := |EncodeEntries(es, interval)|;
    ghost var built := Fits(es, interval) && contents == Block(es, interval) && SortedPairs(rank, es);
    if built {
      BlockParts(contents, size, es, interval);
      BlockIsLaid(contents, size, es, interval);
      SomeRestarts(contents, size, es, interval);
    }
    bad := !HasRestarts(contents);
    if bad { return; }
    var num := NumRestartsOf(contents);
    if num == 0 { return; }
    iter := new Iter(rank, contents, |contents| - (1 + num) * 4, num, es, interval);
  }

  lemma SomeRestarts(contents: Bytes, size: nat, es: seq<Pair>, interval: nat)
    requires interval > 0 && Laid(contents, size, NumRestarts(|es|, interval), es, interval, Offsets(es, interval))
    ensures NumRestarts(|es|, interval) > 0
  {
  }

  lemma RestartIsMultiple(k: nat, interval: nat)
    requires interval > 0
    ensures RestartEntry(k, interval) % interval == 0
  {
    assert RestartEntry(k, interval) == k * interval + 0;
    ModuloOfMultiple(k, interval);
  }

  lemma {:induction false} ModuloOfMultiple(k: nat, interval: nat)
    requires interval > 0
    ensures (k * interval) % interval == 0
  {
    var q, r := k * interval / interval, k * interval % interval;
    assert k * interval == q * interval + r;
    assert (k - q) * interval == r;
    if k - q >= 1 { MultiplyMonotone(1, k - q, interval); }
    if q - k >= 1 { MultiplyMonotone(1, q - k, interval); }
  }

  lemma NextRestart(k: nat, interval: nat)
    ensures RestartEntry(k + 1, interval) == RestartEntry(k, interval) + interval
  {
  }
}
