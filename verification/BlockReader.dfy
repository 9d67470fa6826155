/**
 Block and Block::Iter (table/block.cc) on the blocks that BlockBuilder makes.
 */
module BlockReader {
  import opened Basics
  import opened Coding
  import opened BlockFormat

  // ----- reading the bytes ---------------------------------------------------------------

  datatype Header = Header(shared: nat, nonShared: nat, valueLength: nat, next: nat)

  function DecodeVarints(data: Bytes, p: nat, limit: nat): (r: Option<Header>)
    requires limit <= |data|
    ensures r.Some? ==> p < r.value.next <= limit
  {
    var s := GetVarint32(data, p, limit);
    if s.None? then None else
    var n := GetVarint32(data, s.value.1, limit);
    if n.None? then None else
    var v := GetVarint32(data, n.value.1, limit);
    if v.None? then None else
    Some(Header(s.value.0, n.value.0, v.value.0, v.value.1))
  }

  function DecodeHeader(data: Bytes, p: nat, limit: nat): (r: Option<Header>)
    requires limit <= |data|
    ensures r.Some? ==> p < r.value.next <= limit
  {
    if limit - p < 3 then None
    else if data[p] < 128 && data[p + 1] < 128 && data[p + 2] < 128 then
      // Fast path: all three values are encoded in one byte each
      Some(Header(data[p], data[p + 1], data[p + 2], p + 3))
    else DecodeVarints(data, p, limit)
  }

  // The lengths of the entry at p and where its key bytes begin, or None if it
  // is corrupt.  The sum of the lengths is taken in 32 bits.
  function DecodeEntry(data: Bytes, p: nat, limit: nat): (r: Option<Header>)
    requires limit <= |data|
    ensures r.Some? ==> p < r.value.next <= limit
  {
    var h := DecodeHeader(data, p, limit);
    if h.None? || limit - h.value.next < (h.value.nonShared + h.value.valueLength) % LIMIT32 then None else h
  }

  lemma VarintsDecode(data: Bytes, p: nat, limit: nat, s: nat, n: nat, v: nat)
    requires s < LIMIT32 && n < LIMIT32 && v < LIMIT32 && limit <= |data|
    requires p + |Varint(s)| + |Varint(n)| + |Varint(v)| <= limit
    requires Holds(data, p, Varint(s)) && Holds(data, p + |Varint(s)|, Varint(n))
    requires Holds(data, p + |Varint(s)| + |Varint(n)|, Varint(v))
    ensures DecodeVarints(data, p, limit) == Some(Header(s, n, v, p + |Varint(s)| + |Varint(n)| + |Varint(v)|))
  {
    hide Varint, GetVarint32, Holds;
    Varint32RoundTrips(data, p, limit, s);
    Varint32RoundTrips(data, p + |Varint(s)|, limit, n);
    Varint32RoundTrips(data, p + |Varint(s)| + |Varint(n)|, limit, v);
  }

  // The fast path reads what the slow one would.
  lemma HeaderDecodes(data: Bytes, p: nat, limit: nat, s: nat, n: nat, v: nat)
    requires s < LIMIT32 && n < LIMIT32 && v < LIMIT32 && limit <= |data|
    requires Holds(data, p, Varint(s) + (Varint(n) + Varint(v))) && p + |Varint(s)| + |Varint(n)| + |Varint(v)| <= limit
    ensures DecodeHeader(data, p, limit) == Some(Header(s, n, v, p + |Varint(s)| + |Varint(n)| + |Varint(v)|))
  {
    hide Varint, DecodeVarints, Holds;
    HoldsParts(data, p, Varint(s), Varint(n) + Varint(v));
    HoldsParts(data, p + |Varint(s)|, Varint(n), Varint(v));
    VarintsDecode(data, p, limit, s, n, v);
    FirstByte(data, p, s);
    FirstByte(data, p + |Varint(s)|, n);
    FirstByte(data, p + |Varint(s)| + |Varint(n)|, v);
  }

  // An entry whose key and value would go past the limit is refused.
  lemma LongEntryIsRefused(data: Bytes, p: nat, limit: nat, s: nat, n: nat, v: nat)
    requires s < LIMIT32 && n + v < LIMIT32 && limit <= |data|
    requires Holds(data, p, Varint(s) + (Varint(n) + Varint(v)))
    requires var next := p + |Varint(s)| + |Varint(n)| + |Varint(v)|; next <= limit
    ensures var next := p + |Varint(s)| + |Varint(n)| + |Varint(v)|;
      DecodeEntry(data, p, limit) == if next + n + v > limit then None else Some(Header(s, n, v, next))
  {
    hide Varint, DecodeHeader, Holds;
    HeaderDecodes(data, p, limit, s, n, v);
  }

  // A number is one byte if and only if the first byte says so.
  lemma FirstByte(data: Bytes, p: nat, v: nat)
    requires Holds(data, p, Varint(v))
    ensures |Varint(v)| >= 1 && p < |data|
    ensures if v < 128 then |Varint(v)| == 1 && data[p] == v else data[p] >= 128 && |Varint(v)| > 1
  {
    assert data[p..p + |Varint(v)|][0] == data[p];
  }

  lemma EntryDecodes(data: Bytes, p: nat, limit: nat, shared: nat, e: Pair)
    requires shared <= |e.key| && Holds(data, p, EntryBytes(shared, e))
    requires p + |EntryBytes(shared, e)| <= limit <= |data|
    requires limit < LIMIT32 && shared < LIMIT32
    ensures var d := DecodeEntry(data, p, limit);
      && d.Some? && d.value.shared == shared
      && d.value.nonShared == |e.key| - shared && d.value.valueLength == |e.value|
      && p + |EntryBytes(shared, e)| == d.value.next + d.value.nonShared + d.value.valueLength
      && Holds(data, d.value.next, e.key[shared..])
      && Holds(data, d.value.next + d.value.nonShared, e.value)
  {
    hide Varint, DecodeHeader;
    var n := |e.key| - shared;
    var lengths := Varint(shared) + (Varint(n) + Varint(|e.value|));
    var rest := e.key[shared..] + e.value;
    assert EntryBytes(shared, e) == lengths + rest;
    HoldsParts(data, p, lengths, rest);
    HeaderDecodes(data, p, limit, shared, n, |e.value|);
    HoldsParts(data, p + |lengths|, e.key[shared..], e.value);
  }

  // ----- where things are in a block --------------------------------------------------------

  function SharedAt(es: seq<Pair>, interval: nat, i: nat): (n: nat)
    requires interval > 0 && i < |es|
    ensures n <= |es[i].key| && (i % interval == 0 ==> n == 0)
    ensures n > 0 ==> n <= |es[i - 1].key| && es[i].key[..n] == es[i - 1].key[..n]
  {
    Shared(es[..i + 1], interval)
  }

  lemma EntryFollows(es: seq<Pair>, interval: nat, i: nat)
    requires interval > 0 && i < |es|
    ensures EncodeEntries(es[..i + 1], interval) ==
      EncodeEntries(es[..i], interval) + EntryBytes(SharedAt(es, interval, i), es[i])
  {
    hide EntryBytes, Shared;
    var upTo := es[..i + 1];
    assert upTo[..|upTo| - 1] == es[..i] && upTo[|upTo| - 1] == es[i];
  }

  // Entry i is where its offset says.
  lemma EntryAt(es: seq<Pair>, interval: nat, i: nat)
    requires interval > 0 && i < |es|
    ensures Offset(es, interval, i + 1) == Offset(es, interval, i) + |EntryBytes(SharedAt(es, interval, i), es[i])|
    ensures Holds(EncodeEntries(es, interval), Offset(es, interval, i), EntryBytes(SharedAt(es, interval, i), es[i]))
  {
    hide EntryBytes, SharedAt, EncodeEntries;
    EntryFollows(es, interval, i);
    PrefixEncodes(es, interval, i + 1);
    var bytes := EntryBytes(SharedAt(es, interval, i), es[i]);
    HoldsAppended(EncodeEntries(es[..i + 1], interval), Offset(es, interval, i), bytes, EncodeEntries(es, interval));
  }

  lemma {:induction false} PrefixEncodes(es: seq<Pair>, interval: nat, i: nat)
    requires interval > 0 && i <= |es|
    ensures EncodeEntries(es[..i], interval) <= EncodeEntries(es, interval)
  {
    if i == |es| {
      assert es[..i] == es;
    } else {
      PrefixEncodes(es[..|es| - 1], interval, i);
      assert es[..|es| - 1][..i] == es[..i];
    }
  }

  // A block and where its restart points begin.
  ghost predicate IsBlock(data: Bytes, restarts: nat, es: seq<Pair>, interval: nat) {
    interval > 0 && Fits(es, interval) && data == Block(es, interval) && restarts == |EncodeEntries(es, interval)|
  }

  lemma BlockParts(data: Bytes, restarts: nat, es: seq<Pair>, interval: nat)
    requires IsBlock(data, restarts, es, interval)
    ensures var k := NumRestarts(|es|, interval);
      && |data| == restarts + 4 * k + 4 < LIMIT32
      && EncodeEntries(es, interval) <= data
      && Holds(data, restarts, FixedAll(Restarts(es, interval)))
      && DecodeFixed32(data, |data| - 4) == k
  {
    hide EncodeEntries, Restarts, Fixed32;
    var k := NumRestarts(|es|, interval);
    var rs := Restarts(es, interval);
    RestartsLength(es, interval);
    FixedLength(rs);
    assert |Fixed32(k)| == 4 by { FixedIsFour(k); }
    WholeHolds(data);
    assert data == EncodeEntries(es, interval) + (FixedAll(rs) + Fixed32(k));
    HoldsParts(data, 0, EncodeEntries(es, interval), FixedAll(rs) + Fixed32(k));
    HoldsParts(data, restarts, FixedAll(rs), Fixed32(k));
    Fixed32RoundTrips(data, |data| - 4, k);
  }

  lemma RestartsGrow(es: seq<Pair>, interval: nat, k: nat)
    requires interval > 0 && k < NumRestarts(|es|, interval)
    ensures RestartOffset(es, interval, k) <= |EncodeEntries(es, interval)|
  {
    hide EncodeEntries, NumRestarts;
    RestartBounds(|es|, interval, k);
    OffsetsGrow(es, interval, k * interval, |es|);
    assert es[..|es|] == es;
  }

  // Restart point k.
  lemma RestartDecodes(data: Bytes, restarts: nat, es: seq<Pair>, interval: nat, k: nat)
    requires IsBlock(data, restarts, es, interval) && k < NumRestarts(|es|, interval)
    ensures restarts + 4 * k + 4 <= |data|
    ensures DecodeFixed32(data, restarts + 4 * k) == RestartOffset(es, interval, k) <= restarts
  {
    hide EncodeEntries, Restarts, Fixed32, NumRestarts, Block, FixedAll;
    var rs := Restarts(es, interval);
    BlockParts(data, restarts, es, interval);
    RestartsLength(es, interval);
    RestartsAt(es, interval, k);
    RestartsGrow(es, interval, k);
    FixedLength(rs);
    FixedAt(rs, k);
    HoldsWithin(data, restarts, FixedAll(rs), 4 * k, Fixed32(rs[k]));
    Fixed32RoundTrips(data, restarts + 4 * k, rs[k]);
  }

  // A key is no longer than the bytes up to the end of its entry.
  lemma {:induction false} KeyLength(es: seq<Pair>, interval: nat, i: nat)
    requires interval > 0 && i < |es|
    ensures |es[i].key| + |es[i].value| <= Offset(es, interval, i + 1)
  {
    hide SharedAt, EncodeEntries, EntryBytes;
    EntryAt(es, interval, i);
    EntryLength(SharedAt(es, interval, i), es[i]);
    if SharedAt(es, interval, i) > 0 {
      PositiveShare(es, interval, i);
      KeyLength(es, interval, i - 1);
    }
  }

  lemma PositiveShare(es: seq<Pair>, interval: nat, i: nat)
    requires interval > 0 && i < |es| && SharedAt(es, interval, i) > 0
    ensures i > 0 && SharedAt(es, interval, i) <= |es[i - 1].key|
  {
  }

  lemma EntryLength(shared: nat, p: Pair)
    requires shared <= |p.key|
    ensures |EntryBytes(shared, p)| >= 3 + |p.key| - shared + |p.value|
  {
  }

  // What the reader finds at entry i.
  lemma EntryParses(data: Bytes, restarts: nat, es: seq<Pair>, interval: nat, i: nat)
    requires IsBlock(data, restarts, es, interval) && i < |es|
    ensures restarts <= |data| && Offset(es, interval, i) < Offset(es, interval, i + 1) <= restarts
    ensures var d := DecodeEntry(data, Offset(es, interval, i), restarts);
      && d.Some? && d.value.shared == SharedAt(es, interval, i) && d.value.shared + d.value.nonShared == |es[i].key|
      && d.value.next + d.value.nonShared + d.value.valueLength == Offset(es, interval, i + 1)
      && data[d.value.next..d.value.next + d.value.nonShared] == es[i].key[d.value.shared..]
      && data[d.value.next + d.value.nonShared..d.value.next + d.value.nonShared + d.value.valueLength] == es[i].value
  {
    hide SharedAt, EncodeEntries, EntryBytes, DecodeEntry, Block, NumRestarts;
    BlockParts(data, restarts, es, interval);
    EntryAt(es, interval, i);
    KeyLength(es, interval, i);
    OffsetsGrow(es, interval, i + 1, |es|);
    assert es[..|es|] == es;
    var bytes := EntryBytes(SharedAt(es, interval, i), es[i]);
    HoldsAppended(EncodeEntries(es, interval), Offset(es, interval, i), bytes, data);
    EntryDecodes(data, Offset(es, interval, i), restarts, SharedAt(es, interval, i), es[i]);
  }

  // ----- the layout of a block, as the iterator meets it ------------------------------------

  function RestartEntry(k: nat, interval: nat): nat { k * interval }

  // The entry between offsets[i] and offsets[i + 1] decodes to entry i, given
  // the key of the entry before or, at a restart point, given nothing.
  ghost predicate EntryLaid(data: Bytes, restarts: nat, es: seq<Pair>, interval: nat, offsets: seq<nat>, i: nat)
    requires interval > 0 && restarts <= |data| && i < |es| < |offsets|
  {
    var d := DecodeEntry(data, offsets[i], restarts);
    && offsets[i] < offsets[i + 1] <= restarts
    && d.Some?
    && (i % interval == 0 ==> d.value.shared == 0)
    && (i % interval != 0 ==> d.value.shared <= |es[i - 1].key|)
    && d.value.next + d.value.nonShared + d.value.valueLength == offsets[i + 1]
    && es[i].key == (if d.value.shared == 0 then [] else es[i - 1].key[..d.value.shared])
      + data[d.value.next..d.value.next + d.value.nonShared]
    && es[i].value == data[d.value.next + d.value.nonShared..offsets[i + 1]]
  }

  ghost predicate RestartLaid(data: Bytes, restarts: nat, es: seq<Pair>, interval: nat, offsets: seq<nat>, k: nat) {
    && RestartEntry(k, interval) <= |es| < |offsets|
    && (es != [] ==> RestartEntry(k, interval) < |es|)
    && restarts + 4 * k + 4 <= |data|
    && DecodeFixed32(data, restarts + 4 * k) == offsets[RestartEntry(k, interval)]
  }

  ghost predicate Laid(data: Bytes, restarts: nat, numRestarts: nat, es: seq<Pair>, interval: nat, offsets: seq<nat>) {
    && interval > 0 && restarts <= |data| && |offsets| == |es| + 1 && offsets[|es|] == restarts && numRestarts > 0
    && |es| <= RestartEntry(numRestarts - 1, interval) + interval
    && (forall i, j :: 0 <= i < j <= |es| ==> offsets[i] < offsets[j])
    && (forall i :: 0 <= i < |es| ==> EntryLaid(data, restarts, es, interval, offsets, i))
    && (forall k :: 0 <= k < numRestarts ==> RestartLaid(data, restarts, es, interval, offsets, k))
  }

  ghost function Offsets(es: seq<Pair>, interval: nat): seq<nat>
    requires interval > 0
  {
    seq(|es| + 1, i requires 0 <= i < |es| + 1 => Offset(es, interval, i))
  }

  lemma OffsetsAt(es: seq<Pair>, interval: nat, i: nat)
    requires interval > 0 && i <= |es|
    ensures |Offsets(es, interval)| == |es| + 1 && Offsets(es, interval)[i] == Offset(es, interval, i)
  {
  }

  lemma IntervalPositive(data: Bytes, restarts: nat, es: seq<Pair>, interval: nat)
    requires IsBlock(data, restarts, es, interval)
    ensures interval > 0
  {
  }

  lemma EntryIsLaid(data: Bytes, restarts: nat, es: seq<Pair>, interval: nat, i: nat)
    requires IsBlock(data, restarts, es, interval) && i < |es|
    ensures |Offsets(es, interval)| == |es| + 1 && restarts <= |data|
    ensures EntryLaid(data, restarts, es, interval, Offsets(es, interval), i)
  {
    hide IsBlock, Offset, Offsets, DecodeEntry, SharedAt;
    IntervalPositive(data, restarts, es, interval);
    EntryParses(data, restarts, es, interval, i);
    OffsetsAt(es, interval, i);
    OffsetsAt(es, interval, i + 1);
    SharedFits(es, interval, i);
    var shared := SharedAt(es, interval, i);
    assert es[i].key == es[i].key[..shared] + es[i].key[shared..];
  }

  lemma SharedFits(es: seq<Pair>, interval: nat, i: nat)
    requires interval > 0 && i < |es|
    ensures var n := SharedAt(es, interval, i);
      && n <= |es[i].key|
      && (i % interval == 0 ==> n == 0)
      && (i > 0 && n > 0 ==> n <= |es[i - 1].key| && es[i].key[..n] == es[i - 1].key[..n])
  {
  }

  lemma LastRestartCovers(n: nat, interval: nat)
    requires interval > 0
    ensures n <= RestartEntry(NumRestarts(n, interval) - 1, interval) + interval
  {
    if n > 0 { assert n - 1 == (n - 1) / interval * interval + (n - 1) % interval; }
  }

  lemma RestartIsEntry(es: seq<Pair>, interval: nat, k: nat)
    requires interval > 0 && k < NumRestarts(|es|, interval)
    ensures RestartEntry(k, interval) <= |es| < |Offsets(es, interval)|
    ensures (es != [] ==> RestartEntry(k, interval) < |es|)
    ensures Offsets(es, interval)[RestartEntry(k, interval)] == RestartOffset(es, interval, k)
  {
    RestartBounds(|es|, interval, k);
    OffsetsAt(es, interval, k * interval);
    hide Offset, Offsets, NumRestarts;
  }

  lemma RestartIsLaid(data: Bytes, restarts: nat, es: seq<Pair>, interval: nat, k: nat)
    requires IsBlock(data, restarts, es, interval) && k < NumRestarts(|es|, interval)
    ensures RestartLaid(data, restarts, es, interval, Offsets(es, interval), k)
  {
    RestartDecodes(data, restarts, es, interval, k);
    RestartIsEntry(es, interval, k);
    hide IsBlock, Offset, Offsets, NumRestarts, DecodeFixed32, RestartOffset, RestartEntry;
  }

  lemma OffsetsAreSorted(data: Bytes, restarts: nat, es: seq<Pair>, interval: nat)
    requires IsBlock(data, restarts, es, interval)
    ensures var offsets := Offsets(es, interval);
      && |offsets| == |es| + 1 && offsets[|es|] == restarts
      && forall i, j :: 0 <= i < j <= |es| ==> offsets[i] < offsets[j]
  {
    var offsets := Offsets(es, interval);
    assert es[..|es|] == es;
    OffsetsAt(es, interval, |es|);
    hide Offset;
    forall i, j | 0 <= i < j <= |es| ensures offsets[i] < offsets[j] { OffsetsGrow(es, interval, i, j); }
  }

  // A built block is laid out like that.
  lemma BlockIsLaid(data: Bytes, restarts: nat, es: seq<Pair>, interval: nat)
    requires IsBlock(data, restarts, es, interval)
    ensures Laid(data, restarts, NumRestarts(|es|, interval), es, interval, Offsets(es, interval))
  {
    var offsets := Offsets(es, interval);
    BlockParts(data, restarts, es, interval);
    OffsetsAreSorted(data, restarts, es, interval);
    assert interval > 0 && restarts <= |data|;
    hide Offset, Offsets, EntryLaid, RestartLaid;
    forall i | 0 <= i < |es| ensures EntryLaid(data, restarts, es, interval, offsets, i) {
      EntryIsLaid(data, restarts, es, interval, i);
    }
    forall k | 0 <= k < NumRestarts(|es|, interval) ensures RestartLaid(data, restarts, es, interval, offsets, k) {
      RestartIsLaid(data, restarts, es, interval, k);
    }
    LastRestartCovers(|es|, interval);
  }
}
