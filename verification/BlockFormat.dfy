/**
 The format of a block of a table (table/block_builder.cc): entries that share
 a prefix of their key with the one before, except at restart points, then the
 offsets of the restart points and their number.
 */
module BlockFormat {
  import opened Basics
  import opened Coding

  datatype Pair = Pair(key: Bytes, value: Bytes)

  function CommonPrefix(a: Bytes, b: Bytes): (n: nat)
    ensures n <= |a| && n <= |b| && a[..n] == b[..n]
    ensures n < |a| && n < |b| ==> a[n] != b[n]
  {
    if a == [] || b == [] || a[0] != b[0] then 0 else CommonPrefix(a[1..], b[1..]) + 1
  }

  // The bytes of an entry that shares the first bytes of its key.
  function EntryBytes(shared: nat, p: Pair): (r: Bytes)
    requires shared <= |p.key|
    ensures |r| >= 3
  {
    Varint(shared) + (Varint(|p.key| - shared) + (Varint(|p.value|) + (p.key[shared..] + p.value)))
  }

  // How much the last of some entries shares with the one before.
  function Shared(es: seq<Pair>, interval: nat): (n: nat)
    requires es != [] && interval > 0
    ensures n <= |es[|es| - 1].key|
  {
    var last := |es| - 1;
    if last % interval == 0 then 0 else CommonPrefix(es[last - 1].key, es[last].key)
  }

  function EncodeEntries(es: seq<Pair>, interval: nat): Bytes
    requires interval > 0
  {
    if es == [] then []
    else EncodeEntries(es[..|es| - 1], interval) + EntryBytes(Shared(es, interval), es[|es| - 1])
  }

  // Where entry i begins.
  function Offset(es: seq<Pair>, interval: nat, i: nat): nat
    requires interval > 0 && i <= |es|
  {
    |EncodeEntries(es[..i], interval)|
  }

  // The number of restart points of n entries; the first one is always there.
  function NumRestarts(n: nat, interval: nat): (k: nat)
    requires interval > 0
    ensures k >= 1
  {
    if n == 0 then 1 else (n - 1) / interval + 1
  }

  // The restart points are at every interval-th entry.
  lemma RestartBounds(n: nat, interval: nat, k: nat)
    requires interval > 0 && k < NumRestarts(n, interval)
    ensures k * interval <= n && (n > 0 ==> k * interval < n)
  {
    if n > 0 {
      assert k <= (n - 1) / interval;
      MultiplyMonotone(k, (n - 1) / interval, interval);
    }
  }

  lemma MultiplyMonotone(a: nat, b: nat, c: nat)
    requires a <= b
    ensures a * c <= b * c
  {
  }

  function RestartOffset(es: seq<Pair>, interval: nat, k: nat): nat
    requires interval > 0 && k < NumRestarts(|es|, interval)
  {
    RestartBounds(|es|, interval, k);
    Offset(es, interval, k * interval)
  }

  function Restarts(es: seq<Pair>, interval: nat): seq<nat>
    requires interval > 0
  {
    seq(NumRestarts(|es|, interval), k requires 0 <= k < NumRestarts(|es|, interval) => RestartOffset(es, interval, k))
  }

  lemma RestartsLength(es: seq<Pair>, interval: nat)
    requires interval > 0
    ensures |Restarts(es, interval)| == NumRestarts(|es|, interval)
  {
  }

  lemma RestartsAt(es: seq<Pair>, interval: nat, k: nat)
    requires interval > 0 && k < NumRestarts(|es|, interval)
    ensures k < |Restarts(es, interval)| && Restarts(es, interval)[k] == RestartOffset(es, interval, k)
  {
  }

  function FixedAll(vs: seq<nat>): Bytes {
    if vs == [] then [] else FixedAll(vs[..|vs| - 1]) + Fixed32(vs[|vs| - 1])
  }

  lemma {:induction false} FixedLength(vs: seq<nat>)
    ensures |FixedAll(vs)| == 4 * |vs|
  {
    if vs != [] { FixedLength(vs[..|vs| - 1]); }
  }

  lemma {:induction false} FixedAt(vs: seq<nat>, k: nat)
    requires k < |vs|
    ensures Holds(FixedAll(vs), 4 * k, Fixed32(vs[k]))
  {
    hide Fixed32;
    var last := |vs| - 1;
    FixedLength(vs[..last]);
    if k < last {
      FixedAt(vs[..last], k);
      HoldsAppended(FixedAll(vs[..last]), 4 * k, Fixed32(vs[k]), FixedAll(vs));
    }
  }

  ghost predicate Fits(es: seq<Pair>, interval: nat)
    requires interval > 0
  {
    |EncodeEntries(es, interval)| + 4 * (NumRestarts(|es|, interval) + 1) < LIMIT32
  }

  // Offsets grow with every entry.
  lemma {:induction false} OffsetsGrow(es: seq<Pair>, interval: nat, i: nat, j: nat)
    requires interval > 0 && i <= j <= |es|
    ensures Offset(es, interval, i) + (j - i) <= Offset(es, interval, j)
    decreases j
  {
    if i < j {
      OffsetsGrow(es, interval, i, j - 1);
      assert es[..j][..j - 1] == es[..j - 1];
    }
  }

  // A finished block.
  function Block(es: seq<Pair>, interval: nat): Bytes
    requires interval > 0
  {
    EncodeEntries(es, interval) + FixedAll(Restarts(es, interval)) + Fixed32(NumRestarts(|es|, interval))
  }
}
