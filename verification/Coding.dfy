/** Little-endian and base-128 integers (util/coding.cc). */
module Coding {
  import opened Basics

  const LIMIT32: nat := 0x1_0000_0000
  const LIMIT64: nat := 0x1_0000_0000_0000_0000

  // The low 32 bits of a number.
  function Fixed32(v: nat): Bytes {
    [v % 256, v / 256 % 256, v / 256 / 256 % 256, v / 256 / 256 / 256 % 256]
  }

  function DecodeFixed32(data: Bytes, p: nat): nat
    requires p + 4 <= |data|
  {
    data[p] as int + 256 * data[p + 1] as int + 65536 * data[p + 2] as int + 16777216 * data[p + 3] as int
  }

  lemma Fixed32Limit(data: Bytes, p: nat)
    requires p + 4 <= |data|
    ensures DecodeFixed32(data, p) < LIMIT32
  {
  }

  lemma Fixed32RoundTrips(data: Bytes, p: nat, v: nat)
    requires v < LIMIT32 && Holds(data, p, Fixed32(v))
    ensures DecodeFixed32(data, p) == v
  {
    var s := data[p..p + 4];
    assert forall i :: 0 <= i < 4 ==> s[i] == data[p + i];
    BytesOf(v);
  }

  lemma BytesOf(v: nat)
    requires v < LIMIT32
    ensures v == v % 256 + 256 * (v / 256 % 256) + 65536 * (v / 256 / 256 % 256) +
      16777216 * (v / 256 / 256 / 256 % 256)
  {
    var a := v / 256;
    var b := a / 256;
    var c := b / 256;
    assert v == v % 256 + 256 * a && a == a % 256 + 256 * b && b == b % 256 + 256 * c && c < 256;
  }

  function Fixed64(v: nat): Bytes {
    Fixed32(v % LIMIT32) + Fixed32(v / LIMIT32)
  }

  function DecodeFixed64(data: Bytes, p: nat): nat
    requires p + 8 <= |data|
  {
    DecodeFixed32(data, p) + LIMIT32 * DecodeFixed32(data, p + 4)
  }

  lemma Fixed64RoundTrips(data: Bytes, p: nat, v: nat)
    requires v < LIMIT64 && Holds(data, p, Fixed64(v))
    ensures p + 8 <= |data| && DecodeFixed64(data, p) == v
  {
    hide Fixed32, DecodeFixed32;
    FixedIsFour(v % LIMIT32);
    FixedIsFour(v / LIMIT32);
    HoldsParts(data, p, Fixed32(v % LIMIT32), Fixed32(v / LIMIT32));
    Fixed32RoundTrips(data, p, v % LIMIT32);
    Fixed32RoundTrips(data, p + 4, v / LIMIT32);
  }

  function Varint(v: nat): (r: Bytes)
    ensures |r| >= 1
  {
    if v < 128 then [v] else [v % 128 + 128] + Varint(v / 128)
  }

  // GetVarint32PtrFallback: at most five bytes, the value and the position after it.
  function ParseVarint(data: Bytes, p: nat, limit: nat, bytes: nat): (r: Option<(nat, nat)>)
    requires limit <= |data|
    ensures r.Some? ==> p < r.value.1 <= limit
    decreases bytes
  {
    if bytes == 0 || p >= limit then None
    else if data[p] < 128 then Some((data[p] as int, p + 1))
    else
      var rest := ParseVarint(data, p + 1, limit, bytes - 1);
      if rest.None? then None else Some((data[p] - 128 + 128 * rest.value.0, rest.value.1))
  }

  function GetVarint32(data: Bytes, p: nat, limit: nat): (r: Option<(nat, nat)>)
    requires limit <= |data|
    ensures r.Some? ==> p < r.value.1 <= limit && r.value.0 < LIMIT32
  {
    var r := ParseVarint(data, p, limit, 5);
    if r.None? then None else Some((r.value.0 % LIMIT32, r.value.1))
  }

  function Power128(n: nat): (r: nat)
    ensures r >= 1
  {
    if n == 0 then 1 else 128 * Power128(n - 1)
  }

  lemma {:induction false} VarintParses(data: Bytes, p: nat, limit: nat, bytes: nat, v: nat)
    requires Holds(data, p, Varint(v)) && p + |Varint(v)| <= limit <= |data| && bytes > 0 && v < Power128(bytes)
    ensures ParseVarint(data, p, limit, bytes) == Some((v, p + |Varint(v)|))
    decreases bytes
  {
    var s := data[p..p + |Varint(v)|];
    assert s[0] == data[p];
    if v >= 128 {
      HoldsParts(data, p, [v % 128 + 128], Varint(v / 128));
      assert bytes > 1;
      VarintParses(data, p + 1, limit, bytes - 1, v / 128);
    }
  }

  lemma Varint32RoundTrips(data: Bytes, p: nat, limit: nat, v: nat)
    requires v < LIMIT32 && Holds(data, p, Varint(v)) && p + |Varint(v)| <= limit <= |data|
    ensures GetVarint32(data, p, limit) == Some((v, p + |Varint(v)|))
  {
    assert Power128(5) == 128 * 128 * 128 * 128 * 128;
    VarintParses(data, p, limit, 5, v);
  }

  // GetVarint64Ptr: at most ten bytes, of which 64 bits are kept.
  function GetVarint64(data: Bytes, p: nat, limit: nat): (r: Option<(nat, nat)>)
    requires limit <= |data|
    ensures r.Some? ==> p < r.value.1 <= limit && r.value.0 < LIMIT64
  {
    var r := ParseVarint(data, p, limit, 10);
    if r.None? then None else Some((r.value.0 % LIMIT64, r.value.1))
  }

  lemma Varint64RoundTrips(data: Bytes, p: nat, limit: nat, v: nat)
    requires v < LIMIT64 && Holds(data, p, Varint(v)) && p + |Varint(v)| <= limit <= |data|
    ensures GetVarint64(data, p, limit) == Some((v, p + |Varint(v)|))
  {
    assert Power128(10) >= LIMIT64 by {
      assert Power128(5) == 0x8_0000_0000;
      assert Power128(10) == 0x8_0000_0000 * Power128(5);
    }
    VarintParses(data, p, limit, 10, v);
  }

  lemma FixedIsFour(k: nat)
    ensures |Fixed32(k)| == 4
  {
  }

  lemma FixedIsEight(v: nat)
    ensures |Fixed64(v)| == 8
  {
  }

  function Power2(n: nat): (r: nat)
    ensures r >= 1
  {
    if n == 0 then 1 else 2 * Power2(n - 1)
  }

  // ----- appending to and consuming a slice ------------------------------------------------

  // Sizes and small numbers are cast to 32 bits.
  function PutVarint32(v: nat): (r: Bytes)
    ensures |r| >= 1
  {
    Varint(v % LIMIT32)
  }

  function PutVarint64(v: nat): (r: Bytes)
    ensures |r| >= 1
  {
    Varint(v % LIMIT64)
  }

  function Prefixed(s: Bytes): (r: Bytes)
    ensures |r| >= 1
  {
    PutVarint32(|s|) + s
  }

  function GetSlice(data: Bytes, p: nat): (r: Option<(Bytes, nat)>)
    ensures r.Some? ==> p < r.value.1 <= |data| && |r.value.0| < LIMIT32
  {
    var n := GetVarint32(data, p, |data|);
    if n.None? || n.value.1 + n.value.0 > |data| then None
    else Some((data[n.value.1..n.value.1 + n.value.0], n.value.1 + n.value.0))
  }

  lemma Varint32Is(data: Bytes, p: nat, v: nat)
    requires v < LIMIT32 && Holds(data, p, PutVarint32(v))
    ensures GetVarint32(data, p, |data|) == Some((v, p + |PutVarint32(v)|))
  {
    hide Varint, GetVarint32;
    assert v % LIMIT32 == v;
    Varint32RoundTrips(data, p, |data|, v);
  }

  lemma Varint64Is(data: Bytes, p: nat, v: nat)
    requires v < LIMIT64 && Holds(data, p, PutVarint64(v))
    ensures GetVarint64(data, p, |data|) == Some((v, p + |PutVarint64(v)|))
  {
    hide Varint, GetVarint64;
    assert v % LIMIT64 == v;
    Varint64RoundTrips(data, p, |data|, v);
  }

  lemma SliceIs(data: Bytes, p: nat, s: Bytes)
    requires |s| < LIMIT32 && Holds(data, p, Prefixed(s))
    ensures GetSlice(data, p) == Some((s, p + |Prefixed(s)|))
  {
    hide PutVarint32, GetVarint32;
    HoldsParts(data, p, PutVarint32(|s|), s);
    Varint32Is(data, p, |s|);
  }
}
