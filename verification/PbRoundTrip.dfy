/** Decoding gives back what was encoded. */
module PbRoundTrip {
  import opened Basics
  import Coding
  import opened PbFormat
  import opened PbDecode

  // ----- numbers ---------------------------------------------------------------------------

  lemma Powers()
    ensures Coding.Power2(7) == 128 && Coding.Power2(14) == 16384 && Coding.Power2(21) == 2097152
    ensures Coding.Power2(28) == 268435456
  {
    assert Coding.Power2(7) == 128;
    assert Coding.Power2(14) == 128 * Coding.Power2(7);
    assert Coding.Power2(21) == 128 * Coding.Power2(14);
    assert Coding.Power2(28) == 128 * Coding.Power2(21);
  }

  lemma FirstOfVarint(data: Bytes, p: nat, v: nat)
    requires Holds(data, p, Coding.Varint(v))
    ensures p < |data| && |Coding.Varint(v)| >= 1
    ensures v < 128 ==> data[p] == v && |Coding.Varint(v)| == 1
    ensures v >= 128 ==> data[p] == v % 128 + 128 && Holds(data, p + 1, Coding.Varint(v / 128))
    ensures v >= 128 ==> |Coding.Varint(v)| == 1 + |Coding.Varint(v / 128)|
  {
    var s := data[p..p + |Coding.Varint(v)|];
    assert s[0] == data[p];
    if v >= 128 { HoldsParts(data, p, [v % 128 + 128], Coding.Varint(v / 128)); }
  }

  // Bits at different places just add up.
  lemma {:induction false} OrIsSum(a: nat, b: nat, n: nat)
    requires a < Coding.Power2(n)
    ensures Or(a, ShiftLeft(b, n)) == a + ShiftLeft(b, n)
  {
    if n > 0 {
      var unit := Coding.Power2(n - 1);
      assert Coding.Power2(n) == 2 * unit;
      Twice(b, unit);
      assert ShiftLeft(b, n) == 2 * ShiftLeft(b, n - 1);
      hide Coding.Power2, ShiftLeft;
      OrIsSum(a / 2, b, n - 1);
    }
  }

  lemma Twice(b: nat, unit: nat)
    ensures b * (2 * unit) == 2 * (b * unit)
  {
  }

  lemma SmallStays(n: nat)
    requires n < Coding.LIMIT32
    ensures Low32(n) == n
  {
  }

  lemma RestUnfolds(data: Bytes, p: nat, limit: nat, bitpos: nat, result: nat)
    requires p < limit <= |data| && bitpos < 32 && result < Coding.LIMIT32
    ensures var next := Low32(Or(result, ShiftLeft(data[p] % 128, bitpos)));
      Varint32Rest(data, p, limit, bitpos, result) ==
        if data[p] >= 128 then Varint32Rest(data, p + 1, limit, NextBit(bitpos), next)
        else if NextBit(bitpos) == 35 && HasHighBits(data[p]) then None
        else Some(Parsed(next, p + 1))
  {
    hide Or, ShiftLeft, HasHighBits, NextBit, Low32;
  }

  // One turn of the loop, on the byte at p.
  lemma RestStep(data: Bytes, p: nat, limit: nat, bitpos: nat, result: nat, added: nat)
    requires result < Coding.Power2(bitpos)
    requires p < limit <= |data| && bitpos < 32 && result < Coding.LIMIT32 && result + added < Coding.LIMIT32
    requires added == ShiftLeft(data[p] % 128, bitpos)
    ensures Varint32Rest(data, p, limit, bitpos, result) ==
      if data[p] >= 128 then Varint32Rest(data, p + 1, limit, bitpos + 7, result + added)
      else if bitpos == 28 && HasHighBits(data[p]) then None
      else Some(Parsed(result + added, p + 1))
  {
    OrIsSum(result, data[p] % 128, bitpos);
    assert NextBit(bitpos) == bitpos + 7;
    SmallStays(result + added);
    hide *;
    RestUnfolds(data, p, limit, bitpos, result);
  }

  lemma PowerStep(n: nat)
    ensures Coding.Power2(n + 7) == 128 * Coding.Power2(n)
  {
    assert Coding.Power2(n + 7) == 2 * Coding.Power2(n + 6);
    assert Coding.Power2(n + 6) == 2 * Coding.Power2(n + 5);
    assert Coding.Power2(n + 5) == 2 * Coding.Power2(n + 4);
    assert Coding.Power2(n + 4) == 2 * Coding.Power2(n + 3);
    assert Coding.Power2(n + 3) == 2 * Coding.Power2(n + 2);
    assert Coding.Power2(n + 2) == 2 * Coding.Power2(n + 1);
  }

  lemma TurnNumbers(unit: nat, result: nat, v: nat)
    requires unit == 128 || unit == 16384 || unit == 2097152 || unit == 268435456
    requires result < unit && result + v * unit < Coding.LIMIT32
    ensures v / 128 * (128 * unit) + v % 128 * unit == v * unit
    ensures result + v % 128 * unit < 128 * unit && result + v % 128 * unit < Coding.LIMIT32
    ensures unit == 268435456 ==> v < 16
  {
    if unit == 128 {
      Turn7(result, v);
    } else if unit == 16384 {
      Turn14(result, v);
    } else if unit == 2097152 {
      Turn21(result, v);
    } else {
      Turn28(result, v);
    }
  }

  lemma Turn7(result: nat, v: nat)
    requires result < 128 && result + v * 128 < Coding.LIMIT32
    ensures v / 128 * (128 * 128) + v % 128 * 128 == v * 128
    ensures result + v % 128 * 128 < 128 * 128 && result + v % 128 * 128 < Coding.LIMIT32
  {
    var q, r := v / 128, v % 128;
    assert v == q * 128 + r;
  }

  lemma Turn14(result: nat, v: nat)
    requires result < 16384 && result + v * 16384 < Coding.LIMIT32
    ensures v / 128 * (128 * 16384) + v % 128 * 16384 == v * 16384
    ensures result + v % 128 * 16384 < 128 * 16384 && result + v % 128 * 16384 < Coding.LIMIT32
  {
    var q, r := v / 128, v % 128;
    assert v == q * 128 + r;
  }

  lemma Turn21(result: nat, v: nat)
    requires result < 2097152 && result + v * 2097152 < Coding.LIMIT32
    ensures v / 128 * (128 * 2097152) + v % 128 * 2097152 == v * 2097152
    ensures result + v % 128 * 2097152 < 128 * 2097152 && result + v % 128 * 2097152 < Coding.LIMIT32
  {
    var q, r := v / 128, v % 128;
    assert v == q * 128 + r;
  }

  lemma Turn28(result: nat, v: nat)
    requires result < 268435456 && result + v * 268435456 < Coding.LIMIT32
    ensures v / 128 * (128 * 268435456) + v % 128 * 268435456 == v * 268435456
    ensures result + v % 128 * 268435456 < 128 * 268435456 && result + v % 128 * 268435456 < Coding.LIMIT32
    ensures v < 16
  {
    var q, r := v / 128, v % 128;
    assert v == q * 128 + r;
  }

  lemma {:induction false} Varint32RestReads(data: Bytes, p: nat, limit: nat, bitpos: nat, result: nat, v: nat)
    requires bitpos == 7 || bitpos == 14 || bitpos == 21 || bitpos == 28
    requires result < Coding.Power2(bitpos) && result + v * Coding.Power2(bitpos) < Coding.LIMIT32
    requires Holds(data, p, Coding.Varint(v)) && p + |Coding.Varint(v)| <= limit <= |data|
    ensures result < Coding.LIMIT32
    ensures Varint32Rest(data, p, limit, bitpos, result) ==
      Some(Parsed(result + v * Coding.Power2(bitpos), p + |Coding.Varint(v)|))
    decreases 28 - bitpos
  {
    Powers();
    PowerStep(bitpos);
    hide Coding.Varint, Coding.Power2, Varint32Rest;
    FirstOfVarint(data, p, v);
    TurnNumbers(Coding.Power2(bitpos), result, v);
    RestStep(data, p, limit, bitpos, result, data[p] % 128 * Coding.Power2(bitpos));
    if v >= 128 {
      Varint32RestReads(data, p + 1, limit, bitpos + 7, result + v % 128 * Coding.Power2(bitpos), v / 128);
    }
  }

  lemma Varint32Reads(data: Bytes, p: nat, limit: nat, v: nat)
    requires v < Coding.LIMIT32 && Holds(data, p, Coding.Varint(v)) && p + |Coding.Varint(v)| <= limit <= |data|
    ensures DecodeVarint32(data, p, limit) == Some(Parsed(v, p + |Coding.Varint(v)|))
  {
    Powers();
    hide Coding.Varint, Coding.Power2, Varint32Rest;
    FirstOfVarint(data, p, v);
    if v >= 128 { Varint32RestReads(data, p + 1, limit, 7, v % 128, v / 128); }
  }

  lemma VarintReads(data: Bytes, p: nat, limit: nat, v: nat)
    requires v < Coding.LIMIT64 && Holds(data, p, Coding.Varint(v)) && p + |Coding.Varint(v)| <= limit <= |data|
    ensures DecodeVarint(data, p, limit) == Some(Parsed(v, p + |Coding.Varint(v)|))
  {
    assert Coding.Power128(10) >= Coding.LIMIT64 by {
      assert Coding.Power128(5) == 34359738368;
      assert Coding.Power128(10) == 128 * (128 * (128 * (128 * (128 * Coding.Power128(5)))));
    }
    Coding.VarintParses(data, p, limit, 10, v);
  }

  // Casting to 64 bits and back to a smaller size keeps a number that fits.
  lemma SignedKeeps(n: int, size: nat)
    requires IsSize(size) && -(Range(size) / 2) <= n < Range(size) / 2
    ensures Signed(n % Coding.LIMIT64, Range(size)) == n
  {
    var m := n % Coding.LIMIT64;
    assert m == if n < 0 then n + Coding.LIMIT64 else n;
    if size == 1 {
      assert Coding.LIMIT64 == 0x100 * 0x100_0000_0000_0000;
    } else if size == 2 {
      assert Coding.LIMIT64 == 0x1_0000 * 0x1_0000_0000_0000;
    } else if size == 4 {
      assert Coding.LIMIT64 == Coding.LIMIT32 * Coding.LIMIT32;
    }
  }

  lemma VarintKeeps(size: nat, n: int)
    requires ScalarFits(Varint(size), n)
    ensures Sized(Varint(size), n % Coding.LIMIT64) == Some(n)
  {
    hide Signed;
    SignedKeeps(n, size);
    SignedKeeps(n, if size == 8 then 8 else 4);
  }

  lemma ZigZagKeeps(n: int)
    ensures UnZigZag(ZigZag(n)) == n
  {
  }

  lemma SVarintKeeps(size: nat, n: int)
    requires ScalarFits(SVarint(size), n)
    ensures ZigZag(n) < Coding.LIMIT64 && Sized(SVarint(size), ZigZag(n)) == Some(n)
  {
    hide Signed, UnZigZag;
    ZigZagKeeps(n);
    SignedKeeps(n, size);
  }

  lemma UVarintKeeps(size: nat, n: int)
    requires ScalarFits(UVarint(size), n)
    ensures Sized(UVarint(size), n) == Some(n)
  {
  }

  lemma ScalarRoundTrips(k: Kind, n: int, data: Bytes, p: nat, limit: nat)
    requires Packable(k) && GoodKind(k) && ScalarFits(k, n)
    requires Holds(data, p, EncodeScalar(k, n)) && p + |EncodeScalar(k, n)| <= limit <= |data|
    ensures DecodeScalar(k, data, p, limit) == Some(Parsed(n, p + |EncodeScalar(k, n)|))
  {
    if k.Fixed32? || k.Fixed64? {
      FixedRoundTrips(k, n, data, p, limit);
    } else {
      VarintRoundTrips(k, n, data, p, limit);
    }
  }

  lemma FixedRoundTrips(k: Kind, n: int, data: Bytes, p: nat, limit: nat)
    requires (k.Fixed32? || k.Fixed64?) && ScalarFits(k, n)
    requires Holds(data, p, EncodeScalar(k, n)) && p + |EncodeScalar(k, n)| <= limit <= |data|
    ensures DecodeScalar(k, data, p, limit) == Some(Parsed(n, p + |EncodeScalar(k, n)|))
  {
    hide Coding.DecodeFixed32, Coding.Fixed32, Holds;
    if k.Fixed32? {
      Coding.FixedIsFour(n);
      Coding.Fixed32RoundTrips(data, p, n);
    } else {
      var low, high := n % Coding.LIMIT32, n / Coding.LIMIT32;
      Coding.FixedIsFour(low);
      Coding.FixedIsFour(high);
      HoldsParts(data, p, Coding.Fixed32(low), Coding.Fixed32(high));
      Coding.Fixed32RoundTrips(data, p, low);
      Coding.Fixed32RoundTrips(data, p + 4, high);
    }
  }

  lemma VarintRoundTrips(k: Kind, n: int, data: Bytes, p: nat, limit: nat)
    requires (k.Bool? || k.Varint? || k.UVarint? || k.SVarint?) && ScalarFits(k, n)
    requires Holds(data, p, EncodeScalar(k, n)) && p + |EncodeScalar(k, n)| <= limit <= |data|
    ensures DecodeScalar(k, data, p, limit) == Some(Parsed(n, p + |EncodeScalar(k, n)|))
  {
    hide DecodeVarint, DecodeVarint32, Coding.Varint, Sized, Holds, ZigZag;
    match k
    case Bool => Varint32Reads(data, p, limit, n);
    case Varint(_) =>
      VarintReads(data, p, limit, n % Coding.LIMIT64);
      VarintKeeps(k.size, n);
    case UVarint(_) =>
      VarintReads(data, p, limit, n);
      UVarintKeeps(k.size, n);
    case SVarint(_) =>
      SVarintKeeps(k.size, n);
      VarintReads(data, p, limit, ZigZag(n));
  }

  // ----- what decoding makes of an encoded message --------------------------------------

  // Every string that is encoded leaves room for its terminating zero.  The
  // encoder accepts a character array that is full; the decoder does not.
  predicate Terminated(k: Kind, v: Value)
    requires ValueFits(k, v)
    decreases v
  {
    match k
    case CString(c) => |v.bytes| < c
    case Submessage(fields) =>
      assert MessageFits(fields, v);
      forall i :: 0 <= i < |fields| ==> SlotTerminated(fields[i], v.slots[i])
    case _ => true
  }

  predicate SlotTerminated(f: Field, s: Slot)
    requires SlotFits(f, s)
    decreases s
  {
    match f.rule
    case Required => Terminated(f.kind, s.value)
    case Optional => s.has ==> Terminated(f.kind, s.value)
    case Repeated(_) => forall i :: 0 <= i < |s.items| ==> Terminated(f.kind, s.items[i])
  }

  // A message but for the values of absent optional fields, which are the initial ones.
  function Canon(k: Kind, v: Value): (r: Value)
    requires ValueFits(k, v)
    decreases v
  {
    if k.Submessage? then
      assert MessageFits(k.fields, v);
      Message(seq(|k.fields|, i requires 0 <= i < |k.fields| => CanonSlot(k.fields[i], v.slots[i])))
    else v
  }

  function CanonSlot(f: Field, s: Slot): Slot
    requires SlotFits(f, s)
    decreases s
  {
    match f.rule
    case Required => One(Canon(f.kind, s.value))
    case Optional => if s.has then Maybe(true, Canon(f.kind, s.value)) else Default(f)
    case Repeated(_) => Many(CanonItems(f.kind, s, |s.items|))
  }

  function CanonItems(k: Kind, s: Slot, n: nat): (r: seq<Value>)
    requires s.Many? && n <= |s.items| && forall i :: 0 <= i < |s.items| ==> ValueFits(k, s.items[i])
    ensures |r| == n
    decreases s, 0, n
  {
    if n == 0 then [] else CanonItems(k, s, n - 1) + [Canon(k, s.items[n - 1])]
  }

  lemma {:induction false} CanonFits(k: Kind, v: Value)
    requires GoodKind(k) && ValueFits(k, v)
    ensures ValueFits(k, Canon(k, v))
    decreases v
  {
    if k.Submessage? {
      forall i | 0 <= i < |k.fields| ensures SlotFits(k.fields[i], CanonSlot(k.fields[i], v.slots[i])) {
        CanonSlotFits(k.fields[i], v.slots[i]);
      }
    }
  }

  lemma {:induction false} CanonSlotFits(f: Field, s: Slot)
    requires GoodField(f) && SlotFits(f, s)
    ensures SlotFits(f, CanonSlot(f, s))
    decreases s
  {
    match f.rule
    case Required => CanonFits(f.kind, s.value);
    case Optional =>
      if s.has { CanonFits(f.kind, s.value); } else { DefaultFits(f.kind, f.initial); }
    case Repeated(_) => CanonItemsFit(f.kind, s, |s.items|);
  }

  lemma {:induction false} CanonItemsFit(k: Kind, s: Slot, n: nat)
    requires GoodKind(k) && s.Many? && n <= |s.items| && forall i :: 0 <= i < |s.items| ==> ValueFits(k, s.items[i])
    ensures AllFit(k, CanonItems(k, s, n))
    decreases s, 0, n
  {
    if n > 0 {
      CanonItemsFit(k, s, n - 1);
      CanonFits(k, s.items[n - 1]);
    }
  }

  // ----- reading one field --------------------------------------------------------------------

  lemma {:induction false} FindFromIs(fields: seq<Field>, tag: nat, i: nat, j: nat)
    requires i <= j < |fields| && fields[j].tag == tag
    requires forall a, b :: 0 <= a < b < |fields| ==> fields[a].tag != fields[b].tag
    ensures FindFrom(fields, tag, i) == Some(j)
    decreases j - i
  {
    if i < j { FindFromIs(fields, tag, i + 1, j); }
  }

  lemma {:induction false} FindFromIsNot(fields: seq<Field>, tag: nat, i: nat)
    requires i <= |fields| && forall a :: i <= a < |fields| ==> fields[a].tag != tag
    ensures FindFrom(fields, tag, i) == None
    decreases |fields| - i
  {
    if i < |fields| { FindFromIsNot(fields, tag, i + 1); }
  }

  // Wherever the iterator is, it finds the field.
  lemma FindIs(fields: seq<Field>, tag: nat, start: nat, j: nat)
    requires start <= |fields| && j < |fields| && fields[j].tag == tag
    requires forall a, b :: 0 <= a < b < |fields| ==> fields[a].tag != fields[b].tag
    ensures Find(fields, tag, start) == Some(j)
  {
    hide FindFrom;
    FindFromIs(fields, tag, 0, j);
    if start <= j {
      FindFromIs(fields, tag, start, j);
    } else {
      forall a | start <= a < |fields| ensures fields[a].tag != tag { }
      FindFromIsNot(fields, tag, start);
    }
  }

  lemma LengthReads(data: Bytes, p: nat, limit: nat, bytes: Bytes)
    requires |bytes| < Coding.LIMIT32 && Holds(data, p, Prefixed(bytes)) && p + |Prefixed(bytes)| <= limit <= |data|
    ensures var q := p + |Coding.Varint(|bytes|)|;
      && DecodeLength(data, p, limit) == Some((q, p + |Prefixed(bytes)|))
      && Holds(data, q, bytes) && q + |bytes| == p + |Prefixed(bytes)|
  {
    hide Coding.Varint, DecodeVarint32;
    HoldsParts(data, p, Coding.Varint(|bytes|), bytes);
    Varint32Reads(data, p, limit, |bytes|);
  }

  lemma {:induction false} NoZeroNoCut(bytes: Bytes)
    requires 0 !in bytes
    ensures UpToZero(bytes) == bytes
  {
  }

  lemma PrefixedHolds(data: Bytes, p: nat, bytes: Bytes)
    requires Holds(data, p, Prefixed(bytes))
    ensures var q := p + |Coding.Varint(|bytes|)|;
      q + |bytes| <= |data| && data[q..q + |bytes|] == bytes && Holds(data, p, Coding.Varint(|bytes|))
  {
    hide Coding.Varint;
    HoldsParts(data, p, Coding.Varint(|bytes|), bytes);
  }

  lemma RawReads(k: Kind, v: Value, data: Bytes, p: nat, limit: nat)
    requires (k.RawBytes? || k.CString?) && ValueFits(k, v) && EncodeValue(k, v).Some? && |v.bytes| < Coding.LIMIT32
    requires var bytes := EncodeValue(k, v).value; Holds(data, p, bytes) && p + |bytes| <= limit <= |data|
    ensures DecodeRaw(k, data, p, limit) ==
      if Terminated(k, v) then Some(Parsed(v, p + |EncodeValue(k, v).value|)) else None
  {
    hide Coding.Varint, DecodeVarint32, UpToZero, Holds;
    PrefixedHolds(data, p, v.bytes);
    Varint32Reads(data, p, limit, |v.bytes|);
    if k.CString? { NoZeroNoCut(v.bytes); }
  }

  // The required fields among the first n.
  function SeenUpTo(fields: seq<Field>, n: nat): set<nat>
    requires n <= |fields|
  {
    if n == 0 then {}
    else SeenUpTo(fields, n - 1) + if fields[n - 1].rule.Required? then {RequiredBefore(fields, n - 1)} else {}
  }

  lemma {:induction false} AllAreSeen(fields: seq<Field>, n: nat, r: nat)
    requires n <= |fields| && r < RequiredBefore(fields, n)
    ensures r in SeenUpTo(fields, n)
  {
    if r < RequiredBefore(fields, n - 1) { AllAreSeen(fields, n - 1, r); }
  }

  // One turn of the loop of pb_decode_noinit, on a known tag.
  lemma TurnReads(k: Kind, slots: seq<Slot>, data: Bytes, p: nat, limit: nat, at: nat, seen: set<nat>, i: nat,
                  wireType: nat)
    requires k.Submessage? && GoodKind(k) && MessageFits(k.fields, Message(slots)) && limit <= |data|
    requires at <= |k.fields|
    requires i < |k.fields| && wireType < 8
    requires Holds(data, p, Tag(k.fields[i].tag, wireType)) && p + |Tag(k.fields[i].tag, wireType)| <= limit
    ensures |slots| == |k.fields| && SlotFits(k.fields[i], slots[i]) && GoodField(k.fields[i])
    ensures var s := DecodeSlot(k.fields[i], slots[i], wireType, data, p + |Tag(k.fields[i].tag, wireType)|, limit);
      var seen' := if k.fields[i].rule.Required? then seen + {RequiredBefore(k.fields, i)} else seen;
      var all := DecodeFields(k, slots, data, p, limit, at, seen);
      && (s.None? ==> all == None)
      && (s.Some? ==> MessageFits(k.fields, Message(slots[i := s.value.value])))
      && (s.Some? ==> all == DecodeFields(k, slots[i := s.value.value], data, s.value.next, limit, i, seen'))
  {
    hide DecodeVarint32, Coding.Varint, DecodeSlot, Find;
    var f := k.fields[i];
    var tag := f.tag * 8 + wireType;
    Varint32Reads(data, p, limit, tag);
    assert tag / 8 == f.tag && tag % 8 == wireType;
    FindIs(k.fields, f.tag, at, i);
    FirstOfVarint(data, p, tag);
  }

  // The items of a packed array from item j on.
  lemma {:induction false} PackedReads(k: Kind, s: Slot, max: nat, data: Bytes, p: nat, end: nat, j: nat)
    requires Packable(k) && GoodKind(k) && s.Many? && j <= |s.items| <= max && AllFit(k, s.items)
    requires Holds(data, p, EncodePacked(k, s, |s.items|)) && end == p + |EncodePacked(k, s, |s.items|)|
    ensures |EncodePacked(k, s, j)| <= end - p && AllFit(k, CanonItems(k, s, j))
    ensures DecodePacked(k, CanonItems(k, s, j), max, data, p + |EncodePacked(k, s, j)|, end) ==
      Some(CanonItems(k, s, |s.items|))
    decreases |s.items| - j
  {
    hide DecodeScalar, EncodeScalar, DecodePacked, ScalarFits;
    CanonItemsFit(k, s, j);
    if j < |s.items| {
      PackedHolds(k, s, data, p, |s.items|, j);
      var n, q := s.items[j].n, p + |EncodePacked(k, s, j)|;
      ScalarRoundTrips(k, n, data, q, end);
      ScalarIsNotEmpty(k, n);
      PackedStep(k, CanonItems(k, s, j), max, data, q, end, n, q + |EncodeScalar(k, n)|);
      PackedReads(k, s, max, data, p, end, j + 1);
    } else {
      PackedEnd(k, CanonItems(k, s, j), max, data, end);
    }
  }

  lemma PackedStep(k: Kind, items: seq<Value>, max: nat, data: Bytes, p: nat, end: nat, n: int, next: nat)
    requires Packable(k) && GoodKind(k) && p < end <= |data| && AllFit(k, items) && |items| < max
    requires DecodeScalar(k, data, p, end) == Some(Parsed(n, next))
    ensures AllFit(k, items + [Number(n)])
    ensures DecodePacked(k, items, max, data, p, end) == DecodePacked(k, items + [Number(n)], max, data, next, end)
  {
  }

  lemma PackedEnd(k: Kind, items: seq<Value>, max: nat, data: Bytes, end: nat)
    requires Packable(k) && GoodKind(k) && end <= |data| && AllFit(k, items)
    ensures DecodePacked(k, items, max, data, end, end) == Some(items)
  {
  }

  lemma ScalarIsNotEmpty(k: Kind, n: int)
    requires Packable(k) && ScalarFits(k, n)
    ensures |EncodeScalar(k, n)| > 0
  {
  }

  lemma {:induction false} PackedHolds(k: Kind, s: Slot, data: Bytes, p: nat, n: nat, j: nat)
    requires Packable(k) && s.Many? && j < n <= |s.items| && AllFit(k, s.items)
    requires Holds(data, p, EncodePacked(k, s, n))
    ensures Holds(data, p + |EncodePacked(k, s, j)|, EncodeScalar(k, s.items[j].n))
    ensures |EncodePacked(k, s, j + 1)| <= |EncodePacked(k, s, n)|
  {
    hide EncodeScalar;
    HoldsParts(data, p, EncodePacked(k, s, n - 1), EncodeScalar(k, s.items[n - 1].n));
    if j < n - 1 { PackedHolds(k, s, data, p, n - 1, j); }
  }

  // A packed array is read into an empty one.
  lemma PackedSlotReads(f: Field, s: Slot, data: Bytes, p: nat, limit: nat)
    requires GoodField(f) && SlotFits(f, s) && f.rule.Repeated? && Packable(f.kind) && |s.items| <= f.rule.max
    requires var body := Prefixed(EncodePacked(f.kind, s, |s.items|));
      Holds(data, p, body) && p + |body| <= limit <= |data| && |body| < Coding.LIMIT32
    ensures DecodeSlot(f, Many([]), 2, data, p, limit)
      == Some(Parsed(Many(CanonItems(f.kind, s, |s.items|)), p + |Prefixed(EncodePacked(f.kind, s, |s.items|))|))
  {
    hide DecodePacked, EncodePacked, DecodeLength, Coding.Varint;
    var bytes := EncodePacked(f.kind, s, |s.items|);
    LengthReads(data, p, limit, bytes);
    PackedReads(f.kind, s, f.rule.max, data, p + |Coding.Varint(|bytes|)|, p + |Prefixed(bytes)|, 0);
    NothingPacked(f.kind, s);
  }

  lemma NothingPacked(k: Kind, s: Slot)
    requires Packable(k) && s.Many? && AllFit(k, s.items)
    ensures EncodePacked(k, s, 0) == [] && CanonItems(k, s, 0) == []
  {
  }

  // ----- where the parts of a message are --------------------------------------------------

  lemma {:induction false} SlotsHold(fields: seq<Field>, m: Value, data: Bytes, p: nat, n: nat, j: nat)
    requires m.Message? && MessageFits(fields, m) && j < n <= |fields|
    requires EncodeSlots(fields, m, n).Some? && Holds(data, p, EncodeSlots(fields, m, n).value)
    ensures EncodeSlots(fields, m, j).Some? && EncodeSlot(fields[j], m.slots[j]).Some?
    ensures EncodeSlots(fields, m, j + 1).Some?
    ensures var before, slot := EncodeSlots(fields, m, j).value, EncodeSlot(fields[j], m.slots[j]).value;
      && Holds(data, p + |before|, slot)
      && |before| + |slot| == |EncodeSlots(fields, m, j + 1).value| <= |EncodeSlots(fields, m, n).value|
  {
    hide EncodeSlot;
    HoldsParts(data, p, EncodeSlots(fields, m, n - 1).value, EncodeSlot(fields[n - 1], m.slots[n - 1]).value);
    if j < n - 1 { SlotsHold(fields, m, data, p, n - 1, j); }
  }

  lemma {:induction false} ItemsHold(f: Field, s: Slot, data: Bytes, p: nat, n: nat, j: nat)
    requires f.rule.Repeated? && SlotFits(f, s) && j < n <= |s.items|
    requires EncodeItems(f, s, n).Some? && Holds(data, p, EncodeItems(f, s, n).value)
    ensures EncodeItems(f, s, j).Some? && EncodeValue(f.kind, s.items[j]).Some? && EncodeItems(f, s, j + 1).Some?
    ensures var before, tag, item := EncodeItems(f, s, j).value, Tag(f.tag, WireType(f.kind)),
      EncodeValue(f.kind, s.items[j]).value;
      && Holds(data, p + |before|, tag) && Holds(data, p + |before| + |tag|, item)
      && |before| + |tag| + |item| == |EncodeItems(f, s, j + 1).value| <= |EncodeItems(f, s, n).value|
  {
    hide EncodeValue, Tag;
    var tag, item := Tag(f.tag, WireType(f.kind)), EncodeValue(f.kind, s.items[n - 1]).value;
    HoldsParts(data, p, EncodeItems(f, s, n - 1).value, tag + item);
    if j < n - 1 {
      ItemsHold(f, s, data, p, n - 1, j);
    } else {
      HoldsParts(data, p + |EncodeItems(f, s, j).value|, tag, item);
    }
  }

  // ----- reading a message --------------------------------------------------------------------

  // The message as it is when the first n fields have been read.
  function SlotsUpTo(k: Kind, m: Value, n: nat): (r: seq<Slot>)
    requires k.Submessage? && ValueFits(k, m)
    ensures |r| == |k.fields|
  {
    assert MessageFits(k.fields, m);
    seq(|k.fields|, i requires 0 <= i < |k.fields| =>
      if i < n then CanonSlot(k.fields[i], m.slots[i]) else Default(k.fields[i]))
  }

  lemma SlotsUpToFit(k: Kind, m: Value, n: nat)
    requires k.Submessage? && GoodKind(k) && ValueFits(k, m)
    ensures MessageFits(k.fields, Message(SlotsUpTo(k, m, n)))
  {
    assert MessageFits(k.fields, m);
    forall i | 0 <= i < |k.fields| ensures SlotFits(k.fields[i], SlotsUpTo(k, m, n)[i]) {
      CanonSlotFits(k.fields[i], m.slots[i]);
      DefaultFits(k.fields[i].kind, k.fields[i].initial);
    }
  }

  // What a value read makes of a slot.
  function WithValue(f: Field, before: Slot, v: Value): Slot
    requires SlotFits(f, before)
  {
    match f.rule
    case Required => One(v)
    case Optional => Maybe(true, v)
    case Repeated(_) => Many(before.items + [v])
  }

  // A slot that has room for a value.
  predicate HasRoom(f: Field, before: Slot) {
    if f.rule.Repeated? then
      !Packable(f.kind) && before.Many? && AllFit(f.kind, before.items) && |before.items| < f.rule.max
    else before == Default(f)
  }

  ghost predicate HoldsValue(k: Kind, v: Value, data: Bytes, p: nat, limit: nat) {
    && GoodKind(k) && ValueFits(k, v) && EncodeValue(k, v).Some? && limit <= |data|
    && |EncodeValue(k, v).value| < Coding.LIMIT32
    && Holds(data, p, EncodeValue(k, v).value) && p + |EncodeValue(k, v).value| <= limit
  }

  lemma {:induction false} ValueReads(k: Kind, v: Value, initial: Value, data: Bytes, p: nat, limit: nat)
    requires HoldsValue(k, v, data, p, limit) && (!k.Submessage? ==> ValueFits(k, initial))
    ensures ValueFits(k, DefaultValue(k, initial))
    ensures DecodeValue(k, DefaultValue(k, initial), data, p, limit) ==
      if Terminated(k, v) then Some(Parsed(Canon(k, v), p + |EncodeValue(k, v).value|)) else None
    decreases v, (if v.Message? then |v.slots| else 0) + 1, 0, 1
  {
    DefaultFits(k, initial);
    if k.Submessage? {
      MessageValueReads(k, v, initial, data, p, limit);
    } else {
      PlainValueReads(k, v, initial, data, p, limit);
    }
  }

  lemma PlainValueReads(k: Kind, v: Value, initial: Value, data: Bytes, p: nat, limit: nat)
    requires HoldsValue(k, v, data, p, limit) && !k.Submessage? && ValueFits(k, DefaultValue(k, initial))
    ensures DecodeValue(k, DefaultValue(k, initial), data, p, limit) ==
      if Terminated(k, v) then Some(Parsed(Canon(k, v), p + |EncodeValue(k, v).value|)) else None
  {
    if k.RawBytes? || k.CString? {
      RawReads(k, v, data, p, limit);
      RawIsRead(k, v, DefaultValue(k, initial), data, p, limit);
    } else {
      ScalarIsRead(k, v, DefaultValue(k, initial), data, p, limit);
    }
  }

  lemma RawIsRead(k: Kind, v: Value, before: Value, data: Bytes, p: nat, limit: nat)
    requires limit <= |data| && (k.RawBytes? || k.CString?) && GoodKind(k) && ValueFits(k, before) && ValueFits(k, v)
    ensures DecodeValue(k, before, data, p, limit) == DecodeRaw(k, data, p, limit) && Canon(k, v) == v
  {
    hide DecodeRaw;
  }

  lemma ScalarIsRead(k: Kind, v: Value, before: Value, data: Bytes, p: nat, limit: nat)
    requires HoldsValue(k, v, data, p, limit) && Packable(k) && ValueFits(k, before)
    ensures Terminated(k, v) && Canon(k, v) == v
    ensures DecodeValue(k, before, data, p, limit) == Some(Parsed(v, p + |EncodeValue(k, v).value|))
  {
    hide DecodeScalar, EncodeScalar, Holds, ScalarFits, DecodeValue, EncodeValue, Terminated, Canon;
    hide ValueFits, GoodKind;
    ScalarIsEncoded(k, v);
    ScalarRoundTrips(k, v.n, data, p, limit);
    ScalarIsDecoded(k, before, data, p, limit);
  }

  lemma ScalarIsDecoded(k: Kind, before: Value, data: Bytes, p: nat, limit: nat)
    requires limit <= |data| && Packable(k) && GoodKind(k) && ValueFits(k, before)
    ensures var n := DecodeScalar(k, data, p, limit);
      DecodeValue(k, before, data, p, limit) ==
        if n.None? then None else Some(Parsed(Number(n.value.value), n.value.next))
  {
    hide DecodeScalar;
  }

  lemma ScalarIsEncoded(k: Kind, v: Value)
    requires Packable(k) && ValueFits(k, v)
    ensures v.Number? && ScalarFits(k, v.n) && EncodeValue(k, v) == Some(EncodeScalar(k, v.n))
    ensures Terminated(k, v) && Canon(k, v) == v
  {
    hide EncodeScalar, ScalarFits;
  }

  lemma MessageValueReads(k: Kind, v: Value, initial: Value, data: Bytes, p: nat, limit: nat)
    requires HoldsValue(k, v, data, p, limit) && k.Submessage? && ValueFits(k, DefaultValue(k, initial))
    ensures DecodeValue(k, DefaultValue(k, initial), data, p, limit) ==
      if Terminated(k, v) then Some(Parsed(Canon(k, v), p + |EncodeValue(k, v).value|)) else None
    decreases v, (if v.Message? then |v.slots| else 0) + 1, 0, 0
  {
    var q := BodyHolds(k, v, data, p, limit);
    var end := p + |EncodeValue(k, v).value|;
    hide EncodeValue, ReadUpTo, ReadOn, DecodeValue, DecodeLength, Terminated, Canon, EncodeSlots, Holds;
    MayReadUpTo(k, v, data, q, end, 0);
    FieldsRead(k, v, data, q, end, 0, 0);
    MessageReads(k, v, initial, data, p, limit, q);
  }

  lemma BodyHolds(k: Kind, v: Value, data: Bytes, p: nat, limit: nat) returns (q: nat)
    requires HoldsValue(k, v, data, p, limit) && k.Submessage?
    ensures HoldsMessage(k, v, data, q, p + |EncodeValue(k, v).value|)
    ensures DecodeLength(data, p, limit) == Some((q, p + |EncodeValue(k, v).value|))
  {
    hide DecodeLength, EncodeSlots, Coding.Varint, Holds;
    assert MessageFits(k.fields, v);
    var body := EncodeSlots(k.fields, v, |k.fields|).value;
    LengthReads(data, p, limit, body);
    q := p + |Coding.Varint(|body|)|;
  }

  lemma MessageReads(k: Kind, v: Value, initial: Value, data: Bytes, p: nat, limit: nat, q: nat)
    requires k.Submessage? && HoldsValue(k, v, data, p, limit) && ValueFits(k, DefaultValue(k, initial))
    requires var end := p + |EncodeValue(k, v).value|;
      && DecodeLength(data, p, limit) == Some((q, end))
      && ReadUpTo(k, v, data, q, end, 0)
      && ReadOn(k, v, data, q, end, 0, 0) == if TerminatedFrom(k, v, 0) then Some(SlotsUpTo(k, v, |k.fields|)) else None
    ensures DecodeValue(k, DefaultValue(k, initial), data, p, limit) ==
      if Terminated(k, v) then Some(Parsed(Canon(k, v), p + |EncodeValue(k, v).value|)) else None
  {
    hide DecodeFields, DecodeLength, SlotTerminated, EncodeValue, EncodeSlots, Holds, SlotsUpTo, DefaultValue;
    hide Canon, CanonSlot, Default;
    hide GoodKind, SlotFits, SeenUpTo;
    NothingRead(k, v, initial);
    AllIsCanon(k, v);
  }

  lemma NothingRead(k: Kind, v: Value, initial: Value)
    requires k.Submessage? && ValueFits(k, v) && MessageFits(k.fields, v)
    ensures DefaultValue(k, initial) == Message(SlotsUpTo(k, v, 0))
    ensures EncodeSlots(k.fields, v, 0) == Some([]) && SeenUpTo(k.fields, 0) == {}
  {
    hide CanonSlot, Default;
  }

  lemma AllIsCanon(k: Kind, v: Value)
    requires k.Submessage? && ValueFits(k, v) && MessageFits(k.fields, v)
    ensures Canon(k, v) == Message(SlotsUpTo(k, v, |k.fields|))
  {
    hide CanonSlot, Default;
  }

  lemma ValueSlotReads(f: Field, before: Slot, v: Value, data: Bytes, p: nat, limit: nat)
    requires GoodField(f) && HasRoom(f, before) && SlotFits(f, before) && HoldsValue(f.kind, v, data, p, limit)
    ensures DecodeSlot(f, before, WireType(f.kind), data, p, limit) ==
      if Terminated(f.kind, v) then
        Some(Parsed(WithValue(f, before, Canon(f.kind, v)), p + |EncodeValue(f.kind, v).value|))
      else None
    decreases v, (if v.Message? then |v.slots| else 0) + 2, 0, 0
  {
    hide *;
    HoldsGoodValue(f.kind, v, data, p, limit);
    InitialFits(f);
    ValueReads(f.kind, v, f.initial, data, p, limit);
    SlotIsDecoded(f, before, data, p, limit);
  }

  lemma InitialFits(f: Field)
    requires GoodField(f)
    ensures !f.kind.Submessage? ==> ValueFits(f.kind, f.initial)
  {
  }

  lemma HoldsGoodValue(k: Kind, v: Value, data: Bytes, p: nat, limit: nat)
    requires HoldsValue(k, v, data, p, limit)
    ensures ValueFits(k, v) && EncodeValue(k, v).Some? && limit <= |data|
  {
  }

  // One value into a slot that has room for it.
  lemma SlotIsDecoded(f: Field, before: Slot, data: Bytes, p: nat, limit: nat)
    requires GoodField(f) && HasRoom(f, before) && SlotFits(f, before) && limit <= |data|
    requires ValueFits(f.kind, DefaultValue(f.kind, f.initial))
    ensures var v := DecodeValue(f.kind, DefaultValue(f.kind, f.initial), data, p, limit);
      DecodeSlot(f, before, WireType(f.kind), data, p, limit) ==
        if v.None? then None else Some(Parsed(WithValue(f, before, v.value.value), v.value.next))
  {
    hide DecodeValue, DefaultValue, DecodePacked, DecodeLength;
  }

  // The encoding of a message is at p and ends the stream.
  ghost predicate HoldsMessage(k: Kind, m: Value, data: Bytes, p: nat, limit: nat) {
    && k.Submessage? && GoodKind(k) && ValueFits(k, m) && MessageFits(k.fields, m)
    && EncodeSlots(k.fields, m, |k.fields|).Some?
    && |EncodeSlots(k.fields, m, |k.fields|).value| < Coding.LIMIT32
    && Holds(data, p, EncodeSlots(k.fields, m, |k.fields|).value)
    && limit == p + |EncodeSlots(k.fields, m, |k.fields|).value| <= |data|
  }

  // The first n fields have been read.
  ghost predicate ReadUpTo(k: Kind, m: Value, data: Bytes, p: nat, limit: nat, n: nat) {
    && HoldsMessage(k, m, data, p, limit) && n <= |k.fields|
    && EncodeSlots(k.fields, m, n).Some? && p + |EncodeSlots(k.fields, m, n).value| <= limit
    && MessageFits(k.fields, Message(SlotsUpTo(k, m, n)))
  }

  // What decoding gives from there.
  ghost function ReadOn(k: Kind, m: Value, data: Bytes, p: nat, limit: nat, n: nat, at: nat): Option<seq<Slot>>
    requires ReadUpTo(k, m, data, p, limit, n) && at <= |k.fields|
  {
    DecodeFields(k, SlotsUpTo(k, m, n), data, p + |EncodeSlots(k.fields, m, n).value|, limit, at, SeenUpTo(k.fields, n))
  }

  lemma MayReadUpTo(k: Kind, m: Value, data: Bytes, p: nat, limit: nat, n: nat)
    requires HoldsMessage(k, m, data, p, limit) && n <= |k.fields|
    ensures ReadUpTo(k, m, data, p, limit, n)
  {
    hide EncodeSlots, Holds, EncodeSlot;
    SlotsUpToFit(k, m, n);
    if n < |k.fields| { SlotsHold(k.fields, m, data, p, |k.fields|, n); }
  }

  ghost predicate TerminatedFrom(k: Kind, m: Value, n: nat)
    requires k.Submessage? && ValueFits(k, m) && MessageFits(k.fields, m)
  {
    forall i :: n <= i < |k.fields| ==> SlotTerminated(k.fields[i], m.slots[i])
  }

  // The fields from n on are read if all their strings are terminated.
  lemma {:induction false} FieldsRead(k: Kind, m: Value, data: Bytes, p: nat, limit: nat, n: nat, at: nat)
    requires HoldsMessage(k, m, data, p, limit) && ReadUpTo(k, m, data, p, limit, n) && at <= |k.fields|
    ensures ReadOn(k, m, data, p, limit, n, at) ==
      if TerminatedFrom(k, m, n) then Some(SlotsUpTo(k, m, |k.fields|)) else None
    decreases m, |k.fields| - n, 2, 0
  {
    hide ReadOn, SlotTerminated, SlotsUpTo, EncodeSlots;
    if n == |k.fields| {
      AllRead(k, m, data, p, limit, at);
    } else {
      MayReadUpTo(k, m, data, p, limit, n + 1);
      var at' := SlotReads(k, m, data, p, limit, n, at);
      FieldsRead(k, m, data, p, limit, n + 1, at');
    }
  }

  lemma AllRead(k: Kind, m: Value, data: Bytes, p: nat, limit: nat, at: nat)
    requires k.Submessage? && ReadUpTo(k, m, data, p, limit, |k.fields|) && at <= |k.fields|
    ensures ReadOn(k, m, data, p, limit, |k.fields|, at) == Some(SlotsUpTo(k, m, |k.fields|))
  {
    forall r: nat | r < RequiredBefore(k.fields, |k.fields|) ensures r in SeenUpTo(k.fields, |k.fields|) {
      AllAreSeen(k.fields, |k.fields|, r);
    }
    hide SlotsUpTo, SeenUpTo, RequiredBefore, EncodeSlots;
    assert DecodeTurn(k, SlotsUpTo(k, m, |k.fields|), data, limit, limit, at, SeenUpTo(k.fields, |k.fields|)).End?;
  }

  // Field n is read: what has been read grows by its slot.
  lemma SlotReads(k: Kind, m: Value, data: Bytes, p: nat, limit: nat, n: nat, at: nat) returns (at': nat)
    requires ReadUpTo(k, m, data, p, limit, n) && n < |k.fields| && ReadUpTo(k, m, data, p, limit, n + 1)
    requires at <= |k.fields|
    ensures at' <= |k.fields|
    ensures ReadOn(k, m, data, p, limit, n, at) ==
      if SlotTerminated(k.fields[n], m.slots[n]) then ReadOn(k, m, data, p, limit, n + 1, at') else None
    decreases m, |k.fields| - n, 1, 1
  {
    hide EncodeSlots, SlotsUpTo, DecodeFields, SeenUpTo, EncodeSlot, SlotTerminated, SlotHoldsAt, Holds;
    hide SlotFits, GoodKind, GoodField;
    SlotHolds(k, m, data, p, limit, n);
    at' := FieldReads(k, m, data, p + |EncodeSlots(k.fields, m, n).value|, limit, n, at);
  }

  lemma FieldReads(k: Kind, m: Value, data: Bytes, q: nat, limit: nat, n: nat, at: nat) returns (at': nat)
    requires FieldAt(k, m, n) && at <= |k.fields| && SlotHoldsAt(k.fields[n], m.slots[n], data, q, limit)
    ensures at' <= |k.fields|
    ensures DecodeFields(k, SlotsUpTo(k, m, n), data, q, limit, at, SeenUpTo(k.fields, n)) ==
      if SlotTerminated(k.fields[n], m.slots[n]) then
        DecodeFields(k, SlotsUpTo(k, m, n + 1), data, q + |EncodeSlot(k.fields[n], m.slots[n]).value|,
                     limit, at', SeenUpTo(k.fields, n + 1))
      else None
    decreases m, |k.fields| - n, 1, 0
  {
    hide SlotsUpTo, DecodeFields, SeenUpTo, SlotHoldsAt, EncodeSlot, CanonSlot, SlotTerminated;
    var f, s := k.fields[n], m.slots[n];
    if (f.rule.Optional? && !s.has) || (f.rule.Repeated? && |s.items| == 0) {
      EmptySlot(f, s);
      GrowSlots(k, m, n);
      at' := at;
    } else {
      at' := n;
      if !f.rule.Repeated? {
        SingleReads(k, m, data, q, limit, n, at, s.value);
      } else if Packable(f.kind) {
        PackedFieldReads(k, m, data, q, limit, n, at);
      } else {
        ItemsFieldReads(k, m, data, q, limit, n, at);
      }
    }
  }

  lemma SlotHolds(k: Kind, m: Value, data: Bytes, p: nat, limit: nat, n: nat)
    requires ReadUpTo(k, m, data, p, limit, n) && n < |k.fields| && ReadUpTo(k, m, data, p, limit, n + 1)
    ensures FieldAt(k, m, n)
    ensures SlotHoldsAt(k.fields[n], m.slots[n], data, p + |EncodeSlots(k.fields, m, n).value|, limit)
    ensures |EncodeSlots(k.fields, m, n + 1).value| ==
      |EncodeSlots(k.fields, m, n).value| + |EncodeSlot(k.fields[n], m.slots[n]).value|
  {
    hide EncodeSlots, SlotsUpTo, EncodeSlot, Holds;
    assert SlotFits(k.fields[n], m.slots[n]) && GoodField(k.fields[n]);
    SlotsHold(k.fields, m, data, p, |k.fields|, n);
  }

  ghost predicate SlotHoldsAt(f: Field, s: Slot, data: Bytes, q: nat, limit: nat) {
    && SlotFits(f, s) && EncodeSlot(f, s).Some? && |EncodeSlot(f, s).value| < Coding.LIMIT32
    && Holds(data, q, EncodeSlot(f, s).value) && q + |EncodeSlot(f, s).value| <= limit <= |data|
  }

  ghost predicate FieldAt(k: Kind, m: Value, n: nat) {
    && k.Submessage? && GoodKind(k) && ValueFits(k, m) && MessageFits(k.fields, m) && n < |k.fields|
    && GoodField(k.fields[n]) && SlotFits(k.fields[n], m.slots[n])
    && MessageFits(k.fields, Message(SlotsUpTo(k, m, n))) && MessageFits(k.fields, Message(SlotsUpTo(k, m, n + 1)))
  }

  lemma GrowSlots(k: Kind, m: Value, n: nat)
    requires k.Submessage? && ValueFits(k, m) && MessageFits(k.fields, m) && n < |k.fields|
    ensures SlotsUpTo(k, m, n)[n] == Default(k.fields[n])
    ensures SlotsUpTo(k, m, n)[n := CanonSlot(k.fields[n], m.slots[n])] == SlotsUpTo(k, m, n + 1)
    ensures CanonSlot(k.fields[n], m.slots[n]) == Default(k.fields[n]) ==> SlotsUpTo(k, m, n + 1) == SlotsUpTo(k, m, n)
    ensures SeenUpTo(k.fields, n + 1) ==
      if k.fields[n].rule.Required? then SeenUpTo(k.fields, n) + {RequiredBefore(k.fields, n)}
      else SeenUpTo(k.fields, n)
  {
    hide CanonSlot, Default;
  }

  lemma EmptySlot(f: Field, s: Slot)
    requires SlotFits(f, s) && ((f.rule.Optional? && !s.has) || (f.rule.Repeated? && |s.items| == 0))
    ensures EncodeSlot(f, s) == Some([]) && CanonSlot(f, s) == Default(f) && SlotTerminated(f, s)
  {
  }

  // A required field, or an optional one that is there.
  lemma SingleReads(k: Kind, m: Value, data: Bytes, q: nat, limit: nat, n: nat, at: nat, v: Value)
    requires FieldAt(k, m, n) && at <= |k.fields|
    requires !k.fields[n].rule.Repeated? && m.slots[n].value == v && (k.fields[n].rule.Optional? ==> m.slots[n].has)
    requires SlotHoldsAt(k.fields[n], m.slots[n], data, q, limit)
    ensures DecodeFields(k, SlotsUpTo(k, m, n), data, q, limit, at, SeenUpTo(k.fields, n)) ==
      if SlotTerminated(k.fields[n], m.slots[n]) then
        DecodeFields(k, SlotsUpTo(k, m, n + 1), data, q + |EncodeSlot(k.fields[n], m.slots[n]).value|,
                     limit, n, SeenUpTo(k.fields, n + 1))
      else None
    decreases m, |k.fields| - n, 0, 0
  {
    hide SlotsUpTo, DecodeFields, SeenUpTo, DecodeSlot, EncodeValue, Tag, Holds, Terminated, Canon;
    GrowSlots(k, m, n);
    var f := k.fields[n];
    var tag, bytes := Tag(f.tag, WireType(f.kind)), EncodeValue(f.kind, v).value;
    assert EncodeSlot(f, m.slots[n]).value == tag + bytes;
    HoldsParts(data, q, tag, bytes);
    TurnReads(k, SlotsUpTo(k, m, n), data, q, limit, at, SeenUpTo(k.fields, n), n, WireType(f.kind));
    assert SlotFits(f, SlotsUpTo(k, m, n)[n]);
    ValueSlotReads(f, SlotsUpTo(k, m, n)[n], v, data, q + |tag|, limit);
  }

  lemma PackedFieldReads(k: Kind, m: Value, data: Bytes, q: nat, limit: nat, n: nat, at: nat)
    requires FieldAt(k, m, n) && at <= |k.fields|
    requires k.fields[n].rule.Repeated? && Packable(k.fields[n].kind) && |m.slots[n].items| > 0
    requires SlotHoldsAt(k.fields[n], m.slots[n], data, q, limit)
    ensures SlotTerminated(k.fields[n], m.slots[n])
    ensures DecodeFields(k, SlotsUpTo(k, m, n), data, q, limit, at, SeenUpTo(k.fields, n)) ==
      DecodeFields(k, SlotsUpTo(k, m, n + 1), data, q + |EncodeSlot(k.fields[n], m.slots[n]).value|,
                   limit, n, SeenUpTo(k.fields, n + 1))
  {
    hide SlotsUpTo, DecodeFields, SeenUpTo, DecodeSlot, EncodePacked, Tag, Holds;
    GrowSlots(k, m, n);
    var f, s := k.fields[n], m.slots[n];
    var tag, body := Tag(f.tag, 2), Prefixed(EncodePacked(f.kind, s, |s.items|));
    assert EncodeSlot(f, s).value == tag + body;
    HoldsParts(data, q, tag, body);
    TurnReads(k, SlotsUpTo(k, m, n), data, q, limit, at, SeenUpTo(k.fields, n), n, 2);
    PackedSlotReads(f, s, data, q + |tag|, limit);
  }

  // The first n fields have been read, and j items of the next.
  function WithItems(k: Kind, m: Value, n: nat, j: nat): seq<Slot>
    requires k.Submessage? && ValueFits(k, m) && MessageFits(k.fields, m) && n < |k.fields|
    requires m.slots[n].Many? && j <= |m.slots[n].items| && AllFit(k.fields[n].kind, m.slots[n].items)
  {
    SlotsUpTo(k, m, n)[n := Many(CanonItems(k.fields[n].kind, m.slots[n], j))]
  }

  lemma WithNoItems(k: Kind, m: Value, n: nat)
    requires FieldAt(k, m, n) && k.fields[n].rule.Repeated?
    ensures m.slots[n].Many? && AllFit(k.fields[n].kind, m.slots[n].items)
    ensures WithItems(k, m, n, 0) == SlotsUpTo(k, m, n) && EncodeItems(k.fields[n], m.slots[n], 0) == Some([])
    ensures WithItems(k, m, n, |m.slots[n].items|) == SlotsUpTo(k, m, n + 1)
  {
    GrowSlots(k, m, n);
    assert CanonItems(k.fields[n].kind, m.slots[n], 0) == [];
    hide SlotsUpTo, CanonItems;
  }

  lemma WithItemsFits(k: Kind, m: Value, n: nat, j: nat)
    requires FieldAt(k, m, n) && k.fields[n].rule.Repeated?
    requires j <= |m.slots[n].items| && AllFit(k.fields[n].kind, m.slots[n].items)
    ensures MessageFits(k.fields, Message(WithItems(k, m, n, j)))
  {
    CanonItemsFit(k.fields[n].kind, m.slots[n], j);
    hide SlotsUpTo, CanonItems;
    var slots := WithItems(k, m, n, j);
    forall i | 0 <= i < |k.fields| ensures SlotFits(k.fields[i], slots[i]) { }
  }

  // The items from j on are terminated.
  predicate TerminatedItems(k: Kind, items: seq<Value>, j: nat)
    requires AllFit(k, items)
  {
    forall i :: j <= i < |items| ==> Terminated(k, items[i])
  }

  lemma ItemsEncoded(f: Field, s: Slot)
    requires SlotFits(f, s) && f.rule.Repeated? && !Packable(f.kind) && |s.items| > 0 && EncodeSlot(f, s).Some?
    ensures |s.items| <= f.rule.max && AllFit(f.kind, s.items) && EncodeSlot(f, s) == EncodeItems(f, s, |s.items|)
    ensures SlotTerminated(f, s) <==> TerminatedItems(f.kind, s.items, 0)
  {
    hide EncodeItems, Terminated;
  }

  lemma ItemsBytes(f: Field, s: Slot, data: Bytes, q: nat, limit: nat)
    requires SlotHoldsAt(f, s, data, q, limit) && f.rule.Repeated? && EncodeSlot(f, s) == EncodeItems(f, s, |s.items|)
    ensures EncodeItems(f, s, |s.items|).Some?
    ensures var bytes := EncodeItems(f, s, |s.items|).value;
      |bytes| < Coding.LIMIT32 && Holds(data, q, bytes) && q + |bytes| <= limit <= |data|
  {
    hide EncodeItems, EncodeSlot, Holds, SlotFits;
  }

  lemma NoneRequired(fields: seq<Field>, n: nat)
    requires n < |fields| && fields[n].rule.Repeated?
    ensures SeenUpTo(fields, n + 1) == SeenUpTo(fields, n)
  {
  }

  lemma HasSlots(k: Kind, m: Value, n: nat)
    requires FieldAt(k, m, n)
    ensures k.Submessage? && m.Message? && n < |k.fields| == |m.slots|
  {
  }

  lemma ItemsFieldReads(k: Kind, m: Value, data: Bytes, q: nat, limit: nat, n: nat, at: nat)
    requires FieldAt(k, m, n) && at <= |k.fields|
    requires k.fields[n].rule.Repeated? && !Packable(k.fields[n].kind) && |m.slots[n].items| > 0
    requires SlotHoldsAt(k.fields[n], m.slots[n], data, q, limit)
    ensures DecodeFields(k, SlotsUpTo(k, m, n), data, q, limit, at, SeenUpTo(k.fields, n)) ==
      if SlotTerminated(k.fields[n], m.slots[n]) then
        DecodeFields(k, SlotsUpTo(k, m, n + 1), data, q + |EncodeSlot(k.fields[n], m.slots[n]).value|,
                     limit, n, SeenUpTo(k.fields, n + 1))
      else None
    decreases m, |k.fields| - n, 0, |m.slots[n].items| + 1
  {
    HasSlots(k, m, n);
    hide SlotsUpTo, DecodeFields, SeenUpTo, EncodeItems, CanonItems, CanonSlot, Holds, SlotTerminated, EncodeSlot;
    hide AllFit;
    hide WithItems, Terminated, TerminatedItems, GoodKind, MessageFits, ValueFits, GoodField, SlotFits, RequiredBefore;
    hide Default;
    ItemsEncoded(k.fields[n], m.slots[n]);
    ItemsBytes(k.fields[n], m.slots[n], data, q, limit);
    NoneRequired(k.fields, n);
    WithNoItems(k, m, n);
    WithItemsFits(k, m, n, |m.slots[n].items|);
    var f, slot := k.fields[n], m.slots[n];
    hide *;
    ItemsRead(k, m, data, q, limit, n, at, 0);
    assert EncodeItems(f, slot, 0).value == [];
    assert q + |EncodeItems(f, slot, 0).value| == q;
    assert EncodeSlot(f, slot).value == EncodeItems(f, slot, |slot.items|).value;
  }

  lemma {:induction false} ItemsRead(k: Kind, m: Value, data: Bytes, q: nat, limit: nat, n: nat, at: nat, j: nat)
    requires FieldAt(k, m, n) && at <= |k.fields|
    requires k.fields[n].rule.Repeated? && !Packable(k.fields[n].kind) && AllFit(k.fields[n].kind, m.slots[n].items)
    requires j <= |m.slots[n].items| <= k.fields[n].rule.max && (j > 0 ==> at == n) && |m.slots[n].items| > 0
    requires EncodeItems(k.fields[n], m.slots[n], |m.slots[n].items|).Some?
    requires var bytes := EncodeItems(k.fields[n], m.slots[n], |m.slots[n].items|).value;
      |bytes| < Coding.LIMIT32 && Holds(data, q, bytes) && q + |bytes| <= limit <= |data|
    ensures EncodeItems(k.fields[n], m.slots[n], j).Some? && MessageFits(k.fields, Message(WithItems(k, m, n, j)))
    ensures var f, s := k.fields[n], m.slots[n];
      DecodeFields(k, WithItems(k, m, n, j), data, q + |EncodeItems(f, s, j).value|,
                   limit, at, SeenUpTo(k.fields, n)) ==
        if TerminatedItems(f.kind, s.items, j) then
          (WithItemsFits(k, m, n, |s.items|);
          DecodeFields(k, WithItems(k, m, n, |s.items|), data, q + |EncodeItems(f, s, |s.items|).value|,
                       limit, n, SeenUpTo(k.fields, n)))
        else None
    decreases m, |k.fields| - n, 0, |m.slots[n].items| - j
  {
    hide SlotsUpTo, DecodeFields, SeenUpTo, DecodeSlot, EncodeValue, Tag, Holds, Terminated, Canon, EncodeItems;
    WithItemsFits(k, m, n, j);
    var f, s := k.fields[n], m.slots[n];
    if j < |s.items| {
      ItemsHold(f, s, data, q, |s.items|, j);
      WithItemsFits(k, m, n, j + 1);
      ItemReads(k, m, data, q + |EncodeItems(f, s, j).value|, limit, n, at, j);
      ItemsRead(k, m, data, q, limit, n, n, j + 1);
    }
  }

  lemma ItemReads(k: Kind, m: Value, data: Bytes, q: nat, limit: nat, n: nat, at: nat, j: nat)
    requires FieldAt(k, m, n) && at <= |k.fields|
    requires k.fields[n].rule.Repeated? && !Packable(k.fields[n].kind) && AllFit(k.fields[n].kind, m.slots[n].items)
    requires j < |m.slots[n].items| <= k.fields[n].rule.max
    requires MessageFits(k.fields, Message(WithItems(k, m, n, j)))
    requires MessageFits(k.fields, Message(WithItems(k, m, n, j + 1)))
    requires var f, v := k.fields[n], m.slots[n].items[j];
      && Holds(data, q, Tag(f.tag, WireType(f.kind)))
      && HoldsValue(f.kind, v, data, q + |Tag(f.tag, WireType(f.kind))|, limit)
    ensures var f, v := k.fields[n], m.slots[n].items[j];
      var next := q + |Tag(f.tag, WireType(f.kind))| + |EncodeValue(f.kind, v).value|;
      DecodeFields(k, WithItems(k, m, n, j), data, q, limit, at, SeenUpTo(k.fields, n)) ==
        if Terminated(f.kind, v) then
          DecodeFields(k, WithItems(k, m, n, j + 1), data, next, limit, n, SeenUpTo(k.fields, n))
        else None
    decreases m, |k.fields| - n, 0, 0
  {
    hide SlotsUpTo, DecodeFields, SeenUpTo, DecodeSlot, EncodeValue, Tag, Holds, Terminated, Canon;
    var f, s := k.fields[n], m.slots[n];
    var slots := WithItems(k, m, n, j);
    TurnReads(k, slots, data, q, limit, at, SeenUpTo(k.fields, n), n, WireType(f.kind));
    ValueSlotReads(f, slots[n], s.items[j], data, q + |Tag(f.tag, WireType(f.kind))|, limit);
    assert slots[n := Many(CanonItems(f.kind, s, j + 1))] == WithItems(k, m, n, j + 1);
  }

  // Decoding the encoding of a message gives it back, but for the values of
  // absent optional fields, if and only if every encoded string is terminated.
  lemma MessageRoundTrips(fields: seq<Field>, m: Value, data: Bytes)
    requires GoodKind(Submessage(fields)) && ValueFits(Submessage(fields), m) && MessageFits(fields, m)
    requires Encode(fields, m) == Some(data) && |data| < Coding.LIMIT32
    ensures Decode(fields, data) ==
      if Terminated(Submessage(fields), m) then Some(Canon(Submessage(fields), m)) else None
  {
    var k := Submessage(fields);
    hide EncodeSlots, DecodeFields, SlotsUpTo, Canon, SlotTerminated;
    WholeHolds(data);
    MayReadUpTo(k, m, data, 0, |data|, 0);
    FieldsRead(k, m, data, 0, |data|, 0, 0);
    NothingRead(k, m, m);
    AllIsCanon(k, m);
  }

  // "hi" in an array of two characters: it is encoded, and cannot be decoded.
  lemma FullStringFails()
    ensures var fields := [Field(1, CString(2), Required, Raw([]))];
      var m := Message([One(Raw([104, 105]))]);
      && GoodKind(Submessage(fields)) && ValueFits(Submessage(fields), m) && MessageFits(fields, m)
      && Encode(fields, m) == Some([10, 2, 104, 105])
      && Decode(fields, [10, 2, 104, 105]) == None
  {
    var f, slot := Field(1, CString(2), Required, Raw([])), One(Raw([104, 105]));
    var fields, m := [f], Message([slot]);
    assert SlotFits(f, slot) && GoodField(f);
    assert m.slots[0] == slot && fields[0] == f;
    assert MessageFits(fields, m);
    assert Coding.Varint(10) == [10] && Coding.Varint(2) == [2];
    assert [2] + [104, 105] == [2, 104, 105];
    assert EncodeSlot(f, slot) == Some([10] + [2, 104, 105]);
    assert EncodeSlots(fields, m, 0) == Some([]);
    assert Encode(fields, m) == Some([] + ([10] + [2, 104, 105]));
    assert [] + ([10] + [2, 104, 105]) == [10, 2, 104, 105];
    assert !SlotTerminated(f, slot);
    MessageRoundTrips(fields, m, [10, 2, 104, 105]);
  }
}
