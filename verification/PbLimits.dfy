/**
 What the decoder refuses (pb_decode.c): numbers too large for their field, arrays
 that are too long, and numbers with too many bytes; and how it reads negative
 numbers and ends of messages.
 */
module PbLimits {
  import opened Basics
  import Coding
  import opened PbFormat
  import opened PbDecode
  import opened PbRoundTrip
  import opened PbUnknown

  // ----- numbers of a size --------------------------------------------------------------------

  lemma CastKeepsIff(n: int, size: nat)
    requires IsSize(size) && -0x8000_0000_0000_0000 <= n < 0x8000_0000_0000_0000
    ensures Signed(n % Coding.LIMIT64, Range(size)) == n <==> -(Range(size) / 2) <= n < Range(size) / 2
  {
    if -(Range(size) / 2) <= n < Range(size) / 2 { SignedKeeps(n, size); }
  }

  // A 64-bit number is taken for a field of a size if and only if it fits: as it
  // is, as zigzag, or by its low 32 bits if it may be negative and is shorter.
  lemma UnsignedIsTakenIffItFits(size: nat, n: nat)
    requires IsSize(size) && n < Coding.LIMIT64
    ensures Sized(UVarint(size), n) == if n < Range(size) then Some(n) else None
  {
  }

  lemma ZigZagIsTakenIffItFits(size: nat, n: nat)
    requires IsSize(size) && n < Coding.LIMIT64
    ensures var value := if n % 2 == 0 then n / 2 else -((n + 1) / 2);
      Sized(SVarint(size), n) == if -(Range(size) / 2) <= value < Range(size) / 2 then Some(value) else None
  {
    hide Signed, Range;
    CastKeepsIff(UnZigZag(n), size);
  }

  lemma SignedIsTakenIffItFits(size: nat, n: nat)
    requires IsSize(size) && n < Coding.LIMIT64
    ensures var low := n % Coding.LIMIT32;
      var value :=
        if size == 8 then if n < 0x8000_0000_0000_0000 then n else n - Coding.LIMIT64
        else if low < 0x8000_0000 then low else low - Coding.LIMIT32;
      Sized(Varint(size), n) == if -(Range(size) / 2) <= value < Range(size) / 2 then Some(value) else None
  {
    var sv := Signed(n, if size == 8 then Coding.LIMIT64 else Coding.LIMIT32);
    CastKeepsIff(sv, size);
    hide Signed, Range;
  }

  // ----- 32-bit numbers --------------------------------------------------------------------------

  // Past 32 bits only the sign may go on, so what is left of a number that is not
  // negative is refused.
  lemma {:induction false} TooLargeRestFails(data: Bytes, p: nat, limit: nat, bitpos: nat, result: nat, v: nat)
    requires bitpos == 35 || bitpos == 42 || bitpos == 49 || bitpos == 56 || bitpos == 63
    requires result < 0x8000_0000 && v > 0
    requires Holds(data, p, Coding.Varint(v)) && p + |Coding.Varint(v)| <= limit <= |data| && limit <= |data|
    requires bitpos == 63 ==> v < 128
    requires bitpos == 56 ==> v < 128 * 128
    requires bitpos == 49 ==> v < 128 * 128 * 128
    requires bitpos == 42 ==> v < 128 * 128 * 128 * 128
    requires bitpos == 35 ==> v < 128 * 128 * 128 * 128 * 128
    ensures Varint32Rest(data, p, limit, bitpos, result) == None
    decreases 63 - bitpos
  {
    hide Coding.Varint, Or, ShiftLeft, HasHighBits, Low32;
    FirstOfVarint(data, p, v);
    if v >= 128 && v % 128 == 0 {
      TooLargeRestFails(data, p + 1, limit, bitpos + 7, result, v / 128);
    }
  }

  // The first four bytes give the low 28 bits.
  lemma {:induction false} RestReaches28(data: Bytes, p: nat, limit: nat, bitpos: nat, result: nat, v: nat)
    requires bitpos == 7 || bitpos == 14 || bitpos == 21 || bitpos == 28
    requires result < Coding.Power2(bitpos) && v >= 1 && result + v * Coding.Power2(bitpos) >= 0x1000_0000
    requires Holds(data, p, Coding.Varint(v)) && p + |Coding.Varint(v)| <= limit <= |data|
    ensures var all := result + v * Coding.Power2(bitpos);
      var q := p + (28 - bitpos) / 7;
      && Holds(data, q, Coding.Varint(all / 0x1000_0000))
      && q + |Coding.Varint(all / 0x1000_0000)| == p + |Coding.Varint(v)|
      && result < Coding.LIMIT32
      && Varint32Rest(data, p, limit, bitpos, result) == Varint32Rest(data, q, limit, 28, all % 0x1000_0000)
    decreases 28 - bitpos
  {
    Powers();
    PowerStep(bitpos);
    hide Coding.Varint, Coding.Power2, Varint32Rest, Holds;
    var unit := Coding.Power2(bitpos);
    if bitpos == 28 {
      TopIs(result, v);
    } else {
      EnoughIsLeft(result, v, unit);
      FirstOfVarint(data, p, v);
      LowPart(result, v, unit);
      RestStep(data, p, limit, bitpos, result, v % 128 * unit);
      RestReaches28(data, p + 1, limit, bitpos + 7, result + v % 128 * unit, v / 128);
    }
  }

  lemma TopIs(result: nat, v: nat)
    requires result < 0x1000_0000
    ensures (result + v * 0x1000_0000) / 0x1000_0000 == v && (result + v * 0x1000_0000) % 0x1000_0000 == result
  {
  }

  lemma EnoughIsLeft(result: nat, v: nat, unit: nat)
    requires unit == 128 || unit == 16384 || unit == 2097152
    requires result < unit && result + v * unit >= 0x1000_0000
    ensures v >= 128
  {
  }

  lemma LowPart(result: nat, v: nat, unit: nat)
    requires unit == 128 || unit == 16384 || unit == 2097152
    requires result < unit
    ensures result + v % 128 * unit < 128 * unit && result + v % 128 * unit < Coding.LIMIT32
    ensures result + v % 128 * unit + v / 128 * (128 * unit) == result + v * unit
  {
    var q, r := v / 128, v % 128;
    assert v == q * 128 + r;
  }

  lemma Reaches28(data: Bytes, p: nat, limit: nat, v: nat)
    requires v >= 0x1000_0000 && Holds(data, p, Coding.Varint(v)) && p + |Coding.Varint(v)| <= limit <= |data|
    ensures var q := p + 4;
      && Holds(data, q, Coding.Varint(v / 0x1000_0000))
      && q + |Coding.Varint(v / 0x1000_0000)| == p + |Coding.Varint(v)|
      && DecodeVarint32(data, p, limit) == Varint32Rest(data, q, limit, 28, v % 0x1000_0000)
  {
    Powers();
    hide Coding.Varint, Coding.Power2, Varint32Rest, Holds;
    FirstOfVarint(data, p, v);
    assert v % 128 + v / 128 * 128 == v;
    RestReaches28(data, p + 1, limit, 7, v % 128, v / 128);
  }

  // The fifth byte: four of its bits are kept.
  lemma FifthByte(data: Bytes, p: nat, limit: nat, v: nat)
    requires v >= Coding.LIMIT32 && Holds(data, p, Coding.Varint(v)) && p + |Coding.Varint(v)| <= limit <= |data|
    ensures v / 0x1000_0000 < 128 ==> DecodeVarint32(data, p, limit) == None
    ensures v / 0x1000_0000 >= 128 ==>
      var q := p + 5;
      var rest := Coding.Varint(v / 0x1000_0000 / 128);
      && Holds(data, q, rest) && q + |rest| == p + |Coding.Varint(v)|
      && DecodeVarint32(data, p, limit) == Varint32Rest(data, q, limit, 35, v % Coding.LIMIT32)
  {
    Reaches28(data, p, limit, v);
    LowBitsKept(v);
    var w := v / 0x1000_0000;
    FirstByteIs(data, p + 4, w);
    hide *;
    FifthStep(data, p, limit, v % 0x1000_0000, w, w % 128, v % Coding.LIMIT32);
  }

  lemma FifthStep(data: Bytes, p: nat, limit: nat, low: nat, w: nat, b: nat, kept: nat)
    requires low < 0x1000_0000 && p + 4 < limit <= |data| && kept < Coding.LIMIT32
    requires DecodeVarint32(data, p, limit) == Varint32Rest(data, p + 4, limit, 28, low)
    requires kept == Low32(low + b * 0x1000_0000) && b == data[p + 4] % 128
    requires (data[p + 4] >= 128 <==> w >= 128) && (w < 128 ==> HasHighBits(data[p + 4]))
    ensures DecodeVarint32(data, p, limit) == if w < 128 then None else Varint32Rest(data, p + 5, limit, 35, kept)
  {
    hide Varint32Rest, DecodeVarint32, HasHighBits, Low32;
    FifthTurn(data, p + 4, limit, low, b);
  }

  lemma FirstByteIs(data: Bytes, q: nat, w: nat)
    requires w >= 16 && Holds(data, q, Coding.Varint(w))
    ensures q < |data| && data[q] % 128 == w % 128 && (data[q] >= 128 <==> w >= 128) && |Coding.Varint(w)| >= 1
    ensures w < 128 ==> HasHighBits(data[q])
    ensures w >= 128 ==>
      Holds(data, q + 1, Coding.Varint(w / 128)) && |Coding.Varint(w)| == 1 + |Coding.Varint(w / 128)|
  {
    hide Coding.Varint, Holds;
    FirstOfVarint(data, q, w);
  }

  lemma FifthTurn(data: Bytes, q: nat, limit: nat, low: nat, b: nat)
    requires low < 0x1000_0000 && q < limit <= |data| && b == data[q] % 128
    ensures low < Coding.LIMIT32
    ensures var next := Low32(low + b * 0x1000_0000);
      Varint32Rest(data, q, limit, 28, low) ==
        if data[q] >= 128 then Varint32Rest(data, q + 1, limit, 35, next)
        else if HasHighBits(data[q]) then None
        else Some(Parsed(next, q + 1))
  {
    Powers();
    FifthShift(b);
    assert NextBit(28) == 35;
    hide Varint32Rest, Or, ShiftLeft, HasHighBits, Low32, NextBit, Coding.Power2;
    RestUnfolds(data, q, limit, 28, low);
    OrIsSum(low, b, 28);
  }

  lemma FifthShift(b: nat)
    ensures ShiftLeft(b, 28) == b * 0x1000_0000
  {
    Powers();
  }

  lemma LowBitsKept(v: nat)
    ensures Low32(v % 0x1000_0000 + v / 0x1000_0000 % 128 * 0x1000_0000) == v % Coding.LIMIT32
  {
    var w := v / 0x1000_0000;
    assert v == v % 0x1000_0000 + w * 0x1000_0000;
    var q := w / 128;
    assert w == w % 128 + q * 128;
    assert v == v % 0x1000_0000 + w % 128 * 0x1000_0000 + q * 8 * Coding.LIMIT32;
    ModuloPlus(v % 0x1000_0000 + w % 128 * 0x1000_0000, q * 8, Coding.LIMIT32);
  }

  lemma ModuloPlus(a: nat, k: nat, m: nat)
    requires m == Coding.LIMIT32
    ensures (a + k * m) % m == a % m
  {
  }

  // A number of more than 32 bits is refused, for a tag, a length or a bool, unless
  // its low 32 bits are those of a negative number.
  lemma TooLargeIsRefused(data: Bytes, p: nat, limit: nat, v: nat)
    requires Coding.LIMIT32 <= v < Coding.LIMIT64 && v % Coding.LIMIT32 < 0x8000_0000
    requires Holds(data, p, Coding.Varint(v)) && p + |Coding.Varint(v)| <= limit <= |data|
    ensures DecodeVarint32(data, p, limit) == None
  {
    hide Coding.Varint, Varint32Rest, Holds, DecodeVarint32;
    FifthByte(data, p, limit, v);
    if v / 0x1000_0000 >= 128 {
      TooLargeRestFails(data, p + 5, limit, 35, v % Coding.LIMIT32, v / 0x1000_0000 / 128);
    }
  }

  lemma {:induction false} SignRestReads(data: Bytes, p: nat, limit: nat, bitpos: nat, result: nat, v: nat)
    requires || (bitpos == 35 && v == 0x1fff_ffff) || (bitpos == 42 && v == 0x3f_ffff) || (bitpos == 49 && v == 0x7fff)
             || (bitpos == 56 && v == 0xff) || (bitpos == 63 && v == 1)
    requires 0x8000_0000 <= result < Coding.LIMIT32
    requires Holds(data, p, Coding.Varint(v)) && p + |Coding.Varint(v)| <= limit <= |data|
    ensures Varint32Rest(data, p, limit, bitpos, result) == Some(Parsed(result, p + |Coding.Varint(v)|))
    decreases 63 - bitpos
  {
    hide Coding.Varint, Or, ShiftLeft, HasHighBits, Low32;
    FirstOfVarint(data, p, v);
    if bitpos < 63 { SignRestReads(data, p + 1, limit, bitpos + 7, result, v / 128); }
  }

  // A negative number in ten bytes is read as its low 32 bits.
  lemma NegativeReads(data: Bytes, p: nat, limit: nat, n: nat)
    requires 0 < n <= 0x8000_0000
    requires var v := Coding.LIMIT64 - n;
      Holds(data, p, Coding.Varint(v)) && p + |Coding.Varint(v)| <= limit <= |data|
    ensures DecodeVarint32(data, p, limit) ==
      Some(Parsed(Coding.LIMIT32 - n, p + |Coding.Varint(Coding.LIMIT64 - n)|))
  {
    hide Coding.Varint, Varint32Rest, Holds, DecodeVarint32;
    var v := Coding.LIMIT64 - n;
    FifthByte(data, p, limit, v);
    assert v / 0x1000_0000 / 128 == 0x1fff_ffff && v % Coding.LIMIT32 == Coding.LIMIT32 - n;
    SignRestReads(data, p + 5, limit, 35, Coding.LIMIT32 - n, 0x1fff_ffff);
  }

  // A number that goes on after ten bytes is refused.
  lemma {:induction false} EndlessIsRefused(data: Bytes, p: nat, limit: nat, bytes: nat)
    requires limit <= |data| && forall i :: p <= i < p + bytes && i < limit ==> data[i] >= 128
    ensures Coding.ParseVarint(data, p, limit, bytes) == None
    decreases bytes
  {
    if bytes > 0 && p < limit { EndlessIsRefused(data, p + 1, limit, bytes - 1); }
  }

  lemma ElevenBytesAreRefused(data: Bytes, p: nat, limit: nat)
    requires limit <= |data| && forall i :: p <= i < p + 10 && i < limit ==> data[i] >= 128
    ensures DecodeVarint(data, p, limit) == None
  {
    EndlessIsRefused(data, p, limit, 10);
    hide Coding.ParseVarint;
  }

  // ----- arrays ---------------------------------------------------------------------------------

  // More items than there is room for are refused, not cut off.
  lemma {:induction false} LongArrayIsRefused(k: Kind, s: Slot, items: seq<Value>, max: nat, data: Bytes, p: nat,
                                              end: nat, j: nat)
    requires Packable(k) && GoodKind(k) && s.Many? && AllFit(k, s.items) && AllFit(k, items)
    requires Holds(data, p, EncodePacked(k, s, |s.items|)) && end == p + |EncodePacked(k, s, |s.items|)|
    requires j <= |s.items| && |items| <= max < |items| + (|s.items| - j)
    ensures |EncodePacked(k, s, j)| <= end - p
    ensures DecodePacked(k, items, max, data, p + |EncodePacked(k, s, j)|, end) == None
    decreases |s.items| - j
  {
    hide DecodeScalar, EncodeScalar, ScalarFits;
    PackedHolds(k, s, data, p, |s.items|, j);
    var n, q := s.items[j].n, p + |EncodePacked(k, s, j)|;
    ScalarRoundTrips(k, n, data, q, end);
    ScalarIsNotEmpty(k, n);
    if |items| < max {
      hide DecodePacked;
      PackedStep(k, items, max, data, q, end, n, q + |EncodeScalar(k, n)|);
      LongArrayIsRefused(k, s, items + [Number(n)], max, data, p, end, j + 1);
    }
  }

  // One more item for a full array is refused.
  lemma FullArrayIsRefused(f: Field, before: Slot, wireType: nat, data: Bytes, p: nat, limit: nat)
    requires limit <= |data| && GoodField(f) && SlotFits(f, before)
    requires f.rule.Repeated? && |before.items| >= f.rule.max && (wireType != 2 || !Packable(f.kind))
    ensures DecodeSlot(f, before, wireType, data, p, limit) == None
  {
  }

  // ----- the end of a message ---------------------------------------------------------------------

  // A zero where a tag should be ends the message: what is behind it is not read.
  lemma ZeroEndsMessage(fields: seq<Field>, a: Bytes, b: Bytes)
    requires GoodKind(Submessage(fields)) && IsBoundary(fields, a, |a|)
    ensures Decode(fields, a + [0] + b) == Decode(fields, a)
  {
    hide DecodeFields, GoodKind, MessageFits, After, Same, DecodeTurn;
    var m, slots, long := Submessage(fields), Defaults(fields), a + [0] + b;
    assert a[0..0 + |a|] == long[0..0 + |a|] && long[|a|] == 0;
    assert Same(a, 0, long, 0, |a|) by { assert a[0..0 + |a|] == long[0..0 + |a|]; SameWhole(a, long); }
    AfterIsLocal(m, slots, a, 0, |a|, long, 0, |long|, 0, {}, |a|);
    DecodesAfter(m, slots, a, 0, |a|, 0, {}, |a|);
    DecodesAfter(m, slots, long, 0, |long|, 0, {}, |a|);
    var r := After(m, slots, a, 0, |a|, 0, {}, |a|).value;
    EndsHere(m, r.slots, a, |a|, |a|, r.at, r.seen);
    EndsHere(m, r.slots, long, |a|, |long|, r.at, r.seen);
  }

  lemma SameWhole(a: Bytes, long: Bytes)
    requires |a| <= |long| && a[0..0 + |a|] == long[0..0 + |a|]
    ensures Same(a, 0, long, 0, |a|)
  {
  }

  lemma EndsHere(k: Kind, slots: seq<Slot>, data: Bytes, p: nat, limit: nat, at: nat, seen: set<nat>)
    requires k.Submessage? && GoodKind(k) && MessageFits(k.fields, Message(slots)) && limit <= |data|
    requires at <= |k.fields| && (p >= limit || data[p] == 0)
    ensures DecodeFields(k, slots, data, p, limit, at, seen) ==
      if HasRequired(k.fields, seen) then Some(slots) else None
  {
    hide HasRequired;
  }
}
