/**
 Unknown fields (pb_skip_field in pb_decode.c): each is passed over exactly, and
 wherever one is put among the fields of a message, the rest decodes as before.
 Decoding depends on the bytes decoded only, not on where they are or on what
 is behind them.
 */
module PbUnknown {
  import opened Basics
  import Coding
  import opened PbFormat
  import opened PbDecode
  import opened PbRoundTrip

  // ----- passing over a field -----------------------------------------------------------------

  lemma {:induction false} VarintIsSkipped(data: Bytes, p: nat, limit: nat, v: nat)
    requires Holds(data, p, Coding.Varint(v)) && p + |Coding.Varint(v)| <= limit <= |data|
    ensures SkipVarint(data, p, limit) == Some(p + |Coding.Varint(v)|)
    decreases v
  {
    hide Coding.Varint;
    FirstOfVarint(data, p, v);
    if v >= 128 { VarintIsSkipped(data, p + 1, limit, v / 128); }
  }

  // Whatever its kind, a value that was encoded is passed over by its wire type.
  lemma ValueIsSkipped(k: Kind, v: Value, data: Bytes, p: nat, limit: nat)
    requires HoldsValue(k, v, data, p, limit)
    ensures SkipField(data, p, limit, WireType(k)) == Some(p + |EncodeValue(k, v).value|)
  {
    if k.Fixed32? || k.Fixed64? {
      FixedIsSkipped(k, v, data, p, limit);
    } else if Packable(k) {
      VarintValueIsSkipped(k, v, data, p, limit);
    } else {
      BytesAreSkipped(k, v, data, p, limit);
    }
  }

  lemma FixedIsSkipped(k: Kind, v: Value, data: Bytes, p: nat, limit: nat)
    requires HoldsValue(k, v, data, p, limit) && (k.Fixed32? || k.Fixed64?)
    ensures SkipField(data, p, limit, WireType(k)) == Some(p + |EncodeValue(k, v).value|)
    ensures |EncodeValue(k, v).value| == if k.Fixed32? then 4 else 8
  {
    hide Holds;
    if k.Fixed32? { Coding.FixedIsFour(v.n); } else { Coding.FixedIsEight(v.n); }
    hide Coding.Fixed32, Coding.Fixed64;
  }

  lemma VarintValueIsSkipped(k: Kind, v: Value, data: Bytes, p: nat, limit: nat)
    requires HoldsValue(k, v, data, p, limit) && Packable(k) && !k.Fixed32? && !k.Fixed64?
    ensures SkipField(data, p, limit, WireType(k)) == Some(p + |EncodeValue(k, v).value|)
  {
    hide Coding.Varint, Holds, SkipVarint;
    var n: nat := if k.Varint? then v.n % Coding.LIMIT64 else if k.SVarint? then ZigZag(v.n) else v.n;
    VarintIsSkipped(data, p, limit, n);
  }

  lemma BytesAreSkipped(k: Kind, v: Value, data: Bytes, p: nat, limit: nat)
    requires HoldsValue(k, v, data, p, limit) && !Packable(k)
    ensures SkipField(data, p, limit, WireType(k)) == Some(p + |EncodeValue(k, v).value|)
  {
    hide DecodeLength, Holds, EncodeSlots, Coding.Varint;
    var bytes := if k.Submessage? then EncodeSlots(k.fields, v, |k.fields|).value else v.bytes;
    assert EncodeValue(k, v).value == Prefixed(bytes);
    LengthReads(data, p, limit, bytes);
  }

  // Groups cannot be passed over, and neither can types that do not exist.
  lemma OtherTypesAreRefused(data: Bytes, p: nat, limit: nat, wireType: nat)
    requires p <= limit <= |data|
    ensures wireType == 3 || wireType == 4 || wireType > 5 ==> SkipField(data, p, limit, wireType) == None
  {
  }

  // ----- decoding is local ----------------------------------------------------------------------

  // The same n bytes are at p in data and at p' in data'.
  ghost predicate Same(data: Bytes, p: nat, data': Bytes, p': nat, n: nat) {
    p + n <= |data| && p' + n <= |data'| && data[p..p + n] == data'[p'..p' + n]
  }

  lemma SameByte(data: Bytes, p: nat, data': Bytes, p': nat, n: nat, i: nat)
    requires Same(data, p, data', p', n) && i < n
    ensures data[p + i] == data'[p' + i]
  {
    assert data[p..p + n][i] == data[p + i] && data'[p'..p' + n][i] == data'[p' + i];
  }

  lemma SameSlice(data: Bytes, p: nat, data': Bytes, p': nat, n: nat, lo: nat, hi: nat)
    requires Same(data, p, data', p', n) && lo <= hi <= n
    ensures data[p + lo..p + hi] == data'[p' + lo..p' + hi]
  {
    SliceOfSlice(data, p, p + n, lo, hi);
    SliceOfSlice(data', p', p' + n, lo, hi);
  }

  // The same bytes to decode, up to limits that leave room for n of them.
  ghost predicate Alike(data: Bytes, p: nat, limit: nat, data': Bytes, p': nat, limit': nat, n: nat) {
    Same(data, p, data', p', n) && p + n <= limit <= |data| && p' + n <= limit' <= |data'|
  }

  // If one result is had within the n bytes, so is the other, and it is the same.
  ghost predicate Moved<T>(r: Option<Parsed<T>>, p: nat, r': Option<Parsed<T>>, p': nat, n: nat) {
    && (r.Some? && r.value.next <= p + n <==> r'.Some? && r'.value.next <= p' + n)
    && (r.Some? && r.value.next <= p + n ==>
         r'.value.value == r.value.value && r'.value.next + p == r.value.next + p')
  }

  lemma AlikeFrom(data: Bytes, p: nat, limit: nat, data': Bytes, p': nat, limit': nat, n: nat, k: nat)
    requires Alike(data, p, limit, data', p', limit', n) && k <= n
    ensures Alike(data, p + k, limit, data', p' + k, limit', n - k)
  {
    SameSlice(data, p, data', p', n, k, n);
  }

  function Pair(r: Option<(nat, nat)>): Option<Parsed<nat>> {
    if r.None? then None else Some(Parsed(r.value.0, r.value.1))
  }

  lemma {:induction false} ParseIsLocal(data: Bytes, p: nat, limit: nat, data': Bytes, p': nat, limit': nat, n: nat,
                                        bytes: nat)
    requires Alike(data, p, limit, data', p', limit', n)
    ensures Moved(Pair(Coding.ParseVarint(data, p, limit, bytes)), p,
                  Pair(Coding.ParseVarint(data', p', limit', bytes)), p', n)
    decreases bytes
  {
    if bytes > 0 && n > 0 {
      SameByte(data, p, data', p', n, 0);
      AlikeFrom(data, p, limit, data', p', limit', n, 1);
      ParseIsLocal(data, p + 1, limit, data', p' + 1, limit', n - 1, bytes - 1);
    }
  }

  lemma VarintIsLocal(data: Bytes, p: nat, limit: nat, data': Bytes, p': nat, limit': nat, n: nat)
    requires Alike(data, p, limit, data', p', limit', n)
    ensures Moved(DecodeVarint(data, p, limit), p, DecodeVarint(data', p', limit'), p', n)
  {
    ParseIsLocal(data, p, limit, data', p', limit', n, 10);
    hide Coding.ParseVarint;
  }

  lemma {:induction false} RestIsLocal(data: Bytes, p: nat, limit: nat, data': Bytes, p': nat, limit': nat, n: nat,
                                       bitpos: nat, result: nat)
    requires Alike(data, p, limit, data', p', limit', n) && result < Coding.LIMIT32
    ensures Moved(Varint32Rest(data, p, limit, bitpos, result), p,
                  Varint32Rest(data', p', limit', bitpos, result), p', n)
    decreases n
  {
    hide Or, ShiftLeft, NextBit, HasHighBits, Low32;
    if n > 0 {
      SameByte(data, p, data', p', n, 0);
      AlikeFrom(data, p, limit, data', p', limit', n, 1);
      var result' := if bitpos >= 32 then result else Low32(Or(result, ShiftLeft(data[p] % 128, bitpos)));
      RestIsLocal(data, p + 1, limit, data', p' + 1, limit', n - 1, NextBit(bitpos), result');
    }
  }

  lemma Varint32IsLocal(data: Bytes, p: nat, limit: nat, data': Bytes, p': nat, limit': nat, n: nat)
    requires Alike(data, p, limit, data', p', limit', n)
    ensures Moved(DecodeVarint32(data, p, limit), p, DecodeVarint32(data', p', limit'), p', n)
  {
    hide Varint32Rest;
    if n > 0 {
      SameByte(data, p, data', p', n, 0);
      if data[p] >= 128 {
        AlikeFrom(data, p, limit, data', p', limit', n, 1);
        hide Alike;
        RestIsLocal(data, p + 1, limit, data', p' + 1, limit', n - 1, 7, data[p] - 128);
      }
    }
  }

  lemma FixedIsLocal(data: Bytes, p: nat, data': Bytes, p': nat, n: nat, k: nat)
    requires Same(data, p, data', p', n) && k + 4 <= n
    ensures Coding.DecodeFixed32(data, p + k) == Coding.DecodeFixed32(data', p' + k)
  {
    SameByte(data, p, data', p', n, k);
    SameByte(data, p, data', p', n, k + 1);
    SameByte(data, p, data', p', n, k + 2);
    SameByte(data, p, data', p', n, k + 3);
  }

  lemma ScalarIsLocal(k: Kind, data: Bytes, p: nat, limit: nat, data': Bytes, p': nat, limit': nat, n: nat)
    requires Packable(k) && GoodKind(k) && Alike(data, p, limit, data', p', limit', n)
    ensures Moved(DecodeScalar(k, data, p, limit), p, DecodeScalar(k, data', p', limit'), p', n)
  {
    hide DecodeVarint, DecodeVarint32, Coding.DecodeFixed32, Sized;
    Varint32IsLocal(data, p, limit, data', p', limit', n);
    VarintIsLocal(data, p, limit, data', p', limit', n);
    if n >= 4 { FixedIsLocal(data, p, data', p', n, 0); }
    if n >= 8 { FixedIsLocal(data, p, data', p', n, 4); }
  }

  // A length-prefixed part, as the position of its bytes and the position after it.
  function Part(r: Option<(nat, nat)>, p: nat): Option<Parsed<int>> {
    if r.None? then None else Some(Parsed(r.value.0 - p, r.value.1))
  }

  lemma LengthIsLocal(data: Bytes, p: nat, limit: nat, data': Bytes, p': nat, limit': nat, n: nat)
    requires Alike(data, p, limit, data', p', limit', n)
    ensures Moved(Part(DecodeLength(data, p, limit), p), p, Part(DecodeLength(data', p', limit'), p'), p', n)
  {
    hide DecodeVarint32;
    Varint32IsLocal(data, p, limit, data', p', limit', n);
  }

  function Position(r: Option<nat>): Option<Parsed<()>> {
    if r.None? then None else Some(Parsed((), r.value))
  }

  lemma {:induction false} SkipVarintIsLocal(data: Bytes, p: nat, limit: nat, data': Bytes, p': nat, limit': nat,
                                             n: nat)
    requires Alike(data, p, limit, data', p', limit', n)
    ensures Moved(Position(SkipVarint(data, p, limit)), p, Position(SkipVarint(data', p', limit')), p', n)
    decreases n
  {
    if n > 0 {
      SameByte(data, p, data', p', n, 0);
      AlikeFrom(data, p, limit, data', p', limit', n, 1);
      SkipVarintIsLocal(data, p + 1, limit, data', p' + 1, limit', n - 1);
    }
  }

  lemma SkipIsLocal(data: Bytes, p: nat, limit: nat, data': Bytes, p': nat, limit': nat, n: nat, wireType: nat)
    requires Alike(data, p, limit, data', p', limit', n)
    ensures Moved(Position(SkipField(data, p, limit, wireType)), p,
                  Position(SkipField(data', p', limit', wireType)), p', n)
  {
    hide SkipVarint, DecodeLength;
    SkipVarintIsLocal(data, p, limit, data', p', limit', n);
    LengthIsLocal(data, p, limit, data', p', limit', n);
  }

  lemma RawIsLocal(k: Kind, data: Bytes, p: nat, limit: nat, data': Bytes, p': nat, limit': nat, n: nat)
    requires (k.RawBytes? || k.CString?) && Alike(data, p, limit, data', p', limit', n)
    ensures Moved(DecodeRaw(k, data, p, limit), p, DecodeRaw(k, data', p', limit'), p', n)
  {
    hide DecodeVarint32, UpToZero;
    Varint32IsLocal(data, p, limit, data', p', limit', n);
    var size := DecodeVarint32(data, p, limit);
    if size.Some? && size.value.next + size.value.value <= p + n {
      SameSlice(data, p, data', p', n, size.value.next - p, size.value.next + size.value.value - p);
    }
  }

  lemma {:induction false} PackedIsLocal(k: Kind, items: seq<Value>, max: nat, data: Bytes, p: nat, end: nat,
                                         data': Bytes, p': nat, end': nat)
    requires Packable(k) && GoodKind(k) && AllFit(k, items) && p <= end && p' <= end' && end - p == end' - p'
    requires Alike(data, p, end, data', p', end', end - p)
    ensures DecodePacked(k, items, max, data, p, end) == DecodePacked(k, items, max, data', p', end')
    decreases end - p
  {
    hide DecodeScalar;
    if p < end && |items| < max {
      ScalarIsLocal(k, data, p, end, data', p', end', end - p);
      var n := DecodeScalar(k, data, p, end);
      if n.Some? {
        AlikeFrom(data, p, end, data', p', end', end - p, n.value.next - p);
        PackedIsLocal(k, items + [Number(n.value.value)], max, data, n.value.next, end, data', p' + (n.value.next - p),
                      end');
      }
    }
  }

  lemma {:induction false} ValueIsLocal(k: Kind, before: Value, data: Bytes, p: nat, limit: nat,
                                        data': Bytes, p': nat, limit': nat, n: nat)
    requires GoodKind(k) && ValueFits(k, before) && Alike(data, p, limit, data', p', limit', n)
    ensures Moved(DecodeValue(k, before, data, p, limit), p, DecodeValue(k, before, data', p', limit'), p', n)
    decreases k, n, 0
  {
    hide DecodeRaw, DecodeScalar, DecodeLength, DecodeFields;
    if k.RawBytes? || k.CString? {
      RawIsLocal(k, data, p, limit, data', p', limit', n);
    } else if Packable(k) {
      ScalarIsLocal(k, data, p, limit, data', p', limit', n);
    } else {
      LengthIsLocal(data, p, limit, data', p', limit', n);
      var part := DecodeLength(data, p, limit);
      if part.Some? && part.value.1 <= p + n {
        var (from, to) := part.value;
        SameSlice(data, p, data', p', n, from - p, to - p);
        FieldsAreLocal(k, before.slots, data, from, to, data', p' + (from - p), p' + (to - p), 0, {});
      }
    }
  }

  lemma {:induction false} SlotIsLocal(f: Field, before: Slot, wireType: nat, data: Bytes, p: nat, limit: nat,
                                       data': Bytes, p': nat, limit': nat, n: nat)
    requires GoodField(f) && SlotFits(f, before) && Alike(data, p, limit, data', p', limit', n)
    ensures Moved(DecodeSlot(f, before, wireType, data, p, limit), p,
                  DecodeSlot(f, before, wireType, data', p', limit'), p', n)
    decreases f.kind, n, 1
  {
    hide DecodeValue, DecodePacked, DecodeLength;
    match f.rule
    case Required => ValueIsLocal(f.kind, before.value, data, p, limit, data', p', limit', n);
    case Optional => ValueIsLocal(f.kind, before.value, data, p, limit, data', p', limit', n);
    case Repeated(max) =>
      if wireType == 2 && Packable(f.kind) {
        LengthIsLocal(data, p, limit, data', p', limit', n);
        var part := DecodeLength(data, p, limit);
        if part.Some? && part.value.1 <= p + n {
          var (from, to) := part.value;
          SameSlice(data, p, data', p', n, from - p, to - p);
          PackedIsLocal(f.kind, before.items, max, data, from, to, data', p' + (from - p), p' + (to - p));
        }
      } else if |before.items| < max {
        DefaultFits(f.kind, f.initial);
        ValueIsLocal(f.kind, DefaultValue(f.kind, f.initial), data, p, limit, data', p', limit', n);
      }
  }

  // What a turn comes to, as the position after it.
  function Went(t: Turn): Option<Parsed<(seq<Slot>, nat, set<nat>)>> {
    if t.Goes? then Some(Parsed((t.slots, t.at, t.seen), t.next)) else None
  }

  lemma {:induction false} TurnIsLocal(k: Kind, slots: seq<Slot>, data: Bytes, p: nat, limit: nat,
                                       data': Bytes, p': nat, limit': nat, n: nat, at: nat, seen: set<nat>)
    requires k.Submessage? && GoodKind(k) && MessageFits(k.fields, Message(slots)) && at <= |k.fields|
    requires Alike(data, p, limit, data', p', limit', n)
    ensures Moved(Went(DecodeTurn(k, slots, data, p, limit, at, seen)), p,
                  Went(DecodeTurn(k, slots, data', p', limit', at, seen)), p', n)
    ensures p + n == limit && p' + n == limit' ==>
      (DecodeTurn(k, slots, data, p, limit, at, seen).End? <==> DecodeTurn(k, slots, data', p', limit', at, seen).End?)
    decreases k, n, 1
  {
    hide DecodeVarint32, DecodeSlot, SkipField, Find, RequiredBefore, Same, SlotFits, GoodField;
    Varint32IsLocal(data, p, limit, data', p', limit', n);
    var tag := DecodeVarint32(data, p, limit);
    if tag.Some? && tag.value.next <= p + n {
      var d := tag.value.next - p;
      AlikeFrom(data, p, limit, data', p', limit', n, d);
      Varint32IsLocal(data, p + d, limit, data', p' + d, limit', n - d);
      SkipIsLocal(data, p + d, limit, data', p' + d, limit', n - d, tag.value.value % 8);
      var found := Find(k.fields, tag.value.value / 8, at);
      if found.Some? {
        SlotIsLocal(k.fields[found.value], slots[found.value], tag.value.value % 8, data, p + d, limit,
                    data', p' + d, limit', n - d);
      }
    }
  }

  // A message decodes the same wherever its bytes are.
  lemma {:induction false} FieldsAreLocal(k: Kind, slots: seq<Slot>, data: Bytes, p: nat, limit: nat,
                                          data': Bytes, p': nat, limit': nat, at: nat, seen: set<nat>)
    requires k.Submessage? && GoodKind(k) && MessageFits(k.fields, Message(slots)) && at <= |k.fields|
    requires p <= limit && p' <= limit' && limit - p == limit' - p'
    requires Alike(data, p, limit, data', p', limit', limit - p)
    ensures DecodeFields(k, slots, data, p, limit, at, seen) == DecodeFields(k, slots, data', p', limit', at, seen)
    decreases k, limit - p, 2
  {
    hide DecodeTurn;
    TurnIsLocal(k, slots, data, p, limit, data', p', limit', limit - p, at, seen);
    var t := DecodeTurn(k, slots, data, p, limit, at, seen);
    if t.Goes? {
      var d := t.next - p;
      AlikeFrom(data, p, limit, data', p', limit', limit - p, d);
      FieldsAreLocal(k, t.slots, data, t.next, limit, data', p' + d, limit', t.at, t.seen);
    }
  }

  // ----- unknown fields ---------------------------------------------------------------------------

  datatype Reached = Reached(slots: seq<Slot>, at: nat, seen: set<nat>)

  // The state of the loop when it is at q between two turns; None if it never is.
  ghost function After(k: Kind, slots: seq<Slot>, data: Bytes, p: nat, limit: nat, at: nat, seen: set<nat>,
                       q: nat): (r: Option<Reached>)
    requires k.Submessage? && GoodKind(k) && MessageFits(k.fields, Message(slots)) && limit <= |data|
    requires at <= |k.fields|
    ensures r.Some? ==> MessageFits(k.fields, Message(r.value.slots)) && r.value.at <= |k.fields|
    decreases limit - p
  {
    if p == q then Some(Reached(slots, at, seen))
    else
      var t := DecodeTurn(k, slots, data, p, limit, at, seen);
      if t.Goes? && t.next <= q then After(k, t.slots, data, t.next, limit, t.at, t.seen, q) else None
  }

  lemma {:induction false} DecodesAfter(k: Kind, slots: seq<Slot>, data: Bytes, p: nat, limit: nat, at: nat,
                                        seen: set<nat>, q: nat)
    requires k.Submessage? && GoodKind(k) && MessageFits(k.fields, Message(slots)) && limit <= |data|
    requires at <= |k.fields|
    ensures var r := After(k, slots, data, p, limit, at, seen, q);
      r.Some? ==>
        DecodeFields(k, slots, data, p, limit, at, seen) ==
        DecodeFields(k, r.value.slots, data, q, limit, r.value.at, r.value.seen)
    decreases limit - p
  {
    hide DecodeTurn;
    var t := DecodeTurn(k, slots, data, p, limit, at, seen);
    if p != q && t.Goes? && t.next <= q { DecodesAfter(k, t.slots, data, t.next, limit, t.at, t.seen, q); }
  }

  lemma {:induction false} AfterIsLocal(k: Kind, slots: seq<Slot>, data: Bytes, p: nat, limit: nat,
                                        data': Bytes, p': nat, limit': nat, at: nat, seen: set<nat>, q: nat)
    requires k.Submessage? && GoodKind(k) && MessageFits(k.fields, Message(slots)) && at <= |k.fields|
    requires p <= q && Alike(data, p, limit, data', p', limit', q - p)
    ensures After(k, slots, data, p, limit, at, seen, q) == After(k, slots, data', p', limit', at, seen, p' + (q - p))
    decreases limit - p
  {
    hide DecodeTurn;
    if p < q {
      TurnIsLocal(k, slots, data, p, limit, data', p', limit', q - p, at, seen);
      var t := DecodeTurn(k, slots, data, p, limit, at, seen);
      if t.Goes? && t.next <= q {
        AlikeFrom(data, p, limit, data', p', limit', q - p, t.next - p);
        hide Alike;
        AfterIsLocal(k, t.slots, data, t.next, limit, data', p' + (t.next - p), limit', t.at, t.seen, q);
      }
    }
  }

  // A field with a tag that the table does not have, and a value of any kind.
  ghost predicate IsUnknown(fields: seq<Field>, tag: nat, k: Kind, v: Value) {
    && 0 < tag < 0x2000_0000 && (forall i :: 0 <= i < |fields| ==> fields[i].tag != tag)
    && GoodKind(k) && ValueFits(k, v) && EncodeValue(k, v).Some? && |EncodeValue(k, v).value| < Coding.LIMIT32
  }

  ghost function UnknownBytes(tag: nat, k: Kind, v: Value): Bytes
    requires ValueFits(k, v) && EncodeValue(k, v).Some?
  {
    Tag(tag, WireType(k)) + EncodeValue(k, v).value
  }

  lemma NotFound(fields: seq<Field>, tag: nat, at: nat)
    requires at <= |fields| && forall i :: 0 <= i < |fields| ==> fields[i].tag != tag
    ensures Find(fields, tag, at) == None
  {
    FindFromIsNot(fields, tag, at);
    FindFromIsNot(fields, tag, 0);
  }

  // A turn on an unknown field changes nothing but the position.
  lemma UnknownTurn(fields: seq<Field>, slots: seq<Slot>, data: Bytes, p: nat, limit: nat, at: nat, seen: set<nat>,
                    tag: nat, k: Kind, v: Value)
    requires GoodKind(Submessage(fields)) && MessageFits(fields, Message(slots)) && at <= |fields| && limit <= |data|
    requires IsUnknown(fields, tag, k, v)
    requires Holds(data, p, UnknownBytes(tag, k, v)) && p + |UnknownBytes(tag, k, v)| <= limit
    ensures DecodeTurn(Submessage(fields), slots, data, p, limit, at, seen) ==
      Goes(slots, p + |UnknownBytes(tag, k, v)|, at, seen)
  {
    hide DecodeVarint32, Coding.Varint, DecodeSlot, Find, SkipField, EncodeValue, Holds, GoodKind, MessageFits;
    hide RequiredBefore, ValueFits;
    var wireType, value := WireType(k), EncodeValue(k, v).value;
    HoldsParts(data, p, Tag(tag, wireType), value);
    Varint32Reads(data, p, limit, tag * 8 + wireType);
    FirstOfVarint(data, p, tag * 8 + wireType);
    NotFound(fields, tag, at);
    ValueIsSkipped(k, v, data, p + |Tag(tag, wireType)|, limit);
  }

  ghost predicate IsBoundary(fields: seq<Field>, data: Bytes, q: nat)
    requires GoodKind(Submessage(fields))
  {
    After(Submessage(fields), Defaults(fields), data, 0, |data|, 0, {}, q).Some?
  }

  // An unknown field put at the beginning, between two fields or at the end of any
  // bytes does not change what they decode to, or that they do not decode.
  lemma UnknownFieldIsIgnored(fields: seq<Field>, a: Bytes, b: Bytes, tag: nat, k: Kind, v: Value)
    requires GoodKind(Submessage(fields)) && IsUnknown(fields, tag, k, v) && IsBoundary(fields, a + b, |a|)
    ensures Decode(fields, a + UnknownBytes(tag, k, v) + b) == Decode(fields, a + b)
  {
    hide DecodeTurn, DecodeFields, EncodeValue, GoodKind, MessageFits, ValueFits, After, Same;
    var m, u := Submessage(fields), UnknownBytes(tag, k, v);
    var slots := Defaults(fields);
    var short, long := a + b, a + u + b;
    SplitsAlike(a, u, b);
    AfterIsLocal(m, slots, short, 0, |short|, long, 0, |long|, 0, {}, |a|);
    DecodesAfter(m, slots, short, 0, |short|, 0, {}, |a|);
    DecodesAfter(m, slots, long, 0, |long|, 0, {}, |a|);
    var r := After(m, slots, short, 0, |short|, 0, {}, |a|).value;
    UnknownTurn(fields, r.slots, long, |a|, |long|, r.at, r.seen, tag, k, v);
    TurnDecodes(m, r.slots, long, |a|, |long|, r.at, r.seen);
    FieldsAreLocal(m, r.slots, long, |a| + |u|, |long|, short, |a|, |short|, r.at, r.seen);
  }

  lemma TurnDecodes(k: Kind, slots: seq<Slot>, data: Bytes, p: nat, limit: nat, at: nat, seen: set<nat>)
    requires k.Submessage? && GoodKind(k) && MessageFits(k.fields, Message(slots)) && limit <= |data|
    requires at <= |k.fields|
    ensures var t := DecodeTurn(k, slots, data, p, limit, at, seen);
      t.Goes? ==>
        DecodeFields(k, slots, data, p, limit, at, seen) == DecodeFields(k, t.slots, data, t.next, limit, t.at, t.seen)
  {
    hide DecodeTurn;
  }

  lemma SplitsAlike(a: Bytes, u: Bytes, b: Bytes)
    ensures var short, long := a + b, a + u + b;
      && Alike(short, 0, |short|, long, 0, |long|, |a|) && Holds(long, |a|, u)
      && Alike(long, |a| + |u|, |long|, short, |a|, |short|, |b|)
  {
    var short, long := a + b, a + u + b;
    assert short[0..0 + |a|] == a == long[0..0 + |a|];
    assert long[|a|..|a| + |u|] == u;
    assert short[|a|..|a| + |b|] == b == long[|a| + |u|..|a| + |u| + |b|];
  }

  // ----- required fields ----------------------------------------------------------------------------

  // The tags of the fields that the loop deals with from p on.
  ghost function TagsRead(k: Kind, slots: seq<Slot>, data: Bytes, p: nat, limit: nat, at: nat, seen: set<nat>): set<nat>
    requires k.Submessage? && GoodKind(k) && MessageFits(k.fields, Message(slots)) && limit <= |data|
    requires at <= |k.fields|
    decreases limit - p
  {
    var t, tag := DecodeTurn(k, slots, data, p, limit, at, seen), DecodeVarint32(data, p, limit);
    if t.Goes? && tag.Some? then
      {tag.value.value / 8} + TagsRead(k, t.slots, data, t.next, limit, t.at, t.seen)
    else {}
  }

  // The loop comes to the end of the message.
  ghost predicate Ends(k: Kind, slots: seq<Slot>, data: Bytes, p: nat, limit: nat, at: nat, seen: set<nat>)
    requires k.Submessage? && GoodKind(k) && MessageFits(k.fields, Message(slots)) && limit <= |data|
    requires at <= |k.fields|
    decreases limit - p
  {
    match DecodeTurn(k, slots, data, p, limit, at, seen)
    case End => true
    case Failure => false
    case Goes(slots', next, at', seen') => Ends(k, slots', data, next, limit, at', seen')
  }

  // Field i is required, one of the first 64 that are.
  predicate IsChecked(fields: seq<Field>, i: nat) {
    i < |fields| && fields[i].rule.Required? && RequiredBefore(fields, i) < 64
  }

  lemma {:induction false} RequiredGrows(fields: seq<Field>, i: nat, j: nat)
    requires i < j <= |fields|
    ensures RequiredBefore(fields, i) <= RequiredBefore(fields, j)
    ensures fields[i].rule.Required? ==> RequiredBefore(fields, i) < RequiredBefore(fields, j)
  {
    if i < j - 1 { RequiredGrows(fields, i, j - 1); }
  }

  lemma {:induction false} IsTheRequired(fields: seq<Field>, n: nat, r: nat) returns (i: nat)
    requires n <= |fields| && r < RequiredBefore(fields, n)
    ensures i < n && fields[i].rule.Required? && RequiredBefore(fields, i) == r
  {
    if r < RequiredBefore(fields, n - 1) {
      i := IsTheRequired(fields, n - 1, r);
    } else {
      i := n - 1;
    }
  }

  lemma HasRequiredIff(fields: seq<Field>, seen: set<nat>)
    ensures HasRequired(fields, seen) <==>
      forall i: nat :: IsChecked(fields, i) ==> RequiredBefore(fields, i) in seen
  {
    forall i: nat | IsChecked(fields, i) ensures RequiredBefore(fields, i) < RequiredBefore(fields, |fields|) {
      RequiredGrows(fields, i, |fields|);
    }
    if forall i: nat :: IsChecked(fields, i) ==> RequiredBefore(fields, i) in seen {
      forall r | 0 <= r < RequiredBefore(fields, |fields|) && r < MAX_REQUIRED_FIELDS ensures r in seen {
        var i := IsTheRequired(fields, |fields|, r);
        assert IsChecked(fields, i);
      }
    }
  }

  // What a turn adds to the required fields seen is the one whose tag it read.
  lemma TurnSees(k: Kind, slots: seq<Slot>, data: Bytes, p: nat, limit: nat, at: nat, seen: set<nat>, i: nat)
    requires k.Submessage? && GoodKind(k) && MessageFits(k.fields, Message(slots)) && limit <= |data|
    requires at <= |k.fields| && IsChecked(k.fields, i)
    ensures var t, tag := DecodeTurn(k, slots, data, p, limit, at, seen), DecodeVarint32(data, p, limit);
      t.Goes? ==>
        && tag.Some?
        && (RequiredBefore(k.fields, i) in t.seen <==>
             RequiredBefore(k.fields, i) in seen || tag.value.value / 8 == k.fields[i].tag)
  {
    hide DecodeVarint32, DecodeSlot, SkipField, MessageFits;
    var tag := DecodeVarint32(data, p, limit);
    if tag.Some? {
      var found := Find(k.fields, tag.value.value / 8, at);
      if tag.value.value / 8 == k.fields[i].tag { FindIs(k.fields, k.fields[i].tag, at, i); }
      hide Find;
      if found.Some? && found.value < i { RequiredGrows(k.fields, found.value, i); }
      if found.Some? && i < found.value { RequiredGrows(k.fields, i, found.value); }
      hide RequiredBefore;
    }
  }

  // A message is decoded if and only if the loop ends well and has come to every
  // required field that is checked.
  lemma {:induction false} DecodesIff(k: Kind, slots: seq<Slot>, data: Bytes, p: nat, limit: nat, at: nat,
                                      seen: set<nat>)
    requires k.Submessage? && GoodKind(k) && MessageFits(k.fields, Message(slots)) && limit <= |data|
    requires at <= |k.fields|
    ensures DecodeFields(k, slots, data, p, limit, at, seen).Some? <==>
      && Ends(k, slots, data, p, limit, at, seen)
      && forall i: nat :: IsChecked(k.fields, i) ==>
           || RequiredBefore(k.fields, i) in seen
           || k.fields[i].tag in TagsRead(k, slots, data, p, limit, at, seen)
    decreases limit - p
  {
    hide DecodeTurn, DecodeVarint32, HasRequired, RequiredBefore;
    var t := DecodeTurn(k, slots, data, p, limit, at, seen);
    if t.Goes? {
      DecodesIff(k, t.slots, data, t.next, limit, t.at, t.seen);
      forall i: nat | IsChecked(k.fields, i)
        ensures
          var tag := DecodeVarint32(data, p, limit);
          && tag.Some?
          && (RequiredBefore(k.fields, i) in t.seen <==>
               RequiredBefore(k.fields, i) in seen || tag.value.value / 8 == k.fields[i].tag)
      {
        TurnSees(k, slots, data, p, limit, at, seen, i);
      }
    } else if t.End? {
      HasRequiredIff(k.fields, seen);
    }
  }

  // Bytes without one of the first 64 required fields are refused; apart from that
  // only a turn that fails is.
  lemma MissingFieldIsRefused(fields: seq<Field>, data: Bytes)
    requires GoodKind(Submessage(fields))
    ensures var k, slots := Submessage(fields), Defaults(fields);
      Decode(fields, data).Some? <==>
        && Ends(k, slots, data, 0, |data|, 0, {})
        && forall i: nat :: IsChecked(fields, i) ==> fields[i].tag in TagsRead(k, slots, data, 0, |data|, 0, {})
  {
    hide DecodeFields, Ends, TagsRead, IsChecked;
    DecodesIff(Submessage(fields), Defaults(fields), data, 0, |data|, 0, {});
  }
}
