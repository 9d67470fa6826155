/**
 Decoding (pb_decode.c): what a field table makes of any bytes.  A stream is a
 part of a byte sequence, from a position up to a limit.
 */
module PbDecode {
  import opened Basics
  import Coding
  import opened PbFormat

  // ----- numbers ---------------------------------------------------------------------------

  // A value read and the position after it.
  datatype Parsed<+T> = Parsed(value: T, next: nat)

  // pb_decode_varint: ten bytes at most, 64 bits kept.
  function DecodeVarint(data: Bytes, p: nat, limit: nat): (r: Option<Parsed<nat>>)
    requires limit <= |data|
    ensures r.Some? ==> p < r.value.next <= limit && r.value.value < Coding.LIMIT64
  {
    var r := Coding.ParseVarint(data, p, limit, 10);
    if r.None? then None else Some(Parsed(r.value.0 % Coding.LIMIT64, r.value.1))
  }

  // The bitwise or of two numbers.
  function Or(a: nat, b: nat): (r: nat)
    decreases a
  {
    if a == 0 then b
    else (if a % 2 == 1 || b % 2 == 1 then 1 else 0) + 2 * Or(a / 2, b / 2)
  }

  // A number cast to 32 bits.
  function Low32(n: nat): (r: nat)
    ensures r < Coding.LIMIT32
  {
    n % Coding.LIMIT32
  }

  function ShiftLeft(n: nat, bits: nat): nat { n * Coding.Power2(bits) }

  function NextBit(bitpos: nat): nat { (bitpos + 7) % 256 }

  // byte & 0x70
  predicate HasHighBits(byte: Byte) { byte / 16 % 8 != 0 }

  // The loop of pb_decode_varint32, from the second byte on.  Bytes past the
  // fifth must be zero or continue a negative number.  The bit position is kept
  // in eight bits, so from the 38th byte on bits are put where there are some already.
  function Varint32Rest(data: Bytes, p: nat, limit: nat, bitpos: nat, result: nat): (r: Option<Parsed<nat>>)
    requires limit <= |data| && result < Coding.LIMIT32
    ensures r.Some? ==> p < r.value.next <= limit && r.value.value < Coding.LIMIT32
    decreases limit - p
  {
    if p >= limit then None
    else
      var byte := data[p];
      var signExtension := if bitpos < 63 then 255 else 1;
      if bitpos >= 32 && byte % 128 != 0 && (result / 0x8000_0000 == 0 || byte != signExtension) then None
      else
        var result' := if bitpos >= 32 then result else Low32(Or(result, ShiftLeft(byte % 128, bitpos)));
        if byte >= 128 then Varint32Rest(data, p + 1, limit, NextBit(bitpos), result')
        // The last byte was at bit 28, so only its bottom 4 bits fit
        else if NextBit(bitpos) == 35 && HasHighBits(byte) then None
        else Some(Parsed(result', p + 1))
  }

  function DecodeVarint32(data: Bytes, p: nat, limit: nat): (r: Option<Parsed<nat>>)
    requires limit <= |data|
    ensures r.Some? ==> p < r.value.next <= limit && r.value.value < Coding.LIMIT32
  {
    if p >= limit then None
    else if data[p] < 128 then Some(Parsed(data[p] as int, p + 1))
    else Varint32Rest(data, p + 1, limit, 7, data[p] - 128)
  }

  function Signed(n: nat, range: nat): (r: int)
    requires range > 0 && range % 2 == 0
    ensures -(range / 2) <= r < range / 2
  {
    if n % range < range / 2 then n % range else n % range - range
  }

  function UnZigZag(n: nat): int { if n % 2 == 1 then -(n / 2) - 1 else n / 2 }

  // A number of a size is kept if it is what was read.
  function Kept(n: int, clamped: int): Option<int> {
    if clamped == n then Some(clamped) else None
  }

  function Sized(k: Kind, n: nat): (r: Option<int>)
    requires (k.Varint? || k.UVarint? || k.SVarint?) && IsSize(k.size)
    ensures r.Some? ==> ScalarFits(k, r.value)
  {
      match k
      case Varint(s) =>
        // Numbers of up to 32 bits are cast to 32 bits first
        var sv := Signed(n, if s == 8 then Coding.LIMIT64 else Coding.LIMIT32);
        Kept(sv, Signed(sv % Coding.LIMIT64, Range(s)))
      case UVarint(s) => Kept(n, n % Range(s))
      case SVarint(s) => Kept(UnZigZag(n), Signed(UnZigZag(n) % Coding.LIMIT64, Range(s)))
  }

  function DecodeScalar(k: Kind, data: Bytes, p: nat, limit: nat): (r: Option<Parsed<int>>)
    requires Packable(k) && GoodKind(k) && limit <= |data|
    ensures r.Some? ==> p < r.value.next <= limit && ScalarFits(k, r.value.value)
  {
    match k
    case Bool =>
      var r := DecodeVarint32(data, p, limit);
      if r.None? then None else Some(Parsed(if r.value.value != 0 then 1 else 0, r.value.next))
    case Fixed32 =>
      if p + 4 > limit then None else Some(Parsed(Coding.DecodeFixed32(data, p), p + 4))
    case Fixed64 =>
      if p + 8 > limit then None
      else Some(Parsed(Coding.DecodeFixed32(data, p) + Coding.LIMIT32 * Coding.DecodeFixed32(data, p + 4), p + 8))
    case Varint(_) | UVarint(_) | SVarint(_) =>
      var r := DecodeVarint(data, p, limit);
      if r.None? then None else
      var n := Sized(k, r.value.value);
      if n.None? then None else Some(Parsed(n.value, r.value.next))
  }

  // ----- tags, lengths and unknown fields ----------------------------------------------

  // The end of a length-prefixed part and where it begins.
  function DecodeLength(data: Bytes, p: nat, limit: nat): (r: Option<(nat, nat)>)
    requires limit <= |data|
    ensures r.Some? ==> p < r.value.0 <= r.value.1 <= limit
  {
    var size := DecodeVarint32(data, p, limit);
    if size.None? || size.value.next + size.value.value > limit then None
    else Some((size.value.next, size.value.next + size.value.value))
  }

  function SkipVarint(data: Bytes, p: nat, limit: nat): (r: Option<nat>)
    requires limit <= |data|
    ensures r.Some? ==> p < r.value <= limit
    decreases limit - p
  {
    if p >= limit then None
    else if data[p] >= 128 then SkipVarint(data, p + 1, limit)
    else Some(p + 1)
  }

  function SkipField(data: Bytes, p: nat, limit: nat, wireType: nat): (r: Option<nat>)
    requires p <= limit <= |data|
    ensures r.Some? ==> p <= r.value <= limit
  {
    if wireType == 0 then SkipVarint(data, p, limit)
    else if wireType == 1 then if p + 8 <= limit then Some(p + 8) else None
    else if wireType == 2 then
      var r := DecodeLength(data, p, limit);
      if r.None? then None else Some(r.value.1)
    else if wireType == 5 then if p + 4 <= limit then Some(p + 4) else None
    else None
  }

  // pb_field_iter_find: the next field with the tag, going round from start.
  function FindFrom(fields: seq<Field>, tag: nat, i: nat): (r: Option<nat>)
    requires i <= |fields|
    ensures r.Some? ==> i <= r.value < |fields| && fields[r.value].tag == tag
    decreases |fields| - i
  {
    if i == |fields| then None else if fields[i].tag == tag then Some(i) else FindFrom(fields, tag, i + 1)
  }

  function Find(fields: seq<Field>, tag: nat, start: nat): (r: Option<nat>)
    requires start <= |fields|
    ensures r.Some? ==> r.value < |fields| && fields[r.value].tag == tag
  {
    var r := FindFrom(fields, tag, start);
    if r.Some? then r else FindFrom(fields, tag, 0)
  }

  // ----- messages ---------------------------------------------------------------------------

  // pb_message_set_to_defaults.
  function DefaultValue(k: Kind, initial: Value): Value
    decreases k
  {
    if k.Submessage? then Message(seq(|k.fields|, i requires 0 <= i < |k.fields| => Default(k.fields[i])))
    else initial
  }

  function Default(f: Field): Slot
    decreases f
  {
    match f.rule
    case Required => One(DefaultValue(f.kind, f.initial))
    case Optional => Maybe(false, DefaultValue(f.kind, f.initial))
    case Repeated(_) => Many([])
  }

  // A table that the generator makes: its tags are distinct and short enough,
  // and the initial values fit.
  predicate GoodKind(k: Kind)
    decreases k
  {
    match k
    case Submessage(fields) =>
      && (forall i :: 0 <= i < |fields| ==> GoodField(fields[i]))
      && (forall i, j :: 0 <= i < j < |fields| ==> fields[i].tag != fields[j].tag)
    case Varint(s) => IsSize(s)
    case UVarint(s) => IsSize(s)
    case SVarint(s) => IsSize(s)
    case _ => true
  }

  predicate GoodField(f: Field)
    decreases f
  {
    && 0 < f.tag < 0x2000_0000
    && GoodKind(f.kind)
    && (!f.kind.Submessage? ==> ValueFits(f.kind, f.initial))
  }

  lemma {:induction false} DefaultFits(k: Kind, initial: Value)
    requires GoodKind(k) && (!k.Submessage? ==> ValueFits(k, initial))
    ensures ValueFits(k, DefaultValue(k, initial))
    decreases k
  {
    if k.Submessage? {
      forall i | 0 <= i < |k.fields| ensures SlotFits(k.fields[i], Default(k.fields[i])) {
        DefaultFits(k.fields[i].kind, k.fields[i].initial);
      }
    }
  }

  // A character array holds a string up to its first zero.
  function UpToZero(bytes: Bytes): (r: Bytes)
    ensures |r| <= |bytes| && 0 !in r && (0 !in bytes ==> r == bytes)
  {
    if bytes == [] || bytes[0] == 0 then [] else [bytes[0]] + UpToZero(bytes[1..])
  }

  function DecodeRaw(k: Kind, data: Bytes, p: nat, limit: nat): (r: Option<Parsed<Value>>)
    requires (k.RawBytes? || k.CString?) && limit <= |data|
    ensures r.Some? ==> p < r.value.next <= limit && ValueFits(k, r.value.value) && |r.value.value.bytes| <= k.capacity
  {
    var size := DecodeVarint32(data, p, limit);
    if size.None? then None
    else
      var n := size.value.value;
      var start := size.value.next;
      // A string has a terminating zero
      if n + (if k.CString? then 1 else 0) > k.capacity || start + n > limit then None
      else Some(Parsed(Raw(if k.CString? then UpToZero(data[start..start + n]) else data[start..start + n]), start + n))
  }

  // A value into the place of another, which a message is merged into.
  function DecodeValue(k: Kind, before: Value, data: Bytes, p: nat, limit: nat): (r: Option<Parsed<Value>>)
    requires limit <= |data| && GoodKind(k) && ValueFits(k, before)
    ensures r.Some? ==> p < r.value.next <= limit && ValueFits(k, r.value.value)
    decreases k, limit - p, 0
  {
    match k
    case RawBytes(_) => DecodeRaw(k, data, p, limit)
    case CString(_) => DecodeRaw(k, data, p, limit)
    case Submessage(fields) =>
      var part := DecodeLength(data, p, limit);
      if part.None? then None
      else
        var m := DecodeFields(k, before.slots, data, part.value.0, part.value.1, 0, {});
        if m.None? then None else Some(Parsed(Message(m.value), part.value.1))
    case _ =>
      var n := DecodeScalar(k, data, p, limit);
      if n.None? then None else Some(Parsed(Number(n.value.value), n.value.next))
  }

  predicate AllFit(k: Kind, items: seq<Value>) {
    forall i :: 0 <= i < |items| ==> ValueFits(k, items[i])
  }

  // The items of a packed array, until it ends or is full.
  function DecodePacked(k: Kind, items: seq<Value>, max: nat, data: Bytes, p: nat, end: nat): (r: Option<seq<Value>>)
    requires Packable(k) && GoodKind(k) && end <= |data| && AllFit(k, items)
    ensures r.Some? ==> AllFit(k, r.value) && (|items| <= max ==> |r.value| <= max)
    decreases end - p
  {
    if p >= end then Some(items)
    else if |items| >= max then None
    else
      var n := DecodeScalar(k, data, p, end);
      if n.None? then None else DecodePacked(k, items + [Number(n.value.value)], max, data, n.value.next, end)
  }

  // decode_static_field.
  function DecodeSlot(f: Field, before: Slot, wireType: nat, data: Bytes, p: nat, limit: nat): (r: Option<Parsed<Slot>>)
    requires limit <= |data| && GoodField(f) && SlotFits(f, before)
    ensures r.Some? ==> p < r.value.next <= limit && SlotFits(f, r.value.value)
    decreases f.kind, limit - p, 1
  {
    match f.rule
    case Required =>
      var v := DecodeValue(f.kind, before.value, data, p, limit);
      if v.None? then None else Some(Parsed(One(v.value.value), v.value.next))
    case Optional =>
      var v := DecodeValue(f.kind, before.value, data, p, limit);
      if v.None? then None else Some(Parsed(Maybe(true, v.value.value), v.value.next))
    case Repeated(max) =>
      if wireType == 2 && Packable(f.kind) then
        var part := DecodeLength(data, p, limit);
        if part.None? then None
        else
          var items := DecodePacked(f.kind, before.items, max, data, part.value.0, part.value.1);
          if items.None? then None else Some(Parsed(Many(items.value), part.value.1))
      else if |before.items| >= max then None
      else
        DefaultFits(f.kind, f.initial);
        var v := DecodeValue(f.kind, DefaultValue(f.kind, f.initial), data, p, limit);
        if v.None? then None else Some(Parsed(Many(before.items + [v.value.value]), v.value.next))
  }

  // The number of required fields before a field.
  function RequiredBefore(fields: seq<Field>, n: nat): nat
    requires n <= |fields|
  {
    if n == 0 then 0 else RequiredBefore(fields, n - 1) + if fields[n - 1].rule.Required? then 1 else 0
  }

  const MAX_REQUIRED_FIELDS: nat := 64

  // What a turn of the loop of pb_decode_noinit comes to: the end of the message,
  // a failure, or a field dealt with.
  datatype Turn = End | Failure | Goes(slots: seq<Slot>, next: nat, at: nat, seen: set<nat>)

  // The turn at position p; at is where the field iterator is, and seen are the
  // required fields found.
  function DecodeTurn(k: Kind, slots: seq<Slot>, data: Bytes, p: nat, limit: nat, at: nat, seen: set<nat>): (r: Turn)
    requires k.Submessage? && GoodKind(k) && MessageFits(k.fields, Message(slots)) && limit <= |data|
    requires at <= |k.fields|
    ensures r.Goes? ==> p < r.next <= limit && r.at <= |k.fields| && MessageFits(k.fields, Message(r.slots))
    decreases k, limit - p, 0
  {
    var tag := DecodeVarint32(data, p, limit);
    if p >= limit || (tag.Some? && tag.value.value == 0) then End
    else if tag.None? then Failure
    else
      var found := Find(k.fields, tag.value.value / 8, at);
      if k.fields == [] && tag.value.value < 8 then
        // The iterator stands on the terminator of the table, whose tag is 0 and
        // whose type is that of a required bool
        var n := DecodeVarint32(data, tag.value.next, limit);
        if n.None? then Failure else Goes(slots, n.value.next, at, seen)
      else if found.None? then
        var next := SkipField(data, tag.value.next, limit, tag.value.value % 8);
        if next.None? then Failure else Goes(slots, next.value, at, seen)
      else
        var i := found.value;
        var s := DecodeSlot(k.fields[i], slots[i], tag.value.value % 8, data, tag.value.next, limit);
        if s.None? then Failure
        else
          var seen' := if k.fields[i].rule.Required? then seen + {RequiredBefore(k.fields, i)} else seen;
          Goes(slots[i := s.value.value], s.value.next, i, seen')
  }

  // Only the first 64 required fields are checked.
  predicate HasRequired(fields: seq<Field>, seen: set<nat>) {
    forall r :: 0 <= r < RequiredBefore(fields, |fields|) && r < MAX_REQUIRED_FIELDS ==> r in seen
  }

  // pb_decode_noinit from position p on.
  function DecodeFields(k: Kind, slots: seq<Slot>, data: Bytes, p: nat, limit: nat, at: nat,
                        seen: set<nat>): (r: Option<seq<Slot>>)
    requires k.Submessage? && GoodKind(k) && MessageFits(k.fields, Message(slots)) && limit <= |data|
    requires at <= |k.fields|
    ensures r.Some? ==> MessageFits(k.fields, Message(r.value))
    decreases k, limit - p, 1
  {
    match DecodeTurn(k, slots, data, p, limit, at, seen)
    case End => if HasRequired(k.fields, seen) then Some(slots) else None
    case Failure => None
    case Goes(slots', next, at', seen') => DecodeFields(k, slots', data, next, limit, at', seen')
  }

  // A message to decode into.
  function Defaults(fields: seq<Field>): (r: seq<Slot>)
    requires GoodKind(Submessage(fields))
    ensures MessageFits(fields, Message(r))
  {
    DefaultFits(Submessage(fields), Message([]));
    DefaultValue(Submessage(fields), Message([])).slots
  }

  // pb_decode.
  function Decode(fields: seq<Field>, data: Bytes): (r: Option<Value>)
    requires GoodKind(Submessage(fields))
    ensures r.Some? ==> ValueFits(Submessage(fields), r.value)
  {
    var m := DecodeFields(Submessage(fields), Defaults(fields), data, 0, |data|, 0, {});
    if m.None? then None else Some(Message(m.value))
  }
}
