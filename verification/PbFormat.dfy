/**
 nanopb messages (pb.h) and their encoding, as in the Protocol Buffers Encoding
 specification ("Base 128 Varints", "Signed Integers", "Packed Repeated Fields").

 A field table describes a C structure; a message is its contents.  Modelled are
 statically allocated required, optional and repeated fields.
 */
module PbFormat {
  import opened Basics
  import opened Coding

  // The types of data; size is in bytes.
  datatype Kind =
    | Bool
    | Varint(size: nat)
    | UVarint(size: nat)
    | SVarint(size: nat)
    | Fixed32
    | Fixed64
    | RawBytes(capacity: nat)
    | CString(capacity: nat)
    | Submessage(fields: seq<Field>)

  datatype Rule = Required | Optional | Repeated(max: nat)

  // initial is what a field that is not in the input is set to.
  datatype Field = Field(tag: nat, kind: Kind, rule: Rule, initial: Value)

  // Raw is what a byte array holds, or a character array before its first zero.
  datatype Value = Number(n: int) | Raw(bytes: Bytes) | Message(slots: seq<Slot>)

  datatype Slot = One(value: Value) | Maybe(has: bool, value: Value) | Many(items: seq<Value>)

  // PB_LTYPE_LAST_PACKABLE
  predicate Packable(k: Kind) {
    !k.RawBytes? && !k.CString? && !k.Submessage?
  }

  function WireType(k: Kind): nat {
    match k
    case Bool | Varint(_) | UVarint(_) | SVarint(_) => 0
    case Fixed64 => 1
    case RawBytes(_) | CString(_) | Submessage(_) => 2
    case Fixed32 => 5
  }

  // ----- what C structures can hold ---------------------------------------------------

  function Range(size: nat): nat {
    if size == 1 then 0x100 else if size == 2 then 0x1_0000 else if size == 4 then LIMIT32 else LIMIT64
  }

  predicate IsSize(size: nat) { size == 1 || size == 2 || size == 4 || size == 8 }

  predicate ScalarFits(k: Kind, n: int)
    requires Packable(k)
  {
    match k
    case Bool => n == 0 || n == 1
    case Varint(s) => IsSize(s) && -(Range(s) / 2) <= n < Range(s) / 2
    case SVarint(s) => IsSize(s) && -(Range(s) / 2) <= n < Range(s) / 2
    case UVarint(s) => IsSize(s) && 0 <= n < Range(s)
    case Fixed32 => 0 <= n < LIMIT32
    case Fixed64 => 0 <= n < LIMIT64
  }

  predicate ValueFits(k: Kind, v: Value)
    decreases v
  {
    match k
    case RawBytes(_) => v.Raw? && |v.bytes| < LIMIT32
    case CString(c) => v.Raw? && |v.bytes| <= c && 0 !in v.bytes
    case Submessage(fields) => v.Message? && MessageFits(fields, v)
    case _ => v.Number? && ScalarFits(k, v.n)
  }

  predicate SlotFits(f: Field, s: Slot)
    decreases s
  {
    match f.rule
    case Required => s.One? && ValueFits(f.kind, s.value)
    case Optional => s.Maybe? && ValueFits(f.kind, s.value)
    case Repeated(_) => s.Many? && forall i :: 0 <= i < |s.items| ==> ValueFits(f.kind, s.items[i])
  }

  predicate MessageFits(fields: seq<Field>, m: Value)
    requires m.Message?
    decreases m, 0
  {
    |m.slots| == |fields| && forall i :: 0 <= i < |fields| ==> SlotFits(fields[i], m.slots[i])
  }

  // ----- the encoding --------------------------------------------------------------------

  function ZigZag(n: int): nat { if n < 0 then -2 * n - 1 else 2 * n }

  function EncodeScalar(k: Kind, n: int): Bytes
    requires Packable(k) && ScalarFits(k, n)
  {
    match k
    case Varint(_) => Coding.Varint(n % LIMIT64)
    case SVarint(_) => Coding.Varint(ZigZag(n))
    case Fixed32 => Coding.Fixed32(n)
    case Fixed64 => Coding.Fixed64(n)
    case Bool | UVarint(_) => Coding.Varint(n)
  }

  function Tag(tag: nat, wireType: nat): Bytes { Coding.Varint(tag * 8 + wireType) }

  function Prefixed(bytes: Bytes): Bytes { Coding.Varint(|bytes|) + bytes }

  function Join(a: Option<Bytes>, b: Option<Bytes>): Option<Bytes> {
    if a.None? || b.None? then None else Some(a.value + b.value)
  }

  // None if a byte array or a repeated field is fuller than it can be.
  function EncodeValue(k: Kind, v: Value): Option<Bytes>
    requires ValueFits(k, v)
    decreases v
  {
    match k
    case RawBytes(c) => if |v.bytes| > c then None else Some(Prefixed(v.bytes))
    case CString(_) => Some(Prefixed(v.bytes))
    case Submessage(fields) =>
      var body := EncodeSlots(fields, v, |fields|);
      if body.None? then None else Some(Prefixed(body.value))
    case _ => Some(EncodeScalar(k, v.n))
  }

  // The first n items of a packed array.
  function EncodePacked(k: Kind, s: Slot, n: nat): Bytes
    requires Packable(k) && s.Many? && n <= |s.items|
    requires forall i :: 0 <= i < |s.items| ==> ValueFits(k, s.items[i])
  {
    if n == 0 then [] else EncodePacked(k, s, n - 1) + EncodeScalar(k, s.items[n - 1].n)
  }

  // The first n items of an array, each with its tag.
  function EncodeItems(f: Field, s: Slot, n: nat): Option<Bytes>
    requires f.rule.Repeated? && SlotFits(f, s) && n <= |s.items|
    decreases s, n
  {
    if n == 0 then Some([])
    else Join(EncodeItems(f, s, n - 1), Join(Some(Tag(f.tag, WireType(f.kind))), EncodeValue(f.kind, s.items[n - 1])))
  }

  function EncodeSlot(f: Field, s: Slot): Option<Bytes>
    requires SlotFits(f, s)
    decreases s, |if s.Many? then s.items else []| + 1
  {
    match f.rule
    case Required => Join(Some(Tag(f.tag, WireType(f.kind))), EncodeValue(f.kind, s.value))
    case Optional => if s.has then Join(Some(Tag(f.tag, WireType(f.kind))), EncodeValue(f.kind, s.value)) else Some([])
    case Repeated(max) =>
      if |s.items| == 0 then Some([])
      else if |s.items| > max then None
      else if Packable(f.kind) then Some(Tag(f.tag, 2) + Prefixed(EncodePacked(f.kind, s, |s.items|)))
      else EncodeItems(f, s, |s.items|)
  }

  // The first n fields of a message.
  function EncodeSlots(fields: seq<Field>, m: Value, n: nat): Option<Bytes>
    requires m.Message? && MessageFits(fields, m) && n <= |fields|
    decreases m, n
  {
    if n == 0 then Some([])
    else Join(EncodeSlots(fields, m, n - 1), EncodeSlot(fields[n - 1], m.slots[n - 1]))
  }

  function Encode(fields: seq<Field>, m: Value): Option<Bytes>
    requires m.Message? && MessageFits(fields, m)
  {
    EncodeSlots(fields, m, |fields|)
  }
}
