/**
 Encoding to a stream (pb_encode.c).  A submessage is encoded twice: first to a
 stream that only counts, for its length, and then to a stream that may take no
 more than that.
 */
module PbEncode {
  import opened Basics
  import Coding
  import opened PbFormat

  // What must hold when bytes, if there are any, have been written to a stream
  // with the given limit: all is well if and only if they fit.
  ghost predicate Encodable(bytes: Option<Bytes>, sizing: bool, written: nat, maxSize: nat) {
    bytes.Some? && (sizing || written + |bytes.value| <= maxSize)
  }

  // The loop of pb_encode_varint.
  method VarintBytes(v: nat) returns (buffer: Bytes)
    ensures buffer == Coding.Varint(v)
  {
    hide Coding.Varint;
    VarintStep(v);
    if v < 128 { return [v]; }
    buffer := [];
    var value: nat := v;
    ghost var front: Bytes, last: Byte := [], 0;
    while value > 0
      invariant value > 0 ==> Coding.Varint(v) == buffer + Coding.Varint(value)
      invariant value == 0 ==> last < 128 && buffer == front + [last + 128] && Coding.Varint(v) == front + [last]
    {
      VarintStep(value);
      front, last := buffer, value % 128;
      buffer := buffer + [value % 128 + 128];
      value := value / 128;
    }
    // Unset top bit on last byte
    buffer := buffer[..|buffer| - 1] + [buffer[|buffer| - 1] - 128];
  }

  lemma VarintStep(v: nat)
    ensures Coding.Varint(v) == if v < 128 then [v] else [v % 128 + 128] + Coding.Varint(v / 128)
  {
  }

  class OStream {
    // A stream without a callback only counts.
    const sizing: bool
    const maxSize: nat
    var written: nat
    var data: Bytes

    ghost predicate Valid()
      reads this
    {
      !sizing ==> written <= maxSize
    }

    constructor (sizing: bool, maxSize: nat, data: Bytes)
      ensures Valid() && this.sizing == sizing && this.maxSize == maxSize && written == 0 && this.data == data
    {
      this.sizing, this.maxSize, this.written, this.data := sizing, maxSize, 0, data;
    }

    twostate predicate Wrote(new bytes: Option<Bytes>, ok: bool)
      reads this
    {
      && Valid()
      && (ok <==> Encodable(bytes, sizing, old(written), maxSize))
      && (ok ==> written == old(written) + |bytes.value|)
      && (ok && !sizing ==> data == old(data) + bytes.value)
    }

    // pb_write
    method Write(buf: Bytes) returns (ok: bool)
      requires Valid()
      modifies this
      ensures Wrote(Some(buf), ok)
    {
      if |buf| > 0 && !sizing {
        if written + |buf| > maxSize { return false; }
        data := data + buf;
      }
      written := written + |buf|;
      return true;
    }

    // pb_write without data, on a stream that only counts
    method Skip(size: nat)
      requires sizing
      modifies this
      ensures written == old(written) + size && data == old(data)
    {
      written := written + size;
    }

    method WriteVarint(v: nat) returns (ok: bool)
      requires Valid()
      modifies this
      ensures Wrote(Some(Coding.Varint(v)), ok)
    {
      var buffer := VarintBytes(v);
      ok := Write(buffer);
    }

    method WriteTag(tag: nat, wireType: nat) returns (ok: bool)
      requires Valid()
      modifies this
      ensures Wrote(Some(Tag(tag, wireType)), ok)
    {
      ok := WriteVarint(tag * 8 + wireType);
    }

    method WriteScalar(k: Kind, n: int) returns (ok: bool)
      requires Valid() && Packable(k) && ScalarFits(k, n)
      modifies this
      ensures Wrote(Some(EncodeScalar(k, n)), ok)
    {
      match k
      case Varint(_) => ok := WriteVarint(n % Coding.LIMIT64);
      case SVarint(_) => ok := WriteVarint(ZigZag(n));
      case Fixed32 => ok := Write(Coding.Fixed32(n));
      case Fixed64 => ok := Write(Coding.Fixed64(n));
      case Bool => ok := WriteVarint(n);
      case UVarint(_) => ok := WriteVarint(n);
    }

    // pb_encode_string
    method WriteString(bytes: Bytes) returns (ok: bool)
      requires Valid()
      modifies this
      ensures Wrote(Some(Prefixed(bytes)), ok)
    {
      ok := WriteVarint(|bytes|);
      if !ok { return; }
      ok := Write(bytes);
    }
  
    // pb_encode: the fields one after another.
    method WriteMessage(fields: seq<Field>, m: Value) returns (ok: bool)
      requires Valid() && m.Message? && MessageFits(fields, m)
      modifies this
      ensures Wrote(EncodeSlots(fields, m, |fields|), ok)
      decreases m, 1, 0
    {
      hide EncodeSlots, EncodeSlot;
      NoSlots(fields, m);
      for i := 0 to |fields|
        invariant Wrote(EncodeSlots(fields, m, i), true)
      {
        assert SlotFits(fields[i], m.slots[i]);
        NextSlot(fields, m, i);
        ok := WriteField(fields[i], m.slots[i]);
        if !ok {
          SlotsGrow(fields, m, i + 1, |fields|);
          return;
        }
      }
      return true;
    }

    // encode_basic_field
    method WriteField(f: Field, s: Slot) returns (ok: bool)
      requires Valid() && SlotFits(f, s)
      modifies this
      ensures Wrote(EncodeSlot(f, s), ok)
      decreases s, 1, 0
    {
      hide EncodeValue, EncodeItems, Tag;
      match f.rule
      case Required => ok := WriteTagged(f, s.value);
      case Optional =>
        ok := true;
        if s.has { ok := WriteTagged(f, s.value); }
      case Repeated(max) =>
        if |s.items| == 0 { return true; }
        if |s.items| > max { return false; }
        if Packable(f.kind) {
          ok := WritePacked(f, s);
        } else {
          ok := WriteItems(f, s);
        }
    }

    method WriteTagged(f: Field, v: Value) returns (ok: bool)
      requires Valid() && ValueFits(f.kind, v)
      modifies this
      ensures Wrote(Join(Some(Tag(f.tag, WireType(f.kind))), EncodeValue(f.kind, v)), ok)
      decreases v, 3, 0
    {
      hide EncodeValue, Tag;
      ok := WriteTag(f.tag, WireType(f.kind));
      if ok { ok := WriteValue(f.kind, v); }
    }

    method WriteValue(k: Kind, v: Value) returns (ok: bool)
      requires Valid() && ValueFits(k, v)
      modifies this
      ensures Wrote(EncodeValue(k, v), ok)
      decreases v, 2, 0
    {
      hide EncodeScalar, Prefixed;
      match k
      case RawBytes(c) =>
        ok := false;
        if |v.bytes| <= c { ok := WriteString(v.bytes); }
      case CString(_) => ok := WriteString(v.bytes);
      case Submessage(fields) =>
        assert MessageFits(fields, v);
        ok := WriteSubmessage(fields, v);
      case _ => ok := WriteScalar(k, v.n);
    }

    // A static array of a type that is not packed
    method WriteItems(f: Field, s: Slot) returns (ok: bool)
      requires Valid() && f.rule.Repeated? && SlotFits(f, s)
      modifies this
      ensures Wrote(EncodeItems(f, s, |s.items|), ok)
      decreases s, 0, 0
    {
      hide EncodeValue, Tag;
      for i := 0 to |s.items|
        invariant Wrote(EncodeItems(f, s, i), true)
      {
        ok := WriteTagged(f, s.items[i]);
        if !ok {
          ItemsGrow(f, s, i + 1, |s.items|);
          return;
        }
      }
      return true;
    }

    // The items of a packed array, without its length
    method WriteScalars(k: Kind, s: Slot) returns (ok: bool)
      requires Valid() && Packable(k) && s.Many? && forall i :: 0 <= i < |s.items| ==> ValueFits(k, s.items[i])
      modifies this
      ensures Wrote(Some(EncodePacked(k, s, |s.items|)), ok)
    {
      hide EncodeScalar;
      for i := 0 to |s.items|
        invariant Wrote(Some(EncodePacked(k, s, i)), true)
      {
        ok := WriteScalar(k, s.items[i].n);
        if !ok {
          PackedGrows(k, s, i + 1, |s.items|);
          return;
        }
      }
      return true;
    }

    method WritePacked(f: Field, s: Slot) returns (ok: bool)
      requires Valid() && SlotFits(f, s) && f.rule.Repeated? && Packable(f.kind)
      modifies this
      ensures Wrote(Some(Tag(f.tag, 2) + Prefixed(EncodePacked(f.kind, s, |s.items|))), ok)
    {
      hide EncodePacked, Tag, Coding.Varint;
      ok := WriteTag(f.tag, 2);
      if !ok { return; }
      // Determine the total size of packed array
      var size: nat;
      if f.kind.Fixed32? {
        FixedSize(f.kind, s, |s.items|, 4);
        size := 4 * |s.items|;
      } else if f.kind.Fixed64? {
        FixedSize(f.kind, s, |s.items|, 8);
        size := 8 * |s.items|;
      } else {
        var counter := new OStream(true, 0, []);
        var counted := counter.WriteScalars(f.kind, s);
        size := counter.written;
      }
      ok := WriteVarint(size);
      if !ok { return; }
      if sizing {
        Skip(size);
        return;
      }
      ok := WriteScalars(f.kind, s);
    }

    // pb_encode_submessage
    method WriteSubmessage(fields: seq<Field>, m: Value) returns (ok: bool)
      requires Valid() && m.Message? && MessageFits(fields, m)
      modifies this
      ensures var body := EncodeSlots(fields, m, |fields|);
        Wrote(if body.None? then None else Some(Prefixed(body.value)), ok)
      decreases m, 1, 1
    {
      hide EncodeSlots, Coding.Varint;
      // First calculate the message size using a non-writing substream
      var counter := new OStream(true, 0, []);
      ok := counter.WriteMessage(fields, m);
      if !ok { return; }
      var size := counter.written;
      ok := WriteVarint(size);
      if !ok { return; }
      if sizing {
        Skip(size);
        return;
      }
      if written + size > maxSize { return false; }
      // The substream takes no more than the first pass counted
      var substream := new OStream(false, size, data);
      ok := substream.WriteMessage(fields, m);
      written := written + substream.written;
      data := substream.data;
      // The size of the submessage has not changed
      assert ok && substream.written == size;
    }
  }

  lemma NoSlots(fields: seq<Field>, m: Value)
    requires m.Message? && MessageFits(fields, m)
    ensures EncodeSlots(fields, m, 0) == Some([])
  {
  }

  lemma NextSlot(fields: seq<Field>, m: Value, i: nat)
    requires m.Message? && MessageFits(fields, m) && i < |fields| && SlotFits(fields[i], m.slots[i])
    ensures EncodeSlots(fields, m, i + 1) == Join(EncodeSlots(fields, m, i), EncodeSlot(fields[i], m.slots[i]))
  {
  }

  lemma {:induction false} SlotsGrow(fields: seq<Field>, m: Value, i: nat, n: nat)
    requires m.Message? && MessageFits(fields, m) && i <= n <= |fields|
    ensures EncodeSlots(fields, m, n).Some? ==>
      EncodeSlots(fields, m, i).Some? && |EncodeSlots(fields, m, i).value| <= |EncodeSlots(fields, m, n).value|
  {
    hide EncodeSlot;
    if i < n { SlotsGrow(fields, m, i, n - 1); }
  }

  lemma {:induction false} ItemsGrow(f: Field, s: Slot, i: nat, n: nat)
    requires f.rule.Repeated? && SlotFits(f, s) && i <= n <= |s.items|
    ensures EncodeItems(f, s, n).Some? ==>
      EncodeItems(f, s, i).Some? && |EncodeItems(f, s, i).value| <= |EncodeItems(f, s, n).value|
  {
    hide EncodeValue, Tag;
    if i < n { ItemsGrow(f, s, i, n - 1); }
  }

  lemma {:induction false} PackedGrows(k: Kind, s: Slot, i: nat, n: nat)
    requires Packable(k) && s.Many? && i <= n <= |s.items|
    requires forall j :: 0 <= j < |s.items| ==> ValueFits(k, s.items[j])
    ensures |EncodePacked(k, s, i)| <= |EncodePacked(k, s, n)|
  {
    hide EncodeScalar;
    if i < n { PackedGrows(k, s, i, n - 1); }
  }

  lemma {:induction false} FixedSize(k: Kind, s: Slot, n: nat, size: nat)
    requires s.Many? && n <= |s.items| && ((k.Fixed32? && size == 4) || (k.Fixed64? && size == 8))
    requires forall j :: 0 <= j < |s.items| ==> ValueFits(k, s.items[j])
    ensures |EncodePacked(k, s, n)| == size * n
  {
    hide EncodeScalar;
    if n > 0 {
      FixedSize(k, s, n - 1, size);
      FixedScalarSize(k, s.items[n - 1].n);
      assert size * n == size * (n - 1) + size;
    }
  }

  lemma FixedScalarSize(k: Kind, n: int)
    requires (k.Fixed32? || k.Fixed64?) && ScalarFits(k, n)
    ensures |EncodeScalar(k, n)| == if k.Fixed32? then 4 else 8
  {
  }
}
