/** The input stream and the decoding loops of pb_decode.c. */
module PbReader {
  import opened Basics
  import Coding
  import opened PbFormat
  import opened PbDecode

  class IStream {
    const data: Bytes
    // state and bytes_left
    var pos: nat
    var bytesLeft: nat

    ghost predicate Valid()
      reads this
    {
      pos + bytesLeft <= |data|
    }

    ghost function Limit(): nat
      reads this
    {
      pos + bytesLeft
    }

    constructor (data: Bytes, pos: nat, bytesLeft: nat)
      requires pos + bytesLeft <= |data|
      ensures Valid() && this.data == data && this.pos == pos && this.bytesLeft == bytesLeft
    {
      this.data, this.pos, this.bytesLeft := data, pos, bytesLeft;
    }

    // The stream has moved to a position before the same limit.
    twostate predicate MovedTo(p: nat)
      reads this
    {
      Valid() && pos == p && Limit() == old(Limit())
    }

    method Skip(count: nat) returns (ok: bool)
      requires Valid()
      modifies this
      ensures ok <==> old(pos) + count <= old(Limit())
      ensures MovedTo(if ok then old(pos) + count else old(pos))
    {
      if bytesLeft < count { return false; }
      pos, bytesLeft := pos + count, bytesLeft - count;
      return true;
    }

    method ReadByte() returns (ok: bool, byte: Byte)
      requires Valid()
      modifies this
      ensures ok <==> old(bytesLeft) > 0
      ensures ok ==> MovedTo(old(pos) + 1) && byte == data[old(pos)]
      ensures !ok ==> MovedTo(old(pos))
    {
      if bytesLeft == 0 { return false, 0; }
      byte := data[pos];
      pos, bytesLeft := pos + 1, bytesLeft - 1;
      ok := true;
    }

    // What a method must have read; after a failure the stream may be anywhere.
    twostate predicate Read<T(!new)>(new r: Option<Parsed<T>>, ok: bool, new value: T)
      reads this
    {
      && Valid() && Limit() == old(Limit())
      && (ok <==> r.Some?)
      && (ok ==> r.value == Parsed(value, pos))
    }

    method ReadVarint32() returns (ok: bool, value: nat)
      requires Valid()
      modifies this
      ensures Read(DecodeVarint32(data, old(pos), old(Limit())), ok, value)
    {
      hide Or, ShiftLeft, HasHighBits, Low32;
      ghost var limit := Limit();
      value := 0;
      var byte;
      ok, byte := ReadByte();
      if !ok { return; }
      if byte < 128 {
        value := byte;
        return;
      }
      var bitpos: nat := 7;
      var result: nat := byte - 128;
      ghost var all := DecodeVarint32(data, old(pos), limit);
      while byte >= 128
        invariant Valid() && Limit() == limit && result < Coding.LIMIT32
        invariant byte >= 128 ==> all == Varint32Rest(data, pos, limit, bitpos, result)
        invariant byte < 128 ==> all == if bitpos == 35 && HasHighBits(byte) then None else Some(Parsed(result, pos))
        decreases bytesLeft, byte
      {
        ok, byte := ReadByte();
        if !ok { return; }
        if bitpos >= 32 {
          // The varint may have trailing bytes, for a negative number
          var signExtension := if bitpos < 63 then 255 else 1;
          if byte % 128 != 0 && (result / 0x8000_0000 == 0 || byte != signExtension) {
            return false, 0;
          }
        } else {
          result := Low32(Or(result, ShiftLeft(byte % 128, bitpos)));
        }
        bitpos := NextBit(bitpos);
      }
      if bitpos == 35 && HasHighBits(byte) {
        // The last byte was at bit 28, so only its bottom 4 bits fit
        return false, 0;
      }
      value := result;
    }
  
    method ReadVarint() returns (ok: bool, value: nat)
      requires Valid()
      modifies this
      ensures Read(DecodeVarint(data, old(pos), old(Limit())), ok, value)
    {
      hide Coding.ParseVarint, Coding.Power128, Coding.Power2, Times;
      ghost var limit, start := Limit(), pos;
      var bitpos: nat := 0;
      var result: nat := 0;
      ghost var n: nat := 0;
      var byte: Byte := 128;
      value := 0;
      NothingParsed(data, pos, limit);
      while byte >= 128
        invariant Valid() && Limit() == limit && n <= 10 && bitpos == 7 * n
        invariant byte >= 128 ==> Assembled(data, start, limit, result, n, pos)
        invariant byte < 128 ==> Coding.ParseVarint(data, start, limit, 10) == Some((result, pos))
        decreases bytesLeft, byte
      {
        TenthByte(data, pos, limit);
        if bitpos >= 64 { return false, 0; }
        ghost var before := pos;
        ok, byte := ReadByte();
        AssembleStep(data, start, limit, result, n, before);
        if !ok { return; }
        result := result + Times(byte % 128, Coding.Power2(bitpos));
        bitpos := bitpos + 7;
        n := n + 1;
      }
      // Bits past the 64th are lost
      value := result % Coding.LIMIT64;
      ok := true;
    }

    // A length and a substream of that length; this stream goes on after it.
    method MakeStringSubstream() returns (ok: bool, substream: IStream?)
      requires Valid()
      modifies this
      ensures Valid() && Limit() == old(Limit())
      ensures var r := DecodeLength(data, old(pos), old(Limit()));
        && (ok <==> r.Some?)
        && (ok ==> substream != null && fresh(substream) && substream.Valid() && substream.data == data)
        && (ok ==> r.value == (substream.pos, substream.Limit()) && pos == r.value.1)
    {
      hide DecodeVarint32;
      substream := null;
      var size;
      ok, size := ReadVarint32();
      if !ok { return; }
      if bytesLeft < size { return false, null; }
      substream := new IStream(data, pos, size);
      // What is left of the substream is passed over
      pos, bytesLeft := pos + size, bytesLeft - size;
    }

    method SkipVarint() returns (ok: bool)
      requires Valid()
      modifies this
      ensures Valid() && Limit() == old(Limit())
      ensures var r := PbDecode.SkipVarint(data, old(pos), old(Limit())); (ok <==> r.Some?) && (ok ==> pos == r.value)
    {
      ghost var limit := Limit();
      ghost var all := PbDecode.SkipVarint(data, pos, limit);
      var byte: Byte := 128;
      while byte >= 128
        invariant Valid() && Limit() == limit
        invariant all == if byte >= 128 then PbDecode.SkipVarint(data, pos, limit) else Some(pos)
        decreases bytesLeft, byte
      {
        ok, byte := ReadByte();
        if !ok { return; }
      }
      return true;
    }

    method SkipField(wireType: nat) returns (ok: bool)
      requires Valid()
      modifies this
      ensures Valid() && Limit() == old(Limit())
      ensures var r := PbDecode.SkipField(data, old(pos), old(Limit()), wireType);
        (ok <==> r.Some?) && (ok ==> pos == r.value)
    {
      hide DecodeVarint32, PbDecode.SkipVarint;
      if wireType == 0 {
        ok := SkipVarint();
      } else if wireType == 1 {
        ok := Skip(8);
      } else if wireType == 2 {
        var length;
        ok, length := ReadVarint32();
        if ok { ok := Skip(length); }
      } else if wireType == 5 {
        ok := Skip(4);
      } else {
        ok := false;
      }
    }

    method ReadScalar(k: Kind) returns (ok: bool, n: int)
      requires Valid() && Packable(k) && GoodKind(k)
      modifies this
      ensures Read(DecodeScalar(k, data, old(pos), old(Limit())), ok, n)
    {
      hide DecodeVarint32, DecodeVarint, Coding.DecodeFixed32;
      n := 0;
      match k
      case Bool =>
        var v;
        ok, v := ReadVarint32();
        n := if v != 0 then 1 else 0;
      case Fixed32 =>
        ghost var p := pos;
        ok := Skip(4);
        if ok { n := Coding.DecodeFixed32(data, pos - 4); }
      case Fixed64 =>
        ok := Skip(8);
        if ok { n := Coding.DecodeFixed32(data, pos - 8) + Coding.LIMIT32 * Coding.DecodeFixed32(data, pos - 4); }
      case Varint(_) | UVarint(_) | SVarint(_) =>
        var v;
        ok, v := ReadVarint();
        if !ok { return; }
        var sized := Sized(k, v);
        if sized.None? { return false, 0; }
        n := sized.value;
    }

    method ReadRaw(k: Kind) returns (ok: bool, v: Value)
      requires Valid() && (k.RawBytes? || k.CString?)
      modifies this
      ensures Read(DecodeRaw(k, data, old(pos), old(Limit())), ok, v)
    {
      hide DecodeVarint32, UpToZero;
      v := Raw([]);
      var size;
      ok, size := ReadVarint32();
      if !ok { return; }
      if size + (if k.CString? then 1 else 0) > k.capacity { return false, v; }
      ok := Skip(size);
      if !ok { return; }
      var bytes := data[pos - size..pos];
      v := Raw(if k.CString? then UpToZero(bytes) else bytes);
    }

    method ReadValue(k: Kind, before: Value) returns (ok: bool, v: Value)
      requires Valid() && GoodKind(k) && ValueFits(k, before)
      modifies this
      ensures Read(DecodeValue(k, before, data, old(pos), old(Limit())), ok, v)
      decreases k, bytesLeft, 0
    {
      hide DecodeRaw, DecodeScalar, DecodeLength, DecodeFields;
      match k
      case RawBytes(_) => ok, v := ReadRaw(k);
      case CString(_) => ok, v := ReadRaw(k);
      case Submessage(fields) =>
        v := before;
        assert MessageFits(fields, before);
        var substream;
        ok, substream := MakeStringSubstream();
        if !ok { return; }
        assert substream.bytesLeft < old(bytesLeft) by { LengthIsShort(data, old(pos), old(Limit())); }
        var slots;
        ok, slots := substream.ReadFields(k, before.slots);
        v := Message(slots);
      case _ =>
        var n;
        ok, n := ReadScalar(k);
        v := Number(n);
    }

    // The packed array in a substream.
    method ReadPacked(k: Kind, items: seq<Value>, max: nat) returns (ok: bool, r: seq<Value>)
      requires Valid() && Packable(k) && GoodKind(k) && AllFit(k, items)
      modifies this
      ensures var d := DecodePacked(k, items, max, data, old(pos), old(Limit()));
        (ok <==> d.Some?) && (ok ==> d.value == r)
    {
      hide DecodeScalar, ScalarFits;
      ghost var limit := Limit();
      ghost var all := DecodePacked(k, items, max, data, pos, limit);
      r := items;
      while bytesLeft > 0 && |r| < max
        invariant Valid() && Limit() == limit && AllFit(k, r)
        invariant all == DecodePacked(k, r, max, data, pos, limit)
        decreases bytesLeft
      {
        var n;
        ok, n := ReadScalar(k);
        if !ok { return; }
        r := r + [Number(n)];
      }
      ok := bytesLeft == 0;
    }

    // decode_static_field
    method ReadSlot(f: Field, before: Slot, wireType: nat) returns (ok: bool, s: Slot)
      requires Valid() && GoodField(f) && SlotFits(f, before)
      modifies this
      ensures Read(DecodeSlot(f, before, wireType, data, old(pos), old(Limit())), ok, s)
      decreases f.kind, bytesLeft, 1
    {
      hide DecodeValue, DecodePacked, DecodeLength;
      s := before;
      match f.rule
      case Required =>
        var v;
        ok, v := ReadValue(f.kind, before.value);
        s := One(v);
      case Optional =>
        var v;
        ok, v := ReadValue(f.kind, before.value);
        s := Maybe(true, v);
      case Repeated(max) =>
        if wireType == 2 && Packable(f.kind) {
          var substream;
          ok, substream := MakeStringSubstream();
          if !ok { return; }
          var items;
          ok, items := substream.ReadPacked(f.kind, before.items, max);
          s := Many(items);
        } else {
          if |before.items| >= max { return false, s; }
          DefaultFits(f.kind, f.initial);
          var v;
          ok, v := ReadValue(f.kind, DefaultValue(f.kind, f.initial));
          s := Many(before.items + [v]);
        }
    }

    // pb_decode_noinit
    method ReadFields(k: Kind, slots: seq<Slot>) returns (ok: bool, r: seq<Slot>)
      requires Valid() && k.Submessage? && GoodKind(k) && MessageFits(k.fields, Message(slots))
      modifies this
      ensures var d := DecodeFields(k, slots, data, old(pos), old(Limit()), 0, {});
        (ok <==> d.Some?) && (ok ==> d.value == r)
      decreases k, bytesLeft, 0
    {
      hide DecodeVarint32, DecodeSlot, Find, PbDecode.SkipField;
      ghost var limit := Limit();
      ghost var all := DecodeFields(k, slots, data, pos, limit, 0, {});
      r := slots;
      var at: nat, seen: set<nat> := 0, {};
      while bytesLeft > 0
        invariant Valid() && Limit() == limit && MessageFits(k.fields, Message(r)) && at <= |k.fields|
        invariant all == DecodeFields(k, r, data, pos, limit, at, seen)
        invariant bytesLeft <= old(bytesLeft)
        decreases bytesLeft
      {
        ghost var p := pos;
        var tag;
        ok, tag := ReadVarint32();
        if !ok { return; }
        // A zero ends the message
        if tag == 0 { break; }
        var found := FindField(k.fields, tag / 8, at);
        if k.fields == [] && tag < 8 {
          // The terminator of an empty table is taken for a required bool
          var n;
          ok, n := ReadVarint32();
          if !ok { return; }
        } else if found.None? {
          ok := SkipField(tag % 8);
          if !ok { return; }
        } else {
          at := found.value;
          var f := k.fields[at];
          if f.rule.Required? { seen := seen + {RequiredBefore(k.fields, at)}; }
          var s;
          ok, s := ReadSlot(f, r[at], tag % 8);
          if !ok { return; }
          r := r[at := s];
        }
      }
      ok := forall i :: 0 <= i < RequiredBefore(k.fields, |k.fields|) && i < MAX_REQUIRED_FIELDS ==> i in seen;
    }
  }

  // pb_field_iter_find goes round the table from where the iterator is.
  method FindField(fields: seq<Field>, tag: nat, start: nat) returns (r: Option<nat>)
    requires start <= |fields|
    ensures r == Find(fields, tag, start)
  {
    var pos := start;
    while pos < |fields|
      invariant start <= pos <= |fields| && FindFrom(fields, tag, start) == FindFrom(fields, tag, pos)
    {
      if fields[pos].tag == tag { return Some(pos); }
      pos := pos + 1;
    }
    pos := 0;
    while pos < start
      invariant pos <= start && FindFrom(fields, tag, 0) == FindFrom(fields, tag, pos)
    {
      if fields[pos].tag == tag { return Some(pos); }
      pos := pos + 1;
    }
    return None;
  }

  lemma LengthIsShort(data: Bytes, p: nat, limit: nat)
    requires limit <= |data| && DecodeLength(data, p, limit).Some?
    ensures p < DecodeLength(data, p, limit).value.0
  {
  }

  function Times(a: nat, b: nat): nat { a * b }

  // The whole is what was read so far and the rest, in units.
  ghost predicate Combines(all: Option<(nat, nat)>, result: nat, unit: nat, rest: Option<(nat, nat)>) {
    all == if rest.None? then None else Some((result + Times(rest.value.0, unit), rest.value.1))
  }

  // Parsing from the start is parsing the rest, on top of what n bytes gave.
  ghost predicate Assembled(data: Bytes, start: nat, limit: nat, result: nat, n: nat, pos: nat)
    requires limit <= |data|
  {
    && n <= 10
    && Combines(Coding.ParseVarint(data, start, limit, 10), result, Coding.Power128(n),
       Coding.ParseVarint(data, pos, limit, 10 - n))
  }

  lemma CombineStep(all: Option<(nat, nat)>, result: nat, unit: nat, low: nat, rest: Option<(nat, nat)>)
    requires Combines(all, result, unit, if rest.None? then None else Some((low + 128 * rest.value.0, rest.value.1)))
    ensures Combines(all, result + Times(low, unit), 128 * unit, rest)
  {
    if rest.Some? { Distribute(result, unit, low, rest.value.0); }
    hide Times;
  }

  lemma NothingParsed(data: Bytes, start: nat, limit: nat)
    requires limit <= |data|
    ensures Assembled(data, start, limit, 0, 0, start)
  {
    assert Coding.Power128(0) == 1;
    hide Coding.ParseVarint;
  }

  lemma TenthByte(data: Bytes, pos: nat, limit: nat)
    requires limit <= |data|
    ensures Coding.ParseVarint(data, pos, limit, 0) == None
  {
  }

  lemma {:induction false} PowerIs(n: nat)
    ensures Coding.Power2(7 * n) == Coding.Power128(n)
  {
    if n > 0 {
      PowerIs(n - 1);
      var m := 7 * (n - 1);
      assert Coding.Power2(m + 7) == 2 * Coding.Power2(m + 6);
      assert Coding.Power2(m + 6) == 2 * Coding.Power2(m + 5);
      assert Coding.Power2(m + 5) == 2 * Coding.Power2(m + 4);
      assert Coding.Power2(m + 4) == 2 * Coding.Power2(m + 3);
      assert Coding.Power2(m + 3) == 2 * Coding.Power2(m + 2);
      assert Coding.Power2(m + 2) == 2 * Coding.Power2(m + 1);
    }
  }

  lemma AssembleStep(data: Bytes, start: nat, limit: nat, result: nat, n: nat, pos: nat)
    requires limit <= |data| && n < 10 && Assembled(data, start, limit, result, n, pos)
    ensures pos >= limit ==> Coding.ParseVarint(data, start, limit, 10) == None
    ensures pos < limit && data[pos] >= 128 ==>
      Assembled(data, start, limit, result + Times(data[pos] % 128, Coding.Power2(7 * n)), n + 1, pos + 1)
    ensures pos < limit && data[pos] < 128 ==>
      Coding.ParseVarint(data, start, limit, 10) ==
        Some((result + Times(data[pos] % 128, Coding.Power2(7 * n)), pos + 1))
  {
    PowerIs(n);
    if pos >= limit {
      OneByte(data, pos, limit, 10 - n);
    } else if data[pos] >= 128 {
      hide Assembled, Coding.ParseVarint, Coding.Power128, Coding.Power2;
      AssembleMore(data, start, limit, result, n, pos);
    } else {
      hide Assembled, Coding.ParseVarint, Coding.Power128, Coding.Power2;
      AssembleLast(data, start, limit, result, n, pos);
    }
  }

  lemma AssembleLast(data: Bytes, start: nat, limit: nat, result: nat, n: nat, pos: nat)
    requires pos < limit <= |data| && n < 10 && Assembled(data, start, limit, result, n, pos) && data[pos] < 128
    ensures Coding.ParseVarint(data, start, limit, 10) ==
      Some((result + Times(data[pos] % 128, Coding.Power128(n)), pos + 1))
  {
    OneByte(data, pos, limit, 10 - n);
    hide Coding.ParseVarint, Coding.Power128, Times;
    assert data[pos] % 128 == data[pos];
  }

  lemma AssembleMore(data: Bytes, start: nat, limit: nat, result: nat, n: nat, pos: nat)
    requires pos < limit <= |data| && n < 10 && Assembled(data, start, limit, result, n, pos) && data[pos] >= 128
    ensures Assembled(data, start, limit, result + Times(data[pos] % 128, Coding.Power128(n)), n + 1, pos + 1)
  {
    NextPower(n);
    OneByte(data, pos, limit, 10 - n);
    LowBits(data[pos]);
    hide Coding.ParseVarint, Coding.Power128, Times, Combines;
    CombineStep(Coding.ParseVarint(data, start, limit, 10), result, Coding.Power128(n), data[pos] - 128,
                Coding.ParseVarint(data, pos + 1, limit, 9 - n));
  }

  lemma NextPower(n: nat)
    ensures Coding.Power128(n + 1) == 128 * Coding.Power128(n)
  {
  }

  lemma LowBits(byte: Byte)
    requires byte >= 128
    ensures byte % 128 == byte - 128
  {
  }

  lemma OneByte(data: Bytes, pos: nat, limit: nat, bytes: nat)
    requires limit <= |data| && bytes > 0
    ensures Coding.ParseVarint(data, pos, limit, bytes) ==
      if pos >= limit then None
      else if data[pos] < 128 then Some((data[pos] as int, pos + 1))
      else
        var rest := Coding.ParseVarint(data, pos + 1, limit, bytes - 1);
        if rest.None? then None else Some((data[pos] - 128 + 128 * rest.value.0, rest.value.1))
  {
  }

  lemma Distribute(result: nat, unit: nat, low: nat, rest: nat)
    ensures result + Times(low + 128 * rest, unit) == result + Times(low, unit) + Times(rest, 128 * unit)
  {
  }
}
