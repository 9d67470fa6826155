/**
 Fields that come more than once (decode_static_field in pb_decode.c), as in the
 section "Last One Wins" of the Protocol Buffers Encoding specification: the last
 value of a field counts, messages are merged, arrays grow, and decoding one
 message after another is decoding both at once.
 */
module PbMerge {
  import opened Basics
  import Coding
  import opened PbFormat
  import opened PbDecode
  import opened PbRoundTrip
  import opened PbUnknown

  // ----- the state of the loop that does not matter ----------------------------------------

  // The search for a field comes to the same one from anywhere.
  lemma FoundAnywhere(fields: seq<Field>, tag: nat, at: nat, at': nat)
    requires at <= |fields| && at' <= |fields|
    requires forall a, b :: 0 <= a < b < |fields| ==> fields[a].tag != fields[b].tag
    ensures Find(fields, tag, at) == Find(fields, tag, at')
  {
    if i :| 0 <= i < |fields| && fields[i].tag == tag {
      FindIs(fields, tag, at, i);
      FindIs(fields, tag, at', i);
    } else {
      NotFound(fields, tag, at);
      NotFound(fields, tag, at');
    }
  }

  lemma TurnElsewhere(k: Kind, slots: seq<Slot>, data: Bytes, p: nat, limit: nat, at: nat, seen: set<nat>,
                      at': nat, seen': set<nat>)
    requires k.Submessage? && GoodKind(k) && MessageFits(k.fields, Message(slots)) && limit <= |data|
    requires at <= |k.fields| && at' <= |k.fields| && seen <= seen'
    ensures var t := DecodeTurn(k, slots, data, p, limit, at, seen);
      var t' := DecodeTurn(k, slots, data, p, limit, at', seen');
      && (t.End? <==> t'.End?) && (t.Goes? <==> t'.Goes?)
      && (t.Goes? ==> t'.slots == t.slots && t'.next == t.next && t.seen <= t'.seen)
  {
    hide DecodeVarint32, DecodeSlot, SkipField, Find, RequiredBefore, MessageFits;
    var tag := DecodeVarint32(data, p, limit);
    if tag.Some? { FoundAnywhere(k.fields, tag.value.value / 8, at, at'); }
  }

  // Where the iterator is does not matter, and more required fields seen do no harm.
  lemma {:induction false} DecodesElsewhere(k: Kind, slots: seq<Slot>, data: Bytes, p: nat, limit: nat, at: nat,
                                            seen: set<nat>, at': nat, seen': set<nat>)
    requires k.Submessage? && GoodKind(k) && MessageFits(k.fields, Message(slots)) && limit <= |data|
    requires at <= |k.fields| && at' <= |k.fields| && seen <= seen'
    ensures DecodeFields(k, slots, data, p, limit, at, seen).Some? ==>
      DecodeFields(k, slots, data, p, limit, at', seen') == DecodeFields(k, slots, data, p, limit, at, seen)
    decreases limit - p
  {
    hide DecodeTurn;
    TurnElsewhere(k, slots, data, p, limit, at, seen, at', seen');
    var t, t' := DecodeTurn(k, slots, data, p, limit, at, seen), DecodeTurn(k, slots, data, p, limit, at', seen');
    if t.Goes? { DecodesElsewhere(k, t.slots, data, t.next, limit, t.at, t.seen, t'.at, t'.seen); }
  }

  // ----- one message after another ------------------------------------------------------------

  function DecodeInto(k: Kind, slots: seq<Slot>, data: Bytes): (r: Option<seq<Slot>>)
    requires k.Submessage? && GoodKind(k) && MessageFits(k.fields, Message(slots))
    ensures r.Some? ==> MessageFits(k.fields, Message(r.value))
  {
    DecodeFields(k, slots, data, 0, |data|, 0, {})
  }

  // The fields of a come to its end; a zero does not end them before.
  ghost predicate Whole(k: Kind, slots: seq<Slot>, a: Bytes)
    requires k.Submessage? && GoodKind(k) && MessageFits(k.fields, Message(slots))
  {
    After(k, slots, a, 0, |a|, 0, {}, |a|).Some?
  }

  // Decoding b into what a was decoded to is decoding both, one behind the other.
  lemma ConcatenationMerges(k: Kind, slots: seq<Slot>, a: Bytes, b: Bytes)
    requires k.Submessage? && GoodKind(k) && MessageFits(k.fields, Message(slots)) && Whole(k, slots, a)
    ensures var first := DecodeInto(k, slots, a);
      first.Some? ==>
        var both := DecodeInto(k, first.value, b);
        both.Some? ==> DecodeInto(k, slots, a + b) == both
  {
    hide DecodeFields, GoodKind, MessageFits, After, Same;
    var all := a + b;
    ConcatAlike(a, b);
    AfterIsLocal(k, slots, a, 0, |a|, all, 0, |all|, 0, {}, |a|);
    DecodesAfter(k, slots, a, 0, |a|, 0, {}, |a|);
    DecodesAfter(k, slots, all, 0, |all|, 0, {}, |a|);
    var r := After(k, slots, a, 0, |a|, 0, {}, |a|).value;
    NothingLeft(k, r.slots, a, r.at, r.seen);
    FieldsAreLocal(k, r.slots, all, |a|, |all|, b, 0, |b|, r.at, r.seen);
    DecodesElsewhere(k, r.slots, b, 0, |b|, 0, {}, r.at, r.seen);
  }

  lemma ConcatAlike(a: Bytes, b: Bytes)
    ensures Alike(a, 0, |a|, a + b, 0, |a + b|, |a|) && Alike(a + b, |a|, |a + b|, b, 0, |b|, |b|)
  {
    var all := a + b;
    assert a[0..0 + |a|] == a == all[0..0 + |a|];
    assert all[|a|..|a| + |b|] == b == b[0..0 + |b|];
  }

  lemma NothingLeft(k: Kind, slots: seq<Slot>, a: Bytes, at: nat, seen: set<nat>)
    requires k.Submessage? && GoodKind(k) && MessageFits(k.fields, Message(slots)) && at <= |k.fields|
    ensures DecodeFields(k, slots, a, |a|, |a|, at, seen) ==
      if HasRequired(k.fields, seen) then Some(slots) else None
  {
    hide HasRequired;
  }

  // ----- a field that comes again ------------------------------------------------------------------

  // A submessage that comes twice is the message of both parts together.
  lemma SubmessagesMerge(k: Kind, before: Value, a: Bytes, b: Bytes)
    requires k.Submessage? && GoodKind(k) && ValueFits(k, before) && |a| + |b| < Coding.LIMIT32
    requires Whole(k, before.slots, a)
    ensures var first := DecodeValue(k, before, Prefixed(a), 0, |Prefixed(a)|);
      first.Some? ==>
        var second := DecodeValue(k, first.value.value, Prefixed(b), 0, |Prefixed(b)|);
        second.Some? ==>
          DecodeValue(k, before, Prefixed(a + b), 0, |Prefixed(a + b)|) ==
          Some(Parsed(second.value.value, |Prefixed(a + b)|))
  {
    PrefixedDecodes(k, before, a);
    PrefixedDecodes(k, before, a + b);
    var first := DecodeValue(k, before, Prefixed(a), 0, |Prefixed(a)|);
    hide DecodeInto, DecodeValue, Prefixed, Whole, GoodKind;
    if first.Some? {
      PrefixedDecodes(k, first.value.value, b);
      ConcatenationMerges(k, before.slots, a, b);
    }
  }

  lemma BodyAlike(bytes: Bytes)
    ensures var data, q := Prefixed(bytes), |Coding.Varint(|bytes|)|;
      |data| == q + |bytes| && Alike(data, q, |data|, bytes, 0, |bytes|, |bytes|)
  {
    hide Coding.Varint;
    var data, q := Prefixed(bytes), |Coding.Varint(|bytes|)|;
    assert data[q..q + |bytes|] == bytes == bytes[0..0 + |bytes|];
  }

  lemma PrefixedDecodes(k: Kind, before: Value, bytes: Bytes)
    requires k.Submessage? && GoodKind(k) && ValueFits(k, before) && |bytes| < Coding.LIMIT32
    ensures before.Message? && MessageFits(k.fields, before) && before == Message(before.slots)
    ensures var d := DecodeInto(k, before.slots, bytes);
      DecodeValue(k, before, Prefixed(bytes), 0, |Prefixed(bytes)|) ==
        if d.None? then None else Some(Parsed(Message(d.value), |Prefixed(bytes)|))
  {
    var data := Prefixed(bytes);
    WholeHolds(data);
    LengthReads(data, 0, |data|, bytes);
    BodyAlike(bytes);
    hide DecodeLength, DecodeFields, Coding.Varint, MessageFits, GoodKind, Alike, Holds, Prefixed;
    var q := |Coding.Varint(|bytes|)|;
    FieldsAreLocal(k, before.slots, data, q, |data|, bytes, 0, |bytes|, 0, {});
    MessageDecodes(k, before, data, q);
  }

  lemma MessageDecodes(k: Kind, before: Value, data: Bytes, q: nat)
    requires k.Submessage? && GoodKind(k) && ValueFits(k, before) && DecodeLength(data, 0, |data|) == Some((q, |data|))
    ensures before.Message? && MessageFits(k.fields, before) && before == Message(before.slots)
    ensures var d := DecodeFields(k, before.slots, data, q, |data|, 0, {});
      DecodeValue(k, before, data, 0, |data|) == if d.None? then None else Some(Parsed(Message(d.value), |data|))
  {
    hide DecodeLength, DecodeFields, MessageFits;
  }

  // The last of several values counts, whatever was there before.
  lemma LastValueWins(f: Field, before: Slot, other: Slot, wireType: nat, data: Bytes, p: nat, limit: nat)
    requires limit <= |data| && GoodField(f) && SlotFits(f, before) && SlotFits(f, other)
    requires !f.rule.Repeated? && !f.kind.Submessage?
    ensures DecodeSlot(f, before, wireType, data, p, limit) == DecodeSlot(f, other, wireType, data, p, limit)
    ensures var r := DecodeSlot(f, before, wireType, data, p, limit);
      r.Some? && f.rule.Optional? ==> r.value.value.has
  {
    hide DecodeRaw, DecodeScalar, GoodKind, ValueFits;
  }

  // An array keeps its items and gets one more, decoded as into an empty array.
  lemma ArraysGrow(f: Field, before: Slot, wireType: nat, data: Bytes, p: nat, limit: nat)
    requires limit <= |data| && GoodField(f) && SlotFits(f, before) && SlotFits(f, Many([]))
    requires f.rule.Repeated? && (wireType != 2 || !Packable(f.kind)) && |before.items| < f.rule.max
    ensures var alone, r := DecodeSlot(f, Many([]), wireType, data, p, limit),
      DecodeSlot(f, before, wireType, data, p, limit);
      if alone.None? then r == None
      else |alone.value.value.items| == 1
           && r == Some(Parsed(Many(before.items + alone.value.value.items), alone.value.next))
  {
    DefaultFits(f.kind, f.initial);
    var v := DecodeValue(f.kind, DefaultValue(f.kind, f.initial), data, p, limit);
    hide DecodeValue, DefaultValue, ValueFits;
    if v.Some? { assert [] + [v.value.value] == [v.value.value]; }
  }
}
