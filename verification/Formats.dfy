/**
 The bytes of the formats, written out: the tags of version_edit.cc and of
 write_batch.cc, the record types of log_format.h, the internal key of dbformat.h,
 and the examples of the Protocol Buffers Encoding specification.
 */
module Formats {
  import opened Basics
  import opened Coding
  import opened InternalKeys
  import VersionEdits
  import WriteBatches
  import ManifestRecovery
  import LogFormat
  import BlockFormat
  import PbFormat
  import PbDecode

  // The low byte comes first; the last byte of a base-128 number is below 128.
  lemma Numbers()
    ensures Fixed32(0x04030201) == [1, 2, 3, 4] && Fixed64(0x0807060504030201) == [1, 2, 3, 4, 5, 6, 7, 8]
    ensures Varint(0) == [0] && Varint(127) == [127] && Varint(128) == [128, 1] && Varint(300) == [172, 2]
  {
    assert Varint(1) == [1] && Varint(2) == [2];
  }

  // ----- manifest records -------------------------------------------------------------------

  // The tag of each item and what follows it.
  lemma ItemBytes(item: VersionEdits.Item)
    ensures VersionEdits.EncodeItem(item) ==
      match item
      case Comparator(name) => [1] + Prefixed(name)
      case LogNumber(n) => [2] + PutVarint64(n)
      case NextFileNumber(n) => [3] + PutVarint64(n)
      case LastSequence(n) => [4] + PutVarint64(n)
      case CompactPointer(level, key) => [5] + (PutVarint32(level) + Prefixed(key))
      case DeletedFile(level, n) => [6] + (PutVarint32(level) + PutVarint64(n))
      case NewFile(level, f) =>
        [7] + (PutVarint32(level)
               + (PutVarint64(f.number) + (PutVarint64(f.size) + (Prefixed(f.smallest) + Prefixed(f.largest)))))
      case PrevLogNumber(n) => [9] + PutVarint64(n)
  {
    var tag := VersionEdits.TagOf(item);
    assert PutVarint32(tag) == [tag];
    hide PutVarint32, PutVarint64, Prefixed;
  }

  // Tag 8 is no longer used, and neither is it understood.
  lemma TagsKnown(tag: nat)
    ensures VersionEdits.KnownTag(tag) <==> tag in {1, 2, 3, 4, 5, 6, 7, 9}
  {
  }

  // ----- write batches ------------------------------------------------------------------------

  // The sequence number, the count, and each operation behind its value type.
  lemma BatchLayout(sequence: nat, k: Bytes, v: Bytes, deleted: Bytes)
    ensures WriteBatches.BatchBytes(sequence, [WriteBatches.PutOp(k, v), WriteBatches.DeleteOp(deleted)]) ==
      Fixed64(sequence) + ([2, 0, 0, 0] + (([1] + (Prefixed(k) + Prefixed(v))) + ([0] + Prefixed(deleted))))
  {
    var put, del := WriteBatches.PutOp(k, v), WriteBatches.DeleteOp(deleted);
    assert Fixed32(2) == [2, 0, 0, 0];
    WriteBatches.OneOp(put);
    assert [put, del][..1] == [put];
    assert WriteBatches.EncodeOps([put, del]) == WriteBatches.EncodeOp(put) + WriteBatches.EncodeOp(del);
    hide Prefixed, Fixed64, Fixed32, WriteBatches.EncodeOps;
  }

  // ----- internal keys ---------------------------------------------------------------------------

  // The sequence number and the type share eight bytes behind the user key.
  lemma KeyLayout(user: Bytes)
    ensures ManifestRecovery.InternalKeyBytes(user, 0x030201, TypeValue) == user + [1, 1, 2, 3, 0, 0, 0, 0]
    ensures ManifestRecovery.InternalKeyBytes(user, 0x030201, TypeDeletion) == user + [0, 1, 2, 3, 0, 0, 0, 0]
  {
    assert Fixed64(0x03020101) == [1, 1, 2, 3, 0, 0, 0, 0] && Fixed64(0x03020100) == [0, 1, 2, 3, 0, 0, 0, 0];
  }

  // ----- logs ----------------------------------------------------------------------------------------

  // A record that fits in its block is one fragment: checksum, length, type 1, data.
  lemma ShortRecordLayout(crc: LogFormat.Checksum, data: Bytes)
    requires |data| <= 32768 - 7
    ensures LogFormat.EncodeAll(crc, [data]) ==
      LogFormat.CrcBytes(crc([1] + data)) + ([|data| % 256, |data| / 256, 1] + data)
  {
    assert [data][..0] == [] && LogFormat.EncodeAll(crc, []) == [];
    assert LogFormat.EncodeAll(crc, [data]) == [] + LogFormat.Encode(crc, 0, data, true);
    LogFormat.EncodeStep(crc, 0, data, true);
    assert data[..|data|] == data && LogFormat.Zeros(0) == [];
  }

  // One that needs two blocks is a fragment of type 2, which fills the first, and
  // one of type 4.
  lemma LongRecordLayout(crc: LogFormat.Checksum, data: Bytes)
    requires 32761 < |data| <= 2 * 32761
    ensures LogFormat.Encode(crc, 0, data, true) ==
      LogFormat.Physical(crc, 2, data[..32761]) + LogFormat.Physical(crc, 4, data[32761..])
  {
    hide LogFormat.Encode, LogFormat.Physical;
    var rest := data[32761..];
    assert rest[..|rest|] == rest && LogFormat.Zeros(0) == [];
    assert LogFormat.FragmentLength(0, |data|) == 32761 && LogFormat.FragmentLength(0, |rest|) == |rest|;
    FirstFragmentIs(crc, data, true, 32761);
    FirstFragmentIs(crc, rest, false, |rest|);
    LogFormat.EncodeStep(crc, 0, data, true);
    LogFormat.EncodeAtBlockEnd(crc, rest, false);
    LogFormat.EncodeStep(crc, 0, rest, false);
    hide LogFormat.FirstFragment;
  }

  lemma FirstFragmentIs(crc: LogFormat.Checksum, data: Bytes, begin: bool, n: nat)
    requires LogFormat.FragmentLength(0, |data|) == n
    ensures n <= 32761 && LogFormat.FirstFragment(crc, 0, data, begin) ==
      LogFormat.Physical(crc, if begin then if n == |data| then 1 else 2 else if n == |data| then 4 else 3, data[..n])
  {
    hide LogFormat.Physical;
    assert LogFormat.Zeros(0) == [];
  }

  // Fewer than seven bytes at the end of a block are zeros.
  lemma TrailerLayout(crc: LogFormat.Checksum, data: Bytes)
    requires |data| <= 32761
    ensures LogFormat.Encode(crc, 32763, data, true) == [0, 0, 0, 0, 0] + LogFormat.Physical(crc, 1, data)
  {
    hide LogFormat.Encode, LogFormat.Physical;
    LogFormat.EncodeStep(crc, 32763, data, true);
    assert data[..|data|] == data && LogFormat.Zeros(5) == [0, 0, 0, 0, 0];
    assert LogFormat.FragmentLength(32763, |data|) == |data| && LogFormat.Padding(32763) == 5;
  }

  // ----- blocks ------------------------------------------------------------------------------------------

  // Two entries, the second of which shares two bytes of its key, and one restart.
  lemma BlockLayout()
    ensures BlockFormat.Block([BlockFormat.Pair([97, 98, 99], [1]), BlockFormat.Pair([97, 98, 100], [2, 3])], 16) ==
      [0, 3, 1, 97, 98, 99, 1, 2, 1, 2, 100, 2, 3, 0, 0, 0, 0, 1, 0, 0, 0]
  {
    var es := [BlockFormat.Pair([97, 98, 99], [1]), BlockFormat.Pair([97, 98, 100], [2, 3])];
    EntriesLayout();
    assert BlockFormat.Restarts(es, 16) == [0] by { assert es[..0] == []; }
    assert BlockFormat.FixedAll([0]) == [0, 0, 0, 0] by {
      assert [0][..0] == [];
      assert BlockFormat.FixedAll([]) == [];
    }
    assert Fixed32(1) == [1, 0, 0, 0];
    hide BlockFormat.EncodeEntries, BlockFormat.FixedAll, Fixed32, BlockFormat.Restarts;
  }

  lemma EntriesLayout()
    ensures
      BlockFormat.EncodeEntries([BlockFormat.Pair([97, 98, 99], [1]), BlockFormat.Pair([97, 98, 100], [2, 3])], 16) ==
      [0, 3, 1, 97, 98, 99, 1, 2, 1, 2, 100, 2, 3]
  {
    var a, b := BlockFormat.Pair([97, 98, 99], [1]), BlockFormat.Pair([97, 98, 100], [2, 3]);
    SharedTwo();
    EntriesBytes(a, b);
    TwoEntries(a, b);
    hide *;
    assert [0, 3, 1, 97, 98, 99, 1] + [2, 1, 2, 100, 2, 3] == [0, 3, 1, 97, 98, 99, 1, 2, 1, 2, 100, 2, 3];
  }

  lemma TwoEntries(a: BlockFormat.Pair, b: BlockFormat.Pair)
    ensures BlockFormat.EncodeEntries([a, b], 16) ==
      BlockFormat.EntryBytes(0, a) + BlockFormat.EntryBytes(BlockFormat.CommonPrefix(a.key, b.key), b)
  {
    hide BlockFormat.EntryBytes, BlockFormat.CommonPrefix;
    assert [a, b][..1] == [a] && [a][..0] == [];
    assert BlockFormat.EncodeEntries([], 16) == [];
    assert BlockFormat.EncodeEntries([a], 16) == [] + BlockFormat.EntryBytes(0, a);
  }

  lemma EntriesBytes(a: BlockFormat.Pair, b: BlockFormat.Pair)
    requires a == BlockFormat.Pair([97, 98, 99], [1]) && b == BlockFormat.Pair([97, 98, 100], [2, 3])
    ensures BlockFormat.EntryBytes(0, a) == [0, 3, 1, 97, 98, 99, 1]
    ensures BlockFormat.EntryBytes(2, b) == [2, 1, 2, 100, 2, 3]
  {
    assert Varint(0) == [0] && Varint(1) == [1] && Varint(2) == [2] && Varint(3) == [3];
  }

  lemma SharedTwo()
    ensures BlockFormat.CommonPrefix([97, 98, 99], [97, 98, 100]) == 2
  {
    var n := BlockFormat.CommonPrefix([97, 98, 99], [97, 98, 100]);
    assert [97, 98, 99][2] != [97, 98, 100][2];
    assert [97, 98, 99][..2] == [97, 98, 100][..2] == [97, 98];
    assert [97, 98, 99][0] == 97;
  }

  // ----- Protocol Buffers --------------------------------------------------------------------------------

  // The table of the section "Signed Integers".
  lemma ZigZagTable()
    ensures PbFormat.ZigZag(0) == 0 && PbFormat.ZigZag(-1) == 1 && PbFormat.ZigZag(1) == 2 && PbFormat.ZigZag(-2) == 3
    ensures PbFormat.ZigZag(0x7fff_ffff) == 0xffff_fffe && PbFormat.ZigZag(-0x8000_0000) == 0xffff_ffff
    ensures PbDecode.UnZigZag(3) == -2 && PbDecode.UnZigZag(0xffff_fffe) == 0x7fff_ffff
  {
  }

  // Field 1 set to 150, and field 2 to "testing".
  lemma MessageExamples()
    ensures var f := PbFormat.Field(1, PbFormat.Varint(4), PbFormat.Required, PbFormat.Number(0));
      var s := PbFormat.One(PbFormat.Number(150));
      PbFormat.SlotFits(f, s) && PbFormat.EncodeSlot(f, s) == Some([0x08, 0x96, 0x01])
    ensures var f := PbFormat.Field(2, PbFormat.CString(8), PbFormat.Required, PbFormat.Raw([]));
      var s := PbFormat.One(PbFormat.Raw([0x74, 0x65, 0x73, 0x74, 0x69, 0x6e, 0x67]));
      PbFormat.SlotFits(f, s) &&
      PbFormat.EncodeSlot(f, s) == Some([0x12, 0x07, 0x74, 0x65, 0x73, 0x74, 0x69, 0x6e, 0x67])
  {
    assert Varint(8) == [8] && Varint(18) == [18] && Varint(7) == [7] && Varint(1) == [1];
    assert Varint(150) == [150] + Varint(1) == [0x96, 0x01];
    assert [8] + [0x96, 0x01] == [0x08, 0x96, 0x01];
    var testing: Bytes := [0x74, 0x65, 0x73, 0x74, 0x69, 0x6e, 0x67];
    assert [18] + ([7] + testing) == [0x12, 0x07, 0x74, 0x65, 0x73, 0x74, 0x69, 0x6e, 0x67];
  }

  // A packed array of 3, 270 and 86942 in field 4.
  lemma PackedExample()
    ensures var f := PbFormat.Field(4, PbFormat.Varint(4), PbFormat.Repeated(8), PbFormat.Number(0));
      var s := PbFormat.Many([PbFormat.Number(3), PbFormat.Number(270), PbFormat.Number(86942)]);
      PbFormat.SlotFits(f, s) &&
      PbFormat.EncodeSlot(f, s) == Some([0x22, 0x06, 0x03, 0x8E, 0x02, 0x9E, 0xA7, 0x05])
  {
    var k := PbFormat.Varint(4);
    var s := PbFormat.Many([PbFormat.Number(3), PbFormat.Number(270), PbFormat.Number(86942)]);
    PackedNumbers();
    hide Varint;
    assert PbFormat.EncodePacked(k, s, 0) == [];
    assert PbFormat.EncodePacked(k, s, 1) == [] + [3];
    assert PbFormat.EncodePacked(k, s, 2) == [3] + [0x8E, 0x02];
    assert PbFormat.EncodePacked(k, s, 3) == [3, 0x8E, 0x02] + [0x9E, 0xA7, 0x05];
    assert [34] + ([6] + ([3, 0x8E, 0x02] + [0x9E, 0xA7, 0x05])) == [0x22, 0x06, 0x03, 0x8E, 0x02, 0x9E, 0xA7, 0x05];
  }

  lemma PackedNumbers()
    ensures Varint(34) == [34] && Varint(6) == [6] && Varint(3) == [3] && Varint(270) == [0x8E, 0x02]
    ensures Varint(86942) == [0x9E, 0xA7, 0x05]
  {
    assert Varint(2) == [2] && Varint(5) == [5];
    assert Varint(679) == [167] + Varint(5) == [0xA7, 0x05];
  }

  // Fixed-size numbers, a byte array, and a negative number in ten bytes.
  lemma WireTypes()
    ensures PbFormat.WireType(PbFormat.Fixed64) == 1 && PbFormat.WireType(PbFormat.Fixed32) == 5
    ensures PbFormat.WireType(PbFormat.RawBytes(1)) == 2 && PbFormat.WireType(PbFormat.Bool) == 0
    ensures PbFormat.EncodeScalar(PbFormat.Varint(4), -2) ==
      [0xfe, 0xff, 0xff, 0xff, 0xff, 0xff, 0xff, 0xff, 0xff, 0x01]
    ensures PbFormat.EncodeScalar(PbFormat.SVarint(4), -2) == [3]
  {
    assert -2 % LIMIT64 == 0xffff_ffff_ffff_fffe;
    assert Varint(1) == [1];
    assert Varint(0xff) == [0xff] + Varint(1);
    assert Varint(0x7fff) == [0xff] + Varint(0xff);
    assert Varint(0x3f_ffff) == [0xff] + Varint(0x7fff);
    assert Varint(0x1fff_ffff) == [0xff] + Varint(0x3f_ffff);
    assert Varint(0xf_ffff_ffff) == [0xff] + Varint(0x1fff_ffff);
    assert Varint(0x7ff_ffff_ffff) == [0xff] + Varint(0xf_ffff_ffff);
    assert Varint(0x3_ffff_ffff_ffff) == [0xff] + Varint(0x7ff_ffff_ffff);
    assert Varint(0x1ff_ffff_ffff_ffff) == [0xff] + Varint(0x3_ffff_ffff_ffff);
    assert Varint(0xffff_ffff_ffff_fffe) == [0xfe] + Varint(0x1ff_ffff_ffff_ffff);
  }
}
