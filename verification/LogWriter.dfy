/** log::Writer (db/log_writer.cc). */
module LogWriter {
  import opened Basics
  import opened LogFormat

  lemma HeaderLength(crc: Checksum, t: Byte, payload: Bytes)
    requires |payload| < 65536
    ensures |CrcBytes(crc([t] + payload)) + [|payload| % 256, |payload| / 256, t]| == HEADER_SIZE
  {
  }

  class Writer {
    const crc: Checksum
    var dest: Bytes
    var blockOffset: nat

    // The offset in the block follows the file's length; at the end of a block
    // it may still be the block size.
    ghost predicate Valid()
      reads this
    {
      && blockOffset <= BLOCK_SIZE
      && (blockOffset == |dest| % BLOCK_SIZE || (blockOffset == BLOCK_SIZE && |dest| % BLOCK_SIZE == 0))
    }

    constructor (crc: Checksum, dest: Bytes)
      ensures Valid() && this.crc == crc && this.dest == dest
    {
      this.crc, this.dest := crc, dest;
      blockOffset := |dest| % BLOCK_SIZE;
    }

    method AddRecord(slice: Bytes)
      requires Valid()
      modifies this
      ensures Valid()
      ensures dest == old(dest) + Encode(crc, |old(dest)| % BLOCK_SIZE, slice, true)
    {
      hide Encode, Physical, FirstFragment;
      EncodeAtBlockEnd(crc, slice, true);
      var ptr := 0;
      var begin := true;
      ghost var all := dest + Encode(crc, blockOffset, slice, true);
      assert slice[0..] == slice;
      while true
        invariant Valid() && ptr <= |slice|
        invariant all == dest + Encode(crc, blockOffset, slice[ptr..], begin)
        decreases |slice| - ptr, if Start(blockOffset) + HEADER_SIZE == BLOCK_SIZE then 1 else 0
      {
        ghost var before, offset, rest := dest, blockOffset, slice[ptr..];
        EncodeStep(crc, offset, rest, begin);
        var n := AddFragment(slice, ptr, begin);
        assert all == dest + if n == |rest| then [] else Encode(crc, blockOffset, rest[n..], false);
        assert rest[n..] == slice[ptr + n..];
        ptr := ptr + n;
        begin := false;
        if ptr == |slice| { return; }
      }
    }

    // One turn of the loop: a fragment as long as the block has room for.
    method AddFragment(slice: Bytes, ptr: nat, begin: bool) returns (n: nat)
      requires Valid() && ptr <= |slice|
      modifies this
      ensures Valid()
      ensures n == FragmentLength(old(blockOffset), |slice| - ptr)
      ensures dest == old(dest) + FirstFragment(crc, old(blockOffset), slice[ptr..], begin)
      ensures blockOffset == Start(old(blockOffset)) + HEADER_SIZE + n
    {
      hide Physical;
      var left := |slice| - ptr;
      var leftover := BLOCK_SIZE - blockOffset;
      if leftover < HEADER_SIZE {
        // Fill the trailer and switch to a new block
        dest := dest + Zeros(leftover);
        blockOffset := 0;
      }
      var avail := BLOCK_SIZE - blockOffset - HEADER_SIZE;
      n := if left < avail then left else avail;
      var end := left == n;
      var t := if begin && end then FULL_TYPE else if begin then FIRST_TYPE else if end then LAST_TYPE else MIDDLE_TYPE;
      EmitPhysicalRecord(t, slice[ptr..ptr + n]);
      assert slice[ptr..][..n] == slice[ptr..ptr + n];
    }

    method EmitPhysicalRecord(t: Byte, payload: Bytes)
      requires Valid() && blockOffset + HEADER_SIZE + |payload| <= BLOCK_SIZE
      modifies this
      ensures Valid()
      ensures dest == old(dest) + Physical(crc, t, payload)
      ensures blockOffset == old(blockOffset) + HEADER_SIZE + |payload|
    {
      hide CrcBytes;
      HeaderLength(crc, t, payload);
      ghost var before := dest;
      var header := CrcBytes(crc([t] + payload)) + [|payload| % 256, |payload| / 256, t];
      dest := dest + header;
      dest := dest + payload;
      assert dest == before + (header + payload);
      blockOffset := blockOffset + HEADER_SIZE + |payload|;
    }
  }
}
