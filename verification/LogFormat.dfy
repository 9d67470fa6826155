/**
 The log format (db/log_format.h): a file is a sequence of blocks of 32768
 bytes; a record is cut into fragments that do not cross blocks.
 */
module LogFormat {
  import opened Basics

  const BLOCK_SIZE: nat := 32768
  // Checksum (4 bytes), length (2 bytes), type (1 byte)
  const HEADER_SIZE: nat := 7

  const ZERO_TYPE: Byte := 0
  const FULL_TYPE: Byte := 1
  const FIRST_TYPE: Byte := 2
  const MIDDLE_TYPE: Byte := 3
  const LAST_TYPE: Byte := 4

  // A stored checksum; the function that computes it from the type and the
  // payload is any function.
  datatype Crc = Crc(b0: Byte, b1: Byte, b2: Byte, b3: Byte)
  type Checksum = Bytes -> Crc

  function CrcBytes(c: Crc): Bytes { [c.b0, c.b1, c.b2, c.b3] }

  // One physical record.
  function Physical(crc: Checksum, t: Byte, payload: Bytes): Bytes
    requires |payload| < 65536
  {
    CrcBytes(crc([t] + payload)) + [|payload| % 256, |payload| / 256, t] + payload
  }

  function FragmentType(begin: bool, end: bool): Byte {
    if begin && end then FULL_TYPE else if begin then FIRST_TYPE else if end then LAST_TYPE else MIDDLE_TYPE
  }

  function Zeros(n: nat): Bytes { seq(n, _ => 0) }

  // The bytes to skip before the next header, if fewer than a header is left.
  function Padding(offset: nat): nat
    requires offset <= BLOCK_SIZE
  {
    if BLOCK_SIZE - offset < HEADER_SIZE then BLOCK_SIZE - offset else 0
  }

  // Where the next header goes.
  function Start(offset: nat): (s: nat)
    requires offset <= BLOCK_SIZE
    ensures s <= BLOCK_SIZE - HEADER_SIZE
  {
    if BLOCK_SIZE - offset < HEADER_SIZE then 0 else offset
  }

  function FragmentLength(offset: nat, left: nat): (n: nat)
    requires offset <= BLOCK_SIZE
    ensures n <= left && Start(offset) + HEADER_SIZE + n <= BLOCK_SIZE
  {
    var avail := BLOCK_SIZE - Start(offset) - HEADER_SIZE;
    if left < avail then left else avail
  }

  // The bytes that AddRecord appends at an offset in a block.
  function Encode(crc: Checksum, offset: nat, data: Bytes, begin: bool): Bytes
    requires offset <= BLOCK_SIZE
    decreases |data|, if Start(offset) + HEADER_SIZE == BLOCK_SIZE then 1 else 0
  {
    var n := FragmentLength(offset, |data|);
    var end := n == |data|;
    Zeros(Padding(offset)) + Physical(crc, FragmentType(begin, end), data[..n])
    + if end then [] else Encode(crc, Start(offset) + HEADER_SIZE + n, data[n..], false)
  }

  // The file after a list of records has been added to an empty log.
  function EncodeAll(crc: Checksum, records: seq<Bytes>): Bytes {
    if records == [] then []
    else
      var front := EncodeAll(crc, records[..|records| - 1]);
      front + Encode(crc, |front| % BLOCK_SIZE, records[|records| - 1], true)
  }

  // The bytes of the first fragment of data, and what is left to write.
  function FirstFragment(crc: Checksum, offset: nat, data: Bytes, begin: bool): Bytes
    requires offset <= BLOCK_SIZE
  {
    var n := FragmentLength(offset, |data|);
    Zeros(Padding(offset)) + Physical(crc, FragmentType(begin, n == |data|), data[..n])
  }

  lemma EncodeStep(crc: Checksum, offset: nat, data: Bytes, begin: bool)
    requires offset <= BLOCK_SIZE
    ensures var n := FragmentLength(offset, |data|);
      Encode(crc, offset, data, begin) == FirstFragment(crc, offset, data, begin)
        + if n == |data| then [] else Encode(crc, Start(offset) + HEADER_SIZE + n, data[n..], false)
    ensures |FirstFragment(crc, offset, data, begin)| == Padding(offset) + HEADER_SIZE + FragmentLength(offset, |data|)
  {
  }

  // Writing at the end of a full block is writing at the start of the next.
  lemma EncodeAtBlockEnd(crc: Checksum, data: Bytes, begin: bool)
    ensures Encode(crc, BLOCK_SIZE, data, begin) == Encode(crc, 0, data, begin)
  {
    assert Zeros(Padding(BLOCK_SIZE)) == [] == Zeros(Padding(0));
    EncodeStep(crc, BLOCK_SIZE, data, begin);
    EncodeStep(crc, 0, data, begin);
    hide Encode, Physical, Zeros;
  }
}
