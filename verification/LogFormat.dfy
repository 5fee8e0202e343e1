/** What a log file holds: records cut into checksummed fragments that never cross a block (db/log_format, db/log_writer). */
module LogFormat {
  import opened Coding

  const BLOCK_SIZE: nat := 32768

  const HEADER_SIZE: nat := 7

  const FULL: byte := 1
  const FIRST: byte := 2
  const MIDDLE: byte := 3
  const LAST: byte := 4

  /** One physical record: masked checksum of type and payload, length, type, payload. */
  function Physical(step: CrcStep, t: byte, payload: seq<byte>): (r: seq<byte>)
    requires |payload| <= 0xffff
    ensures |r| == HEADER_SIZE + |payload|
  {
    EncodeFixed32(Mask(Extend(step, Extend(step, 0, [t]), payload))) + [|payload| % 256, |payload| / 256, t] + payload
  }

  function Zeros(n: nat): (r: seq<byte>)
    ensures |r| == n
  {
    seq(n, _ => 0)
  }

  /** Bytes left over at the end of a block that cannot hold a header. */
  function Trailer(offset: nat): nat
    requires offset <= BLOCK_SIZE
  {
    if BLOCK_SIZE - offset < HEADER_SIZE then BLOCK_SIZE - offset else 0
  }

  /** Where the next header goes in its block. */
  function Start(offset: nat): (r: nat)
    requires offset <= BLOCK_SIZE
    ensures r + HEADER_SIZE <= BLOCK_SIZE
  {
    if BLOCK_SIZE - offset < HEADER_SIZE then 0 else offset
  }

  function FragmentLength(offset: nat, left: nat): (r: nat)
    requires offset <= BLOCK_SIZE
    ensures r <= left && r <= BLOCK_SIZE
  {
    var avail := BLOCK_SIZE - Start(offset) - HEADER_SIZE;
    if left < avail then left else avail
  }

  function FragmentType(begin: bool, end: bool): byte {
    if begin && end then FULL else if begin then FIRST else if end then LAST else MIDDLE
  }

  /** The bytes of one logical record written at a block offset. */
  function Encode(step: CrcStep, offset: nat, begin: bool, data: seq<byte>): (r: seq<byte>)
    requires offset <= BLOCK_SIZE
    ensures Trailer(offset) + HEADER_SIZE <= |r|
    decreases |data|, Start(offset)
  {
    var n := FragmentLength(offset, |data|);
    Zeros(Trailer(offset)) + Physical(step, FragmentType(begin, n == |data|), data[..n]) +
    if n == |data| then [] else Encode(step, Start(offset) + HEADER_SIZE + n, false, data[n..])
  }

  lemma EncodeUnfolds(step: CrcStep, offset: nat, begin: bool, data: seq<byte>)
    requires offset <= BLOCK_SIZE
    ensures var n := FragmentLength(offset, |data|);
            Encode(step, offset, begin, data) ==
            Zeros(Trailer(offset)) + Physical(step, FragmentType(begin, n == |data|), data[..n]) +
            if n == |data| then [] else Encode(step, Start(offset) + HEADER_SIZE + n, false, data[n..])
  {
  }

  /** A block offset of a whole block is the start of the next one. */
  lemma EncodeAtEnd(step: CrcStep, begin: bool, data: seq<byte>)
    ensures Encode(step, BLOCK_SIZE, begin, data) == Encode(step, 0, begin, data)
  {
    hide Encode, Physical, Zeros, FragmentType;
    assert Trailer(BLOCK_SIZE) == Trailer(0) && Start(BLOCK_SIZE) == Start(0);
    assert FragmentLength(BLOCK_SIZE, |data|) == FragmentLength(0, |data|);
    hide Trailer, Start, FragmentLength;
    EncodeUnfolds(step, BLOCK_SIZE, begin, data);
    EncodeUnfolds(step, 0, begin, data);
  }

  /** The bytes of a list of records written from file position `pos` on. */
  function Written(step: CrcStep, pos: nat, records: seq<seq<byte>>): seq<byte>
    decreases |records|
  {
    if records == [] then [] else
      var r := Encode(step, pos % BLOCK_SIZE, true, records[0]);
      r + Written(step, pos + |r|, records[1..])
  }

  lemma {:induction false} WrittenAppend(step: CrcStep, pos: nat, records: seq<seq<byte>>, data: seq<byte>)
    ensures Written(step, pos, records + [data]) ==
            Written(step, pos, records) + Encode(step, (pos + |Written(step, pos, records)|) % BLOCK_SIZE, true, data)
    decreases |records|
  {
    hide Encode;
    if records == [] {
      assert (records + [data])[1..] == [];
    } else {
      var r := Encode(step, pos % BLOCK_SIZE, true, records[0]);
      assert (records + [data])[1..] == records[1..] + [data];
      WrittenAppend(step, pos + |r|, records[1..], data);
    }
  }

  /** How many records lie wholly within the first `n` bytes of a log. */
  ghost predicate Contained(step: CrcStep, records: seq<seq<byte>>, n: nat, k: nat) {
    && k <= |records| && |Written(step, 0, records[..k])| <= n
    && (k < |records| ==> n < |Written(step, 0, records[..k + 1])|)
  }

  // ---------- the format, by its numbers ----------

  /** What fits the rest of its block: checksum, two bytes of length, type 1 for a whole record and 4 for the end of one, the data. */
  lemma LastFragment(step: CrcStep, offset: nat, begin: bool, data: seq<byte>)
    requires offset + 7 + |data| <= 32_768
    ensures var t := if begin then 1 else 4;
            Encode(step, offset, begin, data) ==
            EncodeFixed32(Mask(Extend(step, Extend(step, 0, [t]), data))) + [|data| % 256, |data| / 256, t] + data
  {
    hide Encode, EncodeFixed32, Mask, Extend;
    EncodeUnfolds(step, offset, begin, data);
    assert data[..|data|] == data && Zeros(0) == [];
  }

  /** What does not fit fills its block with a fragment of type 2 at the start of a record and 3 later, and goes on in the next. */
  lemma FullFragment(step: CrcStep, offset: nat, begin: bool, data: seq<byte>)
    requires offset + 7 <= 32_768 < offset + 7 + |data|
    ensures var n, t := 32_768 - offset - 7, if begin then 2 else 3;
            Encode(step, offset, begin, data) ==
            EncodeFixed32(Mask(Extend(step, Extend(step, 0, [t]), data[..n]))) + [n % 256, n / 256, t] + data[..n]
            + Encode(step, 0, false, data[n..])
  {
    hide Encode, EncodeFixed32, Mask, Extend;
    var n := 32_768 - offset - 7;
    EncodeUnfolds(step, offset, begin, data);
    EncodeAtEnd(step, false, data[n..]);
    assert Zeros(0) == [];
  }

  /** Fewer than seven bytes at the end of a block stay zero. */
  lemma SkippedBytes(step: CrcStep, offset: nat, begin: bool, data: seq<byte>)
    requires offset <= 32_768 < offset + 7
    ensures Encode(step, offset, begin, data) == seq(32_768 - offset, _ => 0) + Encode(step, 0, begin, data)
  {
    hide Encode, Physical;
    EncodeUnfolds(step, offset, begin, data);
    EncodeUnfolds(step, 0, begin, data);
    assert seq(32_768 - offset, _ => 0) == Zeros(Trailer(offset)) && Zeros(0) == [];
    SameRest(step, offset, begin, data);
  }

  lemma SameRest(step: CrcStep, offset: nat, begin: bool, data: seq<byte>)
    requires offset <= BLOCK_SIZE < offset + HEADER_SIZE
    ensures Start(offset) == Start(0) && FragmentLength(offset, |data|) == FragmentLength(0, |data|) && Trailer(0) == 0
  {
  }
}
