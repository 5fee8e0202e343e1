/** The log writer (db/log_writer). */
module LogWriter {
  import opened Common
  import opened Coding
  import opened LogFormat

  class Writer {
    const step: CrcStep
    const typeCrc: seq<uint32>
    var dest: seq<byte>
    var blockOffset: nat
    ghost var blockStart: nat

    /** A writer over a log that already holds `dest`. */
    constructor (step: CrcStep, dest: seq<byte>)
      ensures Valid() && this.step == step && this.dest == dest
    {
      this.step := step;
      this.dest := dest;
      typeCrc := TypeCrcs(step);
      blockOffset := |dest| % BLOCK_SIZE;
      blockStart := |dest| - |dest| % BLOCK_SIZE;
    }

    ghost predicate Valid()
      reads this
    {
      && typeCrc == TypeCrcs(step)
      && blockOffset <= BLOCK_SIZE && blockStart % BLOCK_SIZE == 0 && |dest| == blockStart + blockOffset
    }

    /** The file grows by the record's encoding at the end of the file, whoever wrote what is there. */
    method AddRecord(data: seq<byte>)
      requires Valid()
      modifies this
      ensures Valid() && dest == old(dest) + Encode(step, |old(dest)| % BLOCK_SIZE, true, data)
    {
      hide Encode, Physical, Zeros, TypeCrcs;
      var left := data;
      var begin := true;
      OffsetOfEnd(step, blockStart, blockOffset, data);
      ghost var todo := Encode(step, blockOffset, true, data);
      ghost var final := dest + todo;
      var more := true;
      while more
        invariant Valid() && dest + todo == final
        invariant if more then todo == Encode(step, blockOffset, begin, left) else todo == []
        decreases more, |left|, Start(blockOffset)
      {
        ghost var atBlock, offset := dest, blockOffset;
        todo := SplitFragment(step, offset, begin, left);
        SwitchBlock();
        var avail := BLOCK_SIZE - blockOffset - HEADER_SIZE;
        var fragmentLength := if |left| < avail then |left| else avail;
        var end := |left| == fragmentLength;
        var t: byte;
        if begin && end {
          t := FULL;
        } else if begin {
          t := FIRST;
        } else if end {
          t := LAST;
        } else {
          t := MIDDLE;
        }
        EmitPhysicalRecord(t, left[..fragmentLength]);
        RegroupFour(atBlock, Zeros(Trailer(offset)), Physical(step, t, left[..fragmentLength]), todo);
        left := left[fragmentLength..];
        begin := false;
        more := |left| > 0;
      }
    }

    /** Fewer bytes than a header left in the block: fill them with zeros and start the next block. */
    method SwitchBlock()
      requires Valid()
      modifies this
      ensures Valid() && dest == old(dest) + Zeros(Trailer(old(blockOffset))) && blockOffset == Start(old(blockOffset))
    {
      var leftover := BLOCK_SIZE - blockOffset;
      if leftover < HEADER_SIZE {
        if leftover > 0 {
          dest := dest + Zeros(leftover);
        }
        blockStart := blockStart + BLOCK_SIZE;
        blockOffset := 0;
      }
    }

    method EmitPhysicalRecord(t: byte, payload: seq<byte>)
      requires Valid() && 0 < t <= LAST && blockOffset + HEADER_SIZE + |payload| <= BLOCK_SIZE
      modifies this
      ensures Valid() && dest == old(dest) + Physical(step, t, payload)
      ensures blockOffset == old(blockOffset) + HEADER_SIZE + |payload| && blockStart == old(blockStart)
    {
      hide Extend, Mask;
      var crc := Mask(Extend(step, typeCrc[t], payload));
      var header := EncodeFixed32(crc) + [|payload| % 256, |payload| / 256, t];
      dest := dest + header;
      dest := dest + payload;
      assert header + payload == Physical(step, t, payload);
      blockOffset := blockOffset + HEADER_SIZE + |payload|;
    }
  }

  /** InitTypeCrc. */
  function TypeCrcs(step: CrcStep): (r: seq<uint32>)
    ensures |r| == 5
  {
    seq(5, t requires 0 <= t < 5 => Extend(step, 0, [t]))
  }

  lemma OffsetOfEnd(step: CrcStep, blockStart: nat, blockOffset: nat, data: seq<byte>)
    requires blockOffset <= BLOCK_SIZE && blockStart % BLOCK_SIZE == 0
    ensures Encode(step, (blockStart + blockOffset) % BLOCK_SIZE, true, data) == Encode(step, blockOffset, true, data)
  {
    hide Encode;
    if blockOffset == BLOCK_SIZE {
      EncodeAtEnd(step, true, data);
    }
  }

  /** What is left of an encoding after its first fragment. */
  lemma SplitFragment(step: CrcStep, offset: nat, begin: bool, data: seq<byte>) returns (rest: seq<byte>)
    requires offset <= BLOCK_SIZE
    ensures var n := FragmentLength(offset, |data|);
            && Encode(step, offset, begin, data) ==
               Zeros(Trailer(offset)) + Physical(step, FragmentType(begin, n == |data|), data[..n]) + rest
            && rest == if n == |data| then [] else Encode(step, Start(offset) + HEADER_SIZE + n, false, data[n..])
  {
    hide Encode;
    EncodeUnfolds(step, offset, begin, data);
    var n := FragmentLength(offset, |data|);
    rest := if n == |data| then [] else Encode(step, Start(offset) + HEADER_SIZE + n, false, data[n..]);
  }
}
