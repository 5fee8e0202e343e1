/** Bytes and the fixed-width encodings every format uses (util/coding, util/crc32c.h). */
module Coding {
  type byte = x: int | 0 <= x < 256

  type Bytes = seq<byte>

  type uint32 = x: int | 0 <= x < 0x1_0000_0000

  /** EncodeFixed32: little-endian. */
  function EncodeFixed32(v: uint32): (r: seq<byte>)
    ensures |r| == 4 && DecodeFixed32(r) == v
  {
    var v1 := v / 256;
    var v2 := v1 / 256;
    [v % 256, v1 % 256, v2 % 256, v2 / 256]
  }

  function DecodeFixed32(s: seq<byte>): uint32
    requires |s| == 4
  {
    s[0] as int + 256 * (s[1] as int + 256 * (s[2] as int + 256 * s[3] as int))
  }

  const MASK_DELTA: uint32 := 0xa282ead8

  /** A checksum rotated right by 15 bits. */
  function Rotate(crc: uint32): (r: uint32)
    ensures r / 0x2_0000 == crc % 0x8000 && r % 0x2_0000 == crc / 0x8000
  {
    crc / 0x8000 + crc % 0x8000 * 0x2_0000
  }

  /** Rotated, plus a constant modulo 2^32. */
  function Mask(crc: uint32): uint32 {
    var r := Rotate(crc) + MASK_DELTA;
    if r < 0x1_0000_0000 then r else r - 0x1_0000_0000
  }

  function Unmask(masked: uint32): uint32 {
    var rot := if MASK_DELTA <= masked then masked - MASK_DELTA else masked - MASK_DELTA + 0x1_0000_0000;
    rot / 0x2_0000 + rot % 0x2_0000 * 0x8000
  }

  /** A masked checksum: rotated right by 15 bits, and 0xa282ead8 added. */
  lemma MaskIs(crc: uint32)
    ensures Mask(crc) == (crc / 32_768 + crc % 32_768 * 131_072 + 2_726_488_792) % 0x1_0000_0000
  {
  }

  lemma UnmaskMask(crc: uint32)
    ensures Unmask(Mask(crc)) == crc
  {
    hide Rotate;
    var rot := Rotate(crc);
    assert crc == crc % 0x8000 + crc / 0x8000 * 0x8000;
  }

  /** One table step of the checksum; the formats only need that it is a function. */
  type CrcStep = (uint32, byte) -> uint32

  function Fold(step: CrcStep, l: uint32, data: seq<byte>): uint32 {
    if data == [] then l else step(Fold(step, l, data[..|data| - 1]), data[|data| - 1])
  }

  /** crc32c::Extend: both ends inverted around the byte steps. */
  function Extend(step: CrcStep, crc: uint32, data: seq<byte>): uint32 {
    0xffff_ffff - Fold(step, 0xffff_ffff - crc, data)
  }

  lemma {:induction false} FoldAppends(step: CrcStep, l: uint32, a: seq<byte>, b: seq<byte>)
    ensures Fold(step, l, a + b) == Fold(step, Fold(step, l, a), b)
  {
    if b == [] {
      assert a + b == a;
    } else {
      FoldAppends(step, l, a, b[..|b| - 1]);
      assert (a + b)[..|a + b| - 1] == a + b[..|b| - 1];
    }
  }

  /** Extending by one part and then the other is extending by both. */
  lemma ExtendAppends(step: CrcStep, crc: uint32, a: seq<byte>, b: seq<byte>)
    ensures Extend(step, Extend(step, crc, a), b) == Extend(step, crc, a + b)
  {
    FoldAppends(step, 0xffff_ffff - crc, a, b);
  }
}
