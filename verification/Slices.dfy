/** Varints and length-prefixed slices, written to and read from byte strings (util/coding). */
module Slices {
  import opened Coding
  import opened Varint
  import opened Readers

  /** EncodeVarint32: one branch per length. */
  method EncodeVarint32(v: nat) returns (r: seq<byte>)
    requires v < TWO_32
    ensures r == VarintBytes(v)
  {
    var v1, v2, v3, v4 := v / 128, v / 128 / 128, v / 128 / 128 / 128, v / 128 / 128 / 128 / 128;
    VarintUnfolds(v);
    VarintUnfolds(v1);
    VarintUnfolds(v2);
    VarintUnfolds(v3);
    VarintUnfolds(v4);
    hide VarintBytes;
    if v < 0x80 {
      r := [v];
    } else if v < 0x4000 {
      r := [v % 128 + 128, v1];
    } else if v < 0x20_0000 {
      r := [v % 128 + 128, v1 % 128 + 128, v2];
    } else if v < 0x1000_0000 {
      r := [v % 128 + 128, v1 % 128 + 128, v2 % 128 + 128, v3];
    } else {
      r := [v % 128 + 128, v1 % 128 + 128, v2 % 128 + 128, v3 % 128 + 128, v4];
    }
  }

  /** EncodeVarint64: a loop. */
  method EncodeVarint64(v: nat) returns (r: seq<byte>)
    ensures r == VarintBytes(v)
  {
    r := [];
    var rest := v;
    while rest >= 128
      invariant r + VarintBytes(rest) == VarintBytes(v)
    {
      r := r + [rest % 128 + 128];
      rest := rest / 128;
    }
    r := r + [rest];
  }

  // ---------- reading ----------

  /** The input starts with a varint of the value, and `rest` follows it. */
  predicate ReadsVarint(input: seq<byte>, bits: nat, value: nat, rest: seq<byte>) {
    && |rest| < |input|
    && var n := |input| - |rest|;
       input[n..] == rest && IsVarint(input[..n], bits) && value == GroupSum(input[..n]) % Pow2(bits)
  }

  /** A varint ends where it ends: it reads in one way only. */
  lemma ReadsVarintOnce(input: seq<byte>, bits: nat, v: nat, rest: seq<byte>, w: nat, rest': seq<byte>)
    requires ReadsVarint(input, bits, v, rest) && ReadsVarint(input, bits, w, rest')
    ensures v == w && rest == rest'
  {
    hide GroupSum, Pow2;
    var n, m := |input| - |rest|, |input| - |rest'|;
    VarintEnds(input, bits, n, m);
    VarintEnds(input, bits, m, n);
  }

  lemma VarintEnds(input: seq<byte>, bits: nat, n: nat, m: nat)
    requires n <= |input| && m <= |input| && IsVarint(input[..n], bits) && IsVarint(input[..m], bits)
    ensures m <= n
  {
    assert input[..n][n - 1] == input[n - 1];
    var k := if n < m then n - 1 else m - 1;
    assert input[..m][k] == input[k];
  }

  /** What was written reads back. */
  lemma WrittenVarintReads(v: nat, bits: nat, tail: seq<byte>)
    requires v < Pow2(bits) && 0 < bits
    ensures ReadsVarint(VarintBytes(v) + tail, bits, v, tail)
  {
    hide VarintBytes, GroupSum, Pow2, IsVarint;
    var code := VarintBytes(v);
    VarintBytesIs(v);
    VarintBytesFit(v, bits);
    assert (code + tail)[..|code|] == code && (code + tail)[|code|..] == tail;
    SmallModulo(v, Pow2(bits));
  }

  lemma OnlyWrittenReads(v: nat, bits: nat, tail: seq<byte>)
    requires v < Pow2(bits) && 0 < bits
    ensures ReadsVarint(VarintBytes(v) + tail, bits, v, tail)
    ensures forall w, r :: ReadsVarint(VarintBytes(v) + tail, bits, w, r) ==> w == v && r == tail
  {
    hide VarintBytes, ReadsVarint, Pow2;
    WrittenVarintReads(v, bits, tail);
    forall w, r | ReadsVarint(VarintBytes(v) + tail, bits, w, r)
      ensures w == v && r == tail
    {
      ReadsVarintOnce(VarintBytes(v) + tail, bits, v, tail, w, r);
    }
  }

  lemma SmallModulo(v: nat, m: nat)
    requires v < m
    ensures v % m == v
  {
  }

  /** One more group, in a word of 32 or 64 bits. */
  lemma GroupTaken(input: seq<byte>, bits: nat, p: nat, value: nat)
    requires p < |input| && (bits == 32 || bits == 64) && value == GroupSum(input[..p]) % Pow2(bits)
    ensures WithGroup(value, input[p], 7 * p, Pow2(bits)) == GroupSum(input[..p + 1]) % Pow2(bits)
  {
    hide GroupSum, Pow2;
    Pow2Values();
    assert input[..p + 1] == input[..p] + [input[p]];
    GroupSumGrows(input[..p], input[p]);
    SumModulo(GroupSum(input[..p]), input[p] % 128 * Pow2(7 * p));
  }

  lemma SumModulo(a: nat, b: nat)
    ensures (a % TWO_32 + b) % TWO_32 == (a + b) % TWO_32 && (a % TWO_64 + b) % TWO_64 == (a + b) % TWO_64
  {
  }

  lemma NothingSummed(bits: nat)
    ensures GroupSum([]) % Pow2(bits) == 0
  {
    hide Pow2;
    SmallModulo(0, Pow2(bits));
  }

  /** As long as every byte has its top bit set, and then there are too many or none, no varint is there. */
  lemma NoVarint(input: seq<byte>, bits: nat, p: nat)
    requires p <= |input| && (p == |input| || bits <= 7 * p) && forall i :: 0 <= i < p ==> 128 <= input[i]
    ensures forall v, rest :: !ReadsVarint(input, bits, v, rest)
  {
    hide GroupSum, Pow2;
    forall v, rest
      ensures !ReadsVarint(input, bits, v, rest)
    {
      if ReadsVarint(input, bits, v, rest) {
        LastGroup(input, bits, v, rest);
      }
    }
  }

  lemma LastGroup(input: seq<byte>, bits: nat, v: nat, rest: seq<byte>)
    requires ReadsVarint(input, bits, v, rest)
    ensures input[|input| - |rest| - 1] < 128 && 7 * (|input| - |rest| - 1) < bits
  {
    var n := |input| - |rest|;
    assert input[..n][n - 1] == input[n - 1];
  }

  /** GetVarint32 and GetVarint64: at most five or ten groups; what follows the varint is left. */
  method GetVarint(input: seq<byte>, bits: nat) returns (ok: bool, value: nat, rest: seq<byte>)
    requires bits == 32 || bits == 64
    ensures ok ==> ReadsVarint(input, bits, value, rest) && |rest| < |input| && value < Pow2(bits)
    ensures !ok ==> forall v, r :: !ReadsVarint(input, bits, v, r)
  {
    hide Pow2, WithGroup, GroupSum;
    value := 0;
    var shift := 0;
    var p := 0;
    assert input[..0] == [];
    NothingSummed(bits);
    while shift < bits && p < |input|
      invariant shift == 7 * p && p <= |input| && value == GroupSum(input[..p]) % Pow2(bits)
      invariant forall i :: 0 <= i < p ==> 128 <= input[i]
      decreases |input| - p
    {
      var b := input[p];
      GroupTaken(input, bits, p, value);
      value := WithGroup(value, b, shift, Pow2(bits));
      p := p + 1;
      if b < 128 {
        return true, value, input[p..];
      }
      shift := shift + 7;
    }
    NoVarint(input, bits, p);
    return false, 0, [];
  }

  /** A slice after its length, of which only 32 bits are written. */
  function Prefixed(s: seq<byte>): (r: seq<byte>)
    ensures 0 < |r|
  {
    VarintBytes(Low32(|s|)) + s
  }

  method PutLengthPrefixedSlice(dst: seq<byte>, s: seq<byte>) returns (r: seq<byte>)
    ensures r == dst + Prefixed(s)
  {
    hide VarintBytes;
    var length := EncodeVarint32(Low32(|s|));
    r := dst + length + s;
  }

  /** The input starts with the slice after its length, and `rest` follows it. */
  predicate ReadsSlice(input: seq<byte>, slice: seq<byte>, rest: seq<byte>) {
    ReadsVarint(input, 32, |slice|, slice + rest)
  }

  lemma ReadsSliceOnce(input: seq<byte>, s: seq<byte>, rest: seq<byte>, t: seq<byte>, rest': seq<byte>)
    requires ReadsSlice(input, s, rest) && ReadsSlice(input, t, rest')
    ensures s == t && rest == rest'
  {
    ReadsVarintOnce(input, 32, |s|, s + rest, |t|, t + rest');
    assert s == (s + rest)[..|s|] && rest == (s + rest)[|s|..];
    assert t == (t + rest')[..|t|] && rest' == (t + rest')[|t|..];
  }

  lemma SlicesReadOnce()
    ensures Deterministic(ReadsSlice)
  {
    hide ReadsSlice;
    forall input, s, rest, t, rest' | ReadsSlice(input, s, rest) && ReadsSlice(input, t, rest')
      ensures s == t && rest == rest'
    {
      ReadsSliceOnce(input, s, rest, t, rest');
    }
  }

  lemma WrittenSliceReads(s: seq<byte>, tail: seq<byte>)
    requires |s| < TWO_32
    ensures ReadsSlice(Prefixed(s) + tail, s, tail)
  {
    hide VarintBytes, Pow2, ReadsVarint;
    Pow2Values();
    WrittenVarintReads(|s|, 32, s + tail);
    assert Prefixed(s) + tail == VarintBytes(|s|) + (s + tail);
  }

  method GetLengthPrefixedSlice(input: seq<byte>) returns (ok: bool, slice: seq<byte>, rest: seq<byte>)
    ensures ok ==> ReadsSlice(input, slice, rest) && |rest| < |input| && |slice| < TWO_32
    ensures !ok ==> forall s, r :: !ReadsSlice(input, s, r)
  {
    hide Pow2, ReadsVarint;
    Pow2Values();
    var length;
    ok, length, rest := GetVarint(input, 32);
    if ok && length <= |rest| {
      assert rest[..length] + rest[length..] == rest;
      slice, rest := rest[..length], rest[length..];
    } else {
      if ok {
        TooShort(input, length, rest);
      }
      ok, slice, rest := false, [], [];
    }
  }

  lemma TooShort(input: seq<byte>, length: nat, rest: seq<byte>)
    requires ReadsVarint(input, 32, length, rest) && |rest| < length
    ensures forall s, r :: !ReadsSlice(input, s, r)
  {
    hide ReadsVarint;
    forall s, r
      ensures !ReadsSlice(input, s, r)
    {
      if ReadsSlice(input, s, r) {
        ReadsVarintOnce(input, 32, length, rest, |s|, s + r);
      }
    }
  }
}
