/** The bloom filter policy, for any hash function (util/bloom). */
module Bloom {
  import opened Coding
  import opened Varint

  datatype Policy = Policy(bitsPerKey: nat, k: nat, hash: Bytes -> uint32)

  /** The constructor clamps the number of probes. */
  predicate PolicyOk(p: Policy) {
    1 <= p.k <= 30
  }

  const WORD: nat := 0x1_0000_0000

  // ---------- bits ----------

  /** Bit `i` of a number, counted from the lowest. */
  predicate HasBit(n: nat, i: nat) {
    if i == 0 then n % 2 == 1 else HasBit(n / 2, i - 1)
  }

  /** The number with one bit or-ed in. */
  function OrBit(n: nat, i: nat): nat {
    if i == 0 then n / 2 * 2 + 1 else OrBit(n / 2, i - 1) * 2 + n % 2
  }

  lemma {:induction false} OrBitSets(n: nat, i: nat, j: nat)
    ensures HasBit(OrBit(n, i), j) <==> j == i || HasBit(n, j)
  {
    if 0 < i && 0 < j {
      OrBitSets(n / 2, i - 1, j - 1);
    }
  }

  lemma {:induction false} OrBitFits(n: nat, i: nat, width: nat)
    requires i < width && n < Pow2(width)
    ensures OrBit(n, i) < Pow2(width)
  {
    if 0 < i {
      OrBitFits(n / 2, i - 1, width - 1);
    }
  }

  function WithBit(b: byte, i: nat): byte
    requires i < 8
  {
    OrBitFits(b, i, 8);
    OrBit(b, i)
  }

  predicate BitAt(bytes: Bytes, pos: nat)
    requires pos < 8 * |bytes|
  {
    HasBit(bytes[pos / 8], pos % 8)
  }

  /** The positions of the bits that are set. */
  ghost function BitsOf(bytes: Bytes): set<nat> {
    set pos: nat | pos < 8 * |bytes| && BitAt(bytes, pos)
  }

  lemma BitIsIn(bytes: Bytes, pos: nat)
    requires pos < 8 * |bytes|
    ensures pos in BitsOf(bytes) <==> HasBit(bytes[pos / 8], pos % 8)
  {
  }

  lemma SetBit(bytes: Bytes, pos: nat)
    requires pos < 8 * |bytes|
    ensures BitsOf(bytes[pos / 8 := WithBit(bytes[pos / 8], pos % 8)]) == BitsOf(bytes) + {pos}
  {
    hide HasBit, OrBit;
    var r := bytes[pos / 8 := WithBit(bytes[pos / 8], pos % 8)];
    forall q: nat | q < 8 * |bytes|
      ensures BitAt(r, q) <==> q == pos || BitAt(bytes, q)
    {
      if q / 8 == pos / 8 {
        OrBitSets(bytes[q / 8], pos % 8, q % 8);
      }
    }
  }

  lemma {:induction false} ZeroHasNoBit(i: nat)
    ensures !HasBit(0, i)
  {
    if 0 < i {
      ZeroHasNoBit(i - 1);
    }
  }

  lemma NoBits(bytes: Bytes)
    requires forall i :: 0 <= i < |bytes| ==> bytes[i] == 0
    ensures BitsOf(bytes) == {}
  {
    forall pos: nat | pos < 8 * |bytes|
      ensures !BitAt(bytes, pos)
    {
      assert bytes[pos / 8] == 0;
      ZeroHasNoBit(pos % 8);
    }
  }

  // ---------- probes ----------

  /** The step of double hashing: the hash rotated right by 17 bits. */
  function Delta(h: uint32): (r: uint32)
    ensures r % 32_768 == h / 131_072 && r / 32_768 == h % 131_072
  {
    h / 0x2_0000 + h % 0x2_0000 * 0x8000
  }

  /** The hash after `j` steps of double hashing. */
  function Step(h: uint32, j: nat): uint32 {
    (h + j * Delta(h)) % WORD
  }

  lemma StepNext(h: uint32, j: nat)
    ensures Step(h, j + 1) == (Step(h, j) + Delta(h)) % WORD
  {
    hide Delta;
    var x, d := h + j * Delta(h), Delta(h);
    assert h + (j + 1) * d == x + d;
    AddModulo(x, d);
  }

  lemma AddModulo(x: nat, d: uint32)
    ensures (x % WORD + d) % WORD == (x + d) % WORD
  {
    var q, r := x / WORD, x % WORD;
    assert x == WORD * q + r;
    if r + d < WORD {
      assert (x + d) / WORD == q;
    } else {
      assert (x + d) / WORD == q + 1;
    }
  }

  /** The bits that the first `n` probes of a hash select. */
  function Probes(h: uint32, n: nat, bits: nat): set<nat>
    requires 0 < bits
  {
    if n == 0 then {} else Probes(h, n - 1, bits) + {Step(h, n - 1) % bits}
  }

  function Marks(p: Policy, keys: seq<Bytes>, bits: nat): set<nat>
    requires 0 < bits
  {
    if keys == [] then {}
    else Marks(p, keys[..|keys| - 1], bits) + Probes(p.hash(keys[|keys| - 1]), p.k, bits)
  }

  /** A filter for `keys` has exactly the bits set that their probes select, and ends in the number of probes. */
  ghost predicate IsFilter(p: Policy, keys: seq<Bytes>, filter: Bytes) {
    && 9 <= |filter| && filter[|filter| - 1] == p.k
    && BitsOf(filter[..|filter| - 1]) == Marks(p, keys, 8 * (|filter| - 1))
  }

  /** What a filter, from this or another policy, says about a key. */
  ghost predicate MayMatch(hash: Bytes -> uint32, filter: Bytes, key: Bytes) {
    && 2 <= |filter|
    && var k := filter[|filter| - 1];
       k > 30 || Probes(hash(key), k, 8 * (|filter| - 1)) <= BitsOf(filter[..|filter| - 1])
  }

  lemma {:induction false} MarksHold(p: Policy, keys: seq<Bytes>, bits: nat, i: nat)
    requires 0 < bits && i < |keys|
    ensures Probes(p.hash(keys[i]), p.k, bits) <= Marks(p, keys, bits)
  {
    if i < |keys| - 1 {
      MarksHold(p, keys[..|keys| - 1], bits, i);
    }
  }

  /** No false negatives. */
  lemma FilterMatchesItsKeys(p: Policy, keys: seq<Bytes>, filter: Bytes, key: Bytes)
    requires IsFilter(p, keys, filter) && key in keys
    ensures MayMatch(p.hash, filter, key)
  {
    var i :| 0 <= i < |keys| && keys[i] == key;
    MarksHold(p, keys, 8 * (|filter| - 1), i);
  }

  /** CreateFilter: appends a filter for the keys to `dst`. */
  method CreateFilter(p: Policy, keys: seq<Bytes>, dst: Bytes) returns (r: Bytes)
    requires PolicyOk(p)
    ensures |dst| < |r| && r[..|dst|] == dst && IsFilter(p, keys, r[|dst|..])
    ensures |r| - |dst| - 1 == (if |keys| * p.bitsPerKey < 64 then 8 else (|keys| * p.bitsPerKey + 7) / 8)
  {
    hide WithBit, HasBit, Step, Delta, BitsOf;
    var bits := |keys| * p.bitsPerKey;
    if bits < 64 {
      bits := 64;
    }
    var size := (bits + 7) / 8;
    bits := size * 8;
    var bytes: Bytes := seq(size, i => 0);
    NoBits(bytes);
    for i := 0 to |keys|
      invariant |bytes| == size && BitsOf(bytes) == Marks(p, keys[..i], bits)
    {
      bytes := AddProbes(p, keys[i], bytes);
      assert keys[..i + 1][..i] == keys[..i];
    }
    assert keys[..|keys|] == keys;
    r := dst + bytes + [p.k];
    assert r[|dst|..] == bytes + [p.k];
    assert (bytes + [p.k])[..size] == bytes;
  }

  /** The inner loop: sets the bits of one key. */
  method AddProbes(p: Policy, key: Bytes, before: Bytes) returns (bytes: Bytes)
    requires before != []
    ensures |bytes| == |before| && BitsOf(bytes) == BitsOf(before) + Probes(p.hash(key), p.k, 8 * |before|)
  {
    hide WithBit, HasBit, BitsOf, Step, Delta;
    bytes := before;
    var bits := 8 * |before|;
    var h := p.hash(key);
    var delta := Delta(h);
    StepStart(h);
    for j := 0 to p.k
      invariant |bytes| == |before| && h == Step(p.hash(key), j)
      invariant BitsOf(bytes) == BitsOf(before) + Probes(p.hash(key), j, bits)
    {
      var bitpos := h % bits;
      SetBit(bytes, bitpos);
      bytes := bytes[bitpos / 8 := WithBit(bytes[bitpos / 8], bitpos % 8)];
      StepNext(p.hash(key), j);
      h := (h + delta) % WORD;
    }
  }

  lemma StepStart(h: uint32)
    ensures Step(h, 0) == h
  {
  }

  method KeyMayMatch(hash: Bytes -> uint32, key: Bytes, filter: Bytes) returns (r: bool)
    ensures r == MayMatch(hash, filter, key)
  {
    hide HasBit, Step, Delta, BitsOf, BitAt;
    var len := |filter|;
    if len < 2 {
      return false;
    }
    var bytes := filter[..len - 1];
    var bits := (len - 1) * 8;
    var k := filter[len - 1];
    if k > 30 {
      return true;
    }
    var h := hash(key);
    var delta := Delta(h);
    StepStart(h);
    for j := 0 to k
      invariant h == Step(hash(key), j) && Probes(hash(key), j, bits) <= BitsOf(bytes)
    {
      var bitpos := h % bits;
      BitIsIn(bytes, bitpos);
      if !HasBit(bytes[bitpos / 8], bitpos % 8) {
        ProbesGrow(hash(key), j + 1, k, bits);
        return false;
      }
      StepNext(hash(key), j);
      h := (h + delta) % WORD;
    }
    r := true;
  }

  lemma {:induction false} ProbesGrow(h: uint32, m: nat, n: nat, bits: nat)
    requires m <= n && 0 < bits
    ensures Probes(h, m, bits) <= Probes(h, n, bits)
    decreases n
  {
    if m < n {
      ProbesGrow(h, m, n - 1, bits);
    }
  }
}
