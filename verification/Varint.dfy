/** Base 128 varints, as util/coding and nanopb both write them. */
module Varint {
  import opened Coding

  const TWO_64: nat := 0x1_0000_0000_0000_0000
  const TWO_32: nat := 0x1_0000_0000

  /** What a 32-bit field keeps of a number. */
  function Low32(n: nat): uint32 {
    n % TWO_32
  }

  lemma Low32IsWhole(n: nat)
    requires n < TWO_32
    ensures Low32(n) == n
  {
  }

  function Pow2(n: nat): (r: nat)
    ensures 0 < r
  {
    if n == 0 then 1 else 2 * Pow2(n - 1)
  }

  /** Base 128 varint: low groups first, the top bit set on all but the last byte. */
  function VarintBytes(v: nat): (r: seq<byte>)
    ensures 0 < |r|
  {
    if v < 128 then [v] else [v % 128 + 128] + VarintBytes(v / 128)
  }

  lemma {:induction false} Pow2Adds(a: nat, b: nat)
    ensures Pow2(a + b) == Pow2(a) * Pow2(b)
    decreases b
  {
    if b == 0 {
    } else {
      Pow2Adds(a, b - 1);
      Associates(Pow2(a), Pow2(b - 1));
    }
  }

  lemma Associates(x: nat, y: nat)
    ensures 2 * (x * y) == x * (2 * y)
  {
  }

  lemma Pow2Values()
    ensures Pow2(7) == 128 && Pow2(28) == 0x1000_0000 && Pow2(32) == TWO_32 && Pow2(64) == TWO_64
  {
    assert Pow2(7) == 128;
    Pow2Adds(7, 7);
    assert Pow2(14) == 0x4000;
    Pow2Adds(14, 14);
    assert Pow2(28) == 0x1000_0000;
    assert Pow2(32) == 16 * Pow2(28);
    Pow2Adds(32, 32);
  }

  lemma {:induction false} Pow2Grows(a: nat, b: nat)
    requires a <= b
    ensures Pow2(a) <= Pow2(b)
    decreases b
  {
    if a < b {
      Pow2Grows(a, b - 1);
    }
  }

  lemma Pow2Start()
    ensures Pow2(0) == 1
  {
  }

  lemma Pow2Next(n: nat)
    ensures Pow2(n + 7) == 128 * Pow2(n)
  {
    Pow2Adds(n, 7);
    Pow2Values();
  }

  /** The seven data bits of a byte put in at a bit position, in a word of the given size. */
  function WithGroup(value: nat, b: byte, bitpos: nat, modulus: nat): (r: nat)
    requires 0 < modulus
    ensures r < modulus
  {
    (value + b % 128 * Pow2(bitpos)) % modulus
  }

  lemma FirstGroup(left: nat, rest: seq<byte>)
    ensures var u := VarintBytes(left) + rest;
            u[0] % 128 == left % 128 && (u[0] >= 128 <==> 128 <= left) && (left < 128 ==> u[0] == left) &&
            u[1..] == if left < 128 then rest else VarintBytes(left / 128) + rest
  {
  }

  // ---------- varints as the readers take them ----------

  /** Groups with the top bit set, then one without, in no more bytes than a word has groups. */
  predicate IsVarint(code: seq<byte>, bits: nat) {
    && 0 < |code| && 7 * (|code| - 1) < bits && code[|code| - 1] < 128
    && forall i :: 0 <= i < |code| - 1 ==> 128 <= code[i]
  }

  /** What the groups add up to; a reader keeps this modulo its word. */
  function GroupSum(code: seq<byte>): nat {
    if code == [] then 0 else code[0] % 128 + 128 * GroupSum(code[1..])
  }

  lemma GroupSumUnfolds(code: seq<byte>)
    ensures GroupSum([]) == 0
    ensures code != [] ==> GroupSum(code) == code[0] % 128 + 128 * GroupSum(code[1..])
  {
  }

  lemma {:induction false} GroupSumGrows(code: seq<byte>, b: byte)
    ensures GroupSum(code + [b]) == GroupSum(code) + b % 128 * Pow2(7 * |code|)
  {
    hide GroupSum, Pow2;
    GroupSumUnfolds(code);
    GroupSumUnfolds(code + [b]);
    if code == [] {
      assert (code + [b])[1..] == [];
      Pow2Start();
    } else {
      GroupSumGrows(code[1..], b);
      assert (code + [b])[1..] == code[1..] + [b];
      assert 7 * |code[1..]| + 7 == 7 * |code|;
      Pow2Next(7 * |code[1..]|);
      ScaledSum(GroupSum(code[1..]), b % 128, Pow2(7 * |code[1..]|));
    }
  }

  lemma ScaledSum(x: nat, y: nat, p: nat)
    ensures 128 * (x + y * p) == 128 * x + y * (128 * p)
  {
  }

  lemma VarintUnfolds(v: nat)
    ensures VarintBytes(v) == if v < 128 then [v] else [v % 128 + 128] + VarintBytes(v / 128)
  {
  }

  /** What a writer makes is a varint of its number, with no more groups than the number needs. */
  lemma {:induction false} VarintBytesIs(v: nat)
    ensures var code := VarintBytes(v);
            && GroupSum(code) == v && code[|code| - 1] < 128 && (forall i :: 0 <= i < |code| - 1 ==> 128 <= code[i])
            && (1 < |code| ==> Pow2(7 * (|code| - 1)) <= v)
  {
    hide VarintBytes, GroupSum, Pow2;
    VarintUnfolds(v);
    var code := VarintBytes(v);
    GroupSumUnfolds(code);
    if v < 128 {
      GroupSumUnfolds(code[1..]);
    } else {
      VarintBytesIs(v / 128);
      var rest := VarintBytes(v / 128);
      assert code[1..] == rest;
      Pow2Next(7 * (|rest| - 1));
      Pow2Start();
      assert 7 * (|code| - 1) == 7 * (|rest| - 1) + 7;
    }
  }

  lemma VarintBytesFit(v: nat, bits: nat)
    requires v < Pow2(bits) && 0 < bits
    ensures IsVarint(VarintBytes(v), bits)
  {
    hide VarintBytes, GroupSum, Pow2;
    VarintBytesIs(v);
    var n := 7 * (|VarintBytes(v)| - 1);
    if bits <= n {
      Pow2Grows(bits, n);
    }
  }
}
