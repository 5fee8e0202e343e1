/** What was written reads back, is skipped whole, and does not care what follows (nanopb pb_decode.c). */
module PbWireLaws {
  import opened Common
  import opened Coding
  import opened Varint
  import opened PbSchema
  import opened PbWire

  // ---------- varints ----------

  /** A code ends at its first byte without the top bit. */
  lemma CodeEndsAt(input: seq<byte>, n: nat)
    requires 0 < n <= |input| && input[n - 1] < 128 && forall i :: 0 <= i < n - 1 ==> 128 <= input[i]
    ensures CodeLength(input) == n
  {
  }

  lemma WrittenCode(v: nat, rest: seq<byte>)
    ensures CodeLength(VarintBytes(v) + rest) == |VarintBytes(v)|
    ensures (VarintBytes(v) + rest)[..|VarintBytes(v)|] == VarintBytes(v) && (VarintBytes(v) + rest)[|VarintBytes(v)|..] == rest
  {
    hide VarintBytes, GroupSum, Pow2;
    VarintBytesIs(v);
    CodeEndsAt(VarintBytes(v) + rest, |VarintBytes(v)|);
  }

  lemma WrittenVarint(v: nat, rest: seq<byte>)
    requires v < TWO_64
    ensures VarintOf(VarintBytes(v) + rest) == Some(Taken(v, rest))
  {
    hide VarintBytes, GroupSum, Pow2;
    Pow2Values();
    WrittenCode(v, rest);
    VarintBytesIs(v);
    VarintBytesFit(v, 64);
  }

  /** A number or-ed in above all bits of another is added. */
  lemma {:induction false} OrAdds(a: nat, b: nat, p: nat)
    requires a < Pow2(p)
    ensures Or(a, b * Pow2(p)) == a + b * Pow2(p)
    decreases p
  {
    if 0 < p && a != 0 && b != 0 {
      var q := Pow2(p - 1);
      Doubled(b, q);
      OrAdds(a / 2, b, p - 1);
    }
  }

  lemma Doubled(b: nat, q: nat)
    requires 0 < b && 0 < q
    ensures b * (2 * q) == 2 * (b * q) && b * (2 * q) != 0
  {
  }

  lemma GroupPowers()
    ensures Pow2(7) == 128 && Pow2(14) == 0x4000 && Pow2(21) == 0x20_0000 && Pow2(28) == 0x1000_0000 && Pow2(63) == TWO_63
    ensures Pow2(35) == 128 * 0x1000_0000
  {
    hide Pow2;
    Pow2Values();
    Pow2Next(7);
    Pow2Next(14);
    Pow2Next(21);
    Pow2Next(28);
    assert Pow2(64) == 2 * Pow2(63) by { TwiceIs(63); }
  }

  lemma TwiceIs(n: nat)
    ensures Pow2(n + 1) == 2 * Pow2(n)
  {
  }

  /** The groups below bit 28 are added in. */
  lemma EarlyGroup(value: nat, b: byte, p: nat)
    requires (p == 7 || p == 14 || p == 21) && value < Pow2(p)
    ensures Group32(value, b, p) == value + b % 128 * Pow2(p) < Pow2(p + 7)
  {
    hide Pow2, Or;
    GroupPowers();
    OrAdds(value, b % 128, p);
    SmallProduct(b % 128, Pow2(p));
  }

  lemma SmallProduct(g: nat, p: nat)
    requires g < 128 && (p == 128 || p == 0x4000 || p == 0x20_0000)
    ensures g * p <= 127 * p < 0x1000_0000
  {
  }

  /** Of the group at bit 28 four bits fit. */
  lemma TopGroup(value: nat, b: byte)
    requires value < Pow2(28)
    ensures Group32(value, b, 28) == value + b % 16 * Pow2(28)
  {
    hide Pow2, Or;
    GroupPowers();
    OrAdds(value, b % 16, 28);
    FourBitsStay(b % 128);
  }

  lemma FourBitsStay(g: nat)
    ensures g * 0x1000_0000 % TWO_32 == g % 16 * 0x1000_0000
  {
    var q, r := g / 16, g % 16;
    assert g * 0x1000_0000 == TWO_32 * q + r * 0x1000_0000;
  }

  lemma {:induction false} FirstGroups(code: seq<byte>, n: nat)
    requires 0 < n <= |code| && n <= 4
    ensures Groups32(code, n) == Some(GroupSum(code[..n])) && GroupSum(code[..n]) < Pow2(7 * n)
  {
    hide GroupSum, Group32, Pow2;
    GroupPowers();
    assert code[..n] == code[..n - 1] + [code[n - 1]];
    GroupSumGrows(code[..n - 1], code[n - 1]);
    if n == 1 {
      assert code[..0] == [];
      GroupSumUnfolds([]);
      Pow2Start();
    } else {
      FirstGroups(code, n - 1);
      assert BitPos(1) == 7 && BitPos(2) == 14 && BitPos(3) == 21;
      EarlyGroup(GroupSum(code[..n - 1]), code[n - 1], 7 * (n - 1));
    }
  }

  lemma FifthGroup(code: seq<byte>)
    requires 5 <= |code|
    ensures Groups32(code, 5) == Some(GroupSum(code[..4]) + code[4] % 16 * Pow2(28))
    ensures GroupSum(code[..5]) == GroupSum(code[..4]) + code[4] % 128 * Pow2(28) && GroupSum(code[..4]) < Pow2(28)
  {
    hide GroupSum, Group32, Pow2, Groups32, BitPos, GroupOk;
    FirstGroups(code, 4);
    GroupPowers();
    EarlyPositions(4);
    assert code[..5] == code[..4] + [code[4]];
    GroupSumGrows(code[..4], code[4]);
    TopGroup(GroupSum(code[..4]), code[4]);
    NextGroup(code, 5);
    EarlyIsOk(GroupSum(code[..4]), code[4], 28);
  }

  lemma EarlyIsOk(value: nat, b: byte, p: nat)
    requires p < 32
    ensures GroupOk(value, b, p)
  {
  }

  lemma NextGroup(code: seq<byte>, n: nat)
    requires 1 < n <= |code| && Groups32(code, n - 1).Some?
    ensures var before, b, p := Groups32(code, n - 1).value, code[n - 1], BitPos(n - 1);
            Groups32(code, n) == if !GroupOk(before, b, p) then None else if p < 32 then Some(Group32(before, b, p)) else Some(before)
  {
    hide Group32, GroupOk, BitPos;
  }

  lemma LatePositions(n: nat)
    requires 5 <= n <= 9
    ensures BitPos(n) == 7 * n
  {
    assert BitPos(1) == 7 && BitPos(2) == 14 && BitPos(3) == 21 && BitPos(4) == 28;
    assert BitPos(5) == 35 && BitPos(6) == 42 && BitPos(7) == 49 && BitPos(8) == 56 && BitPos(9) == 63;
  }

  /** A last group beyond bit 32 that is not zero, and not a sign, does not fit. */
  lemma LateCode(code: seq<byte>)
    requires 5 < |code| <= 9 && 0 < code[|code| - 1] < 128
    ensures Value32(code).None?
  {
    hide Groups32, BitPos;
    LatePositions(|code| - 1);
    LatePositions(|code|);
    if Groups32(code, |code| - 1).Some? {
      NextGroup(code, |code|);
    } else {
      NoneNext(code, |code|);
    }
  }

  lemma NoneNext(code: seq<byte>, n: nat)
    requires 1 < n <= |code| && Groups32(code, n - 1).None?
    ensures Groups32(code, n).None?
  {
  }

  /** The last group of what the writer makes is not zero. */
  lemma {:induction false} LastGroupCounts(v: nat)
    ensures var code := VarintBytes(v); 1 < |code| ==> 0 < code[|code| - 1]
  {
    hide VarintBytes;
    VarintUnfolds(v);
    if 128 <= v {
      LastGroupCounts(v / 128);
      VarintUnfolds(v / 128);
    }
  }

  lemma WrittenValue32(v: nat)
    requires v < TWO_63
    ensures Value32(VarintBytes(v)) == if v < TWO_32 then Some(v) else None
  {
    hide VarintBytes, GroupSum, Pow2, Groups32, BitPos;
    var code := VarintBytes(v);
    GroupPowers();
    VarintBytesIs(v);
    VarintBytesFit(v, 63);
    LastGroupCounts(v);
    assert code[..|code|] == code;
    if |code| <= 4 {
      FirstGroups(code, |code|);
      Pow2Grows(7 * |code|, 28);
      assert BitPos(|code|) != 35 by { EarlyPositions(|code|); }
    } else if |code| == 5 {
      FifthGroup(code);
      LatePositions(5);
    } else {
      Pow2Grows(35, 7 * (|code| - 1));
      LateCode(code);
    }
  }

  lemma EarlyPositions(n: nat)
    requires n <= 4
    ensures BitPos(n) == 7 * n
  {
    assert BitPos(1) == 7 && BitPos(2) == 14 && BitPos(3) == 21 && BitPos(4) == 28;
  }

  /** A non-negative number reads back exactly if it fits 32 bits. */
  lemma WrittenVarint32(v: nat, rest: seq<byte>)
    requires v < TWO_63
    ensures Varint32Of(VarintBytes(v) + rest) == if v < TWO_32 then Some(Taken(v, rest)) else None
  {
    hide VarintBytes, Value32;
    WrittenCode(v, rest);
    WrittenValue32(v);
  }

  lemma OneMoreGroup(v: nat, r: nat, left: nat)
    requires r < 128 && 0 < left && v == r + 128 * left
    ensures VarintBytes(v) == [r + 128] + VarintBytes(left)
  {
    hide VarintBytes;
    VarintUnfolds(v);
  }

  lemma SignGroups()
    ensures VarintBytes(0x1fff_ffff) == [0xff, 0xff, 0xff, 0xff, 0x01]
  {
    hide VarintBytes;
    VarintUnfolds(0x1fff_ffff);
    VarintUnfolds(0x3f_ffff);
    VarintUnfolds(0x7fff);
    VarintUnfolds(0xff);
    VarintUnfolds(1);
  }

  lemma SumOfMore(b: byte, rest: seq<byte>)
    ensures GroupSum([b] + rest) == b % 128 + 128 * GroupSum(rest)
  {
    hide GroupSum;
    GroupSumUnfolds([b] + rest);
    assert ([b] + rest)[1..] == rest;
  }

  /** The groups after the fifth are those of a sign. */
  lemma SignFits(code: seq<byte>, value: nat)
    requires |code| == 10 && Groups32(code, 5) == Some(value) && 0x8000_0000 <= value < TWO_32
    requires code[5] == code[6] == code[7] == code[8] == 0xff && code[9] == 0x01
    ensures Value32(code) == Some(value)
  {
    hide Groups32, BitPos;
    LatePositions(5);
    LatePositions(6);
    LatePositions(7);
    LatePositions(8);
    LatePositions(9);
    NextGroup(code, 6);
    NextGroup(code, 7);
    NextGroup(code, 8);
    NextGroup(code, 9);
    NextGroup(code, 10);
    assert BitPos(10) != 35 by { LastPosition(); }
  }

  lemma LastPosition()
    ensures BitPos(10) == 70
  {
    LatePositions(9);
  }

  /** The code of a number with five groups in front of a sign. */
  lemma SignedCode(r0: nat, r1: nat, r2: nat, r3: nat, r4: nat, v: nat, v1: nat, v2: nat, v3: nat, v4: nat)
    requires r0 < 128 && r1 < 128 && r2 < 128 && r3 < 128 && r4 < 128 && v4 == r4 + 128 * 0x1fff_ffff
    requires v == r0 + 128 * v1 && v1 == r1 + 128 * v2 && v2 == r2 + 128 * v3 && v3 == r3 + 128 * v4
    ensures VarintBytes(v) == [r0 + 128, r1 + 128, r2 + 128, r3 + 128, r4 + 128, 0xff, 0xff, 0xff, 0xff, 0x01]
  {
    hide VarintBytes;
    SignGroups();
    OneMoreGroup(v4, r4, 0x1fff_ffff);
    OneMoreGroup(v3, r3, v4);
    OneMoreGroup(v2, r2, v3);
    OneMoreGroup(v1, r1, v2);
    OneMoreGroup(v, r0, v1);
  }

  lemma FourGroups(r0: nat, r1: nat, r2: nat, r3: nat)
    requires r0 < 128 && r1 < 128 && r2 < 128 && r3 < 128
    ensures GroupSum([r0 + 128, r1 + 128, r2 + 128, r3 + 128]) == r0 + 128 * (r1 + 128 * (r2 + 128 * r3))
  {
    hide GroupSum;
    GroupSumUnfolds([]);
    SumOfMore(r3 + 128, []);
    assert [r3 + 128] + [] == [r3 + 128];
    SumOfMore(r2 + 128, [r3 + 128]);
    SumOfMore(r1 + 128, [r2 + 128] + [r3 + 128]);
    SumOfMore(r0 + 128, [r1 + 128] + ([r2 + 128] + [r3 + 128]));
    assert [r0 + 128, r1 + 128, r2 + 128, r3 + 128] == [r0 + 128] + ([r1 + 128] + ([r2 + 128] + [r3 + 128]));
  }

  /** A negative 32-bit number, seven bits at a time. */
  lemma NegativeGroups(v: nat) returns (r0: nat, r1: nat, r2: nat, r3: nat, r4: nat, v1: nat, v2: nat, v3: nat, v4: nat)
    requires TWO_64 - 0x8000_0000 <= v < TWO_64
    ensures r0 < 128 && r1 < 128 && r2 < 128 && r3 < 128 && 120 <= r4 < 128 && v4 == r4 + 128 * 0x1fff_ffff
    ensures v == r0 + 128 * v1 && v1 == r1 + 128 * v2 && v2 == r2 + 128 * v3 && v3 == r3 + 128 * v4
  {
    r0, v1 := v % 128, v / 128;
    r1, v2 := v1 % 128, v1 / 128;
    r2, v3 := v2 % 128, v2 / 128;
    r3, v4 := v3 % 128, v3 / 128;
    r4 := v4 - 128 * 0x1fff_ffff;
  }

  lemma LowFour(r4: nat)
    requires 120 <= r4 < 128
    ensures (r4 + 128) % 16 == r4 - 112
  {
  }

  /** A negative 32-bit number is sent with 64 bits, and reads back as its low 32 bits. */
  lemma WrittenNegative32(i: int, rest: seq<byte>)
    requires -0x8000_0000 <= i < 0
    ensures Varint32Of(VarintBytes(Unsigned64(i)) + rest) == Some(Taken(i + TWO_32, rest))
  {
    hide VarintBytes, Value32, Groups32, GroupSum, Pow2;
    var v := i + TWO_64;
    assert Unsigned64(i) == v;
    var r0, r1, r2, r3, r4, v1, v2, v3, v4 := NegativeGroups(v);
    SignedCode(r0, r1, r2, r3, r4, v, v1, v2, v3, v4);
    NegativeValue(VarintBytes(v), r0, r1, r2, r3, r4);
    WrittenCode(v, rest);
  }

  lemma NegativeValue(code: seq<byte>, r0: nat, r1: nat, r2: nat, r3: nat, r4: nat)
    requires r0 < 128 && r1 < 128 && r2 < 128 && r3 < 128 && 120 <= r4 < 128
    requires code == [r0 + 128, r1 + 128, r2 + 128, r3 + 128, r4 + 128, 0xff, 0xff, 0xff, 0xff, 0x01]
    ensures Value32(code) == Some(r0 + 128 * (r1 + 128 * (r2 + 128 * r3)) + (r4 - 112) * 0x1000_0000)
  {
    hide Value32, Groups32, GroupSum, Pow2;
    FourGroups(r0, r1, r2, r3);
    assert code[..4] == [r0 + 128, r1 + 128, r2 + 128, r3 + 128];
    FifthGroup(code);
    GroupPowers();
    LowFour(r4);
    SignFits(code, r0 + 128 * (r1 + 128 * (r2 + 128 * r3)) + (r4 - 112) * 0x1000_0000);
  }

  lemma WrittenSized(body: seq<byte>, rest: seq<byte>)
    requires |body| < TWO_63
    ensures SizedOf(Delimited(body) + rest) == if |body| < TWO_32 then Some(Taken(body, rest)) else None
  {
    hide VarintBytes, Varint32Of;
    WrittenVarint32(|body|, body + rest);
    assert Delimited(body) + rest == VarintBytes(|body|) + (body + rest);
    assert (body + rest)[..|body|] == body && (body + rest)[|body|..] == rest;
  }

  // ---------- a reader that does not know a field ----------

  /** What a length stands before, in the value of a type that needs one. */
  ghost function Body(t: LType, v: Value): seq<byte>
    requires TypedValue(t, v) && !t.Packable()
  {
    if t.Submessage? then (assert TypedMessage(t.fields, v.slots); FieldsBytes(t.fields, v.slots)) else v.bytes
  }

  /** A reader that does not know a field skips exactly its value, if its length fits 32 bits. */
  lemma ValueIsSkipped(t: LType, v: Value, rest: seq<byte>)
    requires TypedValue(t, v) && (!t.Packable() ==> |Body(t, v)| < TWO_63)
    ensures SkipOf(WireNumber(WireTypeOf(t)), ValueBytes(t, v) + rest) ==
            if t.Packable() || |Body(t, v)| < TWO_32 then Some(rest) else None
  {
    hide VarintBytes, FieldsBytes, TypedMessage, LittleEndian, SizedOf, Delimited;
    if t.Packable() {
      if t.Fixed32? || t.Fixed64? {
        assert (ValueBytes(t, v) + rest)[|ValueBytes(t, v)|..] == rest;
      } else {
        var sent := if t.Bool? then (if v.b then 1 else 0) else if t.Varint? then Unsigned64(v.i) else if t.UVarint? then v.i else ZigZag(v.i);
        WrittenCode(sent, rest);
      }
    } else {
      WrittenSized(Body(t, v), rest);
    }
  }
}
