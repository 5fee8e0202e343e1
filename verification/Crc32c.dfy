/** CRC32C of section 12.1 of RFC 3720: the four-stride loop against one byte at a time (util/crc32c). */
module Crc32c {
  type byte = bv8

  // ---------- words ----------

  function Xor(a: bv32, b: bv32): bv32 {
    a ^ b
  }

  lemma XorAssociates(a: bv32, b: bv32, c: bv32)
    ensures Xor(a, Xor(b, c)) == Xor(Xor(a, b), c)
  {
  }

  lemma XorCommutes(a: bv32, b: bv32)
    ensures Xor(a, b) == Xor(b, a)
  {
  }

  lemma XorSwaps(a: bv32, b: bv32, c: bv32)
    ensures Xor(Xor(a, b), c) == Xor(Xor(c, b), a)
  {
    hide Xor;
    XorCommutes(Xor(a, b), c);
    XorCommutes(a, b);
    XorAssociates(c, b, a);
  }

  lemma XorSelf(a: bv32)
    ensures Xor(a, a) == 0
  {
  }

  lemma XorZero(a: bv32)
    ensures Xor(a, 0) == a
  {
  }

  function Low(x: bv32): bv32 {
    x & 0xff
  }

  function Rest(x: bv32): bv32 {
    x >> 8
  }

  /** A byte moved up by one, two or three bytes. */
  function Up(x: bv32, bytes: int): bv32 {
    if bytes == 1 then x << 8 else if bytes == 2 then x << 16 else if bytes == 3 then x << 24 else x
  }

  function Join(x0: bv32, x1: bv32, x2: bv32, x3: bv32): bv32 {
    Or(Or(Or(x0, Up(x1, 1)), Up(x2, 2)), Up(x3, 3))
  }

  function Or(a: bv32, b: bv32): bv32 {
    a | b
  }

  predicate Odd(x: bv32) {
    x & 1 == 1
  }

  function Half(x: bv32): bv32 {
    x >> 1
  }

  // ---------- the polynomial ----------

  const POLYNOMIAL: bv32 := 0x82f6_3b78

  /** One bit of the reflected division by the Castagnoli polynomial. */
  function Bit(x: bv32): bv32 {
    if Odd(x) then Xor(Half(x), POLYNOMIAL) else Half(x)
  }

  /** Division advanced by one zero byte. */
  function Advance(x: bv32): bv32 {
    Bit(Bit(Bit(Bit(Bit(Bit(Bit(Bit(x))))))))
  }

  function Advance4(x: bv32): bv32 {
    Advance(Advance(Advance(Advance(x))))
  }

  function Advance16(x: bv32): bv32 {
    Advance4(Advance4(Advance4(Advance4(x))))
  }

  lemma HalvesXor(x: bv32, y: bv32)
    ensures (x ^ y) >> 1 == (x >> 1) ^ (y >> 1)
    ensures ((x ^ y) & 1 == 1) <==> ((x & 1 == 1) != (y & 1 == 1))
  {
  }

  lemma HalfXor(x: bv32, y: bv32)
    ensures Half(Xor(x, y)) == Xor(Half(x), Half(y))
    ensures Odd(Xor(x, y)) <==> Odd(x) != Odd(y)
  {
    HalvesXor(x, y);
  }

  lemma XorCancels(a: bv32, b: bv32, p: bv32)
    ensures Xor(Xor(a, p), Xor(b, p)) == Xor(a, b)
    ensures Xor(Xor(a, p), b) == Xor(Xor(a, b), p) == Xor(a, Xor(b, p))
  {
    hide Xor;
    XorAssociates(a, p, b);
    XorCommutes(p, b);
    XorAssociates(a, b, p);
    XorAssociates(Xor(a, p), b, p);
    XorAssociates(Xor(a, b), p, p);
    XorSelf(p);
    XorZero(Xor(a, b));
  }

  lemma BitLinear(x: bv32, y: bv32)
    ensures Bit(Xor(x, y)) == Xor(Bit(x), Bit(y))
  {
    hide Xor, Half, Odd;
    HalfXor(x, y);
    XorCancels(Half(x), Half(y), POLYNOMIAL);
  }

  lemma AdvanceLinear(x: bv32, y: bv32)
    ensures Advance(Xor(x, y)) == Xor(Advance(x), Advance(y))
  {
    hide Bit, Xor;
    var a, b := x, y;
    BitLinear(a, b);
    a, b := Bit(a), Bit(b);
    BitLinear(a, b);
    a, b := Bit(a), Bit(b);
    BitLinear(a, b);
    a, b := Bit(a), Bit(b);
    BitLinear(a, b);
    a, b := Bit(a), Bit(b);
    BitLinear(a, b);
    a, b := Bit(a), Bit(b);
    BitLinear(a, b);
    a, b := Bit(a), Bit(b);
    BitLinear(a, b);
    a, b := Bit(a), Bit(b);
    BitLinear(a, b);
  }

  lemma Advance4Linear(x: bv32, y: bv32)
    ensures Advance4(Xor(x, y)) == Xor(Advance4(x), Advance4(y))
  {
    hide Advance, Xor;
    var a, b := x, y;
    AdvanceLinear(a, b);
    a, b := Advance(a), Advance(b);
    AdvanceLinear(a, b);
    a, b := Advance(a), Advance(b);
    AdvanceLinear(a, b);
    a, b := Advance(a), Advance(b);
    AdvanceLinear(a, b);
  }

  lemma Advance16Linear(x: bv32, y: bv32)
    ensures Advance16(Xor(x, y)) == Xor(Advance16(x), Advance16(y))
  {
    hide Advance4, Xor;
    var a, b := x, y;
    Advance4Linear(a, b);
    a, b := Advance4(a), Advance4(b);
    Advance4Linear(a, b);
    a, b := Advance4(a), Advance4(b);
    Advance4Linear(a, b);
    a, b := Advance4(a), Advance4(b);
    Advance4Linear(a, b);
  }

  lemma LowBitsZero(x: bv32)
    requires x & 0xff == 0
    ensures x & 1 != 1 && (x >> 1) & 1 != 1 && (x >> 2) & 1 != 1 && (x >> 3) & 1 != 1
    ensures (x >> 4) & 1 != 1 && (x >> 5) & 1 != 1 && (x >> 6) & 1 != 1 && (x >> 7) & 1 != 1
  {
  }

  lemma ShiftsAdd(x: bv32)
    ensures (x >> 1) >> 1 == x >> 2 && (x >> 2) >> 1 == x >> 3 && (x >> 3) >> 1 == x >> 4 && (x >> 4) >> 1 == x >> 5
    ensures (x >> 5) >> 1 == x >> 6 && (x >> 6) >> 1 == x >> 7 && (x >> 7) >> 1 == x >> 8
  {
  }

  lemma EightHalves(x: bv32)
    ensures Half(Half(x)) == x >> 2 && Half(Half(Half(x))) == x >> 3 && Half(Half(Half(Half(x)))) == x >> 4
    ensures Half(Half(Half(Half(Half(x))))) == x >> 5 && Half(Half(Half(Half(Half(Half(x)))))) == x >> 6
    ensures Half(Half(Half(Half(Half(Half(Half(x))))))) == x >> 7 && Half(Half(Half(Half(Half(Half(Half(Half(x)))))))) == Rest(x)
  {
    ShiftsAdd(x);
  }

  /** A zero low byte is only shifted out. */
  lemma AdvanceShifts(x: bv32)
    requires Low(x) == 0
    ensures Advance(x) == Rest(x)
  {
    NoOddHalf(x);
    EightHalves(x);
    hide Odd, Half, Low, Rest, Xor;
  }

  lemma NoOddHalf(x: bv32)
    requires Low(x) == 0
    ensures !Odd(x) && !Odd(Half(x)) && !Odd(Half(Half(x))) && !Odd(Half(Half(Half(x)))) && !Odd(Half(Half(Half(Half(x)))))
    ensures !Odd(Half(Half(Half(Half(Half(x)))))) && !Odd(Half(Half(Half(Half(Half(Half(x)))))))
    ensures !Odd(Half(Half(Half(Half(Half(Half(Half(x))))))))
  {
    LowBitsZero(x);
    EightHalves(x);
    hide Half, Rest;
    assert Half(x) == x >> 1 by { HalfIs(x); }
  }

  lemma HalfIs(x: bv32)
    ensures Half(x) == x >> 1
  {
  }

  // ---------- what the polynomial is ----------

  /** The exponents of the Castagnoli polynomial. */
  const CASTAGNOLI: set<nat> := {32, 28, 27, 26, 25, 23, 22, 20, 19, 18, 14, 13, 11, 10, 9, 8, 6, 0}

  function Shifted(x: bv32, n: nat): bv32 {
    if n == 0 then x else Half(Shifted(x, n - 1))
  }

  /** The words are reflected: the top bit is the coefficient of 1 and the bottom bit that of x^31. */
  predicate Coefficient(x: bv32, i: nat)
    requires i < 32
  {
    Odd(Shifted(x, 31 - i))
  }

  lemma {:induction false} ShiftedHalf(x: bv32, n: nat)
    ensures Shifted(Half(x), n) == Shifted(x, n + 1)
  {
    hide Half;
    if 0 < n {
      ShiftedHalf(x, n - 1);
    }
  }

  lemma {:induction false} ShiftedXor(x: bv32, y: bv32, n: nat)
    ensures Shifted(Xor(x, y), n) == Xor(Shifted(x, n), Shifted(y, n))
  {
    hide Half, Xor, Odd;
    if 0 < n {
      ShiftedXor(x, y, n - 1);
      HalfXor(Shifted(x, n - 1), Shifted(y, n - 1));
    }
  }

  lemma ShiftedByte(x: bv32, n: nat)
    ensures Shifted(x, n + 8) == Rest(Shifted(x, n))
  {
    hide Half, Rest;
    EightHalves(Shifted(x, n));
    var y := Shifted(x, n);
    assert Shifted(x, n + 1) == Half(y);
    assert Shifted(x, n + 2) == Half(Half(y));
    assert Shifted(x, n + 3) == Half(Half(Half(y)));
    assert Shifted(x, n + 4) == Half(Half(Half(Half(y))));
    assert Shifted(x, n + 5) == Half(Half(Half(Half(Half(y)))));
    assert Shifted(x, n + 6) == Half(Half(Half(Half(Half(Half(y))))));
    assert Shifted(x, n + 7) == Half(Half(Half(Half(Half(Half(Half(y)))))));
  }

  lemma FourRests(x: bv32)
    ensures Rest(Rest(Rest(Rest(x)))) == 0 && !Odd(0)
  {
  }

  /** Nothing is left of a word shifted down by its 32 bits. */
  lemma ShiftedOut(x: bv32)
    ensures Shifted(x, 32) == 0 && !Odd(Shifted(x, 32))
  {
    hide Rest, Half, Odd;
    assert Shifted(x, 0) == x;
    ShiftedByte(x, 0);
    ShiftedByte(x, 8);
    ShiftedByte(x, 16);
    ShiftedByte(x, 24);
    FourRests(x);
  }

  /** The constant shifted down bit by bit. */
  lemma ShiftedPolynomial()
    ensures Shifted(POLYNOMIAL, 0) == 0x82f6_3b78 && Shifted(POLYNOMIAL, 1) == 0x417b_1dbc && Shifted(POLYNOMIAL, 2) == 0x20bd_8ede && Shifted(POLYNOMIAL, 3) == 0x105e_c76f
    ensures Shifted(POLYNOMIAL, 4) == 0x082f_63b7 && Shifted(POLYNOMIAL, 5) == 0x0417_b1db && Shifted(POLYNOMIAL, 6) == 0x020b_d8ed && Shifted(POLYNOMIAL, 7) == 0x0105_ec76
    ensures Shifted(POLYNOMIAL, 8) == 0x0082_f63b && Shifted(POLYNOMIAL, 9) == 0x0041_7b1d && Shifted(POLYNOMIAL, 10) == 0x0020_bd8e && Shifted(POLYNOMIAL, 11) == 0x0010_5ec7
    ensures Shifted(POLYNOMIAL, 12) == 0x0008_2f63 && Shifted(POLYNOMIAL, 13) == 0x0004_17b1 && Shifted(POLYNOMIAL, 14) == 0x0002_0bd8 && Shifted(POLYNOMIAL, 15) == 0x0001_05ec
    ensures Shifted(POLYNOMIAL, 16) == 0x82f6 && Shifted(POLYNOMIAL, 17) == 0x417b && Shifted(POLYNOMIAL, 18) == 0x20bd && Shifted(POLYNOMIAL, 19) == 0x105e
    ensures Shifted(POLYNOMIAL, 20) == 0x82f && Shifted(POLYNOMIAL, 21) == 0x417 && Shifted(POLYNOMIAL, 22) == 0x20b && Shifted(POLYNOMIAL, 23) == 0x105
    ensures Shifted(POLYNOMIAL, 24) == 0x82 && Shifted(POLYNOMIAL, 25) == 0x41 && Shifted(POLYNOMIAL, 26) == 0x20 && Shifted(POLYNOMIAL, 27) == 0x10
    ensures Shifted(POLYNOMIAL, 28) == 0x8 && Shifted(POLYNOMIAL, 29) == 0x4 && Shifted(POLYNOMIAL, 30) == 0x2 && Shifted(POLYNOMIAL, 31) == 0x1
  {
  }

  /** The constant's coefficients are those of the Castagnoli polynomial below x^32. */
  lemma PolynomialIs(i: nat)
    requires i < 32
    ensures Coefficient(POLYNOMIAL, i) <==> i in CASTAGNOLI
  {
    ShiftedPolynomial();
  }

  /** One turn of the division is multiplication by x modulo the Castagnoli polynomial. */
  lemma BitIsTimesX(x: bv32, i: nat)
    requires i < 32
    ensures Coefficient(Bit(x), i) <==> (0 < i && Coefficient(x, i - 1)) != (Coefficient(x, 31) && i in CASTAGNOLI)
  {
    hide Odd, Half, Xor, Shifted;
    PolynomialIs(i);
    NotShifted(x);
    HalfCoefficient(x, i);
    if Odd(x) {
      ShiftedXor(Half(x), POLYNOMIAL, 31 - i);
      HalfXor(Shifted(Half(x), 31 - i), Shifted(POLYNOMIAL, 31 - i));
    }
  }

  lemma NotShifted(x: bv32)
    ensures Shifted(x, 0) == x
  {
  }

  /** Shifting the word down moves every coefficient up. */
  lemma HalfCoefficient(x: bv32, i: nat)
    requires i < 32
    ensures Coefficient(Half(x), i) <==> 0 < i && Coefficient(x, i - 1)
  {
    hide Odd, Half, Shifted;
    ShiftedHalf(x, 31 - i);
    ShiftedOut(x);
  }

  // ---------- the tables, by what they mean ----------

  /** kByteExtensionTable. */
  function ByteExtension(c: bv32): bv32 {
    Advance(c)
  }

  /** kStrideExtensionTable0 to 3: sixteen zero bytes after a byte at the top, ..., bottom of the word. */
  function StrideExtension(table: int, c: bv32): bv32
    requires 0 <= table < 4
  {
    Advance16(Up(c, 3 - table))
  }

  lemma SplitLow(l: bv32) returns (high: bv32)
    ensures l == Xor(Low(l), high) && Low(high) == 0 && Rest(high) == Rest(l)
  {
    high := l & 0xffff_ff00;
  }

  lemma ByteTable(l: bv32)
    ensures Xor(ByteExtension(Low(l)), Rest(l)) == Advance(l)
  {
    hide Advance, Xor, Low, Rest;
    var high := SplitLow(l);
    AdvanceLinear(Low(l), high);
    AdvanceShifts(high);
  }

  function ByteAt(c: bv32, i: int): bv32
    requires 0 <= i < 4
  {
    if i == 0 then c & 0xff else if i == 1 then (c >> 8) & 0xff else if i == 2 then (c >> 16) & 0xff else c >> 24
  }

  lemma SplitBytes(c: bv32)
    ensures c == Xor(Xor(Xor(ByteAt(c, 0), Up(ByteAt(c, 1), 1)), Up(ByteAt(c, 2), 2)), Up(ByteAt(c, 3), 3))
  {
  }

  lemma StrideTables(c: bv32)
    ensures Xor(Xor(Xor(StrideExtension(3, ByteAt(c, 0)), StrideExtension(2, ByteAt(c, 1))), StrideExtension(1, ByteAt(c, 2))),
                StrideExtension(0, ByteAt(c, 3))) == Advance16(c)
  {
    SplitBytes(c);
    UpNothing(ByteAt(c, 0));
    hide Advance16, Xor, ByteAt, Up;
    var b0, b1, b2, b3 := ByteAt(c, 0), Up(ByteAt(c, 1), 1), Up(ByteAt(c, 2), 2), Up(ByteAt(c, 3), 3);
    Advance16Linear(Xor(Xor(b0, b1), b2), b3);
    Advance16Linear(Xor(b0, b1), b2);
    Advance16Linear(b0, b1);
  }

  lemma UpNothing(x: bv32)
    ensures Up(x, 0) == x
  {
  }

  // ---------- the specification: byte at a time ----------

  /** STEP1. */
  function Step(l: bv32, b: byte): bv32 {
    Xor(ByteExtension(Xor(Low(l), b as bv32)), Rest(l))
  }

  function Fold(l: bv32, data: seq<byte>): bv32 {
    if data == [] then l else Step(Fold(l, data[..|data| - 1]), data[|data| - 1])
  }

  function Value(crc: bv32, data: seq<byte>): bv32 {
    Xor(Fold(Xor(crc, 0xffff_ffff), data), 0xffff_ffff)
  }

  lemma ByteIntoLow(l: bv32, b: byte)
    ensures Low(Xor(l, b as bv32)) == Xor(Low(l), b as bv32) && Rest(Xor(l, b as bv32)) == Rest(l)
  {
  }

  lemma StepAdvances(l: bv32, b: byte)
    ensures Step(l, b) == Advance(Xor(l, b as bv32))
  {
    hide Advance, ByteExtension, Xor, Low, Rest;
    ByteIntoLow(l, b);
    ByteTable(Xor(l, b as bv32));
  }

  lemma {:induction false} FoldAppends(l: bv32, a: seq<byte>, b: seq<byte>)
    ensures Fold(l, a + b) == Fold(Fold(l, a), b)
  {
    hide Step;
    if b == [] {
      assert a + b == a;
    } else {
      FoldAppends(l, a, b[..|b| - 1]);
      assert (a + b)[..|a + b| - 1] == a + b[..|b| - 1];
    }
  }

  lemma XorTwice(x: bv32)
    ensures Xor(Xor(x, 0xffff_ffff), 0xffff_ffff) == x
  {
  }

  /** Extending by one part and then the other is extending by both. */
  lemma ValueAppends(crc: bv32, a: seq<byte>, b: seq<byte>)
    ensures Value(Value(crc, a), b) == Value(crc, a + b)
  {
    FoldAppends(Xor(crc, 0xffff_ffff), a, b);
    XorTwice(Fold(Xor(crc, 0xffff_ffff), a));
    hide Xor, Fold;
  }

  /** ReadUint32LE. */
  function Word(data: seq<byte>, p: nat): bv32
    requires p + 4 <= |data|
  {
    Join(data[p] as bv32, data[p + 1] as bv32, data[p + 2] as bv32, data[p + 3] as bv32)
  }

  lemma UpIsClean(b: byte, n: int)
    requires 1 <= n <= 3
    ensures Low(Up(b as bv32, n)) == 0 && Rest(Up(b as bv32, n)) == Up(b as bv32, n - 1)
  {
  }

  /** A byte mixed in after an advance can be mixed in one byte higher before it. */
  lemma Delay(l: bv32, b: byte, n: int)
    requires 0 <= n < 3
    ensures Xor(Advance(l), Up(b as bv32, n)) == Advance(Xor(l, Up(b as bv32, n + 1)))
  {
    hide Advance, Xor, Low, Rest, Up;
    UpIsClean(b, n + 1);
    AdvanceLinear(l, Up(b as bv32, n + 1));
    AdvanceShifts(Up(b as bv32, n + 1));
  }

  lemma DisjointBits(x0: bv32, x1: bv32, x2: bv32, x3: bv32)
    requires x0 <= 0xff && x1 <= 0xff && x2 <= 0xff
    ensures x0 & (x1 << 8) == 0
    ensures (x0 | (x1 << 8)) & (x2 << 16) == 0
    ensures ((x0 | (x1 << 8)) | (x2 << 16)) & (x3 << 24) == 0
  {
  }

  lemma OrIsXor(a: bv32, b: bv32)
    requires a & b == 0
    ensures a | b == a ^ b
  {
  }

  lemma OrXor(a: bv32, b: bv32)
    requires Apart(a, b)
    ensures Or(a, b) == Xor(a, b)
  {
    OrIsXor(a, b);
  }

  predicate Apart(a: bv32, b: bv32) {
    a & b == 0
  }

  lemma BytesApart(x0: bv32, x1: bv32, x2: bv32, x3: bv32)
    requires x0 <= 0xff && x1 <= 0xff && x2 <= 0xff
    ensures Apart(x0, Up(x1, 1)) && Apart(Or(x0, Up(x1, 1)), Up(x2, 2)) && Apart(Or(Or(x0, Up(x1, 1)), Up(x2, 2)), Up(x3, 3))
  {
    DisjointBits(x0, x1, x2, x3);
  }

  lemma JoinIsXors(x0: bv32, x1: bv32, x2: bv32, x3: bv32)
    requires x0 <= 0xff && x1 <= 0xff && x2 <= 0xff
    ensures Join(x0, x1, x2, x3) == Xor(Xor(Xor(x0, Up(x1, 1)), Up(x2, 2)), Up(x3, 3))
  {
    BytesApart(x0, x1, x2, x3);
    hide Xor, Up, Or, Apart;
    OrXor(x0, Up(x1, 1));
    OrXor(Or(x0, Up(x1, 1)), Up(x2, 2));
    OrXor(Or(Or(x0, Up(x1, 1)), Up(x2, 2)), Up(x3, 3));
  }

  lemma ByteBound(b: byte)
    ensures b as bv32 <= 0xff
  {
  }

  lemma JoinIsXor(l: bv32, b0: byte, b1: byte, b2: byte, b3: byte)
    ensures Xor(l, Join(b0 as bv32, b1 as bv32, b2 as bv32, b3 as bv32)) ==
            Xor(Xor(Xor(Xor(l, b0 as bv32), Up(b1 as bv32, 1)), Up(b2 as bv32, 2)), Up(b3 as bv32, 3))
  {
    ByteBound(b0);
    ByteBound(b1);
    ByteBound(b2);
    hide Xor, Up, Join;
    var x0, u1, u2, u3 := b0 as bv32, Up(b1 as bv32, 1), Up(b2 as bv32, 2), Up(b3 as bv32, 3);
    JoinIsXors(x0, b1 as bv32, b2 as bv32, b3 as bv32);
    XorAssociates(l, Xor(Xor(x0, u1), u2), u3);
    XorAssociates(l, Xor(x0, u1), u2);
    XorAssociates(l, x0, u1);
  }

  /** Four byte steps are one word step. */
  lemma WordStep(l: bv32, b0: byte, b1: byte, b2: byte, b3: byte)
    ensures Step(Step(Step(Step(l, b0), b1), b2), b3) ==
            Advance4(Xor(l, Join(b0 as bv32, b1 as bv32, b2 as bv32, b3 as bv32)))
  {
    JoinIsXor(l, b0, b1, b2, b3);
    UpNothing(b1 as bv32);
    UpNothing(b2 as bv32);
    UpNothing(b3 as bv32);
    hide Advance, Step, Xor, Join, Up;
    var y0 := Xor(l, b0 as bv32);
    var y1 := Xor(y0, Up(b1 as bv32, 1));
    var y2 := Xor(y1, Up(b2 as bv32, 2));
    StepAdvances(l, b0);
    StepAdvances(Step(l, b0), b1);
    StepAdvances(Step(Step(l, b0), b1), b2);
    StepAdvances(Step(Step(Step(l, b0), b1), b2), b3);
    Delay(y0, b1, 0);
    Delay(y1, b2, 1);
    Delay(Advance(y1), b2, 0);
    Delay(y2, b3, 2);
    Delay(Advance(y2), b3, 1);
    Delay(Advance(Advance(y2)), b3, 0);
  }

  lemma FoldOne(l: bv32, data: seq<byte>, p: nat)
    requires p < |data|
    ensures Fold(l, data[..p + 1]) == Step(Fold(l, data[..p]), data[p])
  {
    hide Step;
    assert data[..p + 1][..p] == data[..p];
  }

  lemma FoldWord(l: bv32, data: seq<byte>, p: nat)
    requires p + 4 <= |data|
    ensures Fold(l, data[..p + 4]) == Advance4(Xor(Fold(l, data[..p]), Word(data, p)))
  {
    hide Advance4, Step, Xor, Join, Fold;
    FoldOne(l, data, p);
    FoldOne(l, data, p + 1);
    FoldOne(l, data, p + 2);
    FoldOne(l, data, p + 3);
    WordStep(Fold(l, data[..p]), data[p], data[p + 1], data[p + 2], data[p + 3]);
  }

  // ---------- strides ----------

  /** What four partial results of interleaved strides stand for. */
  function Combined(crc0: bv32, crc1: bv32, crc2: bv32, crc3: bv32): bv32 {
    Advance4(Xor(crc3, Advance4(Xor(crc2, Advance4(Xor(crc1, Advance4(crc0)))))))
  }

  /** STEP4 on a loaded word. */
  function Step4(crc: bv32, w: bv32): bv32 {
    Xor(w, Xor(Xor(Xor(StrideExtension(3, ByteAt(crc, 0)), StrideExtension(2, ByteAt(crc, 1))), StrideExtension(1, ByteAt(crc, 2))),
               StrideExtension(0, ByteAt(crc, 3))))
  }

  lemma Step4Advances(crc: bv32, w: bv32)
    ensures Step4(crc, w) == Xor(w, Advance16(crc))
  {
    hide StrideExtension, Advance16, Xor, ByteAt;
    StrideTables(crc);
  }

  /** Taking in one more word moves the oldest stride to the end. */
  lemma StrideStep(crc0: bv32, crc1: bv32, crc2: bv32, crc3: bv32, w: bv32)
    ensures Combined(crc1, crc2, crc3, Step4(crc0, w)) == Advance4(Xor(Combined(crc0, crc1, crc2, crc3), w))
  {
    hide Advance4, Step4, Xor;
    Step4Advances(crc0, w);
    var a0 := Advance4(crc0);
    var a1 := Advance4(crc1);
    Advance4Linear(crc1, a0);
    XorAssociates(crc2, a1, Advance4(a0));
    Advance4Linear(Xor(crc2, a1), Advance4(a0));
    var b := Advance4(Xor(crc2, a1));
    XorAssociates(crc3, b, Advance4(Advance4(a0)));
    Advance4Linear(Xor(crc3, b), Advance4(Advance4(a0)));
    var c := Advance4(Xor(crc3, b));
    assert Combined(crc0, crc1, crc2, crc3) == Xor(c, Advance16(crc0));
    XorSwaps(w, Advance16(crc0), c);
  }

  /** STEP4W: a word worked off byte by byte. */
  function Step4W(l: bv32, w: bv32): bv32 {
    var w0 := Xor(w, l);
    var w1 := Xor(Rest(w0), ByteExtension(Low(w0)));
    var w2 := Xor(Rest(w1), ByteExtension(Low(w1)));
    var w3 := Xor(Rest(w2), ByteExtension(Low(w2)));
    Xor(Rest(w3), ByteExtension(Low(w3)))
  }

  lemma ByteRound(w: bv32)
    ensures Xor(Rest(w), ByteExtension(Low(w))) == Advance(w)
  {
    hide Advance, ByteExtension, Low, Rest;
    ByteTable(w);
    XorCommutes(Rest(w), ByteExtension(Low(w)));
  }

  lemma Step4WAdvances(l: bv32, w: bv32)
    ensures Step4W(l, w) == Advance4(Xor(w, l))
  {
    hide Advance, ByteExtension, Low, Rest, Xor;
    var w0 := Xor(w, l);
    ByteRound(w0);
    ByteRound(Advance(w0));
    ByteRound(Advance(Advance(w0)));
    ByteRound(Advance(Advance(Advance(w0))));
  }

  // ---------- the loop ----------

  /** crc32c::Extend on a buffer at any address: aligned start, sixteen bytes a round, words, then the tail. */
  method Extend(crc: bv32, data: seq<byte>, address: nat) returns (r: bv32)
    ensures r == Value(crc, data)
  {
    hide Step, Fold, Xor, Word, Combined, Step4, Step4W;
    var n := |data|;
    var l := Xor(crc, 0xffff_ffff);
    ghost var l0 := l;
    FoldNothing(l0, data);
    var p := 0;
    var x := (4 - address % 4) % 4;
    if x <= n {
      while p != x
        invariant p <= x && l == Fold(l0, data[..p])
      {
        FoldOne(l0, data, p);
        l := Step(l, data[p]);
        p := p + 1;
      }
    }
    if n - p >= 16 {
      l, p := ExtendByStrides(l0, data, p, l);
    }
    while p != n
      invariant p <= n && l == Fold(l0, data[..p])
    {
      FoldOne(l0, data, p);
      l := Step(l, data[p]);
      p := p + 1;
    }
    assert data[..n] == data;
    r := Xor(l, 0xffff_ffff);
  }

  lemma FoldNothing(l: bv32, data: seq<byte>)
    ensures Fold(l, data[..0]) == l
  {
  }

  lemma FirstFourWords(l0: bv32, data: seq<byte>, p: nat)
    requires p + 16 <= |data|
    ensures Fold(l0, data[..p + 16]) ==
            Combined(Xor(Word(data, p), Fold(l0, data[..p])), Word(data, p + 4), Word(data, p + 8), Word(data, p + 12))
  {
    hide Fold, Xor, Word, Advance4;
    FoldWord(l0, data, p);
    FoldWord(l0, data, p + 4);
    FoldWord(l0, data, p + 8);
    FoldWord(l0, data, p + 12);
    XorCommutes(Word(data, p), Fold(l0, data[..p]));
    XorCommutes(Word(data, p + 4), Fold(l0, data[..p + 4]));
    XorCommutes(Word(data, p + 8), Fold(l0, data[..p + 8]));
    XorCommutes(Word(data, p + 12), Fold(l0, data[..p + 12]));
  }

  lemma OneMoreWord(l0: bv32, data: seq<byte>, p: nat, crc0: bv32, crc1: bv32, crc2: bv32, crc3: bv32)
    requires p + 4 <= |data| && Fold(l0, data[..p]) == Combined(crc0, crc1, crc2, crc3)
    ensures Fold(l0, data[..p + 4]) == Combined(crc1, crc2, crc3, Step4(crc0, Word(data, p)))
  {
    hide Fold, Xor, Word, Advance4, Step4, Combined;
    FoldWord(l0, data, p);
    StrideStep(crc0, crc1, crc2, crc3, Word(data, p));
  }

  method ExtendByStrides(ghost l0: bv32, data: seq<byte>, start: nat, l: bv32) returns (r: bv32, p: nat)
    requires start + 16 <= |data| && l == Fold(l0, data[..start])
    ensures start <= p <= |data| && |data| - p < 4 && r == Fold(l0, data[..p])
  {
    hide Fold, Xor, Word, Combined, Step4, Step4W;
    var n := |data|;
    p := start;
    FirstFourWords(l0, data, p);
    var crc0 := Xor(Word(data, p), l);
    var crc1 := Word(data, p + 4);
    var crc2 := Word(data, p + 8);
    var crc3 := Word(data, p + 12);
    p := p + 16;
    while n - p >= 16
      invariant start <= p <= n && Fold(l0, data[..p]) == Combined(crc0, crc1, crc2, crc3)
    {
      OneMoreWord(l0, data, p, crc0, crc1, crc2, crc3);
      crc0 := Step4(crc0, Word(data, p));
      OneMoreWord(l0, data, p + 4, crc1, crc2, crc3, crc0);
      crc1 := Step4(crc1, Word(data, p + 4));
      OneMoreWord(l0, data, p + 8, crc2, crc3, crc0, crc1);
      crc2 := Step4(crc2, Word(data, p + 8));
      OneMoreWord(l0, data, p + 12, crc3, crc0, crc1, crc2);
      crc3 := Step4(crc3, Word(data, p + 12));
      p := p + 16;
    }
    while n - p >= 4
      invariant start <= p <= n && Fold(l0, data[..p]) == Combined(crc0, crc1, crc2, crc3)
    {
      OneMoreWord(l0, data, p, crc0, crc1, crc2, crc3);
      crc0 := Step4(crc0, Word(data, p));
      var tmp := crc0;
      crc0 := crc1;
      crc1 := crc2;
      crc2 := crc3;
      crc3 := tmp;
      p := p + 4;
    }
    CombineStrides(crc0, crc1, crc2, crc3);
    r := 0;
    r := Step4W(r, crc0);
    r := Step4W(r, crc1);
    r := Step4W(r, crc2);
    r := Step4W(r, crc3);
  }

  lemma CombineStrides(crc0: bv32, crc1: bv32, crc2: bv32, crc3: bv32)
    ensures Step4W(Step4W(Step4W(Step4W(0, crc0), crc1), crc2), crc3) == Combined(crc0, crc1, crc2, crc3)
  {
    XorZero(crc0);
    hide Step4W, Xor, Advance4;
    var l1 := Step4W(0, crc0);
    var l2 := Step4W(l1, crc1);
    Step4WAdvances(0, crc0);
    Step4WAdvances(l1, crc1);
    Step4WAdvances(l2, crc2);
    Step4WAdvances(Step4W(l2, crc2), crc3);
  }

  // ---------- check values ----------

  lemma FoldMore(l: bv32, data: seq<byte>, p: nat, before: bv32, after: bv32)
    requires p < |data| && Fold(l, data[..p]) == before && Advance(Xor(before, data[p] as bv32)) == after
    ensures Fold(l, data[..p + 1]) == after
  {
    hide Advance, Xor, Step, Fold;
    FoldOne(l, data, p);
    StepAdvances(before, data[p]);
  }

  lemma Zeros8(data: seq<byte>)
    requires |data| == 32 && forall i :: 0 <= i < 32 ==> data[i] == 0
    requires Fold(0xffff_ffff, data[..0]) == 0xffff_ffff
    ensures Fold(0xffff_ffff, data[..8]) == 0x73d7_4d75
  {
    hide Fold;
    FoldMore(0xffff_ffff, data, 0, 0xffff_ffff, 0xad82_acae);
    FoldMore(0xffff_ffff, data, 1, 0xad82_acae, 0x0e9e_882d);
    FoldMore(0xffff_ffff, data, 2, 0x0e9e_882d, 0x9f9b_5c85);
    FoldMore(0xffff_ffff, data, 3, 0x9f9b_5c85, 0xb798_b438);
    FoldMore(0xffff_ffff, data, 4, 0xb798_b438, 0xba8d_89ca);
    FoldMore(0xffff_ffff, data, 5, 0xba8d_89ca, 0xa8d5_8375);
    FoldMore(0xffff_ffff, data, 6, 0xa8d5_8375, 0x44c1_9592);
    FoldMore(0xffff_ffff, data, 7, 0x44c1_9592, 0x73d7_4d75);
  }

  lemma Zeros16(data: seq<byte>)
    requires |data| == 32 && forall i :: 0 <= i < 32 ==> data[i] == 0
    requires Fold(0xffff_ffff, data[..8]) == 0x73d7_4d75
    ensures Fold(0xffff_ffff, data[..16]) == 0xbd8f_6515
  {
    hide Fold;
    FoldMore(0xffff_ffff, data, 8, 0x73d7_4d75, 0x441a_975c);
    FoldMore(0xffff_ffff, data, 9, 0x441a_975c, 0x1c22_0f94);
    FoldMore(0xffff_ffff, data, 10, 0x1c22_0f94, 0x552e_4907);
    FoldMore(0xffff_ffff, data, 11, 0x552e_4907, 0xd49f_4aa2);
    FoldMore(0xffff_ffff, data, 12, 0xd49f_4aa2, 0x43a4_5a1b);
    FoldMore(0xffff_ffff, data, 13, 0x43a4_5a1b, 0x8994_c80e);
    FoldMore(0xffff_ffff, data, 14, 0x8994_c80e, 0xacf1_2bef);
    FoldMore(0xffff_ffff, data, 15, 0xacf1_2bef, 0xbd8f_6515);
  }

  lemma Zeros24(data: seq<byte>)
    requires |data| == 32 && forall i :: 0 <= i < 32 ==> data[i] == 0
    requires Fold(0xffff_ffff, data[..16]) == 0xbd8f_6515
    ensures Fold(0xffff_ffff, data[..24]) == 0x7b04_1311
  {
    hide Fold;
    FoldMore(0xffff_ffff, data, 16, 0xbd8f_6515, 0x2512_5c16);
    FoldMore(0xffff_ffff, data, 17, 0x2512_5c16, 0x36da_32db);
    FoldMore(0xffff_ffff, data, 18, 0x36da_32db, 0x4a6c_90a2);
    FoldMore(0xffff_ffff, data, 19, 0x4a6c_90a2, 0x433a_a9c1);
    FoldMore(0xffff_ffff, data, 20, 0x433a_a9c1, 0x31a5_9f6e);
    FoldMore(0xffff_ffff, data, 21, 0x31a5_9f6e, 0xcd8f_89da);
    FoldMore(0xffff_ffff, data, 22, 0xcd8f_89da, 0xb8fc_461a);
    FoldMore(0xffff_ffff, data, 23, 0xb8fc_461a, 0x7b04_1311);
  }

  lemma Zeros32(data: seq<byte>)
    requires |data| == 32 && forall i :: 0 <= i < 32 ==> data[i] == 0
    requires Fold(0xffff_ffff, data[..24]) == 0x7b04_1311
    ensures Fold(0xffff_ffff, data[..32]) == 0x756e_c955
  {
    hide Fold;
    FoldMore(0xffff_ffff, data, 24, 0x7b04_1311, 0xe24e_407f);
    FoldMore(0xffff_ffff, data, 25, 0xe24e_407f, 0x2f69_2669);
    FoldMore(0xffff_ffff, data, 26, 0x2f69_2669, 0x195b_2188);
    FoldMore(0xffff_ffff, data, 27, 0x195b_2188, 0x0836_3896);
    FoldMore(0xffff_ffff, data, 28, 0x0836_3896, 0xb401_2dc7);
    FoldMore(0xffff_ffff, data, 29, 0xb401_2dc7, 0x17f3_4302);
    FoldMore(0xffff_ffff, data, 30, 0x17f3_4302, 0xe12c_83b4);
    FoldMore(0xffff_ffff, data, 31, 0xe12c_83b4, 0x756e_c955);
  }

  /** Appendix B.4 of RFC 3720: 32 bytes of zeros. */
  lemma ZerosCheck(data: seq<byte>)
    requires |data| == 32 && forall i :: 0 <= i < 32 ==> data[i] == 0
    ensures Value(0, data) == 0x8a91_36aa
  {
    hide Fold;
    FoldNothing(0xffff_ffff, data);
    Zeros8(data);
    Zeros16(data);
    Zeros24(data);
    Zeros32(data);
    assert data[..32] == data;
  }

  lemma Ascending8(data: seq<byte>)
    requires |data| == 32 && forall i :: 0 <= i < 32 ==> data[i] as int == i
    requires Fold(0xffff_ffff, data[..0]) == 0xffff_ffff
    ensures Fold(0xffff_ffff, data[..8]) == 0x75d3_43c4
  {
    hide Fold;
    FoldMore(0xffff_ffff, data, 0, 0xffff_ffff, 0xad82_acae);
    FoldMore(0xffff_ffff, data, 1, 0xad82_acae, 0xfcf5_0b2e);
    FoldMore(0xffff_ffff, data, 2, 0xfcf5_0b2e, 0x6d02_b405);
    FoldMore(0xffff_ffff, data, 3, 0x6d02_b405, 0x26cc_e55c);
    FoldMore(0xffff_ffff, data, 4, 0x26cc_e55c, 0xdbda_4ef9);
    FoldMore(0xffff_ffff, data, 5, 0xdbda_4ef9, 0xbef6_7aeb);
    FoldMore(0xffff_ffff, data, 6, 0xbef6_7aeb, 0x5ca6_12b3);
    FoldMore(0xffff_ffff, data, 7, 0x5ca6_12b3, 0x75d3_43c4);
  }

  lemma Ascending16(data: seq<byte>)
    requires |data| == 32 && forall i :: 0 <= i < 32 ==> data[i] as int == i
    requires Fold(0xffff_ffff, data[..8]) == 0x75d3_43c4
    ensures Fold(0xffff_ffff, data[..16]) == 0x2636_f714
  {
    hide Fold;
    FoldMore(0xffff_ffff, data, 8, 0x75d3_43c4, 0x8ebb_3a57);
    FoldMore(0xffff_ffff, data, 9, 0x8ebb_3a57, 0xfdd3_dece);
    FoldMore(0xffff_ffff, data, 10, 0xfdd3_dece, 0x04ea_6205);
    FoldMore(0xffff_ffff, data, 11, 0x04ea_6205, 0xac7c_5545);
    FoldMore(0xffff_ffff, data, 12, 0xac7c_5545, 0x3965_ba25);
    FoldMore(0xffff_ffff, data, 13, 0x3965_ba25, 0xaa5d_b3ab);
    FoldMore(0xffff_ffff, data, 14, 0xaa5d_b3ab, 0x9710_fc09);
    FoldMore(0xffff_ffff, data, 15, 0x9710_fc09, 0x2636_f714);
  }

  lemma Ascending24(data: seq<byte>)
    requires |data| == 32 && forall i :: 0 <= i < 32 ==> data[i] as int == i
    requires Fold(0xffff_ffff, data[..16]) == 0x2636_f714
    ensures Fold(0xffff_ffff, data[..24]) == 0xd643_786a
  {
    hide Fold;
    FoldMore(0xffff_ffff, data, 16, 0x2636_f714, 0xc7bc_a1e8);
    FoldMore(0xffff_ffff, data, 17, 0xc7bc_a1e8, 0x8b1b_0818);
    FoldMore(0xffff_ffff, data, 18, 0x8b1b_0818, 0x6b69_3330);
    FoldMore(0xffff_ffff, data, 19, 0x6b69_3330, 0x3386_1419);
    FoldMore(0xffff_ffff, data, 20, 0x3386_1419, 0xbf1b_cac7);
    FoldMore(0xffff_ffff, data, 21, 0xbf1b_cac7, 0x3257_8a96);
    FoldMore(0xffff_ffff, data, 22, 0x3257_8a96, 0x82c4_6cf2);
    FoldMore(0xffff_ffff, data, 23, 0x82c4_6cf2, 0xd643_786a);
  }

  lemma Ascending32(data: seq<byte>)
    requires |data| == 32 && forall i :: 0 <= i < 32 ==> data[i] as int == i
    requires Fold(0xffff_ffff, data[..24]) == 0xd643_786a
    ensures Fold(0xffff_ffff, data[..32]) == 0xb922_86b1
  {
    hide Fold;
    FoldMore(0xffff_ffff, data, 24, 0xd643_786a, 0x9075_6782);
    FoldMore(0xffff_ffff, data, 25, 0x9075_6782, 0x0bb1_224b);
    FoldMore(0xffff_ffff, data, 26, 0x0bb1_224b, 0xa345_e8f2);
    FoldMore(0xffff_ffff, data, 27, 0xa345_e8f2, 0x9b21_363e);
    FoldMore(0xffff_ffff, data, 28, 0x9b21_363e, 0xc11d_df1f);
    FoldMore(0xffff_ffff, data, 29, 0xc11d_df1f, 0xe1fa_6d28);
    FoldMore(0xffff_ffff, data, 30, 0xe1fa_6d28, 0x16a3_5434);
    FoldMore(0xffff_ffff, data, 31, 0x16a3_5434, 0xb922_86b1);
  }

  /** Appendix B.4 of RFC 3720: 32 bytes counting up from zero. */
  lemma AscendingCheck(data: seq<byte>)
    requires |data| == 32 && forall i :: 0 <= i < 32 ==> data[i] as int == i
    ensures Value(0, data) == 0x46dd_794e
  {
    hide Fold;
    FoldNothing(0xffff_ffff, data);
    Ascending8(data);
    Ascending16(data);
    Ascending24(data);
    Ascending32(data);
    assert data[..32] == data;
  }

  /** The entries of kByteExtensionTable for single bits; by linearity they give the table. */
  lemma ByteTableEntries()
    ensures ByteExtension(1) == 0xf26b_8303 && ByteExtension(2) == 0xe13b_70f7 && ByteExtension(4) == 0xc79a_971f
    ensures ByteExtension(8) == 0x8ad9_58cf && ByteExtension(16) == 0x105e_c76f && ByteExtension(32) == 0x20bd_8ede
    ensures ByteExtension(64) == 0x417b_1dbc && ByteExtension(128) == 0x82f6_3b78
  {
  }
}
