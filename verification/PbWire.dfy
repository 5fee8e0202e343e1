/** Reading the wire format from any bytes, as functions (nanopb pb_decode.c: pb_decode_varint to pb_skip_field). */
module PbWire {
  import opened Common
  import opened Coding
  import opened Varint

  const TWO_63: nat := 0x8000_0000_0000_0000

  /** Something read, and the bytes after it. */
  datatype Taken<+T> = Taken(value: T, rest: seq<byte>)

  // ---------- varints ----------

  /** How many bytes a varint at the front takes: up to the first byte without its top bit, or 0 if there is none. */
  function CodeLength(input: seq<byte>): (n: nat)
    ensures n <= |input|
    ensures 0 < n ==> input[n - 1] < 128 && forall i :: 0 <= i < n - 1 ==> 128 <= input[i]
    ensures n == 0 ==> forall i :: 0 <= i < |input| ==> 128 <= input[i]
  {
    if input == [] then 0
    else if input[0] < 128 then 1
    else
      var n := CodeLength(input[1..]);
      if n == 0 then 0 else n + 1
  }

  /** pb_decode_varint: at most ten groups, and 64 bits of their sum. */
  function VarintOf(input: seq<byte>): (r: Option<Taken<nat>>)
    ensures r.Some? ==> |r.value.rest| < |input| && r.value.value < TWO_64
  {
    var n := CodeLength(input);
    if n == 0 || 10 < n then None else Some(Taken(GroupSum(input[..n]) % TWO_64, input[n..]))
  }

  /** Bitwise or. */
  function Or(a: nat, b: nat): nat {
    if a == 0 then b else if b == 0 then a else (if a % 2 == 1 || b % 2 == 1 then 1 else 0) + 2 * Or(a / 2, b / 2)
  }

  /** A byte's group or-ed into a 32-bit result at a bit position. */
  function Group32(value: nat, b: byte, bitpos: nat): nat {
    Or(value, b % 128 * Pow2(bitpos) % TWO_32)
  }

  /** Beyond 32 bits only zero groups may follow, or the groups of a negative number's sign. */
  predicate GroupOk(value: nat, b: byte, bitpos: nat) {
    bitpos < 32 || b % 128 == 0 || (0x8000_0000 <= value && b == (if bitpos < 63 then 0xff else 0x01))
  }

  /** The bit position of a group; the counter has eight bits. */
  function BitPos(i: nat): nat {
    if i == 0 then 0 else (BitPos(i - 1) + 7) % 256
  }

  /** The result after the first `n` groups, unless one of them does not fit. */
  function Groups32(code: seq<byte>, n: nat): Option<nat>
    requires 0 < n <= |code|
  {
    if n == 1 then Some(code[0] % 128)
    else
      var before := Groups32(code, n - 1);
      var b, bitpos := code[n - 1], BitPos(n - 1);
      if before.None? || !GroupOk(before.value, b, bitpos) then None
      else if bitpos < 32 then Some(Group32(before.value, b, bitpos)) else before
  }

  /** The number of a whole code: if its last group is the one at bit 28, only four bits of that fit. */
  function Value32(code: seq<byte>): Option<nat>
    requires code != []
  {
    if 1 < |code| && BitPos(|code|) == 35 && 16 <= code[|code| - 1] % 128 then None else Groups32(code, |code|)
  }

  /** pb_decode_varint32. */
  function Varint32Of(input: seq<byte>): (r: Option<Taken<nat>>)
    ensures r.Some? ==> |r.value.rest| < |input|
  {
    var n := CodeLength(input);
    if n == 0 then None
    else
      match Value32(input[..n])
      case None => None
      case Some(value) => Some(Taken(value, input[n..]))
  }

  // ---------- the other contents ----------

  /** A length and that many bytes. */
  function SizedOf(input: seq<byte>): (r: Option<Taken<seq<byte>>>)
    ensures r.Some? ==> |r.value.rest| < |input|
  {
    match Varint32Of(input)
    case None => None
    case Some(size) =>
      if size.value <= |size.rest| then Some(Taken(size.rest[..size.value], size.rest[size.value..])) else None
  }

  /** pb_skip_field, by the number of the wire type: what follows the value. */
  function SkipOf(wire: nat, input: seq<byte>): (r: Option<seq<byte>>)
    ensures r.Some? ==> |r.value| < |input|
  {
    if wire == 0 then (var n := CodeLength(input); if n == 0 then None else Some(input[n..]))
    else if wire == 1 then (if 8 <= |input| then Some(input[8..]) else None)
    else if wire == 2 then (var body := SizedOf(input); if body.None? then None else Some(body.value.rest))
    else if wire == 5 then (if 4 <= |input| then Some(input[4..]) else None)
    else None
  }
}
