/** Message types and messages, and the bytes the wire format gives a message (nanopb pb.h, pb_encode.c). */
module PbSchema {
  import opened Coding
  import opened Varint

  /** Bits of an integer field of the struct. */
  type Width = x: nat | x == 8 || x == 16 || x == 32 || x == 64 witness 8

  datatype LType =
    | Bool
    | Varint(width: Width)
    | UVarint(width: Width)
    | SVarint(width: Width)
    | Fixed32
    | Fixed64
    | Bytes(maxSize: nat)
    | String(dataSize: nat)
    | FixedBytes(size: nat)
    | Submessage(fields: seq<Field>)
  {
    /** PB_LTYPE_LAST_PACKABLE. */
    predicate Packable() {
      Bool? || Varint? || UVarint? || SVarint? || Fixed32? || Fixed64?
    }
  }

  /** `Singular` is a proto3 field: optional, but without a has flag of its own. */
  datatype Rule = Required | Optional | Singular | Repeated(arraySize: nat) | Oneof(union: nat)

  datatype Field = Field(tag: nat, rule: Rule, ltype: LType)

  datatype Value = BoolV(b: bool) | IntV(i: int) | BytesV(bytes: seq<byte>) | MessageV(slots: Message)

  /** Field by field the values a message holds: one, at most one, or a counted array of them. */
  type Message = seq<seq<Value>>

  function Range(width: Width): nat {
    if width == 8 then 0x100 else if width == 16 then 0x1_0000 else if width == 32 then TWO_32 else TWO_64
  }

  predicate InSigned(width: Width, i: int) {
    -(Range(width) as int) <= 2 * i < Range(width)
  }

  predicate InUnsigned(width: Width, i: int) {
    0 <= i < Range(width)
  }

  // ---------- what the C types guarantee ----------

  ghost predicate TypedValue(t: LType, v: Value)
    decreases t
  {
    match t
    case Bool => v.BoolV?
    case Varint(width) => v.IntV? && InSigned(width, v.i)
    case UVarint(width) => v.IntV? && InUnsigned(width, v.i)
    case SVarint(width) => v.IntV? && InSigned(width, v.i)
    case Fixed32 => v.IntV? && InUnsigned(32, v.i)
    case Fixed64 => v.IntV? && InUnsigned(64, v.i)
    case Bytes(_) => v.BytesV?
    case String(dataSize) => v.BytesV? && |v.bytes| <= dataSize && forall b :: b in v.bytes ==> b != 0
    case FixedBytes(size) => v.BytesV? && |v.bytes| == size
    case Submessage(fields) => v.MessageV? && TypedMessage(fields, v.slots)
  }

  ghost predicate TypedSlot(f: Field, slot: seq<Value>)
    decreases f
  {
    && (forall v :: v in slot ==> TypedValue(f.ltype, v))
    && (f.rule.Required? || f.rule.Singular? ==> |slot| == 1)
    && (f.rule.Optional? || f.rule.Oneof? ==> |slot| <= 1)
  }

  ghost predicate TypedMessage(fields: seq<Field>, msg: Message)
    decreases fields
  {
    && |msg| == |fields|
    && (forall i :: 0 <= i < |fields| ==> TypedSlot(fields[i], msg[i]))
    && UnionsHoldOne(fields, msg)
  }

  /** The members of a union share one `which` field. */
  ghost predicate UnionsHoldOne(fields: seq<Field>, msg: Message)
    requires |msg| == |fields|
  {
    forall i, j :: 0 <= i < j < |fields| && SameUnion(fields[i], fields[j]) ==> msg[i] == [] || msg[j] == []
  }

  predicate SameUnion(f: Field, g: Field) {
    f.rule.Oneof? && g.rule == f.rule
  }

  // ---------- the wire format ----------

  datatype WireType = VARINT | BITS64 | STRING | BITS32

  function WireNumber(w: WireType): nat {
    match w case VARINT => 0 case BITS64 => 1 case STRING => 2 case BITS32 => 5
  }

  function WireTypeOf(t: LType): WireType {
    if t.Bool? || t.Varint? || t.UVarint? || t.SVarint? then VARINT
    else if t.Fixed32? then BITS32
    else if t.Fixed64? then BITS64
    else STRING
  }

  function Key(tag: nat, w: WireType): (r: seq<byte>)
    ensures 0 < |r|
  {
    VarintBytes(tag * 8 + WireNumber(w))
  }

  function Unsigned64(i: int): nat {
    i % TWO_64
  }

  function ZigZag(i: int): nat {
    if i < 0 then -2 * i - 1 else 2 * i
  }

  function LittleEndian(v: nat, n: nat): (r: seq<byte>)
    ensures |r| == n
  {
    if n == 0 then [] else [v % 256] + LittleEndian(v / 256, n - 1)
  }

  /** Bytes after their length. */
  function Delimited(body: seq<byte>): (r: seq<byte>)
    ensures 0 < |r|
  {
    VarintBytes(|body|) + body
  }

  ghost function ValueBytes(t: LType, v: Value): (r: seq<byte>)
    requires TypedValue(t, v)
    decreases t, 0
  {
    match t
    case Bool => VarintBytes(if v.b then 1 else 0)
    case Varint(_) => VarintBytes(Unsigned64(v.i))
    case UVarint(_) => VarintBytes(v.i)
    case SVarint(_) => VarintBytes(ZigZag(v.i))
    case Fixed32 => LittleEndian(v.i, 4)
    case Fixed64 => LittleEndian(v.i, 8)
    case Bytes(_) => Delimited(v.bytes)
    case String(_) => Delimited(v.bytes)
    case FixedBytes(_) => Delimited(v.bytes)
    case Submessage(fields) => assert TypedMessage(fields, v.slots); Delimited(FieldsBytes(fields, v.slots))
  }

  /** The elements of a packed array, one after another. */
  ghost function PackedBytes(t: LType, vs: seq<Value>): seq<byte>
    requires forall v :: v in vs ==> TypedValue(t, v)
    decreases t, 1, vs
  {
    if vs == [] then [] else ValueBytes(t, vs[0]) + PackedBytes(t, vs[1..])
  }

  /** Every element under its own key. */
  ghost function KeyedBytes(f: Field, vs: seq<Value>): seq<byte>
    requires forall v :: v in vs ==> TypedValue(f.ltype, v)
    decreases f, 0, vs
  {
    if vs == [] then [] else Key(f.tag, WireTypeOf(f.ltype)) + ValueBytes(f.ltype, vs[0]) + KeyedBytes(f, vs[1..])
  }

  ghost function SlotBytes(f: Field, slot: seq<Value>): seq<byte>
    requires TypedSlot(f, slot)
    decreases f, 1
  {
    if f.rule.Repeated? && f.ltype.Packable() then
      if slot == [] then [] else Key(f.tag, STRING) + Delimited(PackedBytes(f.ltype, slot))
    else if f.rule.Singular? && IsZero(f.ltype, slot[0]) then []
    else KeyedBytes(f, slot)
  }

  /** Fields in order; the slots need not agree on their unions. */
  ghost function FieldsBytes(fields: seq<Field>, msg: Message): seq<byte>
    requires |msg| == |fields| && forall i :: 0 <= i < |fields| ==> TypedSlot(fields[i], msg[i])
    decreases fields
  {
    if fields == [] then [] else SlotBytes(fields[0], msg[0]) + FieldsBytes(fields[1..], msg[1..])
  }

  /** pb_check_proto3_default_value: the value a proto3 field leaves off the wire. */
  predicate IsZero(t: LType, v: Value)
    requires TypedValue(t, v)
    decreases t
  {
    match t
    case Bool => !v.b
    case Varint(_) => v.i == 0
    case UVarint(_) => v.i == 0
    case SVarint(_) => v.i == 0
    case Fixed32 => v.i == 0
    case Fixed64 => v.i == 0
    case Bytes(_) => v.bytes == []
    case String(_) => v.bytes == []
    case FixedBytes(size) => size == 0
    case Submessage(fields) =>
      assert TypedMessage(fields, v.slots);
      forall i :: 0 <= i < |fields| ==> SlotIsZero(fields[i], v.slots[i])
  }

  predicate SlotIsZero(f: Field, slot: seq<Value>)
    requires TypedSlot(f, slot)
    decreases f
  {
    match f.rule
    case Required => false
    case Singular => IsZero(f.ltype, slot[0])
    case _ => slot == []
  }
}
