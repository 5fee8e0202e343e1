/** What a message's bytes mean to the decoder, whatever they are: the reference the methods are proved against (nanopb pb_decode.c). */
module PbMeaning {
  import opened Common
  import opened Coding
  import opened Varint
  import opened PbSchema
  import opened PbFields
  import opened PbWire

  // ---------- integers ----------

  /** The C cast to a signed integer of a width. */
  function Signed(width: Width, x: int): int {
    var m := x % Range(width);
    if 2 * m >= Range(width) then m - Range(width) else m
  }

  /** pb_dec_varint: narrow fields go through int32_t first; a value that does not fit is an error. */
  function CastVarint(width: Width, u: nat): (bool, int) {
    var svalue := if width == 64 then Signed(64, u) else Signed(32, u);
    var clamped := Signed(width, svalue);
    (clamped == svalue, clamped)
  }

  function CastUVarint(width: Width, u: nat): (bool, int) {
    (u % Range(width) == u, u % Range(width))
  }

  function UnZigZag(u: nat): int {
    if u % 2 == 1 then -(u / 2) - 1 else u / 2
  }

  function CastSVarint(width: Width, u: nat): (bool, int) {
    var value := UnZigZag(u);
    (Signed(width, value) == value, Signed(width, value))
  }

  function FromLittleEndian(s: seq<byte>): nat {
    if s == [] then 0 else s[0] as int + 256 * FromLittleEndian(s[1..])
  }

  function Pow256(n: nat): nat {
    if n == 0 then 1 else 256 * Pow256(n - 1)
  }

  lemma FixedWidths()
    ensures Pow256(4) == TWO_32 && Pow256(8) == TWO_64
  {
    assert Pow256(2) == 0x1_0000;
    assert Pow256(4) == 256 * (256 * Pow256(2));
    assert Pow256(6) == 256 * (256 * Pow256(4));
    assert Pow256(8) == 256 * (256 * Pow256(6));
  }

  /** The C string in a buffer ends at its first zero byte. */
  function CString(s: seq<byte>): (r: seq<byte>)
    ensures |r| <= |s| && r == s[..|r|] && (forall b :: b in r ==> b != 0) && (|r| < |s| ==> s[|r|] == 0)
  {
    if s == [] || s[0] == 0 then [] else [s[0]] + CString(s[1..])
  }

  // ---------- values ----------

  /** The integer types. */
  function IntegerOf(t: LType, input: seq<byte>): (r: Option<Taken<Value>>)
    requires t.Varint? || t.UVarint? || t.SVarint?
    ensures r.Some? ==> |r.value.rest| < |input|
  {
    match VarintOf(input)
    case None => None
    case Some(u) =>
      var cast := if t.Varint? then CastVarint(t.width, u.value)
                  else if t.UVarint? then CastUVarint(t.width, u.value) else CastSVarint(t.width, u.value);
      if cast.0 then Some(Taken(IntV(cast.1), u.rest)) else None
  }

  /** The types that a length stands before, but for submessages. */
  function BytesOf(t: LType, input: seq<byte>): (r: Option<Taken<Value>>)
    requires t.Bytes? || t.String? || t.FixedBytes?
    ensures r.Some? ==> |r.value.rest| < |input|
  {
    match SizedOf(input)
    case None => None
    case Some(body) =>
      var n := |body.value|;
      match t
      case Bytes(maxSize) => if n <= maxSize then Some(Taken(BytesV(body.value), body.rest)) else None
      case String(dataSize) => if n < dataSize then Some(Taken(BytesV(CString(body.value)), body.rest)) else None
      case FixedBytes(size) =>
        if n == 0 then Some(Taken(BytesV(Zeros(size)), body.rest))
        else if n == size then Some(Taken(BytesV(body.value), body.rest)) else None
  }

  /** A value of a type, read into what is there; `initialize` starts a submessage from its defaults. */
  function ValueOf(t: LType, dest: Value, initialize: bool, input: seq<byte>): (r: Option<Taken<Value>>)
    ensures r.Some? ==> |r.value.rest| < |input|
    decreases t, |input|, 0
  {
    match t
    case Bool =>
      var u := Varint32Of(input);
      if u.None? then None else Some(Taken(BoolV(u.value.value != 0), u.value.rest))
    case Fixed32 => if |input| < 4 then None else Some(Taken(IntV(FromLittleEndian(input[..4])), input[4..]))
    case Fixed64 => if |input| < 8 then None else Some(Taken(IntV(FromLittleEndian(input[..8])), input[8..]))
    case Varint(_) => IntegerOf(t, input)
    case UVarint(_) => IntegerOf(t, input)
    case SVarint(_) => IntegerOf(t, input)
    case Bytes(_) => BytesOf(t, input)
    case String(_) => BytesOf(t, input)
    case FixedBytes(_) => BytesOf(t, input)
    case Submessage(fields) =>
      match SizedOf(input)
      case None => None
      case Some(body) =>
        match FieldsOf(fields, if initialize then Defaults(fields) else Slots(fields, dest), {}, body.value)
        case None => None
        case Some(m) => Some(Taken(MessageV(m.value), body.rest))
  }

  /** The submessage already there. */
  function Slots(fields: seq<Field>, dest: Value): (r: Message)
    ensures |r| == |fields|
  {
    if dest.MessageV? && |dest.slots| == |fields| then dest.slots else Defaults(fields)
  }

  /** The entries of a packed array, up to the end of its bytes; more of them than the array holds are an error. */
  function PackedOf(t: LType, arraySize: nat, slot: seq<Value>, input: seq<byte>): Option<seq<Value>>
    decreases t, |input|, 1
  {
    if input == [] then Some(slot)
    else if arraySize <= |slot| then None
    else
      match ValueOf(t, DefaultValue(t), true, input)
      case None => None
      case Some(v) => PackedOf(t, arraySize, slot + [v.value], v.rest)
  }

  function PackedSlotOf(t: LType, arraySize: nat, slot: seq<Value>, input: seq<byte>): (r: Option<Taken<seq<Value>>>)
    ensures r.Some? ==> |r.value.rest| < |input|
    decreases t, |input|, 2
  {
    match SizedOf(input)
    case None => None
    case Some(body) =>
      match PackedOf(t, arraySize, slot, body.value)
      case None => None
      case Some(r) => Some(Taken(r, body.rest))
  }

  /** decode_static_field: what a field's slot becomes. */
  function SlotOf(f: Field, wire: nat, slot: seq<Value>, input: seq<byte>): (r: Option<Taken<seq<Value>>>)
    ensures r.Some? ==> |r.value.rest| < |input|
    decreases f, |input|, 2
  {
    match f.rule
    case Repeated(arraySize) =>
      if wire == 2 && f.ltype.Packable() then
        PackedSlotOf(f.ltype, arraySize, slot, input)
      else if arraySize <= |slot| then None
      else
        var v := ValueOf(f.ltype, DefaultValue(f.ltype), true, input);
        if v.None? then None else Some(Taken(slot + [v.value.value], v.value.rest))
    case _ =>
      var v := ValueOf(f.ltype, if slot == [] then DefaultValue(f.ltype) else slot[0], false, input);
      if v.None? then None else Some(Taken([v.value.value], v.value.rest))
  }

  // ---------- messages ----------

  /** The place of the field with a number, or the number of fields. */
  function FieldAt(fields: seq<Field>, tag: nat): (i: nat)
    ensures i <= |fields| && (i < |fields| ==> fields[i].tag == tag) && forall j :: 0 <= j < i ==> fields[j].tag != tag
  {
    if fields == [] || fields[0].tag == tag then 0 else FieldAt(fields[1..], tag) + 1
  }

  /** One of the first 64 required fields. */
  predicate Checked(fields: seq<Field>, k: nat) {
    k < |fields| && fields[k].rule.Required? && RequiredBefore(fields, k) < 64
  }

  predicate AllSeen(fields: seq<Field>, seen: set<nat>) {
    forall k :: 0 <= k < |fields| && Checked(fields, k) ==> fields[k].tag in seen
  }

  /** The end of a message, with the field numbers that came. */
  function Finished(fields: seq<Field>, dest: Message, seen: set<nat>, rest: seq<byte>): Option<Taken<Message>> {
    if AllSeen(fields, seen) then Some(Taken(dest, rest)) else None
  }

  /** Storing a member of a union takes the union away from the other members. */
  function Stored(fields: seq<Field>, dest: Message, i: nat, slot: seq<Value>): (r: Message)
    requires |dest| == |fields| && i < |fields|
    ensures |r| == |dest|
  {
    seq(|dest|, k requires 0 <= k < |dest| =>
      if k == i then slot else if SameUnion(fields[i], fields[k]) then [] else dest[k])
  }

  /**
   * pb_decode_noinit: a field number and a wire type, then what they announce, until the bytes end or a
   * zero number comes. Numbers the message does not know are skipped. `dest` is the message so far and
   * `seen` the numbers that came.
   */
  function FieldsOf(fields: seq<Field>, dest: Message, seen: set<nat>, input: seq<byte>): Option<Taken<Message>>
    requires |dest| == |fields|
    decreases fields, |input|, 3
  {
    if input == [] then Finished(fields, dest, seen, [])
    else
      match Varint32Of(input)
      case None => None
      case Some(key) =>
        if key.value == 0 then Finished(fields, dest, seen, key.rest)
        else
          match PartOf(fields, dest, key.value / 8, key.value % 8, key.rest)
          case None => None
          case Some(part) => FieldsOf(fields, part.value, seen + {key.value / 8}, part.rest)
  }

  /** One field: the message with it stored, or as it was if the field is not known. */
  function PartOf(fields: seq<Field>, dest: Message, tag: nat, wire: nat, input: seq<byte>): (r: Option<Taken<Message>>)
    requires |dest| == |fields|
    ensures r.Some? ==> |r.value.value| == |fields| && |r.value.rest| < |input|
    decreases fields, |input|, 2
  {
    var i := FieldAt(fields, tag);
    if i < |fields| then
      match SlotOf(fields[i], wire, dest[i], input)
      case None => None
      case Some(slot) => Some(Taken(Stored(fields, dest, i, slot.value), slot.rest))
    else
      match UnknownOf(fields, tag, wire, input)
      case None => None
      case Some(rest) => Some(Taken(dest, rest))
  }

  /** Past a field that is not known. In an empty message type the terminator of the field list answers to number 0, as a bool. */
  function UnknownOf(fields: seq<Field>, tag: nat, wire: nat, input: seq<byte>): (r: Option<seq<byte>>)
    ensures r.Some? ==> |r.value| < |input|
  {
    if fields == [] && tag == 0 then
      match Varint32Of(input)
      case None => None
      case Some(u) => Some(u.rest)
    else SkipOf(wire, input)
  }

  lemma MeaningStep(fields: seq<Field>, dest: Message, seen: set<nat>, input: seq<byte>)
    requires |dest| == |fields|
    ensures FieldsOf(fields, dest, seen, input) ==
            if input == [] then Finished(fields, dest, seen, [])
            else
              var key := Varint32Of(input);
              if key.None? then None
              else if key.value.value == 0 then Finished(fields, dest, seen, key.value.rest)
              else
                var part := PartOf(fields, dest, key.value.value / 8, key.value.value % 8, key.value.rest);
                if part.None? then None else FieldsOf(fields, part.value.value, seen + {key.value.value / 8}, part.value.rest)
  {
    hide PartOf, Varint32Of, Finished;
  }
}
