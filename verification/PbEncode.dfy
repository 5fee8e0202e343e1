/** The encoder: one pass that sizes, one that writes (nanopb pb_encode.c). */
module PbEncode {
  import opened Common
  import opened Coding
  import opened Varint
  import opened PbSchema

  // ---------- what the encoder itself checks ----------

  ghost predicate ValueInBounds(t: LType, v: Value)
    requires TypedValue(t, v)
    decreases t
  {
    match t
    case Bytes(maxSize) => |v.bytes| <= maxSize
    case Submessage(fields) => assert TypedMessage(fields, v.slots); FieldsInBounds(fields, v.slots)
    case _ => true
  }

  ghost predicate SlotInBounds(f: Field, slot: seq<Value>)
    requires TypedSlot(f, slot)
    decreases f
  {
    && (f.rule.Repeated? ==> |slot| <= f.rule.arraySize)
    && ((f.rule.Singular? && IsZero(f.ltype, slot[0])) || forall v :: v in slot ==> ValueInBounds(f.ltype, v))
  }

  ghost predicate FieldsInBounds(fields: seq<Field>, msg: Message)
    requires |msg| == |fields| && forall i :: 0 <= i < |fields| ==> TypedSlot(fields[i], msg[i])
    decreases fields
  {
    forall i :: 0 <= i < |fields| ==> SlotInBounds(fields[i], msg[i])
  }

  // ---------- streams ----------

  class OStream {
    /** A stream without a callback only counts. */
    const writing: bool
    const maxSize: nat
    var buffer: seq<byte>
    var bytesWritten: nat

    constructor Sizing()
      ensures Valid() && !writing && bytesWritten == 0
    {
      writing, maxSize, buffer, bytesWritten := false, 0, [], 0;
    }

    constructor Writing(buffer: seq<byte>, maxSize: nat)
      ensures Valid() && writing && bytesWritten == 0 && this.maxSize == maxSize && this.buffer == buffer
    {
      writing, this.maxSize, this.buffer, bytesWritten := true, maxSize, buffer, 0;
    }

    ghost predicate Valid()
      reads this
    {
      writing ==> bytesWritten <= maxSize
    }

    predicate Room(n: nat)
      reads this
    {
      !writing || bytesWritten + n <= maxSize
    }

    /**
     * The contract of every encoding step: it succeeds exactly when the data is fit to encode and
     * there is room, and then counts the bytes of `code` and, if writing, appends them.
     */
    twostate predicate Wrote(ok: bool, fit: bool, code: seq<byte>)
      reads this
    {
      && Valid() && (ok <==> fit && old(Room(|code|)))
      && (ok ==> bytesWritten == old(bytesWritten) + |code| && (writing ==> buffer == old(buffer) + code))
    }

    method Write(data: seq<byte>) returns (ok: bool)
      requires Valid()
      modifies this
      ensures Wrote(ok, true, data)
    {
      if |data| > 0 && writing {
        if bytesWritten + |data| > maxSize {
          return false;
        }
        buffer := buffer + data;
      }
      bytesWritten := bytesWritten + |data|;
      return true;
    }

    /** pb_write without data: only counting. */
    method Count(n: nat)
      requires Valid() && !writing
      modifies this
      ensures Valid() && bytesWritten == old(bytesWritten) + n
    {
      bytesWritten := bytesWritten + n;
    }

    method EncodeVarint(value: nat) returns (ok: bool)
      requires Valid()
      modifies this
      ensures Wrote(ok, true, VarintBytes(value))
    {
      hide VarintBytes, Groups;
      if value <= 0x7f {
        SmallVarint(value);
        ok := Write([value]);
        return;
      }
      var bytes := TakeGroups(value);
      GroupsAreVarint(value);
      bytes := bytes[|bytes| - 1 := bytes[|bytes| - 1] % 128];
      ok := Write(bytes);
    }

    method EncodeTag(wireType: WireType, tag: nat) returns (ok: bool)
      requires Valid()
      modifies this
      ensures Wrote(ok, true, Key(tag, wireType))
    {
      ok := EncodeVarint(tag * 8 + WireNumber(wireType));
    }

    method EncodeString(bytes: seq<byte>) returns (ok: bool)
      requires Valid()
      modifies this
      ensures Wrote(ok, true, Delimited(bytes))
    {
      hide VarintBytes;
      ok := EncodeVarint(|bytes|);
      if ok {
        ok := Write(bytes);
      }
      assert old(buffer) + VarintBytes(|bytes|) + bytes == old(buffer) + Delimited(bytes);
    }
  }

  lemma SmallVarint(v: nat)
    ensures v < 128 ==> VarintBytes(v) == [v]
  {
  }

  /** The loop of pb_encode_varint. */
  method TakeGroups(value: nat) returns (bytes: seq<byte>)
    ensures bytes == Groups(value)
  {
    hide Groups;
    bytes := [];
    var rest := value;
    GroupsUnfold(0);
    while rest > 0
      invariant bytes + Groups(rest) == Groups(value)
    {
      GroupsUnfold(rest);
      assert bytes + ([rest % 128 + 128] + Groups(rest / 128)) == bytes + [rest % 128 + 128] + Groups(rest / 128);
      bytes := bytes + [rest % 128 + 128];
      rest := rest / 128;
    }
  }

  lemma GroupsUnfold(v: nat)
    ensures Groups(v) == if v == 0 then [] else [v % 128 + 128] + Groups(v / 128)
  {
  }

  /** Base 128 groups, each with its top bit set. */
  function Groups(v: nat): (r: seq<byte>)
    ensures 0 < v ==> 0 < |r|
  {
    if v == 0 then [] else [v % 128 + 128] + Groups(v / 128)
  }

  lemma {:induction false} GroupsAreVarint(v: nat)
    requires 0 < v
    ensures var g := Groups(v);
            VarintBytes(v) == g[|g| - 1 := g[|g| - 1] % 128]
  {
    if v < 128 {
      assert Groups(v / 128) == [];
    } else {
      GroupsAreVarint(v / 128);
      var g, h := Groups(v), Groups(v / 128);
      assert g[|g| - 1 := g[|g| - 1] % 128] == [v % 128 + 128] + h[|h| - 1 := h[|h| - 1] % 128];
    }
  }

  // ---------- values ----------

  /** The encoder for one value of a type (PB_ENCODERS). */
  method EncodeValue(s: OStream, t: LType, v: Value) returns (ok: bool)
    requires s.Valid() && TypedValue(t, v)
    modifies s
    ensures s.Wrote(ok, ValueInBounds(t, v), ValueBytes(t, v))
    decreases t, 0
  {
    hide VarintBytes, Delimited;
    match t
    case Bool => ok := s.EncodeVarint(if v.b then 1 else 0);
    case Varint(_) => ok := s.EncodeVarint(Unsigned64(v.i));
    case UVarint(_) => ok := s.EncodeVarint(v.i);
    case SVarint(_) => ok := s.EncodeVarint(ZigZag(v.i));
    case Fixed32 => ok := s.Write(LittleEndian(v.i, 4));
    case Fixed64 => ok := s.Write(LittleEndian(v.i, 8));
    case Bytes(maxSize) =>
      if |v.bytes| > maxSize {
        return false;
      }
      ok := s.EncodeString(v.bytes);
    case String(_) => ok := s.EncodeString(v.bytes);
    case FixedBytes(_) => ok := s.EncodeString(v.bytes);
    case Submessage(fields) =>
      assert TypedMessage(fields, v.slots);
      ok := EncodeSubmessage(s, fields, v.slots);
  }

  /** Two passes: a sizing stream first, then a substream that may take exactly that many bytes. */
  method EncodeSubmessage(s: OStream, fields: seq<Field>, msg: Message) returns (ok: bool)
    requires s.Valid() && TypedMessage(fields, msg)
    modifies s
    ensures s.Wrote(ok, FieldsInBounds(fields, msg), Delimited(FieldsBytes(fields, msg)))
    decreases fields, 2
  {
    hide VarintBytes, FieldsBytes, FieldsInBounds, TypedSlot;
    ghost var body := FieldsBytes(fields, msg);
    var sizing := new OStream.Sizing();
    ok := Encode(sizing, fields, msg);
    if !ok {
      return;
    }
    var size := sizing.bytesWritten;
    ok := s.EncodeVarint(size);
    if !ok {
      return;
    }
    if !s.writing {
      s.Count(size);
      return true;
    }
    if s.bytesWritten + size > s.maxSize {
      return false;
    }
    var substream := new OStream.Writing(s.buffer, size);
    ok := Encode(substream, fields, msg);
    s.bytesWritten := s.bytesWritten + substream.bytesWritten;
    s.buffer := substream.buffer;
    ok := ok && substream.bytesWritten == size;
    Regroup(old(s.buffer), VarintBytes(|body|), body);
  }

  // ---------- fields ----------

  /** encode_array: packed when the type allows it, one key per element otherwise. */
  method EncodeArray(s: OStream, f: Field, slot: seq<Value>) returns (ok: bool)
    requires s.Valid() && TypedSlot(f, slot) && f.rule.Repeated?
    modifies s
    ensures s.Wrote(ok, SlotInBounds(f, slot), SlotBytes(f, slot))
    decreases f, 2
  {
    if |slot| == 0 {
      return true;
    }
    if |slot| > f.rule.arraySize {
      return false;
    }
    if f.ltype.Packable() {
      ok := EncodePacked(s, f, slot);
    } else {
      ok := EncodeKeyed(s, f, slot);
    }
  }

  method PackedSize(t: LType, slot: seq<Value>) returns (size: nat)
    requires t.Packable() && forall v :: v in slot ==> TypedValue(t, v)
    ensures size == |PackedBytes(t, slot)|
    decreases t, 3
  {
    if t.Fixed32? {
      size := 4 * |slot|;
      FixedPackedSize(t, slot);
    } else if t.Fixed64? {
      size := 8 * |slot|;
      FixedPackedSize(t, slot);
    } else {
      var sizing := new OStream.Sizing();
      var ok := EncodeElements(sizing, t, slot);
      size := sizing.bytesWritten;
    }
  }

  lemma {:induction false} FixedPackedSize(t: LType, slot: seq<Value>)
    requires (t.Fixed32? || t.Fixed64?) && forall v :: v in slot ==> TypedValue(t, v)
    ensures |PackedBytes(t, slot)| == (if t.Fixed32? then 4 else 8) * |slot|
  {
    if slot != [] {
      FixedPackedSize(t, slot[1..]);
    }
  }

  /** The loop that encodes the elements of a packed array. */
  method EncodeElements(s: OStream, t: LType, slot: seq<Value>) returns (ok: bool)
    requires s.Valid() && t.Packable() && forall v :: v in slot ==> TypedValue(t, v)
    modifies s
    ensures s.Wrote(ok, true, PackedBytes(t, slot))
    decreases t, 2
  {
    hide ValueBytes;
    ghost var done: seq<byte> := [];
    assert slot[0..] == slot;
    for i := 0 to |slot|
      invariant s.Valid() && done + PackedBytes(t, slot[i..]) == PackedBytes(t, slot)
      invariant s.bytesWritten == old(s.bytesWritten) + |done| && (s.writing ==> s.buffer == old(s.buffer) + done)
    {
      ok := EncodeScalar(s, t, slot[i]);
      if !ok {
        return false;
      }
      assert slot[i..][1..] == slot[i + 1..];
      Regroup(old(s.buffer), done, ValueBytes(t, slot[i]));
      Regroup(done, ValueBytes(t, slot[i]), PackedBytes(t, slot[i + 1..]));
      done := done + ValueBytes(t, slot[i]);
    }
    return true;
  }

  method EncodeScalar(s: OStream, t: LType, v: Value) returns (ok: bool)
    requires s.Valid() && t.Packable() && TypedValue(t, v)
    modifies s
    ensures s.Wrote(ok, true, ValueBytes(t, v))
    decreases t, 1
  {
    ok := EncodeValue(s, t, v);
  }

  method EncodePacked(s: OStream, f: Field, slot: seq<Value>) returns (ok: bool)
    requires s.Valid() && TypedSlot(f, slot) && f.rule.Repeated? && f.ltype.Packable() && slot != []
    modifies s
    ensures s.Wrote(ok, true, SlotBytes(f, slot))
    decreases f, 1
  {
    hide VarintBytes, ValueBytes, PackedBytes, Key;
    ghost var key, body := Key(f.tag, STRING), PackedBytes(f.ltype, slot);
    ok := s.EncodeTag(STRING, f.tag);
    if !ok {
      return;
    }
    var size := PackedSize(f.ltype, slot);
    ok := s.EncodeVarint(size);
    if !ok {
      return;
    }
    if !s.writing {
      s.Count(size);
      return true;
    }
    ok := EncodeElements(s, f.ltype, slot);
    Regroup(old(s.buffer), key, VarintBytes(size));
    Regroup(old(s.buffer), key + VarintBytes(size), body);
    Regroup(key, VarintBytes(size), body);
  }

  /** One key and one value. */
  method EncodeKeyedValue(s: OStream, f: Field, v: Value) returns (ok: bool)
    requires s.Valid() && TypedValue(f.ltype, v)
    modifies s
    ensures s.Wrote(ok, ValueInBounds(f.ltype, v), Key(f.tag, WireTypeOf(f.ltype)) + ValueBytes(f.ltype, v))
    decreases f, 0
  {
    hide ValueBytes, ValueInBounds, Key;
    ok := s.EncodeTag(WireTypeOf(f.ltype), f.tag);
    if ok {
      ok := EncodeValue(s, f.ltype, v);
    }
    Regroup(old(s.buffer), Key(f.tag, WireTypeOf(f.ltype)), ValueBytes(f.ltype, v));
  }

  method EncodeKeyed(s: OStream, f: Field, slot: seq<Value>) returns (ok: bool)
    requires s.Valid() && forall v :: v in slot ==> TypedValue(f.ltype, v)
    modifies s
    ensures s.Wrote(ok, forall v :: v in slot ==> ValueInBounds(f.ltype, v), KeyedBytes(f, slot))
    decreases f, 1
  {
    hide ValueBytes, ValueInBounds, Key;
    ghost var done: seq<byte> := [];
    assert slot[0..] == slot;
    for i := 0 to |slot|
      invariant s.Valid() && done + KeyedBytes(f, slot[i..]) == KeyedBytes(f, slot)
      invariant s.bytesWritten == old(s.bytesWritten) + |done| && (s.writing ==> s.buffer == old(s.buffer) + done)
      invariant forall j :: 0 <= j < i ==> ValueInBounds(f.ltype, slot[j])
    {
      ok := EncodeKeyedValue(s, f, slot[i]);
      if !ok {
        return false;
      }
      ghost var code := Key(f.tag, WireTypeOf(f.ltype)) + ValueBytes(f.ltype, slot[i]);
      assert slot[i..][1..] == slot[i + 1..];
      Regroup(old(s.buffer), done, code);
      Regroup(done, code, KeyedBytes(f, slot[i + 1..]));
      done := done + code;
    }
    return true;
  }

  /** encode_basic_field. */
  method EncodeBasicField(s: OStream, f: Field, slot: seq<Value>) returns (ok: bool)
    requires s.Valid() && TypedSlot(f, slot)
    modifies s
    ensures s.Wrote(ok, SlotInBounds(f, slot), SlotBytes(f, slot))
    decreases f, 3
  {
    match f.rule
    case Required => ok := EncodeKeyed(s, f, slot);
    case Optional => ok := EncodeKeyed(s, f, slot);
    case Oneof(_) => ok := EncodeKeyed(s, f, slot);
    case Repeated(_) => ok := EncodeArray(s, f, slot);
    case Singular =>
      var implicitHas := !IsZero(f.ltype, slot[0]);
      ok := true;
      if implicitHas {
        ok := EncodeKeyed(s, f, slot);
      }
  }

  /** pb_encode: every field in order. */
  method Encode(s: OStream, fields: seq<Field>, msg: Message) returns (ok: bool)
    requires s.Valid() && TypedMessage(fields, msg)
    modifies s
    ensures s.Wrote(ok, FieldsInBounds(fields, msg), FieldsBytes(fields, msg))
    decreases fields, 1
  {
    hide TypedSlot, SlotInBounds, SlotBytes;
    ghost var done: seq<byte> := [];
    assert fields[0..] == fields && msg[0..] == msg;
    for i := 0 to |fields|
      invariant s.Valid() && done + FieldsBytes(fields[i..], msg[i..]) == FieldsBytes(fields, msg)
      invariant s.bytesWritten == old(s.bytesWritten) + |done| && (s.writing ==> s.buffer == old(s.buffer) + done)
      invariant forall j :: 0 <= j < i ==> SlotInBounds(fields[j], msg[j])
    {
      ok := EncodeBasicField(s, fields[i], msg[i]);
      if !ok {
        return false;
      }
      ghost var code := SlotBytes(fields[i], msg[i]);
      assert fields[i..][1..] == fields[i + 1..] && msg[i..][1..] == msg[i + 1..];
      Regroup(old(s.buffer), done, code);
      Regroup(done, code, FieldsBytes(fields[i + 1..], msg[i + 1..]));
      done := done + code;
    }
    return true;
  }

  /** pb_get_encoded_size: exactly the bytes a roomy writing stream receives. */
  method GetEncodedSize(fields: seq<Field>, msg: Message) returns (ok: bool, size: nat)
    requires TypedMessage(fields, msg)
    ensures ok <==> FieldsInBounds(fields, msg)
    ensures ok ==> size == |FieldsBytes(fields, msg)|
  {
    var sizing := new OStream.Sizing();
    ok := Encode(sizing, fields, msg);
    size := sizing.bytesWritten;
  }

  /** A buffer of the size the sizing pass found is enough, and every smaller one is not. */
  method EncodeToBuffer(fields: seq<Field>, msg: Message, room: nat) returns (ok: bool, bytes: seq<byte>)
    requires TypedMessage(fields, msg)
    ensures ok <==> FieldsInBounds(fields, msg) && |FieldsBytes(fields, msg)| <= room
    ensures ok ==> bytes == FieldsBytes(fields, msg)
  {
    var s := new OStream.Writing([], room);
    ok := Encode(s, fields, msg);
    bytes := s.buffer;
  }
}
