/** What encoding and then decoding does to a message (nanopb pb_encode, pb_decode). */
module PbRoundTrip {
  import opened PbSchema
  import opened PbFields
  import opened PbEncode
  import opened Common
  import opened PbWire
  import opened PbMeaning
  import opened PbStream
  import opened PbProgress
  import opened PbReadsBack
  import PbDecode

  /**
   * A message goes out exactly when it is in bounds and there is room. It then comes back exactly
   * when no string fills its buffer and no length needs more than 32 bits, and then unchanged.
   * `room` is the size of a buffer in memory.
   */
  method RoundTrip(fields: seq<Field>, msg: Message, room: nat) returns (sent: bool, received: bool, r: Message)
    requires SchemaOk(fields) && TypedMessage(fields, msg) && room < TWO_63
    ensures sent <==> FieldsInBounds(fields, msg) && |FieldsBytes(fields, msg)| <= room
    ensures sent ==> (received <==> ReadableFields(fields, msg))
    ensures received ==> sent && r == msg
  {
    hide TypedMessage, FieldsBytes, FieldsInBounds, ReadableFields, SchemaOk;
    received, r := false, [];
    var bytes;
    sent, bytes := EncodeToBuffer(fields, msg, room);
    if sent {
      var s := new IStream(bytes, |bytes|);
      assert bytes[..|bytes|] == bytes;
      MessageReadsBack(fields, msg);
      received, r := PbDecode.Decode(s, fields);
    }
  }

  /** A string that fills its buffer, without a terminator: the encoder takes it, the decoder will not. */
  lemma FullStringIsLost()
    ensures var fields, msg := [Field(1, Required, String(1))], [[BytesV([65])]];
            && SchemaOk(fields) && TypedMessage(fields, msg) && FieldsInBounds(fields, msg)
            && FieldsOf(fields, Defaults(fields), {}, FieldsBytes(fields, msg)) == None
  {
    hide FieldsOf, FieldsBytes;
    var f, slot := Field(1, Required, String(1)), [BytesV([65])];
    var fields, msg := [f], [slot];
    assert FieldOk(f);
    assert TypedValue(f.ltype, slot[0]) && TypedSlot(f, slot);
    assert TypedMessage(fields, msg);
    assert SlotInBounds(f, slot);
    assert slot[0] in slot && !Readable(f.ltype, slot[0]);
    assert !ReadableSlot(fields[0], msg[0]);
    FullStringIsShort(fields, msg);
    MessageReadsBack(fields, msg);
  }

  lemma FullStringIsShort(fields: seq<Field>, msg: Message)
    requires fields == [Field(1, Required, String(1))] && msg == [[BytesV([65])]] && TypedMessage(fields, msg)
    ensures FieldsBytes(fields, msg) == [10, 1, 65]
  {
    var f, slot := fields[0], msg[0];
    assert fields[1..] == [] && msg[1..] == [] && slot[1..] == [];
    assert TypedSlot(f, slot);
    assert KeyedBytes(f, []) == [];
    assert KeyedBytes(f, slot) == [10] + ([1] + [65]) + [];
    assert FieldsBytes([], []) == [];
  }
}
