/** The decoder, proved against what bytes mean (nanopb pb_decode.c). */
module PbDecode {
  import opened Common
  import opened Coding
  import opened PbSchema
  import opened PbFields
  import opened PbWire
  import opened PbMeaning
  import opened PbLaws
  import opened PbStream

  // ---------- values ----------

  lemma CastsAreTyped(width: Width, u: nat)
    ensures CastVarint(width, u).0 ==> InSigned(width, CastVarint(width, u).1)
    ensures CastUVarint(width, u).0 ==> InUnsigned(width, CastUVarint(width, u).1)
    ensures CastSVarint(width, u).0 ==> InSigned(width, CastSVarint(width, u).1)
  {
  }

  lemma {:induction false} FromLittleEndianBound(s: seq<byte>)
    ensures FromLittleEndian(s) < Pow256(|s|)
  {
    if s != [] {
      FromLittleEndianBound(s[1..]);
    }
  }

  /** Bytes and strings: a length below the limit, and that many bytes. */
  method DecodeBytes(s: IStream, limit: nat) returns (ok: bool, data: seq<byte>)
    requires s.Valid()
    modifies s
    ensures s.Moved()
    ensures ok <==> SizedOf(old(s.Unread())).Some? && |SizedOf(old(s.Unread())).value.value| < limit
    ensures ok ==> SizedOf(old(s.Unread())) == Some(Taken(data, s.Unread()))
  {
    hide Varint32Of;
    data := [];
    var size, eof;
    ok, size, eof := s.DecodeVarint32();
    if ok && size >= limit {
      ok := false;
    }
    if ok {
      ok, data := s.Read(size);
    }
  }

  method DecodeFixedBytes(s: IStream, size: nat) returns (ok: bool, data: seq<byte>)
    requires s.Valid()
    modifies s
    ensures s.Moved() && (ok ==> |data| == size)
    ensures ok <==> BytesOf(FixedBytes(size), old(s.Unread())).Some?
    ensures ok ==> BytesOf(FixedBytes(size), old(s.Unread())) == Some(Taken(BytesV(data), s.Unread()))
  {
    hide Varint32Of;
    data := [];
    var length, eof;
    ok, length, eof := s.DecodeVarint32();
    if !ok {
      return;
    }
    if length == 0 {
      return true, Zeros(size);
    }
    if length != size {
      return false, [];
    }
    ok, data := s.Read(size);
  }

  method DecodeFixed(s: IStream, n: nat) returns (ok: bool, value: nat)
    requires s.Valid()
    modifies s
    ensures s.Moved() && (ok ==> value < Pow256(n))
    ensures ok <==> n <= |old(s.Unread())|
    ensures ok ==> value == FromLittleEndian(old(s.Unread())[..n]) && s.Unread() == old(s.Unread())[n..]
  {
    var data;
    ok, data := s.Read(n);
    if ok {
      FromLittleEndianBound(data);
    }
    value := FromLittleEndian(data);
  }

  method DecodeInteger(s: IStream, t: LType) returns (ok: bool, r: Value)
    requires s.Valid() && (t.Varint? || t.UVarint? || t.SVarint?)
    modifies s
    ensures s.Moved() && (ok ==> TypedValue(t, r))
    ensures ok <==> IntegerOf(t, old(s.Unread())).Some?
    ensures ok ==> IntegerOf(t, old(s.Unread())) == Some(Taken(r, s.Unread()))
  {
    hide CastVarint, CastUVarint, CastSVarint, InSigned, InUnsigned, VarintOf;
    var value;
    ok, value := s.DecodeVarint();
    CastsAreTyped(t.width, value);
    var cast := if t.Varint? then CastVarint(t.width, value)
                else if t.UVarint? then CastUVarint(t.width, value) else CastSVarint(t.width, value);
    ok := ok && cast.0;
    r := IntV(cast.1);
  }

  /** The decoder for one value of a type (PB_DECODERS); `initialize` marks a fresh array entry. */
  method DecodeValue(s: IStream, t: LType, dest: Value, initialize: bool) returns (ok: bool, r: Value)
    requires s.Valid() && TypeOk(t) && TypedValue(t, dest)
    modifies s
    ensures s.Within() && (ok ==> s.Moved() && TypedValue(t, r))
    ensures ok <==> ValueOf(t, dest, initialize, old(s.Unread())).Some?
    ensures ok ==> ValueOf(t, dest, initialize, old(s.Unread())) == Some(Taken(r, s.Unread()))
    decreases t, 0
  {
    hide SizedOf, Varint32Of, IntegerOf, FromLittleEndian, TypedMessage, FieldsOf;
    r := dest;
    match t
    case Bool =>
      var value, eof;
      ok, value, eof := s.DecodeVarint32();
      r := BoolV(value != 0);
    case Varint(_) => ok, r := DecodeInteger(s, t);
    case UVarint(_) => ok, r := DecodeInteger(s, t);
    case SVarint(_) => ok, r := DecodeInteger(s, t);
    case Fixed32 =>
      FixedWidths();
      var value;
      ok, value := DecodeFixed(s, 4);
      r := IntV(value);
    case Fixed64 =>
      FixedWidths();
      var value;
      ok, value := DecodeFixed(s, 8);
      r := IntV(value);
    case Bytes(maxSize) =>
      var data;
      ok, data := DecodeBytes(s, maxSize + 1);
      r := BytesV(data);
    case String(dataSize) =>
      var data;
      ok, data := DecodeBytes(s, dataSize);
      r := BytesV(CString(data));
    case FixedBytes(size) =>
      var data;
      ok, data := DecodeFixedBytes(s, size);
      r := BytesV(data);
    case Submessage(fields) =>
      ok, r := DecodeSubmessage(s, fields, dest, initialize);
  }

  /** pb_dec_submessage: only array entries are set to defaults first. */
  method DecodeSubmessage(s: IStream, fields: seq<Field>, dest: Value, initialize: bool) returns (ok: bool, r: Value)
    requires s.Valid() && SchemaOk(fields) && dest.MessageV? && TypedMessage(fields, dest.slots)
    modifies s
    ensures s.Within() && (ok ==> s.Moved() && r.MessageV? && TypedMessage(fields, r.slots))
    ensures ok <==> ValueOf(Submessage(fields), dest, initialize, old(s.Unread())).Some?
    ensures ok ==> ValueOf(Submessage(fields), dest, initialize, old(s.Unread())) == Some(Taken(r, s.Unread()))
    decreases fields, 3
  {
    hide SchemaOk, TypedSlot, UnionsHoldOne, FieldsOf, SizedOf;
    r := dest;
    var substream;
    ok, substream := s.MakeStringSubstream();
    if !ok {
      return;
    }
    var slots;
    if initialize {
      ok, slots := Decode(substream, fields);
    } else {
      ok, slots := DecodeNoInit(substream, fields, dest.slots);
    }
    s.CloseStringSubstream(substream);
    r := MessageV(slots);
  }

  /** pb_decode. */
  method Decode(s: IStream, fields: seq<Field>) returns (ok: bool, r: Message)
    requires s.Valid() && SchemaOk(fields)
    modifies s
    ensures s.Within() && (ok ==> s.Moved() && TypedMessage(fields, r))
    ensures ok <==> FieldsOf(fields, Defaults(fields), {}, old(s.Unread())).Some?
    ensures ok ==> FieldsOf(fields, Defaults(fields), {}, old(s.Unread())) == Some(Taken(r, s.Unread()))
    decreases fields, 2
  {
    DefaultsAreTyped(fields);
    ok, r := DecodeNoInit(s, fields, Defaults(fields));
  }

  /** The packed branch of decode_static_field: entries until the substream or the array is used up. */
  method DecodePacked(s: IStream, f: Field, slot: seq<Value>) returns (ok: bool, r: seq<Value>)
    requires s.Valid() && FieldOk(f) && TypedSlot(f, slot) && f.rule.Repeated? && f.ltype.Packable()
    modifies s
    ensures s.Within() && (ok ==> s.Moved() && TypedSlot(f, r))
    ensures ok <==> PackedSlotOf(f.ltype, f.rule.arraySize, slot, old(s.Unread())).Some?
    ensures ok ==> PackedSlotOf(f.ltype, f.rule.arraySize, slot, old(s.Unread())) == Some(Taken(r, s.Unread()))
    decreases f, 1
  {
    hide ValueOf, TypedValue, SizedOf, PackedOf;
    r := slot;
    var substream;
    ok, substream := s.MakeStringSubstream();
    if !ok {
      return;
    }
    ghost var state, left := s.state, substream.bytesLeft;
    ghost var bytesLeft := s.bytesLeft;
    ghost var all := PackedOf(f.ltype, f.rule.arraySize, slot, substream.Unread());
    while substream.bytesLeft > 0 && |r| < f.rule.arraySize && ok
      invariant substream.Valid() && fresh(substream) && s.state == state && s.bytesLeft == bytesLeft
      invariant |state| - left <= |substream.state| - substream.bytesLeft
      invariant ok ==> substream.bytesLeft <= left && substream.state[substream.bytesLeft..] == state[left..]
      invariant TypedSlot(f, r)
      invariant all == if ok then PackedOf(f.ltype, f.rule.arraySize, r, substream.Unread()) else None
      decreases f.rule.arraySize - |r|, ok
    {
      DefaultIsTyped(f.ltype);
      PackedNext(f.ltype, f.rule.arraySize, r, substream.Unread());
      var v;
      ok, v := DecodeValue(substream, f.ltype, DefaultValue(f.ltype), true);
      if ok {
        r := r + [v];
      }
    }
    PackedNext(f.ltype, f.rule.arraySize, r, substream.Unread());
    if substream.bytesLeft != 0 {
      return false, r;
    }
    s.CloseStringSubstream(substream);
  }

  lemma PackedNext(t: LType, arraySize: nat, slot: seq<Value>, input: seq<byte>)
    ensures PackedOf(t, arraySize, slot, input) ==
            if input == [] then Some(slot)
            else if arraySize <= |slot| then None
            else
              var v := ValueOf(t, DefaultValue(t), true, input);
              if v.None? then None else PackedOf(t, arraySize, slot + [v.value.value], v.value.rest)
  {
    hide ValueOf;
  }

  /** decode_static_field. */
  method DecodeStaticField(s: IStream, wireType: nat, f: Field, slot: seq<Value>) returns (ok: bool, r: seq<Value>)
    requires s.Valid() && FieldOk(f) && TypedSlot(f, slot)
    modifies s
    ensures s.Within() && (ok ==> s.Moved() && TypedSlot(f, r))
    ensures ok <==> SlotOf(f, wireType, slot, old(s.Unread())).Some?
    ensures ok ==> SlotOf(f, wireType, slot, old(s.Unread())) == Some(Taken(r, s.Unread()))
    decreases f, 2
  {
    hide ValueOf, PackedSlotOf, TypedValue;
    DefaultIsTyped(f.ltype);
    var value;
    match f.rule
    case Repeated(arraySize) =>
      if wireType == 2 && f.ltype.Packable() {
        ok, r := DecodePacked(s, f, slot);
      } else if |slot| >= arraySize {
        return false, slot;
      } else {
        ok, value := DecodeValue(s, f.ltype, DefaultValue(f.ltype), true);
        r := slot + [value];
      }
    case _ =>
      ok, value := DecodeValue(s, f.ltype, if slot == [] then DefaultValue(f.ltype) else slot[0], false);
      r := [value];
  }

  // ---------- required fields ----------

  /** The bitmap has a bit for each of the first 64 required fields: whether its number came. */
  ghost predicate Bits(fields: seq<Field>, seen: set<nat>, fieldsSeen: seq<bool>) {
    && |fieldsSeen| == MAX_REQUIRED_FIELDS
    && forall k :: 0 <= k < |fields| && Checked(fields, k) ==> (fieldsSeen[RequiredBefore(fields, k)] <==> fields[k].tag in seen)
  }

  const MAX_REQUIRED_FIELDS: nat := 64

  /** The do-while that walks to the last field counting required ones. */
  method CountRequired(iter: FieldIter) returns (count: nat)
    requires iter.Valid()
    modifies iter
    ensures iter.Valid() && count == RequiredBefore(iter.fields, |iter.fields|)
  {
    count := iter.requiredFieldIndex;
    var last := iter.pos;
    var more := iter.Next();
    while more
      invariant iter.Valid() && (more ==> iter.pos == last + 1) && (iter.fields == [] ==> last == 0)
      invariant iter.fields != [] ==> last < |iter.fields| && (!more ==> last + 1 == |iter.fields|)
      invariant count == RequiredBefore(iter.fields, last)
      decreases |iter.fields| - last, more
    {
      count := iter.requiredFieldIndex;
      last := iter.pos;
      more := iter.Next();
    }
    if iter.fields != [] && iter.fields[last].rule.Required? {
      count := count + 1;
    }
  }

  /** The check over the bitmap of required fields. */
  method AllRequiredSeen(iter: FieldIter, fieldsSeen: seq<bool>, ghost seen: set<nat>) returns (ok: bool)
    requires iter.Valid() && Bits(iter.fields, seen, fieldsSeen)
    modifies iter
    ensures ok <==> AllSeen(iter.fields, seen)
  {
    hide RequiredBefore;
    var count := CountRequired(iter);
    if count > MAX_REQUIRED_FIELDS {
      count := MAX_REQUIRED_FIELDS;
    }
    ok := AllSet(fieldsSeen, count);
    if ok {
      CheckedAreCounted(iter.fields, count);
    } else {
      var bit :| 0 <= bit < count && !fieldsSeen[bit];
      var k := RequiredAt(iter.fields, |iter.fields|, bit);
      assert Checked(iter.fields, k);
    }
  }

  method AllSet(bits: seq<bool>, count: nat) returns (ok: bool)
    requires count <= |bits|
    ensures ok <==> forall b :: 0 <= b < count ==> bits[b]
  {
    for bit := 0 to count
      invariant forall b :: 0 <= b < bit ==> bits[b]
    {
      if !bits[bit] {
        return false;
      }
    }
    return true;
  }

  lemma CheckedAreCounted(fields: seq<Field>, count: nat)
    requires count == if RequiredBefore(fields, |fields|) > MAX_REQUIRED_FIELDS then MAX_REQUIRED_FIELDS else RequiredBefore(fields, |fields|)
    ensures forall k :: 0 <= k < |fields| && Checked(fields, k) ==> RequiredBefore(fields, k) < count
  {
    forall k | 0 <= k < |fields| && Checked(fields, k)
      ensures RequiredBefore(fields, k) < count
    {
      RequiredGrows(fields, k + 1, |fields|);
    }
  }

  /** Every counted bit belongs to a required field. */
  lemma {:induction false} RequiredAt(fields: seq<Field>, n: nat, bit: nat) returns (k: nat)
    requires n <= |fields| && bit < RequiredBefore(fields, n)
    ensures k < n && fields[k].rule.Required? && RequiredBefore(fields, k) == bit
  {
    if fields[n - 1].rule.Required? && RequiredBefore(fields, n - 1) == bit {
      k := n - 1;
    } else {
      k := RequiredAt(fields, n - 1, bit);
    }
  }

  lemma {:induction false} RequiredGrows(fields: seq<Field>, m: nat, n: nat)
    requires m <= n <= |fields|
    ensures RequiredBefore(fields, m) <= RequiredBefore(fields, n)
    decreases n
  {
    if m < n {
      RequiredGrows(fields, m, n - 1);
    }
  }

  /** Setting the bit of the required field the iterator stands on. */
  method MarkSeen(iter: FieldIter, fieldsSeen: seq<bool>, ghost seen: set<nat>) returns (r: seq<bool>)
    requires iter.Valid() && iter.pos < |iter.fields| && SchemaOk(iter.fields) && Bits(iter.fields, seen, fieldsSeen)
    ensures Bits(iter.fields, seen + {iter.fields[iter.pos].tag}, r)
  {
    hide RequiredBefore, SchemaOk, FieldOk;
    r := fieldsSeen;
    if iter.fields[iter.pos].rule.Required? && iter.requiredFieldIndex < MAX_REQUIRED_FIELDS {
      r := fieldsSeen[iter.requiredFieldIndex := true];
    }
    forall k | 0 <= k < |iter.fields| && Checked(iter.fields, k)
      ensures r[RequiredBefore(iter.fields, k)] <==> iter.fields[k].tag in seen + {iter.fields[iter.pos].tag}
    {
      if k != iter.pos {
        TagsDiffer(iter.fields, k, iter.pos);
        if iter.fields[iter.pos].rule.Required? {
          IndexesDiffer(iter.fields, k, iter.pos);
        }
      }
    }
  }

  lemma IndexesDiffer(fields: seq<Field>, i: nat, j: nat)
    requires i < |fields| && j < |fields| && i != j && fields[i].rule.Required? && fields[j].rule.Required?
    ensures RequiredBefore(fields, i) != RequiredBefore(fields, j)
  {
    if i < j {
      RequiredGrows(fields, i + 1, j);
    } else {
      RequiredGrows(fields, j + 1, i);
    }
  }

  lemma TagsDiffer(fields: seq<Field>, i: nat, j: nat)
    requires SchemaOk(fields) && i < |fields| && j < |fields| && i != j
    ensures fields[i].tag != fields[j].tag
  {
    hide FieldOk;
  }

  /** A number no field has sets no bit. */
  lemma UnknownSetsNothing(fields: seq<Field>, seen: set<nat>, fieldsSeen: seq<bool>, tag: nat)
    requires Bits(fields, seen, fieldsSeen) && forall i :: 0 <= i < |fields| ==> fields[i].tag != tag
    ensures Bits(fields, seen + {tag}, fieldsSeen)
  {
  }

  // ---------- messages ----------

  datatype Progress = Failed | Ended | Going

  lemma FoundIs(fields: seq<Field>, tag: nat, pos: nat)
    requires SchemaOk(fields) && pos < |fields| && fields[pos].tag == tag
    ensures FieldAt(fields, tag) == pos
  {
    hide FieldOk;
    if FieldAt(fields, tag) != pos {
      TagsDiffer(fields, FieldAt(fields, tag), pos);
    }
  }

  /** Past a field that is not known; an empty message type has only its terminator, which answers to number 0. */
  method SkipUnknown(s: IStream, fields: seq<Field>, tag: nat, wireType: nat) returns (ok: bool)
    requires s.Valid()
    modifies s
    ensures s.Moved()
    ensures ok <==> UnknownOf(fields, tag, wireType, old(s.Unread())).Some?
    ensures ok ==> UnknownOf(fields, tag, wireType, old(s.Unread())) == Some(s.Unread())
  {
    hide SkipOf, Varint32Of;
    if fields == [] && tag == 0 {
      var value, eof;
      ok, value, eof := s.DecodeVarint32();
    } else {
      ok := s.SkipField(wireType);
    }
  }

  /** One turn of the loop in pb_decode_noinit: a tag, the field it names, and the field's data. */
  method DecodeOneField(s: IStream, iter: FieldIter, dest: Message, fieldsSeen: seq<bool>, ghost seen: set<nat>)
    returns (p: Progress, r: Message, fieldsSeen': seq<bool>, ghost seen': set<nat>)
    requires s.Valid() && iter.Valid() && SchemaOk(iter.fields) && TypedMessage(iter.fields, dest) && Bits(iter.fields, seen, fieldsSeen)
    requires s.Unread() != []
    modifies s, iter
    ensures s.Within() && iter.Valid() && TypedMessage(iter.fields, r) && Bits(iter.fields, seen', fieldsSeen')
    ensures p != Failed ==> s.Moved()
    ensures p == Going ==> s.bytesLeft < old(s.bytesLeft)
    ensures FieldsOf(iter.fields, dest, seen, old(s.Unread())) ==
            match p
            case Failed => None
            case Ended => Finished(iter.fields, r, seen', s.Unread())
            case Going => FieldsOf(iter.fields, r, seen', s.Unread())
    decreases iter.fields, 0
  {
    hide FieldsOf, SlotOf, Varint32Of, UnknownOf, TypedSlot, UnionsHoldOne, Stored, Bits, SchemaOk, Finished;
    p, r, fieldsSeen', seen' := Failed, dest, fieldsSeen, seen;
    MeaningStep(iter.fields, dest, seen, s.Unread());
    TypedLength(iter.fields, dest);
    var ok, wireType, tag, eof := s.DecodeTag();
    if !ok {
      return if eof then Ended else Failed, r, fieldsSeen', seen';
    }
    seen' := seen + {tag};
    var found := iter.Find(tag);
    if !found {
      UnknownSetsNothing(iter.fields, seen, fieldsSeen, tag);
      ok := SkipUnknown(s, iter.fields, tag, wireType);
      return if ok then Going else Failed, r, fieldsSeen', seen';
    }
    FoundIs(iter.fields, tag, iter.pos);
    SlotFits(iter.fields, r, iter.pos);
    fieldsSeen' := MarkSeen(iter, fieldsSeen, seen);
    var slot;
    ok, slot := DecodeStaticField(s, wireType, iter.fields[iter.pos], r[iter.pos]);
    if !ok {
      return;
    }
    StoredIsTyped(iter.fields, r, iter.pos, slot);
    p, r := Going, Stored(iter.fields, r, iter.pos, slot);
  }

  lemma TypedLength(fields: seq<Field>, msg: Message)
    requires TypedMessage(fields, msg)
    ensures |msg| == |fields|
  {
  }

  lemma SlotFits(fields: seq<Field>, dest: Message, pos: nat)
    requires SchemaOk(fields) && TypedMessage(fields, dest) && pos < |fields|
    ensures FieldOk(fields[pos]) && TypedSlot(fields[pos], dest[pos])
  {
  }

  lemma StoredIsTyped(fields: seq<Field>, dest: Message, i: nat, slot: seq<Value>)
    requires TypedMessage(fields, dest) && i < |fields| && TypedSlot(fields[i], slot)
    ensures TypedMessage(fields, Stored(fields, dest, i, slot))
  {
    hide TypedValue;
    var r := Stored(fields, dest, i, slot);
    forall k | 0 <= k < |fields|
      ensures TypedSlot(fields[k], r[k])
    {
    }
  }

  /**
   * pb_decode_noinit: of any bytes it makes what they mean, and fails exactly if they mean nothing. It
   * succeeds exactly if they read as parts up to an end, the parts can be stored one after the other,
   * and none of the first 64 required fields is missing from them.
   */
  method DecodeNoInit(s: IStream, fields: seq<Field>, dest: Message) returns (ok: bool, r: Message)
    requires s.Valid() && SchemaOk(fields) && TypedMessage(fields, dest)
    modifies s
    ensures s.Within() && (ok ==> s.Moved() && TypedMessage(fields, r))
    ensures ok <==> FieldsOf(fields, dest, {}, old(s.Unread())).Some?
    ensures ok ==> FieldsOf(fields, dest, {}, old(s.Unread())) == Some(Taken(r, s.Unread()))
    ensures |dest| == |fields| && MadeOfParts(fields, dest, old(s.Unread()), ok, r, if ok then s.Unread() else [])
    ensures old(s.Unread()) == [] ==> (ok <==> forall k :: 0 <= k < |fields| ==> !fields[k].rule.Required?)
    decreases fields, 1
  {
    hide FieldsOf, TypedSlot, UnionsHoldOne, AllSeen, Bits, MadeOfParts;
    r := dest;
    var iter := new FieldIter(fields);
    var fieldsSeen := seq(MAX_REQUIRED_FIELDS, _ => false);
    ghost var seen: set<nat> := {};
    NothingSeen(fields, fieldsSeen);
    TypedLength(fields, dest);
    ghost var all := FieldsOf(fields, dest, {}, s.Unread());
    var p := Going;
    while s.bytesLeft > 0 && p == Going
      invariant s.Within() && (p != Failed ==> s.Moved()) && TypedMessage(fields, r) && Bits(fields, seen, fieldsSeen)
      invariant iter.Valid() && fresh(iter) && iter.fields == fields
      invariant all == match p
                       case Failed => None
                       case Ended => Finished(fields, r, seen, s.Unread())
                       case Going => FieldsOf(fields, r, seen, s.Unread())
      decreases p == Going, s.bytesLeft
    {
      p, r, fieldsSeen, seen := DecodeOneField(s, iter, r, fieldsSeen, seen);
    }
    NothingIsMessage(fields, dest);
    if p == Failed {
      DecodedIsMadeOfParts(fields, dest, old(s.Unread()), false, r, []);
      return false, r;
    }
    MeaningStep(fields, r, seen, s.Unread());
    ok := AllRequiredSeen(iter, fieldsSeen, seen);
    DecodedIsMadeOfParts(fields, dest, old(s.Unread()), ok, r, if ok then s.Unread() else []);
  }

  lemma NothingSeen(fields: seq<Field>, fieldsSeen: seq<bool>)
    requires |fieldsSeen| == MAX_REQUIRED_FIELDS && forall i :: 0 <= i < |fieldsSeen| ==> !fieldsSeen[i]
    ensures Bits(fields, {}, fieldsSeen)
  {
  }
}
