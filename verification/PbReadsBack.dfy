/** What the encoder wrote means the message it was written for (nanopb pb_encode.c, pb_decode.c). */
module PbReadsBack {
  import opened Common
  import opened Coding
  import opened Varint
  import opened PbSchema
  import opened PbEncode
  import opened PbFields
  import opened PbWire
  import opened PbWireLaws
  import opened PbMeaning
  import opened PbProgress

  // ---------- integers ----------

  /** A number and what it was cast to agree in the low bits. */
  predicate LowBitsAgree(width: Width, u: nat, i: int) {
    (u - i) % (if width == 64 then TWO_64 else TWO_32) == 0
  }

  /** What each integer type takes: a number that fits its width, sent in any form that has its low 32 or 64 bits. */
  lemma CastsAreExact(width: Width, u: nat, i: int)
    requires u < TWO_64
    ensures CastVarint(width, u) == (true, i) <==> InSigned(width, i) && LowBitsAgree(width, u, i)
    ensures CastUVarint(width, u) == (true, i) <==> InUnsigned(width, i) && u == i
    ensures CastSVarint(width, u) == (true, i) <==> InSigned(width, i) && u == ZigZag(i)
  {
    hide CastVarint, CastUVarint, CastSVarint, LowBitsAgree, InSigned, InUnsigned;
    CastVarintIsExact(width, u, i);
    CastUVarintIsExact(width, u, i);
    CastSVarintIsExact(width, u, i);
  }

  lemma CastUVarintIsExact(width: Width, u: nat, i: int)
    ensures CastUVarint(width, u) == (true, i) <==> InUnsigned(width, i) && u == i
  {
  }

  lemma SignedIs(width: Width, x: int, i: int)
    ensures Signed(width, x) == i <==> InSigned(width, i) && (x - i) % Range(width) == 0
  {
    SameRemainder(x, i, Range(width));
  }

  /** Two numbers whose difference is a multiple. */
  lemma SameRemainder(x: int, y: int, m: nat)
    requires m == 0x100 || m == 0x1_0000 || m == TWO_32 || m == TWO_64
    ensures (x - y) % m == 0 <==> x % m == y % m
  {
  }

  lemma CastVarintIsExact(width: Width, u: nat, i: int)
    requires u < TWO_64
    ensures CastVarint(width, u) == (true, i) <==> InSigned(width, i) && LowBitsAgree(width, u, i)
  {
    hide Signed;
    var wide := if width == 64 then 64 else 32;
    SignedIs(wide, u, i);
    SignedIs(width, i, i);
    var s := Signed(wide, u);
    SignedIs(wide, u, s);
    SignedIs(width, s, s);
    SignedIs(width, s, Signed(width, s));
  }

  lemma CastSVarintIsExact(width: Width, u: nat, i: int)
    requires u < TWO_64
    ensures CastSVarint(width, u) == (true, i) <==> InSigned(width, i) && u == ZigZag(i)
  {
    hide Signed;
    var value := UnZigZag(u);
    assert ZigZag(value) == u && UnZigZag(ZigZag(i)) == i;
    SignedIs(width, value, value);
    SignedIs(width, value, Signed(width, value));
    SignedIs(width, i, i);
  }

  /** Every value of an integer field survives its encoding, cast and check. */
  lemma IntegersRoundTrip(width: Width, i: int)
    ensures InSigned(width, i) ==> Unsigned64(i) < TWO_64 && CastVarint(width, Unsigned64(i)) == (true, i)
    ensures InUnsigned(width, i) ==> i < TWO_64 && CastUVarint(width, i) == (true, i)
    ensures InSigned(width, i) ==> ZigZag(i) < TWO_64 && CastSVarint(width, ZigZag(i)) == (true, i)
  {
    hide CastVarint, CastUVarint, CastSVarint;
    if InSigned(width, i) {
      assert Unsigned64(i) == if i < 0 then i + TWO_64 else i;
      CastsAreExact(width, Unsigned64(i), i);
      CastsAreExact(width, ZigZag(i), i);
    }
    if InUnsigned(width, i) {
      CastsAreExact(width, i, i);
    }
  }

  lemma {:induction false} LittleEndianRoundTrip(v: nat, n: nat, rest: seq<byte>)
    requires v < Pow256(n)
    ensures FromLittleEndian(LittleEndian(v, n)) == v
    ensures (LittleEndian(v, n) + rest)[..n] == LittleEndian(v, n) && (LittleEndian(v, n) + rest)[n..] == rest
  {
    if 0 < n {
      var code := LittleEndian(v, n);
      assert code[1..] == LittleEndian(v / 256, n - 1);
      LittleEndianRoundTrip(v / 256, n - 1, []);
    }
  }

  lemma {:induction false} CStringIsWhole(s: seq<byte>)
    requires forall b :: b in s ==> b != 0
    ensures CString(s) == s
  {
    if s != [] {
      assert s[0] in s && forall b :: b in s[1..] ==> b in s;
      CStringIsWhole(s[1..]);
    }
  }

  // ---------- values ----------

  lemma IntegerReadsBack(t: LType, v: Value, rest: seq<byte>)
    requires (t.Varint? || t.UVarint? || t.SVarint?) && TypedValue(t, v)
    ensures IntegerOf(t, ValueBytes(t, v) + rest) == Some(Taken(v, rest))
  {
    hide VarintBytes, VarintOf, CastVarint, CastUVarint, CastSVarint, Unsigned64, ZigZag;
    IntegersRoundTrip(t.width, v.i);
    var sent := if t.Varint? then Unsigned64(v.i) else if t.UVarint? then v.i else ZigZag(v.i);
    WrittenVarint(sent, rest);
  }

  lemma BytesReadBack(t: LType, v: Value, rest: seq<byte>)
    requires (t.Bytes? || t.String? || t.FixedBytes?) && Sendable(t, v) && |v.bytes| < TWO_63
    ensures BytesOf(t, ValueBytes(t, v) + rest) == if Readable(t, v) then Some(Taken(v, rest)) else None
  {
    hide SizedOf, Delimited;
    WrittenSized(v.bytes, rest);
    if t.String? {
      CStringIsWhole(v.bytes);
    }
    if t.FixedBytes? && v.bytes == [] {
      assert Zeros(0) == [];
    }
  }

  lemma DelimitedSize(body: seq<byte>)
    ensures |body| < |Delimited(body)|
  {
  }

  /** A value's bytes mean the value, if its strings leave room and its lengths fit; nothing otherwise. */
  lemma {:induction false} ValueReadsBack(t: LType, dest: Value, initialize: bool, v: Value, rest: seq<byte>)
    requires TypeOk(t) && Sendable(t, v) && |ValueBytes(t, v)| < TWO_63
    requires t.Submessage? && !initialize ==> dest == DefaultValue(t)
    ensures ValueOf(t, dest, initialize, ValueBytes(t, v) + rest) == if Readable(t, v) then Some(Taken(v, rest)) else None
    decreases t, 0, 0
  {
    hide VarintBytes, Delimited, LittleEndian, FieldsBytes, FieldsOf, SizedOf, Varint32Of, IntegerOf, BytesOf, FromLittleEndian;
    match t
    case Bool => WrittenVarint32(if v.b then 1 else 0, rest);
    case Varint(_) => IntegerReadsBack(t, v, rest);
    case UVarint(_) => IntegerReadsBack(t, v, rest);
    case SVarint(_) => IntegerReadsBack(t, v, rest);
    case Fixed32 =>
      FixedWidths();
      LittleEndianRoundTrip(v.i, 4, rest);
    case Fixed64 =>
      FixedWidths();
      LittleEndianRoundTrip(v.i, 8, rest);
    case Bytes(_) =>
      DelimitedSize(v.bytes);
      BytesReadBack(t, v, rest);
    case String(_) =>
      DelimitedSize(v.bytes);
      BytesReadBack(t, v, rest);
    case FixedBytes(_) =>
      DelimitedSize(v.bytes);
      BytesReadBack(t, v, rest);
    case Submessage(fields) =>
      assert TypedMessage(fields, v.slots);
      DelimitedSize(FieldsBytes(fields, v.slots));
      WrittenSized(FieldsBytes(fields, v.slots), rest);
      MessageReadsBack(fields, v.slots);
  }

  lemma {:induction false} PackedReadsBack(t: LType, arraySize: nat, vs: seq<Value>, k: nat)
    requires t.Packable() && k <= |vs| <= arraySize && forall v :: v in vs ==> TypedValue(t, v)
    requires |PackedBytes(t, vs[k..])| < TWO_63
    ensures PackedOf(t, arraySize, vs[..k], PackedBytes(t, vs[k..])) == Some(vs)
    decreases t, 1, |vs| - k
  {
    hide ValueBytes, ValueOf, TypedValue;
    if k == |vs| {
      assert vs[..k] == vs && vs[k..] == [];
    } else {
      ScalarIsFine(t, vs[k]);
      assert vs[k..][1..] == vs[k + 1..] && vs[k..][0] == vs[k];
      ValueReadsBack(t, DefaultValue(t), true, vs[k], PackedBytes(t, vs[k + 1..]));
      assert vs[..k] + [vs[k]] == vs[..k + 1];
      PackedReadsBack(t, arraySize, vs, k + 1);
    }
  }

  lemma ScalarIsFine(t: LType, v: Value)
    requires t.Packable() && TypedValue(t, v)
    ensures TypeOk(t) && Sendable(t, v) && Readable(t, v) && ValueBytes(t, v) != []
  {
    hide VarintBytes;
  }

  // ---------- messages ----------

  /** A message's bytes mean the message, if it is readable; nothing otherwise. */
  lemma {:induction false} MessageReadsBack(fields: seq<Field>, msg: Message)
    requires SchemaOk(fields) && SendableMessage(fields, msg) && |FieldsBytes(fields, msg)| < TWO_63
    ensures FieldsOf(fields, Defaults(fields), {}, FieldsBytes(fields, msg)) ==
            if ReadableFields(fields, msg) then Some(Taken(msg, [])) else None
    decreases fields, 1, 0
  {
    hide FieldsOf, FieldsBytes, ReadableFields, SchemaOk, FieldsInBounds;
    StartsOnTrack(fields, msg, {});
    RestReadsBack(fields, msg, 0, 0, Defaults(fields), {}, FieldsBytes(fields, msg));
  }

  lemma OnTrackLength(fields: seq<Field>, msg: Message, i: nat, j: nat, dest: Message, seen: set<nat>, unread: seq<byte>)
    requires OnTrack(fields, msg, i, j, dest, seen, unread)
    ensures |dest| == |fields|
  {
  }

  /** What comes next can be read. */
  ghost predicate Fine(fields: seq<Field>, x: Expected)
    requires x.i < |fields|
    requires if IsPacked(fields[x.i]) then TypedSlot(fields[x.i], x.vs) else TypedValue(fields[x.i].ltype, x.v)
  {
    if IsPacked(fields[x.i]) then |PackedBytes(fields[x.i].ltype, x.vs)| < TWO_32 else Readable(fields[x.i].ltype, x.v)
  }

  /** The message once it is stored. */
  ghost function After(fields: seq<Field>, dest: Message, x: Expected): Message
    requires x.i < |fields| == |dest|
  {
    Stored(fields, dest, x.i,
           if IsPacked(fields[x.i]) then x.vs else (if fields[x.i].rule.Repeated? then dest[x.i] else []) + [x.v])
  }

  lemma WireNumberFits(w: WireType)
    ensures WireNumber(w) < 8
  {
  }

  lemma KeyReadsBack(tag: nat, w: WireType, rest: seq<byte>)
    requires 0 < tag < 0x2000_0000
    ensures Varint32Of(Key(tag, w) + rest) == Some(Taken(tag * 8 + WireNumber(w), rest))
  {
    hide VarintBytes, Varint32Of;
    WrittenVarint32(tag * 8 + WireNumber(w), rest);
  }

  lemma FieldIsFound(fields: seq<Field>, i: nat)
    requires SchemaOk(fields) && i < |fields|
    ensures FieldAt(fields, fields[i].tag) == i && FieldOk(fields[i])
  {
    hide FieldOk;
    assert FieldAt(fields, fields[i].tag) <= i;
  }

  /** The slot that comes next reads back. */
  lemma {:induction false} SlotReadsBack(fields: seq<Field>, f: Field, msg: Message, dest: Message, seen: set<nat>, unread: seq<byte>, x: Expected)
    requires Comes(fields, msg, dest, seen, unread, x) && |unread| < TWO_63 && x.i < |fields| == |dest|
    requires f == fields[x.i] && FieldOk(f)
    requires if IsPacked(fields[x.i]) then TypedSlot(fields[x.i], x.vs) else TypedValue(fields[x.i].ltype, x.v)
    ensures SlotOf(fields[x.i], WireNumber(x.w), dest[x.i], Content(fields, x) + x.rest) ==
            if Fine(fields, x) then
              Some(Taken(if IsPacked(fields[x.i]) then x.vs else (if fields[x.i].rule.Repeated? then dest[x.i] else []) + [x.v], x.rest))
            else None
    decreases f, 2
  {
    hide OnTrack, Delimited, PackedBytes, ValueBytes, Key, ReadableFields, Readable, Stored, ValueOf, PackedOf, SizedOf, TypedMessage;
    assert |Content(fields, x)| <= |unread|;
    if IsPacked(f) {
      DelimitedSize(PackedBytes(f.ltype, x.vs));
      WrittenSized(PackedBytes(f.ltype, x.vs), x.rest);
      assert x.vs[0..] == x.vs && x.vs[..0] == [];
      PackedReadsBack(f.ltype, f.rule.arraySize, x.vs, 0);
    } else {
      PackableWire(f.ltype, x.w);
      var dest0 := if f.rule.Repeated? || dest[x.i] == [] then DefaultValue(f.ltype) else dest[x.i][0];
      ValueReadsBack(f.ltype, dest0, f.rule.Repeated?, x.v, x.rest);
      assert [] + [x.v] == [x.v];
    }
  }

  /** A scalar is never sent as a length and bytes. */
  lemma PackableWire(t: LType, w: WireType)
    requires w == WireTypeOf(t)
    ensures WireNumber(w) == 2 ==> !t.Packable()
  {
  }

  lemma {:induction false} PartReadsBack(fields: seq<Field>, msg: Message, dest: Message, seen: set<nat>, unread: seq<byte>, x: Expected)
    requires SchemaOk(fields) && Comes(fields, msg, dest, seen, unread, x) && |unread| < TWO_63 && |dest| == |fields|
    ensures x.i < |fields| && |x.rest| < |unread|
    ensures if IsPacked(fields[x.i]) then TypedSlot(fields[x.i], x.vs) else TypedValue(fields[x.i].ltype, x.v)
    ensures var tag := fields[x.i].tag;
            && Varint32Of(unread) == Some(Taken(tag * 8 + WireNumber(x.w), Content(fields, x) + x.rest)) && 0 < tag && WireNumber(x.w) < 8
            && PartOf(fields, dest, tag, WireNumber(x.w), Content(fields, x) + x.rest) ==
               if Fine(fields, x) then Some(Taken(After(fields, dest, x), x.rest)) else None
    decreases fields, 0, |unread|, 1
  {
    ComesTyped(fields, msg, dest, seen, unread, x);
    hide Comes, OnTrack, Key, Content, Stored, SlotOf, Fine, TypedSlot, TypedValue;
    FieldIsFound(fields, x.i);
    WireNumberFits(x.w);
    KeyReadsBack(fields[x.i].tag, x.w, Content(fields, x) + x.rest);
    SlotReadsBack(fields, fields[x.i], msg, dest, seen, unread, x);
  }

  lemma ComesTyped(fields: seq<Field>, msg: Message, dest: Message, seen: set<nat>, unread: seq<byte>, x: Expected)
    requires Comes(fields, msg, dest, seen, unread, x)
    ensures x.i < |fields| && |x.rest| < |unread|
    ensures if IsPacked(fields[x.i]) then TypedSlot(fields[x.i], x.vs) else TypedValue(fields[x.i].ltype, x.v)
    ensures unread == Key(fields[x.i].tag, x.w) + (Content(fields, x) + x.rest)
  {
    hide OnTrack, Key, Content, Stored, TypedSlot, TypedValue;
  }

  /** Having been stored, it leaves the decoder on track; a readable message has nothing else. */
  lemma TrackGoesOn(fields: seq<Field>, msg: Message, dest: Message, seen: set<nat>, unread: seq<byte>, x: Expected)
    requires Comes(fields, msg, dest, seen, unread, x) && x.i < |fields| == |dest|
    requires if IsPacked(fields[x.i]) then TypedSlot(fields[x.i], x.vs) else TypedValue(fields[x.i].ltype, x.v)
    ensures ReadableFields(fields, msg) ==> Fine(fields, x)
    ensures Fine(fields, x) ==>
              OnTrack(fields, msg, if IsPacked(fields[x.i]) then x.i + 1 else x.i, if IsPacked(fields[x.i]) then 0 else x.j + 1,
                      After(fields, dest, x), seen + {fields[x.i].tag}, x.rest)
  {
    hide OnTrack, Key, Content, Stored, ReadableFields, Readable, PackedBytes;
  }

  lemma SeenAll(fields: seq<Field>, seen: set<nat>)
    requires forall k :: 0 <= k < |fields| ==> SeenAt(fields, seen, k)
    ensures AllSeen(fields, seen)
  {
    forall k | 0 <= k < |fields| && Checked(fields, k)
      ensures fields[k].tag in seen
    {
      assert SeenAt(fields, seen, k);
    }
  }

  lemma {:induction false} RestReadsBack(fields: seq<Field>, msg: Message, i: nat, j: nat, dest: Message, seen: set<nat>, unread: seq<byte>)
    requires SchemaOk(fields) && SendableMessage(fields, msg) && OnTrack(fields, msg, i, j, dest, seen, unread) && |unread| < TWO_63
    ensures |dest| == |fields|
    ensures FieldsOf(fields, dest, seen, unread) == if ReadableFields(fields, msg) then Some(Taken(msg, [])) else None
    decreases fields, 0, |unread|, 2
  {
    hide FieldsBytes, ReadableFields, SchemaOk, FieldsInBounds, OnTrack, PartOf, FieldsOf, TypedMessage, Comes, Varint32Of, Fine, After, Content;
    OnTrackLength(fields, msg, i, j, dest, seen, unread);
    MeaningStep(fields, dest, seen, unread);
    if unread == [] {
      EndsWithMessage(fields, msg, i, j, dest, seen);
      assert AllSeen(fields, seen) by { SeenAll(fields, seen); }
    } else {
      var x := SomethingComes(fields, msg, i, j, dest, seen, unread);
      PartReadsBack(fields, msg, dest, seen, unread, x);
      TrackGoesOn(fields, msg, dest, seen, unread, x);
      if Fine(fields, x) {
        RestReadsBack(fields, msg, if IsPacked(fields[x.i]) then x.i + 1 else x.i, if IsPacked(fields[x.i]) then 0 else x.j + 1,
                      After(fields, dest, x), seen + {fields[x.i].tag}, x.rest);
      }
    }
  }
}
