/** Laws of decoding any bytes: parts, required fields, concatenation, unknown fields (nanopb pb_decode.c). */
module PbLaws {
  import opened Common
  import opened Coding
  import opened Varint
  import opened Readers
  import opened PbSchema
  import opened PbFields
  import opened PbWire
  import opened PbWireLaws
  import opened PbMeaning

  // ---------- readers look at what they take, and at nothing else ----------

  /** What was taken from the input. */
  function Front(input: seq<byte>, rest: seq<byte>): seq<byte>
    requires |rest| <= |input|
  {
    input[..|input| - |rest|]
  }

  lemma CodeIsLocal(input: seq<byte>, other: seq<byte>)
    requires 0 < CodeLength(input)
    ensures var n := CodeLength(input);
            CodeLength(input[..n] + other) == n && (input[..n] + other)[..n] == input[..n] && (input[..n] + other)[n..] == other
    ensures input == input[..CodeLength(input)] + input[CodeLength(input)..]
  {
    CodeEndsAt(input[..CodeLength(input)] + other, CodeLength(input));
  }

  lemma VarintIsLocal(input: seq<byte>, other: seq<byte>)
    requires VarintOf(input).Some?
    ensures var r := VarintOf(input).value;
            && input == Front(input, r.rest) + r.rest && CodeLength(Front(input, r.rest)) == |Front(input, r.rest)| <= 10
            && VarintOf(Front(input, r.rest) + other) == Some(Taken(r.value, other))
  {
    hide GroupSum;
    CodeIsLocal(input, other);
    CodeIsLocal(input, []);
    assert input[..CodeLength(input)] + [] == input[..CodeLength(input)];
  }

  lemma Varint32IsLocal(input: seq<byte>, other: seq<byte>)
    requires Varint32Of(input).Some?
    ensures var r := Varint32Of(input).value;
            && input == Front(input, r.rest) + r.rest && CodeLength(Front(input, r.rest)) == |Front(input, r.rest)|
            && Varint32Of(Front(input, r.rest) + other) == Some(Taken(r.value, other))
  {
    hide Value32;
    CodeIsLocal(input, other);
    CodeIsLocal(input, []);
    assert input[..CodeLength(input)] + [] == input[..CodeLength(input)];
  }

  lemma SizedIsLocal(input: seq<byte>, other: seq<byte>)
    requires SizedOf(input).Some?
    ensures var r := SizedOf(input).value;
            && input == Front(input, r.rest) + r.rest && SizedOf(Front(input, r.rest) + other) == Some(Taken(r.value, other))
  {
    hide Varint32Of;
    var size := Varint32Of(input).value;
    var r := SizedOf(input).value;
    Varint32IsLocal(input, r.value + other);
    assert Front(input, r.rest) + other == Front(input, size.rest) + (r.value + other) by {
      assert size.rest == r.value + r.rest;
      assert input == Front(input, size.rest) + r.value + r.rest;
      assert Front(input, r.rest) == Front(input, size.rest) + r.value;
    }
    assert (r.value + other)[..|r.value|] == r.value && (r.value + other)[|r.value|..] == other;
    assert input == Front(input, r.rest) + r.rest by {
      assert input[|input| - |r.rest|..] == r.rest by {
        assert input == Front(input, size.rest) + size.rest && size.rest[|size.rest| - |r.rest|..] == r.rest;
      }
    }
  }

  // ---------- the content of a part ----------

  ghost predicate IsCode(content: seq<byte>) {
    0 < |content| == CodeLength(content)
  }

  ghost predicate IsSized(content: seq<byte>) {
    SizedOf(content).Some? && SizedOf(content).value.rest == []
  }

  /** How much a value of a type takes, whatever the wire type says. */
  ghost predicate IsValue(t: LType, content: seq<byte>) {
    match t
    case Bool => IsCode(content)
    case Varint(_) => IsCode(content) && |content| <= 10
    case UVarint(_) => IsCode(content) && |content| <= 10
    case SVarint(_) => IsCode(content) && |content| <= 10
    case Fixed32 => |content| == 4
    case Fixed64 => |content| == 8
    case _ => IsSized(content)
  }

  /** How much a reader takes that knows the wire type only. */
  ghost predicate IsSkipped(wire: nat, content: seq<byte>) {
    || (wire == 0 && IsCode(content)) || (wire == 1 && |content| == 8)
    || (wire == 2 && IsSized(content)) || (wire == 5 && |content| == 4)
  }

  /** A field number, a wire type, and what they announce. */
  datatype Part = Part(tag: nat, wire: nat, content: seq<byte>)

  ghost predicate IsContent(fields: seq<Field>, p: Part) {
    var i := FieldAt(fields, p.tag);
    if i < |fields| then
      if fields[i].rule.Repeated? && fields[i].ltype.Packable() && p.wire == 2 then IsSized(p.content) else IsValue(fields[i].ltype, p.content)
    else if fields == [] && p.tag == 0 then IsCode(p.content)
    else IsSkipped(p.wire, p.content)
  }

  /** The input starts with a part: its key, then its content. */
  ghost predicate ReadsPart(fields: seq<Field>, input: seq<byte>, p: Part, rest: seq<byte>) {
    && p.wire < 8 && 0 < p.tag * 8 + p.wire
    && Varint32Of(input) == Some(Taken(p.tag * 8 + p.wire, p.content + rest)) && IsContent(fields, p)
  }

  ghost function PartReader(fields: seq<Field>): (seq<byte>, Part, seq<byte>) -> bool {
    (input: seq<byte>, p: Part, rest: seq<byte>) => ReadsPart(fields, input, p, rest)
  }

  lemma IntegerIsLocal(t: LType, input: seq<byte>, other: seq<byte>)
    requires (t.Varint? || t.UVarint? || t.SVarint?) && IntegerOf(t, input).Some?
    ensures var r := IntegerOf(t, input).value;
            && input == Front(input, r.rest) + r.rest && IsValue(t, Front(input, r.rest))
            && IntegerOf(t, Front(input, r.rest) + other) == Some(Taken(r.value, other))
  {
    hide VarintOf, CastVarint, CastUVarint, CastSVarint;
    VarintIsLocal(input, other);
  }

  lemma ContentIsSized(input: seq<byte>, rest: seq<byte>)
    requires SizedOf(input).Some? && SizedOf(input).value.rest == rest
    ensures IsSized(Front(input, rest))
  {
    hide SizedOf;
    SizedIsLocal(input, []);
    assert Front(input, rest) + [] == Front(input, rest);
  }

  lemma BytesAreLocal(t: LType, input: seq<byte>, other: seq<byte>)
    requires (t.Bytes? || t.String? || t.FixedBytes?) && BytesOf(t, input).Some?
    ensures var r := BytesOf(t, input).value;
            && input == Front(input, r.rest) + r.rest && IsValue(t, Front(input, r.rest))
            && BytesOf(t, Front(input, r.rest) + other) == Some(Taken(r.value, other))
  {
    hide SizedOf, IsSized;
    SizedIsLocal(input, other);
    ContentIsSized(input, SizedOf(input).value.rest);
  }

  lemma FixedIsLocal(input: seq<byte>, n: nat, other: seq<byte>)
    requires n <= |input|
    ensures input == Front(input, input[n..]) + input[n..] && |Front(input, input[n..])| == n
    ensures (Front(input, input[n..]) + other)[..n] == input[..n] && (Front(input, input[n..]) + other)[n..] == other
  {
  }

  lemma SubmessageIsLocal(fields: seq<Field>, dest: Value, initialize: bool, input: seq<byte>, other: seq<byte>)
    requires ValueOf(Submessage(fields), dest, initialize, input).Some?
    ensures var r := ValueOf(Submessage(fields), dest, initialize, input).value;
            && input == Front(input, r.rest) + r.rest && IsSized(Front(input, r.rest))
            && ValueOf(Submessage(fields), dest, initialize, Front(input, r.rest) + other) == Some(Taken(r.value, other))
  {
    hide SizedOf, FieldsOf, IsSized;
    SizedIsLocal(input, other);
    ContentIsSized(input, SizedOf(input).value.rest);
  }

  lemma ValueIsLocal(t: LType, dest: Value, initialize: bool, input: seq<byte>, other: seq<byte>)
    requires ValueOf(t, dest, initialize, input).Some?
    ensures var r := ValueOf(t, dest, initialize, input).value;
            && input == Front(input, r.rest) + r.rest && IsValue(t, Front(input, r.rest))
            && ValueOf(t, dest, initialize, Front(input, r.rest) + other) == Some(Taken(r.value, other))
  {
    hide SizedOf, VarintOf, Varint32Of, FieldsOf, IntegerOf, BytesOf, IsSized, Front, CodeLength, FromLittleEndian;
    match t
    case Bool => Varint32IsLocal(input, other);
    case Varint(_) => IntegerIsLocal(t, input, other);
    case UVarint(_) => IntegerIsLocal(t, input, other);
    case SVarint(_) => IntegerIsLocal(t, input, other);
    case Fixed32 => FixedIsLocal(input, 4, other);
    case Fixed64 => FixedIsLocal(input, 8, other);
    case Bytes(_) => BytesAreLocal(t, input, other);
    case String(_) => BytesAreLocal(t, input, other);
    case FixedBytes(_) => BytesAreLocal(t, input, other);
    case Submessage(fields) => SubmessageIsLocal(fields, dest, initialize, input, other);
  }

  lemma PackedSlotIsLocal(t: LType, arraySize: nat, slot: seq<Value>, input: seq<byte>, other: seq<byte>)
    requires PackedSlotOf(t, arraySize, slot, input).Some?
    ensures var r := PackedSlotOf(t, arraySize, slot, input).value;
            && input == Front(input, r.rest) + r.rest && IsSized(Front(input, r.rest))
            && PackedSlotOf(t, arraySize, slot, Front(input, r.rest) + other) == Some(Taken(r.value, other))
  {
    hide SizedOf, PackedOf, IsSized;
    SizedIsLocal(input, other);
    ContentIsSized(input, SizedOf(input).value.rest);
  }

  /** What a field's slot becomes depends on the content of its part alone. */
  lemma SlotIsLocal(f: Field, wire: nat, slot: seq<Value>, input: seq<byte>, other: seq<byte>)
    requires SlotOf(f, wire, slot, input).Some?
    ensures var r := SlotOf(f, wire, slot, input).value;
            && input == Front(input, r.rest) + r.rest
            && (if f.rule.Repeated? && f.ltype.Packable() && wire == 2 then IsSized(Front(input, r.rest))
                else IsValue(f.ltype, Front(input, r.rest)))
            && SlotOf(f, wire, slot, Front(input, r.rest) + other) == Some(Taken(r.value, other))
  {
    hide ValueOf, PackedSlotOf, IsSized, IsValue, Front;
    if f.rule.Repeated? && f.ltype.Packable() && wire == 2 {
      PackedSlotIsLocal(f.ltype, f.rule.arraySize, slot, input, other);
    } else if f.rule.Repeated? {
      ValueIsLocal(f.ltype, DefaultValue(f.ltype), true, input, other);
    } else {
      ValueIsLocal(f.ltype, if slot == [] then DefaultValue(f.ltype) else slot[0], false, input, other);
    }
  }

  lemma SkipIsLocal(wire: nat, input: seq<byte>, other: seq<byte>)
    requires SkipOf(wire, input).Some?
    ensures var rest := SkipOf(wire, input).value;
            && input == Front(input, rest) + rest && IsSkipped(wire, Front(input, rest))
            && SkipOf(wire, Front(input, rest) + other) == Some(other)
  {
    hide SizedOf, IsSized;
    if wire == 0 {
      CodeIsLocal(input, other);
      CodeIsLocal(input, []);
      assert input[..CodeLength(input)] + [] == input[..CodeLength(input)];
    } else if wire == 2 {
      SizedIsLocal(input, other);
      ContentIsSized(input, SizedOf(input).value.rest);
    } else {
      FixedIsLocal(input, if wire == 1 then 8 else 4, other);
    }
  }

  lemma UnknownIsLocal(fields: seq<Field>, tag: nat, wire: nat, input: seq<byte>, other: seq<byte>)
    requires UnknownOf(fields, tag, wire, input).Some?
    ensures var rest := UnknownOf(fields, tag, wire, input).value;
            && input == Front(input, rest) + rest
            && (if fields == [] && tag == 0 then IsCode(Front(input, rest)) else IsSkipped(wire, Front(input, rest)))
            && UnknownOf(fields, tag, wire, Front(input, rest) + other) == Some(other)
  {
    hide SkipOf, Varint32Of, IsSkipped;
    if fields == [] && tag == 0 {
      Varint32IsLocal(input, other);
    } else {
      SkipIsLocal(wire, input, other);
    }
  }

  lemma PartIsLocal(fields: seq<Field>, dest: Message, tag: nat, wire: nat, input: seq<byte>, other: seq<byte>)
    requires |dest| == |fields| && PartOf(fields, dest, tag, wire, input).Some?
    ensures var r := PartOf(fields, dest, tag, wire, input).value;
            && input == Front(input, r.rest) + r.rest && IsContent(fields, Part(tag, wire, Front(input, r.rest)))
            && PartOf(fields, dest, tag, wire, Front(input, r.rest) + other) == Some(Taken(r.value, other))
  {
    hide SlotOf, UnknownOf, IsSized, IsSkipped, IsValue, IsCode, Front, Stored, FieldAt;
    var i := FieldAt(fields, tag);
    if i < |fields| {
      SlotIsLocal(fields[i], wire, dest[i], input, other);
    } else {
      UnknownIsLocal(fields, tag, wire, input, other);
    }
  }

  // ---------- a message is its parts ----------

  /** What one part makes of the message, if it can be stored. */
  ghost function Apply(fields: seq<Field>, dest: Message, p: Part): (r: Option<Message>)
    requires |dest| == |fields|
    ensures r.Some? ==> |r.value| == |fields|
  {
    var r := PartOf(fields, dest, p.tag, p.wire, p.content);
    if r.Some? && r.value.rest == [] then Some(r.value.value) else None
  }

  ghost function ApplyAll(fields: seq<Field>, dest: Message, parts: seq<Part>): (r: Option<Message>)
    requires |dest| == |fields|
    ensures r.Some? ==> |r.value| == |fields|
    decreases parts
  {
    if parts == [] then Some(dest)
    else
      match Apply(fields, dest, parts[0])
      case None => None
      case Some(m) => ApplyAll(fields, m, parts[1..])
  }

  /** A message ends with the bytes, or with a zero in place of a key. */
  ghost predicate Ends(left: seq<byte>, rest: seq<byte>) {
    if left == [] then rest == [] else Varint32Of(left) == Some(Taken(0, rest))
  }

  ghost predicate Carries(parts: seq<Part>, tag: nat) {
    exists i :: 0 <= i < |parts| && parts[i].tag == tag
  }

  /** Each of the first 64 required fields came, before the parts or in one of them. */
  ghost predicate NothingMissing(fields: seq<Field>, seen: set<nat>, parts: seq<Part>) {
    forall k :: 0 <= k < |fields| && Checked(fields, k) ==> fields[k].tag in seen || Carries(parts, fields[k].tag)
  }

  /** The input is these parts and an end, and storing the parts one after the other makes `m`. */
  ghost predicate IsMessage(fields: seq<Field>, dest: Message, seen: set<nat>, input: seq<byte>, parts: seq<Part>, left: seq<byte>,
                            rest: seq<byte>, m: Message)
    requires |dest| == |fields|
  {
    && Many(PartReader(fields), input, parts, left) && Ends(left, rest)
    && ApplyAll(fields, dest, parts) == Some(m) && NothingMissing(fields, seen, parts)
  }

  lemma CarriesMore(p: Part, parts: seq<Part>, tag: nat)
    ensures Carries([p] + parts, tag) <==> tag == p.tag || Carries(parts, tag)
  {
    var all := [p] + parts;
    if tag == p.tag {
      assert all[0].tag == tag;
    }
    if Carries(parts, tag) {
      var i :| 0 <= i < |parts| && parts[i].tag == tag;
      assert all[i + 1].tag == tag;
    }
  }

  lemma MissingMore(fields: seq<Field>, seen: set<nat>, p: Part, parts: seq<Part>)
    ensures NothingMissing(fields, seen, [p] + parts) <==> NothingMissing(fields, seen + {p.tag}, parts)
  {
    hide Checked, Carries;
    forall tag
      ensures Carries([p] + parts, tag) <==> tag == p.tag || Carries(parts, tag)
    {
      CarriesMore(p, parts, tag);
    }
  }

  lemma NothingMissingIs(fields: seq<Field>, seen: set<nat>)
    ensures NothingMissing(fields, seen, []) <==> AllSeen(fields, seen)
  {
  }

  /** What the bytes mean comes of parts that they read as. */
  lemma {:induction false} MessageHasParts(fields: seq<Field>, dest: Message, seen: set<nat>, input: seq<byte>)
    returns (parts: seq<Part>, left: seq<byte>)
    requires |dest| == |fields| && FieldsOf(fields, dest, seen, input).Some?
    ensures var r := FieldsOf(fields, dest, seen, input).value;
            IsMessage(fields, dest, seen, input, parts, left, r.rest, r.value)
    decreases |input|
  {
    hide FieldsOf, PartOf, Varint32Of, NothingMissing, AllSeen, IsContent, Front;
    MeaningStep(fields, dest, seen, input);
    NothingMissingIs(fields, seen);
    if input == [] || Varint32Of(input).value.value == 0 {
      parts, left := [], input;
      NoneYet(PartReader(fields), input);
    } else {
      var key := Varint32Of(input).value;
      var part := PartOf(fields, dest, key.value / 8, key.value % 8, key.rest).value;
      PartIsLocal(fields, dest, key.value / 8, key.value % 8, key.rest, []);
      var p := Part(key.value / 8, key.value % 8, Front(key.rest, part.rest));
      assert p.content + [] == p.content;
      parts, left := MessageHasParts(fields, part.value, seen + {p.tag}, part.rest);
      PartFirst(fields, input, p, part.rest, parts, left);
      MissingMore(fields, seen, p, parts);
      assert ([p] + parts)[1..] == parts;
      parts := [p] + parts;
    }
  }

  lemma PartFirst(fields: seq<Field>, input: seq<byte>, p: Part, mid: seq<byte>, parts: seq<Part>, left: seq<byte>)
    requires ReadsPart(fields, input, p, mid) && Many(PartReader(fields), mid, parts, left)
    ensures Many(PartReader(fields), input, [p] + parts, left)
  {
    hide ReadsPart;
    var all := [p] + parts;
    assert all[1..] == parts;
    FirstReads(PartReader(fields), input, all, mid, left);
  }

  /** And parts that the bytes read as make what the bytes mean. */
  lemma {:induction false} PartsMakeMessage(fields: seq<Field>, dest: Message, seen: set<nat>, input: seq<byte>, parts: seq<Part>,
                                            left: seq<byte>, rest: seq<byte>, m: Message)
    requires |dest| == |fields| && IsMessage(fields, dest, seen, input, parts, left, rest, m)
    ensures FieldsOf(fields, dest, seen, input) == Some(Taken(m, rest))
    decreases parts
  {
    hide FieldsOf, PartOf, Varint32Of, NothingMissing, AllSeen, IsContent, Front;
    MeaningStep(fields, dest, seen, input);
    NothingMissingIs(fields, seen);
    if parts != [] {
      var p, more := parts[0], parts[1..];
      assert parts == [p] + more;
      var mid :| PartReader(fields)(input, p, mid) && Many(PartReader(fields), mid, more, left);
      var m' := Apply(fields, dest, p).value;
      PartIsLocal(fields, dest, p.tag, p.wire, p.content, mid);
      FrontIsAll(p.content);
      MissingMore(fields, seen, p, more);
      PartsMakeMessage(fields, m', seen + {p.tag}, mid, more, left, rest, m);
    }
  }

  lemma FrontIsAll(input: seq<byte>)
    ensures Front(input, []) == input
  {
  }

  /**
   * Bytes mean `m` exactly if they read as parts up to an end, storing the parts makes `m`, and every
   * one of the first 64 required fields is among the parts.
   */
  lemma MessageIsParts(fields: seq<Field>, dest: Message, input: seq<byte>, rest: seq<byte>, m: Message)
    requires |dest| == |fields|
    ensures FieldsOf(fields, dest, {}, input) == Some(Taken(m, rest)) <==>
            exists parts, left :: IsMessage(fields, dest, {}, input, parts, left, rest, m)
  {
    hide FieldsOf, IsMessage;
    if FieldsOf(fields, dest, {}, input) == Some(Taken(m, rest)) {
      var parts, left := MessageHasParts(fields, dest, {}, input);
    }
    forall parts, left | IsMessage(fields, dest, {}, input, parts, left, rest, m)
      ensures FieldsOf(fields, dest, {}, input) == Some(Taken(m, rest))
    {
      PartsMakeMessage(fields, dest, {}, input, parts, left, rest, m);
    }
  }

  /** As `MessageIsParts`, for a decoder that may fail. */
  ghost predicate MadeOfParts(fields: seq<Field>, dest: Message, input: seq<byte>, ok: bool, m: Message, rest: seq<byte>)
    requires |dest| == |fields|
  {
    if ok then exists parts, left :: IsMessage(fields, dest, {}, input, parts, left, rest, m)
    else forall parts, left, rest', m' :: !IsMessage(fields, dest, {}, input, parts, left, rest', m')
  }

  lemma DecodedIsMadeOfParts(fields: seq<Field>, dest: Message, input: seq<byte>, ok: bool, m: Message, rest: seq<byte>)
    requires |dest| == |fields|
    requires FieldsOf(fields, dest, {}, input) == if ok then Some(Taken(m, rest)) else None
    ensures MadeOfParts(fields, dest, input, ok, m, rest)
  {
    hide FieldsOf, IsMessage;
    if ok {
      MessageIsParts(fields, dest, input, rest, m);
    } else {
      forall parts, left, rest', m'
        ensures !IsMessage(fields, dest, {}, input, parts, left, rest', m')
      {
        MessageIsParts(fields, dest, input, rest', m');
      }
    }
  }

  // ---------- required fields ----------

  /** Nothing at all is a message exactly if no field is required. */
  lemma NothingIsMessage(fields: seq<Field>, dest: Message)
    requires |dest| == |fields|
    ensures FieldsOf(fields, dest, {}, []).Some? <==> forall k :: 0 <= k < |fields| ==> !fields[k].rule.Required?
  {
    if k :| 0 <= k < |fields| && fields[k].rule.Required? {
      FirstRequired(fields, k);
    }
  }

  lemma {:induction false} FirstRequired(fields: seq<Field>, k: nat)
    requires k < |fields| && fields[k].rule.Required?
    ensures exists j :: 0 <= j < |fields| && Checked(fields, j)
  {
    if RequiredBefore(fields, k) == 0 {
      assert Checked(fields, k);
    } else {
      var j := SomeRequired(fields, k);
      FirstRequired(fields, j);
    }
  }

  lemma {:induction false} SomeRequired(fields: seq<Field>, n: nat) returns (j: nat)
    requires n <= |fields| && 0 < RequiredBefore(fields, n)
    ensures j < n && fields[j].rule.Required?
  {
    if fields[n - 1].rule.Required? {
      j := n - 1;
    } else {
      j := SomeRequired(fields, n - 1);
    }
  }

  // ---------- concatenation ----------

  /** A part reads and applies the same with more bytes behind. */
  lemma PartWithMore(fields: seq<Field>, dest: Message, a: seq<byte>, p: Part, mid: seq<byte>, b: seq<byte>)
    requires |dest| == |fields| && ReadsPart(fields, a, p, mid) && Apply(fields, dest, p).Some?
    ensures a + b != [] && p.wire < 8 && 0 < p.tag * 8 + p.wire
    ensures Varint32Of(a + b) == Some(Taken(p.tag * 8 + p.wire, p.content + (mid + b)))
    ensures PartOf(fields, dest, p.tag, p.wire, p.content + (mid + b)) == Some(Taken(Apply(fields, dest, p).value, mid + b))
  {
    hide PartOf, Varint32Of, IsContent, Front;
    Varint32IsLocal(a, p.content + (mid + b));
    Regroup(Front(a, p.content + mid), p.content + mid, b);
    Regroup(p.content, mid, b);
    PartIsLocal(fields, dest, p.tag, p.wire, p.content, mid + b);
    FrontIsAll(p.content);
  }

  /** Bytes that read as parts to their end: what follows them goes on from the message they make. */
  lemma {:induction false} ConcatenationMerges(fields: seq<Field>, dest: Message, seen: set<nat>, a: seq<byte>, parts: seq<Part>,
                                               b: seq<byte>, m: Message, seen': set<nat>)
    requires |dest| == |fields| && Many(PartReader(fields), a, parts, []) && ApplyAll(fields, dest, parts) == Some(m)
    requires seen' == seen + set p | p in parts :: p.tag
    ensures FieldsOf(fields, dest, seen, a + b) == FieldsOf(fields, m, seen', b)
    decreases parts
  {
    hide FieldsOf, PartOf, Varint32Of, ReadsPart, Apply;
    if parts == [] {
      assert a + b == b && seen' == seen;
    } else {
      var p, more := parts[0], parts[1..];
      assert parts == [p] + more;
      var mid :| PartReader(fields)(a, p, mid) && Many(PartReader(fields), mid, more, []);
      var m' := Apply(fields, dest, p).value;
      PartWithMore(fields, dest, a, p, mid, b);
      MeaningStep(fields, dest, seen, a + b);
      ConcatenationMerges(fields, m', seen + {p.tag}, mid, more, b, m, seen');
    }
  }

  /** A number that no field has makes no difference to what is missing. */
  lemma {:induction false} UnknownIsNotSeen(fields: seq<Field>, dest: Message, seen: set<nat>, tag: nat, input: seq<byte>)
    requires |dest| == |fields| && FieldAt(fields, tag) == |fields|
    ensures FieldsOf(fields, dest, seen + {tag}, input) == FieldsOf(fields, dest, seen, input)
    decreases |input|
  {
    hide FieldsOf, PartOf, Varint32Of;
    MeaningStep(fields, dest, seen, input);
    MeaningStep(fields, dest, seen + {tag}, input);
    if input != [] && Varint32Of(input).Some? && Varint32Of(input).value.value != 0 {
      var key := Varint32Of(input).value;
      var part := PartOf(fields, dest, key.value / 8, key.value % 8, key.rest);
      if part.Some? {
        UnknownIsNotSeen(fields, part.value.value, seen + {key.value / 8}, tag, part.value.rest);
        assert seen + {tag} + {key.value / 8} == seen + {key.value / 8} + {tag};
      }
    }
  }

  /** A part whose number no field has is passed over, wherever it stands between two parts. */
  lemma UnknownIsIgnored(fields: seq<Field>, dest: Message, seen: set<nat>, input: seq<byte>, p: Part, rest: seq<byte>)
    requires |dest| == |fields| && ReadsPart(fields, input, p, rest) && FieldAt(fields, p.tag) == |fields|
    requires 0 < p.tag || fields != []
    ensures FieldsOf(fields, dest, seen, input) == FieldsOf(fields, dest, seen, rest)
  {
    hide FieldsOf, Varint32Of, SizedOf;
    MeaningStep(fields, dest, seen, input);
    SkippedIsPassed(fields, p, rest);
    UnknownIsNotSeen(fields, dest, seen, p.tag, rest);
  }

  lemma SkippedIsPassed(fields: seq<Field>, p: Part, rest: seq<byte>)
    requires IsContent(fields, p) && FieldAt(fields, p.tag) == |fields| && !(fields == [] && p.tag == 0)
    ensures UnknownOf(fields, p.tag, p.wire, p.content + rest) == Some(rest)
  {
    hide Varint32Of, SizedOf, FieldAt, CodeLength;
    assert (p.content + rest)[|p.content|..] == rest;
    if p.wire == 0 {
      CodeThenMore(p.content, rest);
    } else if p.wire == 2 {
      SizedIsLocal(p.content, rest);
      FrontIsAll(p.content);
    }
  }

  lemma CodeThenMore(code: seq<byte>, rest: seq<byte>)
    requires IsCode(code)
    ensures CodeLength(code + rest) == |code|
  {
    CodeEndsAt(code + rest, |code|);
  }
}
