/** Which messages survive a round trip, and how far a decoder has come in one (nanopb pb_decode.c). */
module PbProgress {
  import opened Common
  import opened Coding
  import opened Varint
  import opened PbSchema
  import opened PbEncode
  import opened PbFields
  import opened PbMeaning

  // ---------- what survives ----------

  /**
   * What the decoder takes back: every length on the wire fits 32 bits, and every string leaves room
   * for its terminator. The encoder also takes a string that fills its buffer, and longer contents.
   */
  ghost predicate Readable(t: LType, v: Value)
    requires TypedValue(t, v)
    decreases t
  {
    match t
    case Bytes(_) => |v.bytes| < TWO_32
    case String(dataSize) => |v.bytes| < TWO_32 && |v.bytes| < dataSize
    case FixedBytes(_) => |v.bytes| < TWO_32
    case Submessage(fields) =>
      assert TypedMessage(fields, v.slots);
      |FieldsBytes(fields, v.slots)| < TWO_32 && ReadableFields(fields, v.slots)
    case _ => true
  }

  ghost predicate ReadableSlot(f: Field, slot: seq<Value>)
    requires TypedSlot(f, slot)
    decreases f
  {
    || (f.rule.Singular? && IsZero(f.ltype, slot[0]))
    || ((f.rule.Repeated? && f.ltype.Packable() ==> |PackedBytes(f.ltype, slot)| < TWO_32) && forall v :: v in slot ==> Readable(f.ltype, v))
  }

  ghost predicate ReadableFields(fields: seq<Field>, msg: Message)
    requires |msg| == |fields| && forall i :: 0 <= i < |fields| ==> TypedSlot(fields[i], msg[i])
    decreases fields
  {
    forall i :: 0 <= i < |fields| ==> ReadableSlot(fields[i], msg[i])
  }

  /** A value the encoder takes. */
  ghost predicate Sendable(t: LType, v: Value) {
    TypedValue(t, v) && ValueInBounds(t, v)
  }

  ghost predicate SendableMessage(fields: seq<Field>, msg: Message) {
    TypedMessage(fields, msg) && FieldsInBounds(fields, msg)
  }

  // ---------- progress through a message ----------

  predicate IsPacked(f: Field) {
    f.rule.Repeated? && f.ltype.Packable()
  }

  /** What is still to come of one slot after `j` of its values. */
  ghost function RestOf(f: Field, slot: seq<Value>, j: nat): seq<byte>
    requires TypedSlot(f, slot) && j <= |slot|
  {
    if j == 0 then SlotBytes(f, slot) else KeyedBytes(f, slot[j..])
  }

  /** The decoder is at value `j` of field `i`; a packed array is taken whole. */
  ghost predicate Place(fields: seq<Field>, msg: Message, i: nat, j: nat)
    requires TypedMessage(fields, msg)
  {
    && i <= |fields| && (i == |fields| ==> j == 0)
    && (i < |fields| ==> j <= |msg[i]| && (IsPacked(fields[i]) ==> j == 0))
  }

  ghost function Remaining(fields: seq<Field>, msg: Message, i: nat, j: nat): seq<byte>
    requires TypedMessage(fields, msg) && Place(fields, msg, i, j)
  {
    if i == |fields| then [] else RestOf(fields[i], msg[i], j) + FieldsBytes(fields[i + 1..], msg[i + 1..])
  }

  ghost function PartialSlot(fields: seq<Field>, msg: Message, i: nat, j: nat, k: nat): seq<Value>
    requires TypedMessage(fields, msg) && Place(fields, msg, i, j) && k < |fields|
  {
    if k < i then msg[k] else if k == i && 0 < j then msg[i][..j] else DefaultSlot(fields[k])
  }

  /** The struct so far: decoded slots, part of one, and defaults. */
  ghost predicate Holds(fields: seq<Field>, msg: Message, i: nat, j: nat, dest: Message)
    requires TypedMessage(fields, msg) && Place(fields, msg, i, j)
  {
    |dest| == |fields| && forall k :: 0 <= k < |fields| ==> dest[k] == PartialSlot(fields, msg, i, j, k)
  }

  ghost predicate AllReadable(f: Field, slot: seq<Value>, j: nat)
    requires TypedSlot(f, slot) && j <= |slot|
  {
    forall l :: 0 <= l < j ==> assert slot[l] in slot; Readable(f.ltype, slot[l])
  }

  ghost predicate ReadableSoFar(fields: seq<Field>, msg: Message, i: nat, j: nat)
    requires TypedMessage(fields, msg) && Place(fields, msg, i, j)
  {
    && (forall k :: 0 <= k < i ==> ReadableSlot(fields[k], msg[k]))
    && (i < |fields| ==> AllReadable(fields[i], msg[i], j))
  }

  /** If the field is checked, its number came. */
  ghost predicate SeenAt(fields: seq<Field>, seen: set<nat>, k: nat)
    requires k < |fields|
  {
    Checked(fields, k) ==> fields[k].tag in seen
  }

  ghost predicate SeenSoFar(fields: seq<Field>, seen: set<nat>, i: nat, j: nat)
    requires i <= |fields|
  {
    forall k :: 0 <= k < |fields| && (k < i || (k == i && 0 < j)) ==> SeenAt(fields, seen, k)
  }

  ghost predicate OnTrack(fields: seq<Field>, msg: Message, i: nat, j: nat, dest: Message, seen: set<nat>, unread: seq<byte>) {
    && TypedMessage(fields, msg) && Place(fields, msg, i, j)
    && unread == Remaining(fields, msg, i, j) && Holds(fields, msg, i, j, dest)
    && ReadableSoFar(fields, msg, i, j) && SeenSoFar(fields, seen, i, j)
  }

  lemma StartsOnTrack(fields: seq<Field>, msg: Message, seen: set<nat>)
    requires TypedMessage(fields, msg)
    ensures OnTrack(fields, msg, 0, 0, Defaults(fields), seen, FieldsBytes(fields, msg))
  {
    hide TypedSlot;
  }

  lemma NothingPacked(t: LType)
    ensures PackedBytes(t, []) == []
  {
  }

  /** A slot with nothing left to come is complete. */
  lemma SlotIsDone(f: Field, slot: seq<Value>, j: nat)
    requires TypedSlot(f, slot) && j <= |slot| && RestOf(f, slot, j) == [] && (IsPacked(f) ==> j == 0)
    requires AllReadable(f, slot, j)
    ensures slot == if j == 0 then DefaultSlot(f) else slot[..j]
    ensures ReadableSlot(f, slot)
    ensures f.rule.Required? ==> 0 < j
  {
    hide ValueBytes, PackedBytes, VarintBytes;
    if j == 0 {
      EmptySlotIsDefault(f, slot);
      NothingPacked(f.ltype);
    } else {
      assert |slot| == j;
    }
  }

  /** Slots with nothing on the wire are passed over without reading. */
  lemma {:induction false} Settle(fields: seq<Field>, msg: Message, i: nat, j: nat, dest: Message, seen: set<nat>, unread: seq<byte>)
    returns (i': nat, j': nat)
    requires OnTrack(fields, msg, i, j, dest, seen, unread)
    ensures OnTrack(fields, msg, i', j', dest, seen, unread)
    ensures i' < |fields| ==> RestOf(fields[i'], msg[i'], j') != []
    decreases |fields| - i
  {
    if i == |fields| || RestOf(fields[i], msg[i], j) != [] {
      i', j' := i, j;
    } else {
      PassSlot(fields, msg, i, j, dest, seen, unread);
      i', j' := Settle(fields, msg, i + 1, 0, dest, seen, unread);
    }
  }

  lemma SeenSoFarDone(fields: seq<Field>, seen: set<nat>, i: nat, j: nat)
    requires i < |fields| && SeenSoFar(fields, seen, i, j)
    requires fields[i].rule.Required? ==> 0 < j
    ensures SeenSoFar(fields, seen, i + 1, 0)
  {
    forall k | 0 <= k < i + 1
      ensures SeenAt(fields, seen, k)
    {
    }
  }

  lemma PassHolds(fields: seq<Field>, msg: Message, i: nat, j: nat, dest: Message)
    requires TypedMessage(fields, msg) && Place(fields, msg, i, j) && Holds(fields, msg, i, j, dest) && i < |fields|
    requires msg[i] == if j == 0 then DefaultSlot(fields[i]) else msg[i][..j]
    ensures Place(fields, msg, i + 1, 0) && Holds(fields, msg, i + 1, 0, dest)
  {
    hide TypedSlot, DefaultSlot;
    forall k | 0 <= k < |fields|
      ensures dest[k] == if k < i + 1 then msg[k] else DefaultSlot(fields[k])
    {
      assert dest[k] == PartialSlot(fields, msg, i, j, k);
    }
  }

  lemma PassRemaining(fields: seq<Field>, msg: Message, i: nat, j: nat)
    requires TypedMessage(fields, msg) && Place(fields, msg, i, j) && i < |fields| && Place(fields, msg, i + 1, 0)
    requires RestOf(fields[i], msg[i], j) == []
    ensures Remaining(fields, msg, i, j) == Remaining(fields, msg, i + 1, 0)
  {
    hide TypedSlot, SlotBytes, KeyedBytes;
    FieldsStep(fields, msg, i + 1);
    hide FieldsBytes;
  }

  lemma PassSlot(fields: seq<Field>, msg: Message, i: nat, j: nat, dest: Message, seen: set<nat>, unread: seq<byte>)
    requires OnTrack(fields, msg, i, j, dest, seen, unread) && i < |fields| && RestOf(fields[i], msg[i], j) == []
    ensures OnTrack(fields, msg, i + 1, 0, dest, seen, unread)
  {
    hide TypedSlot, ReadableSlot, Readable, DefaultSlot, RestOf, Remaining, SeenSoFar, Holds;
    assert TypedSlot(fields[i], msg[i]);
    SlotIsDone(fields[i], msg[i], j);
    PassHolds(fields, msg, i, j, dest);
    PassRemaining(fields, msg, i, j);
    SeenSoFarDone(fields, seen, i, j);
  }

  lemma FieldsStep(fields: seq<Field>, msg: Message, i: nat)
    requires TypedMessage(fields, msg) && i <= |fields|
    ensures FieldsBytes(fields[i..], msg[i..]) ==
            if i == |fields| then [] else SlotBytes(fields[i], msg[i]) + FieldsBytes(fields[i + 1..], msg[i + 1..])
  {
    hide TypedSlot, SlotBytes;
    if i < |fields| {
      assert fields[i..][1..] == fields[i + 1..] && msg[i..][1..] == msg[i + 1..];
    }
  }

  /** At the end of the bytes the struct is the message. */
  lemma EndsWithMessage(fields: seq<Field>, msg: Message, i: nat, j: nat, dest: Message, seen: set<nat>)
    requires OnTrack(fields, msg, i, j, dest, seen, [])
    ensures dest == msg && ReadableFields(fields, msg) && forall k :: 0 <= k < |fields| ==> SeenAt(fields, seen, k)
  {
    hide TypedSlot, RestOf, ReadableSlot, Readable, DefaultSlot;
    var i', j' := Settle(fields, msg, i, j, dest, seen, []);
  }

  // ---------- one step ----------

  /** In a message that uses the member, the union had no other. */
  lemma StoredInPlace(fields: seq<Field>, msg: Message, i: nat, j: nat, dest: Message, slot: seq<Value>)
    requires TypedMessage(fields, msg) && Place(fields, msg, i, j) && Holds(fields, msg, i, j, dest)
    requires i < |fields| && msg[i] != []
    ensures Stored(fields, dest, i, slot) == dest[i := slot]
  {
    hide TypedSlot;
    var r := Stored(fields, dest, i, slot);
    forall k | 0 <= k < |fields| && k != i && SameUnion(fields[i], fields[k])
      ensures dest[k] == []
    {
      assert k < i ==> msg[k] == [];
    }
    assert r == dest[i := slot];
  }

  /** The next key and value of a field that is not packed. */
  lemma KeyedComes(fields: seq<Field>, msg: Message, i: nat, j: nat, dest: Message, seen: set<nat>, unread: seq<byte>)
    requires OnTrack(fields, msg, i, j, dest, seen, unread) && i < |fields|
    requires RestOf(fields[i], msg[i], j) != [] && !IsPacked(fields[i])
    ensures j < |msg[i]| && Place(fields, msg, i, j + 1) && TypedValue(fields[i].ltype, msg[i][j])
    ensures unread == Key(fields[i].tag, WireTypeOf(fields[i].ltype)) +
                      (ValueBytes(fields[i].ltype, msg[i][j]) + Remaining(fields, msg, i, j + 1))
    ensures fields[i].rule.Singular? ==> !IsZero(fields[i].ltype, msg[i][0])
    ensures !fields[i].rule.Repeated? ==> j == 0 && dest[i] == DefaultSlot(fields[i])
    ensures fields[i].rule.Repeated? ==> dest[i] == msg[i][..j]
  {
    hide ValueBytes, VarintBytes, Key, FieldsBytes, IsZero, Holds, KeyedBytes, SlotBytes, TypedValue, SeenSoFar, ReadableSoFar;
    var f, slot := fields[i], msg[i];
    assert TypedSlot(f, slot);
    KeyedRest(f, slot, j);
    assert dest[i] == PartialSlot(fields, msg, i, j, i) by { HoldsAt(fields, msg, i, j, dest); }
    RegroupFour(Key(f.tag, WireTypeOf(f.ltype)), ValueBytes(f.ltype, slot[j]), KeyedBytes(f, slot[j + 1..]),
                FieldsBytes(fields[i + 1..], msg[i + 1..]));
  }

  lemma HoldsAt(fields: seq<Field>, msg: Message, i: nat, j: nat, dest: Message)
    requires TypedMessage(fields, msg) && Place(fields, msg, i, j) && Holds(fields, msg, i, j, dest)
    ensures |dest| == |fields|
    ensures i < |fields| ==> dest[i] == PartialSlot(fields, msg, i, j, i)
  {
  }

  lemma KeyedRest(f: Field, slot: seq<Value>, j: nat)
    requires TypedSlot(f, slot) && j <= |slot| && RestOf(f, slot, j) != [] && !IsPacked(f)
    ensures j < |slot| && forall v :: v in slot[j + 1..] ==> TypedValue(f.ltype, v)
    ensures TypedValue(f.ltype, slot[j]) && (f.rule.Singular? ==> !IsZero(f.ltype, slot[0]) || 0 < j)
    ensures RestOf(f, slot, j) == Key(f.tag, WireTypeOf(f.ltype)) + ValueBytes(f.ltype, slot[j]) + KeyedBytes(f, slot[j + 1..])
  {
    hide ValueBytes, Key, TypedValue, IsZero, KeyedBytes;
    assert slot[0..] == slot;
    NothingKeyed(f);
    assert slot[|slot|..] == [];
    if j < |slot| {
      assert slot[j] in slot;
      KeyedUnfolds(f, slot, j);
    }
  }

  lemma NothingKeyed(f: Field)
    ensures KeyedBytes(f, []) == []
  {
  }

  lemma KeyedUnfolds(f: Field, slot: seq<Value>, j: nat)
    requires j < |slot| && forall v :: v in slot ==> TypedValue(f.ltype, v)
    ensures slot[j] in slot
    ensures KeyedBytes(f, slot[j..]) == Key(f.tag, WireTypeOf(f.ltype)) + ValueBytes(f.ltype, slot[j]) + KeyedBytes(f, slot[j + 1..])
  {
    hide ValueBytes, Key, TypedValue;
    assert slot[j..][1..] == slot[j + 1..] && slot[j..][0] == slot[j];
  }

  lemma StepKeyed(fields: seq<Field>, msg: Message, i: nat, j: nat, dest: Message, seen: set<nat>, unread: seq<byte>, slot: seq<Value>)
    requires OnTrack(fields, msg, i, j, dest, seen, unread) && i < |fields| && j < |msg[i]| && Place(fields, msg, i, j + 1)
    requires TypedValue(fields[i].ltype, msg[i][j]) && Readable(fields[i].ltype, msg[i][j])
    requires slot == msg[i][..j] + [msg[i][j]]
    ensures OnTrack(fields, msg, i, j + 1, Stored(fields, dest, i, slot), seen + {fields[i].tag}, Remaining(fields, msg, i, j + 1))
  {
    hide TypedSlot, Readable, ReadableSlot, Remaining, DefaultSlot, Stored;
    StoredInPlace(fields, msg, i, j, dest, slot);
    assert msg[i][..j + 1] == slot;
    SeenMore(fields, seen, i, j, i, j + 1);
  }

  lemma SeenMore(fields: seq<Field>, seen: set<nat>, i: nat, j: nat, i': nat, j': nat)
    requires i < |fields| && i' <= |fields| && SeenSoFar(fields, seen, i, j)
    requires (i' == i && j' == j + 1) || (i' == i + 1 && j' == 0)
    ensures SeenSoFar(fields, seen + {fields[i].tag}, i', j')
  {
    forall k | 0 <= k < |fields| && (k < i' || (k == i' && 0 < j'))
      ensures SeenAt(fields, seen + {fields[i].tag}, k)
    {
      assert k != i ==> SeenAt(fields, seen, k);
    }
  }

  /** A packed array comes whole. */
  lemma PackedComes(fields: seq<Field>, msg: Message, i: nat, j: nat, dest: Message, seen: set<nat>, unread: seq<byte>)
    requires OnTrack(fields, msg, i, j, dest, seen, unread) && i < |fields|
    requires RestOf(fields[i], msg[i], j) != [] && IsPacked(fields[i])
    ensures TypedSlot(fields[i], msg[i]) && dest[i] == [] && msg[i] != []
    ensures unread == Key(fields[i].tag, STRING) +
                      (Delimited(PackedBytes(fields[i].ltype, msg[i])) + FieldsBytes(fields[i + 1..], msg[i + 1..]))
  {
    hide PackedBytes, VarintBytes, Key, FieldsBytes, Delimited;
    assert TypedSlot(fields[i], msg[i]);
    assert dest[i] == PartialSlot(fields, msg, i, j, i);
    assert Key(fields[i].tag, STRING) + Delimited(PackedBytes(fields[i].ltype, msg[i])) + FieldsBytes(fields[i + 1..], msg[i + 1..]) ==
           Key(fields[i].tag, STRING) + (Delimited(PackedBytes(fields[i].ltype, msg[i])) + FieldsBytes(fields[i + 1..], msg[i + 1..]));
  }

  lemma StepPacked(fields: seq<Field>, msg: Message, i: nat, j: nat, dest: Message, seen: set<nat>, unread: seq<byte>)
    requires OnTrack(fields, msg, i, j, dest, seen, unread) && i < |fields| && IsPacked(fields[i]) && msg[i] != []
    requires TypedSlot(fields[i], msg[i]) && |PackedBytes(fields[i].ltype, msg[i])| < TWO_32
    ensures OnTrack(fields, msg, i + 1, 0, Stored(fields, dest, i, msg[i]), seen + {fields[i].tag},
                    FieldsBytes(fields[i + 1..], msg[i + 1..]))
  {
    hide TypedSlot, Readable, DefaultSlot, Stored, SlotBytes;
    StoredInPlace(fields, msg, i, j, dest, msg[i]);
    SeenMore(fields, seen, i, j, i + 1, 0);
    FieldsStep(fields, msg, i + 1);
    assert ReadableSlot(fields[i], msg[i]) by { PackedIsReadable(fields[i], msg[i]) by { assert TypedSlot(fields[i], msg[i]); } }
    assert Place(fields, msg, i + 1, 0);
    assert Remaining(fields, msg, i + 1, 0) == FieldsBytes(fields[i + 1..], msg[i + 1..]);
  }

  lemma PackedIsReadable(f: Field, slot: seq<Value>)
    requires TypedSlot(f, slot) && IsPacked(f) && |PackedBytes(f.ltype, slot)| < TWO_32
    ensures ReadableSlot(f, slot)
  {
  }

  lemma ValueIsSendable(fields: seq<Field>, msg: Message, i: nat, j: nat)
    requires SendableMessage(fields, msg) && i < |fields| && j < |msg[i]|
    requires TypedSlot(fields[i], msg[i])
    requires fields[i].rule.Singular? ==> !IsZero(fields[i].ltype, msg[i][0])
    ensures Sendable(fields[i].ltype, msg[i][j])
    ensures fields[i].rule.Repeated? ==> |msg[i]| <= fields[i].rule.arraySize
    ensures ReadableFields(fields, msg) ==> Readable(fields[i].ltype, msg[i][j])
  {
    assert msg[i][j] in msg[i];
    assert SlotInBounds(fields[i], msg[i]);
    assert ReadableFields(fields, msg) ==> ReadableSlot(fields[i], msg[i]);
    hide IsZero, TypedValue, ValueInBounds, PackedBytes;
  }

  lemma PackedIsSendable(fields: seq<Field>, msg: Message, i: nat)
    requires SendableMessage(fields, msg) && i < |fields| && IsPacked(fields[i]) && TypedSlot(fields[i], msg[i])
    ensures |msg[i]| <= fields[i].rule.arraySize
    ensures ReadableFields(fields, msg) ==> |PackedBytes(fields[i].ltype, msg[i])| < TWO_32
  {
    hide PackedBytes;
    assert SlotInBounds(fields[i], msg[i]);
    assert ReadableFields(fields, msg) ==> ReadableSlot(fields[i], msg[i]);
  }

  /** What the unread bytes of a message must begin with: a key, then a value or a packed array, then `rest`. */
  datatype Expected = Expected(i: nat, j: nat, v: Value, vs: seq<Value>, w: WireType, rest: seq<byte>)

  ghost function Content(fields: seq<Field>, x: Expected): seq<byte>
    requires x.i < |fields|
    requires if IsPacked(fields[x.i]) then TypedSlot(fields[x.i], x.vs) else TypedValue(fields[x.i].ltype, x.v)
  {
    if IsPacked(fields[x.i]) then Delimited(PackedBytes(fields[x.i].ltype, x.vs)) else ValueBytes(fields[x.i].ltype, x.v)
  }

  /** The expectation `x` fits what comes, and storing it keeps the decoder on track. */
  ghost predicate Comes(fields: seq<Field>, msg: Message, dest: Message, seen: set<nat>, unread: seq<byte>, x: Expected) {
    && TypedMessage(fields, msg) && x.i < |fields| == |dest|
    && (if IsPacked(fields[x.i]) then
          && TypedSlot(fields[x.i], x.vs) && x.w == STRING && dest[x.i] == []
          && |x.vs| <= fields[x.i].rule.arraySize
          && (ReadableFields(fields, msg) ==> |PackedBytes(fields[x.i].ltype, x.vs)| < TWO_32)
          && (|PackedBytes(fields[x.i].ltype, x.vs)| < TWO_32 ==>
              OnTrack(fields, msg, x.i + 1, 0, Stored(fields, dest, x.i, x.vs), seen + {fields[x.i].tag}, x.rest))
        else
          var f := fields[x.i];
          && Sendable(f.ltype, x.v) && x.w == WireTypeOf(f.ltype)
          && (if f.rule.Repeated? then |dest[x.i]| < f.rule.arraySize else dest[x.i] == DefaultSlot(f))
          && (ReadableFields(fields, msg) ==> Readable(f.ltype, x.v))
          && (Readable(f.ltype, x.v) ==>
              OnTrack(fields, msg, x.i, x.j + 1, Stored(fields, dest, x.i, (if f.rule.Repeated? then dest[x.i] else []) + [x.v]),
                      seen + {fields[x.i].tag}, x.rest)))
    && unread == Key(fields[x.i].tag, x.w) + (Content(fields, x) + x.rest)
  }

  lemma SomethingComes(fields: seq<Field>, msg: Message, i: nat, j: nat, dest: Message, seen: set<nat>, unread: seq<byte>)
    returns (x: Expected)
    requires SendableMessage(fields, msg) && OnTrack(fields, msg, i, j, dest, seen, unread) && unread != []
    ensures Comes(fields, msg, dest, seen, unread, x)
  {
    var i', j' := Settle(fields, msg, i, j, dest, seen, unread);
    assert i' < |fields|;
    if IsPacked(fields[i']) {
      x := PackedIsNext(fields, msg, i', j', dest, seen, unread);
    } else {
      x := KeyedIsNext(fields, msg, i', j', dest, seen, unread);
    }
  }

  lemma PackedIsNext(fields: seq<Field>, msg: Message, i: nat, j: nat, dest: Message, seen: set<nat>, unread: seq<byte>)
    returns (x: Expected)
    requires SendableMessage(fields, msg) && OnTrack(fields, msg, i, j, dest, seen, unread) && i < |fields|
    requires RestOf(fields[i], msg[i], j) != [] && IsPacked(fields[i])
    ensures Comes(fields, msg, dest, seen, unread, x)
  {
    PackedComes(fields, msg, i, j, dest, seen, unread);
    PackedIsSendable(fields, msg, i);
    if |PackedBytes(fields[i].ltype, msg[i])| < TWO_32 {
      StepPacked(fields, msg, i, j, dest, seen, unread);
    }
    hide OnTrack, FieldsBytes, PackedBytes, Stored, Key, Delimited, SendableMessage, TypedValue;
    x := Expected(i, j, BoolV(true), msg[i], STRING, FieldsBytes(fields[i + 1..], msg[i + 1..]));
  }

  lemma KeyedIsNext(fields: seq<Field>, msg: Message, i: nat, j: nat, dest: Message, seen: set<nat>, unread: seq<byte>)
    returns (x: Expected)
    requires SendableMessage(fields, msg) && OnTrack(fields, msg, i, j, dest, seen, unread) && i < |fields|
    requires RestOf(fields[i], msg[i], j) != [] && !IsPacked(fields[i])
    ensures Comes(fields, msg, dest, seen, unread, x)
  {
    hide FieldsBytes, ValueBytes, VarintBytes, Stored, Key, SendableMessage, IsZero, SeenSoFar, ReadableSoFar, Holds, DefaultSlot;
    hide KeyedBytes, SlotBytes, ReadableFields, Readable, Sendable;
    KeyedComes(fields, msg, i, j, dest, seen, unread);
    HoldsAt(fields, msg, i, j, dest);
    var f, v := fields[i], msg[i][j];
    assert TypedSlot(f, msg[i]);
    hide TypedMessage;
    ValueIsSendable(fields, msg, i, j);
    if Readable(f.ltype, v) {
      StepKeyed(fields, msg, i, j, dest, seen, unread, msg[i][..j] + [v]);
    }
    hide OnTrack, TypedValue, Remaining;
    x := Expected(i, j, v, [], WireTypeOf(f.ltype), Remaining(fields, msg, i, j + 1));
    assert msg[i][..0] == [];
  }
}
