/** Defaults, the circular field iterator, and the schemas a generator emits (nanopb pb_common.c, pb_decode.c). */
module PbFields {
  import opened Coding
  import opened Varint
  import opened PbSchema

  // ---------- well-formed schemas ----------

  ghost predicate SchemaOk(fields: seq<Field>)
    decreases fields
  {
    && (forall i :: 0 <= i < |fields| ==> FieldOk(fields[i]))
    && forall i, j :: 0 <= i < j < |fields| ==> fields[i].tag != fields[j].tag
  }

  ghost predicate FieldOk(f: Field)
    decreases f
  {
    0 < f.tag < 0x2000_0000 && TypeOk(f.ltype)
  }

  ghost predicate TypeOk(t: LType)
    decreases t
  {
    t.Submessage? ==> SchemaOk(t.fields)
  }

  // ---------- defaults ----------

  function Zeros(n: nat): (r: seq<byte>)
    ensures |r| == n && forall i :: 0 <= i < n ==> r[i] == 0
  {
    seq(n, _ => 0)
  }

  function DefaultValue(t: LType): Value
    decreases t
  {
    match t
    case Bool => BoolV(false)
    case Varint(_) => IntV(0)
    case UVarint(_) => IntV(0)
    case SVarint(_) => IntV(0)
    case Fixed32 => IntV(0)
    case Fixed64 => IntV(0)
    case Bytes(_) => BytesV([])
    case String(_) => BytesV([])
    case FixedBytes(size) => BytesV(Zeros(size))
    case Submessage(fields) => MessageV(Defaults(fields))
  }

  function DefaultSlot(f: Field): seq<Value>
    decreases f
  {
    if f.rule.Required? || f.rule.Singular? then [DefaultValue(f.ltype)] else []
  }

  /** pb_message_set_to_defaults. */
  function Defaults(fields: seq<Field>): (r: Message)
    ensures |r| == |fields| && forall i :: 0 <= i < |fields| ==> r[i] == DefaultSlot(fields[i])
    decreases fields
  {
    seq(|fields|, i requires 0 <= i < |fields| => DefaultSlot(fields[i]))
  }

  lemma {:induction false} DefaultIsTyped(t: LType)
    ensures TypedValue(t, DefaultValue(t))
    decreases t
  {
    if t.Submessage? {
      DefaultsAreTyped(t.fields);
    }
  }

  lemma {:induction false} DefaultSlotIsTyped(f: Field)
    ensures TypedSlot(f, DefaultSlot(f))
    decreases f
  {
    DefaultIsTyped(f.ltype);
  }

  lemma {:induction false} DefaultsAreTyped(fields: seq<Field>)
    ensures TypedMessage(fields, Defaults(fields))
    decreases fields
  {
    forall i | 0 <= i < |fields|
      ensures TypedSlot(fields[i], Defaults(fields)[i])
    {
      DefaultSlotIsTyped(fields[i]);
    }
  }

  /** A value a proto3 field leaves off the wire is the value its struct starts with. */
  lemma {:induction false} ZeroIsDefault(t: LType, v: Value)
    requires TypedValue(t, v) && IsZero(t, v)
    ensures v == DefaultValue(t)
    decreases t
  {
    if t.Submessage? {
      assert TypedMessage(t.fields, v.slots);
      forall i | 0 <= i < |t.fields|
        ensures v.slots[i] == DefaultSlot(t.fields[i])
      {
        assert TypedSlot(t.fields[i], v.slots[i]) && SlotIsZero(t.fields[i], v.slots[i]);
        if t.fields[i].rule.Singular? {
          ZeroIsDefault(t.fields[i].ltype, v.slots[i][0]);
        }
      }
      assert v.slots == Defaults(t.fields);
    }
  }

  /** A slot that leaves nothing on the wire holds what the struct starts with, and conversely. */
  lemma EmptySlotIsDefault(f: Field, slot: seq<Value>)
    requires TypedSlot(f, slot) && SlotBytes(f, slot) == []
    ensures slot == DefaultSlot(f)
  {
    hide VarintBytes, ValueBytes, PackedBytes;
    if f.rule.Singular? && IsZero(f.ltype, slot[0]) {
      ZeroIsDefault(f.ltype, slot[0]);
    }
  }

  // ---------- the field iterator ----------

  function RequiredBefore(fields: seq<Field>, n: nat): nat
    requires n <= |fields|
  {
    if n == 0 then 0 else RequiredBefore(fields, n - 1) + if fields[n - 1].rule.Required? then 1 else 0
  }

  class FieldIter {
    const fields: seq<Field>
    var pos: nat
    var requiredFieldIndex: nat

    constructor (fields: seq<Field>)
      ensures Valid() && this.fields == fields && pos == 0
    {
      this.fields := fields;
      pos, requiredFieldIndex := 0, 0;
    }

    ghost predicate Valid()
      reads this
    {
      && (fields == [] ==> pos == 0) && (fields != [] ==> pos < |fields|)
      && requiredFieldIndex == RequiredBefore(fields, pos)
    }

    /** pb_field_iter_next: false when it wraps around to the first field. */
    method Next() returns (more: bool)
      requires Valid()
      modifies this
      ensures Valid() && more == (old(pos) + 1 < |fields|)
      ensures pos == if more then old(pos) + 1 else 0
    {
      if fields == [] {
        return false;
      }
      if pos + 1 == |fields| {
        pos, requiredFieldIndex := 0, 0;
        return false;
      }
      if fields[pos].rule.Required? {
        requiredFieldIndex := requiredFieldIndex + 1;
      }
      pos := pos + 1;
      return true;
    }

    /** pb_field_iter_find: once around from the current field. */
    method Find(tag: nat) returns (found: bool)
      requires Valid()
      modifies this
      ensures Valid()
      ensures found ==> pos < |fields| && fields[pos].tag == tag
      ensures !found ==> pos == old(pos) && forall i :: 0 <= i < |fields| ==> fields[i].tag != tag
    {
      if fields == [] {
        return false;
      }
      var start := pos;
      var around := false;
      while !around || pos != start
        invariant Valid()
        invariant !around ==> pos == start
        invariant around && start < pos ==> forall i :: start <= i < pos ==> fields[i].tag != tag
        invariant around && pos <= start ==> forall i :: 0 <= i < |fields| && (i < pos || start <= i) ==> fields[i].tag != tag
        decreases if !around then |fields| + 1 else if start < pos then |fields| - pos + start else start - pos
      {
        if fields[pos].tag == tag {
          return true;
        }
        var more := Next();
        around := true;
      }
      return false;
    }
  }
}
