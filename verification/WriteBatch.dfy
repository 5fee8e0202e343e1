/** Write batches as bytes (db/write_batch). */
module WriteBatch {
  import opened Common
  import opened Coding
  import opened Varint
  import opened Readers
  import opened Slices

  /** An 8-byte sequence number and a 4-byte count. */
  const HEADER: nat := 12

  datatype Op = Put(key: Bytes, value: Bytes) | Delete(key: Bytes)

  /** One call of the handler that fills the memtable: an operation under its sequence number. */
  datatype Insertion = Insertion(sequence: nat, op: Op)

  predicate OpFits(op: Op) {
    |op.key| < TWO_32 && (op.Put? ==> |op.value| < TWO_32)
  }

  predicate AllFit(ops: seq<Op>) {
    forall op :: op in ops ==> OpFits(op)
  }

  function OpBytes(op: Op): (r: Bytes)
    ensures 0 < |r|
  {
    match op
    case Put(key, value) => [1] + (Prefixed(key) + Prefixed(value))
    case Delete(key) => [0] + Prefixed(key)
  }

  function AllBytes(ops: seq<Op>): Bytes {
    if ops == [] then [] else OpBytes(ops[0]) + AllBytes(ops[1..])
  }

  lemma AllBytesUnfolds(ops: seq<Op>)
    ensures AllBytes([]) == []
    ensures ops != [] ==> AllBytes(ops) == OpBytes(ops[0]) + AllBytes(ops[1..])
  {
    hide OpBytes;
  }

  lemma {:induction false} AllBytesAppends(a: seq<Op>, b: seq<Op>)
    ensures AllBytes(a + b) == AllBytes(a) + AllBytes(b)
  {
    hide OpBytes, AllBytes;
    AllBytesUnfolds(a);
    if a == [] {
      assert a + b == b;
    } else {
      AllBytesUnfolds(a + b);
      AllBytesAppends(a[1..], b);
      assert (a + b)[1..] == a[1..] + b;
    }
  }

  lemma JustPut(before: Bytes, key: Bytes, value: Bytes)
    ensures before + [1] + Prefixed(key) + Prefixed(value) == before + AllBytes([Put(key, value)])
  {
    hide Prefixed, AllBytes;
    AllBytesUnfolds([Put(key, value)]);
    assert [Put(key, value)][1..] == [];
  }

  lemma JustDelete(before: Bytes, key: Bytes)
    ensures before + [0] + Prefixed(key) == before + AllBytes([Delete(key)])
  {
    hide Prefixed, AllBytes;
    AllBytesUnfolds([Delete(key)]);
    assert [Delete(key)][1..] == [];
  }

  function EncodeFixed64(v: nat): (r: Bytes)
    requires v < TWO_64
    ensures |r| == 8 && DecodeFixed64(r) == v
  {
    EncodeFixed32(v % TWO_32) + EncodeFixed32(v / TWO_32)
  }

  function DecodeFixed64(s: Bytes): nat
    requires |s| == 8
  {
    DecodeFixed32(s[..4]) + DecodeFixed32(s[4..]) * TWO_32
  }

  /** The operations numbered from the batch's sequence number on. */
  function Numbered(first: nat, ops: seq<Op>): (r: seq<Insertion>)
    ensures |r| == |ops| && forall i :: 0 <= i < |ops| ==> r[i] == Insertion(first + i, ops[i])
  {
    seq(|ops|, i requires 0 <= i < |ops| => Insertion(first + i, ops[i]))
  }

  class WriteBatch {
    var rep: Bytes
    /** The operations put in so far. */
    ghost var ops: seq<Op>

    constructor ()
      ensures Valid() && ops == [] && Sequence() == 0
    {
      rep := seq(HEADER, i => 0);
      ops := [];
    }

    ghost predicate Valid()
      reads this
    {
      && HEADER <= |rep| && rep[HEADER..] == AllBytes(ops)
      && Count() == Low32(|ops|)
    }

    function Count(): uint32
      requires HEADER <= |rep|
      reads this`rep
    {
      DecodeFixed32(rep[8..12])
    }

    function Sequence(): nat
      requires HEADER <= |rep|
      reads this`rep
    {
      DecodeFixed64(rep[..8])
    }

    method SetCount(n: uint32)
      requires HEADER <= |rep|
      modifies this`rep
      ensures |rep| == |old(rep)| && rep[..8] == old(rep)[..8] && rep[HEADER..] == old(rep)[HEADER..] && Count() == n
    {
      hide EncodeFixed32, DecodeFixed32;
      var code := EncodeFixed32(n);
      rep := rep[..8] + code + rep[HEADER..];
      assert rep[8..12] == code;
    }

    method SetSequence(s: nat)
      requires Valid() && s < TWO_64
      modifies this`rep
      ensures Valid() && Sequence() == s
    {
      hide EncodeFixed64, DecodeFixed64, DecodeFixed32, AllBytes;
      var code := EncodeFixed64(s);
      ghost var before := rep;
      rep := code + rep[8..];
      assert rep[..8] == code && rep[8..12] == before[8..12] && rep[HEADER..] == before[HEADER..];
    }

    method Put(key: Bytes, value: Bytes)
      requires Valid()
      modifies this
      ensures Valid() && ops == old(ops) + [Op.Put(key, value)] && Sequence() == old(Sequence())
    {
      hide AllBytes, OpBytes, DecodeFixed32, DecodeFixed64, Prefixed, Low32;
      OneMore(|ops|);
      SetCount(Low32(Count() + 1));
      ghost var before := rep;
      rep := rep + [1];
      rep := PutLengthPrefixedSlice(rep, key);
      rep := PutLengthPrefixedSlice(rep, value);
      JustPut(before, key, value);
      AddOps([Op.Put(key, value)], before);
    }

    method Delete(key: Bytes)
      requires Valid()
      modifies this
      ensures Valid() && ops == old(ops) + [Op.Delete(key)] && Sequence() == old(Sequence())
    {
      hide AllBytes, OpBytes, DecodeFixed32, DecodeFixed64, Prefixed, Low32;
      OneMore(|ops|);
      SetCount(Low32(Count() + 1));
      ghost var before := rep;
      rep := rep + [0];
      rep := PutLengthPrefixedSlice(rep, key);
      JustDelete(before, key);
      AddOps([Op.Delete(key)], before);
    }

    /** The bytes of operations have been added: they are the batch's. */
    ghost method AddOps(added: seq<Op>, before: Bytes)
      requires HEADER <= |before| && rep == before + AllBytes(added) && before[HEADER..] == AllBytes(ops)
      requires DecodeFixed32(before[8..12]) == Low32(|ops| + |added|)
      modifies this`ops
      ensures Valid() && ops == old(ops) + added && rep[..8] == before[..8]
    {
      hide AllBytes, DecodeFixed32, Low32;
      AllBytesAppends(ops, added);
      HeaderStays(before, AllBytes(added));
      ops := ops + added;
    }

    /** Append: the other batch's operations after this one's. */
    method Append(source: WriteBatch)
      requires Valid() && source.Valid()
      modifies this
      ensures Valid() && ops == old(ops) + old(source.ops) && Sequence() == old(Sequence())
    {
      hide AllBytes, DecodeFixed32, DecodeFixed64, Low32;
      var tail := source.rep[HEADER..];
      ghost var added := source.ops;
      CountsAdd(|ops|, |added|);
      SetCount(Low32(Count() + source.Count()));
      ghost var before := rep;
      rep := rep + tail;
      AddOps(added, before);
    }

    /**
     * Iterate, with the calls of the handler as a list. Of any bytes at all it hands on the operations
     * that read one after the other, and it succeeds if nothing is left and their number is the count.
     */
    method Iterate() returns (ok: bool, calls: seq<Op>)
      ensures |rep| < HEADER ==> !ok && calls == []
      ensures HEADER <= |rep| ==> exists rest :: Parses(ReadsOp, rep[HEADER..], calls, rest) && (ok <==> rest == [] && |calls| == Count())
      ensures Valid() && AllFit(ops) && |ops| < TWO_32 ==> ok && calls == ops
    {
      hide ReadsOp, Many, DecodeFixed32, AllFit, AllBytes;
      calls := [];
      if |rep| < HEADER {
        return false, [];
      }
      var input := rep[HEADER..];
      NoneYet(ReadsOp, input);
      NothingLeft();
      while input != []
        invariant Many(ReadsOp, rep[HEADER..], calls, input)
        decreases |input|
      {
        var read, call, rest := ReadOp(input);
        if !read {
          assert Parses(ReadsOp, rep[HEADER..], calls, input);
          if Valid() && AllFit(ops) {
            ParsesItself(calls, input);
          }
          return false, calls;
        }
        ManyMore(ReadsOp, rep[HEADER..], calls, input, call, rest);
        calls := calls + [call];
        input := rest;
      }
      assert Parses(ReadsOp, rep[HEADER..], calls, input);
      if Valid() && AllFit(ops) {
        ParsesItself(calls, input);
      }
      ok := |calls| == Count();
    }

    /** The batch's own operations are what Iterate finds. */
    lemma ParsesItself(calls: seq<Op>, rest: Bytes)
      requires Valid() && AllFit(ops) && Parses(ReadsOp, rep[HEADER..], calls, rest)
      ensures calls == ops && rest == []
    {
      hide AllBytes, ReadsOp, Many, AllFit, DecodeFixed32;
      WrittenOpsRead(ops);
      NothingLeft();
      OpsReadOnce();
      ParseIsUnique(ReadsOp, rep[HEADER..], calls, rest, ops, []);
    }

    /** InsertInto: consecutive sequence numbers from the batch's own on. */
    method InsertInto() returns (ok: bool, inserted: seq<Insertion>)
      requires HEADER <= |rep|
      ensures exists calls, rest :: Parses(ReadsOp, rep[HEADER..], calls, rest) && inserted == Numbered(Sequence(), calls)
                                    && (ok <==> rest == [] && |calls| == Count())
      ensures Valid() && AllFit(ops) && |ops| < TWO_32 ==> ok && inserted == Numbered(Sequence(), ops)
    {
      hide Parses, AllFit, AllBytes, DecodeFixed32, DecodeFixed64;
      var calls;
      ok, calls := Iterate();
      ghost var rest :| Parses(ReadsOp, rep[HEADER..], calls, rest) && (ok <==> rest == [] && |calls| == Count());
      if Valid() && AllFit(ops) {
        ParsesItself(calls, rest);
      }
      var sequence := Sequence();
      inserted := [];
      for i := 0 to |calls|
        invariant sequence == Sequence() + i && |inserted| == i
        invariant forall j :: 0 <= j < i ==> inserted[j] == Insertion(Sequence() + j, calls[j])
      {
        inserted := inserted + [Insertion(sequence, calls[i])];
        sequence := sequence + 1;
      }
      assert inserted == Numbered(Sequence(), calls);
    }
  }

  lemma HeaderStays(before: Bytes, added: Bytes)
    requires HEADER <= |before|
    ensures (before + added)[..8] == before[..8] && (before + added)[8..12] == before[8..12]
    ensures (before + added)[HEADER..] == before[HEADER..] + added
  {
  }

  lemma CountsAdd(a: nat, b: nat)
    ensures Low32(Low32(a) + Low32(b)) == Low32(a + b)
  {
  }

  lemma OneMore(a: nat)
    ensures Low32(Low32(a) + 1) == Low32(a + 1)
  {
    CountsAdd(a, 1);
  }

  // ---------- reading ----------

  /** The input starts with an operation's record, and `rest` follows it. */
  ghost predicate ReadsOp(input: Bytes, op: Op, rest: Bytes) {
    && input != []
    && match op
       case Put(key, value) => input[0] == 1 && Then(ReadsSlice, ReadsSlice, input[1..], key, value, rest)
       case Delete(key) => input[0] == 0 && ReadsSlice(input[1..], key, rest)
  }

  lemma OpsReadOnce()
    ensures Deterministic(ReadsOp)
  {
    hide ReadsSlice, Then;
    SlicesReadOnce();
    forall input, op, rest, op', rest' | ReadsOp(input, op, rest) && ReadsOp(input, op', rest')
      ensures op == op' && rest == rest'
    {
      if op.Put? {
        ThenOnce(ReadsSlice, ReadsSlice, input[1..], op.key, op.value, rest, op'.key, op'.value, rest');
      }
    }
  }

  lemma WrittenOpReads(op: Op, tail: Bytes)
    requires OpFits(op)
    ensures ReadsOp(OpBytes(op) + tail, op, tail)
  {
    hide Prefixed, ReadsSlice, Then;
    match op
    case Put(key, value) =>
      AfterTag(1, Prefixed(key) + Prefixed(value), tail);
      Regroup(Prefixed(key), Prefixed(value), tail);
      WrittenSliceReads(key, Prefixed(value) + tail);
      WrittenSliceReads(value, tail);
      ThenReads(ReadsSlice, ReadsSlice, Prefixed(key) + (Prefixed(value) + tail), key, Prefixed(value) + tail, value, tail);
    case Delete(key) =>
      AfterTag(0, Prefixed(key), tail);
      WrittenSliceReads(key, tail);
  }

  lemma AfterTag(tag: byte, body: Bytes, tail: Bytes)
    ensures ([tag] + body + tail)[0] == tag && ([tag] + body + tail)[1..] == body + tail
  {
  }

  lemma {:induction false} WrittenOpsRead(ops: seq<Op>)
    requires AllFit(ops)
    ensures Many(ReadsOp, AllBytes(ops), ops, [])
  {
    hide OpBytes, AllBytes, ReadsOp, OpFits;
    AllBytesUnfolds(ops);
    if ops != [] {
      WrittenOpReads(ops[0], AllBytes(ops[1..]));
      WrittenOpsRead(ops[1..]);
    }
  }

  lemma NothingLeft()
    ensures forall op, r :: !ReadsOp([], op, r)
  {
  }

  /** The switch of Iterate. */
  method ReadOp(input: Bytes) returns (ok: bool, call: Op, rest: Bytes)
    requires input != []
    ensures ok ==> ReadsOp(input, call, rest) && |rest| < |input|
    ensures !ok ==> forall op, r :: !ReadsOp(input, op, r)
  {
    hide ReadsSlice, Then;
    var tag := input[0];
    rest := input[1..];
    call := Op.Delete([]);
    if tag == 1 {
      var key, val, mid;
      ok, key, mid := GetLengthPrefixedSlice(rest);
      if ok {
        ok, val, rest := GetLengthPrefixedSlice(mid);
        if ok {
          call := Op.Put(key, val);
          ThenReads(ReadsSlice, ReadsSlice, input[1..], key, mid, val, rest);
        } else {
          SlicesReadOnce();
          NoSecond(ReadsSlice, ReadsSlice, input[1..], key, mid);
        }
      } else {
        NoFirst(ReadsSlice, ReadsSlice, input[1..]);
      }
    } else if tag == 0 {
      var key;
      ok, key, rest := GetLengthPrefixedSlice(rest);
      if ok {
        call := Op.Delete(key);
      }
    } else {
      ok := false;
    }
  }
}
