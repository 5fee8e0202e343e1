/** What it means for bytes to read as values one after the other, whatever was written into them. */
module Readers {
  import opened Coding

  /** `p(input, v, rest)`: the input starts with a value, and `rest` follows it; in one way only. */
  ghost predicate Deterministic<A(!new)>(p: (Bytes, A, Bytes) -> bool) {
    forall input, a, r, b, r' :: p(input, a, r) && p(input, b, r') ==> a == b && r == r'
  }

  // ---------- two values ----------

  ghost predicate Then<A, B>(p: (Bytes, A, Bytes) -> bool, q: (Bytes, B, Bytes) -> bool, input: Bytes, a: A, b: B, rest: Bytes) {
    exists mid :: p(input, a, mid) && q(mid, b, rest)
  }

  lemma ThenReads<A, B>(p: (Bytes, A, Bytes) -> bool, q: (Bytes, B, Bytes) -> bool, input: Bytes, a: A, mid: Bytes, b: B, rest: Bytes)
    requires p(input, a, mid) && q(mid, b, rest)
    ensures Then(p, q, input, a, b, rest)
  {
  }

  lemma ThenOnce<A(!new), B(!new)>(p: (Bytes, A, Bytes) -> bool, q: (Bytes, B, Bytes) -> bool,
                                   input: Bytes, a: A, b: B, rest: Bytes, a': A, b': B, rest': Bytes)
    requires Deterministic(p) && Deterministic(q) && Then(p, q, input, a, b, rest) && Then(p, q, input, a', b', rest')
    ensures a == a' && b == b' && rest == rest'
  {
    var mid :| p(input, a, mid) && q(mid, b, rest);
    var mid' :| p(input, a', mid') && q(mid', b', rest');
  }

  lemma NoFirst<A(!new), B(!new)>(p: (Bytes, A, Bytes) -> bool, q: (Bytes, B, Bytes) -> bool, input: Bytes)
    requires forall a, r :: !p(input, a, r)
    ensures forall a, b, r :: !Then(p, q, input, a, b, r)
  {
  }

  lemma NoSecond<A(!new), B(!new)>(p: (Bytes, A, Bytes) -> bool, q: (Bytes, B, Bytes) -> bool, input: Bytes, a: A, mid: Bytes)
    requires Deterministic(p) && p(input, a, mid) && forall b, r :: !q(mid, b, r)
    ensures forall a', b, r :: !Then(p, q, input, a', b, r)
  {
  }

  // ---------- any number of values ----------

  ghost predicate Many<A>(p: (Bytes, A, Bytes) -> bool, input: Bytes, values: seq<A>, rest: Bytes)
    decreases values
  {
    if values == [] then rest == input
    else exists mid :: p(input, values[0], mid) && Many(p, mid, values[1..], rest)
  }

  /** All that reads: no further value reads from the rest. */
  ghost predicate Parses<A(!new)>(p: (Bytes, A, Bytes) -> bool, input: Bytes, values: seq<A>, rest: Bytes) {
    Many(p, input, values, rest) && forall v, r :: !p(rest, v, r)
  }

  lemma NoneYet<A>(p: (Bytes, A, Bytes) -> bool, input: Bytes)
    ensures Many(p, input, [], input)
  {
  }

  lemma FirstReads<A>(p: (Bytes, A, Bytes) -> bool, input: Bytes, values: seq<A>, mid: Bytes, rest: Bytes)
    requires values != [] && p(input, values[0], mid) && Many(p, mid, values[1..], rest)
    ensures Many(p, input, values, rest)
  {
  }

  lemma {:induction false} ManyMore<A>(p: (Bytes, A, Bytes) -> bool, input: Bytes, values: seq<A>, mid: Bytes, v: A, rest: Bytes)
    requires Many(p, input, values, mid) && p(mid, v, rest)
    ensures Many(p, input, values + [v], rest)
    decreases values
  {
    var more := values + [v];
    if values == [] {
      assert more[1..] == [];
      FirstReads(p, input, more, rest, rest);
    } else {
      var next :| p(input, values[0], next) && Many(p, next, values[1..], mid);
      ManyMore(p, next, values[1..], mid, v, rest);
      assert more[1..] == values[1..] + [v];
      FirstReads(p, input, more, next, rest);
    }
  }

  /** The bytes alone decide what reads. */
  lemma {:induction false} ParseIsUnique<A(!new)>(p: (Bytes, A, Bytes) -> bool, input: Bytes, values: seq<A>, rest: Bytes,
                                                  values': seq<A>, rest': Bytes)
    requires Deterministic(p) && Parses(p, input, values, rest) && Parses(p, input, values', rest')
    ensures values == values' && rest == rest'
    decreases values
  {
    if values != [] && values' != [] {
      var mid :| p(input, values[0], mid) && Many(p, mid, values[1..], rest);
      var mid' :| p(input, values'[0], mid') && Many(p, mid', values'[1..], rest');
      assert mid == mid';
      ParseIsUnique(p, mid, values[1..], rest, values'[1..], rest');
      assert values == [values[0]] + values[1..] && values' == [values'[0]] + values'[1..];
    }
  }
}
