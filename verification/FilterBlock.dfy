/** Filter blocks: one filter per 2 KB of file offsets (table/filter_block). */
module FilterBlock {
  import opened Coding
  import opened Varint
  import opened Bloom

  const FILTER_BASE_LG: byte := 11
  const FILTER_BASE: nat := 2048

  // ---------- parts kept end to end ----------

  function Joined(parts: seq<Bytes>): Bytes {
    if parts == [] then [] else Joined(parts[..|parts| - 1]) + parts[|parts| - 1]
  }

  /** Where part `i` starts; the end of all for `i == |parts|`. */
  function StartOf(parts: seq<Bytes>, i: nat): nat
    requires i <= |parts|
  {
    |Joined(parts[..i])|
  }

  lemma JoinedOne(parts: seq<Bytes>, p: Bytes)
    ensures Joined(parts + [p]) == Joined(parts) + p
    ensures forall i :: 0 <= i <= |parts| ==> StartOf(parts + [p], i) == StartOf(parts, i)
    ensures StartOf(parts + [p], |parts|) == |Joined(parts)|
  {
    assert (parts + [p])[..|parts|] == parts == parts[..|parts|];
    forall i | 0 <= i <= |parts|
      ensures StartOf(parts + [p], i) == StartOf(parts, i)
    {
      assert (parts + [p])[..i] == parts[..i];
    }
  }

  lemma StartOfAll(parts: seq<Bytes>)
    ensures StartOf(parts, |parts|) == |Joined(parts)|
  {
    assert parts[..|parts|] == parts;
  }

  /** Each part is found between its start and the next one's. */
  lemma {:induction false} PartIs(parts: seq<Bytes>, i: nat)
    requires i < |parts|
    ensures StartOf(parts, i) <= StartOf(parts, i + 1) <= |Joined(parts)|
    ensures Joined(parts)[StartOf(parts, i)..StartOf(parts, i + 1)] == parts[i]
  {
    var init, last := parts[..|parts| - 1], parts[|parts| - 1];
    assert parts == init + [last];
    JoinedOne(init, last);
    if i < |init| {
      PartIs(init, i);
    } else {
      StartOfAll(parts);
    }
  }

  // ---------- the format ----------

  /** The entry of the offset array at `i`; one past the last is the array's own offset. */
  function OffsetBytes(contents: Bytes, base: nat, i: nat): Bytes
    requires base + 4 * i + 4 <= |contents|
  {
    contents[base + 4 * i..base + 4 * i + 4]
  }

  predicate LaidOut(contents: Bytes, filters: seq<Bytes>) {
    var base := |Joined(filters)|;
    && |contents| == base + 4 * |filters| + 5 && contents[..base] == Joined(filters)
    && (forall i :: 0 <= i <= |filters| ==> DecodeFixed32(OffsetBytes(contents, base, i)) == StartOf(filters, i))
    && contents[|contents| - 1] == FILTER_BASE_LG
  }

  /** No keys make an empty filter; the policy makes the others. */
  ghost predicate FilterFor(p: Policy, group: seq<Bytes>, filter: Bytes) {
    if group == [] then filter == [] else IsFilter(p, group, filter)
  }

  ghost predicate FiltersFor(p: Policy, groups: seq<seq<Bytes>>, filters: seq<Bytes>) {
    |groups| == |filters| && forall i :: 0 <= i < |groups| ==> FilterFor(p, groups[i], filters[i])
  }

  /** A filter block over groups of keys, group `i` for the file offsets from `2048 * i`. */
  ghost predicate IsFilterBlock(p: Policy, groups: seq<seq<Bytes>>, contents: Bytes) {
    exists filters :: FiltersFor(p, groups, filters) && LaidOut(contents, filters)
  }

  // ---------- the builder ----------

  class FilterBlockBuilder {
    const policy: Policy
    var keys: Bytes
    var start: seq<nat>
    var result: Bytes
    var filterOffsets: seq<uint32>
    ghost var pending: seq<Bytes>
    ghost var groups: seq<seq<Bytes>>
    ghost var filters: seq<Bytes>

    constructor (policy: Policy)
      requires PolicyOk(policy)
      ensures Valid() && this.policy == policy && pending == [] && groups == []
    {
      this.policy := policy;
      keys, start, result, filterOffsets := [], [], [], [];
      pending, groups, filters := [], [], [];
    }

    ghost predicate Valid()
      reads this
    {
      PolicyOk(policy) && KeysOk() && FiltersOk()
    }

    /** The flattened keys and where each starts. */
    ghost predicate KeysOk()
      reads this`keys, this`start, this`pending
    {
      && keys == Joined(pending) && |start| == |pending|
      && forall i :: 0 <= i < |start| ==> start[i] == StartOf(pending, i)
    }

    ghost predicate FiltersOk()
      reads this`result, this`filterOffsets, this`groups, this`filters
    {
      && FiltersFor(policy, groups, filters) && result == Joined(filters) && |filterOffsets| == |filters|
      && forall i :: 0 <= i < |filters| ==> filterOffsets[i] == StartOf(filters, i) % WORD
    }

    method AddKey(key: Bytes)
      requires Valid()
      modifies this`keys, this`start, this`pending
      ensures Valid() && pending == old(pending) + [key]
    {
      JoinedOne(pending, key);
      StartOfAll(pending);
      start := start + [|keys|];
      keys := keys + key;
      pending := pending + [key];
    }

    method GenerateFilter()
      requires Valid()
      modifies this
      ensures Valid() && pending == [] && groups == old(groups) + [old(pending)]
    {
      hide IsFilter, Joined, StartOf;
      var numKeys := |start|;
      ghost var made: Bytes := [];
      if numKeys == 0 {
        JoinedOne(filters, []);
        filterOffsets := filterOffsets + [|result| % WORD];
      } else {
        var tmpKeys := SplitKeys();
        filterOffsets := filterOffsets + [|result| % WORD];
        var before := result;
        result := CreateFilter(policy, tmpKeys, before);
        made := result[|before|..];
        assert result == before + made;
        JoinedOne(filters, made);
        keys, start := [], [];
      }
      EmptyJoined();
      groups, filters := groups + [pending], filters + [made];
      pending := [];
    }

    /** The keys cut out of the flattened list again. */
    method SplitKeys() returns (tmpKeys: seq<Bytes>)
      requires Valid()
      ensures tmpKeys == pending
    {
      hide FiltersFor, Joined, StartOf;
      var ends := start + [|keys|];
      StartOfAll(pending);
      tmpKeys := [];
      for i := 0 to |start|
        invariant tmpKeys == pending[..i]
      {
        PartIs(pending, i);
        assert ends[i + 1] == StartOf(pending, i + 1);
        tmpKeys := tmpKeys + [keys[ends[i]..ends[i + 1]]];
      }
    }

    /** Filters are generated up to the one for the new block's offset. */
    method StartBlock(blockOffset: nat)
      requires Valid() && |groups| <= blockOffset / FILTER_BASE
      modifies this
      ensures Valid() && |groups| == blockOffset / FILTER_BASE
      ensures if |groups| == |old(groups)| then groups == old(groups) && pending == old(pending)
              else pending == [] && old(groups) + [old(pending)] <= groups
    {
      hide IsFilter, Joined, StartOf;
      var filterIndex := blockOffset / FILTER_BASE;
      while filterIndex > |filterOffsets|
        invariant Valid() && |groups| <= filterIndex
        invariant if |groups| == |old(groups)| then groups == old(groups) && pending == old(pending)
                  else pending == [] && old(groups) + [old(pending)] <= groups
        decreases filterIndex - |filterOffsets|
      {
        GenerateFilter();
      }
    }

    /** The filter block: every group's filter, the offset array and the encoding parameter. */
    method Finish() returns (contents: Bytes)
      requires Valid()
      modifies this
      ensures pending == [] && groups == (if old(pending) == [] then old(groups) else old(groups) + [old(pending)])
      ensures |contents| < WORD ==> IsFilterBlock(policy, groups, contents)
    {
      hide IsFilter, Joined, StartOf, EncodeFixed32, DecodeFixed32;
      if start != [] {
        GenerateFilter();
      }
      WriteOffsets();
      contents := result;
    }

    method WriteOffsets()
      requires Valid()
      modifies this`result
      ensures |result| < WORD ==> LaidOut(result, filters)
    {
      hide FilterFor, Joined, StartOf, EncodeFixed32, DecodeFixed32;
      var base := |result|;
      var offsets := filterOffsets + [base % WORD];
      for i := 0 to |offsets|
        invariant |result| == base + 4 * i && result[..base] == Joined(filters)
        invariant forall j :: 0 <= j < i ==> DecodeFixed32(OffsetBytes(result, base, j)) == offsets[j]
      {
        var code := EncodeFixed32(offsets[i]);
        ghost var before := result;
        result := result + code;
        forall j | 0 <= j < i
          ensures OffsetBytes(result, base, j) == OffsetBytes(before, base, j)
        {
        }
        assert OffsetBytes(result, base, i) == code;
      }
      ghost var before := result;
      result := result + [FILTER_BASE_LG];
      forall j | 0 <= j < |offsets|
        ensures OffsetBytes(result, base, j) == OffsetBytes(before, base, j)
      {
      }
      if |result| < WORD {
        OffsetsFit(filters, offsets);
      }
    }
  }

  lemma EmptyJoined()
    ensures Joined([]) == []
  {
  }

  lemma OffsetsFit(filters: seq<Bytes>, offsets: seq<uint32>)
    requires |Joined(filters)| < WORD && |offsets| == |filters| + 1
    requires forall i :: 0 <= i < |filters| ==> offsets[i] == StartOf(filters, i) % WORD
    requires offsets[|filters|] == |Joined(filters)| % WORD
    ensures forall i :: 0 <= i <= |filters| ==> offsets[i] == StartOf(filters, i)
  {
    hide Joined, StartOf;
    StartOfAll(filters);
    forall i | 0 <= i <= |filters|
      ensures offsets[i] == StartOf(filters, i)
    {
      if i < |filters| {
        PartIs(filters, i);
      }
    }
  }

  // ---------- the reader ----------

  datatype Reader = Reader(data: Bytes, offset: nat, num: nat, baseLg: nat)

  predicate ReaderOk(r: Reader) {
    0 < r.num ==> r.offset + 4 * r.num + 4 < |r.data|
  }

  /** FilterBlockReader's constructor: contents too short or with a bad array offset leave it empty. */
  function Open(contents: Bytes): (r: Reader)
    ensures ReaderOk(r)
  {
    var n := |contents|;
    if n < 5 then Reader([], 0, 0, 0)
    else
      var baseLg := contents[n - 1];
      var lastWord := DecodeFixed32(contents[n - 5..n - 1]);
      if lastWord > n - 5 then Reader([], 0, 0, baseLg)
      else Reader(contents, lastWord, (n - 5 - lastWord) / 4, baseLg)
  }

  lemma OpenIs(contents: Bytes, filters: seq<Bytes>)
    requires LaidOut(contents, filters)
    ensures Open(contents) == Reader(contents, |Joined(filters)|, |filters|, FILTER_BASE_LG)
  {
    hide Joined, StartOf, DecodeFixed32;
    var n := |contents|;
    assert contents[n - 5..n - 1] == OffsetBytes(contents, |Joined(filters)|, |filters|);
    StartOfAll(filters);
  }

  lemma SliceOfPrefix(s: Bytes, n: nat, i: nat, j: nat)
    requires i <= j <= n <= |s|
    ensures s[..n][i..j] == s[i..j]
  {
  }

  /** The bytes between two offsets are the filter. */
  lemma FilterIs(data: Bytes, filters: seq<Bytes>, index: nat)
    requires LaidOut(data, filters) && index < |filters|
    ensures var base := |Joined(filters)|;
            && base + 4 * index + 8 < |data|
            && var start, limit := DecodeFixed32(OffsetBytes(data, base, index)), DecodeFixed32(OffsetBytes(data, base, index + 1));
               start <= limit <= base && data[start..limit] == filters[index]
  {
    hide Joined, DecodeFixed32, StartOf;
    PartIs(filters, index);
    var base := |Joined(filters)|;
    var start, limit := StartOf(filters, index), StartOf(filters, index + 1);
    SliceOfPrefix(data, base, start, limit);
  }

  /** Which filter a file offset belongs to: a shift to the right. */
  function FilterIndex(blockOffset: nat, baseLg: nat): nat {
    if baseLg == 0 then blockOffset else FilterIndex(blockOffset / 2, baseLg - 1)
  }

  /** The shift is a division by a power of two. */
  lemma {:induction false} IndexIs(n: nat, lg: nat)
    ensures FilterIndex(n, lg) == n / Pow2(lg)
  {
    if 0 < lg {
      IndexIs(n / 2, lg - 1);
      HalvesFirst(n, Pow2(lg - 1));
    }
  }

  lemma HalvesFirst(n: nat, p: nat)
    requires 0 < p
    ensures n / 2 / p == n / (2 * p)
  {
    var h := n / 2;
    var q, r := Divided(h, p);
    TwiceProduct(p, q);
    Quotient(2 * p, q, 2 * r + n % 2);
  }

  lemma Divided(x: nat, p: nat) returns (q: nat, r: nat)
    requires 0 < p
    ensures q == x / p && r < p && x == p * q + r
  {
    q, r := x / p, x % p;
  }

  lemma TwiceProduct(p: nat, q: nat)
    ensures (2 * p) * q == 2 * (p * q)
  {
  }

  lemma Quotient(p: nat, q: nat, r: nat)
    requires r < p
    ensures (p * q + r) / p == q
  {
    var x := p * q + r;
    var k := x / p;
    assert p * k + x % p == x;
    if k < q {
      Multiples(p, k + 1, q);
    } else if q < k {
      Multiples(p, q + 1, k);
    }
  }

  lemma Multiples(p: nat, a: nat, b: nat)
    requires a <= b
    ensures p * a <= p * b && p * (a - 1) == p * a - p
  {
  }

  lemma ShiftOne(n: nat, lg: nat)
    ensures FilterIndex(n, lg + 1) == FilterIndex(n / 2, lg)
  {
  }

  lemma ShiftFour(n: nat, lg: nat)
    ensures FilterIndex(n, lg + 4) == FilterIndex(n / 16, lg)
  {
    hide FilterIndex;
    ShiftOne(n, lg + 3);
    ShiftOne(n / 2, lg + 2);
    ShiftOne(n / 2 / 2, lg + 1);
    ShiftOne(n / 2 / 2 / 2, lg);
    assert n / 2 / 2 / 2 / 2 == n / 16;
  }

  lemma BaseIs(blockOffset: nat)
    ensures FilterIndex(blockOffset, FILTER_BASE_LG) == blockOffset / FILTER_BASE
  {
    ShiftFour(blockOffset, 7);
    ShiftFour(blockOffset / 16, 3);
    ShiftOne(blockOffset / 16 / 16, 2);
    ShiftOne(blockOffset / 16 / 16 / 2, 1);
    ShiftOne(blockOffset / 16 / 16 / 2 / 2, 0);
    assert blockOffset / 16 / 16 / 2 / 2 / 2 == blockOffset / FILTER_BASE;
  }

  /**
   * What any contents answer: errors are potential matches, an empty filter matches nothing, and the
   * filter between two offsets answers for itself.
   */
  ghost predicate Answers(hash: Bytes -> uint32, r: Reader, index: nat, key: Bytes, may: bool)
    requires ReaderOk(r)
  {
    if r.num <= index then may
    else
      var start, limit := DecodeFixed32(OffsetBytes(r.data, r.offset, index)), DecodeFixed32(OffsetBytes(r.data, r.offset, index + 1));
      if start <= limit <= r.offset then may == MayMatch(hash, r.data[start..limit], key) else may == (start != limit)
  }

  /** KeyMayMatch. On a well-formed block the answer is that of the filter for the block's offset. */
  method KeyMayMatch(hash: Bytes -> uint32, r: Reader, blockOffset: nat, key: Bytes, ghost filters: seq<Bytes>) returns (may: bool)
    requires ReaderOk(r)
    ensures Answers(hash, r, FilterIndex(blockOffset, r.baseLg), key, may)
    ensures LaidOut(r.data, filters) && r == Open(r.data) && blockOffset / FILTER_BASE < |filters| ==>
            may == MayMatch(hash, filters[blockOffset / FILTER_BASE], key)
  {
    hide Joined, LaidOut, DecodeFixed32, MayMatch, FilterIndex, Open;
    var index := FilterIndex(blockOffset, r.baseLg);
    may := true;
    if index < r.num {
      var start := DecodeFixed32(OffsetBytes(r.data, r.offset, index));
      var limit := DecodeFixed32(OffsetBytes(r.data, r.offset, index + 1));
      if start <= limit && limit <= r.offset {
        may := Bloom.KeyMayMatch(hash, key, r.data[start..limit]);
      } else if start == limit {
        may := false;
      }
    }
    if LaidOut(r.data, filters) && r == Open(r.data) && blockOffset / FILTER_BASE < |filters| {
      AnswerOnBlock(hash, r, blockOffset, key, filters, may);
    }
  }

  lemma AnswerOnBlock(hash: Bytes -> uint32, r: Reader, blockOffset: nat, key: Bytes, filters: seq<Bytes>, may: bool)
    requires LaidOut(r.data, filters) && r == Open(r.data) && blockOffset / FILTER_BASE < |filters|
    requires Answers(hash, r, FilterIndex(blockOffset, r.baseLg), key, may)
    ensures may == MayMatch(hash, filters[blockOffset / FILTER_BASE], key)
  {
    hide Joined, LaidOut, DecodeFixed32, MayMatch, FilterIndex, Open;
    OpenIs(r.data, filters);
    BaseIs(blockOffset);
    FilterIs(r.data, filters, blockOffset / FILTER_BASE);
  }

  /** No key added for a block is ruled out for its offset. */
  method BlockMayMatch(p: Policy, ghost groups: seq<seq<Bytes>>, contents: Bytes, blockOffset: nat, key: Bytes) returns (may: bool)
    requires IsFilterBlock(p, groups, contents)
    ensures blockOffset / FILTER_BASE < |groups| && key in groups[blockOffset / FILTER_BASE] ==> may
  {
    hide LaidOut, IsFilter, MayMatch;
    ghost var filters :| FiltersFor(p, groups, filters) && LaidOut(contents, filters);
    ghost var index := blockOffset / FILTER_BASE;
    may := KeyMayMatch(p.hash, Open(contents), blockOffset, key, filters);
    OpenIs(contents, filters);
    if index < |groups| && key in groups[index] {
      FilterMatchesItsKeys(p, groups[index], filters[index], key);
    }
  }
}
