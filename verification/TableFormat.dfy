/** Tables as data blocks, an index with one separating key per block, and a filter block (table/format, doc/table_format). */
module TableFormat {
  import opened Common
  import opened Coding
  import opened Comparator
  import Bloom
  import FilterBlock

  datatype Row<V> = Row(key: IKey, value: V)

  type Pair = Row<Bytes>

  datatype Handle = Handle(offset: nat, size: nat)

  /** The policy a table was built with and its filter block. */
  datatype FilterData = FilterData(policy: Bloom.Policy, contents: Bytes)

  datatype Table = Table(index: seq<Row<Handle>>, blocks: map<Handle, seq<Pair>>, filter: Option<FilterData>)

  // ---------- sorted rows ----------

  ghost predicate Ascending<V>(rows: seq<Row<V>>) {
    forall i, j :: 0 <= i < j < |rows| ==> Before(rows[i].key, rows[j].key)
  }

  /** `p` is the position of the first row not before `target`, or the end. */
  predicate IsLowerBound<V>(rows: seq<Row<V>>, target: IKey, p: nat) {
    && p <= |rows| && (forall i :: 0 <= i < p ==> Before(rows[i].key, target))
    && (p < |rows| ==> !Before(rows[p].key, target))
  }

  /** Where a block iterator stands after Seek. */
  function LowerBound<V>(rows: seq<Row<V>>, target: IKey): (p: nat)
    ensures IsLowerBound(rows, target, p)
  {
    if rows == [] || !Before(rows[0].key, target) then 0
    else
      var p := LowerBound(rows[1..], target);
      assert forall i :: 0 < i < p + 1 ==> rows[i] == rows[1..][i - 1];
      p + 1
  }

  // ---------- the concatenation of the blocks ----------

  function Flat(blocks: seq<seq<Pair>>): seq<Pair> {
    if blocks == [] then [] else Flat(blocks[..|blocks| - 1]) + blocks[|blocks| - 1]
  }

  /** The position in the concatenation where block `b` starts. */
  function Start(blocks: seq<seq<Pair>>, b: nat): nat
    requires b <= |blocks|
  {
    |Flat(blocks[..b])|
  }

  lemma StartNext(blocks: seq<seq<Pair>>, b: nat)
    requires b < |blocks|
    ensures Start(blocks, b + 1) == Start(blocks, b) + |blocks[b]|
  {
    assert blocks[..b + 1][..b] == blocks[..b];
  }

  lemma StartEnds(blocks: seq<seq<Pair>>)
    ensures Start(blocks, 0) == 0 && Start(blocks, |blocks|) == |Flat(blocks)|
  {
    assert blocks[..|blocks|] == blocks;
  }

  lemma {:induction false} FlatAt(blocks: seq<seq<Pair>>, b: nat, i: nat)
    requires b < |blocks| && i < |blocks[b]|
    ensures Start(blocks, b) + i < |Flat(blocks)| && Flat(blocks)[Start(blocks, b) + i] == blocks[b][i]
    decreases |blocks|
  {
    var init := blocks[..|blocks| - 1];
    if b < |init| {
      FlatAt(init, b, i);
      assert init[..b] == blocks[..b];
    }
  }

  /** Every position of the concatenation lies in a block. */
  lemma {:induction false} FlatFrom(blocks: seq<seq<Pair>>, p: nat) returns (b: nat, i: nat)
    requires p < |Flat(blocks)|
    ensures b < |blocks| && i < |blocks[b]| && p == Start(blocks, b) + i && Flat(blocks)[p] == blocks[b][i]
    decreases |blocks|
  {
    var init := blocks[..|blocks| - 1];
    if p < |Flat(init)| {
      b, i := FlatFrom(init, p);
      assert init[..b] == blocks[..b];
    } else {
      b, i := |init|, p - |Flat(init)|;
    }
  }

  lemma {:induction false} StartsAscend(blocks: seq<seq<Pair>>, a: nat, b: nat)
    requires a <= b <= |blocks|
    ensures Start(blocks, a) <= Start(blocks, b)
    decreases b
  {
    if a < b {
      StartNext(blocks, b - 1);
      StartsAscend(blocks, a, b - 1);
    }
  }

  // ---------- index entries ----------

  /** Index keys bound their own block from above and every later one from below. */
  ghost predicate Partitioned<V>(index: seq<Row<V>>, blocks: seq<seq<Pair>>) {
    && |index| == |blocks|
    && (forall b, i :: 0 <= b < |blocks| && 0 <= i < |blocks[b]| ==> !Before(index[b].key, blocks[b][i].key))
    && forall b, c, i :: 0 <= b < c < |blocks| && 0 <= i < |blocks[c]| ==> Before(index[b].key, blocks[c][i].key)
  }

  function LastKey(block: seq<Pair>): IKey
    requires block != []
  {
    block[|block| - 1].key
  }

  /** A key of a later block comes after the index entry; after a shortened one even its user key does. */
  ghost predicate Beyond(last: IKey, sep: IKey, key: IKey) {
    Before(sep, key) && (sep == last || Less(sep.user, key.user))
  }

  ghost predicate EntryOk(block: seq<Pair>, sep: IKey) {
    block != [] && Separates(LastKey(block), sep) && !Before(sep, LastKey(block))
  }

  /** The index entries written so far fit the blocks, the last of which may still wait for its entry. */
  ghost predicate Indexed(index: seq<Row<Handle>>, blocks: seq<seq<Pair>>) {
    && |index| <= |blocks|
    && (forall b :: 0 <= b < |index| ==> EntryOk(blocks[b], index[b].key))
    && forall b, c, i :: 0 <= b < |index| && b < c < |blocks| && 0 <= i < |blocks[c]| ==>
      Beyond(LastKey(blocks[b]), index[b].key, blocks[c][i].key)
  }

  lemma IndexedPartitions(index: seq<Row<Handle>>, blocks: seq<seq<Pair>>)
    requires Indexed(index, blocks) && |index| == |blocks| && Ascending(Flat(blocks))
    ensures Partitioned(index, blocks)
  {
    hide Flat, Start, Less, CompareInternal;
    forall b, i | 0 <= b < |blocks| && 0 <= i < |blocks[b]|
      ensures !Before(index[b].key, blocks[b][i].key)
    {
      assert EntryOk(blocks[b], index[b].key);
      FlatAt(blocks, b, i);
      FlatAt(blocks, b, |blocks[b]| - 1);
      BeforeIsOrder(index[b].key, blocks[b][i].key, LastKey(blocks[b]));
    }
  }

  // ---------- filters ----------

  /** The user key is among the keys of group `n`, the last of which is not yet closed. */
  predicate InGroup(groups: seq<seq<Bytes>>, pending: seq<Bytes>, n: nat, user: Bytes) {
    if n < |groups| then user in groups[n] else n == |groups| && user in pending
  }

  /** The user keys of a block are in the group for the block's offset. */
  ghost predicate Grouped(groups: seq<seq<Bytes>>, pending: seq<Bytes>, offset: nat, block: seq<Pair>) {
    forall i :: 0 <= i < |block| ==> InGroup(groups, pending, offset / FilterBlock.FILTER_BASE, block[i].key.user)
  }

  ghost predicate Covered(groups: seq<seq<Bytes>>, pending: seq<Bytes>, handles: seq<Handle>, blocks: seq<seq<Pair>>) {
    |handles| == |blocks| && forall b :: 0 <= b < |blocks| ==> Grouped(groups, pending, handles[b].offset, blocks[b])
  }

  function Handles(index: seq<Row<Handle>>): seq<Handle> {
    seq(|index|, i requires 0 <= i < |index| => index[i].value)
  }

  /** The filter block has the user keys of every block under the block's offset. */
  ghost predicate FilterCovers(f: FilterData, handles: seq<Handle>, blocks: seq<seq<Pair>>) {
    exists groups :: FilterBlock.IsFilterBlock(f.policy, groups, f.contents) && Covered(groups, [], handles, blocks)
  }

  // ---------- tables ----------

  ghost predicate Stored(file: map<Handle, seq<Pair>>, handles: seq<Handle>, blocks: seq<seq<Pair>>) {
    |handles| == |blocks| && forall b :: 0 <= b < |blocks| ==> handles[b] in file && file[handles[b]] == blocks[b]
  }

  /** The table holds these blocks. */
  ghost predicate Holds(t: Table, blocks: seq<seq<Pair>>) {
    Ascending(Flat(blocks)) && Stored(t.blocks, Handles(t.index), blocks) && Indexed(t.index, blocks)
  }

  /** Its filter, if it has one, rules out no key of any block. */
  ghost predicate Filtered(t: Table, blocks: seq<seq<Pair>>) {
    t.filter.Some? ==> FilterCovers(t.filter.value, Handles(t.index), blocks)
  }
}
