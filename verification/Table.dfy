/** Reading a table (table/table). */
module Table {
  import opened Common
  import opened Comparator
  import opened TableFormat
  import FilterBlock
  import TwoLevelIterator

  /** NewIterator: a cursor over all rows of the table. */
  method NewIterator(t: TableFormat.Table, ghost blocks: seq<seq<Pair>>) returns (iter: TwoLevelIterator.Iter)
    requires Holds(t, blocks)
    ensures fresh(iter) && iter.Ok() && iter.Resting() && iter.blocks == blocks && iter.Position() == |Flat(blocks)|
  {
    hide Flat, Indexed, Partitioned, Ascending, FilterCovers;
    IndexedPartitions(t.index, blocks);
    iter := new TwoLevelIterator.Iter(t.index, t.blocks, blocks);
  }

  /** The row is of the target's user key and at or after the target. */
  predicate Answers(k: IKey, row: Pair) {
    row.key.user == k.user && !Before(row.key, k)
  }

  /** If any row answers, the block that the index names has one. */
  lemma AnswerInBlock(index: seq<Row<Handle>>, blocks: seq<seq<Pair>>, k: IKey, b: nat, row: Pair)
    requires Indexed(index, blocks) && Partitioned(index, blocks) && IsLowerBound(index, k, b)
    requires row in Flat(blocks) && Answers(k, row)
    ensures b < |blocks| && exists j :: 0 <= j < |blocks[b]| && Answers(k, blocks[b][j])
  {
    hide Flat, Start, CompareInternal, Compare;
    var p :| 0 <= p < |Flat(blocks)| && Flat(blocks)[p] == row;
    var c, i := FlatFrom(blocks, p);
    if c < b {
      BeforeIsOrder(row.key, index[c].key, k);
    } else if b < c {
      var sep, last := index[b].key, LastKey(blocks[b]);
      assert EntryOk(blocks[b], sep);
      assert Beyond(last, sep, row.key);
      UserIsNotLess(k, sep);
      BeforeIsOrder(sep, row.key, k);
      UserBetween(k, sep, row.key);
      assert Answers(k, blocks[b][|blocks[b]| - 1]);
    }
  }

  lemma UserBetween(k: IKey, m: IKey, n: IKey)
    requires !Before(m, k) && !Before(n, m) && k.user == n.user
    ensures m.user == k.user
  {
    hide Compare;
    CompareIsTotal(k.user, m.user);
    CompareIsTotal(n.user, m.user);
  }

  lemma UserIsNotLess(k: IKey, m: IKey)
    requires !Before(m, k)
    ensures !Less(m.user, k.user)
  {
  }

  lemma SameBound<V>(rows: seq<Row<V>>, target: IKey, p: nat)
    requires IsLowerBound(rows, target, p)
    ensures p == LowerBound(rows, target)
  {
    hide Before, LowerBound;
  }

  /** FilterBlockReader::KeyMayMatch through the internal filter policy, which strips the key to its user key. */
  method FilterSays(f: FilterData, offset: nat, k: IKey, ghost handles: seq<Handle>, ghost blocks: seq<seq<Pair>>, ghost b: nat)
    returns (may: bool)
    requires FilterCovers(f, handles, blocks) && b < |handles| == |blocks| && handles[b].offset == offset
    ensures !may ==> forall j :: 0 <= j < |blocks[b]| ==> blocks[b][j].key.user != k.user
  {
    hide FilterBlock.IsFilterBlock;
    ghost var groups :| FilterBlock.IsFilterBlock(f.policy, groups, f.contents) && Covered(groups, [], handles, blocks);
    may := FilterBlock.BlockMayMatch(f.policy, groups, f.contents, offset, k.user);
    assert Grouped(groups, [], offset, blocks[b]);
  }

  /** Among the rows of one block the seek finds an answer if there is one. */
  lemma SeekAnswers(rows: seq<Pair>, k: IKey, at: nat, j: nat)
    requires Ascending(rows) && IsLowerBound(rows, k, at) && j < |rows| && Answers(k, rows[j])
    ensures at < |rows| && Answers(k, rows[at])
  {
    hide CompareInternal;
    if at < j {
      BeforeIsOrder(rows[at].key, rows[j].key, k);
      BeforeIsOrder(rows[j].key, rows[at].key, k);
      UserBetween(k, rows[at].key, rows[j].key);
    }
  }

  lemma BlockAscends(blocks: seq<seq<Pair>>, b: nat)
    requires Ascending(Flat(blocks)) && b < |blocks|
    ensures Ascending(blocks[b])
  {
    hide Flat, Start, Before;
    forall i, j | 0 <= i < j < |blocks[b]|
      ensures Before(blocks[b][i].key, blocks[b][j].key)
    {
      FlatAt(blocks, b, i);
      FlatAt(blocks, b, j);
    }
  }

  /**
   * InternalGet hands on at most one row, the first of the whole table at or after `k`. It may hand on
   * none, but only if no row answers.
   */
  method InternalGet(t: TableFormat.Table, k: IKey, ghost blocks: seq<seq<Pair>>) returns (r: Option<Pair>)
    requires Holds(t, blocks) && Filtered(t, blocks)
    ensures r.Some? ==> var p := LowerBound(Flat(blocks), k); p < |Flat(blocks)| && r.value == Flat(blocks)[p]
    ensures (exists row :: row in Flat(blocks) && Answers(k, row)) <==> r.Some? && Answers(k, r.value)
  {
    hide Flat, Indexed, Partitioned, Ascending, FilterCovers, Before, LowerBound;
    IndexedPartitions(t.index, blocks);
    var b := LowerBound(t.index, k);
    r := None;
    ghost var flat := Flat(blocks);
    forall row | row in flat && Answers(k, row)
      ensures b < |blocks| && exists j :: 0 <= j < |blocks[b]| && Answers(k, blocks[b][j])
    {
      AnswerInBlock(t.index, blocks, k, b, row);
    }
    if b < |t.index| {
      r := BlockGet(t, k, b, blocks);
    }
  }

  /** The part of InternalGet that reads block `b`: the filter, then a seek. */
  method BlockGet(t: TableFormat.Table, k: IKey, b: nat, ghost blocks: seq<seq<Pair>>) returns (r: Option<Pair>)
    requires Holds(t, blocks) && Filtered(t, blocks) && Partitioned(t.index, blocks) && b < |t.index| && IsLowerBound(t.index, k, b)
    ensures r.Some? ==> var p := LowerBound(Flat(blocks), k); p < |Flat(blocks)| && r.value == Flat(blocks)[p]
    ensures (exists j :: 0 <= j < |blocks[b]| && Answers(k, blocks[b][j])) <==> r.Some? && Answers(k, r.value)
  {
    hide Flat, Start, Indexed, Partitioned, Ascending, FilterCovers, Before, LowerBound, IsLowerBound;
    var handle := t.index[b].value;
    assert handle == Handles(t.index)[b];
    if t.filter.Some? {
      var may := FilterSays(t.filter.value, handle.offset, k, Handles(t.index), blocks, b);
      if !may {
        return None;
      }
    }
    var rows := t.blocks[handle];
    var at := LowerBound(rows, k);
    TwoLevelIterator.SeekLands(t.index, blocks, k, b, at);
    SameBound(Flat(blocks), k, Start(blocks, b) + at);
    BlockAscends(blocks, b);
    forall j | 0 <= j < |rows| && Answers(k, rows[j])
      ensures at < |rows| && Answers(k, rows[at])
    {
      SeekAnswers(rows, k, at, j);
    }
    BoundInRange(rows, k, at);
    if at < |rows| {
      FlatAt(blocks, b, at);
      r := Some(rows[at]);
    } else {
      r := None;
    }
  }

  lemma BoundInRange<V>(rows: seq<Row<V>>, k: IKey, at: nat)
    requires IsLowerBound(rows, k, at)
    ensures at <= |rows|
  {
  }
}
