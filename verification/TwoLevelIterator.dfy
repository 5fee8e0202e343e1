/** The iterator over an index and the blocks it names (table/two_level_iterator). */
module TwoLevelIterator {
  import opened Common
  import opened Comparator
  import opened TableFormat

  /** A data block's iterator; at the end it is invalid. */
  datatype DataIter = DataIter(rows: seq<Pair>, at: nat)

  class Iter {
    const index: seq<Row<Handle>>
    const file: map<Handle, seq<Pair>>
    ghost const blocks: seq<seq<Pair>>
    var indexAt: nat
    var dataIter: Option<DataIter>
    var dataBlockHandle: Handle

    constructor (index: seq<Row<Handle>>, file: map<Handle, seq<Pair>>, ghost blocks: seq<seq<Pair>>)
      requires Stored(file, Handles(index), blocks) && Partitioned(index, blocks)
      ensures Ok() && Resting() && Position() == |Flat(blocks)|
      ensures this.index == index && this.file == file && this.blocks == blocks
    {
      this.index, this.file, this.blocks := index, file, blocks;
      indexAt, dataIter, dataBlockHandle := |index|, None, Handle(0, 0);
    }

    ghost predicate Fixed()
    {
      Stored(file, Handles(index), blocks) && Partitioned(index, blocks)
    }

    /** The data iterator, if any, is for the remembered handle. */
    ghost predicate HandleOk()
      reads this`dataIter, this`dataBlockHandle
    {
      dataIter.Some? ==>
        dataBlockHandle in file && dataIter.value.rows == file[dataBlockHandle] && dataIter.value.at <= |dataIter.value.rows|
    }

    /** There is a data iterator exactly while the index is on an entry, and it is over that entry's block. */
    ghost predicate Ok()
      reads this
    {
      && Fixed() && HandleOk() && indexAt <= |index| == |blocks| && (dataIter.Some? <==> indexAt < |index|)
      && (dataIter.Some? ==> dataBlockHandle == index[indexAt].value && dataIter.value.rows == blocks[indexAt])
    }

    /** Between calls the data iterator is never off its block. */
    ghost predicate Resting()
      reads this`dataIter
    {
      dataIter.Some? ==> dataIter.value.at < |dataIter.value.rows|
    }

    /** The position in the concatenated blocks; their length when not on an entry. */
    ghost function Position(): nat
      requires Ok()
      reads this
    {
      if dataIter.Some? then Start(blocks, indexAt) + dataIter.value.at else |Flat(blocks)|
    }

    predicate IsValid()
      reads this`dataIter
    {
      dataIter.Some? && dataIter.value.at < |dataIter.value.rows|
    }

    lemma ValidIs()
      requires Ok() && Resting()
      ensures IsValid() <==> Position() < |Flat(blocks)|
      ensures IsValid() ==> Flat(blocks)[Position()] == dataIter.value.rows[dataIter.value.at]
    {
      if IsValid() {
        FlatAt(blocks, indexAt, dataIter.value.at);
      }
    }

    /** key() and value(). */
    method Current() returns (row: Pair)
      requires Ok() && Resting() && Position() < |Flat(blocks)|
      ensures row == Flat(blocks)[Position()]
    {
      ValidIs();
      row := dataIter.value.rows[dataIter.value.at];
    }

    /** InitDataBlock keeps the data iterator if the index entry still names its block. */
    method InitDataBlock()
      requires Fixed() && HandleOk() && indexAt <= |index|
      modifies this`dataIter, this`dataBlockHandle
      ensures Ok()
    {
      if indexAt == |index| {
        dataIter := None;
      } else {
        var handle := index[indexAt].value;
        assert handle == Handles(index)[indexAt];
        if dataIter.Some? && handle == dataBlockHandle {
        } else {
          dataBlockHandle := handle;
          dataIter := Some(DataIter(file[handle], 0));
        }
      }
    }

    /** SeekToFirst on the data iterator, if there is one. */
    method DataSeekToFirst()
      requires Ok()
      modifies this`dataIter
      ensures Ok() && (dataIter.Some? ==> dataIter.value.at == 0)
    {
      if dataIter.Some? {
        dataIter := Some(dataIter.value.(at := 0));
      }
    }

    /** SeekToLast on the data iterator: its last row, or the end of an empty block. */
    method DataSeekToLast()
      requires Ok()
      modifies this`dataIter
      ensures Ok() && (dataIter.Some? ==> var n := |dataIter.value.rows|; dataIter.value.at == if n == 0 then 0 else n - 1)
    {
      if dataIter.Some? {
        var n := |dataIter.value.rows|;
        dataIter := Some(dataIter.value.(at := if n == 0 then 0 else n - 1));
      }
    }

    method SkipEmptyDataBlocksForward()
      requires Ok()
      modifies this
      ensures Ok() && Resting() && Position() == old(Position())
    {
      hide Flat, Start, Partitioned, Stored;
      StartEnds(blocks);
      while !IsValid()
        invariant Ok() && Position() == old(Position())
        decreases |index| - indexAt, if dataIter.Some? then 1 else 0
      {
        if indexAt == |index| {
          dataIter := None;
          return;
        }
        StartNext(blocks, indexAt);
        indexAt := indexAt + 1;
        InitDataBlock();
        DataSeekToFirst();
      }
    }

    /** Backward, an exhausted data iterator means that only earlier blocks can hold the entry before `goal`. */
    ghost predicate Behind(goal: nat)
      requires Ok()
      reads this
    {
      match dataIter
      case None => goal == 0
      case Some(d) => goal == Start(blocks, indexAt) + if d.at < |d.rows| then d.at + 1 else 0
    }

    method SkipEmptyDataBlocksBackward(ghost goal: nat)
      requires Ok() && Behind(goal)
      modifies this
      ensures Ok() && Resting() && Position() == if goal == 0 then |Flat(blocks)| else goal - 1
    {
      hide Flat, Start, Partitioned, Stored;
      StartEnds(blocks);
      while !IsValid()
        invariant Ok() && Behind(goal)
        decreases if indexAt < |index| then indexAt + 1 else 0
      {
        if indexAt == |index| {
          dataIter := None;
          return;
        }
        if 0 < indexAt {
          StartNext(blocks, indexAt - 1);
        }
        indexAt := if 0 < indexAt then indexAt - 1 else |index|;
        InitDataBlock();
        DataSeekToLast();
      }
    }

    method Seek(target: IKey)
      requires Ok()
      modifies this
      ensures Ok() && Resting() && IsLowerBound(Flat(blocks), target, Position())
    {
      hide Flat, Start, Partitioned, Stored;
      indexAt := LowerBound(index, target);
      InitDataBlock();
      if dataIter.Some? {
        var d := dataIter.value;
        dataIter := Some(d.(at := LowerBound(d.rows, target)));
        SeekLands(index, blocks, target, indexAt, dataIter.value.at);
      } else {
        SeekMisses(index, blocks, target);
      }
      SkipEmptyDataBlocksForward();
    }

    method SeekToFirst()
      requires Ok()
      modifies this
      ensures Ok() && Resting() && Position() == 0
    {
      hide Flat, Start, Partitioned, Stored;
      indexAt := 0;
      InitDataBlock();
      DataSeekToFirst();
      StartEnds(blocks);
      SkipEmptyDataBlocksForward();
    }

    method SeekToLast()
      requires Ok()
      modifies this
      ensures Ok() && Resting() && Position() == if Flat(blocks) == [] then 0 else |Flat(blocks)| - 1
    {
      hide Flat, Start, Partitioned, Stored;
      indexAt := if |index| == 0 then 0 else |index| - 1;
      InitDataBlock();
      DataSeekToLast();
      StartEnds(blocks);
      if 0 < |index| {
        StartNext(blocks, |index| - 1);
      }
      SkipEmptyDataBlocksBackward(|Flat(blocks)|);
    }

    method Next()
      requires Ok() && IsValid()
      modifies this
      ensures Ok() && Resting() && Position() == old(Position()) + 1
    {
      hide Flat, Start, Partitioned, Stored;
      dataIter := Some(dataIter.value.(at := dataIter.value.at + 1));
      SkipEmptyDataBlocksForward();
    }

    method Prev()
      requires Ok() && IsValid()
      modifies this
      ensures Ok() && Resting() && Position() == if old(Position()) == 0 then |Flat(blocks)| else old(Position()) - 1
    {
      hide Flat, Start, Partitioned, Stored;
      ghost var goal := Position();
      var d := dataIter.value;
      dataIter := Some(d.(at := if 0 < d.at then d.at - 1 else |d.rows|));
      SkipEmptyDataBlocksBackward(goal);
    }
  }

  /** The first index entry not before the target leads to the first row not before it. */
  lemma SeekLands<V>(index: seq<Row<V>>, blocks: seq<seq<Pair>>, target: IKey, b: nat, at: nat)
    requires Partitioned(index, blocks) && b < |blocks| && IsLowerBound(index, target, b) && IsLowerBound(blocks[b], target, at)
    ensures IsLowerBound(Flat(blocks), target, Start(blocks, b) + at)
  {
    hide Flat, Start, CompareInternal;
    var goal := Start(blocks, b) + at;
    StartNext(blocks, b);
    StartsAscend(blocks, b + 1, |blocks|);
    StartEnds(blocks);
    forall p: nat | p < |Flat(blocks)| && p <= goal
      ensures p < goal ==> Before(Flat(blocks)[p].key, target)
      ensures p == goal ==> !Before(Flat(blocks)[p].key, target)
    {
      var c, i := FlatFrom(blocks, p);
      if c < b {
        StartNext(blocks, c);
        StartsAscend(blocks, c + 1, b);
        BeforeIsOrder(index[c].key, blocks[c][i].key, target);
        BeforeIsOrder(blocks[c][i].key, index[c].key, target);
      } else if b < c {
        StartsAscend(blocks, b + 1, c);
        BeforeIsOrder(index[b].key, blocks[c][i].key, target);
      }
    }
  }

  lemma SeekMisses<V>(index: seq<Row<V>>, blocks: seq<seq<Pair>>, target: IKey)
    requires Partitioned(index, blocks) && IsLowerBound(index, target, |index|)
    ensures IsLowerBound(Flat(blocks), target, |Flat(blocks)|)
  {
    hide Flat, Start, CompareInternal;
    forall p: nat | p < |Flat(blocks)|
      ensures Before(Flat(blocks)[p].key, target)
    {
      var c, i := FlatFrom(blocks, p);
      BeforeIsOrder(index[c].key, blocks[c][i].key, target);
      BeforeIsOrder(blocks[c][i].key, index[c].key, target);
    }
  }
}
