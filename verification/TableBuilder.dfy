/** The table builder, with its delayed index entry (table/table_builder). */
module TableBuilder {
  import opened Common
  import opened Coding
  import opened Comparator
  import opened TableFormat
  import Bloom
  import FilterBlock

  const BLOCK_TRAILER_SIZE: nat := 5

  class Builder {
    var offset: nat
    var dataBlock: seq<Pair>
    var indexBlock: seq<Row<Handle>>
    var lastKey: IKey
    var numEntries: nat
    var closed: bool
    var pendingIndexEntry: bool
    var pendingHandle: Handle
    var file: map<Handle, seq<Pair>>
    const filterBlock: FilterBlock.FilterBlockBuilder?
    /** The data blocks written, and where. */
    ghost var written: seq<seq<Pair>>
    ghost var handles: seq<Handle>

    constructor (policy: Option<Bloom.Policy>)
      requires policy.Some? ==> Bloom.PolicyOk(policy.value)
      ensures Valid() && !closed && Entries() == []
      ensures offset == 0 && written == [] && handles == [] && dataBlock == [] && indexBlock == [] && !pendingIndexEntry
      ensures filterBlock != null ==> fresh(filterBlock) && policy == Some(filterBlock.policy)
      ensures filterBlock == null ==> policy == None
    {
      offset, dataBlock, indexBlock, lastKey, numEntries := 0, [], [], IKey([], 0), 0;
      closed, pendingIndexEntry, pendingHandle, file := false, false, Handle(0, 0), map[];
      written, handles := [], [];
      if policy.Some? {
        var f := new FilterBlock.FilterBlockBuilder(policy.value);
        f.StartBlock(0);
        filterBlock := f;
      } else {
        filterBlock := null;
      }
    }

    /** The finished data blocks and the one being built. */
    ghost function Blocks(): seq<seq<Pair>>
      reads this`written, this`dataBlock
    {
      Appended(written, dataBlock)
    }

    ghost function Entries(): seq<Pair>
      reads this`written, this`dataBlock
    {
      Flat(Blocks())
    }

    /** An index entry waits exactly while no key has followed the last block written. */
    ghost predicate IndexOk()
      reads this`written, this`dataBlock, this`indexBlock, this`handles, this`pendingIndexEntry, this`pendingHandle
    {
      IndexCore() && (!pendingIndexEntry && written != [] ==> dataBlock != [])
    }

    ghost predicate IndexCore()
      reads this`written, this`dataBlock, this`indexBlock, this`handles, this`pendingIndexEntry, this`pendingHandle
    {
      && Indexed(indexBlock, Blocks()) && |handles| == |written|
      && (forall b :: 0 <= b < |written| ==> written[b] != [])
      && |written| == |indexBlock| + (if pendingIndexEntry then 1 else 0)
      && (forall b :: 0 <= b < |indexBlock| ==> indexBlock[b].value == handles[b])
      && (pendingIndexEntry ==> dataBlock == [] && pendingHandle == handles[|handles| - 1])
    }

    /** No index entry waits, and the last one written comes before `key`. */
    ghost predicate ReadyFor(key: IKey)
      reads this`written, this`dataBlock, this`indexBlock, this`handles, this`pendingIndexEntry, this`pendingHandle
    {
      && IndexCore() && !pendingIndexEntry
      && (dataBlock == [] && written != [] ==>
            Beyond(LastKey(written[|written| - 1]), indexBlock[|indexBlock| - 1].key, key))
    }

    /** A block has ended: it is the last one written, under its handle, a trailer of five bytes behind it. */
    ghost predicate Ends(block: seq<Pair>, start: nat, before: seq<seq<Pair>>, handlesBefore: seq<Handle>, size: nat)
      reads this`dataBlock, this`written, this`handles, this`offset
    {
      && dataBlock == [] && written == before + [block] && handles == handlesBefore + [Handle(start, size)]
      && offset == start + size + 5
    }

    ghost predicate FileOk()
      reads this`written, this`handles, this`file, this`offset
    {
      Stored(file, handles, written) && forall h :: h in file ==> h.offset < offset
    }

    ghost predicate FilterOk()
      reads this`written, this`dataBlock, this`handles, this`offset, filterBlock
    {
      filterBlock != null ==>
        && filterBlock.Valid() && |filterBlock.groups| == offset / FilterBlock.FILTER_BASE
        && Covered(filterBlock.groups, filterBlock.pending, handles, written)
        && Grouped(filterBlock.groups, filterBlock.pending, offset, dataBlock)
    }

    ghost predicate KeysOk()
      reads this`written, this`dataBlock, this`lastKey, this`numEntries
    {
      && Ascending(Entries()) && numEntries == |Entries()|
      && (numEntries > 0 ==> lastKey == LastKey(Entries()))
    }

    ghost predicate Valid()
      reads this, filterBlock
    {
      closed || (IndexOk() && FileOk() && FilterOk() && KeysOk())
    }

    /** Add. `full` tells whether the block reaches the block size with the entry, and `size` is what it takes up then. */
    method Add(key: IKey, value: Bytes, full: bool, size: nat)
      requires Valid() && !closed && (numEntries > 0 ==> Before(lastKey, key))
      modifies this, filterBlock
      ensures Valid() && !closed && Entries() == old(Entries()) + [Row(key, value)] && lastKey == key
      ensures if full then Ends(old(dataBlock) + [Row(key, value)], old(offset), old(written), old(handles), size)
              else dataBlock == old(dataBlock) + [Row(key, value)] && written == old(written) && handles == old(handles) && offset == old(offset)
    {
      hide Indexed, Ascending, Flat, Stored, Covered, Grouped, FilterBlock.FilterBlockBuilder.Valid;
      if pendingIndexEntry {
        LastOfFlat(written);
        AddIndexEntry(key);
      }
      AddToFilter(key);
      AddToBlock(key, value);
      if full {
        Flush(size);
      }
    }

    /** The index entry of the last block, now that the next key is known. */
    method AddIndexEntry(key: IKey)
      requires IndexOk() && KeysOk() && pendingIndexEntry && Before(lastKey, key)
      modifies this`lastKey, this`indexBlock, this`pendingIndexEntry
      ensures ReadyFor(key)
    {
      hide Ascending, Flat, Before, Separates;
      ghost var last := written[|written| - 1];
      LastOfFlat(written);
      lastKey := FindShortestInternalSeparator(lastKey, key);
      ShortenedIsBeyond(LastKey(last), lastKey, key);
      indexBlock := indexBlock + [Row(lastKey, pendingHandle)];
      pendingIndexEntry := false;
    }

    /** FilterBlockBuilder::AddKey through the internal filter policy, which strips the key to its user key. */
    method AddToFilter(key: IKey)
      requires FilterOk()
      modifies filterBlock
      ensures FilterOk()
      ensures filterBlock != null ==>
        InGroup(filterBlock.groups, filterBlock.pending, offset / FilterBlock.FILTER_BASE, key.user)
    {
      hide FilterBlock.FilterBlockBuilder.Valid;
      if filterBlock != null {
        filterBlock.AddKey(key.user);
      }
    }

    method AddToBlock(key: IKey, value: Bytes)
      requires ReadyFor(key) && FilterOk() && Ascending(Entries()) && numEntries == |Entries()|
      requires numEntries > 0 ==> Before(LastKey(Entries()), key)
      requires filterBlock != null ==>
        InGroup(filterBlock.groups, filterBlock.pending, offset / FilterBlock.FILTER_BASE, key.user)
      modifies this`lastKey, this`numEntries, this`dataBlock
      ensures IndexOk() && FilterOk() && KeysOk() && !pendingIndexEntry && dataBlock != []
      ensures Entries() == old(Entries()) + [Row(key, value)] && lastKey == key
      ensures dataBlock == old(dataBlock) + [Row(key, value)]
    {
      hide Indexed, Ascending, Flat, Covered, Before, FilterBlock.FilterBlockBuilder.Valid;
      GrowBlock(indexBlock, written, dataBlock, Row(key, value));
      lastKey := key;
      numEntries := numEntries + 1;
      dataBlock := dataBlock + [Row(key, value)];
    }

    /** Flush: writes the data block, whose index entry then waits for the next key. */
    method Flush(size: nat)
      requires Valid() && !closed
      modifies this, filterBlock
      ensures Valid() && !closed && Entries() == old(Entries()) && lastKey == old(lastKey) && dataBlock == []
      ensures if old(dataBlock) == [] then written == old(written) && handles == old(handles) && offset == old(offset)
              else Ends(old(dataBlock), old(offset), old(written), old(handles), size)
    {
      hide Indexed, Ascending, Flat, Covered, Grouped, Before, Stored, FilterBlock.FilterBlockBuilder.Valid;
      if dataBlock == [] {
        return;
      }
      ghost var before := offset;
      WriteDataBlock(size);
      StartFilter(before);
    }

    /** WriteBlock on the data block: the file gets it under its offset, and the trailer follows. */
    method WriteDataBlock(size: nat)
      requires IndexOk() && FileOk() && KeysOk() && dataBlock != [] && |handles| == |written|
      modifies this`offset, this`dataBlock, this`pendingIndexEntry, this`pendingHandle, this`file, this`written, this`handles
      ensures IndexOk() && FileOk() && KeysOk() && dataBlock == [] && Entries() == old(Entries())
      ensures old(offset) <= offset && pendingIndexEntry
      ensures written == old(written) + [old(dataBlock)] && handles == old(handles) + [Handle(old(offset), size)]
      ensures offset == old(offset) + size + 5
    {
      hide Indexed, Ascending, Flat, Before;
      pendingHandle := Handle(offset, size);
      file := file[pendingHandle := dataBlock];
      offset := offset + size + BLOCK_TRAILER_SIZE;
      written, handles := written + [dataBlock], handles + [pendingHandle];
      dataBlock := [];
      pendingIndexEntry := true;
    }

    /** FilterBlockBuilder::StartBlock at the offset after the block just written. */
    method StartFilter(ghost before: nat)
      requires dataBlock == [] && written != [] && |handles| == |written| && before <= offset
      requires handles[|handles| - 1].offset == before
      requires filterBlock != null ==>
        && filterBlock.Valid() && |filterBlock.groups| == before / FilterBlock.FILTER_BASE
        && Covered(filterBlock.groups, filterBlock.pending, handles[..|handles| - 1], written[..|written| - 1])
        && Grouped(filterBlock.groups, filterBlock.pending, before, written[|written| - 1])
      modifies filterBlock
      ensures FilterOk()
    {
      hide Covered, Grouped, FilterBlock.FilterBlockBuilder.Valid;
      EmptyGrouped();
      if filterBlock != null {
        CoveredOne(filterBlock.groups, filterBlock.pending, handles, written);
        ghost var groups, pending := filterBlock.groups, filterBlock.pending;
        BaseAscends(before, offset);
        filterBlock.StartBlock(offset);
        CoverKept(groups, pending, filterBlock.groups, filterBlock.pending, handles, written);
      }
    }

    /** Finish: the last block, the filter block, and the last index entry with a short successor of the last key. */
    method Finish(size: nat) returns (t: Table)
      requires Valid() && !closed
      modifies this, filterBlock
      ensures Valid() && closed && Flat(written) == old(Entries())
      ensures t.filter.Some? <==> filterBlock != null
      ensures t.filter.Some? ==> t.filter.value.policy == filterBlock.policy
      ensures Holds(t, written)
      ensures (t.filter.Some? ==> |t.filter.value.contents| < Bloom.WORD) ==> Filtered(t, written)
    {
      hide Indexed, Ascending, Flat, Covered, Grouped, Before, Stored, FilterBlock.FilterBlockBuilder.Valid, FilterBlock.IsFilterBlock;
      Flush(size);
      var filter := FinishFilter();
      FinishIndex();
      closed := true;
      t := Table(indexBlock, file, filter);
      assert Handles(indexBlock) == handles;
    }

    method FinishFilter() returns (filter: Option<FilterData>)
      requires FilterOk()
      modifies filterBlock
      ensures filter.Some? <==> filterBlock != null
      ensures filter.Some? ==> filter.value.policy == filterBlock.policy
      ensures filter.Some? && |filter.value.contents| < Bloom.WORD ==> FilterCovers(filter.value, handles, written)
    {
      hide Covered, Grouped, FilterBlock.FilterBlockBuilder.Valid, FilterBlock.IsFilterBlock;
      filter := None;
      if filterBlock != null {
        ghost var groups, pending := filterBlock.groups, filterBlock.pending;
        var contents := filterBlock.Finish();
        filter := Some(FilterData(filterBlock.policy, contents));
        CoverClosed(groups, pending, filterBlock.groups, handles, written);
      }
    }

    /** The index entry of the last block. */
    method FinishIndex()
      requires IndexOk() && KeysOk() && dataBlock == []
      modifies this`lastKey, this`indexBlock, this`pendingIndexEntry
      ensures IndexCore() && |indexBlock| == |written|
    {
      hide Ascending, Flat, Before, Separates;
      if pendingIndexEntry {
        LastOfFlat(written);
        lastKey := FindShortInternalSuccessor(lastKey);
        indexBlock := indexBlock + [Row(lastKey, pendingHandle)];
        pendingIndexEntry := false;
      }
    }
  }

  lemma EmptyGrouped()
    ensures forall groups, pending, offset :: Grouped(groups, pending, offset, [])
  {
  }

  lemma BaseAscends(a: nat, b: nat)
    requires a <= b
    ensures a / FilterBlock.FILTER_BASE <= b / FilterBlock.FILTER_BASE
  {
  }

  lemma CoveredOne(groups: seq<seq<Bytes>>, pending: seq<Bytes>, handles: seq<Handle>, blocks: seq<seq<Pair>>)
    requires |handles| == |blocks| && blocks != []
    requires Covered(groups, pending, handles[..|handles| - 1], blocks[..|blocks| - 1])
    requires Grouped(groups, pending, handles[|handles| - 1].offset, blocks[|blocks| - 1])
    ensures Covered(groups, pending, handles, blocks)
  {
    hide Grouped;
    forall b | 0 <= b < |blocks|
      ensures Grouped(groups, pending, handles[b].offset, blocks[b])
    {
      if b < |blocks| - 1 {
        assert handles[b] == handles[..|handles| - 1][b] && blocks[b] == blocks[..|blocks| - 1][b];
      }
    }
  }

  /** Closing groups leaves every key in its group. */
  lemma CoverKept(groups: seq<seq<Bytes>>, pending: seq<Bytes>, groups': seq<seq<Bytes>>, pending': seq<Bytes>,
                  handles: seq<Handle>, blocks: seq<seq<Pair>>)
    requires Covered(groups, pending, handles, blocks)
    requires (groups' == groups && pending' == pending) || groups + [pending] <= groups'
    ensures Covered(groups', pending', handles, blocks)
  {
    forall b | 0 <= b < |blocks|
      ensures Grouped(groups', pending', handles[b].offset, blocks[b])
    {
      assert Grouped(groups, pending, handles[b].offset, blocks[b]);
      assert groups + [pending] <= groups' ==> forall n :: 0 <= n <= |groups| ==> groups'[n] == (groups + [pending])[n];
    }
  }

  lemma CoverClosed(groups: seq<seq<Bytes>>, pending: seq<Bytes>, groups': seq<seq<Bytes>>,
                    handles: seq<Handle>, blocks: seq<seq<Pair>>)
    requires Covered(groups, pending, handles, blocks)
    requires groups' == if pending == [] then groups else groups + [pending]
    ensures Covered(groups', [], handles, blocks)
  {
    CoverKept(groups, pending, groups', [], handles, blocks);
  }

  lemma LastOfFlat(blocks: seq<seq<Pair>>)
    requires blocks != [] && blocks[|blocks| - 1] != []
    ensures Flat(blocks) != [] && LastKey(Flat(blocks)) == LastKey(blocks[|blocks| - 1])
  {
  }

  lemma ShortenedIsBeyond(last: IKey, sep: IKey, key: IKey)
    requires Before(sep, key) && (sep != last ==> Less(sep.user, key.user))
    ensures Beyond(last, sep, key)
  {
  }

  lemma BeyondLater(last: IKey, sep: IKey, key: IKey, later: IKey)
    requires Beyond(last, sep, key) && Before(key, later)
    ensures Beyond(last, sep, later)
  {
    BeforeIsOrder(sep, key, later);
    CompareIsTotal(key.user, later.user);
    if Less(sep.user, key.user) && Less(key.user, later.user) {
      LessIsTransitive(sep.user, key.user, later.user);
    }
  }

  function Appended(written: seq<seq<Pair>>, data: seq<Pair>): seq<seq<Pair>> {
    if data == [] then written else written + [data]
  }

  lemma FlatGrown(written: seq<seq<Pair>>, data: seq<Pair>, e: Pair)
    ensures Flat(written + [data + [e]]) == Flat(Appended(written, data)) + [e]
  {
    assert (written + [data + [e]])[..|written|] == written && (written + [data])[..|written|] == written;
  }

  /** One more entry in the block being built. */
  lemma GrowBlock(index: seq<Row<Handle>>, written: seq<seq<Pair>>, data: seq<Pair>, e: Pair)
    requires var blocks := Appended(written, data);
             && Indexed(index, blocks) && Ascending(Flat(blocks))
             && (Flat(blocks) != [] ==> Before(LastKey(Flat(blocks)), e.key))
    requires |index| == |written| && forall b :: 0 <= b < |written| ==> written[b] != []
    requires data == [] && written != [] ==> Beyond(LastKey(written[|written| - 1]), index[|index| - 1].key, e.key)
    ensures var grown := written + [data + [e]];
            && Indexed(index, grown) && Flat(grown) == Flat(Appended(written, data)) + [e] && Ascending(Flat(grown))
  {
    hide Before, Beyond, EntryOk, Flat;
    var blocks := Appended(written, data);
    FlatGrown(written, data, e);
    if Flat(blocks) != [] {
      LaterThanAll(Flat(blocks), e);
    }
    if blocks != [] {
      LastOfFlat(blocks);
      var last := blocks[|blocks| - 1];
      forall b | 0 <= b < |index|
        ensures Beyond(LastKey(written[b]), index[b].key, e.key)
      {
        if b < |blocks| - 1 {
          assert Beyond(LastKey(written[b]), index[b].key, last[|last| - 1].key);
          BeyondLater(LastKey(written[b]), index[b].key, LastKey(last), e.key);
        }
      }
    }
  }

  lemma LaterThanAll(rows: seq<Pair>, e: Pair)
    requires rows != [] && Ascending(rows) && Before(LastKey(rows), e.key)
    ensures Ascending(rows + [e])
  {
    hide Before;
    forall i | 0 <= i < |rows| - 1
      ensures Before(rows[i].key, e.key)
    {
      BeforeIsOrder(rows[i].key, LastKey(rows), e.key);
    }
  }
}
