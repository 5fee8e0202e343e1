/** A run from the empty store that brings a deleted key back. */
module TrapExample {
  import opened Common
  import opened DbFormat
  import opened VersionSet
  import opened CompactionInputs
  import opened CompactionWork
  import opened VersionBuilder
  import opened VersionChanges
  import opened CompactionStep
  import opened DbRun

  // ---------- sizes ----------

  /** The default options: output files are cut at 2 MB, and ten of those bound the overlap with grandparents. */
  const MAX_FILE_SIZE: nat := 2_097_152

  const MAX_GRANDPARENT_OVERLAP: nat := 10 * MAX_FILE_SIZE

  /**
   * What an entry adds to a table. Key 1.0 has values of about 2 MB, and key 2.0 stands for a key of
   * about 5000 bytes, so every entry fills at least a data block and counts as soon as it is added.
   */
  function EntrySize(e: Entry): nat {
    if e.key.user == 1.0 then 2_095_000 else 5_000
  }

  function TableSize(entries: seq<Entry>): nat {
    if entries == [] then 0 else TableSize(entries[..|entries| - 1]) + EntrySize(entries[|entries| - 1])
  }

  /** Every output but the last is full with its last entry, and none is full before. */
  ghost predicate CutBySize(outputs: seq<FileMeta>) {
    forall i :: 0 <= i < |outputs| ==>
      && (forall n :: 0 <= n < |outputs[i].entries| ==> TableSize(outputs[i].entries[..n]) < MAX_FILE_SIZE)
      && (i < |outputs| - 1 ==> MAX_FILE_SIZE <= TableSize(outputs[i].entries))
  }

  // ---------- the entries, files and stores of the run ----------

  const old1: Entry := EntryOf(Operation.Put(1.0, "a"), 1)
  const first: Entry := EntryOf(Operation.Put(1.0, "b"), 2)
  const hidden: Entry := EntryOf(Operation.Put(2.0, "v"), 3)
  const tombstone: Entry := EntryOf(Operation.Delete(2.0), 4)
  const second: Entry := EntryOf(Operation.Put(1.0, "c"), 5)

  function TableFile(number: nat, entries: seq<Entry>): FileMeta
    requires entries != []
  {
    OutputFile(number, TableSize(entries), entries)
  }

  /** The first two flushes. */
  const bottom: FileMeta := TableFile(2, [old1])
  const upper: FileMeta := TableFile(3, [first, tombstone, hidden])

  /** Their compaction, under a live snapshot, keeps both versions of key 2.0 and cuts between them. */
  const left: FileMeta := TableFile(4, [first, tombstone])
  const right: FileMeta := TableFile(5, [hidden])

  /** The third flush overlaps only the left file. */
  const newer: FileMeta := TableFile(6, [second])

  const output: FileMeta := TableFile(7, [second])

  const merged: seq<Entry> := [first, old1, tombstone, hidden]

  const mergedAgain: seq<Entry> := [second, first, tombstone]

  function Levels(one: seq<FileMeta>, two: seq<FileMeta>): Version {
    [[], one, two, [], [], [], []]
  }

  const states: seq<Store> := [
    emptyStore,
    Store([old1], None, Levels([], []), 1, [], 2),
    Store([], Some([old1]), Levels([], []), 1, [], 2),
    Store([], None, Levels([], [bottom]), 1, [], 3),
    Store([first, hidden], None, Levels([], [bottom]), 3, [], 3),
    Store([first, hidden], None, Levels([], [bottom]), 3, [3], 3),
    Store([first, tombstone, hidden], None, Levels([], [bottom]), 4, [3], 3),
    Store([], Some([first, tombstone, hidden]), Levels([], [bottom]), 4, [3], 3),
    Store([], None, Levels([upper], [bottom]), 4, [3], 4),
    Store([], None, Levels([], [left, right]), 4, [3], 6),
    Store([], None, Levels([], [left, right]), 4, [], 6),
    Store([second], None, Levels([], [left, right]), 5, [], 6),
    Store([], Some([second]), Levels([], [left, right]), 5, [], 6),
    Store([], None, Levels([newer], [left, right]), 5, [], 7),
    Store([], None, Levels([], [output, right]), 5, [], 8)]

  /**
   * Three rounds of writes, each followed by a CompactRange over all keys: it flushes the memtable and
   * compacts level 1, if it holds a file, into level 2.
   */
  const steps: seq<Step> := [
    Write([Operation.Put(1.0, "a")]),
    SwitchMemTable,
    Flush(2, bottom),
    Write([Operation.Put(1.0, "b"), Operation.Put(2.0, "v")]),
    TakeSnapshot,
    Write([Operation.Delete(2.0)]),
    SwitchMemTable,
    Flush(1, upper),
    Compact(1, [upper], [bottom], merged, [left, right]),
    ReleaseSnapshot(0),
    Write([Operation.Put(1.0, "c")]),
    SwitchMemTable,
    Flush(1, newer),
    Compact(1, [newer], [left], mergedAgain, [output])]

  // ---------- the writes ----------

  lemma SeekIs(mem: seq<Entry>, target: InternalKey, i: nat)
    requires i <= |mem| && (forall j :: 0 <= j < i ==> Before(mem[j].key, target)) && (i < |mem| ==> !Before(mem[i].key, target))
    ensures SeekIndex(mem, target) == i
  {
    hide Before;
  }

  lemma AddsEntry(mem: seq<Entry>, e: Entry, i: nat)
    requires i <= |mem| && (forall j :: 0 <= j < i ==> Before(mem[j].key, e.key)) && (i < |mem| ==> !Before(mem[i].key, e.key))
    ensures AddEntries(mem, [e]) == mem[..i] + [e] + mem[i..]
  {
    hide SeekIndex, Before;
    SeekIs(mem, e.key, i);
    assert [e][..0] == [];
    assert AddEntries(mem, []) == mem;
  }

  lemma BatchOfOne(op: Operation, n: nat)
    ensures BatchEntries([op], n) == [EntryOf(op, n)]
  {
  }

  lemma AddsTwo()
    ensures AddEntries([], BatchEntries([Operation.Put(1.0, "b"), Operation.Put(2.0, "v")], 2)) == [first, hidden]
  {
    var batch := BatchEntries([Operation.Put(1.0, "b"), Operation.Put(2.0, "v")], 2);
    assert batch == [first, hidden] && batch[..1] == [first];
    AddsEntry([], first, 0);
    SeekIs([first], hidden.key, 1);
    hide SeekIndex;
  }

  lemma Deletes()
    ensures AddEntries([first, hidden], BatchEntries([Operation.Delete(2.0)], 4)) == [first, tombstone, hidden]
  {
    hide AddEntries, BatchEntries;
    BatchOfOne(Operation.Delete(2.0), 4);
    AddsEntry([first, hidden], tombstone, 1);
  }

  lemma Writes()
    ensures Next(states[0], steps[0], states[1]) && Next(states[3], steps[3], states[4])
    ensures Next(states[5], steps[5], states[6]) && Next(states[10], steps[10], states[11])
  {
    hide AddEntries, BatchEntries;
    BatchOfOne(Operation.Put(1.0, "a"), 1);
    AddsEntry([], old1, 0);
    AddsTwo();
    Deletes();
    BatchOfOne(Operation.Put(1.0, "c"), 5);
    AddsEntry([], second, 0);
  }

  lemma Quiet()
    ensures Next(states[1], steps[1], states[2]) && Next(states[4], steps[4], states[5]) && Next(states[6], steps[6], states[7])
    ensures Next(states[9], steps[9], states[10]) && Next(states[11], steps[11], states[12])
  {
  }

  // ---------- the flushes ----------

  lemma FlushAdds(one: seq<FileMeta>, two: seq<FileMeta>, level: nat, f: FileMeta, one': seq<FileMeta>, two': seq<FileMeta>)
    requires level == 1 || level == 2
    requires InOrder(one') && InOrder(two')
    requires Files(one') == Files(one) + if level == 1 then {f} else {}
    requires Files(two') == Files(two) + if level == 2 then {f} else {}
    ensures AddedTo(Levels(one, two), level, f, Levels(one', two'))
  {
  }

  lemma OneFile(f: FileMeta)
    ensures Files([]) == {} && Files([f]) == {f} && InOrder([]) && InOrder([f])
  {
  }

  lemma LeftRight()
    ensures InOrder([left, right]) && InOrder([output, right])
    ensures Files([left, right]) == {left, right} && Files([output, right]) == {output, right}
  {
    assert [left, right][0] == left && [left, right][1] == right;
    assert [output, right][0] == output && [output, right][1] == right;
  }

  lemma MaySink()
    ensures MaySinkTo(Levels([], []), 2, bottom) && MaySinkTo(Levels([], [bottom]), 1, upper)
    ensures MaySinkTo(Levels([], [left, right]), 1, newer)
  {
  }

  lemma Flushes()
    ensures Next(states[2], steps[2], states[3]) && Next(states[7], steps[7], states[8]) && Next(states[12], steps[12], states[13])
  {
    hide MaySinkTo, AddedTo, TableSize, InOrder, Files;
    MaySink();
    OneFile(bottom);
    OneFile(upper);
    OneFile(newer);
    LeftRight();
    FlushAdds([], [], 2, bottom, [], [bottom]);
    FlushAdds([], [bottom], 1, upper, [upper], [bottom]);
    FlushAdds([], [left, right], 1, newer, [newer], [left, right]);
  }

  // ---------- the compactions ----------

  lemma OneFileContents(f: FileMeta)
    ensures LevelContents([f]) == Contents(f.entries)
  {
    assert f in [f];
  }

  lemma OneIsChosen(f: FileMeta, two: seq<FileMeta>)
    ensures SmallestOf([f]) == f.smallest && LargestOf([f]) == f.largest
    ensures Among([f], Levels([f], two)[1]) && LeavesOnlyNewer(Levels([f], two)[1], [f])
  {
  }

  lemma OverlapOfTwo(f: FileMeta, g: FileMeta, begin: Option<UserKey>, end: Option<UserKey>)
    ensures Overlapping([f], begin, end) == if InRange(f, begin, end) then [f] else []
    ensures Overlapping([f, g], begin, end) == Overlapping([f], begin, end) + if InRange(g, begin, end) then [g] else []
  {
    assert [f][..0] == [] && [f, g][..1] == [f];
  }

  lemma SplitInputs()
    ensures ProperInputs(Levels([upper], [bottom]), 1, [upper], [bottom]) && IsMerged(merged, [upper], [bottom])
  {
    hide Overlapping, LeavesOnlyNewer, LevelContents, SmallestOf, LargestOf, TableSize, Levels;
    LevelsAt([upper], [bottom]);
    OneIsChosen(upper, [bottom]);
    OverlapOfTwo(bottom, bottom, Some(1.0), Some(2.0));
    OneFileContents(upper);
    OneFileContents(bottom);
    MergedIsSorted();
  }

  lemma LevelsAt(one: seq<FileMeta>, two: seq<FileMeta>)
    ensures |Levels(one, two)| == NUM_LEVELS && Levels(one, two)[1] == one && Levels(one, two)[2] == two
  {
  }

  lemma MergedIsSorted()
    ensures Sorted(merged) && Contents(merged) == {first, tombstone, hidden, old1}
    ensures Contents([first, tombstone, hidden]) == {first, tombstone, hidden} && Contents([old1]) == {old1}
  {
    assert merged[0] == first && merged[1] == old1 && merged[2] == tombstone && merged[3] == hidden;
    assert [first, tombstone, hidden][1] == tombstone;
  }

  lemma MergedAgainIsSorted()
    ensures Sorted(mergedAgain) && Contents(mergedAgain) == {second, first, tombstone}
    ensures Contents([first, tombstone]) == {first, tombstone} && Contents([second]) == {second}
  {
    assert mergedAgain[0] == second && mergedAgain[1] == first && mergedAgain[2] == tombstone;
  }

  lemma TrapInputs()
    ensures ProperInputs(Levels([newer], [left, right]), 1, [newer], [left]) && IsMerged(mergedAgain, [newer], [left])
  {
    hide Overlapping, LeavesOnlyNewer, LevelContents, SmallestOf, LargestOf, TableSize, Levels;
    LevelsAt([newer], [left, right]);
    OneIsChosen(newer, [left, right]);
    OverlapOfTwo(left, right, Some(1.0), Some(1.0));
    OneFileContents(newer);
    OneFileContents(left);
    MergedAgainIsSorted();
  }

  /** Under the snapshot at 3 only the oldest value of key 1.0 may go. */
  lemma OneDrops(bases: iset<UserKey>)
    ensures !Dropped(merged, 3, bases, 0) && Dropped(merged, 3, bases, 1)
    ensures !Dropped(merged, 3, bases, 2) && !Dropped(merged, 3, bases, 3)
  {
  }

  /** Without it, the older value goes by rule (A) and the tombstone by rule (B). */
  lemma TwoDrop(bases: iset<UserKey>)
    requires 2.0 in bases
    ensures !Dropped(mergedAgain, 5, bases, 0) && Dropped(mergedAgain, 5, bases, 1) && Dropped(mergedAgain, 5, bases, 2)
  {
  }

  lemma NothingDeeper(one: seq<FileMeta>, two: seq<FileMeta>)
    ensures 2.0 in BaseLevelKeys(Levels(one, two), 1)
  {
  }

  lemma ConcatTwo(f: FileMeta, g: FileMeta)
    ensures Concat([f]) == f.entries && Concat([f, g]) == f.entries + g.entries
  {
    assert [f][..0] == [] && [f, g][..1] == [f];
  }

  lemma Outputs()
    ensures OutputsOf(Levels([upper], [bottom]), 1, merged, 3, [left, right])
    ensures OutputsOf(Levels([newer], [left, right]), 1, mergedAgain, 5, [output])
  {
    hide Kept, Dropped, BaseLevelKeys, Concat, TableSize;
    var bases := BaseLevelKeys(Levels([upper], [bottom]), 1);
    OneDrops(bases);
    KeptStep(merged, 3, bases, 0);
    KeptStep(merged, 3, bases, 1);
    KeptStep(merged, 3, bases, 2);
    KeptStep(merged, 3, bases, 3);
    ConcatTwo(left, right);
    OutputsAgain();
  }

  lemma OutputsAgain()
    ensures OutputsOf(Levels([newer], [left, right]), 1, mergedAgain, 5, [output])
  {
    hide Kept, Dropped, BaseLevelKeys, Concat, TableSize;
    var bases := BaseLevelKeys(Levels([newer], [left, right]), 1);
    NothingDeeper([newer], [left, right]);
    TwoDrop(bases);
    KeptStep(mergedAgain, 5, bases, 0);
    KeptStep(mergedAgain, 5, bases, 1);
    KeptStep(mergedAgain, 5, bases, 2);
    ConcatTwo(output, output);
  }

  lemma Replaces(one: seq<FileMeta>, two: seq<FileMeta>, inputs0: seq<FileMeta>, inputs1: seq<FileMeta>,
                 outputs: seq<FileMeta>, one': seq<FileMeta>, two': seq<FileMeta>)
    requires InOrder(one') && InOrder(two')
    requires Files(one') == Files(one) - Files(inputs0)
    requires Files(two') == Files(two) - Files(inputs1) + Files(outputs)
    ensures Replaced(Levels(one, two), 1, inputs0, inputs1, outputs, Levels(one', two'))
  {
  }

  lemma Compactions()
    ensures Next(states[8], steps[8], states[9]) && Next(states[13], steps[13], states[14])
  {
    hide ProperInputs, IsMerged, OutputsOf, Replaced, Levels, TableSize, InOrder, Files;
    SplitInputs();
    TrapInputs();
    Outputs();
    LeftRight();
    OneFile(upper);
    OneFile(bottom);
    OneFile(newer);
    OneFile(left);
    OneFile(output);
    Replaces([upper], [bottom], [upper], [bottom], [left, right], [], [left, right]);
    Replaces([newer], [left, right], [newer], [left], [output], [], [output, right]);
  }

  // ---------- why the code takes these steps ----------

  lemma SizesAre(a: Entry, b: Entry, c: Entry)
    ensures TableSize([]) == 0 && TableSize([a]) == EntrySize(a) && TableSize([a, b]) == EntrySize(a) + EntrySize(b)
    ensures TableSize([a, b, c]) == EntrySize(a) + EntrySize(b) + EntrySize(c)
  {
    assert [a][..0] == [] && [a, b][..1] == [a] && [a, b, c][..2] == [a, b];
  }

  /** The size rule cuts the first compaction's output between the tombstone and the value it hides. */
  lemma CutsAreBySize()
    ensures CutBySize([left, right]) && CutBySize([output])
  {
    hide TableSize;
    SizesAre(first, tombstone, hidden);
    SizesAre(hidden, second, second);
    SizesAre(second, second, second);
    assert left.entries[..0] == [] && left.entries[..1] == [first] && right.entries[..0] == [] && output.entries[..0] == [];
    assert [left, right][0] == left && [left, right][1] == right;
  }

  /** The first flush sinks to level 2, the others stop at level 1 above the files they overlap. */
  lemma LevelsArePicked()
    ensures IsPickedLevel(states[2].version, bottom.smallest.user, bottom.largest.user, MAX_GRANDPARENT_OVERLAP, 2)
    ensures IsPickedLevel(states[7].version, upper.smallest.user, upper.largest.user, MAX_GRANDPARENT_OVERLAP, 1)
    ensures IsPickedLevel(states[12].version, newer.smallest.user, newer.largest.user, MAX_GRANDPARENT_OVERLAP, 1)
  {
    hide TableSize, Overlapping;
    SizesAre(old1, old1, old1);
    SizesAre(first, tombstone, hidden);
    OverlapOfTwo(bottom, bottom, Some(1.0), Some(2.0));
    OverlapOfTwo(left, right, Some(1.0), Some(1.0));
    NothingOverlaps(Some(1.0), Some(1.0));
    assert bottom in [bottom] && left in [left, right];
    OneTotal(bottom);
    OneTotal(left);
  }

  lemma NothingOverlaps(begin: Option<UserKey>, end: Option<UserKey>)
    ensures Overlapping([], begin, end) == [] && TotalFileSize([]) == 0
  {
  }

  lemma OneTotal(f: FileMeta)
    ensures TotalFileSize([f]) == f.size
  {
    assert [f][..0] == [] && [f][1..] == [];
  }

  /** A compaction takes the whole upper level, as a manual one over all keys does, and is never a trivial move. */
  ghost predicate IsForced(s: Store, step: Step) {
    step.Compact? ==>
      && step.from < |s.version| && step.inputs0 == s.version[step.from]
      && forall grandparents, limit :: !IsTrivialMove(step.inputs0, step.inputs1, grandparents, limit)
  }

  lemma CompactionsAreForced()
    ensures forall i :: 0 <= i < |steps| ==> IsForced(states[i], steps[i])
  {
  }

  // ---------- the result ----------

  lemma ItIsARun()
    ensures IsRun(states, steps)
  {
    hide Next;
    Writes();
    Quiet();
    Flushes();
    Compactions();
  }

  lemma LevelsContents(one: seq<FileMeta>, two: seq<FileMeta>)
    ensures VersionContents(Levels(one, two)) == LevelContents(one) + LevelContents(two)
  {
    var v := Levels(one, two);
    assert v[1] == one && v[2] == two;
  }

  lemma TwoFileContents(f: FileMeta, g: FileMeta)
    ensures LevelContents([f, g]) == Contents(f.entries) + Contents(g.entries)
  {
    assert [f, g][0] == f && [f, g][1] == g;
  }

  lemma ContentsAre(a: Entry, b: Entry)
    ensures Contents([]) == {} && Contents([a]) == {a} && Contents([a, b]) == {a, b}
    ensures LevelContents([]) == {}
  {
    assert [a, b][0] == a && [a, b][1] == b;
  }

  lemma Contained()
    ensures StoreContents(states[13]) == {second, first, tombstone, hidden} && StoreContents(states[14]) == {second, hidden}
  {
    hide Contents, LevelContents, VersionContents, Levels, TableSize;
    LevelsContents([newer], [left, right]);
    LevelsContents([], [output, right]);
    OneFileContents(newer);
    TwoFileContents(left, right);
    TwoFileContents(output, right);
    ContentsAre(first, tombstone);
    ContentsAre(second, hidden);
    ContentsAre(hidden, hidden);
  }

  /**
   * Key 2.0 was deleted, and reads as deleted until the last compaction of the run; after it the old
   * value is back, with no snapshot held and no write in between. The code takes these steps: flushed
   * tables go where PickLevelForMemTableOutput puts them, no compaction is a trivial move, and outputs
   * are cut by size.
   */
  lemma DeletedKeyComesBack()
    ensures IsRun(states, steps) && steps[13].Compact? && states[13].snapshots == []
    ensures Read(StoreContents(states[13]), 2.0, 5) == None
    ensures Read(StoreContents(states[14]), 2.0, 5) == Some("v")
    ensures !TrapFree(states, steps)
    ensures forall i :: 0 <= i < |steps| ==> IsForced(states[i], steps[i])
    ensures forall i :: 0 <= i < |steps| && steps[i].Compact? ==> CutBySize(steps[i].outputs)
    ensures forall i {:trigger steps[i]} :: 0 <= i < |steps| && steps[i].Flush? ==>
      && |states[i].version| == NUM_LEVELS
      && IsPickedLevel(states[i].version, steps[i].table.smallest.user, steps[i].table.largest.user, MAX_GRANDPARENT_OVERLAP, steps[i].level)
  {
    hide StoreContents, Invariant, Next, SpringsNoTrap, Read, CutBySize, IsPickedLevel, IsForced, TableSize;
    ItIsARun();
    Contained();
    RunKeepsInvariant(states, steps, 13);
    CompactAndReads(states[13], steps[13], states[14]);
    ReadIsNewest({second, first, tombstone, hidden}, 2.0, 5, tombstone);
    ReadIsNewest({second, hidden}, 2.0, 5, hidden);
    CompactionsAreForced();
    CutsAreBySize();
    LevelsArePicked();
  }
}
