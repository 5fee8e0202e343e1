/** The database object: writes, flushes, compactions, snapshots and reads in place (db/db_impl). */
module DbImpl {
  import opened Common
  import opened DbFormat
  import opened VersionSet
  import opened CompactionInputs
  import opened CompactionWork
  import opened VersionBuilder
  import opened VersionChanges
  import opened CompactionStep
  import opened DbRun
  import opened DbReads
  import opened Manifest
  import Merger
  import opened DbIter
  import InternalIterators

  /** The two size heuristics that cut compaction outputs into files. */
  datatype CutOracle = CutOracle(stopBefore: nat -> bool, full: nat -> bool)

  class DB {
    var mem: seq<Entry>
    var imm: Option<seq<Entry>>
    var version: Version
    var lastSequence: nat
    var snapshots: seq<nat>
    var nextFileNumber: nat
    /** The records of the MANIFEST. */
    var manifest: seq<VersionEdit>

    constructor ()
      ensures State() == emptyStore && manifest == [Snapshot(emptyStore.version)]
    {
      mem, imm, version := [], None, [[], [], [], [], [], [], []];
      lastSequence, snapshots, nextFileNumber := 0, [], 2;
      manifest := [Snapshot([[], [], [], [], [], [], []])];
    }

    function State(): Store
      reads this
    {
      Store(mem, imm, version, lastSequence, snapshots, nextFileNumber)
    }

    /** DBImpl::Get: memtable, then immutable memtable, then the tables; the first hit decides. */
    method Get(k: UserKey, snapshot: nat) returns (r: Option<Bytes>)
      requires Invariant(State())
      ensures r == Read(StoreContents(State()), k, snapshot)
    {
      hide WellFormed, NumbersFit;
      var hit := MemTableGet(mem, k, snapshot);
      MemTableGetFinds(mem, k, snapshot);
      if hit.None? && imm.Some? {
        hit := MemTableGet(imm.value, k, snapshot);
        MemTableGetFinds(imm.value, k, snapshot);
      }
      if hit.None? {
        hit := VersionSet.Get(version, k, snapshot);
      }
      LayersDecide(Contents(mem), Contents(ImmEntries(State())), VersionContents(version), k, snapshot, hit);
      r := if hit.Some? && hit.value.key.kind.Value? then Some(hit.value.value) else None;
    }

    /**
     * DBImpl::NewIterator: it starts invalid, over exactly the entries of the store. What its moves
     * show is stated in module DbIter, in terms of the same Read that Get returns.
     */
    method NewIterator(snapshot: Option<nat>) returns (it: DBIter)
      requires Invariant(State())
      ensures fresh(it) && fresh(it.iter) && fresh(it.iter.merger) && fresh(it.iter.merger.position)
      ensures it.Ready() && !it.valid && it.All() == StoreContents(State())
      ensures it.sequence == if snapshot.Some? then snapshot.value else lastSequence
    {
      hide Invariant, StoreContents, Merger.Mergeable, Merger.Union, UniqueKeys;
      var children := InternalIterators.AddIterators(State());
      StoreIsUnique(State());
      ghost var entries := InternalIterators.SortedListing(StoreContents(State()));
      var internal := new InternalIterator(children, entries);
      it := new DBIter(internal, if snapshot.Some? then snapshot.value else lastSequence);
    }

    /** DBImpl::Write for one batch: the inserter numbers the operations as it adds them. */
    method Write(ops: seq<Operation>)
      requires Invariant(State()) && lastSequence + |ops| < MAX_SEQUENCE_NUMBER
      modifies this
      ensures Next(old(State()), Step.Write(ops), State()) && Invariant(State()) && manifest == old(manifest)
      ensures Shows(old(State()), ops, State())
      ensures forall k :: ShowsLast(old(State()), ops, State(), k)
    {
      hide Invariant, AddEntries, AddEntry, BatchEntries, Read, StoreContents, Shows, ShowsLast;
      ghost var batch := BatchEntries(ops, lastSequence + 1);
      var sequence := lastSequence + 1;
      AddEntriesStep(mem, ops, lastSequence + 1, 0);
      for i := 0 to |ops|
        invariant |batch| == |ops| && mem == AddEntries(old(mem), batch[..i]) && sequence == lastSequence + 1 + i
        invariant State() == old(State()).(mem := mem) && manifest == old(manifest)
      {
        AddEntriesStep(old(mem), ops, lastSequence + 1, i);
        mem := AddEntry(mem, EntryOf(ops[i], sequence));
        sequence := sequence + 1;
      }
      assert batch[..|ops|] == batch;
      lastSequence := lastSequence + |ops|;
      StepKeepsInvariant(old(State()), Step.Write(ops), State());
      WriteShows(old(State()), ops, State());
      forall k
        ensures ShowsLast(old(State()), ops, State(), k)
      {
        ReadYourWrites(old(State()), ops, State(), k);
      }
    }

    /** The switch in MakeRoomForWrite. */
    method SwitchMemTable()
      requires Invariant(State()) && imm.None?
      modifies this
      ensures Next(old(State()), Step.SwitchMemTable, State()) && Invariant(State()) && manifest == old(manifest)
    {
      hide Invariant;
      imm := Some(mem);
      mem := [];
      StepKeepsInvariant(old(State()), Step.SwitchMemTable, State());
    }

    method GetSnapshot() returns (snapshot: nat)
      requires Invariant(State())
      modifies this
      ensures Next(old(State()), TakeSnapshot, State()) && Invariant(State()) && manifest == old(manifest) && snapshot == lastSequence
    {
      hide Invariant;
      snapshot := lastSequence;
      snapshots := snapshots + [snapshot];
      StepKeepsInvariant(old(State()), TakeSnapshot, State());
    }

    method ReleaseSnapshot(index: nat)
      requires Invariant(State()) && index < |snapshots|
      modifies this
      ensures Next(old(State()), Step.ReleaseSnapshot(index), State()) && Invariant(State()) && manifest == old(manifest)
    {
      hide Invariant;
      snapshots := snapshots[..index] + snapshots[index + 1..];
      StepKeepsInvariant(old(State()), Step.ReleaseSnapshot(index), State());
    }

    /**
     * CompactMemTable: the immutable memtable becomes a table at the level PickLevelForMemTableOutput
     * chooses; an empty one just goes away.
     */
    method CompactMemTable(size: nat, overlapLimit: nat) returns (ghost step: Step)
      requires Invariant(State()) && imm.Some?
      modifies this
      ensures step.Flush? || step.FlushEmpty?
      ensures step.Flush? ==> step.table.size == size
      ensures step.Flush? ==>
        IsPickedLevel(old(version), step.table.smallest.user, step.table.largest.user, overlapLimit, step.level)
      ensures Next(old(State()), step, State()) && Invariant(State()) && manifest == old(manifest) + LoggedBy(step)
    {
      hide Invariant, Overlaps, WellFormed, VersionOk, EditFits, Applied, AddedTo, TotalFileSize, Overlapping;
      if imm.value == [] {
        imm := None;
        step := FlushEmpty;
      } else {
        var f := OutputFile(nextFileNumber, size, imm.value);
        InvariantIsVersionOk(State());
        FlushTableIsValid(State(), f);
        var level := PickLevelForMemTableOutput(version, f.smallest.user, f.largest.user, overlapLimit);
        var edit := VersionEdit({}, [(level, f)]);
        FlushEditFits(version, level, f);
        nextFileNumber := nextFileNumber + 1;
        LogAndApply(edit);
        FlushEditApplied(old(version), level, f, version);
        imm := None;
        step := Flush(level, f);
      }
      StepKeepsInvariant(old(State()), step, State());
    }

    /**
     * BackgroundCompaction on a chosen file: set up the inputs, then either move one file down or
     * merge, drop and install.
     */
    method BackgroundCompaction(level: nat, seed: FileMeta, expandedSizeLimit: nat, overlapLimit: nat,
                                fileSize: seq<Entry> -> nat, cuts: CutOracle)
      returns (ghost step: Step, ghost inputs0: seq<FileMeta>, ghost inputs1: seq<FileMeta>, ghost grandparents: seq<FileMeta>)
      requires Invariant(State()) && level + 1 < NUM_LEVELS && |version| == NUM_LEVELS && seed in version[level]
      modifies this
      ensures IsSetUp(old(version), level, Seeded(old(version), level, seed), expandedSizeLimit, inputs0, inputs1, grandparents)
      ensures if |inputs0| == 1 && inputs1 == [] && TotalFileSize(grandparents) <= overlapLimit then step == TrivialMove(level, seed)
              else step.Compact? && step.from == level && step.inputs0 == inputs0 && step.inputs1 == inputs1 && seed in inputs0
      ensures step.Compact? ==> CutAsTold(old(State()), step, cuts) && Sized(step.outputs, fileSize)
      ensures Next(old(State()), step, State()) && Invariant(State()) && manifest == old(manifest) + LoggedBy(step)
    {
      hide Invariant, ProperInputs, WellFormed, IsSetUp, Seeded, TotalFileSize, CutAsTold, Sized;
      InvariantIsVersionOk(State());
      var upper, lower, deeper := PickCompaction(version, level, seed, expandedSizeLimit);
      inputs0, inputs1, grandparents := upper, lower, deeper;
      if CompactionInputs.IsTrivialMove(upper, lower, deeper, overlapLimit) {
        var f := upper[0];
        assert upper == [f] && seed == f;
        var edit := VersionEdit({(level, f.number)}, [(level + 1, f)]);
        MoveEditFits(version, nextFileNumber, level, f);
        LogAndApply(edit);
        MoveEditApplied(old(version), nextFileNumber, level, f, version);
        step := Step.TrivialMove(level, f);
      } else {
        step := DoCompaction(level, upper, lower, fileSize, cuts);
      }
      StepKeepsInvariant(old(State()), step, State());
    }

    method DoCompaction(level: nat, inputs0: seq<FileMeta>, inputs1: seq<FileMeta>, fileSize: seq<Entry> -> nat, cuts: CutOracle)
      returns (ghost step: Step)
      requires Invariant(State()) && ProperInputs(version, level, inputs0, inputs1)
      requires if level == 0 then NoRepeats(inputs0) else Disjoint(inputs0)
      modifies this
      ensures step.Compact? && step.from == level && step.inputs0 == inputs0 && step.inputs1 == inputs1
      ensures CutAsTold(old(State()), step, cuts) && Sized(step.outputs, fileSize)
      ensures Next(old(State()), step, State()) && manifest == old(manifest) + LoggedBy(step)
    {
      hide Invariant, ProperInputs, WellFormed, NoRepeats, Disjoint, VersionOk, InputDeletions, OutputAdditions, EditFits, Applied;
      hide IsMerged, OutputsOf, Numbered, Replaced, CutWhereTold, Sized;
      InvariantIsVersionOk(State());
      InvariantBoundsSnapshot(State());
      var smallestSnapshot := if snapshots == [] then lastSequence else snapshots[0];
      var input, outputs := MergeAndCut(version, level, inputs0, inputs1, smallestSnapshot, nextFileNumber, fileSize, cuts);
      var edit := VersionEdit(InputDeletions(level, inputs0, inputs1), OutputAdditions(level + 1, outputs));
      InstallFits(version, nextFileNumber, level, inputs0, inputs1, outputs);
      nextFileNumber := nextFileNumber + |outputs|;
      LogAndApply(edit);
      InstallApplied(old(version), old(nextFileNumber), level, inputs0, inputs1, outputs, version);
      step := Compact(level, inputs0, inputs1, input, outputs);
    }

    /** VersionSet::LogAndApply: a builder over the current version, one edit, the saved version installed. */
    method LogAndApply(edit: VersionEdit)
      requires EditFits(version, edit)
      modifies this`version, this`manifest
      ensures Applied(old(version), edit, version) && manifest == old(manifest) + [edit]
    {
      hide InOrder, EditLevel;
      var builder := new Builder(version);
      FreshBuilderFits(version, edit);
      builder.Apply(edit);
      manifest := manifest + [edit];
      version := builder.SaveTo();
      forall l | 0 <= l < NUM_LEVELS
        ensures builder.Level(l) == EditLevel(Files(old(version[l])), edit, l)
      {
        LevelIsEdited(Files(old(version[l])), edit, l, Files(builder.addedFiles[l]), builder.deletedFiles[l]);
      }
    }
  }

  /** The outputs of a compaction step are cut where the two size rules say, and nowhere else. */
  ghost predicate CutAsTold(s: Store, step: Step, cuts: CutOracle)
    requires step.Compact?
  {
    CutWhereTold(step.input, SmallestSnapshot(s), BaseLevelKeys(s.version, step.from), cuts.stopBefore, cuts.full, step.outputs)
  }

  /** The merge loop of a compaction: children merged, entries dropped, outputs cut and numbered. */
  method MergeAndCut(version: Version, level: nat, inputs0: seq<FileMeta>, inputs1: seq<FileMeta>, smallestSnapshot: nat,
                     firstNumber: nat, fileSize: seq<Entry> -> nat, cuts: CutOracle)
    returns (input: seq<Entry>, outputs: seq<FileMeta>)
    requires WellFormed(version) && ProperInputs(version, level, inputs0, inputs1)
    requires if level == 0 then NoRepeats(inputs0) else Disjoint(inputs0)
    ensures IsMerged(input, inputs0, inputs1) && WellBuilt(outputs) && Numbered(outputs, firstNumber) && Sized(outputs, fileSize)
    ensures smallestSnapshot < MAX_SEQUENCE_NUMBER ==>
              && OutputsOf(version, level, input, smallestSnapshot, outputs)
              && CutWhereTold(input, smallestSnapshot, BaseLevelKeys(version, level), cuts.stopBefore, cuts.full, outputs)
  {
    ProperInputsLevel(version, level, inputs0, inputs1);
    hide WellFormed, ProperInputs, InputChildren, NoRepeats, Disjoint, Numbered, WellBuilt, Sorted, CutWhereTold, Sized;
    var children := InputChildren(level, inputs0, inputs1);
    ChildrenAreMergeable(version, level, inputs0, inputs1);
    input := Merger.MergeAll(children);
    ChildrenHoldInputs(level, inputs0, inputs1);
    var compaction := new Compaction(level, version);
    outputs := DoCompactionWork(compaction, input, smallestSnapshot, firstNumber, cuts.stopBefore, cuts.full, fileSize);
  }

  lemma ProperInputsLevel(v: Version, level: nat, inputs0: seq<FileMeta>, inputs1: seq<FileMeta>)
    requires ProperInputs(v, level, inputs0, inputs1)
    ensures level + 1 < NUM_LEVELS
  {
  }

  lemma StoreIsUnique(s: Store)
    requires Invariant(s)
    ensures UniqueKeys(StoreContents(s))
  {
  }

  lemma AddEntriesStep(mem: seq<Entry>, ops: seq<Operation>, first: nat, i: nat)
    requires i <= |ops|
    ensures |BatchEntries(ops, first)| == |ops| && AddEntries(mem, BatchEntries(ops, first)[..0]) == mem
    ensures i < |ops| ==> AddEntries(mem, BatchEntries(ops, first)[..i + 1]) ==
                          AddEntry(AddEntries(mem, BatchEntries(ops, first)[..i]), EntryOf(ops[i], first + i))
  {
    hide AddEntry, EntryOf;
    if i < |ops| {
      AddOneMore(mem, BatchEntries(ops, first), i);
    }
  }

  lemma AddOneMore(mem: seq<Entry>, batch: seq<Entry>, i: nat)
    requires i < |batch|
    ensures AddEntries(mem, batch[..i + 1]) == AddEntry(AddEntries(mem, batch[..i]), batch[i])
  {
    hide AddEntry;
    assert batch[..i + 1][..i] == batch[..i];
  }

  /** The seek in a memtable; an entry of another user key is no hit. */
  function MemTableGet(mem: seq<Entry>, k: UserKey, snapshot: nat): Option<Entry> {
    var i := SeekIndex(mem, LookupKey(k, snapshot));
    if i < |mem| && mem[i].key.user == k then Some(mem[i]) else None
  }

  lemma MemTableGetFinds(mem: seq<Entry>, k: UserKey, snapshot: nat)
    requires Sorted(mem)
    ensures match MemTableGet(mem, k, snapshot)
            case Some(e) => IsNewest(Contents(mem), k, snapshot, e)
            case None => NoneVisible(Contents(mem), k, snapshot)
  {
    var i := SeekIndex(mem, LookupKey(k, snapshot));
    forall e | e in mem && e.key.user == k && e.key.sequence <= snapshot
      ensures i < |mem| && mem[i].key.user == k && e.key.sequence <= mem[i].key.sequence
    {
      var j :| 0 <= j < |mem| && mem[j] == e;
      assert i <= j;
      if i < j {
        assert Before(mem[i].key, mem[j].key);
      }
    }
  }

  /** The first layer with a visible entry decides the read. */
  lemma LayersDecide(mem: set<Entry>, imm: set<Entry>, disk: set<Entry>, k: UserKey, snapshot: nat, hit: Option<Entry>)
    requires NewerThan(mem, imm) && NewerThan(mem, disk) && NewerThan(imm, disk) && UniqueKeys(mem + imm + disk)
    requires match hit
             case None => NoneVisible(mem, k, snapshot) && NoneVisible(imm, k, snapshot) && NoneVisible(disk, k, snapshot)
             case Some(e) =>
               || IsNewest(mem, k, snapshot, e)
               || (NoneVisible(mem, k, snapshot) && IsNewest(imm, k, snapshot, e))
               || (NoneVisible(mem, k, snapshot) && NoneVisible(imm, k, snapshot) && IsNewest(disk, k, snapshot, e))
    ensures Read(mem + imm + disk, k, snapshot) ==
            if hit.Some? && hit.value.key.kind.Value? then Some(hit.value.value) else None
  {
    if hit.Some? {
      assert IsNewest(mem + imm + disk, k, snapshot, hit.value);
      ReadIsNewest(mem + imm + disk, k, snapshot, hit.value);
    }
  }

  // ---------- edits ----------

  ghost predicate EditFits(v: Version, edit: VersionEdit) {
    && |v| == NUM_LEVELS && (forall l :: 0 <= l < NUM_LEVELS ==> InOrder(v[l]))
    && (forall d :: d in edit.deletedFiles ==> d.0 < NUM_LEVELS)
    && (forall a :: a in edit.newFiles ==> a.0 < NUM_LEVELS)
    && forall l :: 0 <= l < NUM_LEVELS ==>
      UniqueNumbers(Files(v[l]) + AddedAt(edit.newFiles, l)) && Files(v[l]) !! AddedAt(edit.newFiles, l)
  }

  ghost predicate Applied(v: Version, edit: VersionEdit, w: Version) {
    && |v| == |w| == NUM_LEVELS
    && forall l :: 0 <= l < NUM_LEVELS ==> InOrder(w[l]) && Files(w[l]) == EditLevel(Files(v[l]), edit, l)
  }

  lemma FreshBuilderFits(v: Version, edit: VersionEdit)
    requires EditFits(v, edit)
    ensures forall l :: 0 <= l < NUM_LEVELS ==> UniqueNumbers(Files([]) + AddedAt(edit.newFiles, l))
  {
    forall l | 0 <= l < NUM_LEVELS
      ensures UniqueNumbers(Files([]) + AddedAt(edit.newFiles, l))
    {
      assert Files([]) + AddedAt(edit.newFiles, l) <= Files(v[l]) + AddedAt(edit.newFiles, l);
    }
  }

  lemma LevelIsEdited(files: set<FileMeta>, edit: VersionEdit, l: nat, added: set<FileMeta>, deleted: set<nat>)
    requires added == Files([]) + AddedAt(edit.newFiles, l) && deleted == {} + DeletedAt(edit, l) - NumbersAt(edit.newFiles, l)
    ensures Surviving(files + added, deleted) == EditLevel(files, edit, l)
  {
    assert added == AddedAt(edit.newFiles, l) && deleted == DeletedAt(edit, l) - NumbersAt(edit.newFiles, l);
  }

  lemma InvariantIsVersionOk(s: Store)
    requires Invariant(s)
    ensures VersionOk(s.version, s.nextFile) && WellFormed(s.version) && |s.version| == NUM_LEVELS
  {
  }

  lemma InvariantBoundsSnapshot(s: Store)
    requires Invariant(s)
    ensures SmallestSnapshot(s) < MAX_SEQUENCE_NUMBER
  {
  }

  lemma FlushTableIsValid(s: Store, f: FileMeta)
    requires Invariant(s) && s.imm.Some? && s.imm.value != [] && f == OutputFile(s.nextFile, f.size, s.imm.value)
    ensures f.Valid() && f.smallest.user <= f.largest.user
  {
    FlushTable(s.mem, s.imm.value, VersionContents(s.version), s.lastSequence, f);
    FileBounds(f, f.entries[0]);
  }

  lemma FlushEditFits(v: Version, level: nat, f: FileMeta)
    requires |v| == NUM_LEVELS && VersionOk(v, f.number) && level < NUM_LEVELS
    ensures EditFits(v, VersionEdit({}, [(level, f)]))
  {
    hide WellFormed, InOrder;
    forall l | 0 <= l < NUM_LEVELS
      ensures UniqueNumbers(Files(v[l]) + AddedAt([(level, f)], l)) && Files(v[l]) !! AddedAt([(level, f)], l)
    {
      OneAddition(level, f, l);
    }
  }

  lemma FlushEditApplied(v: Version, level: nat, f: FileMeta, w: Version)
    requires Applied(v, VersionEdit({}, [(level, f)]), w) && level < NUM_LEVELS
    ensures AddedTo(v, level, f, w)
  {
    hide InOrder, EditLevel;
    forall l | 0 <= l < NUM_LEVELS
      ensures Files(w[l]) == Files(v[l]) + if l == level then {f} else {}
    {
      FlushEdits(v, level, f, l);
    }
  }

  lemma MoveEditApplied(v: Version, nextFile: nat, level: nat, f: FileMeta, w: Version)
    requires |v| == NUM_LEVELS && VersionOk(v, nextFile) && level + 1 < NUM_LEVELS && f in v[level]
    requires Applied(v, VersionEdit({(level, f.number)}, [(level + 1, f)]), w)
    ensures Replaced(v, level, [f], [], [f], w)
  {
    hide WellFormed, InOrder, EditLevel, NumbersFit;
    assert Files([f]) == {f} by { assert [f][0] == f; }
    assert Files([]) == {};
    forall l | 0 <= l < NUM_LEVELS
      ensures Files(w[l]) == if l == level then Files(v[l]) - {f} else if l == level + 1 then Files(v[l]) + {f} else Files(v[l])
    {
      MoveEdits(v, nextFile, level, f, l);
    }
  }

  lemma MoveEditFits(v: Version, nextFile: nat, level: nat, f: FileMeta)
    requires |v| == NUM_LEVELS && VersionOk(v, nextFile) && level + 1 < NUM_LEVELS && f in v[level]
    ensures EditFits(v, VersionEdit({(level, f.number)}, [(level + 1, f)]))
  {
    hide WellFormed, InOrder;
    forall l | 0 <= l < NUM_LEVELS
      ensures UniqueNumbers(Files(v[l]) + AddedAt([(level + 1, f)], l)) && Files(v[l]) !! AddedAt([(level + 1, f)], l)
    {
      OneAddition(level + 1, f, l);
    }
  }

  lemma InstallFits(v: Version, nextFile: nat, level: nat, inputs0: seq<FileMeta>, inputs1: seq<FileMeta>, outputs: seq<FileMeta>)
    requires VersionOk(v, nextFile) && ProperInputs(v, level, inputs0, inputs1) && Numbered(outputs, nextFile)
    ensures EditFits(v, VersionEdit(InputDeletions(level, inputs0, inputs1), OutputAdditions(level + 1, outputs)))
  {
    hide WellFormed, InOrder, LeavesOnlyNewer, Overlapping, SmallestOf, LargestOf, Numbered;
    var additions := OutputAdditions(level + 1, outputs);
    NumberedAreDistinct(outputs, nextFile);
    AdditionsAt(level + 1, outputs, level + 1);
    forall l | 0 <= l < NUM_LEVELS
      ensures UniqueNumbers(Files(v[l]) + AddedAt(additions, l)) && Files(v[l]) !! AddedAt(additions, l)
    {
      AdditionsAt(level + 1, outputs, l);
    }
  }

  lemma InstallApplied(v: Version, nextFile: nat, level: nat, inputs0: seq<FileMeta>, inputs1: seq<FileMeta>, outputs: seq<FileMeta>, w: Version)
    requires VersionOk(v, nextFile) && ProperInputs(v, level, inputs0, inputs1) && Numbered(outputs, nextFile)
    requires Applied(v, VersionEdit(InputDeletions(level, inputs0, inputs1), OutputAdditions(level + 1, outputs)), w)
    ensures Replaced(v, level, inputs0, inputs1, outputs, w)
  {
    hide WellFormed, InOrder, LeavesOnlyNewer, SmallestOf, LargestOf, Numbered, EditLevel, NumbersFit, InputDeletions, OutputAdditions;
    forall l | 0 <= l < NUM_LEVELS
      ensures Files(w[l]) == Files(v[l]) - Gone(level, inputs0, inputs1, l) + if l == level + 1 then Files(outputs) else {}
    {
      InstallEdits(v, nextFile, level, inputs0, inputs1, outputs, l);
    }
  }

  // ---------- the merged input ----------

  /** MakeInputIterator: one child per level-0 file, one concatenation per deeper level. */
  function InputChildren(level: nat, inputs0: seq<FileMeta>, inputs1: seq<FileMeta>): seq<seq<Entry>> {
    (if level == 0 then seq(|inputs0|, i requires 0 <= i < |inputs0| => inputs0[i].entries)
     else if inputs0 == [] then [] else [Concat(inputs0)])
    + if inputs1 == [] then [] else [Concat(inputs1)]
  }

  /** The file an entry of child `c` comes from. */
  lemma ChildPlace(v: Version, level: nat, inputs0: seq<FileMeta>, inputs1: seq<FileMeta>, c: nat, e: Entry)
    returns (m: nat, f: FileMeta)
    requires ProperInputs(v, level, inputs0, inputs1)
    requires c < |InputChildren(level, inputs0, inputs1)| && e in InputChildren(level, inputs0, inputs1)[c]
    ensures m < |v| && f in v[m] && e in f.entries
    ensures if m == level then
              (if level == 0 then c < |inputs0| && f == inputs0[c] else c == 0)
            else
              m == level + 1 && c == |InputChildren(level, inputs0, inputs1)| - 1
  {
    if level == 0 && c < |inputs0| {
      m, f := 0, inputs0[c];
    } else if level > 0 && c == 0 {
      ConcatInOutputs(inputs0, e);
      m := level;
      f :| f in inputs0 && e in f.entries;
    } else {
      ConcatInOutputs(inputs1, e);
      m := level + 1;
      f :| f in inputs1 && e in f.entries;
    }
  }

  lemma SameKeySameEntry(v: Version, l: nat, f: FileMeta, m: nat, g: FileMeta, d: Entry, e: Entry)
    requires UniqueKeys(VersionContents(v)) && l < |v| && m < |v| && f in v[l] && g in v[m] && d in f.entries && e in g.entries
    requires Compare(d.key, e.key) == 0
    ensures d == e
  {
    assert d in LevelContents(v[l]) && e in LevelContents(v[m]);
    assert d in VersionContents(v) && e in VersionContents(v);
  }

  lemma ChildrenApart(v: Version, level: nat, inputs0: seq<FileMeta>, inputs1: seq<FileMeta>, c: nat, d: nat, x: Entry, y: Entry)
    requires WellFormed(v) && ProperInputs(v, level, inputs0, inputs1) && (level == 0 ==> NoRepeats(inputs0))
    requires c < d < |InputChildren(level, inputs0, inputs1)|
    requires x in InputChildren(level, inputs0, inputs1)[c] && y in InputChildren(level, inputs0, inputs1)[d]
    ensures Compare(x.key, y.key) != 0
  {
    var l, f := ChildPlace(v, level, inputs0, inputs1, c, x);
    var m, g := ChildPlace(v, level, inputs0, inputs1, d, y);
    hide WellFormed, ProperInputs, InputChildren;
    if Compare(x.key, y.key) == 0 {
      SameKeySameEntry(v, l, f, m, g, x, y) by { WellFormedIsUnique(v); }
      if l <= m {
        OnePlace(v, l, f, m, g, x);
      } else {
        OnePlace(v, m, g, l, f, x);
      }
    }
  }

  lemma WellFormedIsUnique(v: Version)
    requires WellFormed(v)
    ensures UniqueKeys(VersionContents(v))
  {
  }

  lemma ChildrenAreSorted(v: Version, level: nat, inputs0: seq<FileMeta>, inputs1: seq<FileMeta>, c: nat)
    requires WellFormed(v) && ProperInputs(v, level, inputs0, inputs1) && (level > 0 ==> Disjoint(inputs0))
    requires c < |InputChildren(level, inputs0, inputs1)|
    ensures Sorted(InputChildren(level, inputs0, inputs1)[c])
  {
    hide LeavesOnlyNewer, SmallestOf, LargestOf, LevelsOrdered, LevelZeroOrder, UniqueKeys;
    if level == 0 && c < |inputs0| {
      assert inputs0[c] in v[0] && inputs0[c].Valid();
    } else if level > 0 && c == 0 {
      ConcatIsSorted(inputs0);
    } else {
      OverlappingKeepsOrder(v[level + 1], Some(SmallestOf(inputs0).user), Some(LargestOf(inputs0).user));
      ConcatIsSorted(inputs1);
    }
  }

  lemma ChildrenAreMergeable(v: Version, level: nat, inputs0: seq<FileMeta>, inputs1: seq<FileMeta>)
    requires WellFormed(v) && ProperInputs(v, level, inputs0, inputs1)
    requires if level == 0 then NoRepeats(inputs0) else Disjoint(inputs0)
    ensures Merger.Mergeable(InputChildren(level, inputs0, inputs1))
  {
    hide WellFormed, ProperInputs, InputChildren, Sorted, NoRepeats, Disjoint;
    var children := InputChildren(level, inputs0, inputs1);
    forall c | 0 <= c < |children|
      ensures Sorted(children[c])
    {
      ChildrenAreSorted(v, level, inputs0, inputs1, c);
    }
    forall c, d, i, j | 0 <= c < d < |children| && 0 <= i < |children[c]| && 0 <= j < |children[d]|
      ensures Compare(children[c][i].key, children[d][j].key) != 0
    {
      ChildrenApart(v, level, inputs0, inputs1, c, d, children[c][i], children[d][j]);
    }
  }

  lemma ChildrenHoldInputs(level: nat, inputs0: seq<FileMeta>, inputs1: seq<FileMeta>)
    ensures Merger.Union(InputChildren(level, inputs0, inputs1)) == LevelContents(inputs0) + LevelContents(inputs1)
  {
    var children := InputChildren(level, inputs0, inputs1);
    ConcatContents(inputs0);
    ConcatContents(inputs1);
    forall e | e in Merger.Union(children)
      ensures e in LevelContents(inputs0) + LevelContents(inputs1)
    {
      var c, j := Merger.FromUnion(children, e);
      if level == 0 && c < |inputs0| {
        assert inputs0[c] in inputs0;
      }
    }
    forall f, e | f in inputs0 && e in f.entries
      ensures e in Merger.Union(children)
    {
      if level == 0 {
        var i :| 0 <= i < |inputs0| && inputs0[i] == f;
        assert children[i] == f.entries;
      } else {
        assert children[0] == Concat(inputs0) && e in Contents(Concat(inputs0));
      }
    }
    forall e | e in LevelContents(inputs1)
      ensures e in Merger.Union(children)
    {
      assert children[|children| - 1] == Concat(inputs1) && e in Contents(Concat(inputs1));
    }
  }
}
