/** The store as a state machine, and what holds along every run of it. */
module DbRun {
  import opened Common
  import opened DbFormat
  import opened VersionSet
  import opened CompactionInputs
  import opened CompactionWork
  import opened CompactionReads
  import opened VersionBuilder
  import opened VersionChanges
  import opened CompactionStep

  /** Memtables are sorted by internal key; `snapshots` are the live snapshots, oldest first. */
  datatype Store = Store(mem: seq<Entry>, imm: Option<seq<Entry>>, version: Version,
                         lastSequence: nat, snapshots: seq<nat>, nextFile: nat)

  datatype Operation = Put(user: UserKey, value: Bytes) | Delete(user: UserKey)

  function ImmEntries(s: Store): seq<Entry> {
    if s.imm.Some? then s.imm.value else []
  }

  function StoreContents(s: Store): set<Entry> {
    Contents(s.mem) + Contents(ImmEntries(s)) + VersionContents(s.version)
  }

  /** The oldest sequence number a reader may still ask for: what a compaction takes as smallest snapshot. */
  function SmallestSnapshot(s: Store): nat {
    if s.snapshots == [] then s.lastSequence else s.snapshots[0]
  }

  // ---------- invariant ----------

  ghost predicate NumbersFit(v: Version, nextFile: nat) {
    && (forall l, f :: 0 <= l < |v| && f in v[l] ==> f.number < nextFile)
    && forall l, m, f, g :: 0 <= l < |v| && 0 <= m < |v| && f in v[l] && g in v[m] && f.number == g.number ==> l == m && f == g
  }

  ghost predicate SequencesUpTo(s: set<Entry>, last: nat) {
    forall e :: e in s ==> e.key.sequence <= last
  }

  ghost predicate SnapshotsInOrder(snapshots: seq<nat>, last: nat) {
    && (forall i, j :: 0 <= i <= j < |snapshots| ==> snapshots[i] <= snapshots[j])
    && forall i :: 0 <= i < |snapshots| ==> snapshots[i] <= last
  }

  ghost predicate VersionOk(v: Version, nextFile: nat) {
    WellFormed(v) && (forall l :: 0 <= l < NUM_LEVELS ==> InOrder(v[l])) && NumbersFit(v, nextFile)
  }

  /** Memtable over immutable memtable over tables, each strictly newer on shared user keys. */
  ghost predicate MemoryOk(mem: seq<Entry>, imm: seq<Entry>, disk: set<Entry>, last: nat) {
    && Sorted(mem) && Sorted(imm)
    && NewerThan(Contents(mem), Contents(imm)) && NewerThan(Contents(mem), disk) && NewerThan(Contents(imm), disk)
    && UniqueKeys(Contents(mem) + Contents(imm) + disk) && SequencesUpTo(Contents(mem) + Contents(imm) + disk, last)
  }

  ghost predicate Invariant(s: Store) {
    && VersionOk(s.version, s.nextFile)
    && MemoryOk(s.mem, ImmEntries(s), VersionContents(s.version), s.lastSequence)
    && s.lastSequence < MAX_SEQUENCE_NUMBER && SnapshotsInOrder(s.snapshots, s.lastSequence)
  }

  // ---------- steps ----------

  function EntryOf(op: Operation, sequence: nat): Entry {
    match op
    case Put(user, value) => Entry(InternalKey(user, sequence, Value), value)
    case Delete(user) => Entry(InternalKey(user, sequence, Deletion), "")
  }

  /** The entries a batch writes when its first operation gets sequence number `first`. */
  function BatchEntries(ops: seq<Operation>, first: nat): seq<Entry> {
    seq(|ops|, i requires 0 <= i < |ops| => EntryOf(ops[i], first + i))
  }

  /** MemTable::Add into the sorted table. */
  function AddEntry(mem: seq<Entry>, e: Entry): seq<Entry> {
    var i := SeekIndex(mem, e.key);
    mem[..i] + [e] + mem[i..]
  }

  function AddEntries(mem: seq<Entry>, entries: seq<Entry>): seq<Entry> {
    if entries == [] then mem else AddEntry(AddEntries(mem, entries[..|entries| - 1]), entries[|entries| - 1])
  }

  /** A flushed table added to a level. */
  ghost predicate AddedTo(v: Version, level: nat, f: FileMeta, w: Version) {
    && |v| == |w| == NUM_LEVELS && level < NUM_LEVELS
    && (forall l :: 0 <= l < NUM_LEVELS ==> InOrder(w[l]))
    && forall l :: 0 <= l < NUM_LEVELS ==> Files(w[l]) == Files(v[l]) + if l == level then {f} else {}
  }

  /** Where a flushed table may go: nothing at its level or above overlaps it, except at level 0. */
  ghost predicate MaySinkTo(v: Version, level: nat, f: FileMeta) {
    && |v| == NUM_LEVELS && level < NUM_LEVELS
    && (0 < level ==> forall l, g :: 0 <= l <= level && g in v[l] ==> !Overlaps(g, f.smallest.user, f.largest.user))
  }

  datatype Step =
    | Write(ops: seq<Operation>)
    | SwitchMemTable
    | FlushEmpty
    | Flush(level: nat, table: FileMeta)
    | Compact(from: nat, inputs0: seq<FileMeta>, inputs1: seq<FileMeta>, input: seq<Entry>, outputs: seq<FileMeta>)
    | TrivialMove(from: nat, file: FileMeta)
    | TakeSnapshot
    | ReleaseSnapshot(index: nat)

  /** One atomic step of the store. */
  ghost predicate Next(s: Store, step: Step, t: Store) {
    match step
    case Write(ops) =>
      && s.lastSequence + |ops| < MAX_SEQUENCE_NUMBER
      && t == s.(mem := AddEntries(s.mem, BatchEntries(ops, s.lastSequence + 1)), lastSequence := s.lastSequence + |ops|)
    case SwitchMemTable =>
      s.imm.None? && t == s.(mem := [], imm := Some(s.mem))
    case FlushEmpty =>
      s.imm == Some([]) && t == s.(imm := None)
    case Flush(level, f) =>
      && s.imm.Some? && s.imm.value != []
      && f == OutputFile(s.nextFile, f.size, s.imm.value) && MaySinkTo(s.version, level, f)
      && AddedTo(s.version, level, f, t.version)
      && t == s.(imm := None, version := t.version, nextFile := s.nextFile + 1)
    case Compact(level, inputs0, inputs1, input, outputs) =>
      && ProperInputs(s.version, level, inputs0, inputs1) && IsMerged(input, inputs0, inputs1)
      && OutputsOf(s.version, level, input, SmallestSnapshot(s), outputs) && Numbered(outputs, s.nextFile)
      && Replaced(s.version, level, inputs0, inputs1, outputs, t.version)
      && t == s.(version := t.version, nextFile := s.nextFile + |outputs|)
    case TrivialMove(level, f) =>
      && ProperInputs(s.version, level, [f], []) && Replaced(s.version, level, [f], [], [f], t.version)
      && t == s.(version := t.version)
    case TakeSnapshot =>
      t == s.(snapshots := s.snapshots + [s.lastSequence])
    case ReleaseSnapshot(i) =>
      i < |s.snapshots| && t == s.(snapshots := s.snapshots[..i] + s.snapshots[i + 1..])
  }

  const emptyStore: Store := Store([], None, [[], [], [], [], [], [], []], 0, [], 2)

  // ---------- the invariant is kept ----------

  lemma EmptyVersionOk(v: Version)
    requires |v| == NUM_LEVELS && forall l :: 0 <= l < NUM_LEVELS ==> v[l] == []
    ensures VersionOk(v, 2) && VersionContents(v) == {}
  {
    hide WellFormed, InOrder, NumbersFit;
    EmptyVersionWellFormed(v);
    EmptyVersionNumbers(v);
    assert forall l :: 0 <= l < NUM_LEVELS ==> InOrder(v[l]) by { EmptyInOrder(); }
  }

  lemma EmptyInOrder()
    ensures InOrder([])
  {
  }

  lemma EmptyVersionNumbers(v: Version)
    requires |v| == NUM_LEVELS && forall l :: 0 <= l < NUM_LEVELS ==> v[l] == []
    ensures NumbersFit(v, 2)
  {
  }

  lemma EmptyVersionWellFormed(v: Version)
    requires |v| == NUM_LEVELS && forall l :: 0 <= l < NUM_LEVELS ==> v[l] == []
    ensures WellFormed(v) && VersionContents(v) == {}
  {
    hide UniqueKeys;
    assert forall l :: 0 <= l < NUM_LEVELS ==> LevelContents(v[l]) == {};
    assert VersionContents(v) == {};
    EmptyUniqueKeys();
  }

  lemma EmptyUniqueKeys()
    ensures UniqueKeys({})
  {
  }

  lemma EmptyStoreOk()
    ensures Invariant(emptyStore) && StoreContents(emptyStore) == {}
  {
    hide VersionOk;
    EmptyVersionOk(emptyStore.version);
  }

  lemma AddEntryAfter(mem: seq<Entry>, e: Entry, j: nat)
    requires Sorted(mem) && SeekIndex(mem, e.key) <= j < |mem|
    requires mem[SeekIndex(mem, e.key)].key.user == e.key.user ==> mem[SeekIndex(mem, e.key)].key.sequence != e.key.sequence
    ensures Before(e.key, mem[j].key)
  {
    hide SeekIndex, Before, Sorted;
    var i := SeekIndex(mem, e.key);
    NotBeforeIsAfter(mem[i].key, e.key);
    if i < j {
      SortedAt(mem, i, j);
      BeforeThenBefore(e.key, mem[i].key, mem[j].key);
    }
  }

  lemma NotBeforeIsAfter(a: InternalKey, b: InternalKey)
    requires !Before(a, b) && (a.user == b.user ==> a.sequence != b.sequence)
    ensures Before(b, a)
  {
  }

  lemma SortedAt(s: seq<Entry>, i: nat, j: nat)
    requires Sorted(s) && i < j < |s|
    ensures Before(s[i].key, s[j].key)
  {
  }

  lemma BeforeThenBefore(a: InternalKey, b: InternalKey, c: InternalKey)
    requires Before(a, b) && Before(b, c)
    ensures Before(a, c)
  {
  }

  lemma AddEntrySorted(mem: seq<Entry>, e: Entry)
    requires Sorted(mem) && forall i :: 0 <= i < |mem| && mem[i].key.user == e.key.user ==> mem[i].key.sequence != e.key.sequence
    ensures Sorted(AddEntry(mem, e))
  {
    var i := SeekIndex(mem, e.key);
    var r := AddEntry(mem, e);
    forall a, b | 0 <= a < b < |r|
      ensures Before(r[a].key, r[b].key)
    {
      if a == i {
        AddEntryAfter(mem, e, b - 1);
      } else if b != i {
        var a', b' := if a < i then a else a - 1, if b < i then b else b - 1;
        assert r[a] == mem[a'] && r[b] == mem[b'] && Before(mem[a'].key, mem[b'].key);
      }
    }
  }

  lemma AddEntryIs(mem: seq<Entry>, e: Entry)
    requires Sorted(mem) && forall d :: d in mem && d.key.user == e.key.user ==> d.key.sequence != e.key.sequence
    ensures Sorted(AddEntry(mem, e)) && Contents(AddEntry(mem, e)) == Contents(mem) + {e}
  {
    AddEntrySorted(mem, e);
    AddEntryContents(mem, e);
  }

  lemma AddEntryContents(mem: seq<Entry>, e: Entry)
    ensures Contents(AddEntry(mem, e)) == Contents(mem) + {e}
  {
    var i := SeekIndex(mem, e.key);
    assert mem == mem[..i] + mem[i..];
    assert forall d :: d in AddEntry(mem, e) <==> d in mem[..i] || d == e || d in mem[i..];
  }

  lemma {:induction false} AddEntriesIs(mem: seq<Entry>, entries: seq<Entry>)
    requires Sorted(mem)
    requires forall i, j :: 0 <= i < j < |entries| ==> entries[i].key.sequence < entries[j].key.sequence
    requires forall d, i :: d in mem && 0 <= i < |entries| ==> d.key.sequence < entries[i].key.sequence
    ensures Sorted(AddEntries(mem, entries)) && Contents(AddEntries(mem, entries)) == Contents(mem) + Contents(entries)
  {
    hide Sorted, AddEntry;
    if entries != [] {
      var n := |entries| - 1;
      AddEntriesIs(mem, entries[..n]);
      var part := AddEntries(mem, entries[..n]);
      forall d | d in part
        ensures d.key.sequence < entries[n].key.sequence
      {
        assert d in Contents(part);
      }
      AddEntryIs(part, entries[n]);
      PrefixStep(entries, n);
    } else {
      assert Contents(entries) == {};
    }
  }

  lemma BatchIs(ops: seq<Operation>, first: nat)
    ensures forall e :: e in Contents(BatchEntries(ops, first)) ==> first <= e.key.sequence < first + |ops|
    ensures UniqueKeys(Contents(BatchEntries(ops, first)))
    ensures forall e :: e in Contents(BatchEntries(ops, first)) && e.key.kind.Deletion? ==> e.value == ""
  {
  }

  lemma BatchOnTop(mem: set<Entry>, imm: set<Entry>, disk: set<Entry>, batch: set<Entry>, last: nat, n: nat)
    requires NewerThan(mem, imm) && NewerThan(mem, disk)
    requires UniqueKeys(mem + imm + disk) && SequencesUpTo(mem + imm + disk, last)
    requires UniqueKeys(batch) && forall e :: e in batch ==> last < e.key.sequence <= last + n
    ensures NewerThan(mem + batch, imm) && NewerThan(mem + batch, disk)
    ensures UniqueKeys(mem + batch + imm + disk) && SequencesUpTo(mem + batch + imm + disk, last + n)
  {
    forall e | e in mem + imm + disk
      ensures e.key.sequence <= last
    {
    }
  }

  lemma MemoryAfterWrite(mem: seq<Entry>, imm: seq<Entry>, disk: set<Entry>, last: nat, ops: seq<Operation>)
    requires MemoryOk(mem, imm, disk, last)
    ensures var mem' := AddEntries(mem, BatchEntries(ops, last + 1));
            MemoryOk(mem', imm, disk, last + |ops|) && Contents(mem') == Contents(mem) + Contents(BatchEntries(ops, last + 1))
  {
    var batch := BatchEntries(ops, last + 1);
    BatchIs(ops, last + 1);
    BatchFits(mem, imm, disk, last, batch);
    AddEntriesIs(mem, batch);
    BatchOnTop(Contents(mem), Contents(imm), disk, Contents(batch), last, |ops|);
  }

  lemma BatchFits(mem: seq<Entry>, imm: seq<Entry>, disk: set<Entry>, last: nat, batch: seq<Entry>)
    requires SequencesUpTo(Contents(mem) + Contents(imm) + disk, last)
    requires forall i :: 0 <= i < |batch| ==> batch[i].key.sequence == last + 1 + i
    ensures forall d, i :: d in mem && 0 <= i < |batch| ==> d.key.sequence < batch[i].key.sequence
    ensures forall i, j :: 0 <= i < j < |batch| ==> batch[i].key.sequence < batch[j].key.sequence
  {
    forall d | d in mem
      ensures d.key.sequence <= last
    {
      assert d in Contents(mem);
    }
  }

  lemma WriteKeepsInvariant(s: Store, ops: seq<Operation>, t: Store)
    requires Invariant(s) && Next(s, Write(ops), t)
    ensures Invariant(t) && StoreContents(t) == StoreContents(s) + Contents(BatchEntries(ops, s.lastSequence + 1))
  {
    hide VersionOk, MemoryOk;
    hide AddEntries, BatchEntries;
    MemoryAfterWrite(s.mem, ImmEntries(s), VersionContents(s.version), s.lastSequence, ops);
  }

  lemma SwitchKeepsInvariant(s: Store, t: Store)
    requires Invariant(s) && Next(s, SwitchMemTable, t)
    ensures Invariant(t) && StoreContents(t) == StoreContents(s)
  {
  }

  // ---------- flush ----------

  /** A new table that overlaps nothing down to its level slots in between its neighbours. */
  lemma AddedLevelIsDisjoint(files: seq<FileMeta>, f: FileMeta, r: seq<FileMeta>)
    requires ValidFiles(files) && Disjoint(files) && f.Valid() && InOrder(r) && Files(r) == Files(files) + {f}
    requires forall g :: g in files ==> !Overlaps(g, f.smallest.user, f.largest.user)
    ensures ValidFiles(r) && Disjoint(r)
  {
    forall g | g in r
      ensures g == f || g in files
    {
      assert g in Files(r);
    }
    forall g, h | g in r && h in r && g != h
      ensures Apart(g, h)
    {
      if g != f && h != f {
        DisjointAreApart(files, g, h);
      } else if g == f {
        assert !Overlaps(h, f.smallest.user, f.largest.user);
      } else {
        assert !Overlaps(g, f.smallest.user, f.largest.user);
      }
    }
    ApartInOrderIsDisjoint(r);
  }

  lemma AddedLevelZero(files: seq<FileMeta>, f: FileMeta, r: seq<FileMeta>)
    requires LevelZeroOrder(files) && ValidFiles(files) && f.Valid() && Files(r) == Files(files) + {f}
    requires NewerThan(Contents(f.entries), LevelContents(files))
    requires forall g :: g in files ==> g.number < f.number
    ensures ValidFiles(r) && LevelZeroOrder(r)
  {
    forall g | g in r
      ensures g == f || g in files
    {
      assert g in Files(r);
    }
    forall g | g in files
      ensures NewerThan(Contents(f.entries), Contents(g.entries))
    {
      assert Contents(g.entries) <= LevelContents(files);
    }
  }

  lemma AddedContents(files: seq<FileMeta>, f: FileMeta, r: seq<FileMeta>)
    requires Files(r) == Files(files) + {f}
    ensures LevelContents(r) == LevelContents(files) + Contents(f.entries)
  {
    assert forall g :: g in r <==> g in Files(r);
    assert forall g :: g in files ==> g in Files(files);
    assert f in Files(r);
  }

  lemma SameContents(files: seq<FileMeta>, r: seq<FileMeta>)
    requires Files(r) == Files(files)
    ensures LevelContents(r) == LevelContents(files)
  {
    assert forall g :: g in r <==> g in Files(r);
    assert forall g :: g in files <==> g in Files(files);
  }

  lemma AddedLevels(v: Version, level: nat, f: FileMeta, w: Version)
    requires AddedTo(v, level, f, w)
    ensures forall l :: 0 <= l < NUM_LEVELS && l != level ==> LevelContents(w[l]) == LevelContents(v[l])
    ensures LevelContents(w[level]) == LevelContents(v[level]) + Contents(f.entries)
    ensures VersionContents(w) == VersionContents(v) + Contents(f.entries)
  {
    forall l | 0 <= l < NUM_LEVELS && l != level
      ensures LevelContents(w[l]) == LevelContents(v[l])
    {
      SameContents(v[l], w[l]);
    }
    AddedContents(v[level], f, w[level]);
    forall l, e | 0 <= l < NUM_LEVELS && e in LevelContents(w[l])
      ensures e in VersionContents(v) + Contents(f.entries)
    {
    }
    forall l, e | 0 <= l < NUM_LEVELS && e in LevelContents(v[l])
      ensures e in VersionContents(w)
    {
      assert e in LevelContents(w[l]);
    }
    forall e | e in Contents(f.entries)
      ensures e in VersionContents(w)
    {
      assert e in LevelContents(w[level]);
    }
  }

  /** A shallower level that does not overlap the table shares no user key with it. */
  lemma NoOverlapNoSharedKey(files: seq<FileMeta>, f: FileMeta)
    requires ValidFiles(files) && f.Valid()
    requires forall g :: g in files ==> !Overlaps(g, f.smallest.user, f.largest.user)
    ensures NewerThan(LevelContents(files), Contents(f.entries))
  {
    forall g, d, e | g in files && d in g.entries && e in f.entries
      ensures d.key.user != e.key.user
    {
      FileBounds(g, d);
      FileBounds(f, e);
      assert !Overlaps(g, f.smallest.user, f.largest.user);
    }
  }

  lemma LevelInVersion(v: Version, l: nat)
    requires l < |v|
    ensures LevelContents(v[l]) <= VersionContents(v)
  {
  }

  lemma AddedLevelsOrdered(v: Version, level: nat, f: FileMeta, w: Version, l: nat, m: nat)
    requires WellFormed(v) && AddedTo(v, level, f, w) && MaySinkTo(v, level, f) && f.Valid()
    requires NewerThan(Contents(f.entries), VersionContents(v)) && l < m < NUM_LEVELS
    ensures NewerThan(LevelContents(w[l]), LevelContents(w[m]))
  {
    hide AddedTo, LevelContents, VersionContents, InOrder;
    AddedLevels(v, level, f, w);
    assert NewerThan(LevelContents(v[l]), LevelContents(v[m]));
    if m == level {
      NoOverlapNoSharedKey(v[l], f);
    } else if l == level {
      LevelInVersion(v, m);
    }
  }

  lemma AddedIsWellFormed(v: Version, level: nat, f: FileMeta, w: Version)
    requires WellFormed(v) && AddedTo(v, level, f, w) && MaySinkTo(v, level, f) && f.Valid()
    requires NewerThan(Contents(f.entries), VersionContents(v)) && UniqueKeys(VersionContents(v) + Contents(f.entries))
    requires forall l, g :: 0 <= l < NUM_LEVELS && g in v[l] ==> g.number < f.number
    ensures WellFormed(w)
  {
    AddedLevels(v, level, f, w);
    forall l, m | 0 <= l < m < NUM_LEVELS
      ensures NewerThan(LevelContents(w[l]), LevelContents(w[m]))
    {
      AddedLevelsOrdered(v, level, f, w, l, m);
    }
    forall l | 0 <= l < NUM_LEVELS
      ensures ValidFiles(w[l]) && (l > 0 ==> Disjoint(w[l])) && (l == 0 ==> LevelZeroOrder(w[l]))
    {
      if l != level {
        SameFiles(w[l], v[l]);
      } else if l > 0 {
        AddedLevelIsDisjoint(v[l], f, w[l]);
      } else {
        assert LevelContents(v[0]) <= VersionContents(v);
        AddedLevelZero(v[0], f, w[0]);
      }
    }
  }

  lemma ImmIsTable(imm: seq<Entry>, number: nat, size: nat)
    requires imm != [] && Sorted(imm) && SequencesUpTo(Contents(imm), MAX_SEQUENCE_NUMBER)
    ensures OutputFile(number, size, imm).Valid()
  {
    assert forall e :: e in imm ==> e in Contents(imm);
  }

  lemma AddedNumbers(v: Version, level: nat, f: FileMeta, w: Version)
    requires AddedTo(v, level, f, w) && NumbersFit(v, f.number)
    ensures NumbersFit(w, f.number + 1)
  {
    hide InOrder;
    forall l, g | 0 <= l < NUM_LEVELS && g in w[l]
      ensures g in v[l] || (l == level && g == f)
    {
      assert g in Files(w[l]);
    }
  }

  lemma FlushVersion(mem: seq<Entry>, imm: seq<Entry>, v: Version, level: nat, f: FileMeta, w: Version, last: nat)
    requires VersionOk(v, f.number) && MemoryOk(mem, imm, VersionContents(v), last) && last < MAX_SEQUENCE_NUMBER
    requires imm != [] && f == OutputFile(f.number, f.size, imm) && MaySinkTo(v, level, f) && AddedTo(v, level, f, w)
    ensures VersionOk(w, f.number + 1) && VersionContents(w) == VersionContents(v) + Contents(imm)
  {
    hide InOrder, WellFormed, UniqueKeys, NewerThan, MaySinkTo, VersionContents, LevelContents, Sorted, MemoryOk;
    FlushTable(mem, imm, VersionContents(v), last, f);
    AddedLevels(v, level, f, w);
    AddedNumbers(v, level, f, w);
    AddedIsWellFormed(v, level, f, w);
  }

  lemma FlushTable(mem: seq<Entry>, imm: seq<Entry>, disk: set<Entry>, last: nat, f: FileMeta)
    requires MemoryOk(mem, imm, disk, last) && last < MAX_SEQUENCE_NUMBER
    requires imm != [] && f == OutputFile(f.number, f.size, imm)
    ensures f.Valid() && f.entries == imm && NewerThan(Contents(imm), disk) && UniqueKeys(disk + Contents(imm))
  {
    ImmIsTable(imm, f.number, f.size);
  }

  lemma FlushMemory(mem: seq<Entry>, imm: seq<Entry>, disk: set<Entry>, last: nat)
    requires MemoryOk(mem, imm, disk, last)
    ensures MemoryOk(mem, [], disk + Contents(imm), last)
  {
    assert Contents(mem) + Contents([]) + (disk + Contents(imm)) == Contents(mem) + Contents(imm) + disk;
  }

  lemma FlushKeepsInvariant(s: Store, level: nat, f: FileMeta, t: Store)
    requires Invariant(s) && Next(s, Flush(level, f), t)
    ensures Invariant(t) && StoreContents(t) == StoreContents(s)
  {
    hide VersionOk, MemoryOk, AddedTo, MaySinkTo;
    FlushVersion(s.mem, s.imm.value, s.version, level, f, t.version, s.lastSequence);
    FlushMemory(s.mem, s.imm.value, VersionContents(s.version), s.lastSequence);
  }

  // ---------- compaction and trivial move ----------

  lemma {:induction false} NumberedAreDistinct(outputs: seq<FileMeta>, nextFile: nat)
    requires Numbered(outputs, nextFile)
    ensures forall f :: f in outputs ==> nextFile <= f.number < nextFile + |outputs|
    ensures UniqueNumbers(Files(outputs))
  {
  }

  lemma ReplacedNumbers(v: Version, level: nat, inputs0: seq<FileMeta>, inputs1: seq<FileMeta>, outputs: seq<FileMeta>, w: Version, nextFile: nat)
    requires Replaced(v, level, inputs0, inputs1, outputs, w) && NumbersFit(v, nextFile) && Numbered(outputs, nextFile)
    ensures NumbersFit(w, nextFile + |outputs|)
  {
    hide InOrder, Numbered;
    NumberedAreDistinct(outputs, nextFile);
    forall l, g | 0 <= l < NUM_LEVELS && g in w[l]
      ensures (g in v[l] && g.number < nextFile) || (l == level + 1 && g in Files(outputs) && nextFile <= g.number < nextFile + |outputs|)
    {
      assert g in Files(w[l]);
    }
  }

  lemma MemoryOverLess(mem: seq<Entry>, imm: seq<Entry>, disk: set<Entry>, disk': set<Entry>, last: nat)
    requires MemoryOk(mem, imm, disk, last) && disk' <= disk
    ensures MemoryOk(mem, imm, disk', last)
  {
  }

  lemma CompactVersion(v: Version, nextFile: nat, level: nat, inputs0: seq<FileMeta>, inputs1: seq<FileMeta>, input: seq<Entry>,
                       smallestSnapshot: nat, outputs: seq<FileMeta>, w: Version)
    requires VersionOk(v, nextFile) && ProperInputs(v, level, inputs0, inputs1) && IsMerged(input, inputs0, inputs1)
    requires OutputsOf(v, level, input, smallestSnapshot, outputs) && Numbered(outputs, nextFile)
    requires Replaced(v, level, inputs0, inputs1, outputs, w)
    ensures VersionOk(w, nextFile + |outputs|) && VersionContents(w) <= VersionContents(v)
  {
    CompactionKeepsLevelOrder(v, level, inputs0, inputs1, input, smallestSnapshot, outputs, w);
    ReplacedNumbers(v, level, inputs0, inputs1, outputs, w, nextFile);
  }

  lemma CompactKeepsInvariant(s: Store, step: Step, t: Store)
    requires step.Compact? && Invariant(s) && Next(s, step, t)
    ensures Invariant(t) && VersionContents(t.version) <= VersionContents(s.version)
  {
    hide VersionOk, MemoryOk, ProperInputs, IsMerged, OutputsOf, Replaced;
    CompactVersion(s.version, s.nextFile, step.from, step.inputs0, step.inputs1, step.input, SmallestSnapshot(s), step.outputs, t.version);
    MemoryOverLess(s.mem, ImmEntries(s), VersionContents(s.version), VersionContents(t.version), s.lastSequence);
  }

  lemma MovedNumbers(v: Version, level: nat, f: FileMeta, w: Version, nextFile: nat)
    requires Replaced(v, level, [f], [], [f], w) && NumbersFit(v, nextFile) && f in v[level]
    ensures NumbersFit(w, nextFile)
  {
    hide InOrder, Replaced;
    MovedLevels(v, level, f, w);
    forall m | 0 <= m < |v| && f in v[m]
      ensures m == level
    {
    }
    forall l, g | 0 <= l < NUM_LEVELS && g in w[l]
      ensures l < |v| && ((g in v[l] && g != f) || (l == level + 1 && g == f))
    {
      MovedFile(v, level, f, w, l, g);
    }
  }

  lemma MovedLevels(v: Version, level: nat, f: FileMeta, w: Version)
    requires Replaced(v, level, [f], [], [f], w)
    ensures |v| == |w| == NUM_LEVELS && level + 1 < NUM_LEVELS
  {
  }

  lemma MovedFile(v: Version, level: nat, f: FileMeta, w: Version, l: nat, g: FileMeta)
    requires Replaced(v, level, [f], [], [f], w) && l < |w| && g in w[l] && f in v[level]
    requires forall m :: 0 <= m < |v| && f in v[m] ==> m == level
    ensures l < |v| && ((g in v[l] && g != f) || (l == level + 1 && g == f))
  {
    hide InOrder;
    assert g in Files(w[l]);
    assert [f][0] == f && f in Files([f]);
  }

  lemma MovedContents(v: Version, level: nat, f: FileMeta, w: Version)
    requires Replaced(v, level, [f], [], [f], w) && f in v[level]
    ensures VersionContents(w) == VersionContents(v)
  {
    ReplacedHolds(v, level, [f], [], [f], w);
    assert f in [f];
    forall l, g, e | 0 <= l < NUM_LEVELS && g in v[l] && e in g.entries
      ensures e in VersionContents(w)
    {
      if g == f && l == level {
        assert e in LevelContents([f]);
      } else {
        assert !IsInput(level, [f], [], l, g);
      }
    }
    forall e | e in VersionContents(w)
      ensures e in VersionContents(v)
    {
      assert e in LevelContents([f]) ==> e in LevelContents(v[level]);
      if e in RestContents(v, level, [f], []) {
        var l, g :| 0 <= l < |v| && g in v[l] && e in g.entries;
        assert e in LevelContents(v[l]);
      }
    }
  }

  lemma OneFileIsMade(f: FileMeta)
    requires f.Valid()
    ensures ValidFiles([f]) && Disjoint([f]) && MadeOf([f], [f], [])
  {
  }

  lemma MoveVersion(v: Version, nextFile: nat, level: nat, f: FileMeta, w: Version)
    requires VersionOk(v, nextFile) && ProperInputs(v, level, [f], []) && Replaced(v, level, [f], [], [f], w)
    ensures VersionOk(w, nextFile) && VersionContents(w) == VersionContents(v)
  {
    assert f in [f];
    OneFileIsMade(f);
    ReplacedIsWellFormed(v, level, [f], [], [f], w);
    MovedNumbers(v, level, f, w, nextFile);
    MovedContents(v, level, f, w);
  }

  lemma MoveKeepsInvariant(s: Store, level: nat, f: FileMeta, t: Store)
    requires Invariant(s) && Next(s, TrivialMove(level, f), t)
    ensures Invariant(t) && StoreContents(t) == StoreContents(s)
  {
    MoveVersion(s.version, s.nextFile, level, f, t.version);
  }

  // ---------- every run ----------

  lemma StepKeepsInvariant(s: Store, step: Step, t: Store)
    requires Invariant(s) && Next(s, step, t)
    ensures Invariant(t)
  {
    match step
    case Write(ops) => WriteKeepsInvariant(s, ops, t);
    case SwitchMemTable => SwitchKeepsInvariant(s, t);
    case FlushEmpty =>
    case Flush(level, f) => FlushKeepsInvariant(s, level, f, t);
    case Compact(_, _, _, _, _) => CompactKeepsInvariant(s, step, t);
    case TrivialMove(level, f) => MoveKeepsInvariant(s, level, f, t);
    case TakeSnapshot =>
    case ReleaseSnapshot(_) =>
  }

  /** `states` are the stores along a run from the empty store taking `steps`. */
  ghost predicate IsRun(states: seq<Store>, steps: seq<Step>) {
    && |states| == |steps| + 1 && states[0] == emptyStore
    && forall i :: 0 <= i < |steps| ==> Next(states[i], steps[i], states[i + 1])
  }

  /** Every store of every run is ordered: shallower means strictly newer, deeper levels sorted and disjoint. */
  lemma {:induction false} RunKeepsInvariant(states: seq<Store>, steps: seq<Step>, i: nat)
    requires IsRun(states, steps) && i < |states|
    ensures Invariant(states[i])
  {
    hide VersionOk, MemoryOk, Next;
    if i == 0 {
      EmptyStoreOk();
    } else {
      RunKeepsInvariant(states, steps, i - 1);
      StepKeepsInvariant(states[i - 1], steps[i - 1], states[i]);
    }
  }

  // ---------- the history of writes ----------

  /** Every entry ever written, in the first `n` steps. */
  function History(states: seq<Store>, steps: seq<Step>, n: nat): set<Entry>
    requires |states| == |steps| + 1 && n <= |steps|
  {
    if n == 0 then {}
    else
      History(states, steps, n - 1)
      + Written(states[n - 1], steps[n - 1])
  }

  /** No entry of the memtables hides the tables from a reader of `k` at the smallest snapshot. */
  ghost predicate Uncovered(s: Store, k: UserKey) {
    NoneVisible(Contents(s.mem) + Contents(ImmEntries(s)), k, SmallestSnapshot(s))
  }

  /** A compaction springs no tombstone trap: every trapped key has a newer entry in memory. */
  ghost predicate SpringsNoTrap(s: Store, step: Step) {
    step.Compact? && step.from + 1 < |s.version| ==>
      forall k :: !(Trap(s.version, step.from, step.inputs1, SmallestSnapshot(s), k) && Uncovered(s, k))
  }

  ghost predicate TrapFree(states: seq<Store>, steps: seq<Step>) {
    |states| == |steps| + 1 && forall i :: 0 <= i < |steps| ==> SpringsNoTrap(states[i], steps[i])
  }

  function Written(s: Store, step: Step): set<Entry> {
    if step.Write? then Contents(BatchEntries(step.ops, s.lastSequence + 1)) else {}
  }

  /** Stored entries and history answer alike for every snapshot a reader may still hold. */
  ghost predicate Faithful(s: Store, history: set<Entry>) {
    && StoreContents(s) <= history && UniqueKeys(history) && SequencesUpTo(history, s.lastSequence)
    && SameReads(StoreContents(s), history, SmallestSnapshot(s))
  }

  /** Reads decided by newer entries ignore what lies below. */
  lemma NewerDecides(upper: set<Entry>, lower: set<Entry>, lower': set<Entry>, k: UserKey, snapshot: nat)
    requires NewerThan(upper, lower) && NewerThan(upper, lower')
    requires UniqueKeys(upper + lower) && UniqueKeys(upper + lower')
    requires Read(lower, k, snapshot) == Read(lower', k, snapshot)
    ensures Read(upper + lower, k, snapshot) == Read(upper + lower', k, snapshot)
  {
    if e :| e in upper && e.key.user == k && e.key.sequence <= snapshot {
      var n := NewestExists(upper, k, snapshot, e);
      assert IsNewest(upper + lower, k, snapshot, n) && IsNewest(upper + lower', k, snapshot, n);
      ReadIsNewest(upper + lower, k, snapshot, n);
      ReadIsNewest(upper + lower', k, snapshot, n);
    } else {
      ReadDependsOn(upper + lower, lower, k, snapshot);
      ReadDependsOn(upper + lower', lower', k, snapshot);
    }
  }

  lemma SameReadsUnder(upper: set<Entry>, lower: set<Entry>, lower': set<Entry>, smallestSnapshot: nat)
    requires NewerThan(upper, lower) && NewerThan(upper, lower')
    requires UniqueKeys(upper + lower) && UniqueKeys(upper + lower')
    requires SameReads(lower, lower', smallestSnapshot)
    ensures SameReads(upper + lower, upper + lower', smallestSnapshot)
  {
    forall k, snapshot: nat | smallestSnapshot <= snapshot
      ensures Read(upper + lower, k, snapshot) == Read(upper + lower', k, snapshot)
    {
      NewerDecides(upper, lower, lower', k, snapshot);
    }
  }

  /** A batch of newer entries goes on top of the stored entries and of the history alike. */
  lemma OnTopOfBoth(contents: set<Entry>, history: set<Entry>, batch: set<Entry>, last: nat, n: nat, smallestSnapshot: nat)
    requires contents <= history && UniqueKeys(history) && SequencesUpTo(history, last) && SameReads(contents, history, smallestSnapshot)
    requires UniqueKeys(batch) && forall e :: e in batch ==> last < e.key.sequence <= last + n
    ensures UniqueKeys(history + batch) && SequencesUpTo(history + batch, last + n)
    ensures SameReads(contents + batch, history + batch, smallestSnapshot)
  {
    hide NewerThan, UniqueKeys, SequencesUpTo, SameReads;
    PartOf(contents, history, last);
    BatchIsNewer(batch, history, last, n);
    BatchIsNewer(batch, contents, last, n);
    SameReadsUnder(batch, contents, history, smallestSnapshot);
    assert batch + contents == contents + batch && batch + history == history + batch;
  }

  lemma WriteStaysFaithful(s: Store, ops: seq<Operation>, t: Store, history: set<Entry>)
    requires Invariant(s) && Next(s, Write(ops), t) && Faithful(s, history)
    ensures Faithful(t, history + Contents(BatchEntries(ops, s.lastSequence + 1)))
  {
    hide VersionOk, MemoryOk, UniqueKeys, SequencesUpTo, Read, StoreContents, BatchEntries, AddEntries;
    WriteKeepsInvariant(s, ops, t);
    BatchIs(ops, s.lastSequence + 1);
    OnTopOfBoth(StoreContents(s), history, Contents(BatchEntries(ops, s.lastSequence + 1)), s.lastSequence, |ops|, SmallestSnapshot(s));
  }

  lemma PartOf(part: set<Entry>, all: set<Entry>, last: nat)
    requires part <= all && UniqueKeys(all) && SequencesUpTo(all, last)
    ensures UniqueKeys(part) && SequencesUpTo(part, last)
  {
  }

  lemma BatchIsNewer(batch: set<Entry>, older: set<Entry>, last: nat, n: nat)
    requires UniqueKeys(batch) && UniqueKeys(older) && SequencesUpTo(older, last)
    requires forall e :: e in batch ==> last < e.key.sequence <= last + n
    ensures NewerThan(batch, older) && UniqueKeys(batch + older) && SequencesUpTo(batch + older, last + n)
  {
  }

  lemma MemoryOverDisk(mem: seq<Entry>, imm: seq<Entry>, disk: set<Entry>, disk': set<Entry>, last: nat)
    requires MemoryOk(mem, imm, disk, last) && disk' <= disk
    ensures var memory := Contents(mem) + Contents(imm);
            && NewerThan(memory, disk) && NewerThan(memory, disk') && UniqueKeys(memory + disk) && UniqueKeys(memory + disk')
  {
    UniqueKeysOfPart(Contents(mem) + Contents(imm) + disk', Contents(mem) + Contents(imm) + disk);
  }

  /** A newer entry that every reader from the smallest snapshot on sees decides, whatever lies below. */
  lemma CoveredRead(memory: set<Entry>, disk: set<Entry>, disk': set<Entry>, k: UserKey, smallestSnapshot: nat, snapshot: nat)
    requires NewerThan(memory, disk) && NewerThan(memory, disk') && UniqueKeys(memory + disk) && UniqueKeys(memory + disk')
    requires !NoneVisible(memory, k, smallestSnapshot) && smallestSnapshot <= snapshot
    ensures Read(memory + disk, k, snapshot) == Read(memory + disk', k, snapshot)
  {
    var e :| e in memory && e.key.user == k && e.key.sequence <= smallestSnapshot;
    var n := NewestExists(memory, k, snapshot, e);
    assert IsNewest(memory + disk, k, snapshot, n) && IsNewest(memory + disk', k, snapshot, n);
    ReadIsNewest(memory + disk, k, snapshot, n);
    ReadIsNewest(memory + disk', k, snapshot, n);
  }

  /** Without one the tables decide. */
  lemma UncoveredRead(memory: set<Entry>, disk: set<Entry>, k: UserKey, snapshot: nat)
    requires UniqueKeys(memory + disk) && NoneVisible(memory, k, snapshot)
    ensures Read(memory + disk, k, snapshot) == Read(disk, k, snapshot)
  {
    ReadDependsOn(memory + disk, disk, k, snapshot);
  }

  /** A compaction leaves every read of every live snapshot alone if and only if it springs no trap. */
  lemma CompactAndReads(s: Store, step: Step, t: Store)
    requires step.Compact? && Invariant(s) && Next(s, step, t)
    ensures SameReads(StoreContents(t), StoreContents(s), SmallestSnapshot(s)) <==> SpringsNoTrap(s, step)
  {
    hide WellFormed, ProperInputs, IsMerged, OutputsOf, Replaced, Trap, MemoryOk, Read, NoneVisible, NumbersFit, Numbered, VersionContents, Contents;
    var smallest := SmallestSnapshot(s);
    var memory := Contents(s.mem) + Contents(ImmEntries(s));
    var disk, disk' := VersionContents(s.version), VersionContents(t.version);
    LevelInRange(s.version, step.from, step.inputs0, step.inputs1);
    CompactionKeepsLevelOrder(s.version, step.from, step.inputs0, step.inputs1, step.input, smallest, step.outputs, t.version);
    MemoryOverDisk(s.mem, ImmEntries(s), disk, disk', s.lastSequence);
    forall k, snapshot: nat | smallest <= snapshot
      ensures !(Trap(s.version, step.from, step.inputs1, smallest, k) && Uncovered(s, k)) ==>
                Read(memory + disk', k, snapshot) == Read(memory + disk, k, snapshot)
      ensures Trap(s.version, step.from, step.inputs1, smallest, k) && Uncovered(s, k) ==>
                Read(memory + disk', k, smallest) != Read(memory + disk, k, smallest)
    {
      CompactionAndRead(s.version, step.from, step.inputs0, step.inputs1, step.input, smallest, step.outputs, t.version, k, snapshot);
      if !Trap(s.version, step.from, step.inputs1, smallest, k) {
        NewerDecides(memory, disk, disk', k, snapshot);
      } else if Uncovered(s, k) {
        UncoveredRead(memory, disk, k, smallest);
        UncoveredRead(memory, disk', k, smallest);
      } else {
        CoveredRead(memory, disk, disk', k, smallest, snapshot);
      }
    }
    assert forall k :: Trap(s.version, step.from, step.inputs1, smallest, k) && Uncovered(s, k) ==>
      Read(memory + disk', k, smallest) != Read(memory + disk, k, smallest);
  }

  lemma LevelInRange(v: Version, level: nat, inputs0: seq<FileMeta>, inputs1: seq<FileMeta>)
    requires ProperInputs(v, level, inputs0, inputs1)
    ensures level + 1 < |v|
  {
  }

  lemma CompactAndFaith(s: Store, step: Step, t: Store, history: set<Entry>)
    requires step.Compact? && Invariant(s) && Next(s, step, t) && Faithful(s, history)
    ensures Faithful(t, history) <==> SpringsNoTrap(s, step)
  {
    hide VersionOk, ProperInputs, IsMerged, OutputsOf, Replaced, MemoryOk, SpringsNoTrap, Numbered, Read, VersionContents, UniqueKeys;
    CompactAndReads(s, step, t);
    CompactAddsNothing(s, step, t);
  }

  lemma CompactAddsNothing(s: Store, step: Step, t: Store)
    requires step.Compact? && Invariant(s) && Next(s, step, t)
    ensures StoreContents(t) <= StoreContents(s)
  {
    hide WellFormed, ProperInputs, IsMerged, OutputsOf, Replaced, MemoryOk, NumbersFit, Numbered, VersionContents;
    CompactionKeepsLevelOrder(s.version, step.from, step.inputs0, step.inputs1, step.input, SmallestSnapshot(s), step.outputs, t.version);
  }

  /** A step that changes no entry and does not lower the smallest snapshot. */
  lemma QuietStaysFaithful(s: Store, t: Store, history: set<Entry>)
    requires Faithful(s, history) && StoreContents(t) == StoreContents(s) && t.lastSequence == s.lastSequence
    requires SmallestSnapshot(s) <= SmallestSnapshot(t)
    ensures Faithful(t, history)
  {
  }

  /** Taking and releasing snapshots never lowers the smallest one. */
  lemma SnapshotsOnlyRise(s: Store, step: Step, t: Store)
    requires SnapshotsInOrder(s.snapshots, s.lastSequence) && (step.TakeSnapshot? || step.ReleaseSnapshot?) && Next(s, step, t)
    ensures SmallestSnapshot(s) <= SmallestSnapshot(t)
  {
  }

  lemma StepStaysFaithful(s: Store, step: Step, t: Store, history: set<Entry>)
    requires Invariant(s) && Next(s, step, t) && Faithful(s, history)
    ensures Faithful(t, history + Written(s, step)) <==> SpringsNoTrap(s, step)
  {
    hide VersionOk, MemoryOk, ProperInputs, IsMerged, OutputsOf, Replaced, AddedTo, MaySinkTo, Trap, Uncovered, Faithful, Numbered;
    assert history + {} == history;
    match step
    case Write(ops) => WriteStaysFaithful(s, ops, t, history);
    case Compact(_, _, _, _, _) => CompactAndFaith(s, step, t, history);
    case SwitchMemTable =>
      SwitchKeepsInvariant(s, t);
      QuietStaysFaithful(s, t, history);
    case FlushEmpty => QuietStaysFaithful(s, t, history);
    case Flush(level, f) =>
      FlushKeepsInvariant(s, level, f, t);
      QuietStaysFaithful(s, t, history);
    case TrivialMove(level, f) =>
      MoveKeepsInvariant(s, level, f, t);
      QuietStaysFaithful(s, t, history);
    case TakeSnapshot =>
      SnapshotsOnlyRise(s, step, t);
      QuietStaysFaithful(s, t, history);
    case ReleaseSnapshot(_) =>
      SnapshotsOnlyRise(s, step, t);
      QuietStaysFaithful(s, t, history);
  }

  lemma {:induction false} TrapFreeIsFaithful(states: seq<Store>, steps: seq<Step>, i: nat)
    requires IsRun(states, steps) && TrapFree(states, steps) && i < |states|
    ensures Faithful(states[i], History(states, steps, i))
  {
    hide Invariant, Next, SpringsNoTrap;
    if i == 0 {
      EmptyStoreOk();
    } else {
      RunKeepsInvariant(states, steps, i - 1);
      TrapFreeIsFaithful(states, steps, i - 1);
      StepStaysFaithful(states[i - 1], steps[i - 1], states[i], History(states, steps, i - 1));
    }
  }

  /**
   * Along a run every reader at every live snapshot, and at the last sequence number, gets what the
   * complete history of writes says, if and only if no compaction of the run springs a trap.
   */
  lemma RunIsFaithful(states: seq<Store>, steps: seq<Step>)
    requires IsRun(states, steps)
    ensures (forall i :: 0 <= i < |states| ==> Faithful(states[i], History(states, steps, i))) <==> TrapFree(states, steps)
  {
    hide Invariant, Next, SpringsNoTrap, Faithful;
    if TrapFree(states, steps) {
      forall i | 0 <= i < |states|
        ensures Faithful(states[i], History(states, steps, i))
      {
        TrapFreeIsFaithful(states, steps, i);
      }
    } else {
      var i :| 0 <= i < |steps| && !SpringsNoTrap(states[i], steps[i]);
      RunKeepsInvariant(states, steps, i);
      if Faithful(states[i], History(states, steps, i)) {
        StepStaysFaithful(states[i], steps[i], states[i + 1], History(states, steps, i));
        assert History(states, steps, i + 1) == History(states, steps, i) + Written(states[i], steps[i]);
      }
    }
  }
}
