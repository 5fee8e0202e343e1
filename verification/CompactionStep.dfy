/** One compaction of a well-formed version: what it reads, what it drops, what it installs. */
module CompactionStep {
  import opened Common
  import opened DbFormat
  import opened VersionSet
  import opened CompactionInputs
  import opened CompactionWork
  import opened CompactionReads
  import opened VersionBuilder
  import opened VersionChanges

  /** The merged input: exactly the entries of the input files, sorted. */
  ghost predicate IsMerged(input: seq<Entry>, inputs0: seq<FileMeta>, inputs1: seq<FileMeta>) {
    Sorted(input) && Contents(input) == LevelContents(inputs0) + LevelContents(inputs1)
  }

  predicate IsInput(level: nat, inputs0: seq<FileMeta>, inputs1: seq<FileMeta>, l: nat, f: FileMeta) {
    (l == level && f in inputs0) || (l == level + 1 && f in inputs1)
  }

  /** The entries of the files a compaction leaves alone. */
  function RestContents(v: Version, level: nat, inputs0: seq<FileMeta>, inputs1: seq<FileMeta>): set<Entry> {
    set l, f, e | 0 <= l < |v| && f in v[l] && !IsInput(level, inputs0, inputs1, l, f) && e in f.entries :: e
  }

  /** The entries of the files of level + 1 that were not chosen. */
  function SiblingContents(files: seq<FileMeta>, inputs1: seq<FileMeta>): set<Entry> {
    set f, e | f in files && f !in inputs1 && e in f.entries :: e
  }

  lemma RestAndInput(v: Version, level: nat, inputs0: seq<FileMeta>, inputs1: seq<FileMeta>, input: seq<Entry>)
    requires ProperInputs(v, level, inputs0, inputs1) && IsMerged(input, inputs0, inputs1)
    ensures RestContents(v, level, inputs0, inputs1) + Contents(input) == VersionContents(v)
  {
    var rest := RestContents(v, level, inputs0, inputs1);
    forall l, f, e | 0 <= l < |v| && f in v[l] && e in f.entries
      ensures e in rest + Contents(input) && e in VersionContents(v)
    {
      assert e in LevelContents(v[l]);
      if l == level && f in inputs0 {
        assert e in LevelContents(inputs0);
      } else if l == level + 1 && f in inputs1 {
        assert e in LevelContents(inputs1);
      }
    }
    InputsContents(v, level, inputs0, inputs1);
    forall e | e in Contents(input)
      ensures e in VersionContents(v)
    {
      assert e in LevelContents(v[level]) || e in LevelContents(v[level + 1]);
    }
  }

  /** An entry sits in one file of one level only. */
  lemma OnePlace(v: Version, l: nat, f: FileMeta, m: nat, g: FileMeta, e: Entry)
    requires WellFormed(v) && l <= m < |v| && f in v[l] && g in v[m] && e in f.entries && e in g.entries
    ensures l == m && f == g
  {
    assert e in LevelContents(v[l]) && e in LevelContents(v[m]);
    if 0 < l == m {
      OneFile(v[l], f, g, e);
    } else if l == m {
      OneLevelZeroFile(v[0], f, g, e);
    }
  }

  lemma OneFile(files: seq<FileMeta>, f: FileMeta, g: FileMeta, e: Entry)
    requires ValidFiles(files) && Disjoint(files) && f in files && g in files && e in f.entries && e in g.entries
    ensures f == g
  {
    FileBounds(f, e);
    FileBounds(g, e);
    if f != g {
      DisjointAreApart(files, f, g);
    }
  }

  lemma OneLevelZeroFile(files: seq<FileMeta>, f: FileMeta, g: FileMeta, e: Entry)
    requires LevelZeroOrder(files) && f in files && g in files && e in f.entries && e in g.entries
    ensures f == g
  {
    assert e in Contents(f.entries) && e in Contents(g.entries);
  }

  lemma RestIsDisjoint(v: Version, level: nat, inputs0: seq<FileMeta>, inputs1: seq<FileMeta>, input: seq<Entry>)
    requires WellFormed(v) && ProperInputs(v, level, inputs0, inputs1) && IsMerged(input, inputs0, inputs1)
    ensures RestContents(v, level, inputs0, inputs1) !! Contents(input)
  {
    forall l, f, e | 0 <= l < |v| && f in v[l] && !IsInput(level, inputs0, inputs1, l, f) && e in f.entries
      ensures e !in Contents(input)
    {
      if e in Contents(input) {
        var m, g := InputPlace(v, level, inputs0, inputs1, e);
        if l <= m {
          OnePlace(v, l, f, m, g, e);
        } else {
          OnePlace(v, m, g, l, f, e);
        }
      }
    }
  }

  lemma InputPlace(v: Version, level: nat, inputs0: seq<FileMeta>, inputs1: seq<FileMeta>, d: Entry) returns (m: nat, g: FileMeta)
    requires ProperInputs(v, level, inputs0, inputs1)
    requires d in LevelContents(inputs0) + LevelContents(inputs1)
    ensures (m == level && g in inputs0) || (m == level + 1 && g in inputs1 && d !in LevelContents(inputs0))
    ensures m < |v| && g in v[m] && d in g.entries
  {
    if d in LevelContents(inputs0) {
      m := level;
      g :| g in inputs0 && d in g.entries;
    } else {
      m := level + 1;
      g :| g in inputs1 && d in g.entries;
    }
  }

  /** A file of level + 1 that was not chosen holds no user key of the upper inputs. */
  lemma SiblingMisses(v: Version, level: nat, inputs0: seq<FileMeta>, inputs1: seq<FileMeta>, f: FileMeta, d: Entry)
    requires ProperInputs(v, level, inputs0, inputs1) && ValidFiles(v[level])
    requires f in v[level + 1] && f !in inputs1 && d in LevelContents(inputs0)
    ensures !(f.smallest.user <= d.key.user <= f.largest.user)
  {
    var g :| g in inputs0 && d in g.entries;
    UpperOnOneSide(inputs0, g, d);
    assert !InRange(f, Some(SmallestOf(inputs0).user), Some(LargestOf(inputs0).user));
  }

  /** An entry left alone that is older than an input entry of a base-level key is in an unchosen file of level + 1. */
  lemma OlderRestIsSibling(v: Version, level: nat, inputs0: seq<FileMeta>, inputs1: seq<FileMeta>, l: nat, f: FileMeta,
                           d: Entry, e: Entry)
    requires WellFormed(v) && ProperInputs(v, level, inputs0, inputs1)
    requires d in LevelContents(inputs0) + LevelContents(inputs1) && IsBaseLevel(v, level, d.key.user)
    requires l < |v| && f in v[l] && !IsInput(level, inputs0, inputs1, l, f) && e in f.entries
    requires e.key.user == d.key.user && e.key.sequence < d.key.sequence
    ensures l == level + 1 && d in LevelContents(inputs1)
  {
    var m, g := InputPlace(v, level, inputs0, inputs1, d);
    assert e in LevelContents(v[l]) && d in LevelContents(v[m]);
    FileBounds(f, e);
    assert l <= level + 1;
    if l == level {
      UnchosenIsNewer(v[level], inputs0, f, d, e);
    } else if m == level {
      SiblingMisses(v, level, inputs0, inputs1, f, d);
    }
  }

  lemma UnchosenIsNewer(files: seq<FileMeta>, chosen: seq<FileMeta>, f: FileMeta, d: Entry, e: Entry)
    requires LeavesOnlyNewer(files, chosen) && f in files && f !in chosen && e in f.entries
    requires d in LevelContents(chosen) && d.key.user == e.key.user
    ensures d.key.sequence < e.key.sequence
  {
    assert NewerThan(Contents(f.entries), LevelContents(chosen));
    assert e in Contents(f.entries);
  }

  /** The abstract drop step that a compaction of this version is. */
  lemma IsDropStep(v: Version, level: nat, inputs0: seq<FileMeta>, inputs1: seq<FileMeta>, input: seq<Entry>)
    requires WellFormed(v) && ProperInputs(v, level, inputs0, inputs1) && IsMerged(input, inputs0, inputs1)
    ensures DropStep(RestContents(v, level, inputs0, inputs1), input, BaseLevelKeys(v, level),
                     LevelContents(inputs1), SiblingContents(v[level + 1], inputs1))
    ensures RestContents(v, level, inputs0, inputs1) + Contents(input) == VersionContents(v)
  {
    hide LeavesOnlyNewer, LevelsOrdered, LevelZeroOrder, ValidFiles, Disjoint, UniqueKeys, Overlapping, SmallestOf, LargestOf, Sorted;
    var rest, siblings := RestContents(v, level, inputs0, inputs1), SiblingContents(v[level + 1], inputs1);
    RestAndInput(v, level, inputs0, inputs1, input);
    RestIsDisjoint(v, level, inputs0, inputs1, input);
    forall d, e | d in input && e in rest && e.key.user == d.key.user && d.key.user in BaseLevelKeys(v, level) && e.key.sequence < d.key.sequence
      ensures d in LevelContents(inputs1) && e in siblings
    {
      var l, f :| 0 <= l < |v| && f in v[l] && !IsInput(level, inputs0, inputs1, l, f) && e in f.entries;
      assert d in Contents(input);
      OlderRestIsSibling(v, level, inputs0, inputs1, l, f, d, e);
    }
    forall f, e | f in v[level + 1] && f !in inputs1 && e in f.entries
      ensures e in rest
    {
      assert !IsInput(level, inputs0, inputs1, level + 1, f);
    }
  }

  /** What the installed version holds. */
  lemma ReplacedHolds(v: Version, level: nat, inputs0: seq<FileMeta>, inputs1: seq<FileMeta>, outputs: seq<FileMeta>, w: Version)
    requires Replaced(v, level, inputs0, inputs1, outputs, w)
    ensures VersionContents(w) == RestContents(v, level, inputs0, inputs1) + LevelContents(outputs)
  {
    forall l, f, e | 0 <= l < NUM_LEVELS && f in w[l] && e in f.entries
      ensures e in RestContents(v, level, inputs0, inputs1) + LevelContents(outputs)
    {
      assert f in Files(w[l]);
      if f in v[l] && !IsInput(level, inputs0, inputs1, l, f) {
      } else {
        assert l == level + 1 && f in outputs;
      }
    }
    forall l, f, e | 0 <= l < NUM_LEVELS && f in v[l] && !IsInput(level, inputs0, inputs1, l, f) && e in f.entries
      ensures e in VersionContents(w)
    {
      assert f in Files(v[l]);
      assert f in Files(w[l]);
      assert e in LevelContents(w[l]);
    }
    forall f, e | f in outputs && e in f.entries
      ensures e in VersionContents(w)
    {
      assert f in Files(w[level + 1]);
      assert e in LevelContents(w[level + 1]);
    }
  }

  /** The outputs are a cut of what the loop kept of the merged input. */
  ghost predicate OutputsOf(v: Version, level: nat, input: seq<Entry>, smallestSnapshot: nat, outputs: seq<FileMeta>) {
    WellBuilt(outputs) && Concat(outputs) == Kept(input, smallestSnapshot, BaseLevelKeys(v, level), |input|)
  }

  lemma OutputsAreFiles(v: Version, level: nat, inputs0: seq<FileMeta>, inputs1: seq<FileMeta>, input: seq<Entry>,
                        smallestSnapshot: nat, outputs: seq<FileMeta>)
    requires WellFormed(v) && ProperInputs(v, level, inputs0, inputs1) && IsMerged(input, inputs0, inputs1)
    requires OutputsOf(v, level, input, smallestSnapshot, outputs)
    ensures ValidFiles(outputs) && Disjoint(outputs) && MadeOf(outputs, inputs0, inputs1)
    ensures LevelContents(outputs) == Contents(Kept(input, smallestSnapshot, BaseLevelKeys(v, level), |input|))
  {
    var bases := BaseLevelKeys(v, level);
    KeptIsSorted(input, smallestSnapshot, bases, |input|);
    ConcatContents(outputs);
    forall e | e in Kept(input, smallestSnapshot, bases, |input|)
      ensures e in Contents(input) && e.key.sequence <= MAX_SEQUENCE_NUMBER
    {
      KeptIs(input, smallestSnapshot, bases, |input|, e);
      assert e in Contents(input);
      var m, g := InputPlace(v, level, inputs0, inputs1, e);
    }
    CutIsDisjoint(outputs);
  }

  /**
   * The tombstone trap of `k` in terms of the layout: no level from level + 2 on covers `k`; the
   * newest version of `k` visible at the smallest snapshot is a tombstone in a chosen file of
   * level + 1; and the newest version visible there in the files of level + 1 that were not chosen
   * is a value.
   */
  ghost predicate Trap(v: Version, level: nat, inputs1: seq<FileMeta>, smallestSnapshot: nat, k: UserKey)
    requires level + 1 < |v|
  {
    var siblings := SiblingContents(v[level + 1], inputs1);
    && IsBaseLevel(v, level, k)
    && (exists d :: d in LevelContents(inputs1) && d.key.kind.Deletion? && IsNewest(VersionContents(v), k, smallestSnapshot, d))
    && exists e :: e in siblings && e.key.kind.Value? && IsNewest(siblings, k, smallestSnapshot, e)
  }

  /** Installing the outputs of a compaction keeps level order and adds nothing. */
  lemma CompactionKeepsLevelOrder(v: Version, level: nat, inputs0: seq<FileMeta>, inputs1: seq<FileMeta>, input: seq<Entry>,
                                  smallestSnapshot: nat, outputs: seq<FileMeta>, w: Version)
    requires WellFormed(v) && ProperInputs(v, level, inputs0, inputs1) && IsMerged(input, inputs0, inputs1)
    requires OutputsOf(v, level, input, smallestSnapshot, outputs) && Replaced(v, level, inputs0, inputs1, outputs, w)
    ensures WellFormed(w) && VersionContents(w) <= VersionContents(v)
    ensures VersionContents(w) == After(RestContents(v, level, inputs0, inputs1), input, BaseLevelKeys(v, level), smallestSnapshot)
  {
    OutputsAreFiles(v, level, inputs0, inputs1, input, smallestSnapshot, outputs);
    ReplacedIsWellFormed(v, level, inputs0, inputs1, outputs, w);
    ReplacedPart(v, level, inputs0, inputs1, outputs, w);
    ReplacedHolds(v, level, inputs0, inputs1, outputs, w);
  }

  /** The trap over the layout is the trap of the abstract drop step. */
  lemma TrapIsTrapped(v: Version, level: nat, inputs0: seq<FileMeta>, inputs1: seq<FileMeta>, input: seq<Entry>,
                      smallestSnapshot: nat, k: UserKey)
    requires level + 1 < |v| && RestContents(v, level, inputs0, inputs1) + Contents(input) == VersionContents(v)
    ensures Trap(v, level, inputs1, smallestSnapshot, k) <==>
              Trapped(RestContents(v, level, inputs0, inputs1), input, BaseLevelKeys(v, level), LevelContents(inputs1),
                      SiblingContents(v[level + 1], inputs1), smallestSnapshot, k)
  {
  }

  /**
   * A compaction preserves every read of every snapshot at or above the smallest one if and only if
   * no key is trapped.
   */
  lemma CompactionPreservesReads(v: Version, level: nat, inputs0: seq<FileMeta>, inputs1: seq<FileMeta>, input: seq<Entry>,
                                 smallestSnapshot: nat, outputs: seq<FileMeta>, w: Version)
    requires WellFormed(v) && ProperInputs(v, level, inputs0, inputs1) && IsMerged(input, inputs0, inputs1)
    requires OutputsOf(v, level, input, smallestSnapshot, outputs) && Replaced(v, level, inputs0, inputs1, outputs, w)
    ensures SameReads(VersionContents(w), VersionContents(v), smallestSnapshot)
            <==> forall k :: !Trap(v, level, inputs1, smallestSnapshot, k)
  {
    CompactionKeepsLevelOrder(v, level, inputs0, inputs1, input, smallestSnapshot, outputs, w);
    IsDropStep(v, level, inputs0, inputs1, input);
    TrapsDecide(v, level, inputs0, inputs1, input, smallestSnapshot);
  }

  /** The same, read by read: a key that is not trapped reads as before, a trapped one comes back. */
  lemma CompactionAndRead(v: Version, level: nat, inputs0: seq<FileMeta>, inputs1: seq<FileMeta>, input: seq<Entry>,
                          smallestSnapshot: nat, outputs: seq<FileMeta>, w: Version, k: UserKey, snapshot: nat)
    requires WellFormed(v) && ProperInputs(v, level, inputs0, inputs1) && IsMerged(input, inputs0, inputs1)
    requires OutputsOf(v, level, input, smallestSnapshot, outputs) && Replaced(v, level, inputs0, inputs1, outputs, w)
    requires smallestSnapshot <= snapshot
    ensures !Trap(v, level, inputs1, smallestSnapshot, k) ==>
              Read(VersionContents(w), k, snapshot) == Read(VersionContents(v), k, snapshot)
    ensures Trap(v, level, inputs1, smallestSnapshot, k) ==>
              Read(VersionContents(v), k, smallestSnapshot) == None && Read(VersionContents(w), k, smallestSnapshot).Some?
  {
    hide WellFormed, IsMerged, OutputsOf, Replaced, Trap, Read, RestContents, SiblingContents, BaseLevelKeys, VersionContents,
         LevelContents, After, Trapped, DropStep;
    CompactionKeepsLevelOrder(v, level, inputs0, inputs1, input, smallestSnapshot, outputs, w);
    IsDropStep(v, level, inputs0, inputs1, input);
    TrapIsTrapped(v, level, inputs0, inputs1, input, smallestSnapshot, k);
    var rest, bases := RestContents(v, level, inputs0, inputs1), BaseLevelKeys(v, level);
    var lower, siblings := LevelContents(inputs1), SiblingContents(v[level + 1], inputs1);
    if Trap(v, level, inputs1, smallestSnapshot, k) {
      TrapSprings(rest, input, bases, lower, siblings, smallestSnapshot, k);
    } else {
      ReadSurvives(rest, input, bases, lower, siblings, smallestSnapshot, k, snapshot);
    }
  }

  lemma TrapsDecide(v: Version, level: nat, inputs0: seq<FileMeta>, inputs1: seq<FileMeta>, input: seq<Entry>, smallestSnapshot: nat)
    requires level + 1 < |v| && RestContents(v, level, inputs0, inputs1) + Contents(input) == VersionContents(v)
    requires DropStep(RestContents(v, level, inputs0, inputs1), input, BaseLevelKeys(v, level),
                      LevelContents(inputs1), SiblingContents(v[level + 1], inputs1))
    ensures SameReads(After(RestContents(v, level, inputs0, inputs1), input, BaseLevelKeys(v, level), smallestSnapshot),
                      VersionContents(v), smallestSnapshot)
            <==> forall k :: !Trap(v, level, inputs1, smallestSnapshot, k)
  {
    var rest, bases := RestContents(v, level, inputs0, inputs1), BaseLevelKeys(v, level);
    var lower, siblings := LevelContents(inputs1), SiblingContents(v[level + 1], inputs1);
    DropsPreserveReads(rest, input, bases, lower, siblings, smallestSnapshot);
    if k :| Trap(v, level, inputs1, smallestSnapshot, k) {
      TrapIsTrapped(v, level, inputs0, inputs1, input, smallestSnapshot, k);
    } else if k :| Trapped(rest, input, bases, lower, siblings, smallestSnapshot, k) {
      TrapIsTrapped(v, level, inputs0, inputs1, input, smallestSnapshot, k);
    }
  }

  /** No unchosen file of level + 1 starts with the last user key of a chosen one. */
  ghost predicate NoSharedBoundary(files: seq<FileMeta>, chosen: seq<FileMeta>) {
    forall f, g :: f in chosen && g in files && g !in chosen ==> f.largest.user != g.smallest.user
  }

  /** The check of the file bounds alone that rules every trap out. */
  lemma NoSharedBoundaryNoTrap(v: Version, level: nat, inputs1: seq<FileMeta>, smallestSnapshot: nat, k: UserKey)
    requires |v| == NUM_LEVELS && level + 1 < NUM_LEVELS && ValidFiles(v[level + 1]) && Disjoint(v[level + 1])
    requires UniqueKeys(VersionContents(v)) && Among(inputs1, v[level + 1])
    requires NoSharedBoundary(v[level + 1], inputs1)
    ensures !Trap(v, level, inputs1, smallestSnapshot, k)
  {
    hide UniqueKeys, ValidFiles, Disjoint, NoSharedBoundary, IsBaseLevel, SiblingContents, VersionContents, LevelContents;
    var files := v[level + 1];
    if Trap(v, level, inputs1, smallestSnapshot, k) {
      var d :| d in LevelContents(inputs1) && d.key.kind.Deletion? && IsNewest(VersionContents(v), k, smallestSnapshot, d);
      var siblings := SiblingContents(files, inputs1);
      var e :| e in siblings && e.key.kind.Value? && IsNewest(siblings, k, smallestSnapshot, e);
      SiblingInVersion(v, level + 1, inputs1, e);
      TrapNeedsBoundary(VersionContents(v), files, inputs1, k, smallestSnapshot, d, e);
    }
  }

  lemma SiblingInVersion(v: Version, l: nat, chosen: seq<FileMeta>, e: Entry)
    requires l < |v| && e in SiblingContents(v[l], chosen)
    ensures e in VersionContents(v)
  {
    assert e in LevelContents(v[l]);
  }

  lemma TrapNeedsBoundary(all: set<Entry>, files: seq<FileMeta>, chosen: seq<FileMeta>, k: UserKey, snapshot: nat, d: Entry, e: Entry)
    requires ValidFiles(files) && Disjoint(files) && Among(chosen, files) && UniqueKeys(all)
    requires d in LevelContents(chosen) && d.key.kind.Deletion? && IsNewest(all, k, snapshot, d)
    requires e in SiblingContents(files, chosen) && e in all && e.key.kind.Value? && e.key.user == k && e.key.sequence <= snapshot
    ensures !NoSharedBoundary(files, chosen)
  {
    var f :| f in chosen && d in f.entries;
    var g :| g in files && g !in chosen && e in g.entries;
    SharedKeyIsBoundary(files, f, g, d, e);
  }

  /** Two files of a disjoint level share a user key only where one ends and the other starts. */
  lemma SharedKeyIsBoundary(files: seq<FileMeta>, f: FileMeta, g: FileMeta, d: Entry, e: Entry)
    requires ValidFiles(files) && Disjoint(files) && f in files && g in files && f != g
    requires d in f.entries && e in g.entries && d.key.user == e.key.user && e.key.sequence <= d.key.sequence
    requires d.key.sequence == e.key.sequence ==> d == e
    ensures f.largest.user == g.smallest.user
  {
    DisjointAreApart(files, f, g);
    FileBounds(f, d);
    FileBounds(g, e);
  }
}
