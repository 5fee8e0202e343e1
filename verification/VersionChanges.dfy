/** Installing a compaction or a flush keeps a version well formed (db/db_impl: InstallCompactionResults, WriteLevel0Table). */
module VersionChanges {
  import opened Common
  import opened DbFormat
  import opened VersionSet
  import opened CompactionInputs
  import opened CompactionWork
  import opened VersionBuilder

  /** Two files of one level do not interleave. */
  ghost predicate Apart(f: FileMeta, g: FileMeta) {
    Before(f.largest, g.smallest) || Before(g.largest, f.smallest)
  }

  lemma ApartInOrderIsDisjoint(files: seq<FileMeta>)
    requires ValidFiles(files) && InOrder(files)
    requires forall f, g :: f in files && g in files && f != g ==> Apart(f, g)
    ensures Disjoint(files)
  {
    forall i, j | 0 <= i < j < |files|
      ensures Before(files[i].largest, files[j].smallest)
    {
      var f, g := files[i], files[j];
      assert BySmallestKey(f, g);
      assert Apart(f, g);
      FileBounds(f, f.entries[|f.entries| - 1]);
      FileBounds(g, g.entries[|g.entries| - 1]);
    }
  }

  lemma DisjointAreApart(files: seq<FileMeta>, f: FileMeta, g: FileMeta)
    requires Disjoint(files) && f in files && g in files && f != g
    ensures Apart(f, g)
  {
    var i :| 0 <= i < |files| && files[i] == f;
    var j :| 0 <= j < |files| && files[j] == g;
    assert i < j || j < i;
  }

  // ---------- the outputs of a compaction ----------

  lemma {:induction false} OutputsInConcat(outputs: seq<FileMeta>, f: FileMeta, e: Entry)
    requires f in outputs && e in f.entries
    ensures e in Concat(outputs)
  {
    var n := |outputs| - 1;
    assert outputs == outputs[..n] + [outputs[n]];
    if f in outputs[..n] {
      OutputsInConcat(outputs[..n], f, e);
    }
  }

  lemma {:induction false} ConcatInOutputs(outputs: seq<FileMeta>, e: Entry)
    requires e in Concat(outputs)
    ensures e in LevelContents(outputs)
  {
    var n := |outputs| - 1;
    assert outputs == outputs[..n] + [outputs[n]];
    if e in outputs[n].entries {
      assert outputs[n] in outputs;
    } else {
      ConcatInOutputs(outputs[..n], e);
      var f :| f in outputs[..n] && e in f.entries;
      assert f in outputs;
    }
  }

  lemma ConcatContents(outputs: seq<FileMeta>)
    ensures LevelContents(outputs) == Contents(Concat(outputs))
  {
    forall f, e | f in outputs && e in f.entries
      ensures e in Concat(outputs)
    {
      OutputsInConcat(outputs, f, e);
    }
    forall e | e in Concat(outputs)
      ensures e in LevelContents(outputs)
    {
      ConcatInOutputs(outputs, e);
    }
  }

  /** The concatenation of disjoint files in order is sorted. */
  lemma {:induction false} ConcatIsSorted(files: seq<FileMeta>)
    requires ValidFiles(files) && Disjoint(files)
    ensures Sorted(Concat(files))
  {
    hide Before;
    if files != [] {
      var n := |files| - 1;
      var init, last := files[..n], files[n];
      assert last in files;
      ConcatIsSorted(init);
      forall e, d | e in Concat(init) && d in last.entries
        ensures Before(e.key, d.key)
      {
        EarlierFileIsBefore(files, e, d);
      }
      SortedAppend(Concat(init), last.entries);
    }
  }

  lemma EarlierFileIsBefore(files: seq<FileMeta>, e: Entry, d: Entry)
    requires files != [] && ValidFiles(files) && Disjoint(files)
    requires e in Concat(files[..|files| - 1]) && d in files[|files| - 1].entries
    ensures Before(e.key, d.key)
  {
    hide Concat;
    var n := |files| - 1;
    ConcatInOutputs(files[..n], e);
    var i :| 0 <= i < n && e in files[i].entries;
    assert Before(files[i].largest, files[n].smallest);
    FileBounds(files[i], e);
    FileBounds(files[n], d);
  }

  lemma SortedAppend(a: seq<Entry>, b: seq<Entry>)
    requires Sorted(a) && Sorted(b) && forall e, d :: e in a && d in b ==> Before(e.key, d.key)
    ensures Sorted(a + b)
  {
  }

  ghost predicate SequencesInRange(s: set<Entry>) {
    forall e :: e in s ==> e.key.sequence <= MAX_SEQUENCE_NUMBER
  }

  /** Cutting a sorted run into files gives valid files that do not interleave. */
  lemma {:induction false} CutIsDisjoint(outputs: seq<FileMeta>)
    requires WellBuilt(outputs) && Sorted(Concat(outputs)) && SequencesInRange(Contents(Concat(outputs)))
    ensures ValidFiles(outputs) && Disjoint(outputs)
  {
    if outputs != [] {
      var n := |outputs| - 1;
      var init, last := outputs[..n], outputs[n];
      assert outputs == init + [last];
      var all := Concat(outputs);
      assert Concat(init) == all[..|Concat(init)|] && last.entries == all[|Concat(init)|..];
      CutIsDisjoint(init);
      assert last in outputs;
      LastIsValid(last, all, |Concat(init)|);
      forall i | 0 <= i < n
        ensures Before(outputs[i].largest, last.smallest)
      {
        assert init[i] in init && init[i].Valid();
        LastComesAfter(init, init[i], last, all);
      }
    }
  }

  lemma LastComesAfter(init: seq<FileMeta>, f: FileMeta, last: FileMeta, all: seq<Entry>)
    requires f in init && f.Valid() && last.Valid() && Sorted(all) && all == Concat(init) + last.entries
    ensures Before(f.largest, last.smallest)
  {
    var e := f.entries[|f.entries| - 1];
    OutputsInConcat(init, f, e);
    var t :| 0 <= t < |Concat(init)| && Concat(init)[t] == e;
    assert all[t] == e && all[|Concat(init)|] == last.entries[0];
  }

  lemma LastIsValid(last: FileMeta, all: seq<Entry>, start: nat)
    requires start < |all| && last.entries == all[start..] && last == OutputFile(last.number, last.size, last.entries)
    requires Sorted(all) && SequencesInRange(Contents(all))
    ensures last.Valid()
  {
    forall i, j | 0 <= i < j < |last.entries|
      ensures Before(last.entries[i].key, last.entries[j].key)
    {
      assert last.entries[i] == all[start + i] && last.entries[j] == all[start + j];
    }
    forall e | e in last.entries
      ensures e.key.sequence <= MAX_SEQUENCE_NUMBER
    {
      assert e in Contents(all);
    }
  }

  /** Files made of input entries only. */
  ghost predicate MadeOf(outputs: seq<FileMeta>, inputs0: seq<FileMeta>, inputs1: seq<FileMeta>) {
    LevelContents(outputs) <= LevelContents(inputs0) + LevelContents(inputs1)
  }

  /** Every input entry lies on the far side of the hull from a file that misses the hull. */
  lemma InputsOnOneSide(upper: seq<FileMeta>, files: seq<FileMeta>, inputs0: seq<FileMeta>, g: FileMeta, e: Entry)
    requires ValidFiles(upper) && Among(inputs0, upper) && inputs0 != [] && ValidFiles(files) && Disjoint(files) && g in files
    requires var a, b := SmallestOf(inputs0).user, LargestOf(inputs0).user;
             && !InRange(g, Some(a), Some(b))
             && e in LevelContents(inputs0) + LevelContents(Overlapping(files, Some(a), Some(b)))
    ensures g.largest.user < SmallestOf(inputs0).user ==> Before(g.largest, e.key)
    ensures LargestOf(inputs0).user < g.smallest.user ==> Before(e.key, g.smallest)
  {
    hide SmallestOf, LargestOf, Disjoint;
    var a, b := SmallestOf(inputs0).user, LargestOf(inputs0).user;
    if e in LevelContents(inputs0) {
      var f :| f in inputs0 && e in f.entries;
      UpperOnOneSide(inputs0, f, e);
    } else {
      var f :| f in Overlapping(files, Some(a), Some(b)) && e in f.entries;
      LowerOnOneSide(files, a, b, f, g, e);
    }
  }

  lemma UpperOnOneSide(files: seq<FileMeta>, f: FileMeta, e: Entry)
    requires f in files && e in f.entries && f.Valid()
    ensures SmallestOf(files).user <= e.key.user <= LargestOf(files).user
  {
    var a := SmallestOfIs(files);
    var b := LargestOfIs(files);
    FileBounds(f, e);
    var i :| 0 <= i < |files| && files[i] == f;
    assert !Before(files[i].smallest, SmallestOf(files)) && !Before(LargestOf(files), files[i].largest);
  }

  lemma LowerOnOneSide(files: seq<FileMeta>, a: UserKey, b: UserKey, f: FileMeta, g: FileMeta, e: Entry)
    requires ValidFiles(files) && Disjoint(files) && f in files && g in files && e in f.entries
    requires InRange(f, Some(a), Some(b)) && !InRange(g, Some(a), Some(b))
    ensures g.largest.user < a ==> Before(g.largest, e.key)
    ensures b < g.smallest.user ==> Before(e.key, g.smallest)
  {
    DisjointAreApart(files, f, g);
    FileBounds(f, e);
    FileBounds(g, g.entries[0]);
  }

  /** An output never interleaves with a file of level + 1 that stays. */
  lemma OutputApartFromRest(v: Version, level: nat, inputs0: seq<FileMeta>, inputs1: seq<FileMeta>, o: FileMeta, g: FileMeta)
    requires WellFormed(v) && ProperInputs(v, level, inputs0, inputs1)
    requires o.Valid() && Contents(o.entries) <= LevelContents(inputs0) + LevelContents(inputs1)
    requires g in v[level + 1] && g !in inputs1
    ensures Apart(o, g)
  {
    var first, last := o.entries[0], o.entries[|o.entries| - 1];
    assert first in Contents(o.entries) && last in Contents(o.entries);
    InputsOnOneSide(v[level], v[level + 1], inputs0, g, first);
    InputsOnOneSide(v[level], v[level + 1], inputs0, g, last);
  }

  // ---------- replacing inputs by outputs ----------

  /** `w` is `v` with the inputs removed and the outputs added at level + 1, lists in order. */
  ghost predicate Replaced(v: Version, level: nat, inputs0: seq<FileMeta>, inputs1: seq<FileMeta>, outputs: seq<FileMeta>, w: Version) {
    && |v| == |w| == NUM_LEVELS && level + 1 < NUM_LEVELS
    && (forall l :: 0 <= l < NUM_LEVELS ==> InOrder(w[l]))
    && (forall l :: 0 <= l < NUM_LEVELS && l != level && l != level + 1 ==> Files(w[l]) == Files(v[l]))
    && Files(w[level]) == Files(v[level]) - Files(inputs0)
    && Files(w[level + 1]) == Files(v[level + 1]) - Files(inputs1) + Files(outputs)
  }

  lemma SameFiles(x: seq<FileMeta>, y: seq<FileMeta>)
    requires Files(x) <= Files(y)
    ensures LevelContents(x) <= LevelContents(y)
    ensures ValidFiles(y) ==> ValidFiles(x)
    ensures LevelZeroOrder(y) ==> LevelZeroOrder(x)
    ensures ValidFiles(y) && Disjoint(y) && InOrder(x) ==> Disjoint(x)
  {
    assert forall f :: f in x ==> f in y by {
      assert forall f :: f in x ==> f in Files(x);
    }
    if ValidFiles(y) && Disjoint(y) && InOrder(x) {
      forall f, g | f in x && g in x && f != g
        ensures Apart(f, g)
      {
        DisjointAreApart(y, f, g);
      }
      ApartInOrderIsDisjoint(x);
    }
  }

  lemma NewerThanParts(upper: set<Entry>, upper': set<Entry>, lower: set<Entry>, lower': set<Entry>)
    requires NewerThan(upper, lower) && upper' <= upper && lower' <= lower
    ensures NewerThan(upper', lower')
  {
  }

  lemma NewerThanBoth(upper: set<Entry>, upper': set<Entry>, a: set<Entry>, b: set<Entry>, lower': set<Entry>)
    requires NewerThan(upper, a) && NewerThan(upper, b) && upper' <= upper && lower' <= a + b
    ensures NewerThan(upper', lower')
  {
  }

  lemma BothNewerThan(a: set<Entry>, b: set<Entry>, upper': set<Entry>, lower: set<Entry>, lower': set<Entry>)
    requires NewerThan(a, lower) && NewerThan(b, lower) && upper' <= a + b && lower' <= lower
    ensures NewerThan(upper', lower')
  {
  }

  /** What each level may hold after the replacement. */
  lemma ReplacedContents(v: Version, level: nat, inputs0: seq<FileMeta>, inputs1: seq<FileMeta>, outputs: seq<FileMeta>, w: Version)
    requires Replaced(v, level, inputs0, inputs1, outputs, w)
    ensures forall l :: 0 <= l < NUM_LEVELS && l != level + 1 ==> LevelContents(w[l]) <= LevelContents(v[l])
    ensures LevelContents(w[level + 1]) <= LevelContents(v[level + 1]) + LevelContents(outputs)
  {
    forall l | 0 <= l < NUM_LEVELS && l != level + 1
      ensures LevelContents(w[l]) <= LevelContents(v[l])
    {
      SameFiles(w[l], v[l]);
    }
    forall f, e | f in w[level + 1] && e in f.entries
      ensures e in LevelContents(v[level + 1]) + LevelContents(outputs)
    {
      assert f in Files(w[level + 1]);
    }
  }

  lemma InputsContents(v: Version, level: nat, inputs0: seq<FileMeta>, inputs1: seq<FileMeta>)
    requires ProperInputs(v, level, inputs0, inputs1)
    ensures LevelContents(inputs0) <= LevelContents(v[level]) && LevelContents(inputs1) <= LevelContents(v[level + 1])
  {
  }

  /** The files that stay at the level are newer than every output. */
  lemma StayingIsNewer(v: Version, level: nat, inputs0: seq<FileMeta>, inputs1: seq<FileMeta>, outputs: seq<FileMeta>, w: Version)
    requires WellFormed(v) && ProperInputs(v, level, inputs0, inputs1)
    requires Replaced(v, level, inputs0, inputs1, outputs, w) && MadeOf(outputs, inputs0, inputs1)
    ensures NewerThan(LevelContents(w[level]), LevelContents(w[level + 1]))
  {
    hide ValidFiles, Disjoint, LevelZeroOrder, UniqueKeys, InOrder, Overlapping, SmallestOf, LargestOf;
    ReplacedContents(v, level, inputs0, inputs1, outputs, w);
    InputsContents(v, level, inputs0, inputs1);
    assert NewerThan(LevelContents(v[level]), LevelContents(v[level + 1]));
    forall e, d | e in LevelContents(w[level]) && d in LevelContents(w[level + 1]) && e.key.user == d.key.user
      ensures d.key.sequence < e.key.sequence
    {
      if d in LevelContents(inputs0) {
        var f :| f in w[level] && e in f.entries;
        assert f in Files(w[level]);
        assert NewerThan(Contents(f.entries), LevelContents(inputs0));
        assert e in Contents(f.entries);
      }
    }
  }

  lemma ReplacedLevelsOrdered(v: Version, level: nat, inputs0: seq<FileMeta>, inputs1: seq<FileMeta>, outputs: seq<FileMeta>, w: Version,
                              l: nat, m: nat)
    requires WellFormed(v) && ProperInputs(v, level, inputs0, inputs1)
    requires Replaced(v, level, inputs0, inputs1, outputs, w) && MadeOf(outputs, inputs0, inputs1)
    requires l < m < NUM_LEVELS
    ensures NewerThan(LevelContents(w[l]), LevelContents(w[m]))
  {
    hide NewerThan, ValidFiles, Disjoint, LevelZeroOrder, UniqueKeys, LeavesOnlyNewer, InOrder, Overlapping, LevelContents;
    ReplacedContents(v, level, inputs0, inputs1, outputs, w);
    InputsContents(v, level, inputs0, inputs1);
    if l == level && m == level + 1 {
      StayingIsNewer(v, level, inputs0, inputs1, outputs, w);
    } else if m == level + 1 {
      NewerThanBoth(LevelContents(v[l]), LevelContents(w[l]), LevelContents(v[level]), LevelContents(v[level + 1]), LevelContents(w[m]));
    } else if l == level + 1 {
      BothNewerThan(LevelContents(v[level]), LevelContents(v[level + 1]), LevelContents(w[l]), LevelContents(v[m]), LevelContents(w[m]));
    } else {
      NewerThanParts(LevelContents(v[l]), LevelContents(w[l]), LevelContents(v[m]), LevelContents(w[m]));
    }
  }

  lemma ReplacedDisjoint(v: Version, level: nat, inputs0: seq<FileMeta>, inputs1: seq<FileMeta>, outputs: seq<FileMeta>, w: Version)
    requires WellFormed(v) && ProperInputs(v, level, inputs0, inputs1)
    requires Replaced(v, level, inputs0, inputs1, outputs, w) && MadeOf(outputs, inputs0, inputs1)
    requires ValidFiles(outputs) && Disjoint(outputs)
    ensures ValidFiles(w[level + 1]) && Disjoint(w[level + 1])
  {
    var files := w[level + 1];
    forall f | f in files
      ensures f in outputs || (f in v[level + 1] && f !in inputs1)
    {
      assert f in Files(files);
    }
    forall f, g | f in files && g in files && f != g
      ensures Apart(f, g)
    {
      if f in outputs && g in outputs {
        DisjointAreApart(outputs, f, g);
      } else if f !in outputs && g !in outputs {
        DisjointAreApart(v[level + 1], f, g);
      } else if f in outputs {
        OutputContents(outputs, f, inputs0, inputs1);
        OutputApartFromRest(v, level, inputs0, inputs1, f, g);
      } else {
        OutputContents(outputs, g, inputs0, inputs1);
        OutputApartFromRest(v, level, inputs0, inputs1, g, f);
      }
    }
    ApartInOrderIsDisjoint(files);
  }

  lemma OutputContents(outputs: seq<FileMeta>, f: FileMeta, inputs0: seq<FileMeta>, inputs1: seq<FileMeta>)
    requires f in outputs && MadeOf(outputs, inputs0, inputs1)
    ensures Contents(f.entries) <= LevelContents(inputs0) + LevelContents(inputs1)
  {
    assert forall e :: e in f.entries ==> e in LevelContents(outputs);
  }

  lemma ReplacedPart(v: Version, level: nat, inputs0: seq<FileMeta>, inputs1: seq<FileMeta>, outputs: seq<FileMeta>, w: Version)
    requires WellFormed(v) && ProperInputs(v, level, inputs0, inputs1)
    requires Replaced(v, level, inputs0, inputs1, outputs, w) && MadeOf(outputs, inputs0, inputs1)
    ensures VersionContents(w) <= VersionContents(v)
  {
    ReplacedContents(v, level, inputs0, inputs1, outputs, w);
    InputsContents(v, level, inputs0, inputs1);
    forall l, e | 0 <= l < NUM_LEVELS && e in LevelContents(w[l])
      ensures e in VersionContents(v)
    {
      if l == level + 1 {
        assert e in LevelContents(v[level]) || e in LevelContents(v[level + 1]);
      } else {
        assert e in LevelContents(v[l]);
      }
    }
  }

  /**
   * Level order survives a compaction or a trivial move: for one user key, shallower levels stay
   * strictly newer, and levels above 0 stay sorted and disjoint.
   */
  lemma ReplacedIsWellFormed(v: Version, level: nat, inputs0: seq<FileMeta>, inputs1: seq<FileMeta>, outputs: seq<FileMeta>, w: Version)
    requires WellFormed(v) && ProperInputs(v, level, inputs0, inputs1)
    requires Replaced(v, level, inputs0, inputs1, outputs, w) && MadeOf(outputs, inputs0, inputs1)
    requires ValidFiles(outputs) && Disjoint(outputs)
    ensures WellFormed(w)
  {
    hide NewerThan, ProperInputs, MadeOf, LevelContents, InOrder;
    forall l, m | 0 <= l < m < NUM_LEVELS
      ensures NewerThan(LevelContents(w[l]), LevelContents(w[m]))
    {
      ReplacedLevelsOrdered(v, level, inputs0, inputs1, outputs, w, l, m);
    }
    ReplacedDisjoint(v, level, inputs0, inputs1, outputs, w);
    forall l | 0 <= l < NUM_LEVELS && l != level + 1
      ensures ValidFiles(w[l]) && (l == 0 ==> LevelZeroOrder(w[l])) && (l > 0 ==> Disjoint(w[l]))
    {
      SameFiles(w[l], v[l]);
    }
    ReplacedPart(v, level, inputs0, inputs1, outputs, w);
  }
}
