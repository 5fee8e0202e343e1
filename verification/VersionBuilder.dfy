/** Applying edits to a version and replaying the MANIFEST (db/version_set: Builder, WriteSnapshot, Recover). */
module VersionBuilder {
  import opened DbFormat
  import opened VersionSet

  /** A VersionEdit's effect on the file lists: file numbers deleted and files added, with their levels. */
  datatype VersionEdit = VersionEdit(deletedFiles: set<(nat, nat)>, newFiles: seq<(nat, FileMeta)>)

  /** BySmallestKey: by smallest key, ties broken by file number. */
  predicate BySmallestKey(f: FileMeta, g: FileMeta) {
    Compare(f.smallest, g.smallest) < 0 || (Compare(f.smallest, g.smallest) == 0 && f.number < g.number)
  }

  predicate InOrder(files: seq<FileMeta>) {
    forall i, j :: 0 <= i < j < |files| ==> BySmallestKey(files[i], files[j])
  }

  function Files(files: seq<FileMeta>): set<FileMeta> {
    set f | f in files
  }

  /** File numbers identify files, which makes BySmallestKey total on a level. */
  predicate UniqueNumbers(files: set<FileMeta>) {
    forall f, g :: f in files && g in files && f.number == g.number ==> f == g
  }

  // ---------- what an edit means for one level ----------

  function AddedAt(newFiles: seq<(nat, FileMeta)>, level: nat): set<FileMeta> {
    set a | a in newFiles && a.0 == level :: a.1
  }

  function NumbersAt(newFiles: seq<(nat, FileMeta)>, level: nat): set<nat> {
    set a | a in newFiles && a.0 == level :: a.1.number
  }

  function DeletedAt(edit: VersionEdit, level: nat): set<nat> {
    set d | d in edit.deletedFiles && d.0 == level :: d.1
  }

  /** The files a level holds once deletions and additions are taken into account. */
  function Surviving(files: set<FileMeta>, deleted: set<nat>): set<FileMeta> {
    set f | f in files && f.number !in deleted
  }

  /** One edit applied to the files of one level; a number both deleted and added stays. */
  function EditLevel(files: set<FileMeta>, edit: VersionEdit, level: nat): set<FileMeta> {
    Surviving(files + AddedAt(edit.newFiles, level), DeletedAt(edit, level) - NumbersAt(edit.newFiles, level))
  }

  // ---------- the builder ----------

  /** Insertion into the ordered set of added files. */
  function InsertFile(files: seq<FileMeta>, f: FileMeta): seq<FileMeta> {
    if files == [] || BySmallestKey(f, files[0]) then [f] + files
    else if BySmallestKey(files[0], f) then [files[0]] + InsertFile(files[1..], f)
    else files
  }

  lemma {:induction false} InsertFileHolds(files: seq<FileMeta>, f: FileMeta)
    requires UniqueNumbers(Files(files) + {f})
    ensures Files(InsertFile(files, f)) == Files(files) + {f}
  {
    if files == [] || BySmallestKey(f, files[0]) {
      assert Files([f] + files) == {f} + Files(files);
    } else {
      assert files == [files[0]] + files[1..];
      assert Files(files) == {files[0]} + Files(files[1..]);
      if BySmallestKey(files[0], f) {
        InsertFileHolds(files[1..], f);
        assert Files([files[0]] + InsertFile(files[1..], f)) == {files[0]} + Files(InsertFile(files[1..], f));
      }
    }
  }

  lemma {:induction false} InsertFileIs(files: seq<FileMeta>, f: FileMeta)
    requires InOrder(files) && UniqueNumbers(Files(files) + {f})
    ensures InOrder(InsertFile(files, f)) && Files(InsertFile(files, f)) == Files(files) + {f}
  {
    hide UniqueNumbers, InOrder, BySmallestKey;
    InsertFileHolds(files, f);
    if files != [] {
      InOrderParts(files);
      if BySmallestKey(f, files[0]) {
        assert files == [files[0]] + files[1..];
        forall g | g in files
          ensures BySmallestKey(f, g)
        {
          InOrderTransitive(f, files[0], g);
        }
        FirstInOrder(f, files);
      } else if BySmallestKey(files[0], f) {
        var rest := InsertFile(files[1..], f);
        assert Files(files[1..]) <= Files(files);
        InsertFileIs(files[1..], f) by { UniqueNumbersOfPart(Files(files[1..]) + {f}, Files(files) + {f}); }
        forall g | g in rest
          ensures BySmallestKey(files[0], g)
        {
          assert g in Files(rest);
        }
        FirstInOrder(files[0], rest);
      }
    } else {
      assert [f] + files == [f];
      OneInOrder(f);
    }
  }

  lemma OneInOrder(f: FileMeta)
    ensures InOrder([f])
  {
  }

  lemma InOrderTransitive(f: FileMeta, g: FileMeta, h: FileMeta)
    requires BySmallestKey(f, g) && (g == h || BySmallestKey(g, h))
    ensures BySmallestKey(f, h)
  {
  }

  lemma InOrderParts(files: seq<FileMeta>)
    requires InOrder(files) && files != []
    ensures InOrder(files[1..]) && forall g :: g in files[1..] ==> BySmallestKey(files[0], g)
  {
  }

  lemma FirstInOrder(f: FileMeta, files: seq<FileMeta>)
    requires InOrder(files) && forall g :: g in files ==> BySmallestKey(f, g)
    ensures InOrder([f] + files)
  {
  }

  lemma UniqueNumbersOfPart(part: set<FileMeta>, all: set<FileMeta>)
    requires part <= all && UniqueNumbers(all)
    ensures UniqueNumbers(part)
  {
  }

  class Builder {
    const base: Version
    var deletedFiles: seq<set<nat>>
    var addedFiles: seq<seq<FileMeta>>

    ghost predicate Valid()
      reads this
    {
      && |base| == |deletedFiles| == |addedFiles| == NUM_LEVELS
      && forall l :: 0 <= l < NUM_LEVELS ==> InOrder(base[l]) && InOrder(addedFiles[l])
    }

    /** What SaveTo will put at a level. */
    ghost function Level(l: nat): set<FileMeta>
      reads this
      requires Valid() && l < NUM_LEVELS
    {
      Surviving(Files(base[l]) + Files(addedFiles[l]), deletedFiles[l])
    }

    constructor (base: Version)
      requires |base| == NUM_LEVELS && forall l :: 0 <= l < NUM_LEVELS ==> InOrder(base[l])
      ensures Valid() && this.base == base
      ensures forall l :: 0 <= l < NUM_LEVELS ==> deletedFiles[l] == {} && addedFiles[l] == []
    {
      this.base := base;
      deletedFiles := seq(NUM_LEVELS, _ => {});
      addedFiles := seq(NUM_LEVELS, _ => []);
    }

    /** Apply: deletions first, then every added file, which also cancels a pending deletion of its number. */
    method Apply(edit: VersionEdit)
      requires Valid()
      requires forall d :: d in edit.deletedFiles ==> d.0 < NUM_LEVELS
      requires forall a :: a in edit.newFiles ==> a.0 < NUM_LEVELS
      requires forall l :: 0 <= l < NUM_LEVELS ==> UniqueNumbers(Files(addedFiles[l]) + AddedAt(edit.newFiles, l))
      modifies this
      ensures Valid()
      ensures forall l :: 0 <= l < NUM_LEVELS ==>
                && Files(addedFiles[l]) == Files(old(addedFiles[l])) + AddedAt(edit.newFiles, l)
                && deletedFiles[l] == old(deletedFiles[l]) + DeletedAt(edit, l) - NumbersAt(edit.newFiles, l)
    {
      var deleted0 := deletedFiles;
      ghost var added0 := addedFiles;
      deletedFiles := seq(NUM_LEVELS, l requires 0 <= l < NUM_LEVELS => deleted0[l] + DeletedAt(edit, l));
      ghost var marked := deletedFiles;
      for i := 0 to |edit.newFiles|
        invariant Valid() && AddedUpTo(edit.newFiles[..i], added0, marked, addedFiles, deletedFiles)
      {
        ghost var added1, deleted1 := addedFiles, deletedFiles;
        assert edit.newFiles[i] in edit.newFiles;
        AddedStep(edit.newFiles, i, edit.newFiles[i].0);
        AddFile(edit.newFiles[i].0, edit.newFiles[i].1);
        AddedUpToStep(edit.newFiles, i, added0, marked, added1, deleted1, addedFiles, deletedFiles);
      }
      assert edit.newFiles[..|edit.newFiles|] == edit.newFiles;
    }

    method AddFile(level: nat, f: FileMeta)
      requires Valid() && level < NUM_LEVELS && UniqueNumbers(Files(addedFiles[level]) + {f})
      modifies this
      ensures Valid()
      ensures Files(addedFiles[level]) == Files(old(addedFiles[level])) + {f}
      ensures deletedFiles[level] == old(deletedFiles[level]) - {f.number}
      ensures forall l :: 0 <= l < NUM_LEVELS && l != level ==> addedFiles[l] == old(addedFiles[l]) && deletedFiles[l] == old(deletedFiles[l])
    {
      InsertFileIs(addedFiles[level], f);
      deletedFiles := deletedFiles[level := deletedFiles[level] - {f.number}];
      addedFiles := addedFiles[level := InsertFile(addedFiles[level], f)];
    }

    /** SaveTo: every level comes out in order and holds exactly the surviving files. */
    method SaveTo() returns (v: Version)
      requires Valid()
      requires forall l :: 0 <= l < NUM_LEVELS ==>
                 UniqueNumbers(Files(base[l]) + Files(addedFiles[l])) && Files(base[l]) !! Files(addedFiles[l])
      ensures |v| == NUM_LEVELS
      ensures forall l :: 0 <= l < NUM_LEVELS ==> InOrder(v[l]) && Files(v[l]) == Level(l)
    {
      v := [];
      for level := 0 to NUM_LEVELS
        invariant |v| == level
        invariant forall l :: 0 <= l < level ==> InOrder(v[l]) && Files(v[l]) == Level(l)
      {
        var files := MergeLevel(base[level], addedFiles[level], deletedFiles[level]);
        v := v + [files];
      }
    }
  }

  lemma AddedStep(newFiles: seq<(nat, FileMeta)>, i: nat, l: nat)
    requires i < |newFiles|
    ensures AddedAt(newFiles[..i + 1], l) == AddedAt(newFiles[..i], l) + if newFiles[i].0 == l then {newFiles[i].1} else {}
    ensures NumbersAt(newFiles[..i + 1], l) == NumbersAt(newFiles[..i], l) + if newFiles[i].0 == l then {newFiles[i].1.number} else {}
    ensures AddedAt(newFiles[..i], l) <= AddedAt(newFiles, l)
  {
    assert newFiles[..i + 1] == newFiles[..i] + [newFiles[i]];
  }

  ghost predicate AddedUpTo(newFiles: seq<(nat, FileMeta)>, added0: seq<seq<FileMeta>>, deleted0: seq<set<nat>>,
                            added: seq<seq<FileMeta>>, deleted: seq<set<nat>>) {
    && |added0| == |deleted0| == |added| == |deleted| == NUM_LEVELS
    && forall l :: 0 <= l < NUM_LEVELS ==>
      Files(added[l]) == Files(added0[l]) + AddedAt(newFiles, l) && deleted[l] == deleted0[l] - NumbersAt(newFiles, l)
  }

  lemma AddedUpToStep(newFiles: seq<(nat, FileMeta)>, i: nat, added0: seq<seq<FileMeta>>, deleted0: seq<set<nat>>,
                      added1: seq<seq<FileMeta>>, deleted1: seq<set<nat>>, added: seq<seq<FileMeta>>, deleted: seq<set<nat>>)
    requires i < |newFiles| && newFiles[i].0 < NUM_LEVELS && |added| == |deleted| == NUM_LEVELS
    requires AddedUpTo(newFiles[..i], added0, deleted0, added1, deleted1)
    requires var (level, f) := newFiles[i];
             && Files(added[level]) == Files(added1[level]) + {f} && deleted[level] == deleted1[level] - {f.number}
             && forall l :: 0 <= l < NUM_LEVELS && l != level ==> added[l] == added1[l] && deleted[l] == deleted1[l]
    ensures AddedUpTo(newFiles[..i + 1], added0, deleted0, added, deleted)
  {
    forall l | 0 <= l < NUM_LEVELS
      ensures Files(added[l]) == Files(added0[l]) + AddedAt(newFiles[..i + 1], l)
      ensures deleted[l] == deleted0[l] - NumbersAt(newFiles[..i + 1], l)
    {
      AddedStep(newFiles, i, l);
    }
  }

  // ---------- the merge of SaveTo ----------

  function MaybeAddFile(files: seq<FileMeta>, f: FileMeta, deleted: set<nat>): seq<FileMeta> {
    if f.number in deleted then files else files + [f]
  }

  predicate BeforeAll(files: seq<FileMeta>, rest: seq<FileMeta>) {
    forall i, j :: 0 <= i < |files| && 0 <= j < |rest| ==> BySmallestKey(files[i], rest[j])
  }

  ghost predicate MergeState(files: seq<FileMeta>, baseFiles: seq<FileMeta>, b: nat, added: seq<FileMeta>, a: nat, deleted: set<nat>)
    requires b <= |baseFiles| && a <= |added|
  {
    && InOrder(files) && BeforeAll(files, baseFiles[b..]) && BeforeAll(files, added[a..])
    && Files(files) == Surviving(Files(baseFiles[..b]) + Files(added[..a]), deleted)
  }

  /** Putting out the next file keeps the order as long as it precedes everything still to come. */
  lemma PushKeepsOrder(files: seq<FileMeta>, f: FileMeta, rest: seq<FileMeta>, deleted: set<nat>)
    requires InOrder(files) && BeforeAll(files, [f]) && BeforeAll(files, rest) && BeforeAll([f], rest)
    ensures var r := MaybeAddFile(files, f, deleted);
            InOrder(r) && BeforeAll(r, rest) && Files(r) == Files(files) + Surviving({f}, deleted)
  {
    if f.number !in deleted {
      forall i | 0 <= i < |files|
        ensures BySmallestKey(files[i], f)
      {
        assert BySmallestKey(files[i], [f][0]);
      }
      forall j | 0 <= j < |rest|
        ensures BySmallestKey(f, rest[j])
      {
        assert BySmallestKey([f][0], rest[j]);
      }
    }
  }

  lemma FilesStep(files: seq<FileMeta>, i: nat)
    requires i < |files|
    ensures Files(files[..i + 1]) == Files(files[..i]) + {files[i]}
    ensures files[i..] == [files[i]] + files[i + 1..]
    ensures InOrder(files) ==> BeforeAll([files[i]], files[i + 1..])
  {
    assert files[..i + 1] == files[..i] + [files[i]];
  }

  lemma BeforeAllParts(files: seq<FileMeta>, x: seq<FileMeta>, y: seq<FileMeta>)
    ensures BeforeAll(files, x + y) <==> BeforeAll(files, x) && BeforeAll(files, y)
  {
    if BeforeAll(files, x + y) {
      forall i, j | 0 <= i < |files| && 0 <= j < |x|
        ensures BySmallestKey(files[i], x[j])
      {
        assert BySmallestKey(files[i], (x + y)[j]);
      }
      forall i, j | 0 <= i < |files| && 0 <= j < |y|
        ensures BySmallestKey(files[i], y[j])
      {
        assert BySmallestKey(files[i], (x + y)[|x| + j]);
      }
    }
  }

  /** Either list may deliver the next file when its head precedes the other list's head. */
  lemma PushNext(files: seq<FileMeta>, mine: seq<FileMeta>, m: nat, other: seq<FileMeta>, o: nat, deleted: set<nat>)
    requires m < |mine| && o <= |other| && InOrder(mine) && InOrder(other)
    requires o < |other| ==> BySmallestKey(mine[m], other[o])
    requires MergeState(files, mine, m, other, o, deleted)
    ensures MergeState(MaybeAddFile(files, mine[m], deleted), mine, m + 1, other, o, deleted)
  {
    FilesStep(mine, m);
    BeforeAllParts(files, [mine[m]], mine[m + 1..]);
    PushKeepsOrder(files, mine[m], mine[m + 1..], deleted);
    if o < |other| {
      FilesStep(other, o);
      assert BeforeAll([mine[m]], [other[o]]);
      var rest := other[o + 1..];
      forall j | 0 <= j < |rest|
        ensures BySmallestKey(mine[m], rest[j])
      {
        assert BySmallestKey([other[o]][0], rest[j]);
      }
      BeforeAllParts([mine[m]], [other[o]], other[o + 1..]);
    }
    PushKeepsOrder(files, mine[m], other[o..], deleted);
  }

  /** The merge of SaveTo for one level: base files up to each added file, the added file, then the rest. */
  method MergeLevel(baseFiles: seq<FileMeta>, added: seq<FileMeta>, deleted: set<nat>) returns (files: seq<FileMeta>)
    requires InOrder(baseFiles) && InOrder(added)
    requires UniqueNumbers(Files(baseFiles) + Files(added)) && Files(baseFiles) !! Files(added)
    ensures InOrder(files) && Files(files) == Surviving(Files(baseFiles) + Files(added), deleted)
  {
    files := [];
    var b := 0;
    for a := 0 to |added|
      invariant b <= |baseFiles| && MergeState(files, baseFiles, b, added, a, deleted)
    {
      while b < |baseFiles| && !BySmallestKey(added[a], baseFiles[b])
        invariant b <= |baseFiles| && MergeState(files, baseFiles, b, added, a, deleted)
      {
        HeadsDiffer(baseFiles, b, added, a);
        PushNext(files, baseFiles, b, added, a, deleted);
        files := MaybeAddFile(files, baseFiles[b], deleted);
        b := b + 1;
      }
      SwapSides(files, baseFiles, b, added, a, deleted);
      PushNext(files, added, a, baseFiles, b, deleted);
      files := MaybeAddFile(files, added[a], deleted);
      SwapSides(files, added, a + 1, baseFiles, b, deleted);
    }
    while b < |baseFiles|
      invariant b <= |baseFiles| && MergeState(files, baseFiles, b, added, |added|, deleted)
    {
      PushNext(files, baseFiles, b, added, |added|, deleted);
      files := MaybeAddFile(files, baseFiles[b], deleted);
      b := b + 1;
    }
    assert baseFiles[..|baseFiles|] == baseFiles && added[..|added|] == added;
  }

  lemma HeadsDiffer(baseFiles: seq<FileMeta>, b: nat, added: seq<FileMeta>, a: nat)
    requires b < |baseFiles| && a < |added|
    requires UniqueNumbers(Files(baseFiles) + Files(added)) && Files(baseFiles) !! Files(added)
    ensures BySmallestKey(added[a], baseFiles[b]) || BySmallestKey(baseFiles[b], added[a])
  {
    assert baseFiles[b] in Files(baseFiles) && added[a] in Files(added);
  }

  lemma SwapSides(files: seq<FileMeta>, x: seq<FileMeta>, i: nat, y: seq<FileMeta>, j: nat, deleted: set<nat>)
    requires i <= |x| && j <= |y| && MergeState(files, x, i, y, j, deleted)
    ensures MergeState(files, y, j, x, i, deleted)
  {
    assert Files(x[..i]) + Files(y[..j]) == Files(y[..j]) + Files(x[..i]);
  }

  // ---------- replaying the MANIFEST ----------

  /** The files of one level after the edits, one version at a time, starting from `files`. */
  function VersionByVersion(files: set<FileMeta>, edits: seq<VersionEdit>, level: nat): set<FileMeta> {
    if edits == [] then files
    else EditLevel(VersionByVersion(files, edits[..|edits| - 1], level), edits[|edits| - 1], level)
  }

  /** The files and deletions one Builder has gathered for a level after applying all edits. */
  function AllAdded(edits: seq<VersionEdit>, level: nat): set<FileMeta> {
    if edits == [] then {}
    else AllAdded(edits[..|edits| - 1], level) + AddedAt(edits[|edits| - 1].newFiles, level)
  }

  function PendingDeletions(edits: seq<VersionEdit>, level: nat): set<nat> {
    if edits == [] then {}
    else
      var last := edits[|edits| - 1];
      PendingDeletions(edits[..|edits| - 1], level) + DeletedAt(last, level) - NumbersAt(last.newFiles, level)
  }

  function Numbers(files: set<FileMeta>): set<nat> {
    set f | f in files :: f.number
  }

  /** No file number is added to the level by two different edits. */
  ghost predicate AddedOnce(edits: seq<VersionEdit>, level: nat) {
    forall n {:trigger edits[n]} :: 0 <= n < |edits| ==>
      Numbers(AllAdded(edits[..n], level)) !! NumbersAt(edits[n].newFiles, level)
  }

  /** One Builder fed every edit survives with exactly the files that applying each edit to its own version gives. */
  lemma {:induction false} ReplayIsVersionByVersion(edits: seq<VersionEdit>, level: nat)
    requires AddedOnce(edits, level)
    ensures Surviving(AllAdded(edits, level), PendingDeletions(edits, level)) == VersionByVersion({}, edits, level)
  {
    if edits != [] {
      var n := |edits| - 1;
      var init, last := edits[..n], edits[n];
      forall m | 0 <= m < n
        ensures Numbers(AllAdded(init[..m], level)) !! NumbersAt(init[m].newFiles, level)
      {
        assert init[..m] == edits[..m] && init[m] == edits[m];
      }
      ReplayIsVersionByVersion(init, level);
      var added, pending := AllAdded(init, level), PendingDeletions(init, level);
      forall f | f in added
        ensures f.number !in NumbersAt(last.newFiles, level)
      {
        assert f.number in Numbers(added);
      }
      forall f | f in AddedAt(last.newFiles, level)
        ensures f.number in NumbersAt(last.newFiles, level)
      {
      }
    }
  }

  /** A level's file list is determined by its set of files. */
  lemma {:induction false} InOrderIsUnique(x: seq<FileMeta>, y: seq<FileMeta>)
    requires InOrder(x) && InOrder(y) && Files(x) == Files(y)
    ensures x == y
  {
    if x != [] {
      assert x[0] in Files(x);
    }
    if y != [] {
      assert y[0] in Files(y);
    }
    if x != [] && y != [] {
      TailFiles(x);
      TailFiles(y);
      InOrderIsUnique(x[1..], y[1..]);
      assert x == [x[0]] + x[1..] && y == [y[0]] + y[1..];
    }
  }

  lemma TailFiles(x: seq<FileMeta>)
    requires x != [] && InOrder(x)
    ensures Files(x[1..]) == Files(x) - {x[0]}
  {
    assert x == [x[0]] + x[1..];
  }

  /** The record written by WriteSnapshot: every file of the current version. */
  function SnapshotFiles(v: Version, n: nat): seq<(nat, FileMeta)>
    requires n <= |v|
  {
    if n == 0 then [] else SnapshotFiles(v, n - 1) + seq(|v[n - 1]|, i requires 0 <= i < |v[n - 1]| => (n - 1, v[n - 1][i]))
  }

  function Snapshot(v: Version): VersionEdit {
    VersionEdit({}, SnapshotFiles(v, |v|))
  }

  lemma AddedAtParts(x: seq<(nat, FileMeta)>, y: seq<(nat, FileMeta)>, level: nat)
    ensures AddedAt(x + y, level) == AddedAt(x, level) + AddedAt(y, level)
  {
  }

  lemma {:induction false} SnapshotFilesIs(v: Version, n: nat, level: nat)
    requires n <= |v|
    ensures AddedAt(SnapshotFiles(v, n), level) == if level < n then Files(v[level]) else {}
  {
    if 0 < n {
      SnapshotFilesIs(v, n - 1, level);
      var part := seq(|v[n - 1]|, i requires 0 <= i < |v[n - 1]| => (n - 1, v[n - 1][i]));
      AddedAtParts(SnapshotFiles(v, n - 1), part, level);
      if level == n - 1 {
        forall f | f in v[level]
          ensures (level, f) in part
        {
          var i :| 0 <= i < |v[level]| && v[level][i] == f;
          assert part[i] == (level, f);
        }
      }
    }
  }

  /** A MANIFEST that starts with a snapshot record tells the history of the version it was taken from. */
  lemma {:induction false} SnapshotThenEdits(v: Version, edits: seq<VersionEdit>, level: nat)
    requires level < |v|
    ensures VersionByVersion({}, [Snapshot(v)] + edits, level) == VersionByVersion(Files(v[level]), edits, level)
  {
    var records := [Snapshot(v)] + edits;
    var n := |edits|;
    if n == 0 {
      SnapshotFilesIs(v, |v|, level);
      assert records[..0] == [];
    } else {
      SnapshotThenEdits(v, edits[..n - 1], level);
      assert records[..n] == [Snapshot(v)] + edits[..n - 1];
    }
  }

  ghost predicate Loggable(edits: seq<VersionEdit>) {
    && (forall e :: e in edits ==> (forall d :: d in e.deletedFiles ==> d.0 < NUM_LEVELS) && forall a :: a in e.newFiles ==> a.0 < NUM_LEVELS)
    && forall l :: 0 <= l < NUM_LEVELS ==> AddedOnce(edits, l) && UniqueNumbers(AllAdded(edits, l))
  }

  /**
   * VersionSet::Recover: replaying the snapshot record and every later edit in one Builder over the
   * empty version gives, level by level, the list that the running store had reached edit by edit.
   */
  method Recover(edits: seq<VersionEdit>) returns (v: Version)
    requires Loggable(edits)
    ensures |v| == NUM_LEVELS
    ensures forall l :: 0 <= l < NUM_LEVELS ==> InOrder(v[l]) && Files(v[l]) == VersionByVersion({}, edits, l)
  {
    var builder := new Builder(seq(NUM_LEVELS, _ => []));
    for i := 0 to |edits|
      invariant fresh(builder) && builder.Valid() && builder.base == seq(NUM_LEVELS, _ => [])
      invariant Gathered(edits[..i], builder.addedFiles, builder.deletedFiles)
    {
      MayApply(edits, i, builder.addedFiles, builder.deletedFiles);
      ghost var added, deleted := builder.addedFiles, builder.deletedFiles;
      builder.Apply(edits[i]);
      GatheredStep(edits, i, added, deleted, builder.addedFiles, builder.deletedFiles);
    }
    assert edits[..|edits|] == edits;
    v := builder.SaveTo();
    SavedIsReplayed(edits, builder.addedFiles, builder.deletedFiles);
  }

  ghost predicate Gathered(edits: seq<VersionEdit>, added: seq<seq<FileMeta>>, deleted: seq<set<nat>>) {
    && |added| == |deleted| == NUM_LEVELS
    && forall l :: 0 <= l < NUM_LEVELS ==> Files(added[l]) == AllAdded(edits, l) && deleted[l] == PendingDeletions(edits, l)
  }

  lemma MayApply(edits: seq<VersionEdit>, i: nat, added: seq<seq<FileMeta>>, deleted: seq<set<nat>>)
    requires Loggable(edits) && i < |edits| && Gathered(edits[..i], added, deleted)
    ensures edits[i] in edits
    ensures forall l :: 0 <= l < NUM_LEVELS ==> UniqueNumbers(Files(added[l]) + AddedAt(edits[i].newFiles, l))
  {
    forall l | 0 <= l < NUM_LEVELS
      ensures UniqueNumbers(Files(added[l]) + AddedAt(edits[i].newFiles, l))
    {
      AllAddedGrows(edits, i + 1, l);
      assert edits[..i + 1][..i] == edits[..i];
    }
  }

  lemma GatheredStep(edits: seq<VersionEdit>, i: nat, added: seq<seq<FileMeta>>, deleted: seq<set<nat>>,
                     added': seq<seq<FileMeta>>, deleted': seq<set<nat>>)
    requires i < |edits| && Gathered(edits[..i], added, deleted) && |added'| == |deleted'| == NUM_LEVELS
    requires forall l :: 0 <= l < NUM_LEVELS ==>
               && Files(added'[l]) == Files(added[l]) + AddedAt(edits[i].newFiles, l)
               && deleted'[l] == deleted[l] + DeletedAt(edits[i], l) - NumbersAt(edits[i].newFiles, l)
    ensures Gathered(edits[..i + 1], added', deleted')
  {
    assert edits[..i + 1][..i] == edits[..i];
  }

  lemma SavedIsReplayed(edits: seq<VersionEdit>, added: seq<seq<FileMeta>>, deleted: seq<set<nat>>)
    requires Loggable(edits) && Gathered(edits, added, deleted)
    ensures forall l :: 0 <= l < NUM_LEVELS ==> Surviving({} + Files(added[l]), deleted[l]) == VersionByVersion({}, edits, l)
  {
    forall l | 0 <= l < NUM_LEVELS
      ensures Surviving({} + Files(added[l]), deleted[l]) == VersionByVersion({}, edits, l)
    {
      ReplayIsVersionByVersion(edits, l);
    }
  }

  lemma {:induction false} AllAddedGrows(edits: seq<VersionEdit>, n: nat, l: nat)
    requires n <= |edits|
    ensures AllAdded(edits[..n], l) <= AllAdded(edits, l)
    decreases |edits| - n
  {
    if n < |edits| {
      AllAddedGrows(edits, n + 1, l);
      assert edits[..n + 1][..n] == edits[..n];
    } else {
      assert edits[..n] == edits;
    }
  }
}
