/** The MANIFEST of a running store, and the version it brings back (db/version_set). */
module Manifest {
  import opened DbFormat
  import opened VersionSet
  import opened CompactionInputs
  import opened CompactionWork
  import opened CompactionStep
  import opened VersionBuilder
  import opened VersionChanges
  import opened DbRun

  // ---------- the edit of each step ----------

  lemma OneAddition(level: nat, f: FileMeta, l: nat)
    ensures AddedAt([(level, f)], l) == if l == level then {f} else {}
    ensures NumbersAt([(level, f)], l) == if l == level then {f.number} else {}
  {
    assert [(level, f)][0] == (level, f);
  }

  /** Compaction::AddInputDeletions. */
  function InputDeletions(level: nat, inputs0: seq<FileMeta>, inputs1: seq<FileMeta>): set<(nat, nat)> {
    (set f | f in inputs0 :: (level, f.number)) + set f | f in inputs1 :: (level + 1, f.number)
  }

  function OutputAdditions(level: nat, outputs: seq<FileMeta>): seq<(nat, FileMeta)> {
    seq(|outputs|, i requires 0 <= i < |outputs| => (level, outputs[i]))
  }

  lemma AdditionsAt(level: nat, outputs: seq<FileMeta>, l: nat)
    ensures AddedAt(OutputAdditions(level, outputs), l) == if l == level then Files(outputs) else {}
    ensures NumbersAt(OutputAdditions(level, outputs), l) == if l == level then (set f | f in outputs :: f.number) else {}
    ensures forall a :: a in OutputAdditions(level, outputs) ==> a.0 == level
  {
    var additions := OutputAdditions(level, outputs);
    forall f | f in outputs
      ensures (level, f) in additions
    {
      var i :| 0 <= i < |outputs| && outputs[i] == f;
      assert additions[i] == (level, f);
    }
    forall a | a in additions
      ensures a.0 == level && a.1 in outputs
    {
    }
  }

  lemma DeletionsAt(level: nat, inputs0: seq<FileMeta>, inputs1: seq<FileMeta>, additions: seq<(nat, FileMeta)>, l: nat)
    ensures DeletedAt(VersionEdit(InputDeletions(level, inputs0, inputs1), additions), l) ==
            if l == level then (set f | f in inputs0 :: f.number)
            else if l == level + 1 then (set f | f in inputs1 :: f.number) else {}
  {
  }

  /** With unique numbers, deleting the numbers of some files of a level deletes exactly those files. */
  lemma SurvivingIsDifference(files: set<FileMeta>, gone: seq<FileMeta>, added: set<FileMeta>)
    requires UniqueNumbers(files) && forall f :: f in gone ==> f in files
    requires forall f, g :: f in files && g in added ==> f.number < g.number
    ensures Surviving(files + added, (set f | f in gone :: f.number) - (set g | g in added :: g.number)) ==
            files - Files(gone) + added
  {
    var numbers := (set f | f in gone :: f.number) - (set g | g in added :: g.number);
    forall f | f in files
      ensures f.number in numbers <==> f in gone
    {
      assert f.number !in (set g | g in added :: g.number);
    }
    forall g | g in added
      ensures g.number !in numbers
    {
    }
  }

  /** The files a compaction takes out of a level. */
  function Gone(level: nat, inputs0: seq<FileMeta>, inputs1: seq<FileMeta>, l: nat): set<FileMeta> {
    if l == level then Files(inputs0) else if l == level + 1 then Files(inputs1) else {}
  }

  /** What LogAndApply writes in a step: nothing, or one record. */
  function LoggedBy(step: Step): seq<VersionEdit> {
    match step
    case Flush(level, f) => [VersionEdit({}, [(level, f)])]
    case TrivialMove(level, f) => [VersionEdit({(level, f.number)}, [(level + 1, f)])]
    case Compact(level, inputs0, inputs1, _, outputs) =>
      [VersionEdit(InputDeletions(level, inputs0, inputs1), OutputAdditions(level + 1, outputs))]
    case _ => []
  }

  function Logged(steps: seq<Step>): seq<VersionEdit> {
    if steps == [] then [] else Logged(steps[..|steps| - 1]) + LoggedBy(steps[|steps| - 1])
  }

  lemma FlushEdits(v: Version, level: nat, f: FileMeta, l: nat)
    requires l < |v|
    ensures EditLevel(Files(v[l]), VersionEdit({}, [(level, f)]), l) == Files(v[l]) + if l == level then {f} else {}
  {
    OneAddition(level, f, l);
    assert DeletedAt(VersionEdit({}, [(level, f)]), l) == {};
  }

  lemma MoveEdits(v: Version, nextFile: nat, level: nat, f: FileMeta, l: nat)
    requires NumbersFit(v, nextFile) && level + 1 < |v| && l < |v| && f in v[level]
    ensures EditLevel(Files(v[l]), VersionEdit({(level, f.number)}, [(level + 1, f)]), l) ==
            if l == level then Files(v[l]) - {f} else if l == level + 1 then Files(v[l]) + {f} else Files(v[l])
  {
    OneAddition(level + 1, f, l);
    assert DeletedAt(VersionEdit({(level, f.number)}, [(level + 1, f)]), l) == if l == level then {f.number} else {};
  }

  lemma InstallEdits(v: Version, nextFile: nat, level: nat, inputs0: seq<FileMeta>, inputs1: seq<FileMeta>, outputs: seq<FileMeta>, l: nat)
    requires NumbersFit(v, nextFile) && level + 1 < |v| && l < |v| && Numbered(outputs, nextFile)
    requires Among(inputs0, v[level]) && Among(inputs1, v[level + 1])
    ensures EditLevel(Files(v[l]), VersionEdit(InputDeletions(level, inputs0, inputs1), OutputAdditions(level + 1, outputs)), l) ==
            Files(v[l]) - Gone(level, inputs0, inputs1, l) + if l == level + 1 then Files(outputs) else {}
  {
    hide InputDeletions, OutputAdditions, Surviving, Numbered, EditLevel;
    NumberedAreDistinct(outputs, nextFile);
    AdditionsAt(level + 1, outputs, l);
    DeletionsAt(level, inputs0, inputs1, OutputAdditions(level + 1, outputs), l);
    var gone := if l == level then inputs0 else if l == level + 1 then inputs1 else [];
    var added := if l == level + 1 then Files(outputs) else {};
    var edit := VersionEdit(InputDeletions(level, inputs0, inputs1), OutputAdditions(level + 1, outputs));
    assert Files(gone) == Gone(level, inputs0, inputs1, l);
    assert DeletedAt(edit, l) == set f | f in gone :: f.number;
    assert NumbersAt(edit.newFiles, l) == set g | g in added :: g.number;
    assert AddedAt(edit.newFiles, l) == added;
    EditLevelIs(Files(v[l]), edit, l);
    SurvivingIsDifference(Files(v[l]), gone, added);
  }

  lemma EditLevelIs(files: set<FileMeta>, edit: VersionEdit, l: nat)
    ensures EditLevel(files, edit, l) ==
            Surviving(files + AddedAt(edit.newFiles, l), DeletedAt(edit, l) - NumbersAt(edit.newFiles, l))
  {
  }

  // ---------- the MANIFEST tells the running store's lists ----------

  /** Files go down only: a file once added at a level is now there or deeper, under the same number. */
  ghost predicate OnlyDown(edits: seq<VersionEdit>, v: Version, nextFile: nat) {
    && (forall l, f :: 0 <= l < NUM_LEVELS && f in AllAdded(edits, l) ==> f.number < nextFile)
    && forall l, f, m, g :: 0 <= l < NUM_LEVELS && f in AllAdded(edits, l) && 0 <= m < |v| && g in v[m] && g.number == f.number ==>
         f == g && l <= m
  }

  ghost predicate Tells(edits: seq<VersionEdit>, v: Version) {
    |v| == NUM_LEVELS && forall l :: 0 <= l < NUM_LEVELS ==> VersionByVersion({}, edits, l) == Files(v[l])
  }

  /** The MANIFEST can be replayed, and edit by edit it leads to the running store's files. */
  ghost predicate Tracked(edits: seq<VersionEdit>, v: Version, nextFile: nat) {
    Tells(edits, v) && Loggable(edits) && OnlyDown(edits, v, nextFile)
  }

  ghost predicate LevelsFit(e: VersionEdit) {
    (forall d :: d in e.deletedFiles ==> d.0 < NUM_LEVELS) && forall a :: a in e.newFiles ==> a.0 < NUM_LEVELS
  }

  /** What a record adds is new, or comes from one level up. */
  ghost predicate Incoming(e: VersionEdit, v: Version, nextFile: nat, w: Version, nextFile': nat) {
    forall l, f :: 0 <= l < NUM_LEVELS && f in AddedAt(e.newFiles, l) ==>
      && l < |w| && f in w[l] && f.number < nextFile'
      && (nextFile <= f.number || (0 < l <= |v| && f in v[l - 1]))
  }

  ghost predicate Leads(v: Version, e: VersionEdit, w: Version) {
    |v| == |w| == NUM_LEVELS && forall l :: 0 <= l < NUM_LEVELS ==> EditLevel(Files(v[l]), e, l) == Files(w[l])
  }

  lemma AllAddedMore(edits: seq<VersionEdit>, e: VersionEdit, l: nat)
    ensures AllAdded(edits + [e], l) == AllAdded(edits, l) + AddedAt(e.newFiles, l)
    ensures VersionByVersion({}, edits + [e], l) == EditLevel(VersionByVersion({}, edits, l), e, l)
  {
    assert (edits + [e])[..|edits|] == edits;
  }

  lemma TellsMore(edits: seq<VersionEdit>, v: Version, e: VersionEdit, w: Version)
    requires Tells(edits, v) && Leads(v, e, w)
    ensures Tells(edits + [e], w)
  {
    hide EditLevel, VersionByVersion;
    forall l | 0 <= l < NUM_LEVELS
      ensures VersionByVersion({}, edits + [e], l) == Files(w[l])
    {
      AllAddedMore(edits, e, l);
    }
  }

  /** A file of the new version was there before at the same level, or the record added it. */
  lemma StayedOrCame(v: Version, e: VersionEdit, w: Version, m: nat, g: FileMeta)
    requires Leads(v, e, w) && m < |w| && g in w[m]
    ensures g in v[m] || g in AddedAt(e.newFiles, m)
  {
    assert g in Files(w[m]);
  }

  lemma DownMore(edits: seq<VersionEdit>, v: Version, nextFile: nat, e: VersionEdit, w: Version, nextFile': nat)
    requires OnlyDown(edits, v, nextFile) && nextFile <= nextFile' && Leads(v, e, w)
    requires Incoming(e, v, nextFile, w, nextFile') && NumbersFit(w, nextFile')
    ensures OnlyDown(edits + [e], w, nextFile')
  {
    hide EditLevel, AllAdded, AddedAt, Files, NumbersFit;
    forall l, f | 0 <= l < NUM_LEVELS && f in AllAdded(edits + [e], l)
      ensures f.number < nextFile'
    {
      AllAddedMore(edits, e, l);
    }
    forall l, f, m, g | 0 <= l < NUM_LEVELS && f in AllAdded(edits + [e], l) && 0 <= m < |w| && g in w[m] && g.number == f.number
      ensures f == g && l <= m
    {
      AllAddedMore(edits, e, l);
      StayedOrCame(v, e, w, m, g);
      if f in AddedAt(e.newFiles, l) {
        SameNumber(w, nextFile', l, m, f, g);
      }
    }
  }

  lemma SameNumber(v: Version, nextFile: nat, l: nat, m: nat, f: FileMeta, g: FileMeta)
    requires NumbersFit(v, nextFile) && l < |v| && m < |v| && f in v[l] && g in v[m] && f.number == g.number
    ensures l == m && f == g
  {
  }

  /** The record's files bear numbers that its level has not seen. */
  lemma NewToTheLevel(edits: seq<VersionEdit>, v: Version, nextFile: nat, e: VersionEdit, w: Version, nextFile': nat, l: nat)
    requires OnlyDown(edits, v, nextFile) && l < NUM_LEVELS
    requires Incoming(e, v, nextFile, w, nextFile') && NumbersFit(w, nextFile')
    ensures Numbers(AllAdded(edits, l)) !! NumbersAt(e.newFiles, l)
    ensures UniqueNumbers(AddedAt(e.newFiles, l))
  {
    hide AllAdded, NumbersFit;
    forall f, g | f in AllAdded(edits, l) && g in AddedAt(e.newFiles, l)
      ensures f.number != g.number
    {
    }
    forall n | n in NumbersAt(e.newFiles, l)
      ensures n !in Numbers(AllAdded(edits, l))
    {
      var a :| a in e.newFiles && a.0 == l && a.1.number == n;
      assert a.1 in AddedAt(e.newFiles, l);
    }
    forall f, g | f in AddedAt(e.newFiles, l) && g in AddedAt(e.newFiles, l) && f.number == g.number
      ensures f == g
    {
      SameNumber(w, nextFile', l, l, f, g);
    }
  }

  lemma AddedOnceMore(edits: seq<VersionEdit>, e: VersionEdit, l: nat)
    requires AddedOnce(edits, l) && Numbers(AllAdded(edits, l)) !! NumbersAt(e.newFiles, l)
    ensures AddedOnce(edits + [e], l)
  {
    hide AllAdded, NumbersAt, Numbers;
    var more := edits + [e];
    forall n {:trigger more[n]} | 0 <= n < |more|
      ensures Numbers(AllAdded(more[..n], l)) !! NumbersAt(more[n].newFiles, l)
    {
      assert more[..n] == if n < |edits| then edits[..n] else edits;
      assert n < |edits| ==> more[n] == edits[n];
    }
  }

  lemma UniqueMore(files: set<FileMeta>, added: set<FileMeta>, newFiles: seq<(nat, FileMeta)>, l: nat)
    requires UniqueNumbers(files) && added == AddedAt(newFiles, l) && UniqueNumbers(added)
    requires Numbers(files) !! NumbersAt(newFiles, l)
    ensures UniqueNumbers(files + added)
  {
    forall f, g | f in files && g in added
      ensures f.number != g.number
    {
      assert f.number in Numbers(files);
      assert g.number in NumbersAt(newFiles, l);
    }
  }

  lemma LoggableMore(edits: seq<VersionEdit>, v: Version, nextFile: nat, e: VersionEdit, w: Version, nextFile': nat)
    requires Loggable(edits) && OnlyDown(edits, v, nextFile) && LevelsFit(e)
    requires Incoming(e, v, nextFile, w, nextFile') && NumbersFit(w, nextFile')
    ensures Loggable(edits + [e])
  {
    hide OnlyDown, Incoming, NumbersFit, AddedOnce, AllAdded, UniqueNumbers, NumbersAt, AddedAt;
    forall l | 0 <= l < NUM_LEVELS
      ensures AddedOnce(edits + [e], l) && UniqueNumbers(AllAdded(edits + [e], l))
    {
      NewToTheLevel(edits, v, nextFile, e, w, nextFile', l);
      AddedOnceMore(edits, e, l);
      AllAddedMore(edits, e, l);
      UniqueMore(AllAdded(edits, l), AddedAt(e.newFiles, l), e.newFiles, l);
    }
  }

  /** One more record keeps the MANIFEST replayable and true. */
  lemma RecordIsTracked(edits: seq<VersionEdit>, v: Version, nextFile: nat, e: VersionEdit, w: Version, nextFile': nat)
    requires Tracked(edits, v, nextFile) && nextFile <= nextFile'
    requires LevelsFit(e) && Leads(v, e, w) && Incoming(e, v, nextFile, w, nextFile') && NumbersFit(w, nextFile')
    ensures Tracked(edits + [e], w, nextFile')
  {
    hide Loggable, OnlyDown, Incoming, NumbersFit, Tells, Leads, LevelsFit;
    TellsMore(edits, v, e, w);
    DownMore(edits, v, nextFile, e, w, nextFile');
    LoggableMore(edits, v, nextFile, e, w, nextFile');
  }

  /** The snapshot record alone tells the version it was taken from. */
  lemma SnapshotIsTracked(v: Version, nextFile: nat)
    requires |v| == NUM_LEVELS && NumbersFit(v, nextFile)
    ensures Tracked([Snapshot(v)], v, nextFile)
  {
    hide NumbersFit, VersionByVersion, AllAdded, AddedOnce, UniqueNumbers, Snapshot;
    var edits := [Snapshot(v)];
    assert edits == edits + [];
    assert edits[0] == Snapshot(v);
    forall l | 0 <= l < NUM_LEVELS
      ensures VersionByVersion({}, edits, l) == Files(v[l]) && AllAdded(edits, l) == Files(v[l]) && AddedOnce(edits, l)
    {
      SnapshotThenEdits(v, [], l);
      SnapshotAdds(v, l);
    }
    SnapshotLevels(v);
    forall l | 0 <= l < NUM_LEVELS
      ensures UniqueNumbers(AllAdded(edits, l))
    {
      UniqueAtLevel(v, nextFile, l);
    }
    SnapshotDown(edits, v, nextFile);
  }

  lemma UniqueAtLevel(v: Version, nextFile: nat, l: nat)
    requires NumbersFit(v, nextFile) && l < |v|
    ensures UniqueNumbers(Files(v[l]))
  {
  }

  lemma SnapshotDown(edits: seq<VersionEdit>, v: Version, nextFile: nat)
    requires |v| == NUM_LEVELS && NumbersFit(v, nextFile) && forall l :: 0 <= l < NUM_LEVELS ==> AllAdded(edits, l) == Files(v[l])
    ensures OnlyDown(edits, v, nextFile)
  {
    hide AllAdded;
  }

  lemma SnapshotAdds(v: Version, l: nat)
    requires l < |v|
    ensures VersionByVersion(Files(v[l]), [], l) == Files(v[l])
    ensures AllAdded([Snapshot(v)], l) == Files(v[l]) && AddedOnce([Snapshot(v)], l)
  {
    hide SnapshotFiles;
    SnapshotFilesIs(v, |v|, l);
    var edits := [Snapshot(v)];
    assert edits[..0] == [];
  }

  lemma {:induction false} SnapshotFilesLevels(v: Version, n: nat)
    requires n <= |v|
    ensures forall a :: a in SnapshotFiles(v, n) ==> a.0 < n
  {
    if 0 < n {
      SnapshotFilesLevels(v, n - 1);
    }
  }

  lemma SnapshotLevels(v: Version)
    requires |v| == NUM_LEVELS
    ensures LevelsFit(Snapshot(v))
  {
    SnapshotFilesLevels(v, |v|);
  }

  // ---------- each step of the store ----------

  lemma FlushIsTracked(edits: seq<VersionEdit>, s: Store, step: Step, t: Store)
    requires step.Flush? && Next(s, step, t) && VersionOk(t.version, t.nextFile) && Tracked(edits, s.version, s.nextFile)
    ensures Tracked(edits + LoggedBy(step), t.version, t.nextFile)
  {
    hide Tracked, WellFormed, MaySinkTo, InOrder, EditLevel, NumbersFit;
    var v, w, level, f := s.version, t.version, step.level, step.table;
    var e := VersionEdit({}, [(level, f)]);
    forall l | 0 <= l < NUM_LEVELS
      ensures EditLevel(Files(v[l]), e, l) == Files(w[l]) && AddedAt(e.newFiles, l) == if l == level then {f} else {}
    {
      FlushEdits(v, level, f, l);
      OneAddition(level, f, l);
    }
    assert f in Files(w[level]);
    RecordIsTracked(edits, v, s.nextFile, e, w, t.nextFile);
  }

  lemma MoveIsTracked(edits: seq<VersionEdit>, s: Store, step: Step, t: Store)
    requires step.TrivialMove? && Next(s, step, t) && VersionOk(s.version, s.nextFile) && VersionOk(t.version, t.nextFile)
    requires Tracked(edits, s.version, s.nextFile)
    ensures Tracked(edits + LoggedBy(step), t.version, t.nextFile)
  {
    hide Tracked, WellFormed, InOrder, EditLevel, NumbersFit;
    var v, w, level, f := s.version, t.version, step.from, step.file;
    var e := VersionEdit({(level, f.number)}, [(level + 1, f)]);
    ChosenAreThere(v, level, [f], []);
    assert [f][0] == f && Files([f]) == {f} && Files([]) == {};
    forall l | 0 <= l < NUM_LEVELS
      ensures EditLevel(Files(v[l]), e, l) == Files(w[l]) && AddedAt(e.newFiles, l) == if l == level + 1 then {f} else {}
    {
      MoveEdits(v, s.nextFile, level, f, l);
      OneAddition(level + 1, f, l);
    }
    assert f in Files(w[level + 1]);
    NumberIsBelow(v, s.nextFile, level, f);
    RecordIsTracked(edits, v, s.nextFile, e, w, t.nextFile);
  }

  lemma NumberIsBelow(v: Version, nextFile: nat, l: nat, f: FileMeta)
    requires NumbersFit(v, nextFile) && l < |v| && f in v[l]
    ensures f.number < nextFile
  {
  }

  lemma ChosenAreThere(v: Version, level: nat, inputs0: seq<FileMeta>, inputs1: seq<FileMeta>)
    requires ProperInputs(v, level, inputs0, inputs1)
    ensures level + 1 < |v| && Among(inputs0, v[level]) && Among(inputs1, v[level + 1])
  {
  }

  lemma CompactIsTracked(edits: seq<VersionEdit>, s: Store, step: Step, t: Store)
    requires step.Compact? && Next(s, step, t) && VersionOk(s.version, s.nextFile) && VersionOk(t.version, t.nextFile)
    requires Tracked(edits, s.version, s.nextFile)
    ensures Tracked(edits + LoggedBy(step), t.version, t.nextFile)
  {
    hide Tracked, ProperInputs, IsMerged, OutputsOf, WellFormed, InOrder, EditLevel, NumbersFit, Numbered, InputDeletions, OutputAdditions, Among;
    var v, w, level, outputs := s.version, t.version, step.from, step.outputs;
    var e := VersionEdit(InputDeletions(level, step.inputs0, step.inputs1), OutputAdditions(level + 1, outputs));
    ChosenAreThere(v, level, step.inputs0, step.inputs1);
    NumberedAreDistinct(outputs, s.nextFile);
    forall l | 0 <= l < NUM_LEVELS
      ensures EditLevel(Files(v[l]), e, l) == Files(w[l]) && AddedAt(e.newFiles, l) == if l == level + 1 then Files(outputs) else {}
    {
      InstallEdits(v, s.nextFile, level, step.inputs0, step.inputs1, outputs, l);
      AdditionsAt(level + 1, outputs, l);
    }
    assert forall f :: f in outputs ==> f in Files(w[level + 1]);
    InstallLevels(level, step.inputs0, step.inputs1, outputs);
    RecordIsTracked(edits, v, s.nextFile, e, w, t.nextFile);
  }

  lemma InstallLevels(level: nat, inputs0: seq<FileMeta>, inputs1: seq<FileMeta>, outputs: seq<FileMeta>)
    requires level + 1 < NUM_LEVELS
    ensures LevelsFit(VersionEdit(InputDeletions(level, inputs0, inputs1), OutputAdditions(level + 1, outputs)))
  {
  }

  /** Whatever a step does to the lists, its record tells; a step without a record leaves them alone. */
  lemma StepIsTracked(edits: seq<VersionEdit>, s: Store, step: Step, t: Store)
    requires Invariant(s) && Next(s, step, t) && Tracked(edits, s.version, s.nextFile)
    ensures Tracked(edits + LoggedBy(step), t.version, t.nextFile)
  {
    hide Tracked, VersionOk, MemoryOk, OutputsOf, ProperInputs, Replaced, AddedTo, MaySinkTo, IsMerged, AddEntries;
    StepKeepsInvariant(s, step, t);
    if step.Flush? {
      FlushIsTracked(edits, s, step, t);
    } else if step.TrivialMove? {
      MoveIsTracked(edits, s, step, t);
    } else if step.Compact? {
      CompactIsTracked(edits, s, step, t);
    } else {
      assert edits + LoggedBy(step) == edits;
    }
  }

  // ---------- a whole run ----------

  /** Steps taken from any well-formed store: part of a run between two openings of the MANIFEST. */
  ghost predicate Goes(states: seq<Store>, steps: seq<Step>) {
    && |states| == |steps| + 1 && Invariant(states[0])
    && forall i :: 0 <= i < |steps| ==> Next(states[i], steps[i], states[i + 1])
  }

  /** A MANIFEST begun with the snapshot record of the store's first version. */
  function ManifestOf(first: Version, steps: seq<Step>): seq<VersionEdit> {
    [Snapshot(first)] + Logged(steps)
  }

  lemma {:induction false} RunIsTracked(states: seq<Store>, steps: seq<Step>, n: nat)
    requires Goes(states, steps) && n <= |steps|
    ensures Invariant(states[n]) && Tracked(ManifestOf(states[0].version, steps[..n]), states[n].version, states[n].nextFile)
  {
    hide Next, Tracked, VersionOk, MemoryOk, Snapshot, LoggedBy;
    if n == 0 {
      StartIsTracked(states[0]);
      assert steps[..0] == [];
      assert ManifestOf(states[0].version, []) == [Snapshot(states[0].version)];
    } else {
      RunIsTracked(states, steps, n - 1);
      StepKeepsInvariant(states[n - 1], steps[n - 1], states[n]);
      StepIsTracked(ManifestOf(states[0].version, steps[..n - 1]), states[n - 1], steps[n - 1], states[n]);
      LoggedMore(states[0].version, steps, n);
    }
  }

  lemma StartIsTracked(s: Store)
    requires Invariant(s)
    ensures Tracked([Snapshot(s.version)], s.version, s.nextFile)
  {
    hide Tracked, NumbersFit, MemoryOk;
    SnapshotIsTracked(s.version, s.nextFile);
  }

  lemma LoggedMore(first: Version, steps: seq<Step>, n: nat)
    requires 0 < n <= |steps|
    ensures ManifestOf(first, steps[..n]) == ManifestOf(first, steps[..n - 1]) + LoggedBy(steps[n - 1])
  {
    assert steps[..n][..n - 1] == steps[..n - 1];
  }

  /**
   * VersionSet::Recover on the MANIFEST of a run: whatever steps the store took, replaying the
   * snapshot record and every record logged since gives back the very lists the running store holds.
   */
  method ReplayManifest(edits: seq<VersionEdit>, ghost states: seq<Store>, ghost steps: seq<Step>) returns (v: Version)
    requires Goes(states, steps) && edits == ManifestOf(states[0].version, steps)
    ensures v == states[|steps|].version
  {
    hide ManifestOf, Loggable, OnlyDown, Next, VersionByVersion, Invariant, InOrder;
    RunIsTracked(states, steps, |steps|);
    assert steps[..|steps|] == steps;
    v := Recover(edits);
    ListsAreOrdered(states[|steps|]);
    TrackedIsUnique(edits, states[|steps|].version, v);
  }

  lemma ListsAreOrdered(s: Store)
    requires Invariant(s)
    ensures |s.version| == NUM_LEVELS && forall l :: 0 <= l < NUM_LEVELS ==> InOrder(s.version[l])
  {
  }

  lemma TrackedIsUnique(edits: seq<VersionEdit>, v: Version, w: Version)
    requires Tells(edits, v) && Tells(edits, w)
    requires forall l :: 0 <= l < NUM_LEVELS ==> InOrder(v[l]) && InOrder(w[l])
    ensures v == w
  {
    hide InOrder, VersionByVersion;
    forall l | 0 <= l < NUM_LEVELS
      ensures v[l] == w[l]
    {
      InOrderIsUnique(v[l], w[l]);
    }
  }
}
