/** The compaction loop and its drop rules (db/db_impl: DoCompactionWork; db/version_set: IsBaseLevelForKey). */
module CompactionWork {
  import opened Common
  import opened DbFormat
  import opened VersionSet

  /** No file two or more levels below the compaction's level covers the user key. */
  ghost predicate IsBaseLevel(v: Version, level: nat, k: UserKey) {
    forall l, f :: level + 2 <= l < |v| && f in v[l] ==> !(f.smallest.user <= k <= f.largest.user)
  }

  ghost function BaseLevelKeys(v: Version, level: nat): iset<UserKey> {
    iset k | IsBaseLevel(v, level, k)
  }

  /** Entry `i` of the merged input is dropped: (A) hidden by a newer entry no reader can miss, or (B) an obsolete tombstone. */
  ghost predicate Dropped(input: seq<Entry>, smallestSnapshot: nat, bases: iset<UserKey>, i: nat)
    requires i < |input|
  {
    var key := input[i].key;
    || (0 < i && input[i - 1].key.user == key.user && input[i - 1].key.sequence <= smallestSnapshot)
    || (key.kind.Deletion? && key.sequence <= smallestSnapshot && key.user in bases)
  }

  /** What the first `n` input entries leave in the outputs. */
  ghost function Kept(input: seq<Entry>, smallestSnapshot: nat, bases: iset<UserKey>, n: nat): seq<Entry>
    requires n <= |input|
  {
    if n == 0 then []
    else
      Kept(input, smallestSnapshot, bases, n - 1)
      + if Dropped(input, smallestSnapshot, bases, n - 1) then [] else [input[n - 1]]
  }

  function Concat(files: seq<FileMeta>): seq<Entry> {
    if files == [] then [] else Concat(files[..|files| - 1]) + files[|files| - 1].entries
  }

  /** A finished output file. */
  function OutputFile(number: nat, size: nat, entries: seq<Entry>): FileMeta
    requires entries != []
  {
    FileMeta(number, size, entries[0].key, entries[|entries| - 1].key, entries)
  }

  class Compaction {
    const level: nat
    const inputVersion: Version
    const levelPtrs: array<nat>

    constructor (level: nat, inputVersion: Version)
      requires level + 1 < NUM_LEVELS && WellFormed(inputVersion)
      ensures this.level == level && this.inputVersion == inputVersion && fresh(levelPtrs)
      ensures Deeper() && forall k :: Advanced(k)
    {
      this.level := level;
      this.inputVersion := inputVersion;
      levelPtrs := new nat[NUM_LEVELS](_ => 0);
    }

    /** The cursors have only passed files that end before `k`. */
    ghost predicate Advanced(k: UserKey)
      reads this, levelPtrs
    {
      && levelPtrs.Length == NUM_LEVELS == |inputVersion|
      && forall l :: level + 2 <= l < NUM_LEVELS ==>
        && levelPtrs[l] <= |inputVersion[l]|
        && forall j :: 0 <= j < levelPtrs[l] ==> inputVersion[l][j].largest.user < k
    }

    /** Queries made in input order never go back. */
    lemma NextQuery(input: seq<Entry>, i: nat)
      requires Sorted(input) && i < |input| && Advanced(input[i].key.user)
      ensures i + 1 < |input| ==> Advanced(input[i + 1].key.user)
    {
      if i + 1 < |input| {
        assert Before(input[i].key, input[i + 1].key);
      }
    }

    ghost predicate Deeper() {
      |inputVersion| == NUM_LEVELS && forall l :: level + 2 <= l < NUM_LEVELS ==> ValidFiles(inputVersion[l]) && Disjoint(inputVersion[l])
    }

    /** The moving cursors answer what a fresh scan of the deeper levels would, for ascending queries. */
    method IsBaseLevelForKey(userKey: UserKey) returns (base: bool)
      requires Deeper() && Advanced(userKey)
      modifies levelPtrs
      ensures Advanced(userKey)
      ensures base <==> IsBaseLevel(inputVersion, level, userKey)
    {
      var lvl := level + 2;
      while lvl < NUM_LEVELS
        invariant level + 2 <= lvl && Advanced(userKey)
        invariant forall l, f :: level + 2 <= l < lvl && l < NUM_LEVELS && f in inputVersion[l] ==>
                    !(f.smallest.user <= userKey <= f.largest.user)
      {
        var files := inputVersion[lvl];
        while levelPtrs[lvl] < |files|
          invariant Advanced(userKey)
          decreases |files| - levelPtrs[lvl]
        {
          var f := files[levelPtrs[lvl]];
          if userKey <= f.largest.user {
            if userKey >= f.smallest.user {
              assert f in inputVersion[lvl];
              return false;
            }
            break;
          }
          levelPtrs[lvl] := levelPtrs[lvl] + 1;
        }
        CursorPastKey(files, levelPtrs[lvl], userKey);
        lvl := lvl + 1;
      }
      base := true;
    }
  }

  lemma CursorPastKey(files: seq<FileMeta>, p: nat, k: UserKey)
    requires ValidFiles(files) && Disjoint(files) && p <= |files|
    requires forall j :: 0 <= j < p ==> files[j].largest.user < k
    requires p < |files| ==> k < files[p].smallest.user
    ensures forall f :: f in files ==> !(f.smallest.user <= k <= f.largest.user)
  {
    forall j | p < j < |files|
      ensures k < files[j].smallest.user
    {
      assert files[p] in files;
      FileBounds(files[p], files[p].entries[0]);
      assert Before(files[p].largest, files[j].smallest);
    }
  }

  /** Sequence numbers have 56 bits. */
  predicate AllNumbered(input: seq<Entry>) {
    forall e :: e in input ==> e.key.sequence <= MAX_SEQUENCE_NUMBER
  }

  /** Output file numbers ascend from `first`. */
  predicate Numbered(outputs: seq<FileMeta>, first: nat) {
    forall i :: 0 <= i < |outputs| ==> outputs[i].number == first + i
  }

  /** Every file has the size of what was put into it. */
  predicate Sized(outputs: seq<FileMeta>, fileSize: seq<Entry> -> nat) {
    forall f :: f in outputs ==> f.size == fileSize(f.entries)
  }

  predicate WellBuilt(outputs: seq<FileMeta>) {
    forall f :: f in outputs ==> f.entries != [] && f == OutputFile(f.number, f.size, f.entries)
  }

  // ---------- where the outputs are cut ----------

  /** A file starts with entry `p` of all output entries. */
  ghost predicate StartsAt(outputs: seq<FileMeta>, p: nat) {
    exists m :: 0 <= m < |outputs| && |Concat(outputs[..m])| == p
  }

  /** Two input entries are kept, and none between them. */
  ghost predicate Successive(input: seq<Entry>, smallestSnapshot: nat, bases: iset<UserKey>, a: nat, b: nat) {
    && a < b < |input| && !Dropped(input, smallestSnapshot, bases, a) && !Dropped(input, smallestSnapshot, bases, b)
    && forall i :: a < i < b ==> Dropped(input, smallestSnapshot, bases, i)
  }

  /**
   * Two successive kept entries lie in different files exactly if the first filled its file, or the
   * loop was told to stop before the second or before a dropped entry between them.
   */
  ghost predicate CutWhereTold(input: seq<Entry>, smallestSnapshot: nat, bases: iset<UserKey>, stopBefore: nat -> bool,
                               full: nat -> bool, outputs: seq<FileMeta>) {
    forall a, b :: 0 <= a < b && Successive(input, smallestSnapshot, bases, a, b) ==>
      (StartsAt(outputs, |Kept(input, smallestSnapshot, bases, b)|) <==> full(a) || exists j :: a < j <= b && stopBefore(j))
  }

  /** Whether a file is open when the loop comes to input entry `i`. */
  ghost predicate Open(input: seq<Entry>, smallestSnapshot: nat, bases: iset<UserKey>, stopBefore: nat -> bool, full: nat -> bool, i: nat)
    requires i <= |input|
  {
    0 < i && if Dropped(input, smallestSnapshot, bases, i - 1)
             then Open(input, smallestSnapshot, bases, stopBefore, full, i - 1) && !stopBefore(i - 1)
             else !full(i - 1)
  }

  /** The files so far, and the one being built, start where a kept entry found none open. */
  ghost predicate CutSoFar(input: seq<Entry>, smallestSnapshot: nat, bases: iset<UserKey>, stopBefore: nat -> bool, full: nat -> bool,
                           n: nat, outputs: seq<FileMeta>, builder: Option<seq<Entry>>)
    requires n <= |input|
  {
    forall i :: 0 <= i < n && !Dropped(input, smallestSnapshot, bases, i) ==>
      (Starts(outputs, builder, |Kept(input, smallestSnapshot, bases, i)|) <==>
        !Open(input, smallestSnapshot, bases, stopBefore, full, i) || stopBefore(i))
  }

  /** A finished file or the one being built starts with entry `p`. */
  ghost predicate Starts(outputs: seq<FileMeta>, builder: Option<seq<Entry>>, p: nat) {
    StartsAt(outputs, p) || (builder.Some? && p == |Concat(outputs)|)
  }

  lemma {:induction false} KeptGrows(input: seq<Entry>, smallestSnapshot: nat, bases: iset<UserKey>, m: nat, n: nat)
    requires m < n <= |input| && !Dropped(input, smallestSnapshot, bases, m)
    ensures |Kept(input, smallestSnapshot, bases, m)| < |Kept(input, smallestSnapshot, bases, n)|
    decreases n
  {
    hide Dropped;
    if m < n - 1 {
      KeptGrows(input, smallestSnapshot, bases, m, n - 1);
    }
  }

  /** Nothing starts yet where the next entry will go, unless a file is about to be opened there. */
  lemma NothingStartsNext(outputs: seq<FileMeta>, builder: Option<seq<Entry>>)
    requires WellBuilt(outputs) && builder.Some? && builder.value != []
    ensures !Starts(outputs, builder, |Emitted(outputs, builder)|)
  {
    hide Concat, WellBuilt, StartsAt;
    if StartsAt(outputs, |Emitted(outputs, builder)|) {
      StartsAreBelow(outputs, |Emitted(outputs, builder)|);
    }
  }

  /** The next entry is kept. */
  lemma CutsWhenKept(input: seq<Entry>, smallestSnapshot: nat, bases: iset<UserKey>, stopBefore: nat -> bool, full: nat -> bool,
                     n: nat, outputs: seq<FileMeta>, builder: Option<seq<Entry>>, outputs': seq<FileMeta>, builder': Option<seq<Entry>>)
    requires n < |input| && !Dropped(input, smallestSnapshot, bases, n)
    requires CutSoFar(input, smallestSnapshot, bases, stopBefore, full, n, outputs, builder)
    requires builder.Some? <==> Open(input, smallestSnapshot, bases, stopBefore, full, n) && !stopBefore(n)
    requires Emitted(outputs, builder) == Kept(input, smallestSnapshot, bases, n) && WellBuilt(outputs) && builder != Some([])
    requires forall p :: Starts(outputs', builder', p) <==> Starts(outputs, builder, p) || (builder.None? && p == |Concat(outputs)|)
    ensures CutSoFar(input, smallestSnapshot, bases, stopBefore, full, n + 1, outputs', builder')
  {
    hide Dropped, Open, Kept, Starts, WellBuilt, Concat;
    forall i | 0 <= i < n && !Dropped(input, smallestSnapshot, bases, i)
      ensures |Kept(input, smallestSnapshot, bases, i)| < |Kept(input, smallestSnapshot, bases, n)|
    {
      KeptGrows(input, smallestSnapshot, bases, i, n);
    }
    if builder.Some? {
      NothingStartsNext(outputs, builder);
    }
  }

  lemma CutsWhenDropped(input: seq<Entry>, smallestSnapshot: nat, bases: iset<UserKey>, stopBefore: nat -> bool, full: nat -> bool,
                        n: nat, outputs: seq<FileMeta>, builder: Option<seq<Entry>>)
    requires n < |input| && Dropped(input, smallestSnapshot, bases, n)
    requires CutSoFar(input, smallestSnapshot, bases, stopBefore, full, n, outputs, builder)
    ensures CutSoFar(input, smallestSnapshot, bases, stopBefore, full, n + 1, outputs, builder)
  {
    hide Dropped, Open, Kept, Starts;
  }

  lemma CutsWhenClosed(input: seq<Entry>, smallestSnapshot: nat, bases: iset<UserKey>, stopBefore: nat -> bool, full: nat -> bool,
                       n: nat, outputs: seq<FileMeta>, builder: Option<seq<Entry>>, outputs': seq<FileMeta>)
    requires n <= |input| && CutSoFar(input, smallestSnapshot, bases, stopBefore, full, n, outputs, builder)
    requires forall p :: Starts(outputs', None, p) <==> Starts(outputs, builder, p)
    ensures CutSoFar(input, smallestSnapshot, bases, stopBefore, full, n, outputs', None)
  {
    hide Dropped, Open, Kept, Starts;
  }

  lemma OpenStep(input: seq<Entry>, smallestSnapshot: nat, bases: iset<UserKey>, stopBefore: nat -> bool, full: nat -> bool, i: nat)
    ensures !Open(input, smallestSnapshot, bases, stopBefore, full, 0)
    ensures i < |input| ==>
              (Open(input, smallestSnapshot, bases, stopBefore, full, i + 1) <==>
               if Dropped(input, smallestSnapshot, bases, i)
               then Open(input, smallestSnapshot, bases, stopBefore, full, i) && !stopBefore(i) else !full(i))
  {
    hide Dropped;
  }

  /** From a kept entry on, a file stays open as long as nothing closes it. */
  lemma {:induction false} OpenBetween(input: seq<Entry>, smallestSnapshot: nat, bases: iset<UserKey>, stopBefore: nat -> bool,
                                       full: nat -> bool, a: nat, n: nat)
    requires a < n <= |input| && !Dropped(input, smallestSnapshot, bases, a)
    requires forall i :: a < i < n ==> Dropped(input, smallestSnapshot, bases, i)
    ensures Open(input, smallestSnapshot, bases, stopBefore, full, n) <==> !full(a) && forall j :: a < j < n ==> !stopBefore(j)
    decreases n
  {
    hide Dropped;
    if a < n - 1 {
      OpenBetween(input, smallestSnapshot, bases, stopBefore, full, a, n - 1);
    }
  }

  lemma CutsAreAsTold(input: seq<Entry>, smallestSnapshot: nat, bases: iset<UserKey>, stopBefore: nat -> bool, full: nat -> bool,
                      outputs: seq<FileMeta>)
    requires CutSoFar(input, smallestSnapshot, bases, stopBefore, full, |input|, outputs, None)
    ensures CutWhereTold(input, smallestSnapshot, bases, stopBefore, full, outputs)
  {
    hide Dropped, Open, Kept, StartsAt, Concat;
    forall a, b | 0 <= a < b && Successive(input, smallestSnapshot, bases, a, b)
      ensures StartsAt(outputs, |Kept(input, smallestSnapshot, bases, b)|) <==> full(a) || exists j :: a < j <= b && stopBefore(j)
    {
      OpenBetween(input, smallestSnapshot, bases, stopBefore, full, a, b);
    }
  }

  /** Closing a file: what it starts with is now a start among the outputs. */
  lemma OneMoreStarts(outputs: seq<FileMeta>, f: FileMeta, p: nat)
    ensures StartsAt(outputs + [f], p) <==> StartsAt(outputs, p) || p == |Concat(outputs)|
  {
    hide Concat;
    var more := outputs + [f];
    forall m | 0 <= m <= |outputs|
      ensures more[..m] == outputs[..m]
    {
    }
    assert outputs[..|outputs|] == outputs;
    if StartsAt(outputs, p) {
      var m :| 0 <= m < |outputs| && |Concat(outputs[..m])| == p;
      assert |Concat(more[..m])| == p;
    }
    if p == |Concat(outputs)| {
      assert |Concat(more[..|outputs|])| == p;
    }
  }

  /** Earlier files start at earlier entries. */
  lemma {:induction false} StartsAreBelow(outputs: seq<FileMeta>, p: nat)
    requires WellBuilt(outputs) && StartsAt(outputs, p)
    ensures p < |Concat(outputs)|
  {
    var m :| 0 <= m < |outputs| && |Concat(outputs[..m])| == p;
    var n := |outputs| - 1;
    assert outputs[n] in outputs;
    if m < n {
      assert outputs[..n][..m] == outputs[..m];
      assert forall f :: f in outputs[..n] ==> f in outputs;
      StartsAreBelow(outputs[..n], p);
    }
  }

  /**
   * DBImpl::DoCompactionWork over the merged input. `stopBefore` and `full` stand for the two size
   * heuristics that cut the output into files; `fileSize` for the bytes a table takes. The largest
   * sequence number also marks the first entry of a key, so as a snapshot it would drop everything.
   */
  method DoCompactionWork(compaction: Compaction, input: seq<Entry>, smallestSnapshot: nat, firstNumber: nat,
                          stopBefore: nat -> bool, full: nat -> bool, fileSize: seq<Entry> -> nat)
    returns (outputs: seq<FileMeta>)
    requires compaction.Deeper() && Sorted(input) && (input != [] ==> compaction.Advanced(input[0].key.user))
    modifies compaction.levelPtrs
    ensures smallestSnapshot < MAX_SEQUENCE_NUMBER ==>
              Concat(outputs) == Kept(input, smallestSnapshot, BaseLevelKeys(compaction.inputVersion, compaction.level), |input|)
    ensures MAX_SEQUENCE_NUMBER <= smallestSnapshot && AllNumbered(input) ==> Concat(outputs) == []
    ensures WellBuilt(outputs) && Numbered(outputs, firstNumber) && Sized(outputs, fileSize)
    ensures smallestSnapshot < MAX_SEQUENCE_NUMBER ==>
              CutWhereTold(input, smallestSnapshot, BaseLevelKeys(compaction.inputVersion, compaction.level), stopBefore, full, outputs)
  {
    hide Concat, WellBuilt, Numbered, Kept, Dropped, OutputState, Emitted, AllNumbered, IsBaseLevel;
    hide CutSoFar, CutWhereTold, Open, Starts, Sized;
    NothingSized(fileSize);
    hide Compaction.Advanced, Compaction.Deeper, Sorted;
    NoOutputsYet(firstNumber);
    KeptStep(input, smallestSnapshot, BaseLevelKeys(compaction.inputVersion, compaction.level), 0);
    ghost var bases := BaseLevelKeys(compaction.inputVersion, compaction.level);
    outputs := [];
    var builder: Option<seq<Entry>> := None;
    var hasCurrentUserKey := false;
    var currentUserKey: UserKey := 0.0;
    var lastSequenceForKey := MAX_SEQUENCE_NUMBER;
    var i := 0;
    ghost var live := smallestSnapshot < MAX_SEQUENCE_NUMBER;
    CutsStart(input, smallestSnapshot, bases, stopBefore, full);
    while i < |input|
      invariant i <= |input|
      invariant live ==> CutSoFar(input, smallestSnapshot, bases, stopBefore, full, i, outputs, builder)
      invariant live ==> (builder.Some? <==> Open(input, smallestSnapshot, bases, stopBefore, full, i))
      invariant hasCurrentUserKey <==> 0 < i
      invariant 0 < i ==> currentUserKey == input[i - 1].key.user && lastSequenceForKey == input[i - 1].key.sequence
      invariant i < |input| ==> compaction.Advanced(input[i].key.user)
      invariant OutputState(outputs, builder, firstNumber) && Sized(outputs, fileSize)
      invariant smallestSnapshot < MAX_SEQUENCE_NUMBER ==> Emitted(outputs, builder) == Kept(input, smallestSnapshot, bases, i)
      invariant MAX_SEQUENCE_NUMBER <= smallestSnapshot && AllNumbered(input) ==> Emitted(outputs, builder) == []
    {
      var key := input[i].key;
      if stopBefore(i) && builder.Some? {
        ghost var open, built := outputs, builder;
        outputs := FinishCompactionOutputFile(outputs, firstNumber, builder, fileSize);
        builder := None;
        if live {
          CutsWhenClosed(input, smallestSnapshot, bases, stopBefore, full, i, open, built, outputs);
        }
      }
      var drop := false;
      if !hasCurrentUserKey || key.user != currentUserKey {
        currentUserKey := key.user;
        hasCurrentUserKey := true;
        lastSequenceForKey := MAX_SEQUENCE_NUMBER;
      }
      if lastSequenceForKey <= smallestSnapshot {
        drop := true;
      } else if key.kind.Deletion? && key.sequence <= smallestSnapshot {
        var base := compaction.IsBaseLevelForKey(key.user);
        if base {
          drop := true;
        }
      }
      DropIs(input, smallestSnapshot, bases, i);
      KeptStep(input, smallestSnapshot, bases, i);
      lastSequenceForKey := key.sequence;
      compaction.NextQuery(input, i);
      OpenStep(input, smallestSnapshot, bases, stopBefore, full, i);
      if !drop {
        ghost var open, built := outputs, builder;
        OutputsAreBuilt(outputs, builder, firstNumber);
        outputs, builder := AddToOutput(outputs, firstNumber, builder, input[i], full(i), fileSize);
        if live {
          CutsWhenKept(input, smallestSnapshot, bases, stopBefore, full, i, open, built, outputs, builder);
        }
      } else if live {
        CutsWhenDropped(input, smallestSnapshot, bases, stopBefore, full, i, outputs, builder);
      }
      i := i + 1;
    }
    if builder.Some? {
      ghost var open, built := outputs, builder;
      outputs := FinishCompactionOutputFile(outputs, firstNumber, builder, fileSize);
      if live {
        CutsWhenClosed(input, smallestSnapshot, bases, stopBefore, full, i, open, built, outputs);
      }
    }
    AllOutput(outputs, firstNumber);
    if live {
      CutsAreAsTold(input, smallestSnapshot, bases, stopBefore, full, outputs);
    }
  }

  lemma CutsStart(input: seq<Entry>, smallestSnapshot: nat, bases: iset<UserKey>, stopBefore: nat -> bool, full: nat -> bool)
    ensures CutSoFar(input, smallestSnapshot, bases, stopBefore, full, 0, [], None)
    ensures !Open(input, smallestSnapshot, bases, stopBefore, full, 0)
  {
  }

  lemma OutputsAreBuilt(outputs: seq<FileMeta>, builder: Option<seq<Entry>>, firstNumber: nat)
    requires OutputState(outputs, builder, firstNumber)
    ensures WellBuilt(outputs) && builder != Some([])
  {
    hide WellBuilt, Numbered;
  }

  /** Finished files together with the file being built. */
  function Emitted(outputs: seq<FileMeta>, builder: Option<seq<Entry>>): seq<Entry> {
    Concat(outputs) + if builder.Some? then builder.value else []
  }

  lemma NothingSized(fileSize: seq<Entry> -> nat)
    ensures Sized([], fileSize)
  {
  }

  lemma NoOutputsYet(firstNumber: nat)
    ensures Emitted([], None) == [] && OutputState([], None, firstNumber)
  {
  }

  ghost predicate OutputState(outputs: seq<FileMeta>, builder: Option<seq<Entry>>, firstNumber: nat) {
    && (builder.Some? ==> builder.value != [])
    && WellBuilt(outputs) && Numbered(outputs, firstNumber)
  }

  lemma AllOutput(outputs: seq<FileMeta>, firstNumber: nat)
    requires OutputState(outputs, None, firstNumber)
    ensures Emitted(outputs, None) == Concat(outputs) && WellBuilt(outputs) && Numbered(outputs, firstNumber)
  {
    hide Concat, WellBuilt, Numbered;
  }

  /** The sequence number the loop remembers when it comes to entry `i`. */
  function LastSequence(input: seq<Entry>, i: nat): nat
    requires i < |input|
  {
    if 0 < i && input[i - 1].key.user == input[i].key.user then input[i - 1].key.sequence else MAX_SEQUENCE_NUMBER
  }

  /** The loop's two tests are the two drop rules. */
  lemma DropIs(input: seq<Entry>, smallestSnapshot: nat, bases: iset<UserKey>, i: nat)
    requires i < |input|
    ensures smallestSnapshot < MAX_SEQUENCE_NUMBER ==>
              var key := input[i].key;
              Dropped(input, smallestSnapshot, bases, i) <==>
                LastSequence(input, i) <= smallestSnapshot
                || (key.kind.Deletion? && key.sequence <= smallestSnapshot && key.user in bases)
    ensures MAX_SEQUENCE_NUMBER <= smallestSnapshot && AllNumbered(input) ==> LastSequence(input, i) <= smallestSnapshot
  {
  }

  lemma KeptStep(input: seq<Entry>, smallestSnapshot: nat, bases: iset<UserKey>, n: nat)
    ensures Kept(input, smallestSnapshot, bases, 0) == []
    ensures n < |input| ==>
              Kept(input, smallestSnapshot, bases, n + 1) ==
              Kept(input, smallestSnapshot, bases, n) + if Dropped(input, smallestSnapshot, bases, n) then [] else [input[n]]
  {
    hide Dropped;
  }

  /** Opens an output file if none is open, adds the entry, and closes the file once it is full. */
  method AddToOutput(outputs: seq<FileMeta>, firstNumber: nat, builder: Option<seq<Entry>>, entry: Entry, full: bool,
                     fileSize: seq<Entry> -> nat)
    returns (outputs': seq<FileMeta>, builder': Option<seq<Entry>>)
    requires OutputState(outputs, builder, firstNumber) && Sized(outputs, fileSize)
    ensures Sized(outputs', fileSize)
    ensures Emitted(outputs', builder') == Emitted(outputs, builder) + [entry]
    ensures OutputState(outputs', builder', firstNumber)
    ensures builder'.Some? <==> !full
    ensures forall p :: Starts(outputs', builder', p) <==> Starts(outputs, builder, p) || (builder.None? && p == |Concat(outputs)|)
  {
    hide WellBuilt, Numbered, StartsAt, Concat, Sized;
    outputs', builder' := outputs, builder;
    if builder'.None? {
      builder' := Some([]);
    }
    builder' := Some(builder'.value + [entry]);
    if full {
      outputs' := FinishCompactionOutputFile(outputs', firstNumber, builder', fileSize);
      builder' := None;
    }
  }

  method FinishCompactionOutputFile(outputs: seq<FileMeta>, firstNumber: nat, builder: Option<seq<Entry>>,
                                    fileSize: seq<Entry> -> nat)
    returns (r: seq<FileMeta>)
    requires builder.Some? && OutputState(outputs, builder, firstNumber) && Sized(outputs, fileSize)
    ensures Sized(r, fileSize)
    ensures Emitted(r, None) == Emitted(outputs, builder)
    ensures OutputState(r, None, firstNumber)
    ensures forall p :: Starts(r, None, p) <==> Starts(outputs, builder, p)
  {
    var f := OutputFile(firstNumber + |outputs|, fileSize(builder.value), builder.value);
    r := outputs + [f];
    assert r[..|r| - 1] == outputs;
    forall p
      ensures Starts(r, None, p) <==> Starts(outputs, builder, p)
    {
      OneMoreStarts(outputs, f, p);
    }
  }
}
