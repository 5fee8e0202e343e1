/** Choosing the input files of a compaction (db/version_set: GetOverlappingInputs, AddBoundaryInputs, SetupOtherInputs). */
module CompactionInputs {
  import opened Common
  import opened DbFormat
  import opened VersionSet

  // ---------- files overlapping a range ----------

  /** The file meets the range; a missing bound is unlimited. */
  predicate InRange(f: FileMeta, begin: Option<UserKey>, end: Option<UserKey>) {
    && (begin.Some? ==> begin.value <= f.largest.user)
    && (end.Some? ==> f.smallest.user <= end.value)
  }

  /** The file lies inside the range. */
  predicate Within(f: FileMeta, begin: Option<UserKey>, end: Option<UserKey>) {
    && (begin.Some? ==> begin.value <= f.smallest.user)
    && (end.Some? ==> f.largest.user <= end.value)
  }

  /** The files meeting a range, in list order. */
  function Overlapping(files: seq<FileMeta>, begin: Option<UserKey>, end: Option<UserKey>): (r: seq<FileMeta>)
    ensures forall f :: f in r <==> f in files && InRange(f, begin, end)
  {
    if files == [] then []
    else
      var n := |files| - 1;
      assert files == files[..n] + [files[n]];
      Overlapping(files[..n], begin, end) + if InRange(files[n], begin, end) then [files[n]] else []
  }

  /** Two files share a user key range. */
  predicate Touch(f: FileMeta, g: FileMeta) {
    f.smallest.user <= g.largest.user && g.smallest.user <= f.largest.user
  }

  ghost predicate TouchClosed(files: seq<FileMeta>, chosen: set<FileMeta>) {
    forall f, g :: f in chosen && g in files && Touch(f, g) ==> g in chosen
  }

  /** The first file meeting the range that sticks out of it, or the length. */
  function FirstSticking(files: seq<FileMeta>, i: nat, begin: Option<UserKey>, end: Option<UserKey>): (r: nat)
    requires i <= |files|
    ensures i <= r <= |files|
    ensures r < |files| ==> InRange(files[r], begin, end) && !Within(files[r], begin, end)
    ensures forall j :: i <= j < r ==> InRange(files[j], begin, end) ==> Within(files[j], begin, end)
    decreases |files| - i
  {
    if i == |files| || (InRange(files[i], begin, end) && !Within(files[i], begin, end)) then i
    else FirstSticking(files, i + 1, begin, end)
  }

  /** One restart of the level-0 scan: the range grows to hold the file that stuck out. */
  function Grow(f: FileMeta, begin: Option<UserKey>, end: Option<UserKey>): (Option<UserKey>, Option<UserKey>) {
    if begin.Some? && f.smallest.user < begin.value then (Some(f.smallest.user), end)
    else (begin, Some(f.largest.user))
  }

  function StartsBefore(files: seq<FileMeta>, begin: Option<UserKey>): nat {
    if files == [] then 0
    else (if begin.Some? && files[0].smallest.user < begin.value then 1 else 0) + StartsBefore(files[1..], begin)
  }

  function EndsAfter(files: seq<FileMeta>, end: Option<UserKey>): nat {
    if files == [] then 0
    else (if end.Some? && files[0].largest.user > end.value then 1 else 0) + EndsAfter(files[1..], end)
  }

  lemma {:induction false} StartsBeforeShrinks(files: seq<FileMeta>, x: UserKey, y: UserKey)
    requires x <= y
    ensures StartsBefore(files, Some(x)) <= StartsBefore(files, Some(y))
    ensures (exists f :: f in files && x <= f.smallest.user < y) ==> StartsBefore(files, Some(x)) < StartsBefore(files, Some(y))
  {
    if files != [] {
      StartsBeforeShrinks(files[1..], x, y);
    }
  }

  lemma {:induction false} EndsAfterShrinks(files: seq<FileMeta>, x: UserKey, y: UserKey)
    requires x <= y
    ensures EndsAfter(files, Some(y)) <= EndsAfter(files, Some(x))
    ensures (exists f :: f in files && x < f.largest.user <= y) ==> EndsAfter(files, Some(y)) < EndsAfter(files, Some(x))
  {
    if files != [] {
      EndsAfterShrinks(files[1..], x, y);
    }
  }

  lemma GrowShrinksMeasure(files: seq<FileMeta>, i: nat, begin: Option<UserKey>, end: Option<UserKey>)
    requires i < |files| && InRange(files[i], begin, end) && !Within(files[i], begin, end)
    ensures var (b, e) := Grow(files[i], begin, end);
            StartsBefore(files, b) + EndsAfter(files, e) < StartsBefore(files, begin) + EndsAfter(files, end)
  {
    assert files[i] in files;
    if begin.Some? && files[i].smallest.user < begin.value {
      StartsBeforeShrinks(files, files[i].smallest.user, begin.value);
    } else {
      EndsAfterShrinks(files, end.value, files[i].largest.user);
    }
  }

  /** The range after all restarts of the level-0 scan. */
  function Widened(files: seq<FileMeta>, begin: Option<UserKey>, end: Option<UserKey>): (Option<UserKey>, Option<UserKey>)
    decreases StartsBefore(files, begin) + EndsAfter(files, end)
  {
    var i := FirstSticking(files, 0, begin, end);
    if i == |files| then (begin, end)
    else
      var (b, e) := Grow(files[i], begin, end);
      GrowShrinksMeasure(files, i, begin, end);
      Widened(files, b, e)
  }

  /** The files picked by GetOverlappingInputs. */
  function OverlappingInputs(level: nat, files: seq<FileMeta>, begin: Option<UserKey>, end: Option<UserKey>): seq<FileMeta> {
    if level == 0 then
      var (b, e) := Widened(files, begin, end);
      Overlapping(files, b, e)
    else Overlapping(files, begin, end)
  }

  lemma OverlappingStep(files: seq<FileMeta>, i: nat, begin: Option<UserKey>, end: Option<UserKey>)
    requires i <= |files|
    ensures i < |files| ==>
              Overlapping(files[..i + 1], begin, end) ==
              Overlapping(files[..i], begin, end) + if InRange(files[i], begin, end) then [files[i]] else []
    ensures Overlapping(files[..0], begin, end) == []
  {
    assert i < |files| ==> files[..i + 1][..i] == files[..i];
  }

  lemma StickingStep(files: seq<FileMeta>, i: nat, begin: Option<UserKey>, end: Option<UserKey>)
    requires i <= |files|
    ensures FirstSticking(files, i, begin, end) ==
            if i == |files| || (InRange(files[i], begin, end) && !Within(files[i], begin, end)) then i
            else FirstSticking(files, i + 1, begin, end)
  {
  }

  lemma WidenedStep(files: seq<FileMeta>, begin: Option<UserKey>, end: Option<UserKey>)
    ensures var i := FirstSticking(files, 0, begin, end);
            Widened(files, begin, end) ==
            if i == |files| then (begin, end) else var (b, e) := Grow(files[i], begin, end); Widened(files, b, e)
  {
    hide FirstSticking, StartsBefore, EndsAfter;
  }

  /** What the scan knows at file `i`: the files in range so far, and that none of them stuck out. */
  ghost predicate Scanned(files: seq<FileMeta>, i: nat, begin: Option<UserKey>, end: Option<UserKey>, inputs: seq<FileMeta>) {
    i <= |files| && inputs == Overlapping(files[..i], begin, end)
  }

  ghost predicate ScannedZero(files: seq<FileMeta>, i: nat, begin: Option<UserKey>, end: Option<UserKey>,
                              begin0: Option<UserKey>, end0: Option<UserKey>) {
    && i <= |files| && Widened(files, begin, end) == Widened(files, begin0, end0)
    && FirstSticking(files, 0, begin, end) == FirstSticking(files, i, begin, end)
  }

  lemma ScanSkips(files: seq<FileMeta>, i: nat, begin: Option<UserKey>, end: Option<UserKey>, inputs: seq<FileMeta>)
    requires Scanned(files, i, begin, end, inputs) && i < |files| && !InRange(files[i], begin, end)
    ensures Scanned(files, i + 1, begin, end, inputs)
    ensures forall begin0, end0 :: ScannedZero(files, i, begin, end, begin0, end0) ==> ScannedZero(files, i + 1, begin, end, begin0, end0)
  {
    hide Overlapping, Widened, FirstSticking;
    OverlappingStep(files, i, begin, end);
    StickingStep(files, i, begin, end);
  }

  lemma ScanTakes(files: seq<FileMeta>, i: nat, begin: Option<UserKey>, end: Option<UserKey>, inputs: seq<FileMeta>)
    requires Scanned(files, i, begin, end, inputs) && i < |files| && InRange(files[i], begin, end)
    ensures Scanned(files, i + 1, begin, end, inputs + [files[i]])
    ensures Within(files[i], begin, end) ==> forall begin0, end0 ::
              ScannedZero(files, i, begin, end, begin0, end0) ==> ScannedZero(files, i + 1, begin, end, begin0, end0)
  {
    hide Overlapping, Widened, FirstSticking, InRange, Within;
    OverlappingStep(files, i, begin, end);
    StickingStep(files, i, begin, end);
  }

  /** A restart: the range grows to hold the file, the scan starts over, and the result stays the same. */
  lemma ScanRestarts(files: seq<FileMeta>, i: nat, begin: Option<UserKey>, end: Option<UserKey>)
    requires i < |files| && InRange(files[i], begin, end) && !Within(files[i], begin, end)
    ensures var (b, e) := Grow(files[i], begin, end);
            && Scanned(files, 0, b, e, [])
            && StartsBefore(files, b) + EndsAfter(files, e) < StartsBefore(files, begin) + EndsAfter(files, end)
            && forall begin0, end0 :: ScannedZero(files, i, begin, end, begin0, end0) ==> ScannedZero(files, 0, b, e, begin0, end0)
  {
    hide Overlapping, Widened, FirstSticking, StartsBefore, EndsAfter;
    GrowShrinksMeasure(files, i, begin, end);
    StickingStep(files, i, begin, end);
    WidenedStep(files, begin, end);
    var (b, e) := Grow(files[i], begin, end);
    OverlappingStep(files, 0, b, e);
  }

  lemma ScanEnds(files: seq<FileMeta>, begin: Option<UserKey>, end: Option<UserKey>, inputs: seq<FileMeta>)
    requires Scanned(files, |files|, begin, end, inputs)
    ensures inputs == Overlapping(files, begin, end)
    ensures forall begin0, end0 :: ScannedZero(files, |files|, begin, end, begin0, end0) ==> Widened(files, begin0, end0) == (begin, end)
  {
    hide Overlapping, Widened, FirstSticking;
    assert files[..|files|] == files;
    StickingStep(files, |files|, begin, end);
    WidenedStep(files, begin, end);
  }

  method GetOverlappingInputs(level: nat, files: seq<FileMeta>, begin: Option<UserKey>, end: Option<UserKey>)
    returns (inputs: seq<FileMeta>)
    ensures inputs == OverlappingInputs(level, files, begin, end)
  {
    hide StartsBefore, EndsAfter, Overlapping, Widened, FirstSticking, Scanned, ScannedZero;
    inputs := [];
    var userBegin, userEnd := begin, end;
    var i := 0;
    ScanStarts(files, begin, end);
    while i < |files|
      invariant 0 <= i <= |files| && Scanned(files, i, userBegin, userEnd, inputs)
      invariant level == 0 ==> ScannedZero(files, i, userBegin, userEnd, begin, end)
      invariant level != 0 ==> userBegin == begin && userEnd == end
      decreases StartsBefore(files, userBegin) + EndsAfter(files, userEnd), |files| - i
    {
      var f := files[i];
      i := i + 1;
      if userBegin.Some? && f.largest.user < userBegin.value {
        ScanSkips(files, i - 1, userBegin, userEnd, inputs);
      } else if userEnd.Some? && f.smallest.user > userEnd.value {
        ScanSkips(files, i - 1, userBegin, userEnd, inputs);
      } else {
        ScanTakes(files, i - 1, userBegin, userEnd, inputs);
        inputs := inputs + [f];
        if level == 0 {
          if userBegin.Some? && f.smallest.user < userBegin.value {
            ScanRestarts(files, i - 1, userBegin, userEnd);
            userBegin := Some(f.smallest.user);
            inputs := [];
            i := 0;
          } else if userEnd.Some? && f.largest.user > userEnd.value {
            ScanRestarts(files, i - 1, userBegin, userEnd);
            userEnd := Some(f.largest.user);
            inputs := [];
            i := 0;
          }
        }
      }
    }
    ScanEnds(files, userBegin, userEnd, inputs);
  }

  lemma ScanStarts(files: seq<FileMeta>, begin: Option<UserKey>, end: Option<UserKey>)
    ensures Scanned(files, 0, begin, end, []) && ScannedZero(files, 0, begin, end, begin, end)
  {
    hide Widened, FirstSticking, Overlapping;
    OverlappingStep(files, 0, begin, end);
  }

  // ---------- the level-0 scan computes a least closure ----------

  lemma {:induction false} WidenedGrows(files: seq<FileMeta>, begin: Option<UserKey>, end: Option<UserKey>)
    ensures var (b, e) := Widened(files, begin, end);
            && (forall f :: InRange(f, begin, end) ==> InRange(f, b, e))
            && forall f :: f in files && InRange(f, b, e) ==> Within(f, b, e)
    decreases StartsBefore(files, begin) + EndsAfter(files, end)
  {
    var i := FirstSticking(files, 0, begin, end);
    if i < |files| {
      GrowShrinksMeasure(files, i, begin, end);
      var (b, e) := Grow(files[i], begin, end);
      WidenedGrows(files, b, e);
    }
  }

  predicate Holds(x: UserKey, begin: Option<UserKey>, end: Option<UserKey>) {
    (begin.Some? ==> begin.value <= x) && (end.Some? ==> x <= end.value)
  }

  ghost predicate ContainsOverlapping(files: seq<FileMeta>, begin: Option<UserKey>, end: Option<UserKey>, chosen: set<FileMeta>) {
    forall f :: f in files && InRange(f, begin, end) ==> f in chosen
  }

  /** Growing over a member of a closed set keeps the set closed over the grown range. */
  lemma GrowKeepsContained(files: seq<FileMeta>, f: FileMeta, begin: Option<UserKey>, end: Option<UserKey>,
                           chosen: set<FileMeta>)
    requires f in files && f in chosen && TouchClosed(files, chosen) && f.smallest.user <= f.largest.user
    requires forall g :: g in files ==> g.smallest.user <= g.largest.user
    requires InRange(f, begin, end) && !Within(f, begin, end)
    requires ContainsOverlapping(files, begin, end, chosen)
    ensures var (b, e) := Grow(f, begin, end); ContainsOverlapping(files, b, e, chosen)
  {
    var (b, e) := Grow(f, begin, end);
    forall g | g in files && InRange(g, b, e)
      ensures g in chosen
    {
      if !InRange(g, begin, end) {
        assert Touch(f, g);
      }
    }
  }

  lemma {:induction false} WidenedIsLeast(files: seq<FileMeta>, begin: Option<UserKey>, end: Option<UserKey>, chosen: set<FileMeta>)
    requires ValidFiles(files)
    requires TouchClosed(files, chosen) && ContainsOverlapping(files, begin, end, chosen)
    ensures var (b, e) := Widened(files, begin, end); ContainsOverlapping(files, b, e, chosen)
    decreases StartsBefore(files, begin) + EndsAfter(files, end)
  {
    var i := FirstSticking(files, 0, begin, end);
    if i < |files| {
      forall g | g in files
        ensures g.smallest.user <= g.largest.user
      {
        FileBounds(g, g.entries[0]);
      }
      assert files[i] in files;
      GrowShrinksMeasure(files, i, begin, end);
      GrowKeepsContained(files, files[i], begin, end, chosen);
      var (b, e) := Grow(files[i], begin, end);
      WidenedIsLeast(files, b, e, chosen);
    }
  }

  /**
   * Level-0 input selection, restarts included, computes the least set of files that holds every
   * file meeting [begin, end] and is closed under overlap.
   */
  lemma LevelZeroClosure(files: seq<FileMeta>, begin: Option<UserKey>, end: Option<UserKey>, chosen: set<FileMeta>)
    requires ValidFiles(files)
    ensures var r := set f | f in OverlappingInputs(0, files, begin, end);
            && TouchClosed(files, r) && ContainsOverlapping(files, begin, end, r)
            && (TouchClosed(files, chosen) && ContainsOverlapping(files, begin, end, chosen) ==> r <= chosen)
  {
    WidenedGrows(files, begin, end);
    if TouchClosed(files, chosen) && ContainsOverlapping(files, begin, end, chosen) {
      WidenedIsLeast(files, begin, end, chosen);
    }
  }

  // ---------- boundary files ----------

  /** The largest key of a list of files. */
  function LargestOf(files: seq<FileMeta>): InternalKey
    requires files != []
  {
    var n := |files| - 1;
    if n == 0 then files[0].largest
    else
      var r := LargestOf(files[..n]);
      if Before(r, files[n].largest) then files[n].largest else r
  }

  lemma {:induction false} LargestOfIs(files: seq<FileMeta>) returns (m: nat)
    requires files != []
    ensures m < |files| && files[m].largest == LargestOf(files)
    ensures forall i :: 0 <= i < |files| ==> !Before(LargestOf(files), files[i].largest)
  {
    var n := |files| - 1;
    if n == 0 {
      m := 0;
    } else {
      m := LargestOfIs(files[..n]);
      assert forall i :: 0 <= i < n ==> files[i] == files[..n][i];
      if Before(LargestOf(files[..n]), files[n].largest) {
        m := n;
      }
    }
  }

  method FindLargestKey(files: seq<FileMeta>) returns (r: Option<InternalKey>)
    ensures r == if files == [] then None else Some(LargestOf(files))
  {
    if files == [] {
      return None;
    }
    var largestKey := files[0].largest;
    for i := 1 to |files|
      invariant largestKey == LargestOf(files[..i])
    {
      assert files[..i + 1][..i] == files[..i];
      if Compare(files[i].largest, largestKey) > 0 {
        largestKey := files[i].largest;
      }
    }
    assert files[..|files|] == files;
    r := Some(largestKey);
  }

  /** The file starts after `key` but with the same user key. */
  predicate IsBoundaryFile(f: FileMeta, key: InternalKey) {
    Before(key, f.smallest) && f.smallest.user == key.user
  }

  ghost predicate IsSmallestBoundary(files: seq<FileMeta>, key: InternalKey, f: FileMeta) {
    && f in files && IsBoundaryFile(f, key)
    && forall g :: g in files && IsBoundaryFile(g, key) ==> !Before(g.smallest, f.smallest)
  }

  method FindSmallestBoundaryFile(files: seq<FileMeta>, key: InternalKey) returns (r: Option<FileMeta>)
    ensures r.Some? ==> IsSmallestBoundary(files, key, r.value)
    ensures r.None? ==> forall f :: f in files ==> !IsBoundaryFile(f, key)
  {
    r := None;
    for i := 0 to |files|
      invariant r.Some? ==> IsSmallestBoundary(files[..i], key, r.value)
      invariant r.None? ==> forall f :: f in files[..i] ==> !IsBoundaryFile(f, key)
    {
      var f := files[i];
      assert files[..i + 1] == files[..i] + [f];
      if Compare(f.smallest, key) > 0 && f.smallest.user == key.user {
        if r.None? || Compare(f.smallest, r.value.smallest) < 0 {
          r := Some(f);
        }
      }
    }
    assert files[..|files|] == files;
  }

  function StartsAfter(files: seq<FileMeta>, key: InternalKey): nat {
    if files == [] then 0
    else (if Before(key, files[0].smallest) then 1 else 0) + StartsAfter(files[1..], key)
  }

  lemma {:induction false} StartsAfterShrinks(files: seq<FileMeta>, x: InternalKey, y: InternalKey)
    requires Before(x, y)
    ensures StartsAfter(files, y) <= StartsAfter(files, x)
    ensures (exists f :: f in files && Before(x, f.smallest) && !Before(y, f.smallest)) ==>
              StartsAfter(files, y) < StartsAfter(files, x)
  {
    if files != [] {
      StartsAfterShrinks(files[1..], x, y);
    }
  }

  /** `r` extends `picked` by boundary files, each the smallest for the files before it, until none is left. */
  ghost predicate BoundaryExtension(files: seq<FileMeta>, picked: seq<FileMeta>, r: seq<FileMeta>) {
    && 0 < |picked| <= |r| && r[..|picked|] == picked && BoundaryChain(files, |picked|, r)
    && forall f :: f in files ==> !IsBoundaryFile(f, LargestOf(r))
  }

  ghost predicate BoundaryChain(files: seq<FileMeta>, lo: nat, r: seq<FileMeta>) {
    forall t :: 0 < lo <= t < |r| ==> ChainAt(files, r, t)
  }

  ghost predicate ChainAt(files: seq<FileMeta>, r: seq<FileMeta>, t: nat)
    requires 0 < t < |r|
  {
    IsSmallestBoundary(files, LargestOf(r[..t]), r[t])
  }

  lemma ChainStep(files: seq<FileMeta>, lo: nat, r: seq<FileMeta>, f: FileMeta)
    requires 0 < lo <= |r| && BoundaryChain(files, lo, r) && f.Valid()
    requires IsSmallestBoundary(files, LargestOf(r), f)
    ensures BoundaryChain(files, lo, r + [f]) && (r + [f])[..lo] == r[..lo]
    ensures LargestOf(r + [f]) == f.largest
  {
    var r' := r + [f];
    assert r'[..|r|] == r;
    FileBounds(f, f.entries[|f.entries| - 1]);
    forall t | lo <= t < |r'|
      ensures ChainAt(files, r', t)
    {
      if t < |r| {
        assert ChainAt(files, r, t);
        assert r'[..t] == r[..t];
      }
    }
  }

  method AddBoundaryInputs(files: seq<FileMeta>, picked: seq<FileMeta>) returns (r: seq<FileMeta>)
    requires ValidFiles(files)
    ensures picked == [] ==> r == []
    ensures picked != [] ==> BoundaryExtension(files, picked, r)
  {
    r := picked;
    var first := FindLargestKey(picked);
    if first == None {
      return;
    }
    var largestKey := first.value;
    var continueSearching := true;
    while continueSearching
      invariant 0 < |picked| <= |r| && r[..|picked|] == picked && largestKey == LargestOf(r)
      invariant BoundaryChain(files, |picked|, r)
      invariant !continueSearching ==> forall f :: f in files ==> !IsBoundaryFile(f, largestKey)
      decreases StartsAfter(files, largestKey) + if continueSearching then 1 else 0
    {
      var boundary := FindSmallestBoundaryFile(files, largestKey);
      if boundary.Some? {
        var f := boundary.value;
        FileBounds(f, f.entries[|f.entries| - 1]);
        StartsAfterShrinks(files, largestKey, f.largest);
        ChainStep(files, |picked|, r, f);
        r := r + [f];
        largestKey := f.largest;
      } else {
        continueSearching := false;
      }
    }
  }

  // ---------- the inputs a compaction runs on ----------

  function SmallestOf(files: seq<FileMeta>): InternalKey
    requires files != []
  {
    var n := |files| - 1;
    if n == 0 then files[0].smallest
    else
      var r := SmallestOf(files[..n]);
      if Before(files[n].smallest, r) then files[n].smallest else r
  }

  lemma {:induction false} SmallestOfIs(files: seq<FileMeta>) returns (m: nat)
    requires files != []
    ensures m < |files| && files[m].smallest == SmallestOf(files)
    ensures forall i :: 0 <= i < |files| ==> !Before(files[i].smallest, SmallestOf(files))
  {
    var n := |files| - 1;
    if n == 0 {
      m := 0;
    } else {
      m := SmallestOfIs(files[..n]);
      assert forall i :: 0 <= i < n ==> files[i] == files[..n][i];
      if Before(files[n].smallest, SmallestOf(files[..n])) {
        m := n;
      }
    }
  }

  method GetRange(files: seq<FileMeta>) returns (smallest: InternalKey, largest: InternalKey)
    requires files != []
    ensures smallest == SmallestOf(files) && largest == LargestOf(files)
  {
    smallest, largest := files[0].smallest, files[0].largest;
    for i := 1 to |files|
      invariant smallest == SmallestOf(files[..i]) && largest == LargestOf(files[..i])
    {
      assert files[..i + 1][..i] == files[..i];
      if Compare(files[i].smallest, smallest) < 0 {
        smallest := files[i].smallest;
      }
      if Compare(files[i].largest, largest) > 0 {
        largest := files[i].largest;
      }
    }
    assert files[..|files|] == files;
  }

  /** Chosen files of a sorted level leave no gap: whatever lies between two of them is chosen too. */
  ghost predicate Convex(files: seq<FileMeta>, part: seq<FileMeta>) {
    forall i, j, k :: 0 <= i < j < k < |files| && files[i] in part && files[k] in part ==> files[j] in part
  }

  ghost predicate NoRepeats(files: seq<FileMeta>) {
    forall i, j :: 0 <= i < j < |files| ==> files[i] != files[j]
  }

  lemma {:induction false} OverlappingHasNoRepeats(files: seq<FileMeta>, begin: Option<UserKey>, end: Option<UserKey>)
    requires NoRepeats(files)
    ensures NoRepeats(Overlapping(files, begin, end))
  {
    if files != [] {
      var n := |files| - 1;
      OverlappingHasNoRepeats(files[..n], begin, end);
      var r0 := Overlapping(files[..n], begin, end);
      forall i | 0 <= i < |r0|
        ensures r0[i] != files[n]
      {
        assert r0[i] in r0;
        var t :| 0 <= t < n && files[..n][t] == r0[i];
        assert files[t] == r0[i];
      }
    }
  }

  ghost predicate Among(part: seq<FileMeta>, files: seq<FileMeta>) {
    forall f :: f in part ==> f in files
  }

  /** What the callers hand to SetupOtherInputs: overlap-closed at level 0, without gaps deeper. */
  ghost predicate Pickable(v: Version, level: nat, picked: seq<FileMeta>) {
    && |v| == NUM_LEVELS && level + 1 < NUM_LEVELS && picked != []
    && Among(picked, v[level])
    && (level == 0 ==> TouchClosed(v[0], set f | f in picked) && (NoRepeats(v[0]) ==> NoRepeats(picked)))
    && (level > 0 ==> Convex(v[level], picked) && Disjoint(picked))
  }

  /** Every file left at the level is strictly newer than the chosen ones on every shared user key. */
  ghost predicate LeavesOnlyNewer(files: seq<FileMeta>, chosen: seq<FileMeta>) {
    forall f :: f in files && f !in chosen ==> NewerThan(Contents(f.entries), LevelContents(chosen))
  }

  /** The inputs a compaction of `level` into `level + 1` runs on. */
  ghost predicate ProperInputs(v: Version, level: nat, inputs0: seq<FileMeta>, inputs1: seq<FileMeta>) {
    && |v| == NUM_LEVELS && level + 1 < NUM_LEVELS && inputs0 != []
    && Among(inputs0, v[level])
    && LeavesOnlyNewer(v[level], inputs0)
    && inputs1 == Overlapping(v[level + 1], Some(SmallestOf(inputs0).user), Some(LargestOf(inputs0).user))
  }

  /** Boundary files come after the files they extend, so an ordered choice stays ordered. */
  lemma {:induction false} ExtensionIsOrdered(files: seq<FileMeta>, lo: nat, r: seq<FileMeta>)
    requires 0 < lo <= |r| && BoundaryChain(files, lo, r) && Disjoint(r[..lo])
    ensures Disjoint(r)
    decreases |r| - lo
  {
    if lo < |r| {
      assert ChainAt(files, r, lo);
      var m := LargestOfIs(r[..lo]);
      forall i | 0 <= i < lo
        ensures Before(r[i].largest, r[lo].smallest)
      {
        assert !Before(LargestOf(r[..lo]), r[..lo][i].largest);
      }
      PrefixStep(r, lo);
      assert Disjoint(r[..lo + 1]);
      ExtensionIsOrdered(files, lo + 1, r);
    } else {
      assert r[..lo] == r;
    }
  }

  /** In a sorted level the chosen file furthest to the right has the largest key. */
  lemma RightmostChosen(files: seq<FileMeta>, part: seq<FileMeta>) returns (m: nat)
    requires ValidFiles(files) && Disjoint(files) && part != [] && Among(part, files)
    ensures m < |files| && files[m] in part && files[m].largest == LargestOf(part)
    ensures forall i :: m < i < |files| ==> files[i] !in part
  {
    var t := LargestOfIs(part);
    assert part[t] in files;
    m :| 0 <= m < |files| && files[m] == part[t];
    forall i | m < i < |files|
      ensures files[i] !in part
    {
      LargestAscends(files, m, i);
    }
  }

  /** The next boundary file is the right neighbour of the chosen ones. */
  lemma BoundaryKeepsConvex(files: seq<FileMeta>, part: seq<FileMeta>, f: FileMeta)
    requires ValidFiles(files) && Disjoint(files) && part != [] && Among(part, files) && Convex(files, part)
    requires IsSmallestBoundary(files, LargestOf(part), f)
    ensures Among(part + [f], files) && Convex(files, part + [f])
  {
    hide LargestOf;
    var m := RightmostChosen(files, part);
    var key := LargestOf(part);
    forall i, j, k | 0 <= i < j < k < |files| && files[i] in part + [f] && files[k] in part + [f]
      ensures files[j] in part + [f]
    {
      if j < m {
        if files[i] == f {
          assert files[i].Valid();
          FileBounds(files[i], files[i].entries[|files[i].entries| - 1]);
          LargestAscends(files, i, m);
          assert false;
        }
      } else if m < j && files[k] == f {
        assert Before(files[m].largest, files[j].smallest) && Before(files[j].largest, f.smallest);
        assert files[j] in files && files[j].Valid();
        FileBounds(files[j], files[j].entries[|files[j].entries| - 1]);
        assert false;
      }
    }
  }

  lemma ExtensionStep(files: seq<FileMeta>, r: seq<FileMeta>, t: nat)
    requires ValidFiles(files) && Disjoint(files) && 0 < t < |r| && Among(r[..t], files) && Convex(files, r[..t])
    requires IsSmallestBoundary(files, LargestOf(r[..t]), r[t])
    ensures Among(r[..t + 1], files) && Convex(files, r[..t + 1])
  {
    BoundaryKeepsConvex(files, r[..t], r[t]);
    PrefixStep(r, t);
  }

  lemma {:induction false} ExtensionIsConvex(files: seq<FileMeta>, lo: nat, r: seq<FileMeta>)
    requires ValidFiles(files) && Disjoint(files)
    requires 0 < lo <= |r| && BoundaryChain(files, lo, r)
    requires Among(r[..lo], files) && Convex(files, r[..lo])
    ensures Among(r, files) && Convex(files, r)
    decreases |r| - lo
  {
    if lo < |r| {
      assert ChainAt(files, r, lo);
      ExtensionStep(files, r, lo);
      ExtensionIsConvex(files, lo + 1, r);
    } else {
      assert r[..lo] == r;
    }
  }

  /** The right neighbours of the chosen files start with a later user key once no boundary file is left. */
  lemma RightNeighbourIsLater(files: seq<FileMeta>, m: nat, i: nat, j: nat)
    requires ValidFiles(files) && Disjoint(files) && j <= m < i < |files|
    requires !IsBoundaryFile(files[i], files[m].largest)
    ensures files[j].largest.user < files[i].smallest.user
  {
    assert Before(files[m].largest, files[i].smallest);
    if j < m {
      LargestAscends(files, j, m);
    }
  }

  /** Without gaps and without a boundary file left over, the files that stay hold only newer data. */
  lemma ConvexLeavesOnlyNewer(files: seq<FileMeta>, part: seq<FileMeta>)
    requires ValidFiles(files) && Disjoint(files) && UniqueKeys(LevelContents(files))
    requires part != [] && Among(part, files) && Convex(files, part)
    requires forall f :: f in files ==> !IsBoundaryFile(f, LargestOf(part))
    ensures LeavesOnlyNewer(files, part)
  {
    hide Disjoint, ValidFiles, UniqueKeys, NewerThan, LargestOf;
    var m := RightmostChosen(files, part);
    forall i, j | 0 <= i < |files| && 0 <= j < |files| && files[i] !in part && files[j] in part
      ensures NewerThan(Contents(files[i].entries), Contents(files[j].entries))
    {
      assert i < j || m < i;
      assert files[i] in files;
      StayingFileIsNewer(files, m, i, j);
    }
    PairwiseLeavesOnlyNewer(files, part);
  }

  lemma StayingFileIsNewer(files: seq<FileMeta>, m: nat, i: nat, j: nat)
    requires ValidFiles(files) && Disjoint(files) && UniqueKeys(LevelContents(files))
    requires i < |files| && j <= m < |files| && (i < j || m < i)
    requires !IsBoundaryFile(files[i], files[m].largest)
    ensures NewerThan(Contents(files[i].entries), Contents(files[j].entries))
  {
    if i < j {
      LeftFileIsNewer(files, i, j);
    } else {
      RightNeighbourIsLater(files, m, i, j);
      LaterFileSharesNothing(files[i], files[j]);
    }
  }

  lemma LeftFileIsNewer(files: seq<FileMeta>, i: nat, j: nat)
    requires ValidFiles(files) && Disjoint(files) && UniqueKeys(LevelContents(files)) && i < j < |files|
    ensures NewerThan(Contents(files[i].entries), Contents(files[j].entries))
  {
    hide UniqueKeys, Before, Sorted, NewerThan, LevelContents, Contents;
    TwoFilesInLevel(files, i, j);
    UniqueKeysOfPart(Contents(files[i].entries) + Contents(files[j].entries), LevelContents(files));
    EarlierIsNewer(files[i], files[j]);
  }

  lemma TwoFilesInLevel(files: seq<FileMeta>, i: nat, j: nat)
    requires i < |files| && j < |files|
    ensures Contents(files[i].entries) + Contents(files[j].entries) <= LevelContents(files)
  {
    assert files[i] in files && files[j] in files;
  }

  lemma EarlierIsNewer(f: FileMeta, g: FileMeta)
    requires f.Valid() && g.Valid() && Before(f.largest, g.smallest)
    requires UniqueKeys(Contents(f.entries) + Contents(g.entries))
    ensures NewerThan(Contents(f.entries), Contents(g.entries))
  {
    forall e, d | e in f.entries && d in g.entries && e.key.user == d.key.user
      ensures d.key.sequence < e.key.sequence
    {
      FileBounds(f, e);
      FileBounds(g, d);
    }
  }

  lemma LaterFileSharesNothing(f: FileMeta, g: FileMeta)
    requires f.Valid() && g.Valid() && g.largest.user < f.smallest.user
    ensures NewerThan(Contents(f.entries), Contents(g.entries))
  {
    forall e, d | e in f.entries && d in g.entries
      ensures e.key.user != d.key.user
    {
      FileBounds(f, e);
      FileBounds(g, d);
    }
  }

  lemma PairwiseLeavesOnlyNewer(files: seq<FileMeta>, part: seq<FileMeta>)
    requires Among(part, files)
    requires forall i, j :: 0 <= i < |files| && 0 <= j < |files| && files[i] !in part && files[j] in part ==>
               NewerThan(Contents(files[i].entries), Contents(files[j].entries))
    ensures LeavesOnlyNewer(files, part)
  {
    forall f, g, e, d | f in files && f !in part && e in f.entries && g in part && d in g.entries && e.key.user == d.key.user
      ensures d.key.sequence < e.key.sequence
    {
      var i :| 0 <= i < |files| && files[i] == f;
      var j :| 0 <= j < |files| && files[j] == g;
      assert NewerThan(Contents(files[i].entries), Contents(files[j].entries));
      assert e in Contents(files[i].entries) && d in Contents(files[j].entries);
    }
  }

  /** At level 0 an overlap-closed choice shares no user key with what stays. */
  lemma ClosedLeavesOnlyNewer(files: seq<FileMeta>, part: seq<FileMeta>)
    requires ValidFiles(files) && TouchClosed(files, set f | f in part) && Among(part, files)
    ensures LeavesOnlyNewer(files, part)
  {
    forall f, g | f in files && f !in part && g in part
      ensures NewerThan(Contents(f.entries), Contents(g.entries))
    {
      assert !Touch(g, f);
      ApartShareNothing(f, g);
    }
    LeavesFileByFile(files, part);
  }

  lemma ApartShareNothing(f: FileMeta, g: FileMeta)
    requires f.Valid() && g.Valid() && !Touch(g, f)
    ensures NewerThan(Contents(f.entries), Contents(g.entries))
  {
    forall e, d | e in f.entries && d in g.entries
      ensures e.key.user != d.key.user
    {
      FileBounds(f, e);
      FileBounds(g, d);
    }
  }

  lemma LeavesFileByFile(files: seq<FileMeta>, part: seq<FileMeta>)
    requires forall f, g :: f in files && f !in part && g in part ==> NewerThan(Contents(f.entries), Contents(g.entries))
    ensures LeavesOnlyNewer(files, part)
  {
    forall f, g, e, d | f in files && f !in part && g in part && e in f.entries && d in g.entries && e.key.user == d.key.user
      ensures d.key.sequence < e.key.sequence
    {
      assert NewerThan(Contents(f.entries), Contents(g.entries));
      assert e in Contents(f.entries) && d in Contents(g.entries);
    }
  }

  /** An overlap-closed choice has no boundary file, so it is not extended. */
  lemma ClosedIsNotExtended(files: seq<FileMeta>, picked: seq<FileMeta>, r: seq<FileMeta>)
    requires ValidFiles(files) && TouchClosed(files, set f | f in picked) && Among(picked, files)
    requires BoundaryExtension(files, picked, r)
    ensures r == picked
  {
    if |picked| < |r| {
      var t := |picked|;
      assert ChainAt(files, r, t);
      var m := LargestOfIs(picked);
      var f, g := r[t], picked[m];
      FileBounds(f, f.entries[0]);
      FileBounds(g, g.entries[0]);
      assert Touch(g, f);
    }
  }

  lemma BetweenInRange(files: seq<FileMeta>, i: nat, j: nat, k: nat, begin: Option<UserKey>, end: Option<UserKey>)
    requires ValidFiles(files) && Disjoint(files) && i < j < k < |files|
    requires InRange(files[i], begin, end) && InRange(files[k], begin, end)
    ensures InRange(files[j], begin, end)
  {
    var f := files[j];
    assert f in files;
    FileBounds(f, f.entries[0]);
    assert Before(files[i].largest, f.smallest) && Before(f.largest, files[k].smallest);
  }

  lemma OverlappingIsConvex(files: seq<FileMeta>, begin: Option<UserKey>, end: Option<UserKey>)
    requires ValidFiles(files) && Disjoint(files)
    ensures Convex(files, Overlapping(files, begin, end))
  {
    var part := Overlapping(files, begin, end);
    forall i, j, k | 0 <= i < j < k < |files| && files[i] in part && files[k] in part
      ensures files[j] in part
    {
      BetweenInRange(files, i, j, k, begin, end);
      assert files[j] in files;
    }
  }

  function TotalFileSize(files: seq<FileMeta>): nat {
    if files == [] then 0 else files[0].size + TotalFileSize(files[1..])
  }

  /** AddBoundaryInputs turns any pickable choice into one that leaves only newer files behind. */
  lemma ExtensionLeavesOnlyNewer(v: Version, level: nat, picked: seq<FileMeta>, r: seq<FileMeta>)
    requires WellFormed(v) && Pickable(v, level, picked) && BoundaryExtension(v[level], picked, r)
    ensures Among(r, v[level]) && LeavesOnlyNewer(v[level], r)
    ensures level > 0 ==> Disjoint(r)
    ensures level == 0 && NoRepeats(v[0]) ==> NoRepeats(r)
  {
    var files := v[level];
    if level == 0 {
      ClosedIsNotExtended(files, picked, r);
      ClosedLeavesOnlyNewer(files, picked);
    } else {
      ExtensionIsConvex(files, |picked|, r);
      ExtensionIsOrdered(files, |picked|, r);
      assert UniqueKeys(LevelContents(files)) by {
        assert forall e :: e in LevelContents(files) ==> e in VersionContents(v);
      }
      ConvexLeavesOnlyNewer(files, r);
    }
  }

  /** Whatever meets a range at a level may be picked. */
  lemma OverlappingIsPickable(v: Version, level: nat, begin: Option<UserKey>, end: Option<UserKey>)
    requires WellFormed(v) && level + 1 < NUM_LEVELS && OverlappingInputs(level, v[level], begin, end) != []
    ensures Pickable(v, level, OverlappingInputs(level, v[level], begin, end))
    ensures forall f :: f in v[level] && InRange(f, begin, end) ==> f in OverlappingInputs(level, v[level], begin, end)
  {
    if level == 0 {
      LevelZeroClosure(v[0], begin, end, {});
      if NoRepeats(v[0]) {
        var (b, e) := Widened(v[0], begin, end);
        OverlappingHasNoRepeats(v[0], b, e);
      }
    } else {
      OverlappingIsConvex(v[level], begin, end);
      OverlappingKeepsOrder(v[level], begin, end);
    }
  }

  lemma PickedStaysInRange(part: seq<FileMeta>, all: seq<FileMeta>, files: seq<FileMeta>)
    requires part != [] && part <= all && Among(part, files) && ValidFiles(files)
    ensures forall f :: f in part ==> InRange(f, Some(SmallestOf(all).user), Some(LargestOf(all).user))
  {
    var a := SmallestOfIs(all);
    var b := LargestOfIs(all);
    forall f | f in part
      ensures InRange(f, Some(SmallestOf(all).user), Some(LargestOf(all).user))
    {
      var i :| 0 <= i < |part| && part[i] == f;
      assert all[i] == f;
      FileBounds(f, f.entries[0]);
    }
  }

  lemma {:induction false} TotalFileSizeAdds(a: seq<FileMeta>, b: seq<FileMeta>, f: FileMeta)
    ensures TotalFileSize(a + b) == TotalFileSize(a) + TotalFileSize(b) && TotalFileSize([]) == 0 && TotalFileSize([f]) == f.size
  {
    if a == [] {
      assert a + b == b;
    } else {
      TotalFileSizeAdds(a[1..], b, f);
      assert (a + b)[1..] == a[1..] + b;
    }
  }

  /** The files of the next level, or the one after, that meet the range of the chosen ones. */
  ghost function Meeting(files: seq<FileMeta>, chosen: seq<FileMeta>): seq<FileMeta> {
    if chosen == [] then [] else Overlapping(files, Some(SmallestOf(chosen).user), Some(LargestOf(chosen).user))
  }

  /** The upper set may grow to `expanded0`: it then picks up no further lower file and stays small. */
  ghost predicate MayGrow(v: Version, level: nat, base0: seq<FileMeta>, expanded0: seq<FileMeta>, expandedSizeLimit: nat)
    requires level + 1 < |v|
  {
    var base1 := Meeting(v[level + 1], base0);
    && |base0| < |expanded0| && TotalFileSize(base1) + TotalFileSize(expanded0) < expandedSizeLimit
    && |Meeting(v[level + 1], expanded0)| == |base1|
  }

  /** What the picked files grow into: `base0` with boundary files, and the whole range's upper files if they may. */
  ghost predicate GrowsTo(v: Version, level: nat, base0: seq<FileMeta>, expanded0: seq<FileMeta>, expandedSizeLimit: nat, inputs0: seq<FileMeta>)
    requires level + 1 < |v|
  {
    var all := base0 + Meeting(v[level + 1], base0);
    if Meeting(v[level + 1], base0) == [] then inputs0 == base0
    else
      && BoundaryExtension(v[level], OverlappingInputs(level, v[level], Some(SmallestOf(all).user), Some(LargestOf(all).user)), expanded0)
      && inputs0 == if MayGrow(v, level, base0, expanded0, expandedSizeLimit) then expanded0 else base0
  }

  /** The inputs set up from the picked files. */
  ghost predicate IsSetUp(v: Version, level: nat, picked: seq<FileMeta>, expandedSizeLimit: nat, inputs0: seq<FileMeta>,
                          inputs1: seq<FileMeta>, grandparents: seq<FileMeta>)
    requires level + 1 < |v|
  {
    && (exists base0, expanded0 :: BoundaryExtension(v[level], picked, base0) &&
          GrowsTo(v, level, base0, expanded0, expandedSizeLimit, inputs0))
    && inputs1 == Meeting(v[level + 1], inputs0)
    && grandparents == if level + 2 < |v| then Meeting(v[level + 2], inputs0 + inputs1) else []
  }

  /** The upper inputs over a wider range, completed: what was chosen before stays chosen. */
  method Expand(v: Version, level: nat, begin: UserKey, end: UserKey, ghost chosen: seq<FileMeta>) returns (expanded0: seq<FileMeta>)
    requires WellFormed(v) && level + 1 < NUM_LEVELS && chosen != [] && Among(chosen, v[level])
    requires forall f :: f in chosen ==> InRange(f, Some(begin), Some(end))
    ensures expanded0 != [] && Among(expanded0, v[level]) && LeavesOnlyNewer(v[level], expanded0)
    ensures level > 0 ==> Disjoint(expanded0)
    ensures level == 0 && NoRepeats(v[0]) ==> NoRepeats(expanded0)
    ensures forall f :: f in chosen ==> f in expanded0
    ensures BoundaryExtension(v[level], OverlappingInputs(level, v[level], Some(begin), Some(end)), expanded0)
  {
    hide WellFormed, LeavesOnlyNewer, BoundaryChain, IsBoundaryFile, TouchClosed, Convex, ValidFiles, Disjoint;
    LevelsAreValid(v);
    var overlapping := GetOverlappingInputs(level, v[level], Some(begin), Some(end));
    assert chosen[0] in chosen;
    if level == 0 {
      LevelZeroClosure(v[0], Some(begin), Some(end), {});
    }
    OverlappingIsPickable(v, level, Some(begin), Some(end));
    expanded0 := AddBoundaryInputs(v[level], overlapping);
    ExtensionLeavesOnlyNewer(v, level, overlapping, expanded0);
    assert forall f :: f in overlapping ==> f in expanded0[..|overlapping|];
  }

  /** What setting up never loses: upper inputs that leave only newer files behind, in order. */
  ghost predicate Leads(v: Version, level: nat, inputs0: seq<FileMeta>)
    requires |v| == NUM_LEVELS && level + 1 < NUM_LEVELS
  {
    && inputs0 != [] && Among(inputs0, v[level]) && LeavesOnlyNewer(v[level], inputs0)
    && (level > 0 ==> Disjoint(inputs0)) && (level == 0 && NoRepeats(v[0]) ==> NoRepeats(inputs0))
  }

  /** The growing of the upper set, when it picks up no further lower file and stays small. */
  method GrowInputs(v: Version, level: nat, base0: seq<FileMeta>, expandedSizeLimit: nat)
    returns (inputs0: seq<FileMeta>, inputs1: seq<FileMeta>, ghost expanded: seq<FileMeta>)
    requires WellFormed(v) && level + 1 < NUM_LEVELS && Leads(v, level, base0)
    ensures Leads(v, level, inputs0) && (forall f :: f in base0 ==> f in inputs0)
    ensures inputs1 == Meeting(v[level + 1], inputs0) && GrowsTo(v, level, base0, expanded, expandedSizeLimit, inputs0)
  {
    hide WellFormed, LeavesOnlyNewer, BoundaryExtension, LargestOf, SmallestOf, TotalFileSize, ValidFiles, Disjoint, NoRepeats;
    LevelsAreValid(v);
    inputs0, expanded := base0, base0;
    var smallest, largest := GetRange(base0);
    inputs1 := GetOverlappingInputs(level + 1, v[level + 1], Some(smallest.user), Some(largest.user));
    if inputs1 != [] {
      var allStart, allLimit := GetRange(base0 + inputs1);
      PickedStaysInRange(base0, base0 + inputs1, v[level]);
      var expanded0 := Expand(v, level, allStart.user, allLimit.user, base0);
      expanded := expanded0;
      if |expanded0| > |base0| && TotalFileSize(inputs1) + TotalFileSize(expanded0) < expandedSizeLimit {
        var newStart, newLimit := GetRange(expanded0);
        var expanded1 := GetOverlappingInputs(level + 1, v[level + 1], Some(newStart.user), Some(newLimit.user));
        if |expanded1| == |inputs1| {
          inputs0, inputs1 := expanded0, expanded1;
        }
      }
    }
  }

  /**
   * VersionSet::SetupOtherInputs: boundary files, the overlapping files one level down, the optional
   * growth of the upper set, and the files two levels down that all of them meet.
   */
  method SetupOtherInputs(v: Version, level: nat, picked: seq<FileMeta>, expandedSizeLimit: nat)
    returns (inputs0: seq<FileMeta>, inputs1: seq<FileMeta>, grandparents: seq<FileMeta>)
    requires WellFormed(v) && Pickable(v, level, picked)
    ensures ProperInputs(v, level, inputs0, inputs1)
    ensures level > 0 ==> Disjoint(inputs0)
    ensures level == 0 && NoRepeats(v[0]) ==> NoRepeats(inputs0)
    ensures forall f :: f in picked ==> f in inputs0
    ensures IsSetUp(v, level, picked, expandedSizeLimit, inputs0, inputs1, grandparents)
  {
    hide WellFormed, LeavesOnlyNewer, BoundaryExtension, LargestOf, SmallestOf, ValidFiles, Disjoint, NoRepeats, GrowsTo;
    LevelsAreValid(v);
    var base0 := AddBoundaryInputs(v[level], picked);
    ExtensionLeavesOnlyNewer(v, level, picked, base0);
    ExtensionHolds(v[level], picked, base0);
    ghost var expanded;
    inputs0, inputs1, expanded := GrowInputs(v, level, base0, expandedSizeLimit);
    var allStart, allLimit := GetRange(inputs0 + inputs1);
    grandparents := [];
    if level + 2 < NUM_LEVELS {
      grandparents := GetOverlappingInputs(level + 2, v[level + 2], Some(allStart.user), Some(allLimit.user));
    }
  }

  lemma ExtensionHolds(files: seq<FileMeta>, picked: seq<FileMeta>, r: seq<FileMeta>)
    requires BoundaryExtension(files, picked, r)
    ensures r != [] && forall f :: f in picked ==> f in r
  {
    assert forall f :: f in picked ==> f in r[..|picked|];
  }

  lemma LevelsAreValid(v: Version)
    requires WellFormed(v)
    ensures |v| == NUM_LEVELS && forall l :: 0 <= l < |v| ==> ValidFiles(v[l]) && (0 < l ==> Disjoint(v[l]))
  {
  }

  /** The picked file, or at level 0 every file it forces in. */
  ghost function Seeded(v: Version, level: nat, seed: FileMeta): seq<FileMeta>
    requires level < |v|
  {
    if level == 0 then OverlappingInputs(0, v[0], Some(seed.smallest.user), Some(seed.largest.user)) else [seed]
  }

  /** VersionSet::PickCompaction once the level and its first file are chosen. */
  method PickCompaction(v: Version, level: nat, seed: FileMeta, expandedSizeLimit: nat)
    returns (inputs0: seq<FileMeta>, inputs1: seq<FileMeta>, grandparents: seq<FileMeta>)
    requires WellFormed(v) && level + 1 < NUM_LEVELS && seed in v[level]
    ensures ProperInputs(v, level, inputs0, inputs1) && seed in inputs0
    ensures level > 0 ==> Disjoint(inputs0)
    ensures level == 0 && NoRepeats(v[0]) ==> NoRepeats(inputs0)
    ensures IsSetUp(v, level, Seeded(v, level, seed), expandedSizeLimit, inputs0, inputs1, grandparents)
  {
    var picked := [seed];
    if level == 0 {
      var smallest, largest := GetRange(picked);
      picked := GetOverlappingInputs(0, v[0], Some(smallest.user), Some(largest.user));
      FileBounds(seed, seed.entries[0]);
      LevelZeroClosure(v[0], Some(smallest.user), Some(largest.user), {});
      assert InRange(seed, Some(smallest.user), Some(largest.user));
      OverlappingIsPickable(v, 0, Some(smallest.user), Some(largest.user));
    } else {
      SingletonIsConvex(v[level], seed);
    }
    inputs0, inputs1, grandparents := SetupOtherInputs(v, level, picked, expandedSizeLimit);
  }

  lemma SingletonIsConvex(files: seq<FileMeta>, f: FileMeta)
    requires ValidFiles(files) && Disjoint(files) && f in files
    ensures Convex(files, [f])
  {
    FileBounds(f, f.entries[|f.entries| - 1]);
    forall i, k | 0 <= i < k < |files|
      ensures files[i] != files[k]
    {
      LargestAscends(files, i, k);
    }
  }

  /** A disjoint level lists the files meeting a range in order. */
  lemma {:induction false} OverlappingKeepsOrder(files: seq<FileMeta>, begin: Option<UserKey>, end: Option<UserKey>)
    requires ValidFiles(files) && Disjoint(files)
    ensures Disjoint(Overlapping(files, begin, end))
  {
    if files != [] {
      var n := |files| - 1;
      OverlappingKeepsOrder(files[..n], begin, end);
      var r0 := Overlapping(files[..n], begin, end);
      forall i | 0 <= i < |r0|
        ensures Before(r0[i].largest, files[n].smallest)
      {
        assert r0[i] in r0;
        var t :| 0 <= t < n && files[..n][t] == r0[i];
        assert files[t] == r0[i];
      }
    }
  }

  /** In an ordered list a file left of a member of a prefix is in the prefix. */
  lemma LeftOfPrefix(r: seq<FileMeta>, n: nat, f: FileMeta, g: FileMeta)
    requires ValidFiles(r) && Disjoint(r) && n <= |r|
    requires f in r && g in r[..n] && Before(f.largest, g.smallest)
    ensures f in r[..n]
  {
    var a :| 0 <= a < |r| && r[a] == f;
    var b :| 0 <= b < n && r[..n][b] == g;
    assert g in r;
    if n <= a {
      assert r[b] == g && Before(g.largest, f.smallest);
      FileBounds(f, f.entries[0]);
      FileBounds(g, g.entries[0]);
    } else {
      assert r[..n][a] == f;
    }
  }

  lemma PrefixIsConvex(files: seq<FileMeta>, begin: Option<UserKey>, end: Option<UserKey>, n: nat)
    requires ValidFiles(files) && Disjoint(files) && n <= |Overlapping(files, begin, end)|
    ensures Convex(files, Overlapping(files, begin, end)[..n])
  {
    var r := Overlapping(files, begin, end);
    OverlappingIsConvex(files, begin, end);
    OverlappingKeepsOrder(files, begin, end);
    forall i, j, k | 0 <= i < j < k < |files| && files[i] in r[..n] && files[k] in r[..n]
      ensures files[j] in r[..n]
    {
      assert files[i] in r && files[k] in r;
      assert files[j] in r;
      LeftOfPrefix(r, n, files[j], files[k]);
    }
  }

  /** Deeper than level 0 the first files that together reach the limit are taken, or all if they do not. */
  ghost predicate CutAfter(inputs: seq<FileMeta>, level: nat, limit: nat, n: nat) {
    && 0 < n <= |inputs| && (level == 0 ==> n == |inputs|)
    && (level > 0 ==> (forall m :: 0 < m < n ==> TotalFileSize(inputs[..m]) < limit)
                      && (n < |inputs| ==> limit <= TotalFileSize(inputs[..n])))
  }

  lemma PrefixSize(inputs: seq<FileMeta>, i: nat)
    requires i < |inputs|
    ensures TotalFileSize(inputs[..i + 1]) == TotalFileSize(inputs[..i]) + inputs[i].size
  {
    assert inputs[..i + 1] == inputs[..i] + [inputs[i]];
    TotalFileSizeAdds(inputs[..i], [inputs[i]], inputs[i]);
  }

  /** VersionSet::CompactRange: deeper than level 0 the range is cut once enough bytes are picked. */
  method CompactRange(v: Version, level: nat, begin: Option<UserKey>, end: Option<UserKey>, limit: nat, expandedSizeLimit: nat)
    returns (found: bool, inputs0: seq<FileMeta>, inputs1: seq<FileMeta>, grandparents: seq<FileMeta>, ghost n: nat)
    requires WellFormed(v) && level + 1 < NUM_LEVELS
    ensures found ==> ProperInputs(v, level, inputs0, inputs1) && (level > 0 ==> Disjoint(inputs0))
    ensures found <==> OverlappingInputs(level, v[level], begin, end) != []
    ensures found ==> CutAfter(OverlappingInputs(level, v[level], begin, end), level, limit, n)
    ensures found ==>
              IsSetUp(v, level, OverlappingInputs(level, v[level], begin, end)[..n], expandedSizeLimit, inputs0, inputs1, grandparents)
  {
    hide IsSetUp, WellFormed, CutAfter, OverlappingInputs, Convex, TouchClosed, ProperInputs, Pickable, Disjoint, NoRepeats;
    LevelsAreValid(v);
    var inputs := GetOverlappingInputs(level, v[level], begin, end);
    if inputs == [] {
      return false, [], [], [], 0;
    }
    var count := CutShort(inputs, level, limit);
    n := count;
    PrefixIsPickable(v, level, begin, end, limit, count);
    found := true;
    inputs0, inputs1, grandparents := SetupOtherInputs(v, level, inputs[..count], expandedSizeLimit);
  }

  /** The loop that adds up file sizes. */
  method CutShort(inputs: seq<FileMeta>, level: nat, limit: nat) returns (n: nat)
    requires inputs != []
    ensures CutAfter(inputs, level, limit, n) && 0 < n <= |inputs|
  {
    hide TotalFileSize;
    n := |inputs|;
    if level > 0 {
      var total := 0;
      NothingSized(inputs);
      for i := 0 to |inputs|
        invariant n == |inputs| && total == TotalFileSize(inputs[..i])
        invariant forall m :: 0 < m <= i ==> TotalFileSize(inputs[..m]) < limit
      {
        PrefixSize(inputs, i);
        total := total + inputs[i].size;
        if total >= limit {
          n := i + 1;
          break;
        }
      }
    }
  }

  lemma NothingSized(inputs: seq<FileMeta>)
    ensures TotalFileSize(inputs[..0]) == 0
  {
  }

  lemma PrefixIsPickable(v: Version, level: nat, begin: Option<UserKey>, end: Option<UserKey>, limit: nat, n: nat)
    requires WellFormed(v) && level + 1 < NUM_LEVELS && CutAfter(OverlappingInputs(level, v[level], begin, end), level, limit, n)
    ensures Pickable(v, level, OverlappingInputs(level, v[level], begin, end)[..n])
  {
    hide WellFormed, Convex, TouchClosed, Disjoint, ValidFiles, NoRepeats;
    LevelsAreValid(v);
    OverlappingIsPickable(v, level, begin, end);
    var inputs := OverlappingInputs(level, v[level], begin, end);
    if level > 0 {
      PrefixIsConvex(v[level], begin, end, n);
      PrefixIsDisjoint(inputs, n);
    } else {
      assert inputs[..n] == inputs;
    }
  }

  lemma PrefixIsDisjoint(files: seq<FileMeta>, n: nat)
    requires Disjoint(files) && n <= |files|
    ensures Disjoint(files[..n])
  {
  }

  /** Compaction::IsTrivialMove. */
  predicate IsTrivialMove(inputs0: seq<FileMeta>, inputs1: seq<FileMeta>, grandparents: seq<FileMeta>, overlapLimit: nat) {
    |inputs0| == 1 && |inputs1| == 0 && TotalFileSize(grandparents) <= overlapLimit
  }

  const MAX_MEM_COMPACT_LEVEL: nat := 2

  /** No file of the level meets the user-key range. */
  ghost predicate Clear(files: seq<FileMeta>, smallest: UserKey, largest: UserKey) {
    forall f :: f in files ==> !Overlaps(f, smallest, largest)
  }

  /** The bytes that a table at `level` would overlap two levels below. */
  function GrandparentBytes(v: Version, level: nat, smallest: UserKey, largest: UserKey): nat
    requires level + 2 < |v|
  {
    TotalFileSize(Overlapping(v[level + 2], Some(smallest), Some(largest)))
  }

  /**
   * Where a flushed table goes: down past levels it meets nothing in, and stopped only by the deepest
   * level allowed, by an overlap, or by too many bytes two levels below.
   */
  ghost predicate IsPickedLevel(v: Version, smallest: UserKey, largest: UserKey, overlapLimit: nat, level: nat)
    requires |v| == NUM_LEVELS
  {
    && level <= MAX_MEM_COMPACT_LEVEL
    && (0 < level ==> forall l :: 0 <= l <= level ==> Clear(v[l], smallest, largest))
    && (forall l :: 0 <= l < level ==> GrandparentBytes(v, l, smallest, largest) <= overlapLimit)
    && (level < MAX_MEM_COMPACT_LEVEL ==>
          || (level == 0 && !Clear(v[0], smallest, largest)) || !Clear(v[level + 1], smallest, largest)
          || GrandparentBytes(v, level, smallest, largest) > overlapLimit)
  }

  /** Version::PickLevelForMemTableOutput. */
  method PickLevelForMemTableOutput(v: Version, smallest: UserKey, largest: UserKey, overlapLimit: nat) returns (level: nat)
    requires WellFormed(v) && smallest <= largest
    ensures IsPickedLevel(v, smallest, largest, overlapLimit, level)
  {
    hide WellFormed, ValidFiles, Disjoint, TotalFileSize, Overlaps, Overlapping, OverlappingInputs, Clear, GrandparentBytes;
    LevelsAreValid(v);
    level := 0;
    var blocked := SomeFileOverlapsRange(false, v[0], smallest, largest);
    ClearIs(v[0], smallest, largest);
    if !blocked {
      while level < MAX_MEM_COMPACT_LEVEL
        invariant level <= MAX_MEM_COMPACT_LEVEL
        invariant forall l :: 0 <= l <= level ==> Clear(v[l], smallest, largest)
        invariant forall l :: 0 <= l < level ==> GrandparentBytes(v, l, smallest, largest) <= overlapLimit
      {
        blocked := SomeFileOverlapsRange(true, v[level + 1], smallest, largest);
        ClearIs(v[level + 1], smallest, largest);
        if blocked {
          break;
        }
        if level + 2 < NUM_LEVELS {
          var overlaps := GetOverlappingInputs(level + 2, v[level + 2], Some(smallest), Some(largest));
          BytesAre(v, level, smallest, largest);
          if TotalFileSize(overlaps) > overlapLimit {
            break;
          }
        }
        level := level + 1;
      }
    }
  }

  lemma ClearIs(files: seq<FileMeta>, smallest: UserKey, largest: UserKey)
    ensures Clear(files, smallest, largest) <==> !exists f :: f in files && Overlaps(f, smallest, largest)
  {
    hide Overlaps;
  }

  lemma BytesAre(v: Version, level: nat, smallest: UserKey, largest: UserKey)
    requires level + 2 < |v|
    ensures GrandparentBytes(v, level, smallest, largest) ==
            TotalFileSize(OverlappingInputs(level + 2, v[level + 2], Some(smallest), Some(largest)))
  {
    hide Overlapping, TotalFileSize;
  }
}
