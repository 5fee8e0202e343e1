/** The read path through the levels of one version (db/version_set: FindFile, Version::Get). */
module VersionSet {
  import opened Common
  import opened DbFormat

  /** The file lists of one version, level by level. */
  type Version = seq<seq<FileMeta>>

  function VersionContents(v: Version): set<Entry> {
    set l, e | 0 <= l < |v| && e in LevelContents(v[l]) :: e
  }

  ghost predicate NewerThan(upper: set<Entry>, lower: set<Entry>) {
    forall e, f :: e in upper && f in lower && e.key.user == f.key.user ==> f.key.sequence < e.key.sequence
  }

  /** Level-0 files may overlap, but a higher file number means newer data for every shared key. */
  ghost predicate LevelZeroOrder(files: seq<FileMeta>) {
    && (forall f, g :: f in files && g in files && f.number == g.number ==> f == g)
    && forall f, g :: f in files && g in files && f.number < g.number ==>
      NewerThan(Contents(g.entries), Contents(f.entries))
  }

  ghost predicate LevelsOrdered(v: Version) {
    forall l, m :: 0 <= l < m < |v| ==> NewerThan(LevelContents(v[l]), LevelContents(v[m]))
  }

  /** What every installed version satisfies: see the run theorem in module DbRun. */
  ghost predicate WellFormed(v: Version) {
    && |v| == NUM_LEVELS
    && (forall l :: 0 <= l < |v| ==> ValidFiles(v[l]))
    && (forall l :: 0 < l < |v| ==> Disjoint(v[l]))
    && LevelZeroOrder(v[0])
    && LevelsOrdered(v)
    && UniqueKeys(VersionContents(v))
  }

  // ---------- binary search ----------

  ghost predicate IsFindFile(files: seq<FileMeta>, key: InternalKey, i: nat) {
    && i <= |files|
    && (forall j :: 0 <= j < i ==> Before(files[j].largest, key))
    && forall j :: i <= j < |files| ==> !Before(files[j].largest, key)
  }

  lemma LargestAscends(files: seq<FileMeta>, i: nat, j: nat)
    requires ValidFiles(files) && Disjoint(files) && i < j < |files|
    ensures Before(files[i].largest, files[j].largest)
  {
    assert files[j].Valid();
    FileBounds(files[j], files[j].entries[|files[j].entries| - 1]);
  }

  method FindFile(files: seq<FileMeta>, key: InternalKey) returns (right: nat)
    requires ValidFiles(files) && Disjoint(files)
    ensures IsFindFile(files, key, right)
  {
    var left := 0;
    right := |files|;
    while left < right
      invariant left <= right <= |files|
      invariant forall j :: 0 <= j < left ==> Before(files[j].largest, key)
      invariant forall j :: right <= j < |files| ==> !Before(files[j].largest, key)
    {
      var mid := (left + right) / 2;
      if Compare(files[mid].largest, key) < 0 {
        forall j | 0 <= j < mid
          ensures Before(files[j].largest, key)
        {
          LargestAscends(files, j, mid);
        }
        left := mid + 1;
      } else {
        forall j | mid < j < |files|
          ensures !Before(files[j].largest, key)
        {
          LargestAscends(files, mid, j);
        }
        right := mid;
      }
    }
  }

  function AfterFile(userKey: UserKey, f: FileMeta): bool {
    userKey > f.largest.user
  }

  function BeforeFile(userKey: UserKey, f: FileMeta): bool {
    userKey < f.smallest.user
  }

  predicate Overlaps(f: FileMeta, smallest: UserKey, largest: UserKey) {
    !AfterFile(smallest, f) && !BeforeFile(largest, f)
  }

  /** The binary search over disjoint files answers exactly what the linear scan answers. */
  method SomeFileOverlapsRange(disjointSortedFiles: bool, files: seq<FileMeta>, smallest: UserKey, largest: UserKey)
    returns (overlap: bool)
    requires ValidFiles(files) && (disjointSortedFiles ==> Disjoint(files))
    requires smallest <= largest
    ensures overlap <==> exists f :: f in files && Overlaps(f, smallest, largest)
  {
    if !disjointSortedFiles {
      for i := 0 to |files|
        invariant forall j :: 0 <= j < i ==> !Overlaps(files[j], smallest, largest)
      {
        if AfterFile(smallest, files[i]) || BeforeFile(largest, files[i]) {
        } else {
          assert files[i] in files && Overlaps(files[i], smallest, largest);
          return true;
        }
      }
      return false;
    }
    var smallKey := InternalKey(smallest, MAX_SEQUENCE_NUMBER, Value);
    var index := FindFile(files, smallKey);
    forall j | 0 <= j < index
      ensures AfterFile(smallest, files[j])
    {
      LargestIsBounded(files[j]);
    }
    if index >= |files| {
      return false;
    }
    overlap := !BeforeFile(largest, files[index]);
    forall j | index < j < |files|
      ensures files[index].smallest.user <= files[j].smallest.user
    {
      assert files[index].Valid();
      FileBounds(files[index], files[index].entries[0]);
    }
  }

  lemma LargestIsBounded(f: FileMeta)
    requires f.Valid()
    ensures f.largest.sequence <= MAX_SEQUENCE_NUMBER
  {
    assert f.entries[|f.entries| - 1] in f.entries;
  }

  // ---------- point lookups ----------

  /** The table lookup followed by SaveValue: the first entry at or after the target, if it is of the key. */
  function TableGet(f: FileMeta, target: InternalKey): Option<Entry> {
    var i := SeekIndex(f.entries, target);
    if i < |f.entries| && f.entries[i].key.user == target.user then Some(f.entries[i]) else None
  }

  ghost predicate NoneVisible(s: set<Entry>, k: UserKey, snapshot: nat) {
    forall e :: e in s && e.key.user == k ==> snapshot < e.key.sequence
  }

  /** A table answers with its newest visible entry, or has none. */
  lemma TableGetFinds(f: FileMeta, k: UserKey, snapshot: nat)
    requires f.Valid()
    ensures match TableGet(f, LookupKey(k, snapshot))
            case Some(e) => IsNewest(Contents(f.entries), k, snapshot, e)
            case None => NoneVisible(Contents(f.entries), k, snapshot)
  {
    var target := LookupKey(k, snapshot);
    var i := SeekIndex(f.entries, target);
    forall e | e in f.entries && e.key.user == k && e.key.sequence <= snapshot
      ensures i < |f.entries| && f.entries[i].key.user == k && e.key.sequence <= f.entries[i].key.sequence
    {
      var j :| 0 <= j < |f.entries| && f.entries[j] == e;
      assert i <= j;
      if i < j {
        assert Before(f.entries[i].key, f.entries[j].key);
      }
    }
  }

  /** In a disjoint level only the file found by the binary search can answer. */
  lemma LevelGetFinds(files: seq<FileMeta>, k: UserKey, snapshot: nat, i: nat)
    requires ValidFiles(files) && Disjoint(files)
    requires IsFindFile(files, LookupKey(k, snapshot), i)
    ensures i < |files| && files[i].smallest.user <= k && TableGet(files[i], LookupKey(k, snapshot)).Some? ==>
              IsNewest(LevelContents(files), k, snapshot, TableGet(files[i], LookupKey(k, snapshot)).value)
    ensures i == |files| || k < files[i].smallest.user || TableGet(files[i], LookupKey(k, snapshot)).None? ==>
              NoneVisible(LevelContents(files), k, snapshot)
  {
    hide ValidFiles, Disjoint, IsFindFile, TableGet, Before;
    var target := LookupKey(k, snapshot);
    forall e | e in LevelContents(files) && e.key.user == k && e.key.sequence <= snapshot
      ensures i < |files| && files[i].smallest.user <= k
      ensures TableGet(files[i], target).Some? && e.key.sequence <= TableGet(files[i], target).value.key.sequence
    {
      var f :| f in files && e in f.entries;
      var j :| 0 <= j < |files| && files[j] == f;
      FoundFileDecides(files, k, snapshot, i, j, e);
    }
    if i < |files| && files[i].smallest.user <= k && TableGet(files[i], target).Some? {
      assert files[i].Valid() by { FileIsValid(files, i); }
      TableGetFinds(files[i], k, snapshot);
    }
  }

  lemma FileIsValid(files: seq<FileMeta>, i: nat)
    requires ValidFiles(files) && i < |files|
    ensures files[i].Valid()
  {
  }

  /** An entry visible in some file of the level: the file found has one at least as new. */
  lemma FoundFileDecides(files: seq<FileMeta>, k: UserKey, snapshot: nat, i: nat, j: nat, e: Entry)
    requires ValidFiles(files) && Disjoint(files) && IsFindFile(files, LookupKey(k, snapshot), i)
    requires j < |files| && e in files[j].entries && e.key.user == k && e.key.sequence <= snapshot
    ensures i < |files| && files[i].smallest.user <= k && TableGet(files[i], LookupKey(k, snapshot)).Some?
    ensures e.key.sequence <= TableGet(files[i], LookupKey(k, snapshot)).value.key.sequence
  {
    var target := LookupKey(k, snapshot);
    FileIsValid(files, j);
    FileBounds(files[j], e);
    assert !Before(e.key, target);
    assert i <= j;
    FileIsValid(files, i);
    var g := files[i];
    if i == j {
      TableGetFinds(g, k, snapshot);
    } else {
      assert Before(g.largest, files[j].smallest);
      var m := SeekIndex(g.entries, target);
      assert m < |g.entries|;
      FileBounds(g, g.entries[m]);
    }
  }

  /** std::sort with NewestFirst. */
  function InsertNewestFirst(f: FileMeta, sorted: seq<FileMeta>): (r: seq<FileMeta>)
    ensures forall g :: g in r <==> g == f || g in sorted
    ensures NewestFirst(sorted) ==> NewestFirst(r)
  {
    if sorted == [] || f.number > sorted[0].number then
      var r := [f] + sorted;
      assert forall g :: g in sorted ==> g in r;
      r
    else
      var rest := InsertNewestFirst(f, sorted[1..]);
      var r := [sorted[0]] + rest;
      assert forall g :: g in sorted <==> g == sorted[0] || g in sorted[1..];
      assert forall g :: g in r <==> g == sorted[0] || g in rest;
      assert NewestFirst(sorted) ==> NewestFirst(sorted[1..]) && forall g :: g in sorted[1..] ==> g.number <= sorted[0].number;
      r
  }

  predicate NewestFirst(files: seq<FileMeta>) {
    forall i, j :: 0 <= i < j < |files| ==> files[i].number >= files[j].number
  }

  /** Level-0 files whose user-key range holds `k`, newest first. */
  method LevelZeroCandidates(files: seq<FileMeta>, k: UserKey) returns (tmp: seq<FileMeta>)
    ensures IsCandidates(files, tmp, k)
  {
    tmp := [];
    for i := 0 to |files|
      invariant NewestFirst(tmp)
      invariant forall f :: f in tmp <==> f in files[..i] && f.smallest.user <= k <= f.largest.user
    {
      if k >= files[i].smallest.user && k <= files[i].largest.user {
        tmp := InsertNewestFirst(files[i], tmp);
      }
      assert files[..i + 1] == files[..i] + [files[i]];
    }
  }

  ghost predicate IsCandidates(files: seq<FileMeta>, tmp: seq<FileMeta>, k: UserKey) {
    && NewestFirst(tmp)
    && forall f :: f in tmp <==> f in files && f.smallest.user <= k <= f.largest.user
  }

  /** An entry of any candidate is no newer than the first visible one found. */
  lemma LevelZeroCandidate(files: seq<FileMeta>, tmp: seq<FileMeta>, i: nat, j: nat, k: UserKey, snapshot: nat,
                           e: Entry, d: Entry)
    requires LevelZeroOrder(files) && NewestFirst(tmp) && i < |tmp| && j < |tmp|
    requires tmp[i] in files && tmp[j] in files
    requires j < i ==> NoneVisible(Contents(tmp[j].entries), k, snapshot)
    requires IsNewest(Contents(tmp[i].entries), k, snapshot, e)
    requires d in tmp[j].entries && d.key.user == k && d.key.sequence <= snapshot
    ensures d.key.sequence <= e.key.sequence
  {
    assert d in Contents(tmp[j].entries);
    if tmp[j].number < tmp[i].number {
      assert NewerThan(Contents(tmp[i].entries), Contents(tmp[j].entries));
    }
  }

  lemma LevelZeroHit(files: seq<FileMeta>, tmp: seq<FileMeta>, i: nat, k: UserKey, snapshot: nat, e: Entry)
    requires ValidFiles(files) && LevelZeroOrder(files) && IsCandidates(files, tmp, k) && i < |tmp|
    requires forall j :: 0 <= j < i ==> NoneVisible(Contents(tmp[j].entries), k, snapshot)
    requires IsNewest(Contents(tmp[i].entries), k, snapshot, e)
    ensures IsNewest(LevelContents(files), k, snapshot, e)
  {
    assert tmp[i] in files by { assert tmp[i] in tmp; }
    forall f, d | f in files && d in f.entries && d.key.user == k && d.key.sequence <= snapshot
      ensures d.key.sequence <= e.key.sequence
    {
      FileBounds(f, d);
      var j :| 0 <= j < |tmp| && tmp[j] == f;
      LevelZeroCandidate(files, tmp, i, j, k, snapshot, e, d);
    }
  }

  lemma LevelZeroMiss(files: seq<FileMeta>, tmp: seq<FileMeta>, k: UserKey, snapshot: nat)
    requires ValidFiles(files) && IsCandidates(files, tmp, k)
    requires forall j :: 0 <= j < |tmp| ==> NoneVisible(Contents(tmp[j].entries), k, snapshot)
    ensures NoneVisible(LevelContents(files), k, snapshot)
  {
    forall e | e in LevelContents(files) && e.key.user == k
      ensures snapshot < e.key.sequence
    {
      var f :| f in files && e in f.entries;
      FileBounds(f, e);
      var j :| 0 <= j < |tmp| && tmp[j] == f;
      assert e in Contents(tmp[j].entries);
    }
  }

  /** First-hit search of level 0, newest file first, finds the newest visible entry of the level. */
  method GetLevelZero(files: seq<FileMeta>, k: UserKey, snapshot: nat) returns (r: Option<Entry>)
    requires ValidFiles(files) && LevelZeroOrder(files)
    ensures r.Some? ==> IsNewest(LevelContents(files), k, snapshot, r.value)
    ensures r.None? ==> NoneVisible(LevelContents(files), k, snapshot)
  {
    var tmp := LevelZeroCandidates(files, k);
    for i := 0 to |tmp|
      invariant forall j :: 0 <= j < i ==> NoneVisible(Contents(tmp[j].entries), k, snapshot)
    {
      r := TableGet(tmp[i], LookupKey(k, snapshot));
      TableGetFinds(tmp[i], k, snapshot);
      if r.Some? {
        LevelZeroHit(files, tmp, i, k, snapshot, r.value);
        return;
      }
    }
    r := None;
    LevelZeroMiss(files, tmp, k, snapshot);
  }

  /**
   * Version::Get: stop at the first level that has a visible entry. Level order makes the first
   * hit the newest visible entry of the whole version.
   */
  method Get(v: Version, k: UserKey, snapshot: nat) returns (r: Option<Entry>)
    requires WellFormed(v)
    ensures r.Some? ==> IsNewest(VersionContents(v), k, snapshot, r.value)
    ensures r.None? ==> NoneVisible(VersionContents(v), k, snapshot)
  {
    hide LevelsOrdered, UniqueKeys, LevelContents, LevelZeroOrder, ValidFiles, Disjoint, IsNewest;
    for level := 0 to NUM_LEVELS
      invariant forall l :: 0 <= l < level ==> NoneVisible(LevelContents(v[l]), k, snapshot)
    {
      if level == 0 {
        r := GetLevelZero(v[0], k, snapshot);
      } else {
        var index := FindFile(v[level], LookupKey(k, snapshot));
        LevelGetFinds(v[level], k, snapshot, index);
        if index >= |v[level]| || k < v[level][index].smallest.user {
          r := None;
        } else {
          r := TableGet(v[level][index], LookupKey(k, snapshot));
        }
      }
      if r.Some? {
        FirstHitIsNewest(v, k, snapshot, level, r.value);
        return;
      }
    }
    r := None;
    NoLevelNoVersion(v, k, snapshot);
  }

  lemma NoLevelNoVersion(v: Version, k: UserKey, snapshot: nat)
    requires forall l :: 0 <= l < |v| ==> NoneVisible(LevelContents(v[l]), k, snapshot)
    ensures NoneVisible(VersionContents(v), k, snapshot)
  {
  }

  lemma FirstHitIsNewest(v: Version, k: UserKey, snapshot: nat, level: nat, e: Entry)
    requires WellFormed(v) && level < |v|
    requires forall l :: 0 <= l < level ==> NoneVisible(LevelContents(v[l]), k, snapshot)
    requires IsNewest(LevelContents(v[level]), k, snapshot, e)
    ensures IsNewest(VersionContents(v), k, snapshot, e)
  {
    hide LevelContents, ValidFiles, Disjoint, LevelZeroOrder, UniqueKeys;
    forall f | f in VersionContents(v) && f.key.user == k && f.key.sequence <= snapshot
      ensures f.key.sequence <= e.key.sequence
    {
      var l :| 0 <= l < |v| && f in LevelContents(v[l]);
      if l > level {
        assert NewerThan(LevelContents(v[level]), LevelContents(v[l]));
      }
    }
  }
}
