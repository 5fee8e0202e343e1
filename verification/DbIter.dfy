/** The user-key iterator over the internal entries of the store (db/db_iter). */
module DbIter {
  import opened Common
  import opened DbFormat
  import opened Merger

  // ---------- the specification: a cursor over the visible map ----------

  /** One end of a range of user keys. */
  datatype Bound = Unbounded | Inclusive(key: UserKey) | Exclusive(key: UserKey)

  predicate Above(k: UserKey, low: Bound) {
    match low
    case Unbounded => true
    case Inclusive(b) => b <= k
    case Exclusive(b) => b < k
  }

  predicate Below(k: UserKey, high: Bound) {
    match high
    case Unbounded => true
    case Inclusive(b) => k <= b
    case Exclusive(b) => k < b
  }

  datatype Pair = Pair(key: UserKey, value: Bytes)

  /** `r` is the least key above `low` that a read at `snapshot` finds, with the value it finds. */
  ghost predicate IsLeastVisible(all: set<Entry>, snapshot: nat, low: Bound, r: Option<Pair>) {
    match r
    case Some(p) =>
      && Above(p.key, low) && Read(all, p.key, snapshot) == Some(p.value)
      && forall k :: Above(k, low) && k < p.key ==> Read(all, k, snapshot) == None
    case None => forall k :: Above(k, low) ==> Read(all, k, snapshot) == None
  }

  /** `r` is the greatest key below `high` that a read at `snapshot` finds, with the value it finds. */
  ghost predicate IsGreatestVisible(all: set<Entry>, snapshot: nat, high: Bound, r: Option<Pair>) {
    match r
    case Some(p) =>
      && Below(p.key, high) && Read(all, p.key, snapshot) == Some(p.value)
      && forall k :: Below(k, high) && p.key < k ==> Read(all, k, snapshot) == None
    case None => forall k :: Below(k, high) ==> Read(all, k, snapshot) == None
  }

  // ---------- reads of a sorted stream ----------

  predicate Visible(e: Entry, snapshot: nat) {
    e.key.sequence <= snapshot
  }

  /** In key order the first visible entry of a user key decides its read. */
  lemma FirstVisibleDecides(s: seq<Entry>, snapshot: nat, i: nat)
    requires Sorted(s) && i < |s| && Visible(s[i], snapshot)
    requires forall j :: 0 <= j < i && s[j].key.user == s[i].key.user ==> !Visible(s[j], snapshot)
    ensures Read(Contents(s), s[i].key.user, snapshot) == if s[i].key.kind.Value? then Some(s[i].value) else None
  {
    var k := s[i].key.user;
    forall f | f in Contents(s) && f.key.user == k && Visible(f, snapshot)
      ensures f == s[i] || Before(s[i].key, f.key)
    {
      var j :| 0 <= j < |s| && s[j] == f;
    }
    assert IsNewest(Contents(s), k, snapshot, s[i]);
  }

  lemma NoVisibleNoRead(s: seq<Entry>, k: UserKey, snapshot: nat)
    requires forall j :: 0 <= j < |s| && s[j].key.user == k ==> !Visible(s[j], snapshot)
    ensures Read(Contents(s), k, snapshot) == None
  {
  }

  /** Reading a stream that grew by one entry at its front: the backward scan's step. */
  lemma ReadFromFront(s: seq<Entry>, p: nat, k: UserKey, snapshot: nat)
    requires Sorted(s) && p < |s|
    ensures Sorted(s[p..]) && Sorted(s[p + 1..])
    ensures Read(Contents(s[p..]), k, snapshot) ==
            if s[p].key.user != k || !Visible(s[p], snapshot) then Read(Contents(s[p + 1..]), k, snapshot)
            else if s[p].key.kind.Value? then Some(s[p].value) else None
  {
    hide Read;
    assert s[p..] == [s[p]] + s[p + 1..];
    if s[p].key.user == k && Visible(s[p], snapshot) {
      FirstVisibleDecides(s[p..], snapshot, 0);
    } else {
      ReadIgnores(s[p], s[p + 1..], k, snapshot);
    }
  }

  lemma ReadIgnores(e: Entry, rest: seq<Entry>, k: UserKey, snapshot: nat)
    requires Sorted(rest) && (e.key.user != k || !Visible(e, snapshot))
    ensures Read(Contents([e] + rest), k, snapshot) == Read(Contents(rest), k, snapshot)
  {
    SameNewest(e, rest, k, snapshot);
    if n :| IsNewest(Contents(rest), k, snapshot, n) && n.key.kind.Value? {
      SoleNewestValue(rest, k, snapshot, n);
    }
  }

  lemma SameNewest(e: Entry, rest: seq<Entry>, k: UserKey, snapshot: nat)
    requires e.key.user != k || !Visible(e, snapshot)
    ensures forall n :: IsNewest(Contents([e] + rest), k, snapshot, n) <==> IsNewest(Contents(rest), k, snapshot, n)
  {
    assert Contents([e] + rest) == Contents(rest) + {e};
  }

  lemma SoleNewestValue(s: seq<Entry>, k: UserKey, snapshot: nat, n: Entry)
    requires Sorted(s) && IsNewest(Contents(s), k, snapshot, n) && n.key.kind.Value?
    ensures forall e :: IsNewest(Contents(s), k, snapshot, e) && e.key.kind.Value? ==> e == n
  {
    var i :| 0 <= i < |s| && s[i] == n;
    forall e | IsNewest(Contents(s), k, snapshot, e) && e.key.kind.Value?
      ensures e == n
    {
      var j :| 0 <= j < |s| && s[j] == e;
      assert Compare(e.key, n.key) == 0;
    }
  }

  /** Entries outside a suffix do not matter to a key that only the suffix holds. */
  lemma SuffixDecides(s: seq<Entry>, p: nat, k: UserKey, snapshot: nat)
    requires Sorted(s) && p <= |s|
    requires forall j :: 0 <= j < p && s[j].key.user == k ==> !Visible(s[j], snapshot)
    ensures Read(Contents(s[p..]), k, snapshot) == Read(Contents(s), k, snapshot)
    decreases p
  {
    if p == 0 {
      assert s[0..] == s;
    } else {
      ReadFromFront(s, p - 1, k, snapshot);
      SuffixDecides(s, p - 1, k, snapshot);
    }
  }

  lemma UsersAscend(s: seq<Entry>, i: nat, j: nat)
    requires Sorted(s) && i <= j < |s|
    ensures s[i].key.user <= s[j].key.user
  {
  }

  // ---------- the scans ----------

  /**
   * FindNextUserEntry stands at `at` looking for a key above `low`. Nothing it passed can be an
   * answer, and while skipping, no key up to `skip` can be one.
   */
  ghost predicate Scanning(s: seq<Entry>, snapshot: nat, low: Bound, at: nat, skip: Option<UserKey>) {
    && Sorted(s) && at <= |s|
    && (forall i :: 0 <= i < at && Visible(s[i], snapshot) && Above(s[i].key.user, low) ==>
        skip.Some? && s[i].key.user <= skip.value)
    && (forall i :: at <= i < |s| && Visible(s[i], snapshot) ==>
        Above(s[i].key.user, low) || (skip.Some? && s[i].key.user <= skip.value))
    && (skip.Some? ==> forall i :: at <= i < |s| && Visible(s[i], snapshot) ==> skip.value <= s[i].key.user)
    && (skip.Some? ==> forall k :: Above(k, low) && k <= skip.value ==> Read(Contents(s), k, snapshot) == None)
  }

  predicate Hidden(e: Entry, snapshot: nat, skip: Option<UserKey>) {
    !Visible(e, snapshot) || (e.key.kind.Value? && skip.Some? && e.key.user <= skip.value)
  }

  /** Keys strictly between what the scan passed and its entry are absent. */
  lemma ScanGap(s: seq<Entry>, snapshot: nat, low: Bound, at: nat, skip: Option<UserKey>, k: UserKey)
    requires Scanning(s, snapshot, low, at, skip) && Above(k, low)
    requires forall i :: at <= i < |s| && Visible(s[i], snapshot) ==> k != s[i].key.user
    ensures Read(Contents(s), k, snapshot) == None
  {
    if skip.None? || skip.value < k {
      NoVisibleNoRead(s, k, snapshot);
    }
  }

  lemma ScanPast(s: seq<Entry>, snapshot: nat, low: Bound, at: nat, skip: Option<UserKey>)
    requires Scanning(s, snapshot, low, at, skip) && at < |s| && Hidden(s[at], snapshot, skip)
    ensures Scanning(s, snapshot, low, at + 1, skip)
  {
  }

  /** A deletion hides its key: everything up to it is now decided. */
  lemma ScanDeletion(s: seq<Entry>, snapshot: nat, low: Bound, at: nat, skip: Option<UserKey>)
    requires Scanning(s, snapshot, low, at, skip) && at < |s| && Visible(s[at], snapshot) && s[at].key.kind.Deletion?
    ensures Scanning(s, snapshot, low, at + 1, Some(s[at].key.user))
  {
    var d := s[at].key.user;
    forall i | at <= i < |s|
      ensures d <= s[i].key.user
    {
      UsersAscend(s, at, i);
    }
    forall i | 0 <= i < at
      ensures s[i].key.user <= d
    {
      UsersAscend(s, i, at);
    }
    forall k | Above(k, low) && k <= d
      ensures Read(Contents(s), k, snapshot) == None
    {
      if k < d {
        ScanGap(s, snapshot, low, at, skip, k);
      } else if skip.None? || skip.value < d {
        FirstVisibleDecides(s, snapshot, at);
      }
    }
  }

  lemma ScanHit(s: seq<Entry>, snapshot: nat, low: Bound, at: nat, skip: Option<UserKey>)
    requires Scanning(s, snapshot, low, at, skip) && at < |s|
    requires s[at].key.kind.Value? && !Hidden(s[at], snapshot, skip)
    ensures IsLeastVisible(Contents(s), snapshot, low, Some(Pair(s[at].key.user, s[at].value)))
    ensures forall j :: 0 <= j < at && s[j].key.user == s[at].key.user ==> !Visible(s[j], snapshot)
  {
    FirstVisibleDecides(s, snapshot, at);
    forall k | Above(k, low) && k < s[at].key.user
      ensures Read(Contents(s), k, snapshot) == None
    {
      forall i | at <= i < |s|
        ensures k != s[i].key.user
      {
        UsersAscend(s, at, i);
      }
      ScanGap(s, snapshot, low, at, skip, k);
    }
  }

  lemma ScanEnd(s: seq<Entry>, snapshot: nat, low: Bound, skip: Option<UserKey>)
    requires Scanning(s, snapshot, low, |s|, skip)
    ensures IsLeastVisible(Contents(s), snapshot, low, None)
  {
    forall k | Above(k, low)
      ensures Read(Contents(s), k, snapshot) == None
    {
      ScanGap(s, snapshot, low, |s|, skip, k);
    }
  }

  /**
   * FindPrevUserEntry has passed everything from `p` on, looking below `high`: of the passed
   * stream, `saved` is the one key below `high` with a value, and no visible key is smaller.
   */
  ghost predicate BackScanning(s: seq<Entry>, snapshot: nat, high: Bound, p: nat, saved: Option<Pair>) {
    && Sorted(s) && p <= |s|
    && (forall i :: 0 <= i < p && Visible(s[i], snapshot) ==> Below(s[i].key.user, high))
    && (forall k :: Below(k, high) && (saved.Some? ==> k != saved.value.key) ==> Read(Contents(s[p..]), k, snapshot) == None)
    && (saved.Some? ==> Below(saved.value.key, high) && Read(Contents(s[p..]), saved.value.key, snapshot) == Some(saved.value.value))
    && (saved.Some? ==> forall i :: p <= i < |s| && Visible(s[i], snapshot) ==> saved.value.key <= s[i].key.user)
  }

  lemma BackPast(s: seq<Entry>, snapshot: nat, high: Bound, p: nat, saved: Option<Pair>)
    requires 0 < p && BackScanning(s, snapshot, high, p, saved) && !Visible(s[p - 1], snapshot)
    ensures BackScanning(s, snapshot, high, p - 1, saved)
  {
    forall k
      ensures Read(Contents(s[p - 1..]), k, snapshot) == Read(Contents(s[p..]), k, snapshot)
    {
      ReadFromFront(s, p - 1, k, snapshot);
    }
  }

  /** A visible entry that does not end the scan replaces what was saved. */
  lemma BackVisible(s: seq<Entry>, snapshot: nat, high: Bound, p: nat, saved: Option<Pair>)
    requires 0 < p && BackScanning(s, snapshot, high, p, saved) && Visible(s[p - 1], snapshot)
    requires saved.Some? ==> saved.value.key <= s[p - 1].key.user
    ensures BackScanning(s, snapshot, high, p - 1,
                         if s[p - 1].key.kind.Value? then Some(Pair(s[p - 1].key.user, s[p - 1].value)) else None)
  {
    hide Read, Sorted;
    var e := s[p - 1];
    if saved.Some? {
      SavedIsVisible(s, snapshot, p, saved.value);
    }
    forall k | Below(k, high)
      ensures Read(Contents(s[p - 1..]), k, snapshot) ==
              if k == e.key.user && e.key.kind.Value? then Some(e.value) else None
    {
      ReadFromFront(s, p - 1, k, snapshot);
    }
    forall i | p - 1 <= i < |s|
      ensures e.key.user <= s[i].key.user
    {
      UsersAscend(s, p - 1, i);
    }
  }

  /** What was read from the passed stream stands there, so nothing before it has a greater key. */
  lemma SavedIsVisible(s: seq<Entry>, snapshot: nat, p: nat, saved: Pair)
    requires Sorted(s) && p <= |s| && Read(Contents(s[p..]), saved.key, snapshot) == Some(saved.value)
    ensures forall i :: 0 <= i < p ==> s[i].key.user <= saved.key
  {
    var e :| IsNewest(Contents(s[p..]), saved.key, snapshot, e) && e.key.kind.Value?;
    var j :| 0 <= j < |s[p..]| && s[p..][j] == e;
    forall i | 0 <= i < p
      ensures s[i].key.user <= saved.key
    {
      UsersAscend(s, i, p + j);
    }
  }

  /** The scan ends in front of an entry of a smaller key, or of the whole stream. */
  lemma BackEnd(s: seq<Entry>, snapshot: nat, high: Bound, p: nat, saved: Option<Pair>)
    requires BackScanning(s, snapshot, high, p, saved)
    requires 0 < p ==> saved.Some? && s[p - 1].key.user < saved.value.key
    ensures IsGreatestVisible(Contents(s), snapshot, high, saved)
    ensures saved.Some? ==> forall i :: 0 <= i < p ==> s[i].key.user < saved.value.key
    ensures saved.Some? ==> forall i :: p <= i < |s| && Visible(s[i], snapshot) ==> saved.value.key <= s[i].key.user
  {
    forall i | 0 <= i < p
      ensures saved.Some? && s[i].key.user < saved.value.key
    {
      UsersAscend(s, i, p - 1);
    }
    forall k | Below(k, high) && (saved.Some? ==> saved.value.key <= k)
      ensures Read(Contents(s), k, snapshot) == Read(Contents(s[p..]), k, snapshot)
    {
      SuffixDecides(s, p, k, snapshot);
    }
  }

  // ---------- the internal iterator ----------

  /** The merging iterator with its place in the sorted union. */
  class InternalIterator {
    const merger: MergingIterator
    ghost const entries: seq<Entry>
    ghost var at: Option<nat>

    constructor (children: seq<seq<Entry>>, ghost entries: seq<Entry>)
      requires Mergeable(children) && Sorted(entries) && Contents(entries) == Union(children)
      ensures Ready() && this.entries == entries && fresh(merger) && fresh(merger.position)
    {
      merger := new MergingIterator(children);
      this.entries := entries;
      at := None;
    }

    ghost predicate Ready()
      reads this, merger, merger.position
    {
      && merger.InRange() && Sorted(entries) && Contents(entries) == Union(merger.children)
    }

    ghost predicate Standing()
      reads this, merger, merger.position
    {
      && Ready() && merger.Valid() && (at.Some? ==> at.value < |entries|)
      && merger.Current() == if at.Some? then Some(entries[at.value]) else None
    }

    predicate Valid()
      reads this, merger, merger.position
      requires Standing()
      ensures Valid() <==> at.Some?
    {
      merger.current.Some?
    }

    function Current(): (e: Entry)
      reads this, merger, merger.position
      requires Standing() && at.Some?
      ensures e == entries[at.value]
    {
      merger.children[merger.current.value][merger.position[merger.current.value]]
    }

    method SeekToFirst()
      requires Ready()
      modifies this, merger, merger.position
      ensures Standing() && at == if entries == [] then None else Some(0)
    {
      merger.SeekToFirst();
      if entries != [] {
        assert entries[0] in Contents(entries);
      }
      at := PlaceOf(entries, merger.Current());
      FirstPlace(entries, merger.Current());
    }

    method SeekToLast()
      requires Ready()
      modifies this, merger, merger.position
      ensures Standing() && at == if entries == [] then None else Some(|entries| - 1)
    {
      merger.SeekToLast();
      at := PlaceOf(entries, merger.Current());
      LastPlace(entries, merger.Current());
    }

    method Seek(target: InternalKey)
      requires Ready()
      modifies this, merger, merger.position
      ensures Standing()
      ensures forall i :: 0 <= i < (if at.Some? then at.value else |entries|) ==> Before(entries[i].key, target)
      ensures at.Some? ==> !Before(entries[at.value].key, target)
    {
      merger.Seek(target);
      at := PlaceOf(entries, merger.Current());
      SeekPlace(entries, target, merger.Current());
    }

    method Next()
      requires Standing() && at.Some?
      modifies this, merger, merger.position
      ensures Standing() && at == if old(at.value) + 1 < |entries| then Some(old(at.value) + 1) else None
    {
      merger.Next();
      CursorOverSorted(entries, at.value, merger.Current());
      at := if at.value + 1 < |entries| then Some(at.value + 1) else None;
    }

    method Prev()
      requires Standing() && at.Some?
      modifies this, merger, merger.position
      ensures Standing() && at == if 0 < old(at.value) then Some(old(at.value) - 1) else None
    {
      merger.Prev();
      CursorOverSorted(entries, at.value, merger.Current());
      at := if 0 < at.value then Some(at.value - 1) else None;
    }
  }

  ghost function PlaceOf(s: seq<Entry>, e: Option<Entry>): (at: Option<nat>)
    requires e.Some? ==> e.value in s
    ensures at.Some? == e.Some? && (at.Some? ==> at.value < |s| && s[at.value] == e.value)
  {
    if e.None? then None else
      var i :| 0 <= i < |s| && s[i] == e.value;
      Some(i)
  }

  lemma FirstPlace(s: seq<Entry>, e: Option<Entry>)
    requires Sorted(s) && IsFirst(Contents(s), e)
    ensures PlaceOf(s, e) == if s == [] then None else Some(0)
  {
    if s != [] {
      assert s[0] in Contents(s);
    }
  }

  lemma LastPlace(s: seq<Entry>, e: Option<Entry>)
    requires Sorted(s) && IsLast(Contents(s), e)
    ensures PlaceOf(s, e) == if s == [] then None else Some(|s| - 1)
  {
    if s != [] {
      assert s[|s| - 1] in Contents(s);
    }
  }

  lemma SeekPlace(s: seq<Entry>, target: InternalKey, e: Option<Entry>)
    requires Sorted(s) && IsFirstFrom(Contents(s), target, e)
    ensures forall i :: 0 <= i < (if e.Some? then PlaceOf(s, e).value else |s|) ==> Before(s[i].key, target)
  {
    var at := PlaceOf(s, e);
    forall i | 0 <= i < (if e.Some? then at.value else |s|)
      ensures Before(s[i].key, target)
    {
      assert s[i] in Contents(s);
      if e.Some? {
        assert Before(s[i].key, s[at.value].key);
      }
    }
  }

  // ---------- the iterator ----------

  class DBIter {
    const iter: InternalIterator
    const sequence: nat
    var savedKey: Option<UserKey>
    var savedValue: Bytes
    var direction: Direction
    var valid: bool

    constructor (iter: InternalIterator, sequence: nat)
      requires iter.Ready()
      ensures this.iter == iter && this.sequence == sequence && !valid && iter.Ready() && Ready()
    {
      this.iter, this.sequence := iter, sequence;
      savedKey, savedValue, direction, valid := None, "", Forward, false;
    }

    ghost predicate Ready()
      reads this, iter, iter.merger, iter.merger.position
    {
      iter.Ready()
    }

    ghost function All(): set<Entry>
      reads this
    {
      Contents(iter.entries)
    }

    /**
     * Moving forward, the internal iterator stands on the entry shown. Moving backward it stands in
     * front of the shown key's entries: on an entry of a smaller key, or off the front end.
     */
    ghost predicate Valid()
      reads this, iter, iter.merger, iter.merger.position
    {
      && Ready()
      && (valid ==> iter.Standing())
      && (valid && direction == Forward ==>
          && iter.at.Some?
          && var e := iter.entries[iter.at.value];
            && e.key.kind.Value? && Visible(e, sequence)
            && forall j :: 0 <= j < iter.at.value && iter.entries[j].key.user == e.key.user ==> !Visible(iter.entries[j], sequence))
      && (valid && direction == Reverse ==>
          && savedKey.Some? && Read(All(), savedKey.value, sequence) == Some(savedValue)
          && BehindSaved(iter.entries, sequence, if iter.at.Some? then iter.at.value + 1 else 0, savedKey.value))
    }

    /** What Valid(), key() and value() show. */
    ghost function Shown(): Option<Pair>
      reads this, iter, iter.merger, iter.merger.position
      requires Valid()
    {
      if !valid then None
      else Some(Pair(Key(), Value()))
    }

    function Key(): UserKey
      reads this, iter, iter.merger, iter.merger.position
      requires Valid() && valid
    {
      if direction == Forward then iter.Current().key.user else savedKey.value
    }

    function Value(): Bytes
      reads this, iter, iter.merger, iter.merger.position
      requires Valid() && valid
    {
      if direction == Forward then iter.Current().value else savedValue
    }

    method FindNextUserEntry(skip: Option<UserKey>, ghost low: Bound)
      requires iter.Standing() && iter.at.Some? && direction == Forward
      requires Scanning(iter.entries, sequence, low, iter.at.value, skip)
      modifies this, iter, iter.merger, iter.merger.position
      ensures Valid() && IsLeastVisible(All(), sequence, low, Shown())
    {
      hide Scanning, Read, IsLeastVisible, Mergeable, Positioned, Merger.Standing, Sorted, EntryAt;
      var skip := skip;
      ghost var s := iter.entries;
      while iter.Valid()
        invariant iter.Standing() && direction == Forward
        invariant Scanning(s, sequence, low, if iter.at.Some? then iter.at.value else |s|, skip)
        decreases if iter.at.Some? then |s| - iter.at.value else 0
      {
        var e := iter.Current();
        if e.key.sequence <= sequence {
          if e.key.kind.Deletion? {
            ScanDeletion(s, sequence, low, iter.at.value, skip);
            skip := Some(e.key.user);
          } else if skip.Some? && e.key.user <= skip.value {
            ScanPast(s, sequence, low, iter.at.value, skip);
          } else {
            ScanHit(s, sequence, low, iter.at.value, skip);
            valid := true;
            savedKey := None;
            return;
          }
        } else {
          ScanPast(s, sequence, low, iter.at.value, skip);
        }
        iter.Next();
      }
      ScanEnd(s, sequence, low, skip);
      savedKey := None;
      valid := false;
    }

    method FindPrevUserEntry(ghost high: Bound)
      requires iter.Standing() && direction == Reverse
      requires BackScanning(iter.entries, sequence, high, if iter.at.Some? then iter.at.value + 1 else 0, None)
      modifies this, iter, iter.merger, iter.merger.position
      ensures Valid() && IsGreatestVisible(All(), sequence, high, Shown())
    {
      hide BackScanning, Read, IsGreatestVisible, Mergeable, Positioned, Merger.Standing, Sorted, EntryAt;
      ghost var s := iter.entries;
      var valueType := Deletion;
      ghost var saved: Option<Pair> := None;
      while iter.Valid()
        invariant iter.Standing() && direction == Reverse
        invariant saved.Some? <==> valueType == ValueType.Value
        invariant saved.Some? ==> savedKey == Some(saved.value.key) && savedValue == saved.value.value
        invariant BackScanning(s, sequence, high, if iter.at.Some? then iter.at.value + 1 else 0, saved)
        decreases if iter.at.Some? then iter.at.value + 1 else 0
      {
        var e := iter.Current();
        if e.key.sequence <= sequence {
          if valueType != Deletion && e.key.user < savedKey.value {
            break;
          }
          BackVisible(s, sequence, high, iter.at.value + 1, saved);
          valueType := e.key.kind;
          if valueType == Deletion {
            savedKey, savedValue, saved := None, "", None;
          } else {
            savedKey, savedValue, saved := Some(e.key.user), e.value, Some(Pair(e.key.user, e.value));
          }
        } else {
          BackPast(s, sequence, high, iter.at.value + 1, saved);
        }
        iter.Prev();
      }
      BackEnd(s, sequence, high, if iter.at.Some? then iter.at.value + 1 else 0, saved);
      if valueType == Deletion {
        valid := false;
        savedKey, savedValue := None, "";
        direction := Forward;
      } else {
        valid := true;
      }
    }

    method Seek(target: UserKey)
      requires Ready()
      modifies this, iter, iter.merger, iter.merger.position
      ensures Valid() && IsLeastVisible(All(), sequence, Inclusive(target), Shown())
    {
      direction := Forward;
      savedValue := "";
      savedKey := None;
      iter.Seek(LookupKey(target, sequence));
      SeekScans(iter.entries, sequence, target, if iter.at.Some? then iter.at.value else |iter.entries|);
      if iter.Valid() {
        FindNextUserEntry(None, Inclusive(target));
      } else {
        ScanEnd(iter.entries, sequence, Inclusive(target), None);
        valid := false;
      }
    }

    method SeekToFirst()
      requires Ready()
      modifies this, iter, iter.merger, iter.merger.position
      ensures Valid() && IsLeastVisible(All(), sequence, Unbounded, Shown())
    {
      direction := Forward;
      savedValue := "";
      iter.SeekToFirst();
      if iter.Valid() {
        FindNextUserEntry(None, Unbounded);
      } else {
        ScanEnd(iter.entries, sequence, Unbounded, None);
        valid := false;
      }
    }

    method SeekToLast()
      requires Ready()
      modifies this, iter, iter.merger, iter.merger.position
      ensures Valid() && IsGreatestVisible(All(), sequence, Unbounded, Shown())
    {
      direction := Reverse;
      savedValue := "";
      iter.SeekToLast();
      NothingPassed(iter.entries, sequence);
      FindPrevUserEntry(Unbounded);
    }

    method Next()
      requires Valid() && valid
      modifies this, iter, iter.merger, iter.merger.position
      ensures Valid() && IsLeastVisible(All(), sequence, Exclusive(old(Key())), Shown())
    {
      hide Read, BehindSaved, Scanning, IsLeastVisible;
      ghost var key := Key();
      ghost var s := iter.entries;
      if direction == Reverse {
        direction := Forward;
        if !iter.Valid() {
          iter.SeekToFirst();
        } else {
          iter.Next();
        }
        SwitchForward(s, sequence, key, if iter.at.Some? then iter.at.value else |s|);
        if !iter.Valid() {
          ScanEnd(s, sequence, Exclusive(key), Some(key));
          valid := false;
          savedKey := None;
          return;
        }
      } else {
        savedKey := Some(iter.Current().key.user);
        StayForward(s, sequence, iter.at.value);
      }
      FindNextUserEntry(savedKey, Exclusive(key));
    }

    method Prev()
      requires Valid() && valid
      modifies this, iter, iter.merger, iter.merger.position
      ensures Valid() && IsGreatestVisible(All(), sequence, Exclusive(old(Key())), Shown())
    {
      hide Read, BehindSaved, BackScanning, IsGreatestVisible, Mergeable, Positioned, Merger.Standing, EntryAt;
      ghost var key := Key();
      ghost var s := iter.entries;
      if direction == Forward {
        savedKey := Some(iter.Current().key.user);
        ghost var start := iter.at.value;
        while true
          invariant iter.Standing() && iter.at.Some? && iter.at.value <= start && savedKey == Some(key) && direction == Forward
          invariant s[start].key.user == key && forall i :: iter.at.value <= i < start ==> s[i].key.user == key
          decreases iter.at.value
        {
          iter.Prev();
          if !iter.Valid() {
            SwitchBackward(s, sequence, key, 0, start);
            BackEnd(s, sequence, Exclusive(key), 0, None);
            valid := false;
            savedKey, savedValue := None, "";
            return;
          }
          UsersAscend(s, iter.at.value, start);
          if iter.Current().key.user < savedKey.value {
            break;
          }
        }
        direction := Reverse;
        SwitchBackward(s, sequence, key, iter.at.value + 1, start);
      } else {
        StayBackward(s, sequence, key, if iter.at.Some? then iter.at.value + 1 else 0);
      }
      FindPrevUserEntry(Exclusive(key));
    }
  }

  /** Everything before place `p` has a smaller key; every visible entry from `p` on does not. */
  ghost predicate BehindSaved(s: seq<Entry>, snapshot: nat, p: nat, key: UserKey) {
    && p <= |s|
    && (forall i :: 0 <= i < p ==> s[i].key.user < key)
    && forall i :: p <= i < |s| && Visible(s[i], snapshot) ==> key <= s[i].key.user
  }

  lemma SeekScans(s: seq<Entry>, snapshot: nat, target: UserKey, at: nat)
    requires Sorted(s) && at <= |s| && forall i :: 0 <= i < at ==> Before(s[i].key, LookupKey(target, snapshot))
    requires at < |s| ==> !Before(s[at].key, LookupKey(target, snapshot))
    ensures Scanning(s, snapshot, Inclusive(target), at, None)
  {
    forall i | at <= i < |s|
      ensures target <= s[i].key.user
    {
      UsersAscend(s, at, i);
    }
  }

  lemma NothingPassed(s: seq<Entry>, snapshot: nat)
    requires Sorted(s)
    ensures BackScanning(s, snapshot, Unbounded, |s|, None)
  {
    assert Contents(s[|s|..]) == {};
  }

  lemma SwitchForward(s: seq<Entry>, snapshot: nat, key: UserKey, at: nat)
    requires Sorted(s) && BehindSaved(s, snapshot, at, key)
    ensures Scanning(s, snapshot, Exclusive(key), at, Some(key))
  {
  }

  lemma StayForward(s: seq<Entry>, snapshot: nat, at: nat)
    requires Sorted(s) && at < |s|
    ensures Scanning(s, snapshot, Exclusive(s[at].key.user), at, Some(s[at].key.user))
  {
    var key := s[at].key.user;
    forall i | 0 <= i < |s|
      ensures if i < at then s[i].key.user <= key else key <= s[i].key.user
    {
      if i < at {
        UsersAscend(s, i, at);
      } else {
        UsersAscend(s, at, i);
      }
    }
  }

  lemma SwitchBackward(s: seq<Entry>, snapshot: nat, key: UserKey, p: nat, start: nat)
    requires Sorted(s) && p <= start < |s| && s[start].key.user == key
    requires forall i :: p <= i < start ==> s[i].key.user == key
    requires 0 < p ==> s[p - 1].key.user < key
    ensures BackScanning(s, snapshot, Exclusive(key), p, None)
  {
    forall i | p <= i < |s|
      ensures key <= s[i].key.user
    {
      if start < i {
        UsersAscend(s, start, i);
      }
    }
    forall i | 0 <= i < p
      ensures s[i].key.user < key
    {
      UsersAscend(s, i, p - 1);
    }
    forall k | k < key
      ensures Read(Contents(s[p..]), k, snapshot) == None
    {
      NoVisibleNoRead(s[p..], k, snapshot);
    }
  }

  lemma StayBackward(s: seq<Entry>, snapshot: nat, key: UserKey, p: nat)
    requires Sorted(s) && BehindSaved(s, snapshot, p, key)
    ensures BackScanning(s, snapshot, Exclusive(key), p, None)
  {
    forall k | k < key
      ensures Read(Contents(s[p..]), k, snapshot) == None
    {
      NoVisibleNoRead(s[p..], k, snapshot);
    }
  }
}
