/** Internal keys, entries, table files and the reads they define (db/dbformat, db/version_edit). */
module DbFormat {
  import opened Common

  /**
   * A user key. The user's comparator is a total order on the countable set of byte strings, and
   * every such order embeds in the order of the reals, so a statement about all reals is a
   * statement about all comparators.
   */
  type UserKey = real

  datatype ValueType = Deletion | Value

  type Bytes = string

  const MAX_SEQUENCE_NUMBER: nat := 0xff_ffff_ffff_ffff

  const NUM_LEVELS: nat := 7

  /** A parsed internal key; the ordering uses the packed number `sequence << 8 | type`. */
  datatype InternalKey = InternalKey(user: UserKey, sequence: nat, kind: ValueType) {
    function Packed(): nat {
      sequence * 256 + if kind.Value? then 1 else 0
    }
  }

  /** Sequence numbers have the 56 bits that 64 leave beside the type. */
  lemma PackedFits(k: InternalKey)
    ensures k.Packed() < 0x1_0000_0000_0000_0000 <==> k.sequence <= MAX_SEQUENCE_NUMBER
  {
  }

  /** InternalKeyComparator::Compare: ascending user keys, then descending packed numbers. */
  function Compare(a: InternalKey, b: InternalKey): int {
    if a.user < b.user then -1
    else if b.user < a.user then 1
    else if a.Packed() > b.Packed() then -1
    else if a.Packed() < b.Packed() then 1
    else 0
  }

  predicate Before(a: InternalKey, b: InternalKey) {
    Compare(a, b) < 0
  }

  /** The key that seeks to the newest entry of `user` visible at `snapshot` (LookupKey). */
  function LookupKey(user: UserKey, snapshot: nat): InternalKey {
    InternalKey(user, snapshot, Value)
  }

  datatype Entry = Entry(key: InternalKey, value: Bytes)

  predicate Sorted(s: seq<Entry>) {
    forall i, j :: 0 <= i < j < |s| ==> Before(s[i].key, s[j].key)
  }

  /** Two entries of one user key never share a sequence number. */
  predicate UniqueKeys(s: set<Entry>) {
    forall e, f :: e in s && f in s && e.key.user == f.key.user && e.key.sequence == f.key.sequence ==> e == f
  }

  lemma UniqueKeysOfPart(part: set<Entry>, all: set<Entry>)
    requires part <= all && UniqueKeys(all)
    ensures UniqueKeys(part)
  {
  }

  /** Among a set of entries, `e` is the newest one of `k` that a reader at `snapshot` may see. */
  ghost predicate IsNewest(s: set<Entry>, k: UserKey, snapshot: nat, e: Entry) {
    && e in s && e.key.user == k && e.key.sequence <= snapshot
    && forall f :: f in s && f.key.user == k && f.key.sequence <= snapshot ==> f.key.sequence <= e.key.sequence
  }

  /** The specification of a read: the newest visible entry, a deletion meaning absent. */
  ghost function Read(s: set<Entry>, k: UserKey, snapshot: nat): Option<Bytes> {
    if exists e :: IsNewest(s, k, snapshot, e) && e.key.kind.Value? then
      var e :| IsNewest(s, k, snapshot, e) && e.key.kind.Value?;
      Some(e.value)
    else
      None
  }

  /** With unique keys the newest entry decides the read. */
  lemma ReadIsNewest(s: set<Entry>, k: UserKey, snapshot: nat, e: Entry)
    requires UniqueKeys(s) && IsNewest(s, k, snapshot, e)
    ensures Read(s, k, snapshot) == if e.key.kind.Value? then Some(e.value) else None
  {
    forall f | IsNewest(s, k, snapshot, f)
      ensures f == e
    {
    }
  }

  /** A nonempty finite set of visible entries has a newest one. */
  lemma {:induction false} NewestExists(s: set<Entry>, k: UserKey, snapshot: nat, e: Entry) returns (n: Entry)
    requires e in s && e.key.user == k && e.key.sequence <= snapshot
    ensures IsNewest(s, k, snapshot, n)
    decreases snapshot - e.key.sequence
  {
    if f :| f in s && f.key.user == k && e.key.sequence < f.key.sequence <= snapshot {
      n := NewestExists(s, k, snapshot, f);
    } else {
      n := e;
    }
  }

  /** Reads only look at the visible entries of their own key. */
  lemma ReadDependsOn(s: set<Entry>, t: set<Entry>, k: UserKey, snapshot: nat)
    requires UniqueKeys(s)
    requires forall e: Entry :: e.key.user == k && e.key.sequence <= snapshot ==> (e in s <==> e in t)
    ensures Read(s, k, snapshot) == Read(t, k, snapshot)
  {
    assert forall e :: IsNewest(s, k, snapshot, e) <==> IsNewest(t, k, snapshot, e);
    if n :| IsNewest(s, k, snapshot, n) {
      assert forall f :: IsNewest(s, k, snapshot, f) ==> f == n;
    }
  }

  // ---------- table files ----------

  /** FileMetaData together with the entries of the table it names. */
  datatype FileMeta = FileMeta(number: nat, size: nat, smallest: InternalKey, largest: InternalKey, entries: seq<Entry>) {
    predicate Valid() {
      && 0 < |entries| && Sorted(entries)
      && smallest == entries[0].key && largest == entries[|entries| - 1].key
      && forall e :: e in entries ==> e.key.sequence <= MAX_SEQUENCE_NUMBER
    }
  }

  function Contents(s: seq<Entry>): set<Entry> {
    set e | e in s
  }

  function LevelContents(files: seq<FileMeta>): set<Entry> {
    set f, e | f in files && e in f.entries :: e
  }

  predicate ValidFiles(files: seq<FileMeta>) {
    forall f :: f in files ==> f.Valid()
  }

  /** Files of one level in order, no two of them overlapping. */
  predicate Disjoint(files: seq<FileMeta>) {
    forall i, j :: 0 <= i < j < |files| ==> Before(files[i].largest, files[j].smallest)
  }

  lemma FileBounds(f: FileMeta, e: Entry)
    requires f.Valid() && e in f.entries
    ensures !Before(e.key, f.smallest) && !Before(f.largest, e.key)
    ensures f.smallest.user <= e.key.user <= f.largest.user
  {
    var i :| 0 <= i < |f.entries| && f.entries[i] == e;
    if 0 < i {
      assert Before(f.entries[0].key, f.entries[i].key);
    }
    if i < |f.entries| - 1 {
      assert Before(f.entries[i].key, f.entries[|f.entries| - 1].key);
    }
  }

  /** The least index of an entry not before `target`, or the length: what Iterator::Seek finds. */
  function SeekIndex(s: seq<Entry>, target: InternalKey): (i: nat)
    ensures i <= |s|
    ensures forall j :: 0 <= j < i ==> Before(s[j].key, target)
    ensures i < |s| ==> !Before(s[i].key, target)
  {
    if |s| == 0 || !Before(s[0].key, target) then 0 else 1 + SeekIndex(s[1..], target)
  }
}
