/** The bytewise order and the short keys that separate blocks (util/comparator, db/dbformat). */
module Comparator {
  import opened Coding

  /** Slice::compare: lexicographic over unsigned bytes, a proper prefix first. */
  function Compare(a: Bytes, b: Bytes): int {
    if a == [] then (if b == [] then 0 else -1)
    else if b == [] then 1
    else if a[0] < b[0] then -1
    else if a[0] > b[0] then 1
    else Compare(a[1..], b[1..])
  }

  predicate Less(a: Bytes, b: Bytes) {
    Compare(a, b) < 0
  }

  lemma {:induction false} CompareIsTotal(a: Bytes, b: Bytes)
    ensures Compare(a, b) == 0 <==> a == b
    ensures Compare(a, b) == -Compare(b, a)
  {
    if a != [] && b != [] && a[0] == b[0] {
      CompareIsTotal(a[1..], b[1..]);
      assert a == [a[0]] + a[1..] && b == [b[0]] + b[1..];
    }
  }

  lemma {:induction false} LessIsTransitive(a: Bytes, b: Bytes, c: Bytes)
    requires Less(a, b) && Less(b, c)
    ensures Less(a, c)
  {
    if a != [] && a[0] == b[0] && b[0] == c[0] {
      LessIsTransitive(a[1..], b[1..], c[1..]);
    }
  }

  /** The first differing byte decides. */
  lemma {:induction false} DecidedAt(a: Bytes, b: Bytes, d: nat)
    requires d < |a| && d < |b| && a[..d] == b[..d] && a[d] < b[d]
    ensures Less(a, b)
  {
    if 0 < d {
      assert a[0] == a[..d][0] == b[..d][0] == b[0];
      assert a[1..][..d - 1] == a[..d][1..] && b[1..][..d - 1] == b[..d][1..];
      DecidedAt(a[1..], b[1..], d - 1);
    }
  }

  /** The keys agree on their first `d` bytes and differ in the next. */
  predicate DifferAt(a: Bytes, b: Bytes, d: int) {
    0 <= d < |a| && d < |b| && a[..d] == b[..d] && a[d] != b[d]
  }

  lemma SameBefore(a: Bytes, b: Bytes, n: int, k: int)
    requires 0 <= k < n <= |a| && n <= |b| && a[..n] == b[..n]
    ensures a[k] == b[k]
  {
    assert a[..n][k] == b[..n][k];
  }

  lemma DifferOnce(a: Bytes, b: Bytes, n: nat)
    requires n <= |a| && n <= |b| && a[..n] == b[..n] && (n == |a| || n == |b| || a[n] != b[n])
    ensures forall d :: DifferAt(a, b, d) ==> d == n < |a| && n < |b|
  {
    forall d | DifferAt(a, b, d)
      ensures d == n
    {
      if d < n {
        SameBefore(a, b, n, d);
      } else if n < d {
        SameBefore(a, b, d, n);
      }
    }
  }

  /** FindShortestSeparator: the start with its first differing byte increased, if that still fits before the limit. */
  method FindShortestSeparator(start: Bytes, limit: Bytes) returns (r: Bytes)
    ensures r == start || (|r| <= |start| && Less(start, r) && Less(r, limit))
    ensures forall d :: DifferAt(start, limit, d) ==>
              r == if start[d] < 255 && start[d] + 1 < limit[d] then start[..d] + [start[d] + 1] else start
    ensures (forall d :: !DifferAt(start, limit, d)) ==> r == start
  {
    var minLength := if |start| < |limit| then |start| else |limit|;
    var diffIndex := 0;
    while diffIndex < minLength && start[diffIndex] == limit[diffIndex]
      invariant diffIndex <= minLength && start[..diffIndex] == limit[..diffIndex]
    {
      diffIndex := diffIndex + 1;
    }
    r := start;
    DifferOnce(start, limit, diffIndex);
    if diffIndex >= minLength {
      return;
    }
    var diffByte := start[diffIndex];
    assert DifferAt(start, limit, diffIndex);
    if diffByte < 0xff && diffByte + 1 < limit[diffIndex] {
      r := start[diffIndex := diffByte + 1];
      r := r[..diffIndex + 1];
      assert r == start[..diffIndex] + [diffByte + 1];
      DecidedAt(start, r, diffIndex);
      DecidedAt(r, limit, diffIndex);
    }
  }

  /** The first `i` bytes cannot be increased. */
  predicate AllHighest(key: Bytes, i: nat)
    requires i <= |key|
  {
    forall j :: 0 <= j < i ==> key[j] == 255
  }

  /** FindShortSuccessor: the first byte that can be increased is, and the rest is cut off. */
  method FindShortSuccessor(key: Bytes) returns (r: Bytes)
    ensures r == key || (|r| <= |key| && Less(key, r))
    ensures forall i :: 0 <= i < |key| && key[i] != 255 && AllHighest(key, i) ==> r == key[..i] + [key[i] + 1]
    ensures AllHighest(key, |key|) ==> r == key
    ensures AllHighest(key, |key|) || exists i :: 0 <= i < |key| && key[i] != 255 && AllHighest(key, i)
  {
    var n := |key|;
    for i := 0 to n
      invariant AllHighest(key, i)
    {
      if key[i] != 0xff {
        r := key[i := key[i] + 1][..i + 1];
        DecidedAt(key, r, i);
        return;
      }
    }
    r := key;
  }

  // ---------- internal keys over bytes ----------

  /** An internal key with its sequence number and type packed into one number. */
  datatype IKey = IKey(user: Bytes, packed: nat)

  const MAX_PACKED: nat := 0xffff_ffff_ffff_ff01

  /** InternalKeyComparator::Compare. */
  function CompareInternal(a: IKey, b: IKey): int {
    var r := Compare(a.user, b.user);
    if r != 0 then r else if a.packed > b.packed then -1 else if a.packed < b.packed then 1 else 0
  }

  predicate Before(a: IKey, b: IKey) {
    CompareInternal(a, b) < 0
  }

  lemma BeforeIsOrder(a: IKey, b: IKey, c: IKey)
    ensures Before(a, b) && Before(b, c) ==> Before(a, c)
    ensures CompareInternal(a, b) == 0 <==> a == b
    ensures Before(a, b) || a == b || Before(b, a)
    ensures !(Before(a, b) && Before(b, a))
    ensures Before(a, b) && !Before(c, b) ==> Before(a, c)
    ensures !Before(b, a) && Before(b, c) ==> Before(a, c)
  {
    CompareIsTotal(a.user, b.user);
    CompareIsTotal(b.user, c.user);
    CompareIsTotal(a.user, c.user);
    if Less(a.user, b.user) && Less(b.user, c.user) {
      LessIsTransitive(a.user, b.user, c.user);
    }
    if Less(a.user, c.user) && Less(c.user, b.user) {
      LessIsTransitive(a.user, c.user, b.user);
    }
    if Less(c.user, b.user) && Less(b.user, a.user) {
      LessIsTransitive(c.user, b.user, a.user);
    }
    if Less(b.user, c.user) && Less(c.user, a.user) {
      LessIsTransitive(b.user, c.user, a.user);
    }
    if Less(b.user, a.user) && Less(a.user, c.user) {
      LessIsTransitive(b.user, a.user, c.user);
    }
    if Less(c.user, a.user) && Less(a.user, b.user) {
      LessIsTransitive(c.user, a.user, b.user);
    }
    hide Compare;
  }

  /**
   * What an index entry may be: the last key of its block itself, or a later key that is the very
   * first one of a user key before the next block's.
   */
  ghost predicate Separates(last: IKey, sep: IKey) {
    sep == last || (Less(last.user, sep.user) && sep.packed == 18_446_744_073_709_551_361)
  }

  /** Cutting the start after its first differing byte, increased, makes it shorter and keeps it before the limit. */
  predicate Shortens(start: Bytes, limit: Bytes, d: int) {
    0 <= d < |start| - 1 && d < |limit| && start[d] < 255 && start[d] + 1 < limit[d]
  }

  method FindShortestInternalSeparator(start: IKey, limit: IKey) returns (r: IKey)
    ensures Separates(start, r) && (r != start ==> Less(r.user, limit.user))
    ensures r != start <==> exists d :: DifferAt(start.user, limit.user, d) && Shortens(start.user, limit.user, d)
    ensures Before(start, limit) ==> !Before(r, start) && Before(r, limit)
  {
    hide Compare;
    var tmp := FindShortestSeparator(start.user, limit.user);
    r := start;
    CompareIsTotal(start.user, start.user);
    if |tmp| < |start.user| && Compare(start.user, tmp) < 0 {
      r := IKey(tmp, MAX_PACKED);
      CompareIsTotal(tmp, start.user);
    }
  }

  method FindShortInternalSuccessor(key: IKey) returns (r: IKey)
    ensures Separates(key, r) && !Before(r, key)
    ensures r != key <==> exists i :: 0 <= i < |key.user| - 1 && key.user[i] != 255 && AllHighest(key.user, i)
  {
    hide Compare;
    var tmp := FindShortSuccessor(key.user);
    r := key;
    CompareIsTotal(key.user, key.user);
    if |tmp| < |key.user| && Compare(key.user, tmp) < 0 {
      r := IKey(tmp, MAX_PACKED);
      CompareIsTotal(tmp, key.user);
    }
  }
}
