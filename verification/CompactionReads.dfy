/** A compaction step keeps every read a live snapshot can make: when, and exactly when. */
module CompactionReads {
  import opened Common
  import opened DbFormat
  import opened CompactionWork

  // ---------- what the loop keeps ----------

  lemma {:induction false} KeptIs(input: seq<Entry>, smallestSnapshot: nat, bases: iset<UserKey>, n: nat, e: Entry)
    requires n <= |input|
    ensures e in Kept(input, smallestSnapshot, bases, n) <==>
              exists i :: 0 <= i < n && input[i] == e && !Dropped(input, smallestSnapshot, bases, i)
  {
    if 0 < n {
      KeptIs(input, smallestSnapshot, bases, n - 1, e);
    }
  }

  lemma {:induction false} KeptIsSorted(input: seq<Entry>, smallestSnapshot: nat, bases: iset<UserKey>, n: nat)
    requires n <= |input| && Sorted(input)
    ensures Sorted(Kept(input, smallestSnapshot, bases, n))
  {
    if 0 < n {
      KeptIsSorted(input, smallestSnapshot, bases, n - 1);
      var r := Kept(input, smallestSnapshot, bases, n - 1);
      forall t | 0 <= t < |r|
        ensures Before(r[t].key, input[n - 1].key)
      {
        KeptIs(input, smallestSnapshot, bases, n - 1, r[t]);
      }
    }
  }

  /** Between two entries of one key, the predecessor of the later one is of that key and no newer than the earlier one. */
  lemma PredecessorInRun(input: seq<Entry>, a: nat, b: nat)
    requires Sorted(input) && a < b < |input| && input[a].key.user == input[b].key.user
    ensures input[b - 1].key.user == input[b].key.user && input[b - 1].key.sequence <= input[a].key.sequence
  {
    assert Before(input[b - 1].key, input[b].key);
    if a < b - 1 {
      assert Before(input[a].key, input[b - 1].key);
    }
  }

  /** Rule (A) removes everything older than an entry all readers see. */
  lemma OlderIsDropped(input: seq<Entry>, smallestSnapshot: nat, bases: iset<UserKey>, d: Entry, e: Entry)
    requires Sorted(input) && d in input && d.key.user == e.key.user
    requires e.key.sequence < d.key.sequence <= smallestSnapshot
    ensures e !in Kept(input, smallestSnapshot, bases, |input|)
  {
    KeptIs(input, smallestSnapshot, bases, |input|, e);
    var a :| 0 <= a < |input| && input[a] == d;
    forall b | 0 <= b < |input| && input[b] == e
      ensures Dropped(input, smallestSnapshot, bases, b)
    {
      if a < b {
        PredecessorInRun(input, a, b);
      }
    }
  }

  // ---------- reads, over the entries the step touches and the rest of the store ----------

  /**
   * The store is `rest` plus the compaction's input. `lower` are the input entries that came from
   * level + 1, `siblings` the entries of the level + 1 files that were not chosen: for a base-level
   * key nothing else in the store can be older than an input entry.
   */
  ghost predicate DropStep(rest: set<Entry>, input: seq<Entry>, bases: iset<UserKey>, lower: set<Entry>, siblings: set<Entry>) {
    && Sorted(input) && rest !! Contents(input) && UniqueKeys(rest + Contents(input))
    && lower <= Contents(input) && siblings <= rest
    && forall d, e :: d in input && e in rest && e.key.user == d.key.user && d.key.user in bases && e.key.sequence < d.key.sequence ==>
      d in lower && e in siblings
  }

  ghost function After(rest: set<Entry>, input: seq<Entry>, bases: iset<UserKey>, smallestSnapshot: nat): set<Entry> {
    rest + Contents(Kept(input, smallestSnapshot, bases, |input|))
  }

  /**
   * The tombstone trap of `k`: its newest version visible at the smallest snapshot is a tombstone in
   * an input file of level + 1, no deeper level covers `k`, and the newest version in the level + 1
   * files that were not chosen is a value.
   */
  ghost predicate Trapped(rest: set<Entry>, input: seq<Entry>, bases: iset<UserKey>, lower: set<Entry>, siblings: set<Entry>,
                          smallestSnapshot: nat, k: UserKey) {
    && k in bases
    && (exists d :: d in lower && d.key.kind.Deletion? && IsNewest(rest + Contents(input), k, smallestSnapshot, d))
    && exists e :: e in siblings && e.key.kind.Value? && IsNewest(siblings, k, smallestSnapshot, e)
  }

  lemma AfterIsPart(rest: set<Entry>, input: seq<Entry>, bases: iset<UserKey>, smallestSnapshot: nat)
    ensures After(rest, input, bases, smallestSnapshot) <= rest + Contents(input)
  {
    forall e | e in Kept(input, smallestSnapshot, bases, |input|)
      ensures e in Contents(input)
    {
      KeptIs(input, smallestSnapshot, bases, |input|, e);
    }
  }

  /** A newest visible entry that disappears is a tombstone of a base-level key no newer than the smallest snapshot. */
  lemma LostNewestIsTombstone(rest: set<Entry>, input: seq<Entry>, bases: iset<UserKey>, smallestSnapshot: nat,
                              k: UserKey, s: nat, n: Entry)
    requires Sorted(input) && UniqueKeys(rest + Contents(input)) && smallestSnapshot <= s
    requires IsNewest(rest + Contents(input), k, s, n) && n !in After(rest, input, bases, smallestSnapshot)
    ensures n in Contents(input) && n.key.kind.Deletion? && n.key.sequence <= smallestSnapshot && k in bases
  {
    var i :| 0 <= i < |input| && input[i] == n;
    KeptIs(input, smallestSnapshot, bases, |input|, n);
    assert Dropped(input, smallestSnapshot, bases, i);
    if 0 < i {
      assert Before(input[i - 1].key, input[i].key);
      assert input[i - 1] in rest + Contents(input);
    }
  }

  /** After a tombstone is lost, only an older entry of an unchosen sibling file can surface. */
  lemma SurfacedIsSibling(rest: set<Entry>, input: seq<Entry>, bases: iset<UserKey>, lower: set<Entry>, siblings: set<Entry>,
                          smallestSnapshot: nat, k: UserKey, s: nat, n: Entry, m: Entry)
    requires DropStep(rest, input, bases, lower, siblings) && smallestSnapshot <= s
    requires IsNewest(rest + Contents(input), k, s, n) && n !in After(rest, input, bases, smallestSnapshot)
    requires IsNewest(After(rest, input, bases, smallestSnapshot), k, s, m)
    ensures n in lower && IsNewest(siblings, k, smallestSnapshot, m)
  {
    LostNewestIsTombstone(rest, input, bases, smallestSnapshot, k, s, n);
    AfterIsPart(rest, input, bases, smallestSnapshot);
    assert m.key.sequence < n.key.sequence;
    if m !in rest {
      OlderIsDropped(input, smallestSnapshot, bases, n, m);
    }
  }

  /** One read survives the step unless its key is trapped. */
  lemma ReadSurvives(rest: set<Entry>, input: seq<Entry>, bases: iset<UserKey>, lower: set<Entry>, siblings: set<Entry>,
                     smallestSnapshot: nat, k: UserKey, s: nat)
    requires DropStep(rest, input, bases, lower, siblings) && smallestSnapshot <= s
    requires !Trapped(rest, input, bases, lower, siblings, smallestSnapshot, k)
    ensures Read(After(rest, input, bases, smallestSnapshot), k, s) == Read(rest + Contents(input), k, s)
  {
    var all, after := rest + Contents(input), After(rest, input, bases, smallestSnapshot);
    AfterIsPart(rest, input, bases, smallestSnapshot);
    if e :| e in all && e.key.user == k && e.key.sequence <= s {
      var n := NewestExists(all, k, s, e);
      ReadIsNewest(all, k, s, n);
      if n in after {
        ReadIsNewest(after, k, s, n);
      } else {
        LostNewestIsTombstone(rest, input, bases, smallestSnapshot, k, s, n);
        if f :| f in after && f.key.user == k && f.key.sequence <= s {
          var m := NewestExists(after, k, s, f);
          ReadIsNewest(after, k, s, m);
          SurfacedIsSibling(rest, input, bases, lower, siblings, smallestSnapshot, k, s, n, m);
          assert IsNewest(all, k, smallestSnapshot, n);
        }
      }
    }
  }

  /** What the trap uncovers becomes the newest version of the key. */
  lemma TrapUncovers(rest: set<Entry>, input: seq<Entry>, bases: iset<UserKey>, lower: set<Entry>, siblings: set<Entry>,
                     smallestSnapshot: nat, k: UserKey, d: Entry, e: Entry)
    requires DropStep(rest, input, bases, lower, siblings) && k in bases
    requires d in lower && d.key.kind.Deletion? && IsNewest(rest + Contents(input), k, smallestSnapshot, d)
    requires IsNewest(siblings, k, smallestSnapshot, e)
    ensures IsNewest(After(rest, input, bases, smallestSnapshot), k, smallestSnapshot, e)
  {
    var after := After(rest, input, bases, smallestSnapshot);
    AfterIsPart(rest, input, bases, smallestSnapshot);
    KeptIs(input, smallestSnapshot, bases, |input|, d);
    forall f | f in after && f.key.user == k && f.key.sequence <= smallestSnapshot
      ensures f.key.sequence <= e.key.sequence
    {
      if f in rest {
        assert f.key.sequence < d.key.sequence;
      } else if f != d {
        OlderIsDropped(input, smallestSnapshot, bases, d, f);
      }
    }
  }

  /** A trapped key reads as a value after the step although it was deleted before. */
  lemma TrapSprings(rest: set<Entry>, input: seq<Entry>, bases: iset<UserKey>, lower: set<Entry>, siblings: set<Entry>,
                    smallestSnapshot: nat, k: UserKey)
    requires DropStep(rest, input, bases, lower, siblings)
    requires Trapped(rest, input, bases, lower, siblings, smallestSnapshot, k)
    ensures Read(rest + Contents(input), k, smallestSnapshot) == None
    ensures Read(After(rest, input, bases, smallestSnapshot), k, smallestSnapshot).Some?
  {
    AfterIsPart(rest, input, bases, smallestSnapshot);
    var d :| d in lower && d.key.kind.Deletion? && IsNewest(rest + Contents(input), k, smallestSnapshot, d);
    var e :| e in siblings && e.key.kind.Value? && IsNewest(siblings, k, smallestSnapshot, e);
    ReadIsNewest(rest + Contents(input), k, smallestSnapshot, d);
    TrapUncovers(rest, input, bases, lower, siblings, smallestSnapshot, k, d, e);
    ReadIsNewest(After(rest, input, bases, smallestSnapshot), k, smallestSnapshot, e);
  }

  ghost predicate SameReads(s: set<Entry>, t: set<Entry>, smallestSnapshot: nat) {
    forall k, snapshot: nat :: smallestSnapshot <= snapshot ==> Read(s, k, snapshot) == Read(t, k, snapshot)
  }

  /** The two drop rules preserve every read at or above the smallest snapshot if and only if no key is trapped. */
  lemma DropsPreserveReads(rest: set<Entry>, input: seq<Entry>, bases: iset<UserKey>, lower: set<Entry>, siblings: set<Entry>,
                           smallestSnapshot: nat)
    requires DropStep(rest, input, bases, lower, siblings)
    ensures SameReads(After(rest, input, bases, smallestSnapshot), rest + Contents(input), smallestSnapshot)
            <==> forall k :: !Trapped(rest, input, bases, lower, siblings, smallestSnapshot, k)
  {
    if k :| Trapped(rest, input, bases, lower, siblings, smallestSnapshot, k) {
      TrapSprings(rest, input, bases, lower, siblings, smallestSnapshot, k);
    } else {
      forall k, s: nat | smallestSnapshot <= s
        ensures Read(After(rest, input, bases, smallestSnapshot), k, s) == Read(rest + Contents(input), k, s)
      {
        ReadSurvives(rest, input, bases, lower, siblings, smallestSnapshot, k, s);
      }
    }
  }
}
