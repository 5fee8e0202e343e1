/** The bidirectional merging iterator (table/merger). */
module Merger {
  import opened Common
  import opened DbFormat

  datatype Direction = Forward | Reverse

  /** Every entry of every child. */
  function Union(children: seq<seq<Entry>>): set<Entry> {
    set c, e | c in children && e in c :: e
  }

  /** Children are sorted, and no internal key occurs twice. */
  ghost predicate Mergeable(children: seq<seq<Entry>>) {
    && (forall c :: 0 <= c < |children| ==> Sorted(children[c]))
    && forall c, d, i, j :: 0 <= c < d < |children| && 0 <= i < |children[c]| && 0 <= j < |children[d]| ==>
      Compare(children[c][i].key, children[d][j].key) != 0
  }

  // ---------- the specification: a cursor over the sorted union ----------

  /** `r` is the first entry of `all` not before `target`, or None if there is none. */
  ghost predicate IsFirstFrom(all: set<Entry>, target: InternalKey, r: Option<Entry>) {
    match r
    case Some(e) => e in all && !Before(e.key, target) && forall f :: f in all && !Before(f.key, target) ==> !Before(f.key, e.key)
    case None => forall f :: f in all ==> Before(f.key, target)
  }

  ghost predicate IsFirst(all: set<Entry>, r: Option<Entry>) {
    match r
    case Some(e) => e in all && forall f :: f in all ==> !Before(f.key, e.key)
    case None => all == {}
  }

  ghost predicate IsLast(all: set<Entry>, r: Option<Entry>) {
    match r
    case Some(e) => e in all && forall f :: f in all ==> !Before(e.key, f.key)
    case None => all == {}
  }

  ghost predicate IsNextOf(all: set<Entry>, e: Entry, r: Option<Entry>) {
    match r
    case Some(n) => n in all && Before(e.key, n.key) && forall f :: f in all && Before(e.key, f.key) ==> !Before(f.key, n.key)
    case None => forall f :: f in all ==> !Before(e.key, f.key)
  }

  ghost predicate IsPrevOf(all: set<Entry>, e: Entry, r: Option<Entry>) {
    match r
    case Some(p) => p in all && Before(p.key, e.key) && forall f :: f in all && Before(f.key, e.key) ==> !Before(p.key, f.key)
    case None => forall f :: f in all ==> !Before(f.key, e.key)
  }

  /** On the sorted union, the cursor's moves are index steps. */
  lemma CursorOverSorted(sorted: seq<Entry>, i: nat, r: Option<Entry>)
    requires Sorted(sorted) && i < |sorted|
    ensures IsNextOf(Contents(sorted), sorted[i], r) <==> r == if i + 1 < |sorted| then Some(sorted[i + 1]) else None
    ensures IsPrevOf(Contents(sorted), sorted[i], r) <==> r == if 0 < i then Some(sorted[i - 1]) else None
  {
    var all := Contents(sorted);
    forall j | 0 <= j < |sorted|
      ensures sorted[j] in all
      ensures Before(sorted[i].key, sorted[j].key) <==> i < j
      ensures Before(sorted[j].key, sorted[i].key) <==> j < i
    {
      assert i < j ==> Before(sorted[i].key, sorted[j].key);
      assert j < i ==> Before(sorted[j].key, sorted[i].key);
    }
    if r.Some? && r.value in all {
      var j :| 0 <= j < |sorted| && sorted[j] == r.value;
      if i + 1 < j {
        assert Before(sorted[i + 1].key, sorted[j].key);
      }
      if j < i - 1 {
        assert Before(sorted[j].key, sorted[i - 1].key);
      }
    }
    if i + 1 < |sorted| {
      forall j | i + 1 < j < |sorted|
        ensures Before(sorted[i + 1].key, sorted[j].key)
      {
      }
    }
    if 0 < i {
      forall j | 0 <= j < i - 1
        ensures Before(sorted[j].key, sorted[i - 1].key)
      {
      }
    }
  }

  // ---------- positions of the children ----------

  /** Forward: child `c` stands at its first entry not before `key`. */
  ghost predicate AtOrAfter(child: seq<Entry>, p: nat, key: InternalKey) {
    && p <= |child|
    && (forall j :: 0 <= j < p ==> Before(child[j].key, key))
    && forall j :: p <= j < |child| ==> !Before(child[j].key, key)
  }

  /** Reverse: child `c` stands at its last entry before `key`, or is invalid if it has none. */
  ghost predicate LastBefore(child: seq<Entry>, p: nat, key: InternalKey) {
    && p <= |child|
    && (p < |child| ==> (forall j :: 0 <= j <= p ==> Before(child[j].key, key)) && forall j :: p < j < |child| ==> !Before(child[j].key, key))
    && (p == |child| ==> forall j :: 0 <= j < |child| ==> !Before(child[j].key, key))
  }

  /** Positions in range, and the current child, if any, on an entry. */
  ghost predicate Positioned(children: seq<seq<Entry>>, position: seq<nat>, current: Option<nat>) {
    && |position| == |children|
    && (forall c :: 0 <= c < |children| ==> position[c] <= |children[c]|)
    && (current.Some? ==> current.value < |children| && position[current.value] < |children[current.value]|)
  }

  ghost function EntryAt(children: seq<seq<Entry>>, position: seq<nat>, c: nat): Entry
    requires Positioned(children, position, Some(c))
  {
    children[c][position[c]]
  }

  /** Where every child stands, by direction. */
  ghost predicate Standing(children: seq<seq<Entry>>, position: seq<nat>, current: nat, direction: Direction)
    requires Positioned(children, position, Some(current))
  {
    var key := EntryAt(children, position, current).key;
    forall c :: 0 <= c < |children| && (c == current ==> direction.Forward?) ==>
      if direction.Forward? then AtOrAfter(children[c], position[c], key) else LastBefore(children[c], position[c], key)
  }

  // ---------- picking the smallest or the largest child ----------

  ghost predicate IsSmallestChild(children: seq<seq<Entry>>, position: seq<nat>, current: Option<nat>) {
    && Positioned(children, position, current)
    && (current.None? ==> forall c :: 0 <= c < |children| ==> position[c] == |children[c]|)
    && (current.Some? ==> forall c :: 0 <= c < |children| && position[c] < |children[c]| ==>
          !Before(children[c][position[c]].key, EntryAt(children, position, current.value).key))
  }

  ghost predicate IsLargestChild(children: seq<seq<Entry>>, position: seq<nat>, current: Option<nat>) {
    && Positioned(children, position, current)
    && (current.None? ==> forall c :: 0 <= c < |children| ==> position[c] == |children[c]|)
    && (current.Some? ==> forall c :: 0 <= c < |children| && position[c] < |children[c]| ==>
          !Before(EntryAt(children, position, current.value).key, children[c][position[c]].key))
  }

  lemma InUnion(children: seq<seq<Entry>>, c: nat, j: nat)
    requires c < |children| && j < |children[c]|
    ensures children[c][j] in Union(children)
  {
    assert children[c] in children && children[c][j] in children[c];
  }

  lemma FromUnion(children: seq<seq<Entry>>, e: Entry) returns (c: nat, j: nat)
    requires e in Union(children)
    ensures c < |children| && j < |children[c]| && children[c][j] == e
  {
    var child :| child in children && e in child;
    c :| 0 <= c < |children| && children[c] == child;
    j :| 0 <= j < |child| && child[j] == e;
  }

  lemma SmallestIsFirstAhead(children: seq<seq<Entry>>, position: seq<nat>, current: nat, c: nat, j: nat)
    requires Mergeable(children) && IsSmallestChild(children, position, Some(current))
    requires c < |children| && position[c] <= j < |children[c]|
    ensures !Before(children[c][j].key, EntryAt(children, position, current).key)
  {
    if position[c] < j {
      assert Before(children[c][position[c]].key, children[c][j].key);
    }
  }

  /** The cut between the entries passed and those ahead is a key: `strict` puts the key itself behind. */
  ghost predicate CutAt(child: seq<Entry>, p: nat, key: InternalKey, strict: bool) {
    && p <= |child|
    && (forall j :: 0 <= j < p ==> if strict then !Before(key, child[j].key) else Before(child[j].key, key))
    && forall j :: p <= j < |child| ==> if strict then Before(key, child[j].key) else !Before(child[j].key, key)
  }

  ghost predicate AllCutAt(children: seq<seq<Entry>>, position: seq<nat>, key: InternalKey, strict: bool) {
    |position| == |children| && forall c :: 0 <= c < |children| ==> CutAt(children[c], position[c], key, strict)
  }

  /** With every child cut at a key, the smallest head is the first entry past the cut. */
  lemma SmallestPastCut(children: seq<seq<Entry>>, position: seq<nat>, current: Option<nat>, key: InternalKey, strict: bool)
    requires Mergeable(children) && IsSmallestChild(children, position, current) && AllCutAt(children, position, key, strict)
    ensures current.Some? ==>
              && Standing(children, position, current.value, Forward)
              && EntryAt(children, position, current.value) in Union(children)
    ensures forall e :: e in Union(children) && (if strict then Before(key, e.key) else !Before(e.key, key)) ==>
              current.Some? && !Before(e.key, EntryAt(children, position, current.value).key)
    ensures current.Some? ==>
              var e := EntryAt(children, position, current.value);
              if strict then Before(key, e.key) else !Before(e.key, key)
  {
    if current.Some? {
      InUnion(children, current.value, position[current.value]);
      assert CutAt(children[current.value], position[current.value], key, strict);
      forall c | 0 <= c < |children|
        ensures AtOrAfter(children[c], position[c], EntryAt(children, position, current.value).key)
      {
        assert CutAt(children[c], position[c], key, strict);
        forall j | position[c] <= j < |children[c]|
          ensures !Before(children[c][j].key, EntryAt(children, position, current.value).key)
        {
          SmallestIsFirstAhead(children, position, current.value, c, j);
        }
      }
    }
    forall e | e in Union(children) && (if strict then Before(key, e.key) else !Before(e.key, key))
      ensures current.Some? && !Before(e.key, EntryAt(children, position, current.value).key)
    {
      var c, j := FromUnion(children, e);
      assert CutAt(children[c], position[c], key, strict);
      assert position[c] <= j;
      SmallestIsFirstAhead(children, position, current.value, c, j);
    }
  }

  /** Nothing passed: the smallest head is the first entry of all. */
  lemma SmallestOfAll(children: seq<seq<Entry>>, position: seq<nat>, current: Option<nat>)
    requires Mergeable(children) && IsSmallestChild(children, position, current)
    requires forall c :: 0 <= c < |children| ==> position[c] == 0
    ensures current.Some? ==> Standing(children, position, current.value, Forward)
    ensures IsFirst(Union(children), if current.Some? then Some(EntryAt(children, position, current.value)) else None)
  {
    if current.Some? {
      InUnion(children, current.value, position[current.value]);
      forall c, j | 0 <= c < |children| && 0 <= j < |children[c]|
        ensures !Before(children[c][j].key, EntryAt(children, position, current.value).key)
      {
        SmallestIsFirstAhead(children, position, current.value, c, j);
      }
    }
    forall e | e in Union(children)
      ensures current.Some? && !Before(e.key, EntryAt(children, position, current.value).key)
    {
      var c, j := FromUnion(children, e);
      SmallestIsFirstAhead(children, position, current.value, c, j);
    }
  }

  /** With every child on its last entry before a key, the largest head is the last entry before it. */
  lemma LargestBefore(children: seq<seq<Entry>>, position: seq<nat>, current: Option<nat>, key: InternalKey)
    requires Mergeable(children) && IsLargestChild(children, position, current)
    requires forall c :: 0 <= c < |children| ==> LastBefore(children[c], position[c], key)
    ensures current.Some? ==>
              && Standing(children, position, current.value, Reverse)
              && EntryAt(children, position, current.value) in Union(children)
              && Before(EntryAt(children, position, current.value).key, key)
    ensures forall e :: e in Union(children) && Before(e.key, key) ==>
              current.Some? && !Before(EntryAt(children, position, current.value).key, e.key)
  {
    if current.Some? {
      InUnion(children, current.value, position[current.value]);
      assert LastBefore(children[current.value], position[current.value], key);
      forall c | 0 <= c < |children| && c != current.value
        ensures LastBefore(children[c], position[c], EntryAt(children, position, current.value).key)
      {
        LargestSeesOthers(children, position, current.value, key, c);
      }
    }
    forall e | e in Union(children) && Before(e.key, key)
      ensures current.Some? && !Before(EntryAt(children, position, current.value).key, e.key)
    {
      var c, j := FromUnion(children, e);
      assert LastBefore(children[c], position[c], key);
      if j < position[c] {
        assert Before(children[c][j].key, children[c][position[c]].key);
      }
    }
  }

  lemma LargestSeesOthers(children: seq<seq<Entry>>, position: seq<nat>, current: nat, key: InternalKey, c: nat)
    requires Mergeable(children) && IsLargestChild(children, position, Some(current))
    requires LastBefore(children[current], position[current], key)
    requires c < |children| && c != current && LastBefore(children[c], position[c], key)
    ensures LastBefore(children[c], position[c], EntryAt(children, position, current).key)
  {
    var cur := EntryAt(children, position, current).key;
    if position[c] < |children[c]| {
      assert Compare(children[c][position[c]].key, cur) != 0;
      forall j | 0 <= j <= position[c]
        ensures Before(children[c][j].key, cur)
      {
        if j < position[c] {
          assert Before(children[c][j].key, children[c][position[c]].key);
        }
      }
    }
  }

  /** Every child on its last entry: the largest head is the last entry of all. */
  lemma LargestOfAll(children: seq<seq<Entry>>, position: seq<nat>, current: Option<nat>)
    requires Mergeable(children) && IsLargestChild(children, position, current)
    requires forall c :: 0 <= c < |children| ==> position[c] == if children[c] == [] then 0 else |children[c]| - 1
    ensures current.Some? ==> Standing(children, position, current.value, Reverse)
    ensures IsLast(Union(children), if current.Some? then Some(EntryAt(children, position, current.value)) else None)
  {
    if current.Some? {
      InUnion(children, current.value, position[current.value]);
      var key := EntryAt(children, position, current.value).key;
      forall c | 0 <= c < |children| && c != current.value
        ensures LastBefore(children[c], position[c], key)
      {
        if children[c] != [] {
          assert Compare(children[c][position[c]].key, key) != 0;
          forall j | 0 <= j < position[c]
            ensures Before(children[c][j].key, children[c][position[c]].key)
          {
          }
        }
      }
    }
    forall e | e in Union(children)
      ensures current.Some? && !Before(EntryAt(children, position, current.value).key, e.key)
    {
      var c, j := FromUnion(children, e);
      if j < position[c] {
        assert Before(children[c][j].key, children[c][position[c]].key);
      }
    }
  }

  // ---------- the iterator ----------

  class MergingIterator {
    const children: seq<seq<Entry>>
    const position: array<nat>
    var current: Option<nat>
    var direction: Direction

    constructor (children: seq<seq<Entry>>)
      requires Mergeable(children)
      ensures this.children == children && Valid() && Current() == None && fresh(position)
    {
      this.children := children;
      position := new nat[|children|](i requires 0 <= i < |children| => |children[i]|);
      current := None;
      direction := Forward;
    }

    ghost predicate InRange()
      reads this, position
    {
      Mergeable(children) && Positioned(children, position[..], None)
    }

    ghost predicate Valid()
      reads this, position
    {
      && InRange() && Positioned(children, position[..], current)
      && (current.Some? ==> Standing(children, position[..], current.value, direction))
    }

    ghost function Current(): Option<Entry>
      reads this, position
      requires Positioned(children, position[..], current)
    {
      if current.None? then None else Some(EntryAt(children, position[..], current.value))
    }

    method FindSmallest()
      requires InRange()
      modifies this`current
      ensures IsSmallestChild(children, position[..], current)
    {
      var smallest: Option<nat> := None;
      for i := 0 to |children|
        invariant smallest.None? ==> forall c :: 0 <= c < i ==> position[c] == |children[c]|
        invariant smallest.Some? ==> smallest.value < i && position[smallest.value] < |children[smallest.value]|
        invariant smallest.Some? ==> forall c :: 0 <= c < i && position[c] < |children[c]| ==>
                    !Before(children[c][position[c]].key, children[smallest.value][position[smallest.value]].key)
      {
        assert position[..][i] <= |children[i]|;
        if position[i] < |children[i]| {
          if smallest.None? {
            smallest := Some(i);
          } else if Compare(children[i][position[i]].key, children[smallest.value][position[smallest.value]].key) < 0 {
            smallest := Some(i);
          }
        }
      }
      current := smallest;
    }

    method FindLargest()
      requires InRange()
      modifies this`current
      ensures IsLargestChild(children, position[..], current)
    {
      var largest: Option<nat> := None;
      for i := |children| downto 0
        invariant largest.None? ==> forall c :: i <= c < |children| ==> position[c] == |children[c]|
        invariant largest.Some? ==> i <= largest.value < |children| && position[largest.value] < |children[largest.value]|
        invariant largest.Some? ==> forall c :: i <= c < |children| && position[c] < |children[c]| ==>
                    !Before(children[largest.value][position[largest.value]].key, children[c][position[c]].key)
      {
        assert position[..][i] <= |children[i]|;
        if position[i] < |children[i]| {
          if largest.None? {
            largest := Some(i);
          } else if Compare(children[i][position[i]].key, children[largest.value][position[largest.value]].key) > 0 {
            largest := Some(i);
          }
        }
      }
      current := largest;
    }

    method SeekToFirst()
      requires InRange()
      modifies this, position
      ensures Valid() && IsFirst(Union(children), Current())
    {
      for i := 0 to |children|
        invariant InRange() && forall c :: 0 <= c < i ==> position[c] == 0
      {
        position[i] := 0;
      }
      FindSmallest();
      direction := Forward;
      SmallestOfAll(children, position[..], current);
    }

    method SeekToLast()
      requires InRange()
      modifies this, position
      ensures Valid() && IsLast(Union(children), Current())
    {
      for i := 0 to |children|
        invariant InRange() && forall c :: 0 <= c < i ==> position[c] == if children[c] == [] then 0 else |children[c]| - 1
      {
        position[i] := if children[i] == [] then 0 else |children[i]| - 1;
      }
      FindLargest();
      direction := Reverse;
      LargestOfAll(children, position[..], current);
    }

    method Seek(target: InternalKey)
      requires InRange()
      modifies this, position
      ensures Valid() && IsFirstFrom(Union(children), target, Current())
    {
      for i := 0 to |children|
        invariant InRange() && forall c :: 0 <= c < i ==> CutAt(children[c], position[c], target, false)
      {
        position[i] := SeekIndex(children[i], target);
        SeekCuts(children[i], target);
      }
      FindSmallest();
      direction := Forward;
      SmallestPastCut(children, position[..], current, target, false);
    }

    /** A child's Prev: one entry back, or invalid from the first. */
    function Back(child: seq<Entry>, p: nat): nat
      requires p < |child|
    {
      if p == 0 then |child| else p - 1
    }

    /** The change of direction: every other child goes to its first entry after the key. */
    method TurnForward(cur: nat, key: InternalKey)
      requires InRange() && cur < |children|
      modifies position
      ensures InRange() && position[cur] == old(position[cur])
      ensures forall c :: 0 <= c < |children| && c != cur ==> CutAt(children[c], position[c], key, true)
    {
      hide Union, Before, Sorted, Mergeable;
      ChildrenSorted(children);
      for i := 0 to |children|
        invariant InRange() && position[cur] == old(position[cur])
        invariant forall c :: 0 <= c < i && c != cur ==> CutAt(children[c], position[c], key, true)
      {
        if i != cur {
          position[i] := SeekIndex(children[i], key);
          SeekCuts(children[i], key);
          if position[i] < |children[i]| && Compare(key, children[i][position[i]].key) == 0 {
            position[i] := position[i] + 1;
          }
          SeekThenStep(children[i], key);
        }
      }
    }

    method Next()
      requires Valid() && current.Some?
      modifies this, position
      ensures Valid() && IsNextOf(Union(children), old(Current().value), Current())
    {
      hide Union, Before, Sorted, Mergeable;
      ChildrenSorted(children);
      var cur := current.value;
      var key := children[cur][position[cur]].key;
      if direction != Forward {
        TurnForward(cur, key);
        direction := Forward;
      } else {
        forall c | 0 <= c < |children| && c != cur
          ensures CutAt(children[c], position[c], key, true)
        {
          SeekPastCuts(children, cur, position[cur], c, position[c]);
        }
      }
      position[cur] := position[cur] + 1;
      StepCuts(children[cur], old(position[cur]));
      FindSmallest();
      assert AllCutAt(children, position[..], key, true);
      SmallestPastCut(children, position[..], current, key, true);
    }

    /** The change of direction: every other child goes to its last entry before the key. */
    method TurnBack(cur: nat, key: InternalKey)
      requires InRange() && cur < |children|
      modifies position
      ensures InRange() && position[cur] == old(position[cur])
      ensures forall c :: 0 <= c < |children| && c != cur ==> LastBefore(children[c], position[c], key)
    {
      hide Union, Before, Sorted;
      for i := 0 to |children|
        invariant InRange() && position[cur] == old(position[cur])
        invariant forall c :: 0 <= c < i && c != cur ==> LastBefore(children[c], position[c], key)
      {
        if i != cur {
          position[i] := SeekIndex(children[i], key);
          SeekCuts(children[i], key);
          if position[i] < |children[i]| {
            position[i] := Back(children[i], position[i]);
          } else {
            position[i] := if children[i] == [] then 0 else |children[i]| - 1;
          }
        }
      }
    }

    method Prev()
      requires Valid() && current.Some?
      modifies this, position
      ensures Valid() && IsPrevOf(Union(children), old(Current().value), Current())
    {
      hide Union, Before, Sorted;
      var cur := current.value;
      var key := children[cur][position[cur]].key;
      if direction != Reverse {
        TurnBack(cur, key);
        direction := Reverse;
      }
      position[cur] := Back(children[cur], position[cur]);
      StepBack(children[cur], old(position[cur]));
      FindLargest();
      LargestBefore(children, position[..], current, key);
    }
  }

  lemma ChildrenSorted(children: seq<seq<Entry>>)
    requires Mergeable(children)
    ensures forall c :: 0 <= c < |children| ==> Sorted(children[c])
  {
  }

  lemma SeekCuts(child: seq<Entry>, target: InternalKey)
    requires Sorted(child)
    ensures CutAt(child, SeekIndex(child, target), target, false)
  {
    var p := SeekIndex(child, target);
    forall j | p <= j < |child|
      ensures !Before(child[j].key, target)
    {
      if p < j {
        assert Before(child[p].key, child[j].key);
      }
    }
  }

  /** Seek, then Next if the child stands on the key itself: the child is past the key. */
  lemma SeekThenStep(child: seq<Entry>, key: InternalKey)
    requires Sorted(child)
    ensures var p := SeekIndex(child, key);
            CutAt(child, if p < |child| && Compare(key, child[p].key) == 0 then p + 1 else p, key, true)
  {
    SeekCuts(child, key);
    var p := SeekIndex(child, key);
    forall j | p < j < |child|
      ensures Before(child[p].key, child[j].key)
    {
    }
  }

  /** A child cut at the current key of another child is cut strictly past it too: no key occurs twice. */
  lemma SeekPastCuts(children: seq<seq<Entry>>, cur: nat, at: nat, c: nat, p: nat)
    requires Mergeable(children) && cur < |children| && c < |children| && c != cur && at < |children[cur]|
    requires AtOrAfter(children[c], p, children[cur][at].key)
    ensures CutAt(children[c], p, children[cur][at].key, true)
  {
    forall j | p <= j < |children[c]|
      ensures Before(children[cur][at].key, children[c][j].key)
    {
      assert Compare(children[c][j].key, children[cur][at].key) != 0;
    }
  }

  lemma StepCuts(child: seq<Entry>, p: nat)
    requires Sorted(child) && p < |child|
    ensures CutAt(child, p + 1, child[p].key, true)
  {
    forall j | 0 <= j < |child|
      ensures j < p ==> Before(child[j].key, child[p].key)
      ensures p < j ==> Before(child[p].key, child[j].key)
    {
    }
  }

  lemma StepBack(child: seq<Entry>, p: nat)
    requires Sorted(child) && p < |child|
    ensures LastBefore(child, if p == 0 then |child| else p - 1, child[p].key)
  {
    forall j | 0 <= j < |child|
      ensures j < p ==> Before(child[j].key, child[p].key)
      ensures p < j ==> Before(child[p].key, child[j].key)
    {
    }
  }

  /** Everything a cursor has passed: the entries before the current one, or all of them at the end. */
  ghost predicate Passed(all: set<Entry>, current: Option<Entry>, merged: seq<Entry>) {
    && Sorted(merged)
    && forall e :: e in merged <==> e in all && (current.Some? ==> Before(e.key, current.value.key))
  }

  ghost predicate DistinctKeys(all: set<Entry>) {
    forall e, f :: e in all && f in all && Compare(e.key, f.key) == 0 ==> e == f
  }

  lemma MergeableDistinct(children: seq<seq<Entry>>)
    requires Mergeable(children)
    ensures DistinctKeys(Union(children))
  {
    forall e, f | e in Union(children) && f in Union(children) && Compare(e.key, f.key) == 0
      ensures e == f
    {
      var c, i := FromUnion(children, e);
      var d, j := FromUnion(children, f);
    }
  }

  lemma PassOne(all: set<Entry>, e: Entry, next: Option<Entry>, merged: seq<Entry>)
    requires DistinctKeys(all) && e in all && Passed(all, Some(e), merged) && IsNextOf(all, e, next)
    ensures Passed(all, next, merged + [e])
  {
    forall i | 0 <= i < |merged|
      ensures Before(merged[i].key, e.key)
    {
      assert merged[i] in merged;
    }
    forall f | f in all && (next.Some? ==> Before(f.key, next.value.key))
      ensures f in merged + [e]
    {
      assert !Before(e.key, f.key);
      if !Before(f.key, e.key) {
        assert Compare(e.key, f.key) == 0;
      }
    }
  }

  /** Walking the merged children from the first entry to the end yields their sorted union. */
  method MergeAll(children: seq<seq<Entry>>) returns (merged: seq<Entry>)
    requires Mergeable(children)
    ensures Sorted(merged) && Contents(merged) == Union(children)
  {
    var iter := new MergingIterator(children);
    iter.SeekToFirst();
    merged := [];
    ghost var all := Union(children);
    MergeableDistinct(children);
    while iter.current.Some?
      invariant fresh(iter) && fresh(iter.position) && iter.children == children && iter.Valid()
      invariant iter.Current().Some? ==> iter.Current().value in all
      invariant Passed(all, iter.Current(), merged)
      decreases all - Contents(merged)
    {
      ghost var before := merged;
      ghost var e := iter.Current().value;
      merged := merged + [iter.children[iter.current.value][iter.position[iter.current.value]]];
      iter.Next();
      PassOne(all, e, iter.Current(), before);
      assert e in Contents(merged) && e !in Contents(before) by {
        assert !Before(e.key, e.key);
        assert merged[|before|] == e;
      }
    }
  }
}
