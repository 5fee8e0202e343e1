/** The cache's circular doubly linked lists and its chained hash table (util/cache: LRU_Append, LRU_Remove, HandleTable). */
module CacheLists {
  import opened Common

  type Key = string

  /** What an entry is from allocation to deletion; `id` stands for its address. */
  datatype Handle = Handle(id: nat, key: Key, hash: nat, charge: nat)

  // ---------- the two intrusive lists ----------

  datatype Ref = Lru | InUse | Item(id: nat)

  predicate NoRepeats(ids: seq<nat>) {
    forall i, j :: 0 <= i < j < |ids| ==> ids[i] != ids[j]
  }

  function RefAt(head: Ref, ids: seq<nat>, i: int): Ref
    requires -1 <= i <= |ids|
  {
    if i == -1 || i == |ids| then head else Item(ids[i])
  }

  /** The ring through a list head: following `next` visits `ids` in order, following `prev` in reverse. */
  ghost predicate IsRing(next: map<Ref, Ref>, prev: map<Ref, Ref>, head: Ref, ids: seq<nat>) {
    && !head.Item? && NoRepeats(ids)
    && (forall i :: -1 <= i < |ids| ==> RefAt(head, ids, i) in next && next[RefAt(head, ids, i)] == RefAt(head, ids, i + 1))
    && forall i :: 0 <= i <= |ids| ==> RefAt(head, ids, i) in prev && prev[RefAt(head, ids, i)] == RefAt(head, ids, i - 1)
  }

  /** LRU_Append's four writes. */
  function AppendNext(next: map<Ref, Ref>, prev: map<Ref, Ref>, head: Ref, e: Ref): map<Ref, Ref>
    requires head in prev
  {
    next[e := head][prev[head] := e]
  }

  function AppendPrev(prev: map<Ref, Ref>, head: Ref, e: Ref): map<Ref, Ref>
    requires head in prev
  {
    prev[e := prev[head]][head := e]
  }

  lemma AppendKeepsRing(next: map<Ref, Ref>, prev: map<Ref, Ref>, head: Ref, ids: seq<nat>, id: nat)
    requires IsRing(next, prev, head, ids) && id !in ids
    ensures head in prev && IsRing(AppendNext(next, prev, head, Item(id)), AppendPrev(prev, head, Item(id)), head, ids + [id])
  {
    var n := |ids|;
    assert RefAt(head, ids, n) == head && prev[head] == RefAt(head, ids, n - 1);
    var next', prev', all := AppendNext(next, prev, head, Item(id)), AppendPrev(prev, head, Item(id)), ids + [id];
    forall i | -1 <= i < |all|
      ensures RefAt(head, all, i) in next' && next'[RefAt(head, all, i)] == RefAt(head, all, i + 1)
    {
      if i < n - 1 {
        assert RefAt(head, all, i) == RefAt(head, ids, i) && RefAt(head, all, i + 1) == RefAt(head, ids, i + 1);
        RefsDiffer(head, ids, i, n - 1);
      } else if i == n - 1 {
        assert RefAt(head, all, i) == RefAt(head, ids, i);
      }
    }
    forall i | 0 <= i <= |all|
      ensures RefAt(head, all, i) in prev' && prev'[RefAt(head, all, i)] == RefAt(head, all, i - 1)
    {
      if i < n {
        assert RefAt(head, all, i) == RefAt(head, ids, i) && RefAt(head, all, i - 1) == RefAt(head, ids, i - 1);
        RefsDiffer(head, ids, i, n);
      } else if i == n {
        assert RefAt(head, all, i - 1) == RefAt(head, ids, i - 1);
      }
    }
  }

  lemma RefsDiffer(head: Ref, ids: seq<nat>, i: int, j: int)
    requires !head.Item? && NoRepeats(ids) && -1 <= i < j <= |ids| && (i != -1 || j != |ids|)
    ensures RefAt(head, ids, i) != RefAt(head, ids, j)
  {
  }

  /** Writes to the nodes of one ring leave another alone. */
  lemma OtherRingStays(next: map<Ref, Ref>, prev: map<Ref, Ref>, head: Ref, ids: seq<nat>, next': map<Ref, Ref>, prev': map<Ref, Ref>)
    requires IsRing(next, prev, head, ids)
    requires forall r :: r in next && (r == head || (r.Item? && r.id in ids)) ==> r in next' && next'[r] == next[r]
    requires forall r :: r in prev && (r == head || (r.Item? && r.id in ids)) ==> r in prev' && prev'[r] == prev[r]
    ensures IsRing(next', prev', head, ids)
  {
    forall i | -1 <= i <= |ids|
      ensures RefAt(head, ids, i) == head || (RefAt(head, ids, i).Item? && RefAt(head, ids, i).id in ids)
    {
    }
  }

  /** LRU_Remove's two writes. */
  function RemoveNext(next: map<Ref, Ref>, prev: map<Ref, Ref>, e: Ref): map<Ref, Ref>
    requires e in next && e in prev
  {
    next[prev[e] := next[e]]
  }

  function RemovePrev(next: map<Ref, Ref>, prev: map<Ref, Ref>, e: Ref): map<Ref, Ref>
    requires e in next && e in prev
  {
    prev[next[e] := prev[e]]
  }

  function Without(ids: seq<nat>, p: nat): seq<nat>
    requires p < |ids|
  {
    ids[..p] + ids[p + 1..]
  }

  lemma WithoutIs(ids: seq<nat>, p: nat)
    requires NoRepeats(ids) && p < |ids|
    ensures NoRepeats(Without(ids, p)) && forall id :: id in Without(ids, p) <==> id in ids && id != ids[p]
  {
    assert ids == ids[..p] + [ids[p]] + ids[p + 1..];
  }

  lemma RemoveKeepsNext(next: map<Ref, Ref>, prev: map<Ref, Ref>, head: Ref, ids: seq<nat>, p: nat)
    requires IsRing(next, prev, head, ids) && p < |ids| && Item(ids[p]) in next && Item(ids[p]) in prev
    ensures var rest, next' := Without(ids, p), RemoveNext(next, prev, Item(ids[p]));
            forall i :: -1 <= i < |rest| ==> RefAt(head, rest, i) in next' && next'[RefAt(head, rest, i)] == RefAt(head, rest, i + 1)
  {
    hide NoRepeats;
    var e, rest := Item(ids[p]), Without(ids, p);
    var next' := RemoveNext(next, prev, e);
    assert RefAt(head, ids, p) == e && next[e] == RefAt(head, ids, p + 1) && prev[e] == RefAt(head, ids, p - 1);
    forall i | -1 <= i < |rest|
      ensures RefAt(head, rest, i) in next' && next'[RefAt(head, rest, i)] == RefAt(head, rest, i + 1)
    {
      var j := if i < p then i else i + 1;
      assert RefAt(head, rest, i) == RefAt(head, ids, j);
      if i == p - 1 {
        assert RefAt(head, rest, i + 1) == RefAt(head, ids, p + 1);
      } else {
        assert RefAt(head, rest, i + 1) == RefAt(head, ids, j + 1);
        if j < p - 1 {
          RefsDiffer(head, ids, j, p - 1);
        } else {
          RefsDiffer(head, ids, p - 1, j);
        }
      }
    }
  }

  lemma RemoveKeepsPrev(next: map<Ref, Ref>, prev: map<Ref, Ref>, head: Ref, ids: seq<nat>, p: nat)
    requires IsRing(next, prev, head, ids) && p < |ids| && Item(ids[p]) in next && Item(ids[p]) in prev
    ensures var rest, prev' := Without(ids, p), RemovePrev(next, prev, Item(ids[p]));
            forall i :: 0 <= i <= |rest| ==> RefAt(head, rest, i) in prev' && prev'[RefAt(head, rest, i)] == RefAt(head, rest, i - 1)
  {
    hide NoRepeats;
    var e, rest := Item(ids[p]), Without(ids, p);
    var prev' := RemovePrev(next, prev, e);
    assert RefAt(head, ids, p) == e && next[e] == RefAt(head, ids, p + 1) && prev[e] == RefAt(head, ids, p - 1);
    forall i | 0 <= i <= |rest|
      ensures RefAt(head, rest, i) in prev' && prev'[RefAt(head, rest, i)] == RefAt(head, rest, i - 1)
    {
      var j := if i < p then i else i + 1;
      assert RefAt(head, rest, i) == RefAt(head, ids, j);
      if i == p {
        assert RefAt(head, rest, i - 1) == RefAt(head, ids, p - 1);
      } else {
        assert RefAt(head, rest, i - 1) == RefAt(head, ids, j - 1);
        if j < p + 1 {
          RefsDiffer(head, ids, j, p + 1);
        } else {
          RefsDiffer(head, ids, p + 1, j);
        }
      }
    }
  }

  lemma RemoveKeepsRing(next: map<Ref, Ref>, prev: map<Ref, Ref>, head: Ref, ids: seq<nat>, p: nat)
    requires IsRing(next, prev, head, ids) && p < |ids|
    ensures var e := Item(ids[p]);
            && e in next && e in prev
            && IsRing(RemoveNext(next, prev, e), RemovePrev(next, prev, e), head, Without(ids, p))
  {
    var e := Item(ids[p]);
    assert RefAt(head, ids, p) == e;
    WithoutIs(ids, p);
    RemoveKeepsNext(next, prev, head, ids, p);
    RemoveKeepsPrev(next, prev, head, ids, p);
  }

  /** The list without one entry. */
  function Drop(ids: seq<nat>, id: nat): seq<nat> {
    if ids == [] then [] else if ids[0] == id then ids[1..] else [ids[0]] + Drop(ids[1..], id)
  }

  lemma WithoutLater(ids: seq<nat>, q: nat)
    requires ids != [] && q < |ids[1..]|
    ensures Without(ids, q + 1) == [ids[0]] + Without(ids[1..], q)
  {
  }

  lemma {:induction false} DropIs(ids: seq<nat>, id: nat) returns (p: nat)
    requires NoRepeats(ids)
    ensures p <= |ids| && (p < |ids| <==> id in ids)
    ensures p < |ids| ==> ids[p] == id && Drop(ids, id) == Without(ids, p)
    ensures id !in ids ==> Drop(ids, id) == ids
  {
    if ids == [] {
      p := 0;
    } else if ids[0] == id {
      p := 0;
      assert Without(ids, 0) == ids[1..];
    } else {
      TailHasNoRepeats(ids);
      hide NoRepeats, Without;
      var q := DropIs(ids[1..], id);
      p := q + 1;
      if q < |ids[1..]| {
        WithoutLater(ids, q);
      }
      assert ids == [ids[0]] + ids[1..];
    }
  }

  lemma TailHasNoRepeats(ids: seq<nat>)
    requires NoRepeats(ids) && ids != []
    ensures NoRepeats(ids[1..])
  {
  }

  lemma DropHolds(ids: seq<nat>, id: nat)
    requires NoRepeats(ids)
    ensures NoRepeats(Drop(ids, id)) && forall i :: i in Drop(ids, id) <==> i in ids && i != id
  {
    var p := DropIs(ids, id);
    if p < |ids| {
      WithoutIs(ids, p);
    }
  }

  lemma {:induction false} DropNothing(ids: seq<nat>, id: nat)
    requires id !in ids
    ensures Drop(ids, id) == ids
  {
    if ids != [] {
      assert ids[0] in ids;
      DropNothing(ids[1..], id);
    }
  }

  lemma RingIsList(next: map<Ref, Ref>, prev: map<Ref, Ref>, head: Ref, ids: seq<nat>)
    requires IsRing(next, prev, head, ids)
    ensures NoRepeats(ids)
  {
  }

  lemma RemoveFromRings(next: map<Ref, Ref>, prev: map<Ref, Ref>, lru: seq<nat>, inUse: seq<nat>, id: nat)
    requires IsRing(next, prev, Lru, lru) && IsRing(next, prev, InUse, inUse) && (forall i :: i in lru ==> i !in inUse)
    requires id in lru || id in inUse
    ensures var e := Item(id);
            && e in next && e in prev
            && IsRing(RemoveNext(next, prev, e), RemovePrev(next, prev, e), Lru, Drop(lru, id))
            && IsRing(RemoveNext(next, prev, e), RemovePrev(next, prev, e), InUse, Drop(inUse, id))
    ensures forall i :: i in Drop(lru, id) ==> i !in Drop(inUse, id)
  {
    DropHolds(lru, id);
    DropHolds(inUse, id);
    if id in lru {
      RemoveFromOne(next, prev, Lru, lru, InUse, inUse, id);
    } else {
      RemoveFromOne(next, prev, InUse, inUse, Lru, lru, id);
    }
  }

  lemma RemoveFromOne(next: map<Ref, Ref>, prev: map<Ref, Ref>, head: Ref, ids: seq<nat>, other: Ref, others: seq<nat>, id: nat)
    requires IsRing(next, prev, head, ids) && IsRing(next, prev, other, others) && head != other
    requires id in ids && forall i :: i in others ==> i !in ids
    ensures var e := Item(id);
            && e in next && e in prev
            && IsRing(RemoveNext(next, prev, e), RemovePrev(next, prev, e), head, Drop(ids, id))
            && IsRing(RemoveNext(next, prev, e), RemovePrev(next, prev, e), other, Drop(others, id))
  {
    var p := DropIs(ids, id);
    var q := DropIs(others, id);
    RemoveKeepsRing(next, prev, head, ids, p);
    Neighbours(next, prev, head, ids, p);
    OtherRingStays(next, prev, other, others, RemoveNext(next, prev, Item(id)), RemovePrev(next, prev, Item(id)));
  }

  lemma Neighbours(next: map<Ref, Ref>, prev: map<Ref, Ref>, head: Ref, ids: seq<nat>, p: nat)
    requires IsRing(next, prev, head, ids) && p < |ids|
    ensures var e := Item(ids[p]);
            && e in next && e in prev
            && (next[e] == head || (next[e].Item? && next[e].id in ids))
            && (prev[e] == head || (prev[e].Item? && prev[e].id in ids))
  {
    assert RefAt(head, ids, p) == Item(ids[p]);
    assert next[Item(ids[p])] == RefAt(head, ids, p + 1) && prev[Item(ids[p])] == RefAt(head, ids, p - 1);
  }

  lemma AppendToRings(next: map<Ref, Ref>, prev: map<Ref, Ref>, lru: seq<nat>, inUse: seq<nat>, head: Ref, id: nat)
    requires IsRing(next, prev, Lru, lru) && IsRing(next, prev, InUse, inUse) && !head.Item?
    requires id !in lru && id !in inUse && forall i :: i in lru ==> i !in inUse
    ensures head in prev && prev[head] != Item(id)
    ensures var next', prev' := AppendNext(next, prev, head, Item(id)), AppendPrev(prev, head, Item(id));
            && IsRing(next', prev', Lru, if head == Lru then lru + [id] else lru)
            && IsRing(next', prev', InUse, if head == Lru then inUse else inUse + [id])
  {
    if head == Lru {
      AppendToOne(next, prev, Lru, lru, InUse, inUse, id);
    } else {
      AppendToOne(next, prev, InUse, inUse, Lru, lru, id);
    }
  }

  lemma AppendToOne(next: map<Ref, Ref>, prev: map<Ref, Ref>, head: Ref, ids: seq<nat>, other: Ref, others: seq<nat>, id: nat)
    requires IsRing(next, prev, head, ids) && IsRing(next, prev, other, others) && head != other
    requires id !in ids && id !in others && forall i :: i in others ==> i !in ids
    ensures head in prev && prev[head] != Item(id)
    ensures IsRing(AppendNext(next, prev, head, Item(id)), AppendPrev(prev, head, Item(id)), head, ids + [id])
    ensures IsRing(AppendNext(next, prev, head, Item(id)), AppendPrev(prev, head, Item(id)), other, others)
  {
    AppendKeepsRing(next, prev, head, ids, id);
    LastOfRing(next, prev, head, ids);
    OtherRingStays(next, prev, other, others, AppendNext(next, prev, head, Item(id)), AppendPrev(prev, head, Item(id)));
  }

  lemma LastOfRing(next: map<Ref, Ref>, prev: map<Ref, Ref>, head: Ref, ids: seq<nat>)
    requires IsRing(next, prev, head, ids)
    ensures head in prev && (prev[head] == head || (prev[head].Item? && prev[head].id in ids))
    ensures head in next && next[head] == if ids == [] then head else Item(ids[0])
  {
    assert RefAt(head, ids, |ids|) == head && RefAt(head, ids, -1) == head;
    assert prev[head] == RefAt(head, ids, |ids| - 1) && next[head] == RefAt(head, ids, 0);
  }

  // ---------- the hash table ----------

  predicate DistinctKeys(chain: seq<Handle>) {
    forall a, b :: 0 <= a < b < |chain| ==> chain[a].key != chain[b].key
  }

  /** The table's lengths: four, doubled any number of times. */
  predicate IsLength(n: nat) {
    n == 4 || (4 < n && n % 2 == 0 && IsLength(n / 2))
  }

  lemma LengthDoubles(n: nat)
    requires IsLength(n)
    ensures IsLength(2 * n) && 4 <= n
  {
  }

  /** The bucket of a hash; the lengths are powers of two, so masking its low bits is the remainder. */
  function Slot(hash: nat, length: nat): (r: nat)
    requires 0 < length
    ensures r < length
  {
    hash % length
  }

  /** A chain holds exactly the table's entries of its bucket. */
  ghost predicate ChainOk(chain: seq<Handle>, i: nat, length: nat, table: map<Key, Handle>)
    requires 0 < length
  {
    DistinctKeys(chain) && forall h :: h in chain <==> h.key in table && table[h.key] == h && Slot(h.hash, length) == i
  }

  ghost predicate Keyed(table: map<Key, Handle>) {
    forall k :: k in table ==> table[k].key == k
  }

  ghost predicate Chains(list: seq<seq<Handle>>, table: map<Key, Handle>) {
    && 0 < |list| && Keyed(table)
    && forall i :: 0 <= i < |list| ==> ChainOk(list[i], i, |list|, table)
  }

  class HandleTable {
    var elems: nat
    var list: seq<seq<Handle>>
    ghost var table: map<Key, Handle>

    constructor ()
      ensures Valid() && table == map[]
    {
      elems, list, table := 0, [[], [], [], []], map[];
    }

    ghost predicate Valid()
      reads this
    {
      Chains(list, table) && elems == |table| <= |list| && IsLength(|list|)
    }

    /** The place of the entry in its chain, or the end of the chain. */
    method FindPointer(key: Key, hash: nat) returns (bucket: nat, at: nat)
      requires Valid() && (key in table ==> table[key].hash == hash)
      ensures 0 < |list| && bucket == Slot(hash, |list|) && at <= |list[bucket]|
      ensures if at < |list[bucket]| then key in table && list[bucket][at] == table[key] else key !in table
    {
      hide Slot;
      bucket := Slot(hash, |list|);
      assert ChainOk(list[bucket], bucket, |list|, table);
      at := 0;
      while at < |list[bucket]| && (list[bucket][at].hash != hash || key != list[bucket][at].key)
        invariant at <= |list[bucket]|
        invariant forall a :: 0 <= a < at ==> list[bucket][a].hash != hash || list[bucket][a].key != key
      {
        at := at + 1;
      }
      assert at < |list[bucket]| ==> list[bucket][at] in list[bucket];
    }

    method Lookup(key: Key, hash: nat) returns (r: Option<Handle>)
      requires Valid() && (key in table ==> table[key].hash == hash)
      ensures r == if key in table then Some(table[key]) else None
    {
      var bucket, at := FindPointer(key, hash);
      r := if at < |list[bucket]| then Some(list[bucket][at]) else None;
    }

    /** A new entry takes the place of one with its key, or goes to the end of its chain. */
    method Insert(h: Handle) returns (old': Option<Handle>)
      requires Valid() && (h.key in table ==> table[h.key].hash == h.hash)
      modifies this
      ensures Valid() && table == old(table)[h.key := h]
      ensures old' == if h.key in old(table) then Some(old(table[h.key])) else None
    {
      var bucket, at := FindPointer(h.key, h.hash);
      hide Chains, Slot;
      InsertKeepsChains(list, table, h, at);
      if at < |list[bucket]| {
        old' := Some(list[bucket][at]);
        list := list[bucket := list[bucket][at := h]];
        table := table[h.key := h];
      } else {
        old' := None;
        list := list[bucket := list[bucket] + [h]];
        table := table[h.key := h];
        elems := elems + 1;
        if elems > |list| {
          Resize();
        }
      }
    }

    method Remove(key: Key, hash: nat) returns (r: Option<Handle>)
      requires Valid() && (key in table ==> table[key].hash == hash)
      modifies this
      ensures Valid() && table == old(table) - {key}
      ensures r == if key in old(table) then Some(old(table[key])) else None
    {
      hide Chains, Slot;
      var bucket, at := FindPointer(key, hash);
      if at < |list[bucket]| {
        RemoveKeepsChains(list, table, key, hash, at);
        r := Some(list[bucket][at]);
        list := list[bucket := list[bucket][..at] + list[bucket][at + 1..]];
        table := table - {key};
        elems := elems - 1;
      } else {
        r := None;
        assert table - {key} == table;
      }
    }

    /** The first of the lengths that has room for the entries. */
    method FirstLength(elems: nat) returns (newLength: nat)
      ensures IsLength(newLength) && elems <= newLength && (newLength == 4 || newLength < 2 * elems)
    {
      newLength := 4;
      while newLength < elems
        invariant IsLength(newLength) && (newLength == 4 || newLength < 2 * elems)
        decreases 2 * elems - newLength
      {
        LengthDoubles(newLength);
        newLength := newLength * 2;
      }
    }

    /** Rehashing into an array just large enough keeps the table. */
    method Resize()
      requires Chains(list, table) && elems == |table|
      modifies this`list
      ensures Valid() && (|list| == 4 || |list| < 2 * elems)
    {
      hide Slot, Chains, IsLength;
      var newLength := FirstLength(elems);
      var newList: seq<seq<Handle>> := seq(newLength, _ => []);
      ghost var moved: map<Key, Handle> := map[];
      NothingMoved(list, table, newList);
      for i := 0 to |list|
        invariant list == old(list) && |newList| == newLength && Chains(newList, moved) && 0 < |list|
        invariant MovedUpTo(list, table, moved, i, 0)
      {
        for j := 0 to |list[i]|
          invariant list == old(list) && |newList| == newLength && Chains(newList, moved)
          invariant MovedUpTo(list, table, moved, i, j)
        {
          var h := list[i][j];
          MoveOne(list, table, moved, i, j);
          PushKeepsChains(newList, moved, h);
          newList := newList[Slot(h.hash, newLength) := [h] + newList[Slot(h.hash, newLength)]];
          moved := moved[h.key := h];
        }
        WholeChain(list, table, moved, i);
      }
      AllMoved(list, table, moved);
      list := newList;
    }
  }

  /** The entries of the first `i` chains and of the first `j` places of the next one. */
  ghost predicate MovedUpTo(list: seq<seq<Handle>>, table: map<Key, Handle>, moved: map<Key, Handle>, i: nat, j: nat)
    requires 0 < |list| && i <= |list| && (i < |list| ==> j <= |list[i]|)
  {
    && (forall k :: k in moved ==> k in table && moved[k] == table[k])
    && forall k :: k in table ==>
      (k in moved <==> Slot(table[k].hash, |list|) < i || (i < |list| && table[k] in list[i][..j]))
  }

  lemma NothingMoved(list: seq<seq<Handle>>, table: map<Key, Handle>, newList: seq<seq<Handle>>)
    requires Chains(list, table) && 0 < |newList| && forall i :: 0 <= i < |newList| ==> newList[i] == []
    ensures 0 < |list| && Chains(newList, map[]) && MovedUpTo(list, table, map[], 0, 0)
  {
  }

  lemma MoveOne(list: seq<seq<Handle>>, table: map<Key, Handle>, moved: map<Key, Handle>, i: nat, j: nat)
    requires Chains(list, table) && i < |list| && j < |list[i]| && MovedUpTo(list, table, moved, i, j)
    ensures var h := list[i][j]; h.key !in moved && MovedUpTo(list, table, moved[h.key := h], i, j + 1)
  {
    hide Slot;
    var h := list[i][j];
    assert ChainOk(list[i], i, |list|, table) && h in list[i];
    assert list[i][..j + 1] == list[i][..j] + [h];
  }

  lemma WholeChain(list: seq<seq<Handle>>, table: map<Key, Handle>, moved: map<Key, Handle>, i: nat)
    requires Chains(list, table) && i < |list| && MovedUpTo(list, table, moved, i, |list[i]|)
    ensures MovedUpTo(list, table, moved, i + 1, 0)
  {
    hide Slot;
    assert ChainOk(list[i], i, |list|, table);
    assert list[i][..|list[i]|] == list[i];
  }

  lemma AllMoved(list: seq<seq<Handle>>, table: map<Key, Handle>, moved: map<Key, Handle>)
    requires 0 < |list| && MovedUpTo(list, table, moved, |list|, 0)
    ensures moved == table
  {
  }

  lemma InsertKeepsChains(list: seq<seq<Handle>>, table: map<Key, Handle>, h: Handle, at: nat)
    requires Chains(list, table) && (h.key in table ==> table[h.key].hash == h.hash)
    requires at <= |list[Slot(h.hash, |list|)]|
    requires var chain := list[Slot(h.hash, |list|)];
             if at < |chain| then h.key in table && chain[at] == table[h.key] else h.key !in table
    ensures var bucket, chain := Slot(h.hash, |list|), list[Slot(h.hash, |list|)];
            Chains(list[bucket := if at < |chain| then chain[at := h] else chain + [h]], table[h.key := h])
  {
    hide Slot, ChainOk;
    var bucket := Slot(h.hash, |list|);
    var chain := list[bucket];
    var chain' := if at < |chain| then chain[at := h] else chain + [h];
    var list', table' := list[bucket := chain'], table[h.key := h];
    forall i | 0 <= i < |list'|
      ensures ChainOk(list'[i], i, |list'|, table')
    {
      assert ChainOk(list[i], i, |list|, table);
      if i == bucket {
        ChainTakes(chain, bucket, |list|, table, h, at);
      } else {
        OtherChainStays(list[i], i, |list|, table, table', h.key, h.hash);
      }
    }
  }

  lemma ChainTakes(chain: seq<Handle>, i: nat, length: nat, table: map<Key, Handle>, h: Handle, at: nat)
    requires 0 < length && Keyed(table) && ChainOk(chain, i, length, table) && Slot(h.hash, length) == i && at <= |chain|
    requires if at < |chain| then h.key in table && chain[at] == table[h.key] else h.key !in table
    ensures ChainOk(if at < |chain| then chain[at := h] else chain + [h], i, length, table[h.key := h])
  {
    hide Slot;
    var chain', table' := if at < |chain| then chain[at := h] else chain + [h], table[h.key := h];
    assert chain'[at] == h;
    forall a | 0 <= a < |chain| && a != at
      ensures chain[a].key != h.key && chain'[a] == chain[a] && chain[a] in chain
    {
      assert chain[a] in chain;
    }
    forall g
      ensures g in chain' <==> g.key in table' && table'[g.key] == g && Slot(g.hash, length) == i
    {
      if g != h && g in chain {
        var a :| 0 <= a < |chain| && chain[a] == g;
      }
    }
  }

  /** A chain of another bucket does not notice a change to one key. */
  lemma OtherChainStays(chain: seq<Handle>, i: nat, length: nat, table: map<Key, Handle>, table': map<Key, Handle>, key: Key, hash: nat)
    requires 0 < length && ChainOk(chain, i, length, table) && Slot(hash, length) != i
    requires forall k :: k != key ==> (k in table <==> k in table') && (k in table ==> table[k] == table'[k])
    requires (key in table ==> table[key].hash == hash) && (key in table' ==> table'[key].hash == hash)
    ensures ChainOk(chain, i, length, table')
  {
    hide Slot;
    forall g
      ensures g in chain <==> g.key in table' && table'[g.key] == g && Slot(g.hash, length) == i
    {
    }
  }

  lemma RemoveKeepsChains(list: seq<seq<Handle>>, table: map<Key, Handle>, key: Key, hash: nat, at: nat)
    requires Chains(list, table) && key in table && table[key].hash == hash
    requires at < |list[Slot(hash, |list|)]| && list[Slot(hash, |list|)][at] == table[key]
    ensures var bucket, chain := Slot(hash, |list|), list[Slot(hash, |list|)];
            Chains(list[bucket := chain[..at] + chain[at + 1..]], table - {key})
    ensures |table - {key}| == |table| - 1
  {
    hide Slot, ChainOk;
    var bucket := Slot(hash, |list|);
    var chain := list[bucket];
    var chain' := chain[..at] + chain[at + 1..];
    var list', table' := list[bucket := chain'], table - {key};
    assert table.Keys - {key} == table'.Keys;
    forall i | 0 <= i < |list'|
      ensures ChainOk(list'[i], i, |list'|, table')
    {
      assert ChainOk(list[i], i, |list|, table);
      if i == bucket {
        ChainLoses(chain, bucket, |list|, table, key, at);
      } else {
        OtherChainStays(list[i], i, |list|, table, table', key, hash);
      }
    }
  }

  lemma DropKeepsDistinct(chain: seq<Handle>, at: nat)
    requires DistinctKeys(chain) && at < |chain|
    ensures DistinctKeys(chain[..at] + chain[at + 1..])
    ensures forall g :: g in chain[..at] + chain[at + 1..] <==> g in chain && g.key != chain[at].key
  {
    var chain' := chain[..at] + chain[at + 1..];
    forall a | 0 <= a < |chain'|
      ensures chain'[a] == chain[if a < at then a else a + 1]
    {
    }
    forall g | g in chain && g.key != chain[at].key
      ensures g in chain'
    {
      var b :| 0 <= b < |chain| && chain[b] == g;
      assert chain'[if b < at then b else b - 1] == g;
    }
    forall g | g in chain'
      ensures g in chain && g.key != chain[at].key
    {
      var a :| 0 <= a < |chain'| && chain'[a] == g;
      assert chain[if a < at then a else a + 1] == g;
    }
  }

  lemma ChainLoses(chain: seq<Handle>, i: nat, length: nat, table: map<Key, Handle>, key: Key, at: nat)
    requires 0 < length && Keyed(table) && ChainOk(chain, i, length, table) && at < |chain| && key in table && chain[at] == table[key]
    ensures ChainOk(chain[..at] + chain[at + 1..], i, length, table - {key})
  {
    DropKeepsDistinct(chain, at);
    hide Slot, DistinctKeys;
  }

  lemma PushKeepsChains(list: seq<seq<Handle>>, table: map<Key, Handle>, h: Handle)
    requires Chains(list, table) && h.key !in table
    ensures Chains(list[Slot(h.hash, |list|) := [h] + list[Slot(h.hash, |list|)]], table[h.key := h])
  {
    hide Slot, ChainOk;
    var bucket := Slot(h.hash, |list|);
    var list', table' := list[bucket := [h] + list[bucket]], table[h.key := h];
    forall i | 0 <= i < |list'|
      ensures ChainOk(list'[i], i, |list'|, table')
    {
      assert ChainOk(list[i], i, |list|, table);
      if i == bucket {
        ChainPushes(list[bucket], bucket, |list|, table, h);
      } else {
        OtherChainStays(list[i], i, |list|, table, table', h.key, h.hash);
      }
    }
  }

  lemma ChainPushes(chain: seq<Handle>, i: nat, length: nat, table: map<Key, Handle>, h: Handle)
    requires 0 < length && ChainOk(chain, i, length, table) && Slot(h.hash, length) == i && h.key !in table
    ensures ChainOk([h] + chain, i, length, table[h.key := h])
  {
    hide Slot;
    forall a | 0 <= a < |chain|
      ensures chain[a].key != h.key
    {
      assert chain[a] in chain;
    }
    assert ([h] + chain)[0] == h;
    forall g
      ensures g in [h] + chain <==> g == h || g in chain
    {
    }
  }
}
