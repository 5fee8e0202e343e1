/** What the cache's lists, counts and charges amount to, operation by operation (util/cache: LRUCache). */
module CacheLedger {
  import opened CacheLists

  /**
   * Everything the cache keeps besides its hash table. `refs` is what the entries count;
   * `clients` is how many handles the callers really hold; `deleted` lists the deleter's calls.
   */
  datatype Ledger = Ledger(handles: map<nat, Handle>, refs: map<nat, nat>, clients: map<nat, nat>, inCache: set<nat>,
                           lru: seq<nat>, inUse: seq<nat>, usage: nat, deleted: seq<nat>, nextId: nat)

  /** One reference per client handle and one for the cache's own membership. */
  ghost predicate Counted(handles: map<nat, Handle>, refs: map<nat, nat>, clients: map<nat, nat>, inCache: set<nat>) {
    && handles.Keys == refs.Keys == clients.Keys && inCache <= handles.Keys
    && forall id :: id in handles ==> 0 < refs[id] == clients[id] + if id in inCache then 1 else 0
  }

  /** A cached entry is on exactly one list: the lru list if no client holds it, the in-use list otherwise. */
  ghost predicate Listed(lru: seq<nat>, inUse: seq<nat>, inCache: set<nat>, clients: map<nat, nat>) {
    forall id ::
      && (id in lru <==> id in inCache && id in clients && clients[id] == 0)
      && (id in inUse <==> id in inCache && id in clients && clients[id] > 0)
  }

  /** Every entry ever allocated is alive or was deleted, never both, never twice. */
  ghost predicate Identified(handles: map<nat, Handle>, deleted: seq<nat>, nextId: nat, hashOf: Key -> nat) {
    && (forall id :: id in handles ==> handles[id].id == id && id < nextId && handles[id].hash == hashOf(handles[id].key) && id !in deleted)
    && NoRepeats(deleted) && (forall id :: id in deleted ==> id < nextId)
    && forall id :: 0 <= id < nextId ==> id in handles || id in deleted
  }

  ghost function Charges(ids: seq<nat>, handles: map<nat, Handle>): nat {
    if ids == [] then 0
    else Charges(ids[1..], handles) + if ids[0] in handles then handles[ids[0]].charge else 0
  }

  /** The whole invariant. */
  ghost predicate Sound(l: Ledger, hashOf: Key -> nat, capacity: nat) {
    && NoRepeats(l.lru) && NoRepeats(l.inUse)
    && Counted(l.handles, l.refs, l.clients, l.inCache) && Listed(l.lru, l.inUse, l.inCache, l.clients)
    && Identified(l.handles, l.deleted, l.nextId, hashOf)
    && l.usage == Charges(l.lru, l.handles) + Charges(l.inUse, l.handles)
    && (capacity == 0 ==> l.inCache == {})
  }

  /** Reference counts and lists say the same about an entry. */
  lemma Standing(handles: map<nat, Handle>, refs: map<nat, nat>, clients: map<nat, nat>, inCache: set<nat>,
                 lru: seq<nat>, inUse: seq<nat>, id: nat)
    requires Counted(handles, refs, clients, inCache) && Listed(lru, inUse, inCache, clients) && id in handles
    ensures id in refs && id in clients && 0 < refs[id] == clients[id] + if id in inCache then 1 else 0
    ensures id in lru <==> id in inCache && refs[id] == 1
    ensures id in inUse <==> id in inCache && refs[id] >= 2
  {
  }

  lemma RefCounted(handles: map<nat, Handle>, refs: map<nat, nat>, clients: map<nat, nat>, inCache: set<nat>, id: nat)
    requires Counted(handles, refs, clients, inCache) && id in handles
    ensures id in refs && id in clients && Counted(handles, refs[id := refs[id] + 1], clients[id := clients[id] + 1], inCache)
  {
  }

  lemma RefListed(lru: seq<nat>, inUse: seq<nat>, inCache: set<nat>, clients: map<nat, nat>, id: nat)
    requires Listed(lru, inUse, inCache, clients) && NoRepeats(lru) && id in clients
    ensures Listed(Drop(lru, id), if id in lru then inUse + [id] else inUse, inCache, clients[id := clients[id] + 1])
  {
    DropHolds(lru, id);
    hide Drop, NoRepeats;
  }

  lemma ReleaseCounted(handles: map<nat, Handle>, refs: map<nat, nat>, clients: map<nat, nat>, inCache: set<nat>, id: nat)
    requires Counted(handles, refs, clients, inCache) && id in clients && clients[id] > 0
    ensures id in refs && id in handles
    ensures if refs[id] == 1 then id !in inCache && clients[id] == 1 && Counted(handles - {id}, refs - {id}, clients - {id}, inCache)
            else Counted(handles, refs[id := refs[id] - 1], clients[id := clients[id] - 1], inCache)
  {
  }

  lemma ReleaseListed(lru: seq<nat>, inUse: seq<nat>, inCache: set<nat>, clients: map<nat, nat>, id: nat)
    requires Listed(lru, inUse, inCache, clients) && NoRepeats(inUse) && id in clients && clients[id] > 0
    ensures if id in inCache && clients[id] == 1 then
              Listed(lru + [id], Drop(inUse, id), inCache, clients[id := clients[id] - 1])
            else Listed(lru, inUse, inCache, clients[id := clients[id] - 1])
    ensures id !in inCache ==> Listed(lru, inUse, inCache, clients - {id})
  {
    DropHolds(inUse, id);
    hide Drop, NoRepeats;
  }

  lemma EraseCounted(handles: map<nat, Handle>, refs: map<nat, nat>, clients: map<nat, nat>, inCache: set<nat>, id: nat)
    requires Counted(handles, refs, clients, inCache) && id in inCache
    ensures id in refs && id in handles && id in clients
    ensures if refs[id] == 1 then clients[id] == 0 && Counted(handles - {id}, refs - {id}, clients - {id}, inCache - {id})
            else clients[id] > 0 && Counted(handles, refs[id := refs[id] - 1], clients, inCache - {id})
  {
  }

  lemma EraseListed(lru: seq<nat>, inUse: seq<nat>, inCache: set<nat>, clients: map<nat, nat>, id: nat)
    requires Listed(lru, inUse, inCache, clients) && NoRepeats(lru) && NoRepeats(inUse) && id in inCache
    ensures Listed(Drop(lru, id), Drop(inUse, id), inCache - {id}, clients)
    ensures Listed(Drop(lru, id), Drop(inUse, id), inCache - {id}, clients - {id})
  {
    DropHolds(lru, id);
    DropHolds(inUse, id);
    hide Drop, NoRepeats;
  }

  lemma {:induction false} DropCharges(ids: seq<nat>, id: nat, handles: map<nat, Handle>)
    requires id in handles && id in ids
    ensures Charges(ids, handles) == Charges(Drop(ids, id), handles) + handles[id].charge
  {
    if ids[0] != id {
      DropCharges(ids[1..], id, handles);
      assert Drop(ids, id)[1..] == Drop(ids[1..], id);
    }
  }

  lemma {:induction false} AppendCharges(ids: seq<nat>, id: nat, handles: map<nat, Handle>)
    ensures Charges(ids + [id], handles) == Charges(ids, handles) + if id in handles then handles[id].charge else 0
  {
    if ids == [] {
      assert ([] + [id])[1..] == [];
    } else {
      AppendCharges(ids[1..], id, handles);
      assert (ids + [id])[1..] == ids[1..] + [id];
    }
  }

  lemma {:induction false} ChargesDependOn(ids: seq<nat>, a: map<nat, Handle>, b: map<nat, Handle>)
    requires forall id :: id in ids ==> (id in a <==> id in b) && (id in a ==> a[id] == b[id])
    ensures Charges(ids, a) == Charges(ids, b)
  {
    if ids != [] {
      assert ids[0] in ids;
      ChargesDependOn(ids[1..], a, b);
    }
  }

  lemma MoveKeepsCharges(from: seq<nat>, to: seq<nat>, id: nat, handles: map<nat, Handle>)
    requires id in from && id in handles
    ensures Charges(Drop(from, id), handles) + Charges(to + [id], handles) == Charges(from, handles) + Charges(to, handles)
  {
    DropCharges(from, id, handles);
    AppendCharges(to, id, handles);
  }

  lemma StayCharged(lru: seq<nat>, inUse: seq<nat>, id: nat, handles: map<nat, Handle>)
    requires id !in lru && id !in inUse
    ensures Charges(lru, handles) == Charges(lru, handles - {id}) && Charges(inUse, handles) == Charges(inUse, handles - {id})
  {
    ChargesDependOn(lru, handles, handles - {id});
    ChargesDependOn(inUse, handles, handles - {id});
  }

  lemma EraseKeepsCharges(lru: seq<nat>, inUse: seq<nat>, id: nat, handles: map<nat, Handle>)
    requires NoRepeats(lru) && NoRepeats(inUse) && id in handles && (id in lru || id in inUse) && (id in lru ==> id !in inUse)
    ensures Charges(lru, handles) + Charges(inUse, handles) ==
            Charges(Drop(lru, id), handles) + Charges(Drop(inUse, id), handles) + handles[id].charge
    ensures Charges(Drop(lru, id), handles - {id}) == Charges(Drop(lru, id), handles)
    ensures Charges(Drop(inUse, id), handles - {id}) == Charges(Drop(inUse, id), handles)
  {
    DropHolds(lru, id);
    DropHolds(inUse, id);
    var p := DropIs(lru, id);
    var q := DropIs(inUse, id);
    if id in lru {
      DropCharges(lru, id, handles);
    } else {
      DropCharges(inUse, id, handles);
    }
    StayCharged(Drop(lru, id), Drop(inUse, id), id, handles);
  }

  lemma FreeKeepsIdentified(handles: map<nat, Handle>, deleted: seq<nat>, nextId: nat, hashOf: Key -> nat, id: nat)
    requires Identified(handles, deleted, nextId, hashOf) && id in handles
    ensures Identified(handles - {id}, deleted + [id], nextId, hashOf)
  {
    assert (deleted + [id])[|deleted|] == id;
  }

  // ---------- the operations ----------

  /** Ref. */
  function Referenced(l: Ledger, id: nat): Ledger
    requires id in l.refs && id in l.clients
  {
    l.(refs := l.refs[id := l.refs[id] + 1], clients := l.clients[id := l.clients[id] + 1],
       lru := Drop(l.lru, id), inUse := if id in l.lru then l.inUse + [id] else l.inUse)
  }

  /** Release: the last reference deletes the entry, the cache's own one left makes it the newest to evict. */
  function Released(l: Ledger, id: nat): Ledger
    requires id in l.refs && id in l.clients && 0 < l.refs[id] && 0 < l.clients[id]
  {
    if l.refs[id] == 1 then
      l.(handles := l.handles - {id}, refs := l.refs - {id}, clients := l.clients - {id}, deleted := l.deleted + [id])
    else
      var m := l.(refs := l.refs[id := l.refs[id] - 1], clients := l.clients[id := l.clients[id] - 1]);
      if id in l.inCache && l.refs[id] == 2 then m.(lru := l.lru + [id], inUse := Drop(l.inUse, id)) else m
  }

  /** FinishErase: out of the cache, and deleted unless a client still holds it. */
  function Erased(l: Ledger, id: nat): Ledger
    requires id in l.handles && id in l.refs && 0 < l.refs[id] && l.handles[id].charge <= l.usage
  {
    var m := l.(inCache := l.inCache - {id}, usage := l.usage - l.handles[id].charge,
                lru := Drop(l.lru, id), inUse := Drop(l.inUse, id));
    if l.refs[id] == 1 then
      m.(handles := l.handles - {id}, refs := l.refs - {id}, clients := l.clients - {id}, deleted := l.deleted + [id])
    else m.(refs := l.refs[id := l.refs[id] - 1])
  }

  /** A fresh entry with one client handle, in the cache or not. */
  function Allocated(l: Ledger, h: Handle, cached: bool): Ledger {
    var m := l.(handles := l.handles[h.id := h], clients := l.clients[h.id := 1], nextId := l.nextId + 1);
    if cached then
      m.(refs := l.refs[h.id := 2], inCache := l.inCache + {h.id}, inUse := l.inUse + [h.id], usage := l.usage + h.charge)
    else m.(refs := l.refs[h.id := 1])
  }

  lemma ReferencedIsSound(l: Ledger, hashOf: Key -> nat, capacity: nat, id: nat)
    requires Sound(l, hashOf, capacity) && id in l.handles
    ensures id in l.refs && id in l.clients && Sound(Referenced(l, id), hashOf, capacity)
    ensures l.refs[id] == 1 && id in l.inCache <==> id in l.lru
    ensures id in l.lru ==> id !in l.inUse
  {
    Standing(l.handles, l.refs, l.clients, l.inCache, l.lru, l.inUse, id);
    RefCounted(l.handles, l.refs, l.clients, l.inCache, id);
    RefListed(l.lru, l.inUse, l.inCache, l.clients, id);
    DropHolds(l.lru, id);
    if id in l.lru {
      MoveKeepsCharges(l.lru, l.inUse, id, l.handles);
      AppendNoRepeats(l.inUse, id);
    } else {
      DropNothing(l.lru, id);
    }
    hide Counted, Listed, Identified, Charges, Drop, NoRepeats;
  }

  lemma AppendNoRepeats(ids: seq<nat>, id: nat)
    requires NoRepeats(ids) && id !in ids
    ensures NoRepeats(ids + [id])
  {
  }

  lemma ReleasedIsSound(l: Ledger, hashOf: Key -> nat, capacity: nat, id: nat)
    requires Sound(l, hashOf, capacity) && id in l.clients && 0 < l.clients[id]
    ensures id in l.handles && id in l.refs && 0 < l.refs[id] && Sound(Released(l, id), hashOf, capacity)
    ensures id in l.inCache && l.refs[id] == 2 ==> id in l.inUse && id !in l.lru
  {
    ReleaseCounted(l.handles, l.refs, l.clients, l.inCache, id);
    Standing(l.handles, l.refs, l.clients, l.inCache, l.lru, l.inUse, id);
    ReleaseListed(l.lru, l.inUse, l.inCache, l.clients, id);
    DropHolds(l.inUse, id);
    FreeKeepsIdentified(l.handles, l.deleted, l.nextId, hashOf, id);
    if id in l.inCache && l.refs[id] == 2 {
      MoveKeepsCharges(l.inUse, l.lru, id, l.handles);
      AppendNoRepeats(l.lru, id);
    } else if l.refs[id] == 1 {
      StayCharged(l.lru, l.inUse, id, l.handles);
    }
    hide Counted, Listed, Identified, Charges, Drop, NoRepeats;
  }

  lemma ErasedIsSound(l: Ledger, hashOf: Key -> nat, capacity: nat, id: nat)
    requires Sound(l, hashOf, capacity) && id in l.inCache
    ensures id in l.handles && id in l.refs && 0 < l.refs[id] && l.handles[id].charge <= l.usage
    ensures Sound(Erased(l, id), hashOf, capacity)
    ensures (id in l.lru || id in l.inUse) && (id in l.lru ==> id !in l.inUse) && id in l.clients
  {
    EraseCounted(l.handles, l.refs, l.clients, l.inCache, id);
    Standing(l.handles, l.refs, l.clients, l.inCache, l.lru, l.inUse, id);
    EraseListed(l.lru, l.inUse, l.inCache, l.clients, id);
    FreeKeepsIdentified(l.handles, l.deleted, l.nextId, hashOf, id);
    EraseKeepsCharges(l.lru, l.inUse, id, l.handles);
    DropHolds(l.lru, id);
    DropHolds(l.inUse, id);
    hide Counted, Listed, Identified, Charges, Drop, NoRepeats;
  }

  lemma AllocatedCounted(handles: map<nat, Handle>, refs: map<nat, nat>, clients: map<nat, nat>, inCache: set<nat>, h: Handle, cached: bool)
    requires Counted(handles, refs, clients, inCache) && h.id !in handles
    ensures h.id !in clients && h.id !in inCache
    ensures Counted(handles[h.id := h], refs[h.id := if cached then 2 else 1], clients[h.id := 1],
                    if cached then inCache + {h.id} else inCache)
  {
  }

  lemma AllocatedListed(lru: seq<nat>, inUse: seq<nat>, inCache: set<nat>, clients: map<nat, nat>, id: nat, cached: bool)
    requires Listed(lru, inUse, inCache, clients) && id !in clients && id !in inCache
    ensures id !in lru && id !in inUse
    ensures Listed(lru, if cached then inUse + [id] else inUse, if cached then inCache + {id} else inCache, clients[id := 1])
  {
  }

  lemma AllocatedIdentified(handles: map<nat, Handle>, deleted: seq<nat>, nextId: nat, hashOf: Key -> nat, h: Handle)
    requires Identified(handles, deleted, nextId, hashOf) && h.id == nextId && h.hash == hashOf(h.key)
    ensures h.id !in handles && Identified(handles[h.id := h], deleted, nextId + 1, hashOf)
  {
  }

  lemma AllocatedIsSound(l: Ledger, hashOf: Key -> nat, capacity: nat, h: Handle)
    requires Sound(l, hashOf, capacity) && h.id == l.nextId && h.hash == hashOf(h.key)
    ensures Sound(Allocated(l, h, 0 < capacity), hashOf, capacity)
    ensures h.id !in l.lru && h.id !in l.inUse && h.id !in l.handles && h.id !in l.inCache
  {
    hide Counted, Listed, Identified, Charges, NoRepeats;
    var m := Allocated(l, h, 0 < capacity);
    AllocatedIdentified(l.handles, l.deleted, l.nextId, hashOf, h);
    AllocatedCounted(l.handles, l.refs, l.clients, l.inCache, h, 0 < capacity);
    AllocatedListed(l.lru, l.inUse, l.inCache, l.clients, h.id, 0 < capacity);
    ChargesDependOn(l.lru, l.handles, m.handles);
    ChargesDependOn(l.inUse, l.handles, m.handles);
    AppendCharges(l.inUse, h.id, m.handles);
    AppendNoRepeats(l.inUse, h.id);
  }

  // ---------- eviction ----------

  /** The eviction loop: oldest entry first, while the cache is over capacity and has entries nobody holds. */
  ghost function Evicted(l: Ledger, hashOf: Key -> nat, capacity: nat): (r: Ledger)
    requires Sound(l, hashOf, capacity)
    ensures Sound(r, hashOf, capacity)
    decreases |l.lru|
  {
    if l.usage > capacity && l.lru != [] then
      EvictOne(l, hashOf, capacity);
      Evicted(Erased(l, l.lru[0]), hashOf, capacity)
    else l
  }

  /** The head of the lru list is cached and unreferenced, so erasing it deletes it. */
  lemma EvictOne(l: Ledger, hashOf: Key -> nat, capacity: nat)
    requires Sound(l, hashOf, capacity) && l.lru != []
    ensures l.lru[0] in l.inCache && l.lru[0] in l.handles && l.lru[0] in l.refs && l.refs[l.lru[0]] == 1
    ensures l.handles[l.lru[0]].charge <= l.usage
    ensures var r := Erased(l, l.lru[0]);
            && Sound(r, hashOf, capacity) && r.lru == l.lru[1..] && r.deleted == l.deleted + [l.lru[0]]
            && r.usage == l.usage - l.handles[l.lru[0]].charge && r.clients.Keys == l.clients.Keys - {l.lru[0]}
            && r.inCache == l.inCache - {l.lru[0]} && r.handles == l.handles - {l.lru[0]}
  {
    assert l.lru[0] in l.lru;
    Standing(l.handles, l.refs, l.clients, l.inCache, l.lru, l.inUse, l.lru[0]);
    ErasedIsSound(l, hashOf, capacity, l.lru[0]);
  }

  /**
   * Eviction deletes the least recently released entries, in that order, and no more of them than it
   * must; afterwards the cache is within capacity or every entry left is in use.
   */
  lemma {:induction false} EvictedIs(l: Ledger, hashOf: Key -> nat, capacity: nat) returns (n: nat)
    requires Sound(l, hashOf, capacity)
    ensures var r := Evicted(l, hashOf, capacity);
            && n <= |l.lru| && r.lru == l.lru[n..] && r.deleted == l.deleted + l.lru[..n]
            && (r.usage <= capacity || r.lru == []) && (n == 0 ==> r == l)
            && r.inCache == l.inCache - (set id | id in l.lru[..n])
            && (0 < n ==> l.lru[n - 1] in l.handles && r.usage + l.handles[l.lru[n - 1]].charge > capacity)
            && forall id :: id in l.inUse ==> id in r.inCache
    decreases |l.lru|
  {
    hide Sound, Erased;
    if l.usage > capacity && l.lru != [] {
      EvictOne(l, hashOf, capacity);
      var m := Erased(l, l.lru[0]);
      var k := EvictedIs(m, hashOf, capacity);
      n := k + 1;
      PrefixGrows(l.lru, m.lru, l.deleted, k);
      InUseStays(l, hashOf, capacity);
    } else {
      n := 0;
      InUseIsCached(l, hashOf, capacity);
      assert l.deleted + l.lru[..0] == l.deleted;
    }
  }

  lemma InUseIsCached(l: Ledger, hashOf: Key -> nat, capacity: nat)
    requires Sound(l, hashOf, capacity)
    ensures forall id :: id in l.inUse ==> id in l.inCache
  {
  }

  lemma PrefixGrows(lru: seq<nat>, rest: seq<nat>, deleted: seq<nat>, k: nat)
    requires lru != [] && rest == lru[1..] && k <= |rest|
    ensures lru[..k + 1] == [lru[0]] + rest[..k] && rest[k..] == lru[k + 1..]
    ensures deleted + [lru[0]] + rest[..k] == deleted + lru[..k + 1]
    ensures forall id :: id in lru[..k + 1] <==> id == lru[0] || id in rest[..k]
    ensures 0 < k ==> lru[k] == rest[k - 1]
  {
    assert lru[..k + 1] == [lru[0]] + rest[..k];
  }

  lemma InUseStays(l: Ledger, hashOf: Key -> nat, capacity: nat)
    requires Sound(l, hashOf, capacity) && l.lru != []
    ensures l.lru[0] in l.handles && l.lru[0] in l.refs && 0 < l.refs[l.lru[0]] && l.handles[l.lru[0]].charge <= l.usage
    ensures forall id :: id in l.inUse ==> id in Erased(l, l.lru[0]).inUse
  {
    EvictOne(l, hashOf, capacity);
    assert l.lru[0] in l.lru;
    DropHolds(l.inUse, l.lru[0]);
  }
}
