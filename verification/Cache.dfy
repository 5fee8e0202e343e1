/** The least-recently-used cache in place: two rings, a hash table and reference counts (util/cache: LRUCache). */
module Cache {
  import opened Common
  import opened CacheLists
  import opened CacheLedger

  /** The hash table holds exactly the cached entries, each under its key. */
  ghost predicate Tabled(table: map<Key, Handle>, handles: map<nat, Handle>, inCache: set<nat>) {
    && (forall id :: id in inCache ==> id in handles && handles[id].key in table && table[handles[id].key] == handles[id])
    && forall k :: k in table ==>
      table[k].key == k && table[k].id in inCache && table[k].id in handles && handles[table[k].id] == table[k]
  }

  class LRUCache {
    const capacity: nat
    const hashOf: Key -> nat
    const table: HandleTable
    var usage: nat
    var next: map<Ref, Ref>
    var prev: map<Ref, Ref>
    var handles: map<nat, Handle>
    var refs: map<nat, nat>
    var inCache: set<nat>
    var deleted: seq<nat>
    var nextId: nat
    ghost var lru: seq<nat>
    ghost var inUse: seq<nat>
    ghost var clients: map<nat, nat>

    constructor (capacity: nat, hashOf: Key -> nat)
      ensures Valid() && this.capacity == capacity && this.hashOf == hashOf && fresh(table)
      ensures State() == Ledger(map[], map[], map[], {}, [], [], 0, [], 0)
    {
      this.capacity, this.hashOf := capacity, hashOf;
      table := new HandleTable();
      usage, next, prev := 0, map[Lru := Lru, InUse := InUse], map[Lru := Lru, InUse := InUse];
      handles, refs, inCache, deleted, nextId := map[], map[], {}, [], 0;
      lru, inUse, clients := [], [], map[];
    }

    ghost function State(): Ledger
      reads this
    {
      Ledger(handles, refs, clients, inCache, lru, inUse, usage, deleted, nextId)
    }

    ghost predicate Rings()
      reads this`next, this`prev, this`lru, this`inUse
    {
      IsRing(next, prev, Lru, lru) && IsRing(next, prev, InUse, inUse) && forall id :: id in lru ==> id !in inUse
    }

    ghost predicate Valid()
      reads this, table
    {
      Rings() && Sound(State(), hashOf, capacity) && table.Valid() && Tabled(table.table, handles, inCache)
    }

    method LruRemove(id: nat)
      requires Rings() && (id in lru || id in inUse)
      modifies this`next, this`prev, this`lru, this`inUse
      ensures Rings() && lru == Drop(old(lru), id) && inUse == Drop(old(inUse), id)
    {
      hide IsRing;
      var e := Item(id);
      RemoveFromRings(next, prev, lru, inUse, id);
      var n, p := next[e], prev[e];
      prev := prev[n := p];
      next := next[p := n];
      lru, inUse := Drop(lru, id), Drop(inUse, id);
    }

    method LruAppend(head: Ref, id: nat)
      requires Rings() && !head.Item? && id !in lru && id !in inUse
      modifies this`next, this`prev, this`lru, this`inUse
      ensures Rings()
      ensures lru == if head == Lru then old(lru) + [id] else old(lru)
      ensures inUse == if head == Lru then old(inUse) else old(inUse) + [id]
    {
      hide IsRing;
      var e := Item(id);
      AppendToRings(next, prev, lru, inUse, head, id);
      next := next[e := head];
      prev := prev[e := prev[head]];
      next := next[prev[e] := e];
      prev := prev[next[e] := e];
      if head == Lru {
        lru := lru + [id];
      } else {
        inUse := inUse + [id];
      }
    }

    /** LRU_Remove and LRU_Append together, as Ref and Unref use them. */
    method MoveTo(head: Ref, id: nat)
      requires Rings() && !head.Item? && (if head == Lru then id in inUse && id !in lru else id in lru && id !in inUse)
      modifies this`next, this`prev, this`lru, this`inUse
      ensures Rings()
      ensures lru == if head == Lru then old(lru) + [id] else Drop(old(lru), id)
      ensures inUse == if head == Lru then Drop(old(inUse), id) else old(inUse) + [id]
    {
      hide IsRing, Rings;
      RingsHold();
      DropHolds(lru, id) by { RingIsList(next, prev, Lru, lru); }
      DropHolds(inUse, id) by { RingIsList(next, prev, InUse, inUse); }
      if head == Lru {
        DropNothing(lru, id);
      } else {
        DropNothing(inUse, id);
      }
      LruRemove(id);
      LruAppend(head, id);
    }

    method Ref(id: nat)
      requires Rings() && Sound(State(), hashOf, capacity) && id in handles
      modifies this`next, this`prev, this`refs, this`lru, this`inUse, this`clients
      ensures Rings() && Sound(State(), hashOf, capacity)
      ensures id in old(refs) && id in old(clients) && State() == Referenced(old(State()), id)
    {
      hide IsRing, Sound, Drop, NoRepeats, Rings;
      ReferencedIsSound(State(), hashOf, capacity, id);
      if refs[id] == 1 && id in inCache {
        MoveTo(InUse, id);
      } else {
        DropNothing(lru, id);
      }
      refs := refs[id := refs[id] + 1];
      clients := clients[id := clients[id] + 1];
    }

    /** One reference less: the last one deletes the entry, the cache's own one left puts it on the lru list. */
    method Unref(id: nat)
      requires Rings() && id in handles && id in refs && refs[id] > 0
      requires id in inCache && refs[id] == 2 ==> id in inUse && id !in lru
      modifies this`next, this`prev, this`refs, this`handles, this`deleted, this`lru, this`inUse
      ensures Rings()
      ensures old(refs[id]) == 1 ==>
                handles == old(handles) - {id} && refs == old(refs) - {id} && deleted == old(deleted) + [id] &&
                lru == old(lru) && inUse == old(inUse)
      ensures old(refs[id]) > 1 ==>
                handles == old(handles) && refs == old(refs)[id := old(refs[id]) - 1] && deleted == old(deleted) &&
                (if id in inCache && old(refs[id]) == 2 then lru == old(lru) + [id] && inUse == Drop(old(inUse), id)
                 else lru == old(lru) && inUse == old(inUse))
    {
      hide IsRing, Rings, Drop;
      refs := refs[id := refs[id] - 1];
      if refs[id] == 0 {
        deleted := deleted + [id];
        handles := handles - {id};
        refs := refs - {id};
      } else if id in inCache && refs[id] == 1 {
        MoveTo(Lru, id);
      }
    }

    /** Finishes removing an entry that has left the hash table; says whether there was one. */
    method FinishErase(e: Option<Handle>) returns (erased: bool)
      requires Rings() && Sound(State(), hashOf, capacity)
      requires e.Some? ==> e.value.id in inCache && e.value.id in handles && handles[e.value.id] == e.value
      modifies this`next, this`prev, this`refs, this`handles, this`deleted, this`lru, this`inUse, this`inCache, this`usage, this`clients
      ensures Rings() && Sound(State(), hashOf, capacity) && erased == e.Some?
      ensures e.None? ==> State() == old(State())
      ensures e.Some? ==>
                && e.value.id in old(refs) && 0 < old(refs[e.value.id]) && e.value.charge <= old(usage)
                && State() == Erased(old(State()), e.value.id)
    {
      hide IsRing, Sound, Drop, NoRepeats, Rings;
      erased := e.Some?;
      if e.Some? {
        var id := e.value.id;
        ErasedIsSound(State(), hashOf, capacity, id);
        Detach(id, e.value.charge);
        Unref(id);
        if id !in handles {
          clients := clients - {id};
        }
      }
    }

    /** Off its list, and no longer cached or charged for. */
    method Detach(id: nat, charge: nat)
      requires Rings() && (id in lru || id in inUse) && charge <= usage
      modifies this`next, this`prev, this`lru, this`inUse, this`inCache, this`usage
      ensures Rings() && lru == Drop(old(lru), id) && inUse == Drop(old(inUse), id)
      ensures inCache == old(inCache) - {id} && usage == old(usage) - charge
    {
      hide IsRing, Rings, Drop;
      LruRemove(id);
      inCache := inCache - {id};
      usage := usage - charge;
    }

    /** A client gives its handle back. */
    method Release(id: nat)
      requires Valid() && id in clients && clients[id] > 0
      modifies this`next, this`prev, this`refs, this`handles, this`deleted, this`lru, this`inUse, this`clients
      ensures Valid() && id in old(refs) && 0 < old(refs[id]) && State() == Released(old(State()), id)
    {
      hide IsRing, Sound, Drop, NoRepeats, Rings, Tabled, Chains;
      ReleasedIsSound(State(), hashOf, capacity, id);
      ReleaseKeepsTable(State(), hashOf, capacity, table.table, id);
      ghost var l := State();
      Unref(id);
      if id in handles {
        clients := clients[id := clients[id] - 1];
        assert State() == Released(l, id);
      } else {
        clients := clients - {id};
        assert State() == Released(l, id);
      }
    }

    /** A hit is the cached entry of the key, with one more client. */
    method Lookup(key: Key, hash: nat) returns (r: Option<nat>)
      requires Valid() && hash == hashOf(key)
      modifies this`next, this`prev, this`refs, this`lru, this`inUse, this`clients
      ensures Valid()
      ensures r == if key in table.table then Some(table.table[key].id) else None
      ensures if r.Some? then r.value in old(refs) && r.value in old(clients) && State() == Referenced(old(State()), r.value)
              else State() == old(State())
    {
      hide IsRing, Sound, Rings, Tabled, Chains;
      TableHashes(State(), hashOf, capacity, table.table, key);
      var e := table.Lookup(key, hash);
      if e.Some? {
        Ref(e.value.id);
      }
      r := if e.Some? then Some(e.value.id) else None;
    }

    method Erase(key: Key, hash: nat)
      requires Valid() && hash == hashOf(key)
      modifies this`next, this`prev, this`refs, this`handles, this`deleted, this`lru, this`inUse, this`inCache, this`usage, this`clients, table
      ensures Valid() && table.table == old(table.table) - {key}
      ensures if key in old(table.table) then
                var id := old(table.table[key].id);
                && id in old(handles) && id in old(refs) && 0 < old(refs[id]) && old(handles[id].charge) <= old(usage)
                && State() == Erased(old(State()), id)
              else State() == old(State())
    {
      hide IsRing, Sound, Rings, Tabled, Chains;
      TableHashes(State(), hashOf, capacity, table.table, key);
      EraseKeepsTable(State(), hashOf, capacity, table.table, key);
      var e := table.Remove(key, hash);
      var erased := FinishErase(e);
      if !erased {
        assert table.table == old(table.table);
      }
    }

    /** One turn of the eviction loop. */
    method EvictOldest()
      requires Valid() && lru != []
      modifies this`next, this`prev, this`refs, this`handles, this`deleted, this`lru, this`inUse, this`inCache, this`usage, this`clients, table
      ensures Valid()
      ensures old(lru[0]) in old(handles) && old(lru[0]) in old(refs) && 0 < old(refs)[old(lru[0])]
      ensures old(handles)[old(lru[0])].charge <= old(usage) && State() == Erased(old(State()), old(lru[0]))
      ensures lru == old(lru)[1..]
    {
      hide IsRing, Sound, Rings, Tabled, Chains;
      RingsHold();
      LastOfRing(next, prev, Lru, lru);
      EvictOne(State(), hashOf, capacity);
      var oldest := next[Lru].id;
      var h := handles[oldest];
      CachedIsTabled(State(), hashOf, capacity, table.table, oldest);
      TableHashes(State(), hashOf, capacity, table.table, h.key);
      EraseKeepsTable(State(), hashOf, capacity, table.table, h.key);
      var e := table.Remove(h.key, h.hash);
      var erased := FinishErase(e);
    }

    method Prune()
      requires Valid()
      modifies this`next, this`prev, this`refs, this`handles, this`deleted, this`lru, this`inUse, this`inCache, this`usage, this`clients, table
      ensures Valid() && lru == [] && deleted == old(deleted) + old(lru)
    {
      hide IsRing, Sound, Tabled, Chains;
      ghost var n := 0;
      RingEnds(next, prev, Lru, lru);
      while next[Lru] != Lru
        invariant Valid() && n <= |old(lru)| && lru == old(lru)[n..] && deleted == old(deleted) + old(lru)[..n]
        invariant Lru in next && (next[Lru] == Lru <==> lru == [])
        decreases |lru|
      {
        PrefixGrows(lru, lru[1..], deleted, 0);
        EvictDeletes(State(), hashOf, capacity);
        EvictOldest();
        n := n + 1;
        assert old(lru)[..n] == old(lru)[..n - 1] + [old(lru)[n - 1]];
        RingEnds(next, prev, Lru, lru);
      }
    }

    /**
     * The new entry replaces a cached one of its key, then entries are evicted. With capacity zero
     * nothing is cached.
     */
    method Insert(key: Key, hash: nat, charge: nat) returns (id: nat, ghost displaced: Ledger)
      requires Valid() && hash == hashOf(key)
      modifies this, table
      ensures Valid() && id == old(nextId)
      ensures usage <= capacity || lru == []
      ensures id in clients && clients[id] == 1 && id in handles && handles[id] == Handle(id, key, hash, charge)
      ensures 0 < capacity ==> key in table.table && table.table[key].id == id
      ensures Displaces(old(State()), Handle(id, key, hash, charge), old(table.table), 0 < capacity, displaced)
      ensures Sound(displaced, hashOf, capacity) && State() == Evicted(displaced, hashOf, capacity)
    {
      hide IsRing, Sound, Rings, Tabled, Evicted, Displaces, Erased, Chains;
      var h := Handle(nextId, key, hash, charge);
      id := nextId;
      Admit(h);
      displaced := State();
      RingEnds(next, prev, Lru, lru) by { RingsHold(); }
      while usage > capacity && next[Lru] != Lru
        invariant Valid() && Evicted(State(), hashOf, capacity) == Evicted(displaced, hashOf, capacity)
        invariant Lru in next && (next[Lru] == Lru <==> lru == [])
        invariant id in clients && clients[id] == 1 && id in handles && handles[id] == h && id !in lru
        invariant 0 < capacity ==> id in inCache
        decreases |lru|
      {
        EvictStep(State(), hashOf, capacity, id);
        EvictOldest();
        RingEnds(next, prev, Lru, lru) by { RingsHold(); }
      }
      EvictionStops(State(), hashOf, capacity);
      if 0 < capacity {
        CachedIsTabled(State(), hashOf, capacity, table.table, id);
      }
    }

    /** The rings as plain facts. */
    lemma RingsHold()
      requires Rings()
      ensures IsRing(next, prev, Lru, lru) && IsRing(next, prev, InUse, inUse)
    {
    }

    /** Allocates the entry, puts it into the cache and takes out the one it replaces. */
    method Admit(h: Handle)
      requires Valid() && h.id == nextId && h.hash == hashOf(h.key)
      modifies this, table
      ensures Valid() && Displaces(old(State()), h, old(table.table), 0 < capacity, State())
      ensures h.id in clients && clients[h.id] == 1 && h.id in handles && handles[h.id] == h && h.id !in lru
      ensures 0 < capacity ==> h.id in inCache
    {
      hide IsRing, Sound, Rings, Tabled, Erased, Allocated, Chains;
      TableHashes(State(), hashOf, capacity, table.table, h.key);
      AllocatedIsSound(State(), hashOf, capacity, h);
      AdmitKeepsTable(State(), hashOf, capacity, table.table, h);
      Allocate(h);
      if capacity > 0 {
        var replaced := table.Insert(h);
        var erased := FinishErase(replaced);
      }
    }

    /** The fields of a fresh entry, and its place on the in-use list if it is cached. */
    method Allocate(h: Handle)
      requires Rings() && h.id == nextId && h.id !in lru && h.id !in inUse
      modifies this
      ensures Rings() && State() == Allocated(old(State()), h, 0 < capacity)
    {
      hide IsRing, Rings, NoRepeats;
      ghost var l := State();
      handles := handles[h.id := h];
      clients := clients[h.id := 1];
      nextId := nextId + 1;
      if capacity > 0 {
        refs := refs[h.id := 2];
        inCache := inCache + {h.id};
        LruAppend(InUse, h.id);
        usage := usage + h.charge;
        assert State() == Allocated(l, h, true);
      } else {
        refs := refs[h.id := 1];
      }
    }
  }

  lemma TableHashes(l: Ledger, hashOf: Key -> nat, capacity: nat, table: map<Key, Handle>, key: Key)
    requires Sound(l, hashOf, capacity) && Tabled(table, l.handles, l.inCache)
    ensures key in table ==>
              && table[key].hash == hashOf(key) && table[key].id in l.inCache && table[key].id in l.handles
              && l.handles[table[key].id] == table[key]
  {
  }

  lemma CachedIsTabled(l: Ledger, hashOf: Key -> nat, capacity: nat, table: map<Key, Handle>, id: nat)
    requires Sound(l, hashOf, capacity) && Tabled(table, l.handles, l.inCache) && id in l.inCache
    ensures id in l.handles && l.handles[id].id == id && l.handles[id].hash == hashOf(l.handles[id].key)
    ensures l.handles[id].key in table && table[l.handles[id].key] == l.handles[id]
  {
  }

  lemma ReleaseKeepsTable(l: Ledger, hashOf: Key -> nat, capacity: nat, table: map<Key, Handle>, id: nat)
    requires Sound(l, hashOf, capacity) && Tabled(table, l.handles, l.inCache) && id in l.clients && 0 < l.clients[id]
    ensures id in l.refs && 0 < l.refs[id] && Tabled(table, Released(l, id).handles, Released(l, id).inCache)
  {
    ReleaseCounted(l.handles, l.refs, l.clients, l.inCache, id);
  }

  lemma HandlesKnowIds(l: Ledger, hashOf: Key -> nat, capacity: nat)
    requires Sound(l, hashOf, capacity)
    ensures forall id :: id in l.handles ==> l.handles[id].id == id
  {
  }

  lemma UntableKeeps(table: map<Key, Handle>, handles: map<nat, Handle>, inCache: set<nat>, key: Key, handles': map<nat, Handle>)
    requires Tabled(table, handles, inCache) && key in table && forall id :: id in handles ==> handles[id].id == id
    requires handles' == handles || handles' == handles - {table[key].id}
    ensures Tabled(table - {key}, handles', inCache - {table[key].id})
  {
  }

  lemma RetableKeeps(table: map<Key, Handle>, handles: map<nat, Handle>, inCache: set<nat>, h: Handle, handles': map<nat, Handle>)
    requires Tabled(table, handles, inCache) && h.key in table && h.id !in handles && h.id !in inCache
    requires forall id :: id in handles ==> handles[id].id == id
    requires handles' == handles[h.id := h] || handles' == handles[h.id := h] - {table[h.key].id}
    ensures Tabled(table[h.key := h], handles', inCache + {h.id} - {table[h.key].id})
  {
  }

  lemma EraseKeepsTable(l: Ledger, hashOf: Key -> nat, capacity: nat, table: map<Key, Handle>, key: Key)
    requires Sound(l, hashOf, capacity) && Tabled(table, l.handles, l.inCache)
    ensures key in table ==>
              var id := table[key].id;
              && id in l.handles && id in l.refs && 0 < l.refs[id] && l.handles[id].charge <= l.usage
              && Tabled(table - {key}, Erased(l, id).handles, Erased(l, id).inCache)
    ensures key !in table ==> table - {key} == table
  {
    hide Tabled;
    hide Sound, Drop;
    if key in table {
      TableHashes(l, hashOf, capacity, table, key);
      ErasedIsSound(l, hashOf, capacity, table[key].id);
      HandlesKnowIds(l, hashOf, capacity);
      UntableKeeps(table, l.handles, l.inCache, key, l.handles);
      UntableKeeps(table, l.handles, l.inCache, key, l.handles - {table[key].id});
    }
  }

  /** Tabling a fresh entry displaces the one of its key. */
  lemma AdmitKeepsTable(l: Ledger, hashOf: Key -> nat, capacity: nat, table: map<Key, Handle>, h: Handle)
    requires Sound(l, hashOf, capacity) && Tabled(table, l.handles, l.inCache) && h.id == l.nextId && h.hash == hashOf(h.key)
    ensures h.id !in l.handles && h.id !in l.inCache && h.id !in l.lru
    ensures capacity == 0 ==> Tabled(table, Allocated(l, h, false).handles, Allocated(l, h, false).inCache)
    ensures var a := Allocated(l, h, 0 < capacity);
            && h.id in a.clients && a.clients[h.id] == 1 && h.id in a.handles && a.handles[h.id] == h && h.id !in a.lru
            && (0 < capacity ==> h.id in a.inCache)
    ensures var a := Allocated(l, h, 0 < capacity);
            0 < capacity ==>
              if h.key in table then
                var id := table[h.key].id;
                && id != h.id && id in a.inCache && id in a.handles && a.handles[id] == table[h.key]
                && id in a.refs && 0 < a.refs[id] && a.handles[id].charge <= a.usage
                && Tabled(table[h.key := h], Erased(a, id).handles, Erased(a, id).inCache)
                && h.id in Erased(a, id).clients && Erased(a, id).clients[h.id] == 1 && h.id in Erased(a, id).handles
                && Erased(a, id).handles[h.id] == h && h.id !in Erased(a, id).lru && h.id in Erased(a, id).inCache
              else Tabled(table[h.key := h], a.handles, a.inCache)
  {
    hide Sound, Drop, NoRepeats, Tabled;
    AllocatedIsSound(l, hashOf, capacity, h);
    if capacity == 0 {
      UncachedKeepsTable(table, l.handles, l.inCache, h);
    } else if h.key !in table {
      NewInTable(table, l.handles, l.inCache, h);
    } else {
      DisplacedKeepsTable(l, hashOf, capacity, table, h);
    }
  }

  lemma UncachedKeepsTable(table: map<Key, Handle>, handles: map<nat, Handle>, inCache: set<nat>, h: Handle)
    requires Tabled(table, handles, inCache) && h.id !in handles
    ensures Tabled(table, handles[h.id := h], inCache)
  {
  }

  lemma NewInTable(table: map<Key, Handle>, handles: map<nat, Handle>, inCache: set<nat>, h: Handle)
    requires Tabled(table, handles, inCache) && h.id !in handles && h.key !in table
    ensures Tabled(table[h.key := h], handles[h.id := h], inCache + {h.id})
  {
  }

  lemma TabledEntry(table: map<Key, Handle>, handles: map<nat, Handle>, inCache: set<nat>, key: Key)
    requires Tabled(table, handles, inCache) && key in table
    ensures table[key].id in inCache && table[key].id in handles && handles[table[key].id] == table[key]
  {
  }

  lemma DisplacedKeepsTable(l: Ledger, hashOf: Key -> nat, capacity: nat, table: map<Key, Handle>, h: Handle)
    requires Sound(l, hashOf, capacity) && Tabled(table, l.handles, l.inCache) && h.id == l.nextId && h.hash == hashOf(h.key)
    requires 0 < capacity && h.key in table && h.id !in l.handles && h.id !in l.inCache && h.id !in l.lru
    ensures var a, id := Allocated(l, h, true), table[h.key].id;
            && id != h.id && id in a.inCache && id in a.handles && a.handles[id] == table[h.key]
            && id in a.refs && 0 < a.refs[id] && a.handles[id].charge <= a.usage
            && Tabled(table[h.key := h], Erased(a, id).handles, Erased(a, id).inCache)
            && h.id in Erased(a, id).clients && Erased(a, id).clients[h.id] == 1 && h.id in Erased(a, id).handles
            && Erased(a, id).handles[h.id] == h && h.id !in Erased(a, id).lru && h.id in Erased(a, id).inCache
  {
    hide Sound, Drop, NoRepeats, Tabled;
    var a, id := Allocated(l, h, true), table[h.key].id;
    TabledEntry(table, l.handles, l.inCache, h.key);
    AllocatedIsSound(l, hashOf, capacity, h);
    ErasedIsSound(a, hashOf, capacity, id);
    DropHolds(a.lru, id) by { SoundLists(a, hashOf, capacity); }
    HandlesKnowIds(l, hashOf, capacity);
    RetableKeeps(table, l.handles, l.inCache, h, Erased(a, id).handles);
  }

  lemma RingEnds(next: map<Ref, Ref>, prev: map<Ref, Ref>, head: Ref, ids: seq<nat>)
    requires IsRing(next, prev, head, ids)
    ensures head in next && (next[head] == head <==> ids == [])
  {
    LastOfRing(next, prev, head, ids);
  }

  /** One eviction spares an entry that is not on the lru list. */
  lemma EvictStep(l: Ledger, hashOf: Key -> nat, capacity: nat, id: nat)
    requires Sound(l, hashOf, capacity) && l.lru != [] && id !in l.lru && id in l.handles && id in l.clients
    ensures l.lru[0] in l.handles && l.lru[0] in l.refs && 0 < l.refs[l.lru[0]] && l.handles[l.lru[0]].charge <= l.usage
    ensures l.usage > capacity ==>
              Sound(Erased(l, l.lru[0]), hashOf, capacity) &&
              Evicted(l, hashOf, capacity) == Evicted(Erased(l, l.lru[0]), hashOf, capacity)
    ensures var r := Erased(l, l.lru[0]);
            && id in r.handles && r.handles[id] == l.handles[id] && id in r.clients && r.clients[id] == l.clients[id]
            && (id in l.inCache ==> id in r.inCache) && r.lru == l.lru[1..]
  {
    hide Sound, Drop;
    EvictOne(l, hashOf, capacity);
  }

  lemma EvictionStops(l: Ledger, hashOf: Key -> nat, capacity: nat)
    requires Sound(l, hashOf, capacity) && (l.usage <= capacity || l.lru == [])
    ensures Evicted(l, hashOf, capacity) == l
  {
  }

  lemma EvictDeletes(l: Ledger, hashOf: Key -> nat, capacity: nat)
    requires Sound(l, hashOf, capacity) && l.lru != []
    ensures l.lru[0] in l.handles && l.lru[0] in l.refs && 0 < l.refs[l.lru[0]] && l.handles[l.lru[0]].charge <= l.usage
    ensures Erased(l, l.lru[0]).deleted == l.deleted + [l.lru[0]]
  {
    EvictOne(l, hashOf, capacity);
  }

  lemma SoundLists(l: Ledger, hashOf: Key -> nat, capacity: nat)
    requires Sound(l, hashOf, capacity)
    ensures NoRepeats(l.lru) && NoRepeats(l.inUse)
  {
  }

  /** What Insert does before it evicts. */
  ghost predicate Displaces(l: Ledger, h: Handle, table: map<Key, Handle>, cached: bool, m: Ledger) {
    var a := Allocated(l, h, cached);
    if cached && h.key in table then
      var id := table[h.key].id;
      id in a.handles && id in a.refs && 0 < a.refs[id] && a.handles[id].charge <= a.usage && m == Erased(a, id)
    else m == a
  }
}
