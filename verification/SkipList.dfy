/** The memtable's skip list, including searches that run while an insertion links its node (db/skiplist.h). */
module SkipList {
  import opened DbFormat

  const MAX_HEIGHT: nat := 12

  /** A node pointer; nodes never share a key, so the key names the node. */
  datatype Ref = Head | Node(key: UserKey) | Nil

  /** The next pointers of one level. */
  type Links = map<Ref, Ref>

  predicate Ascending(keys: seq<UserKey>) {
    forall i, j :: 0 <= i < j < |keys| ==> keys[i] < keys[j]
  }

  /** The nodes of one level by place, with the head before the first and nil after the last. */
  function RefAt(keys: seq<UserKey>, i: int): Ref
    requires -1 <= i <= |keys|
  {
    if i == -1 then Head else if i == |keys| then Nil else Node(keys[i])
  }

  /** Following `next` from the head visits exactly `keys`. */
  ghost predicate IsList(next: Links, keys: seq<UserKey>) {
    Ascending(keys) && forall i :: -1 <= i < |keys| ==> RefAt(keys, i) in next && next[RefAt(keys, i)] == RefAt(keys, i + 1)
  }

  /** The place of the first key not below `key`. */
  function Lower(keys: seq<UserKey>, key: UserKey): (p: nat)
    ensures p <= |keys| && (forall i :: 0 <= i < p ==> keys[i] < key) && (p < |keys| ==> key <= keys[p])
  {
    if keys == [] || key <= keys[0] then 0 else 1 + Lower(keys[1..], key)
  }

  lemma LowerIs(keys: seq<UserKey>, key: UserKey, p: nat)
    requires Ascending(keys) && p <= |keys| && (0 < p ==> keys[p - 1] < key) && (p < |keys| ==> key <= keys[p])
    ensures Lower(keys, key) == p
  {
  }

  ghost predicate Shape(levels: seq<seq<UserKey>>) {
    && |levels| == MAX_HEIGHT && (forall l :: 0 <= l < MAX_HEIGHT ==> Ascending(levels[l]))
    && forall l :: 0 < l < MAX_HEIGHT ==> InBelow(levels, l)
  }

  predicate InBelow(levels: seq<seq<UserKey>>, l: nat)
    requires 0 < l < |levels|
  {
    forall k :: k in levels[l] ==> k in levels[l - 1]
  }

  ghost predicate Structure(next: seq<Links>, levels: seq<seq<UserKey>>) {
    |next| == MAX_HEIGHT && Shape(levels) && forall l :: 0 <= l < MAX_HEIGHT ==> IsList(next[l], levels[l])
  }

  function Linked(keys: seq<UserKey>, key: UserKey): seq<UserKey> {
    keys[..Lower(keys, key)] + [key] + keys[Lower(keys, key)..]
  }

  lemma LinkedIs(keys: seq<UserKey>, key: UserKey)
    requires Ascending(keys) && key !in keys
    ensures Ascending(Linked(keys, key)) && forall k :: k in Linked(keys, key) <==> k in keys || k == key
  {
    var p := Lower(keys, key);
    assert p < |keys| ==> keys[p] in keys;
    PutInAscends(keys, p, key);
    assert keys == keys[..p] + keys[p..];
    hide Ascending;
  }

  lemma PutInAscends(keys: seq<UserKey>, p: nat, key: UserKey)
    requires Ascending(keys) && p <= |keys| && (forall i :: 0 <= i < p ==> keys[i] < key) && (p < |keys| ==> key < keys[p])
    ensures Ascending(keys[..p] + [key] + keys[p..])
  {
  }

  /** A node's own pointer may be set while nothing leads to it. */
  lemma HalfLinked(next: Links, keys: seq<UserKey>, key: UserKey, n: Ref)
    requires IsList(next, keys) && key !in keys
    ensures IsList(next[Node(key) := n], keys)
  {
    var mid := next[Node(key) := n];
    forall i | -1 <= i < |keys|
      ensures RefAt(keys, i) in mid && mid[RefAt(keys, i)] == RefAt(keys, i + 1)
    {
      assert 0 <= i ==> keys[i] in keys;
    }
  }

  /** Redirecting the predecessor then puts the node between its neighbours. */
  lemma Relinked(mid: Links, keys: seq<UserKey>, key: UserKey, p: nat)
    requires IsList(mid, keys) && key !in keys && p <= |keys|
    requires Node(key) in mid && mid[Node(key)] == RefAt(keys, p)
    ensures var all := keys[..p] + [key] + keys[p..];
            forall i :: -1 <= i < |all| ==>
              && RefAt(all, i) in mid[RefAt(keys, p - 1) := Node(key)]
              && mid[RefAt(keys, p - 1) := Node(key)][RefAt(all, i)] == RefAt(all, i + 1)
  {
    var all := keys[..p] + [key] + keys[p..];
    var prev := RefAt(keys, p - 1);
    forall i | -1 <= i < |all|
      ensures RefAt(all, i) in mid[prev := Node(key)] && mid[prev := Node(key)][RefAt(all, i)] == RefAt(all, i + 1)
    {
      if i < p - 1 {
        assert RefAt(all, i) == RefAt(keys, i) && RefAt(all, i + 1) == RefAt(keys, i + 1);
        RefsDiffer(keys, i, p - 1);
      } else if i > p {
        assert RefAt(all, i) == RefAt(keys, i - 1) && RefAt(all, i + 1) == RefAt(keys, i);
        RefsDiffer(keys, p - 1, i - 1);
      }
    }
  }

  lemma RefsDiffer(keys: seq<UserKey>, i: int, j: int)
    requires Ascending(keys) && -1 <= i < j < |keys|
    ensures RefAt(keys, i) != RefAt(keys, j)
  {
  }

  /** The two writes that link a node at one level: its own pointer, then its predecessor's. */
  lemma LinkKeepsList(next: Links, keys: seq<UserKey>, key: UserKey)
    requires IsList(next, keys) && key !in keys
    ensures var prev := RefAt(keys, Lower(keys, key) - 1);
            && prev in next
            && IsList(next[Node(key) := next[prev]], keys)
            && IsList(next[Node(key) := next[prev]][prev := Node(key)], Linked(keys, key))
  {
    hide Ascending;
    var p := Lower(keys, key);
    var prev := RefAt(keys, p as int - 1);
    assert next[prev] == RefAt(keys, p);
    LinkedIs(keys, key);
    HalfLinked(next, keys, key, next[prev]);
    Relinked(next[Node(key) := next[prev]], keys, key, p);
  }

  lemma LinkKeepsShape(levels: seq<seq<UserKey>>, key: UserKey, level: nat)
    requires Shape(levels) && level < MAX_HEIGHT && key !in levels[level] && (0 < level ==> key in levels[level - 1])
    ensures Shape(levels[level := Linked(levels[level], key)])
  {
    LinkedIs(levels[level], key);
    var levels' := levels[level := Linked(levels[level], key)];
    hide Linked;
    forall l | 0 < l < MAX_HEIGHT
      ensures InBelow(levels', l)
    {
      assert InBelow(levels, l);
    }
  }

  /** Both writes of a link leave a whole structure behind: the old one, then the new one. */
  lemma LinkKeepsStructure(next: seq<Links>, levels: seq<seq<UserKey>>, key: UserKey, level: nat)
    requires Structure(next, levels) && level < MAX_HEIGHT && key !in levels[level] && (0 < level ==> key in levels[level - 1])
    ensures var prev := RefAt(levels[level], Lower(levels[level], key) - 1);
            var half := next[level][Node(key) := next[level][prev]];
            && |next| == MAX_HEIGHT == |levels| && prev in next[level]
            && Structure(next[level := half], levels)
            && Structure(next[level := half[prev := Node(key)]], levels[level := Linked(levels[level], key)])
  {
    assert IsList(next[level], levels[level]);
    LinkKeepsList(next[level], levels[level], key);
    LinkKeepsShape(levels, key, level);
    hide IsList, Shape, Linked;
  }

  lemma PlaceOf(keys: seq<UserKey>, x: Ref) returns (p: int)
    requires x == Head || (x.Node? && x.key in keys)
    ensures -1 <= p < |keys| && RefAt(keys, p) == x
  {
    if x == Head {
      p := -1;
    } else {
      p :| 0 <= p < |keys| && keys[p] == x.key;
    }
  }

  lemma NextAt(next: seq<Links>, levels: seq<seq<UserKey>>, level: nat, p: int)
    requires Structure(next, levels) && level < MAX_HEIGHT && -1 <= p < |levels[level]|
    ensures Ascending(levels[level])
    ensures RefAt(levels[level], p) in next[level] && next[level][RefAt(levels[level], p)] == RefAt(levels[level], p + 1)
  {
    assert IsList(next[level], levels[level]);
  }

  /** A node of one level is a node of the level below. */
  lemma StepDown(next: seq<Links>, levels: seq<seq<UserKey>>, level: nat, p: int) returns (q: int)
    requires Structure(next, levels) && 0 < level < MAX_HEIGHT && -1 <= p < |levels[level]|
    ensures -1 <= q < |levels[level - 1]| && RefAt(levels[level - 1], q) == RefAt(levels[level], p)
  {
    if 0 <= p {
      assert levels[level][p] in levels[level] && InBelow(levels, level);
    }
    q := PlaceOf(levels[level - 1], RefAt(levels[level], p));
  }

  class SkipList {
    var next: seq<Links>
    var maxHeight: nat
    ghost var levels: seq<seq<UserKey>>

    constructor ()
      ensures Valid() && Keys() == {} && |levels| == 12 && maxHeight == 1
    {
      next := seq(MAX_HEIGHT, _ => map[Head := Nil]);
      maxHeight := 1;
      levels := seq(MAX_HEIGHT, _ => []);
    }

    ghost predicate Valid()
      reads this
    {
      && Structure(next, levels) && 1 <= maxHeight <= MAX_HEIGHT
      && forall l :: maxHeight <= l < MAX_HEIGHT ==> levels[l] == []
    }

    ghost function Keys(): set<UserKey>
      reads this
      requires Valid()
    {
      set k | k in levels[0]
    }

    /** The first node not before `key`, and on every level in use the last node before it. */
    method FindGreaterOrEqual(key: UserKey) returns (r: Ref, prev: seq<Ref>)
      requires Valid()
      ensures r == RefAt(levels[0], Lower(levels[0], key))
      ensures |prev| == MAX_HEIGHT
      ensures forall l :: 0 <= l < maxHeight ==> prev[l] == RefAt(levels[l], Lower(levels[l], key) - 1)
    {
      hide Structure, Lower;
      StructureHasLevels(next, levels);
      prev := seq(MAX_HEIGHT, _ => Nil);
      var x := Head;
      var level := maxHeight - 1;
      ghost var p := -1;
      while true
        invariant 0 <= level < maxHeight && |prev| == MAX_HEIGHT
        invariant -1 <= p < |levels[level]| && x == RefAt(levels[level], p) && (0 <= p ==> levels[level][p] < key)
        invariant forall l :: level < l < maxHeight ==> prev[l] == RefAt(levels[l], Lower(levels[l], key) - 1)
        decreases level, |levels[level]| - p
      {
        NextAt(next, levels, level, p);
        var n := next[level][x];
        if n.Node? && n.key < key {
          x := n;
          p := p + 1;
        } else {
          LowerIs(levels[level], key, p + 1);
          prev := prev[level := x];
          if level == 0 {
            return n, prev;
          }
          p := StepDown(next, levels, level, p);
          level := level - 1;
        }
      }
    }

    /** The last node before `key`, or the head. */
    method FindLessThan(key: UserKey) returns (r: Ref)
      requires Valid()
      ensures r == RefAt(levels[0], Lower(levels[0], key) - 1)
    {
      hide Structure, Lower;
      StructureHasLevels(next, levels);
      var x := Head;
      var level := maxHeight - 1;
      ghost var p := -1;
      while true
        invariant 0 <= level < maxHeight
        invariant -1 <= p < |levels[level]| && x == RefAt(levels[level], p) && (0 <= p ==> levels[level][p] < key)
        decreases level, |levels[level]| - p
      {
        NextAt(next, levels, level, p);
        var n := next[level][x];
        if n == Nil || (n.Node? && n.key >= key) {
          if level == 0 {
            LowerIs(levels[0], key, p + 1);
            return x;
          }
          p := StepDown(next, levels, level, p);
          level := level - 1;
        } else {
          x := n;
          p := p + 1;
        }
      }
    }

    /** The last node, or the head of an empty list. */
    method FindLast() returns (r: Ref)
      requires Valid()
      ensures r == RefAt(levels[0], |levels[0]| - 1)
    {
      hide Structure, Lower;
      StructureHasLevels(next, levels);
      var x := Head;
      var level := maxHeight - 1;
      ghost var p := -1;
      while true
        invariant 0 <= level < maxHeight
        invariant -1 <= p < |levels[level]| && x == RefAt(levels[level], p)
        decreases level, |levels[level]| - p
      {
        NextAt(next, levels, level, p);
        var n := next[level][x];
        if n == Nil {
          if level == 0 {
            return x;
          }
          p := StepDown(next, levels, level, p);
          level := level - 1;
        } else {
          x := n;
          p := p + 1;
        }
      }
    }

    method Contains(key: UserKey) returns (found: bool)
      requires Valid()
      ensures found <==> key in Keys()
    {
      var x, prev := FindGreaterOrEqual(key);
      found := x.Node? && x.key == key;
      var p := Lower(levels[0], key);
      if key in levels[0] {
        var i :| 0 <= i < |levels[0]| && levels[0][i] == key;
        LowerIs(levels[0], key, i);
      }
    }

    /**
     * One turn of Insert's linking loop. The list is whole after each of its two writes: before the
     * second one a search at this level still sees the old nodes, after it the new ones.
     */
    method Link(key: UserKey, level: nat, prev: Ref)
      requires Valid() && level < maxHeight && key !in levels[level]
      requires 0 < level ==> key in levels[level - 1]
      requires prev == RefAt(levels[level], Lower(levels[level], key) - 1)
      modifies this
      ensures Valid() && maxHeight == old(maxHeight)
      ensures levels == old(levels)[level := Linked(old(levels[level]), key)]
    {
      hide Structure, Linked, Lower;
      LinkKeepsStructure(next, levels, key, level);
      next := next[level := next[level][Node(key) := next[level][prev]]];
      assert Valid();
      next := next[level := next[level][prev := Node(key)]];
      assert next == old(next)[level := next[level]];
      levels := levels[level := Linked(levels[level], key)];
    }

    /** The key set grows by the key in one step, when level 0 is linked. */
    method Insert(key: UserKey, height: nat)
      requires Valid() && key !in Keys() && 1 <= height <= MAX_HEIGHT
      modifies this
      ensures Valid() && Keys() == old(Keys()) + {key}
      ensures forall l :: 0 <= l < MAX_HEIGHT ==> levels[l] == if l < height then Linked(old(levels[l]), key) else old(levels[l])
      ensures maxHeight == if old(maxHeight) < height then height else old(maxHeight)
    {
      hide Structure, Linked, Lower;
      var x, prev := FindGreaterOrEqual(key);
      StructureHasLevels(next, levels);
      NowhereElse(next, levels, key);
      EmptyLevels(levels, key, maxHeight);
      if height > maxHeight {
        for i := maxHeight to height
          invariant |prev| == MAX_HEIGHT
          invariant forall l :: 0 <= l < i ==> prev[l] == RefAt(levels[l], Lower(levels[l], key) - 1)
        {
          prev := prev[i := Head];
        }
        maxHeight := height;
      }
      LinkAll(key, height, prev);
      LevelAscends(old(next), old(levels), 0);
      LinkedIs(old(levels[0]), key);
    }

    /** The loop that links the new node level by level, lowest first. */
    method LinkAll(key: UserKey, height: nat, prev: seq<Ref>)
      requires Valid() && height <= maxHeight && |prev| == MAX_HEIGHT == |levels|
      requires forall l :: 0 <= l < MAX_HEIGHT ==> key !in levels[l]
      requires forall l :: 0 <= l < height ==> prev[l] == RefAt(levels[l], Lower(levels[l], key) - 1)
      modifies this
      ensures maxHeight == old(maxHeight)
      ensures Valid() && |levels| == MAX_HEIGHT
      ensures forall l :: 0 <= l < MAX_HEIGHT ==> levels[l] == if l < height then Linked(old(levels[l]), key) else old(levels[l])
    {
      hide Structure, Linked, Lower;
      for i := 0 to height
        invariant Valid() && maxHeight == old(maxHeight) && |levels| == MAX_HEIGHT
        invariant forall l :: 0 <= l < i ==> levels[l] == Linked(old(levels[l]), key)
        invariant forall l :: i <= l < MAX_HEIGHT ==> levels[l] == old(levels[l])
      {
        if 0 < i {
          LevelAscends(old(next), old(levels), i - 1);
          LinkedIs(old(levels[i - 1]), key);
        }
        Link(key, i, prev[i]);
      }
    }
  }

  lemma StructureHasLevels(next: seq<Links>, levels: seq<seq<UserKey>>)
    requires Structure(next, levels)
    ensures |next| == |levels| == MAX_HEIGHT
  {
  }

  lemma LevelAscends(next: seq<Links>, levels: seq<seq<UserKey>>, l: nat)
    requires Structure(next, levels) && l < MAX_HEIGHT
    ensures Ascending(levels[l])
  {
  }

  lemma EmptyLevels(levels: seq<seq<UserKey>>, key: UserKey, maxHeight: nat)
    requires |levels| == MAX_HEIGHT && forall l :: maxHeight <= l < MAX_HEIGHT ==> levels[l] == []
    ensures forall l :: maxHeight <= l < MAX_HEIGHT ==> RefAt(levels[l], Lower(levels[l], key) - 1) == Head
  {
  }

  lemma {:induction false} AlsoBelow(levels: seq<seq<UserKey>>, level: nat, key: UserKey)
    requires Shape(levels) && level < MAX_HEIGHT && key in levels[level]
    ensures key in levels[0]
  {
    if 0 < level {
      assert InBelow(levels, level);
      AlsoBelow(levels, level - 1, key);
    }
  }

  lemma NowhereElse(next: seq<Links>, levels: seq<seq<UserKey>>, key: UserKey)
    requires Structure(next, levels) && key !in levels[0]
    ensures forall l :: 0 <= l < MAX_HEIGHT ==> key !in levels[l]
  {
    forall l | 0 <= l < MAX_HEIGHT
      ensures key !in levels[l]
    {
      if key in levels[l] {
        AlsoBelow(levels, l, key);
      }
    }
  }

  // ---------- searches during an insertion ----------

  /** The three searches a reader makes: for the first key not below one, for the last below one, and for the last of all. */
  datatype Query = GreaterOrEqual(key: UserKey) | LessThan(key: UserKey) | Last

  /** A reader inside its loop, or with its answer. */
  datatype Search = At(x: Ref, level: nat) | Found(r: Ref)

  /** Keys that the search for `q` walks past. */
  predicate Passes(q: Query, k: UserKey) {
    q.Last? || k < q.key
  }

  /** One turn of the search loop: one pointer is read. */
  function SearchStep(next: seq<Links>, q: Query, s: Search): Search
    requires s.At? ==> s.level < |next| && s.x in next[s.level]
  {
    match s
    case Found(_) => s
    case At(x, level) =>
      var n := next[level][x];
      if n.Node? && Passes(q, n.key) then At(n, level)
      else if level == 0 then Found(if q.GreaterOrEqual? then n else x)
      else At(x, level - 1)
  }

  /** What the search for `q` should find in a list of keys. */
  function Answer(keys: seq<UserKey>, q: Query): Ref {
    match q
    case GreaterOrEqual(key) => RefAt(keys, Lower(keys, key))
    case LessThan(key) => RefAt(keys, Lower(keys, key) - 1)
    case Last => RefAt(keys, |keys| - 1)
  }

  /** The reader stands on a node its level holds, and that it may walk past. */
  ghost predicate SearchOk(levels: seq<seq<UserKey>>, q: Query, s: Search) {
    |levels| == MAX_HEIGHT && s.At? ==> s.level < MAX_HEIGHT && (s.x == Head || (s.x.Node? && s.x.key in levels[s.level] && Passes(q, s.x.key)))
  }

  lemma SearchStands(next: seq<Links>, levels: seq<seq<UserKey>>, q: Query, s: Search) returns (p: int)
    requires Structure(next, levels) && SearchOk(levels, q, s) && s.At?
    ensures -1 <= p < |levels[s.level]| && s.x == RefAt(levels[s.level], p) && s.x in next[s.level]
    ensures next[s.level][s.x] == RefAt(levels[s.level], p + 1)
  {
    p := PlaceOf(levels[s.level], s.x);
    assert IsList(next[s.level], levels[s.level]);
  }

  /** A search that reaches the end of its walk on the lowest level has the answer. */
  lemma StopIsAnswer(keys: seq<UserKey>, q: Query, p: int)
    requires Ascending(keys) && -1 <= p < |keys| && (0 <= p ==> Passes(q, keys[p]))
    requires p + 1 < |keys| ==> !Passes(q, keys[p + 1])
    ensures (if q.GreaterOrEqual? then RefAt(keys, p + 1) else RefAt(keys, p)) == Answer(keys, q)
  {
    if !q.Last? {
      LowerIs(keys, q.key, p + 1);
    }
  }

  /** A step keeps the reader's place good, and an answer is the exact one for the list of that moment. */
  lemma SearchStepOk(next: seq<Links>, levels: seq<seq<UserKey>>, q: Query, s: Search)
    requires Structure(next, levels) && SearchOk(levels, q, s) && s.At?
    ensures s.x in next[s.level]
    ensures SearchOk(levels, q, SearchStep(next, q, s))
    ensures SearchStep(next, q, s).Found? ==> SearchStep(next, q, s).r == Answer(levels[0], q)
  {
    hide Answer;
    var p := SearchStands(next, levels, q, s);
    var keys := levels[s.level];
    if s.level > 0 {
      assert InBelow(levels, s.level);
    }
    if p + 1 < |keys| && Passes(q, keys[p + 1]) {
      assert keys[p + 1] in keys;
    } else if s.level == 0 {
      StopIsAnswer(keys, q, p);
    }
  }

  // ---------- the protocol: one writer and one reader ----------

  /**
   * The writer inside Insert's linking loop: at `level`, with the predecessors that FindGreaterOrEqual
   * found, before the first of the level's two writes or between them.
   */
  datatype Writer = Idle | Linking(key: UserKey, height: nat, prev: seq<Ref>, level: nat, half: bool)

  datatype World = World(next: seq<Links>, levels: seq<seq<UserKey>>, writer: Writer, search: Search)

  /**
   * One event: the writer starts an insertion, sets the new node's own pointer, publishes the node on
   * the level, or ends; or the reader reads one pointer. `levels` only says which keys are linked.
   */
  datatype Event = Begin(key: UserKey, height: nat, prev: seq<Ref>) | SetNext | Publish | End | ReadPointer

  ghost predicate Happens(q: Query, w: World, e: Event, v: World) {
    match e
    case Begin(key, height, prev) =>
      && w.writer.Idle? && 1 <= height <= MAX_HEIGHT && |w.levels| == MAX_HEIGHT && key !in w.levels[0] && |prev| == MAX_HEIGHT
      && (forall l :: 0 <= l < height ==> prev[l] == RefAt(w.levels[l], Lower(w.levels[l], key) - 1))
      && v == w.(writer := Linking(key, height, prev, 0, false))
    case SetNext =>
      && w.writer.Linking? && !w.writer.half && w.writer.level < w.writer.height
      && var Linking(key, _, prev, level, _) := w.writer;
      && level < |w.next| && level < |prev| && prev[level] in w.next[level]
      && v == w.(next := w.next[level := w.next[level][Node(key) := w.next[level][prev[level]]]], writer := w.writer.(half := true))
    case Publish =>
      && w.writer.Linking? && w.writer.half
      && var Linking(key, _, prev, level, _) := w.writer;
      && level < |w.next| && level < |w.levels| && level < |prev|
      && v == w.(next := w.next[level := w.next[level][prev[level] := Node(key)]],
                 levels := w.levels[level := Linked(w.levels[level], key)],
                 writer := w.writer.(level := level + 1, half := false))
    case End =>
      w.writer.Linking? && w.writer.level == w.writer.height && v == w.(writer := Idle)
    case ReadPointer =>
      && w.search.At? && w.search.level < |w.next| && w.search.x in w.next[w.search.level]
      && v == w.(search := SearchStep(w.next, q, w.search))
  }

  /** The key is linked on the levels below the writer's and nowhere else, and the predecessors stay right. */
  ghost predicate WriterOk(next: seq<Links>, levels: seq<seq<UserKey>>, writer: Writer) {
    writer.Linking? ==>
      var Linking(key, height, prev, level, half) := writer;
      && |next| == |levels| == |prev| == MAX_HEIGHT && level <= height <= MAX_HEIGHT && (half ==> level < height)
      && (forall l :: 0 <= l < level ==> key in levels[l])
      && (forall l :: level <= l < MAX_HEIGHT ==> key !in levels[l])
      && (forall l :: level <= l < height ==> prev[l] == RefAt(levels[l], Lower(levels[l], key) - 1))
      && (half ==> prev[level] in next[level] && Node(key) in next[level] && next[level][Node(key)] == next[level][prev[level]])
  }

  ghost predicate WorldOk(q: Query, w: World) {
    Structure(w.next, w.levels) && WriterOk(w.next, w.levels, w.writer) && SearchOk(w.levels, q, w.search)
  }

  lemma BeginKeepsOk(q: Query, w: World, e: Event, v: World)
    requires WorldOk(q, w) && Happens(q, w, e, v) && e.Begin?
    ensures WorldOk(q, v)
  {
    StructureHasLevels(w.next, w.levels);
    hide Lower;
    NowhereElse(w.next, w.levels, e.key);
  }

  /** The node's own pointer is set while no other pointer leads to it. */
  lemma SetNextKeepsOk(q: Query, w: World, v: World)
    requires WorldOk(q, w) && Happens(q, w, SetNext, v)
    ensures WorldOk(q, v) && v.levels == w.levels
  {
    hide Structure, SearchOk, Lower, Linked;
    LinkKeepsStructure(w.next, w.levels, w.writer.key, w.writer.level);
  }

  /** Publishing makes the node part of the level. */
  lemma PublishKeepsOk(q: Query, w: World, v: World)
    requires WorldOk(q, w) && Happens(q, w, Publish, v)
    ensures WorldOk(q, v) && forall k :: k in w.levels[0] ==> k in v.levels[0]
  {
    hide Structure, SearchOk, Lower, Linked;
    var Linking(key, _, prev, level, _) := w.writer;
    StructureHasLevels(w.next, w.levels);
    LevelAscends(w.next, w.levels, level);
    LinkKeepsStructure(w.next, w.levels, key, level);
    LinkedIs(w.levels[level], key);
    var half := w.next[level][Node(key) := w.next[level][prev[level]]];
    assert half == w.next[level];
    PublishKeepsSearch(q, w, v);
  }

  lemma PublishKeepsSearch(q: Query, w: World, v: World)
    requires SearchOk(w.levels, q, w.search) && v.search == w.search && |w.levels| == MAX_HEIGHT
    requires exists l, key :: 0 <= l < MAX_HEIGHT && v.levels == w.levels[l := Linked(w.levels[l], key)]
    ensures SearchOk(v.levels, q, v.search)
  {
    var l, key :| 0 <= l < MAX_HEIGHT && v.levels == w.levels[l := Linked(w.levels[l], key)];
    LinkedHolds(w.levels[l], key);
  }

  lemma LinkedHolds(keys: seq<UserKey>, key: UserKey)
    ensures forall k :: k in keys ==> k in Linked(keys, key)
  {
    hide Lower;
    var p := Lower(keys, key);
    assert keys == keys[..p] + keys[p..];
  }

  lemma IdleIsOk(next: seq<Links>, levels: seq<seq<UserKey>>)
    ensures WriterOk(next, levels, Idle)
  {
  }

  lemma HappensKeepsOk(q: Query, w: World, e: Event, v: World)
    requires WorldOk(q, w) && Happens(q, w, e, v)
    ensures WorldOk(q, v) && |w.levels| == |v.levels| == MAX_HEIGHT && forall k :: k in w.levels[0] ==> k in v.levels[0]
    ensures e.ReadPointer? ==> v.levels == w.levels
    ensures !e.ReadPointer? ==> v.search == w.search
    ensures e.ReadPointer? && v.search.Found? ==> v.search.r == Answer(v.levels[0], q)
  {
    hide Structure, SearchOk, WriterOk, Answer;
    StructureHasLevels(w.next, w.levels);
    match e
    case Begin(_, _, _) => BeginKeepsOk(q, w, e, v);
    case SetNext => SetNextKeepsOk(q, w, v);
    case Publish => PublishKeepsOk(q, w, v);
    case End => IdleIsOk(v.next, v.levels);
    case ReadPointer => SearchStepOk(w.next, w.levels, q, w.search);
  }

  /** `run` is what the writer and a reader with query `q` do, in any interleaving. */
  ghost predicate IsRun(q: Query, run: seq<World>, events: seq<Event>) {
    && |run| == |events| + 1 && (forall j :: 0 <= j < |events| ==> Happens(q, run[j], events[j], run[j + 1]))
    && Structure(run[0].next, run[0].levels) && run[0].writer.Idle?
    && run[0].search.At? && run[0].search.x == Head && run[0].search.level < MAX_HEIGHT
  }

  /**
   * A search that runs while nodes are being inserted, its steps falling anywhere between the
   * writer's single pointer writes, returns at its last step the exact answer for the keys linked at
   * that moment, which include all that were there when it began.
   */
  lemma {:induction false} SearchIsAtomic(q: Query, run: seq<World>, events: seq<Event>, i: nat)
    requires IsRun(q, run, events) && i < |run|
    ensures WorldOk(q, run[i]) && |run[0].levels| == |run[i].levels| == MAX_HEIGHT
    ensures forall k :: k in run[0].levels[0] ==> k in run[i].levels[0]
    ensures 0 < i && run[i].search.Found? && run[i - 1].search.At? ==> run[i].search.r == Answer(run[i].levels[0], q)
  {
    hide Structure, SearchOk, WriterOk, Happens, Answer;
    if i == 0 {
      StructureHasLevels(run[0].next, run[0].levels);
      StartIsOk(q, run[0]);
    } else {
      SearchIsAtomic(q, run, events, i - 1);
      assert Happens(q, run[i - 1], events[i - 1], run[i - 1 + 1]);
      HappensKeepsOk(q, run[i - 1], events[i - 1], run[i]);
    }
  }

  lemma StartIsOk(q: Query, w: World)
    requires w.search.At? && w.search.x == Head && w.search.level < MAX_HEIGHT && w.writer.Idle?
    ensures SearchOk(w.levels, q, w.search) && WriterOk(w.next, w.levels, w.writer)
  {
  }
}
