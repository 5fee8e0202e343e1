/** Group commit: the writer queue of DBImpl::Write under every interleaving (db/db_impl, db/write_batch). */
module GroupCommit {
  import opened Common
  import opened DbFormat
  import opened DbRun

  type Id = nat

  /** A caller of Write; no batch means a request for a new memtable. */
  datatype Writer = Writer(batch: Option<seq<Operation>>, sync: bool)

  // ---------- which writers a leader takes along ----------

  function Ops(w: Writer): seq<Operation> {
    if w.batch.Some? then w.batch.value else []
  }

  function BatchesOf(ws: seq<Writer>): seq<Operation> {
    if ws == [] then [] else BatchesOf(ws[..|ws| - 1]) + Ops(ws[|ws| - 1])
  }

  /** Bytes of the batches among the first writers. */
  function GroupSize(ws: seq<Writer>, byteSize: seq<Operation> -> nat): nat {
    if ws == [] then 0
    else GroupSize(ws[..|ws| - 1], byteSize) +
         if ws[|ws| - 1].batch.Some? then byteSize(ws[|ws| - 1].batch.value) else 0
  }

  function MaxSize(first: nat): nat {
    if first <= 0x2_0000 then first + 0x2_0000 else 0x10_0000
  }

  /** A writer that cannot join the group of the `i` writers before it. */
  predicate Breaks(ws: seq<Writer>, byteSize: seq<Operation> -> nat, i: nat)
    requires 0 < i < |ws|
  {
    || (ws[i].sync && !ws[0].sync)
    || (ws[i].batch.Some? && GroupSize(ws[..i + 1], byteSize) > MaxSize(GroupSize(ws[..1], byteSize)))
  }

  /** The group is the longest prefix none of whose members breaks it. */
  ghost predicate IsGroup(ws: seq<Writer>, byteSize: seq<Operation> -> nat, n: nat) {
    && 0 < n <= |ws|
    && (forall i :: 0 < i < n ==> !Breaks(ws, byteSize, i))
    && (n < |ws| ==> Breaks(ws, byteSize, n))
  }

  /**
   * A leader's batch of at most 128 KB takes at most 128 KB along, and a larger one fills up to 1 MB;
   * who is left out waits for a leader that syncs, or would have gone past that bound.
   */
  ghost predicate Bounded(ws: seq<Writer>, byteSize: seq<Operation> -> nat, n: nat)
    requires 0 < n <= |ws|
  {
    var first, all := GroupSize(ws[..1], byteSize), GroupSize(ws[..n], byteSize);
    && (first <= 131_072 ==> all <= first + 131_072)
    && (first > 131_072 ==> all <= first || all <= 1_048_576)
    && (n < |ws| && GroupSize(ws[..n + 1], byteSize) <= (if first <= 131_072 then first + 131_072 else 1_048_576) ==>
          ws[n].sync && !ws[0].sync)
  }

  lemma {:induction false} GroupIsBounded(ws: seq<Writer>, byteSize: seq<Operation> -> nat, n: nat)
    requires IsGroup(ws, byteSize, n)
    ensures Bounded(ws, byteSize, n)
  {
    hide GroupSize;
    MembersAreBounded(ws, byteSize, n, n);
  }

  lemma {:induction false} MembersAreBounded(ws: seq<Writer>, byteSize: seq<Operation> -> nat, n: nat, m: nat)
    requires IsGroup(ws, byteSize, n) && 0 < m <= n
    ensures GroupSize(ws[..m], byteSize) <= GroupSize(ws[..1], byteSize) ||
            GroupSize(ws[..m], byteSize) <= MaxSize(GroupSize(ws[..1], byteSize))
    decreases m
  {
    hide GroupSize;
    if 1 < m {
      MembersAreBounded(ws, byteSize, n, m - 1);
      PrefixSteps(ws, m - 1, byteSize);
      assert ws[..m - 1 + 1] == ws[..m] && !Breaks(ws, byteSize, m - 1);
    }
  }

  lemma PrefixSteps(ws: seq<Writer>, i: nat, byteSize: seq<Operation> -> nat)
    requires i < |ws|
    ensures BatchesOf(ws[..i + 1]) == BatchesOf(ws[..i]) + Ops(ws[i])
    ensures GroupSize(ws[..i + 1], byteSize) ==
            GroupSize(ws[..i], byteSize) + if ws[i].batch.Some? then byteSize(ws[i].batch.value) else 0
    ensures BatchesOf(ws[..0]) == [] && GroupSize(ws[..0], byteSize) == 0
  {
    assert ws[..i + 1][..i] == ws[..i];
  }

  /** DBImpl::BuildBatchGroup. `tmpBatch` is used once a second batch joins. */
  method BuildBatchGroup(ws: seq<Writer>, byteSize: seq<Operation> -> nat) returns (result: seq<Operation>, n: nat)
    requires ws != [] && ws[0].batch.Some?
    ensures IsGroup(ws, byteSize, n) && result == BatchesOf(ws[..n]) && Bounded(ws, byteSize, n)
  {
    hide BatchesOf, GroupSize, Bounded;
    var first := ws[0];
    result := first.batch.value;
    var size := byteSize(first.batch.value);
    var maxSize := 0x10_0000;
    if size <= 0x2_0000 {
      maxSize := size + 0x2_0000;
    }
    PrefixSteps(ws, 0, byteSize);
    n := 1;
    while n < |ws|
      invariant 1 <= n <= |ws| && result == BatchesOf(ws[..n])
      invariant size == GroupSize(ws[..n], byteSize) && maxSize == MaxSize(GroupSize(ws[..1], byteSize))
      invariant forall i :: 0 < i < n ==> !Breaks(ws, byteSize, i)
    {
      var w := ws[n];
      PrefixSteps(ws, n, byteSize);
      if w.sync && !first.sync {
        break;
      }
      if w.batch.Some? {
        size := size + byteSize(w.batch.value);
        if size > maxSize {
          break;
        }
        result := result + w.batch.value;
      }
      n := n + 1;
    }
    GroupIsBounded(ws, byteSize, n);
  }

  // ---------- the state machine ----------

  /** Where a writer is inside Write. */
  datatype Pc =
    | Waiting
    | MakingRoom
    | Logging(n: nat, first: nat, ops: seq<Operation>)
    | Inserting(n: nat, first: nat, ops: seq<Operation>, inserted: nat)
    | Failed(n: nat, first: nat, ops: seq<Operation>)
    | Done(ok: bool)

  datatype Record = Record(first: nat, ops: seq<Operation>)

  /** A finished group: who was in it, the numbers it used, and how it ended. */
  datatype Group = Group(members: seq<Id>, first: nat, ops: seq<Operation>, ok: bool)

  /**
   * `contents` is what the memtables hold. `arrivals` and `groups` only record the past: who came,
   * in order, and which groups were finished.
   */
  datatype State = State(queue: seq<Id>, writers: map<Id, Writer>, pc: map<Id, Pc>, contents: set<Entry>, log: seq<Record>,
                         lastSequence: nat, arrivals: seq<Id>, groups: seq<Group>)

  datatype Step =
    | Enqueue(id: Id, writer: Writer)
    | Lead(id: Id)
    | RoomFailed(id: Id)
    | NoBatch(id: Id)
    | Build(id: Id, n: nat)
    | AddRecord(id: Id)
    | LogFailed(id: Id, written: bool)
    | InsertOne(id: Id)
    | Finish(id: Id)

  function WritersOf(ids: seq<Id>, writers: map<Id, Writer>): seq<Writer>
    requires forall id :: id in ids ==> id in writers
  {
    seq(|ids|, i requires 0 <= i < |ids| => writers[ids[i]])
  }

  function QueuedWriters(s: State): seq<Writer>
    requires forall id :: id in s.queue ==> id in s.writers
  {
    WritersOf(s.queue, s.writers)
  }

  /** The pops at the end of Write: the first `n` writers leave with one status. */
  function PopGroup(s: State, n: nat, first: nat, ops: seq<Operation>, ok: bool): State
    requires n <= |s.queue| && 0 < first
  {
    s.(queue := s.queue[n..],
       pc := map id | id in s.pc :: if id in s.queue[..n] then Done(ok) else s.pc[id],
       lastSequence := first + |ops| - 1,
       groups := s.groups + [Group(s.queue[..n], first, ops, ok)])
  }

  /**
   * One step of one thread, each made while holding the mutex or while being the only thread that
   * may touch what it touches. A thread only looks at its own place and at the queue.
   */
  ghost predicate Next(s: State, byteSize: seq<Operation> -> nat, step: Step, t: State) {
    match step
    case Enqueue(id, w) =>
      && id !in s.writers
      && t == s.(queue := s.queue + [id], writers := s.writers[id := w], pc := s.pc[id := Waiting], arrivals := s.arrivals + [id])
    case Lead(id) =>
      && id in s.pc && s.pc[id] == Waiting && s.queue != [] && s.queue[0] == id
      && t == s.(pc := s.pc[id := MakingRoom])
    case RoomFailed(id) =>
      && id in s.pc && s.pc[id] == MakingRoom && s.queue != []
      && t == PopGroup(s, 1, s.lastSequence + 1, [], false)
    case NoBatch(id) =>
      && id in s.pc && s.pc[id] == MakingRoom && s.queue != [] && id in s.writers && s.writers[id].batch.None?
      && t == PopGroup(s, 1, s.lastSequence + 1, [], true)
    case Build(id, n) =>
      && id in s.pc && s.pc[id] == MakingRoom && id in s.writers && s.writers[id].batch.Some?
      && (forall j :: j in s.queue ==> j in s.writers) && IsGroup(QueuedWriters(s), byteSize, n)
      && t == s.(pc := s.pc[id := Logging(n, s.lastSequence + 1, BatchesOf(QueuedWriters(s)[..n]))])
    case AddRecord(id) =>
      && id in s.pc && s.pc[id].Logging?
      && t == s.(pc := s.pc[id := Inserting(s.pc[id].n, s.pc[id].first, s.pc[id].ops, 0)],
                 log := s.log + [Record(s.pc[id].first, s.pc[id].ops)])
    case LogFailed(id, written) =>
      && id in s.pc && s.pc[id].Logging?
      && t == s.(pc := s.pc[id := Failed(s.pc[id].n, s.pc[id].first, s.pc[id].ops)],
                 log := s.log + if written then [Record(s.pc[id].first, s.pc[id].ops)] else [])
    case InsertOne(id) =>
      && id in s.pc && s.pc[id].Inserting? && s.pc[id].inserted < |s.pc[id].ops|
      && var i := s.pc[id].inserted;
        t == s.(pc := s.pc[id := s.pc[id].(inserted := i + 1)],
                contents := s.contents + {EntryOf(s.pc[id].ops[i], s.pc[id].first + i)})
    case Finish(id) =>
      && id in s.pc && (s.pc[id].Failed? || (s.pc[id].Inserting? && s.pc[id].inserted == |s.pc[id].ops|))
      && s.pc[id].n <= |s.queue| && 0 < s.pc[id].first
      && t == PopGroup(s, s.pc[id].n, s.pc[id].first, s.pc[id].ops, s.pc[id].Inserting?)
  }

  const initial: State := State([], map[], map[], {}, [], 0, [], [])

  // ---------- what finished groups amount to ----------

  function Members(groups: seq<Group>): seq<Id> {
    if groups == [] then [] else Members(groups[..|groups| - 1]) + groups[|groups| - 1].members
  }

  function GroupEntries(g: Group): set<Entry> {
    if g.ok then Contents(BatchEntries(g.ops, g.first)) else {}
  }

  function Applied(groups: seq<Group>): set<Entry> {
    if groups == [] then {} else Applied(groups[..|groups| - 1]) + GroupEntries(groups[|groups| - 1])
  }

  /** The number after the last one used. */
  function NextSequence(groups: seq<Group>): nat {
    if groups == [] then 1 else groups[|groups| - 1].first + |groups[|groups| - 1].ops|
  }

  /** Numbers are handed out group after group, without a gap and never twice. */
  ghost predicate Gapless(groups: seq<Group>) {
    forall i :: 0 <= i < |groups| ==> groups[i].first == NextSequence(groups[..i])
  }

  /** A group that went wrong before it was built has only its leader and no operations. */
  ghost predicate WellGrouped(g: Group, writers: map<Id, Writer>) {
    && g.members != [] && (forall id :: id in g.members ==> id in writers)
    && (forall id :: id in g.members && writers[id].sync ==> writers[g.members[0]].sync)
    && (g.ops == BatchesOf(WritersOf(g.members, writers)) ||
        (!g.ok && g.ops == [] && |g.members| == 1))
  }

  predicate NoDuplicates(ids: seq<Id>) {
    forall i, j :: 0 <= i < j < |ids| ==> ids[i] != ids[j]
  }

  /** The part of a group under way that is already in the memtable. */
  function UnderWay(front: Pc): set<Entry> {
    if front.Inserting? && front.inserted <= |front.ops| then
      Contents(BatchEntries(front.ops, front.first)[..front.inserted])
    else {}
  }

  /** What a built group of the current leader promises until it is popped. */
  ghost predicate LeaderOk(s: State, n: nat, first: nat, ops: seq<Operation>) {
    && 0 < n <= |s.queue| && first == s.lastSequence + 1
    && WellGrouped(Group(s.queue[..n], first, ops, true), s.writers)
  }

  /** Everyone who arrived was popped with a group or is still queued, in order of arrival. */
  ghost predicate ArrivalsOk(arrivals: seq<Id>, groups: seq<Group>, queue: seq<Id>, writers: map<Id, Writer>) {
    && NoDuplicates(arrivals) && arrivals == Members(groups) + queue
    && forall id :: id in arrivals <==> id in writers
  }

  ghost predicate QueuePcs(queue: seq<Id>, pc: map<Id, Pc>) {
    && (forall i :: 0 <= i < |queue| ==> queue[i] in pc)
    && (forall i :: 0 < i < |queue| ==> pc[queue[i]] == Waiting)
    && (queue != [] ==> !pc[queue[0]].Done?)
  }

  ghost predicate GroupsDone(groups: seq<Group>, pc: map<Id, Pc>) {
    forall g, id :: g in groups && id in g.members ==> id in pc && pc[id] == Done(g.ok)
  }

  ghost predicate QueueOk(s: State) {
    && ArrivalsOk(s.arrivals, s.groups, s.queue, s.writers) && s.pc.Keys == s.writers.Keys
    && QueuePcs(s.queue, s.pc) && GroupsDone(s.groups, s.pc)
  }

  ghost predicate HistoryOk(groups: seq<Group>, writers: map<Id, Writer>, lastSequence: nat) {
    && (forall g :: g in groups ==> WellGrouped(g, writers))
    && Gapless(groups) && lastSequence + 1 == NextSequence(groups)
  }

  /** The thread at the front of the queue. */
  function Front(s: State): Pc {
    if s.queue != [] && s.queue[0] in s.pc then s.pc[s.queue[0]] else Waiting
  }

  ghost predicate StageOk(s: State) {
    match Front(s)
    case Logging(n, first, ops) => LeaderOk(s, n, first, ops)
    case Inserting(n, first, ops, inserted) => LeaderOk(s, n, first, ops) && inserted <= |ops|
    case Failed(n, first, ops) => LeaderOk(s, n, first, ops)
    case _ => true
  }

  /** The end of the numbers the log may hold: those of a group under way once its record is written. */
  function LogEnd(s: State): nat {
    match Front(s)
    case Inserting(_, first, ops, _) => first + |ops|
    case Failed(_, first, ops) => first + |ops|
    case _ => s.lastSequence + 1
  }

  /** Records never share a number. */
  ghost predicate Ascends(log: seq<Record>, end: nat) {
    && (forall i, j :: 0 <= i < j < |log| ==> log[i].first + |log[i].ops| <= log[j].first)
    && forall r :: r in log ==> r.first + |r.ops| <= end
  }

  /** Write-ahead: what is in memory, or on its way there, has its record in the log. */
  ghost predicate Logged(groups: seq<Group>, front: Pc, log: seq<Record>) {
    && (forall g :: g in groups && g.ok && g.ops != [] ==> Record(g.first, g.ops) in log)
    && (front.Inserting? ==> Record(front.first, front.ops) in log)
  }

  ghost predicate Invariant(s: State) {
    && QueueOk(s) && HistoryOk(s.groups, s.writers, s.lastSequence) && StageOk(s)
    && Ascends(s.log, LogEnd(s)) && Logged(s.groups, Front(s), s.log)
    && s.contents == Applied(s.groups) + UnderWay(Front(s))
  }

  // ---------- the invariant is kept ----------

  lemma {:induction false} InMembers(groups: seq<Group>, id: Id) returns (g: Group)
    requires id in Members(groups)
    ensures g in groups && id in g.members
  {
    var n := |groups| - 1;
    if id in groups[n].members {
      g := groups[n];
    } else {
      g := InMembers(groups[..n], id);
    }
  }

  /** Only the front of the queue can be past waiting without being done: at most one writer leads. */
  lemma LeaderIsFront(s: State, id: Id)
    requires QueueOk(s) && id in s.pc && s.pc[id] != Waiting && !s.pc[id].Done?
    ensures s.queue != [] && s.queue[0] == id
  {
    assert id in s.arrivals;
    if id in Members(s.groups) {
      var g := InMembers(s.groups, id);
    }
    assert id in s.queue;
  }

  lemma {:induction false} MembersHold(groups: seq<Group>, g: Group, id: Id)
    requires g in groups && id in g.members
    ensures id in Members(groups)
  {
    var n := |groups| - 1;
    if g != groups[n] {
      assert g in groups[..n];
      MembersHold(groups[..n], g, id);
    }
  }

  lemma SplitHasNoDuplicates(a: seq<Id>, b: seq<Id>)
    requires NoDuplicates(a + b)
    ensures forall id :: id in a ==> id !in b
    ensures NoDuplicates(b)
  {
    forall i, j | 0 <= i < |a| && 0 <= j < |b|
      ensures a[i] != b[j]
    {
      assert (a + b)[i] == a[i] && (a + b)[|a| + j] == b[j];
    }
    forall i, j | 0 <= i < j < |b|
      ensures b[i] != b[j]
    {
      assert (a + b)[|a| + i] == b[i] && (a + b)[|a| + j] == b[j];
    }
  }

  lemma QueuedAreKnown(s: State)
    requires QueueOk(s)
    ensures forall id :: id in s.queue ==> id in s.writers && id in s.pc
    ensures forall id, g :: g in s.groups && id in g.members ==> id !in s.queue
    ensures NoDuplicates(s.queue)
  {
    SplitHasNoDuplicates(Members(s.groups), s.queue);
    forall id | id in s.queue
      ensures id in s.writers && id in s.pc
    {
      assert id in s.arrivals;
    }
    forall id, g | g in s.groups && id in g.members
      ensures id !in s.queue
    {
      MembersHold(s.groups, g, id);
    }
  }

  lemma GroupAppended(groups: seq<Group>, g: Group)
    ensures Members(groups + [g]) == Members(groups) + g.members
    ensures Applied(groups + [g]) == Applied(groups) + GroupEntries(g)
    ensures NextSequence(groups + [g]) == g.first + |g.ops|
    ensures Gapless(groups) && g.first == NextSequence(groups) ==> Gapless(groups + [g])
  {
    var all := groups + [g];
    assert all[..|groups|] == groups;
    forall i | 0 <= i < |groups|
      ensures all[i] == groups[i] && all[..i] == groups[..i]
    {
    }
  }

  lemma WritersGrow(g: Group, writers: map<Id, Writer>, id: Id, w: Writer)
    requires WellGrouped(g, writers) && id !in writers
    ensures WellGrouped(g, writers[id := w])
  {
    assert WritersOf(g.members, writers) == WritersOf(g.members, writers[id := w]);
  }

  lemma EnqueueArrives(arrivals: seq<Id>, groups: seq<Group>, queue: seq<Id>, writers: map<Id, Writer>, id: Id, w: Writer)
    requires ArrivalsOk(arrivals, groups, queue, writers) && id !in writers
    ensures ArrivalsOk(arrivals + [id], groups, queue + [id], writers[id := w])
  {
    hide Members;
    assert id !in arrivals;
  }

  lemma EnqueueKeepsQueue(s: State, id: Id, w: Writer, t: State, byteSize: seq<Operation> -> nat)
    requires QueueOk(s) && Next(s, byteSize, Enqueue(id, w), t)
    ensures QueueOk(t) && Front(t) == Front(s)
  {
    hide ArrivalsOk;
    EnqueueArrives(s.arrivals, s.groups, s.queue, s.writers, id, w);
  }

  lemma EnqueueKeepsHistory(s: State, id: Id, w: Writer)
    requires HistoryOk(s.groups, s.writers, s.lastSequence) && id !in s.writers
    ensures HistoryOk(s.groups, s.writers[id := w], s.lastSequence)
  {
    forall g | g in s.groups
      ensures WellGrouped(g, s.writers[id := w])
    {
      WritersGrow(g, s.writers, id, w);
    }
  }

  lemma EnqueueKeepsLeader(s: State, id: Id, w: Writer, t: State, n: nat, first: nat, ops: seq<Operation>)
    requires LeaderOk(s, n, first, ops) && id !in s.writers && t.writers == s.writers[id := w]
    requires t.queue == s.queue + [id] && t.lastSequence == s.lastSequence
    ensures LeaderOk(t, n, first, ops)
  {
    assert t.queue[..n] == s.queue[..n];
    WritersGrow(Group(s.queue[..n], first, ops, true), s.writers, id, w);
  }

  lemma EnqueueKeeps(s: State, id: Id, w: Writer, t: State, byteSize: seq<Operation> -> nat)
    requires Invariant(s) && Next(s, byteSize, Enqueue(id, w), t)
    ensures Invariant(t)
  {
    hide QueueOk, HistoryOk, LeaderOk, Ascends, Logged;
    EnqueueKeepsQueue(s, id, w, t, byteSize);
    EnqueueKeepsHistory(s, id, w);
    if Front(s).Logging? || Front(s).Inserting? || Front(s).Failed? {
      EnqueueKeepsLeader(s, id, w, t, Front(s).n, Front(s).first, Front(s).ops);
    }
  }

  /** The front thread moves on without touching the queue. */
  lemma LeaderMoves(s: State, id: Id, pc: Pc, t: State)
    requires QueueOk(s) && s.queue != [] && s.queue[0] == id && !pc.Done?
    requires t == s.(pc := s.pc[id := pc], contents := t.contents, log := t.log)
    ensures QueueOk(t) && Front(t) == pc
  {
    QueuedAreKnown(s);
    FrontChanges(s.queue, s.pc, id, pc);
    QueuedStayDone(s.groups, s.pc, id, pc) by { hide ArrivalsOk, QueuePcs; }
    hide ArrivalsOk, GroupsDone, QueuePcs, NoDuplicates;
  }

  lemma FrontChanges(queue: seq<Id>, pcs: map<Id, Pc>, id: Id, pc: Pc)
    requires QueuePcs(queue, pcs) && NoDuplicates(queue) && queue != [] && queue[0] == id && !pc.Done?
    ensures QueuePcs(queue, pcs[id := pc])
  {
  }

  lemma QueuedStayDone(groups: seq<Group>, pcs: map<Id, Pc>, id: Id, pc: Pc)
    requires GroupsDone(groups, pcs) && forall g :: g in groups ==> id !in g.members
    ensures GroupsDone(groups, pcs[id := pc])
  {
  }

  lemma FrontIs(s: State, id: Id)
    requires QueueOk(s) && id in s.pc && s.pc[id] != Waiting && !s.pc[id].Done?
    ensures s.queue != [] && s.queue[0] == id && Front(s) == s.pc[id]
  {
    LeaderIsFront(s, id);
  }

  lemma LeadKeeps(s: State, id: Id, t: State, byteSize: seq<Operation> -> nat)
    requires Invariant(s) && Next(s, byteSize, Lead(id), t)
    ensures Invariant(t)
  {
    hide QueueOk, HistoryOk, Ascends, Logged;
    LeaderMoves(s, id, MakingRoom, t);
    assert Logged(t.groups, Front(t), t.log) by { LoggedForFront(s.groups, Front(s), Front(t), s.log); }
  }

  lemma LoggedForFront(groups: seq<Group>, front: Pc, front': Pc, log: seq<Record>)
    requires Logged(groups, front, log) && (front'.Inserting? ==> Record(front'.first, front'.ops) in log)
    ensures Logged(groups, front', log)
  {
  }

  lemma BuildKeeps(s: State, id: Id, n: nat, t: State, byteSize: seq<Operation> -> nat)
    requires Invariant(s) && Next(s, byteSize, Build(id, n), t)
    ensures Invariant(t)
  {
    hide QueueOk, HistoryOk, Ascends, Logged, WellGrouped, IsGroup;
    IsGroupFits(QueuedWriters(s), byteSize, n);
    FrontIs(s, id);
    LeaderMoves(s, id, Logging(n, s.lastSequence + 1, BatchesOf(QueuedWriters(s)[..n])), t);
    BuiltIsWellGrouped(s, n, byteSize);
    LoggedForFront(s.groups, Front(s), Front(t), s.log);
  }

  lemma IsGroupFits(ws: seq<Writer>, byteSize: seq<Operation> -> nat, n: nat)
    requires IsGroup(ws, byteSize, n)
    ensures 0 < n <= |ws|
  {
  }

  lemma BuiltIsWellGrouped(s: State, n: nat, byteSize: seq<Operation> -> nat)
    requires (forall id :: id in s.queue ==> id in s.writers) && IsGroup(QueuedWriters(s), byteSize, n)
    ensures WellGrouped(Group(s.queue[..n], s.lastSequence + 1, BatchesOf(QueuedWriters(s)[..n]), true), s.writers)
  {
    hide BatchesOf;
    var ws := QueuedWriters(s);
    var members := s.queue[..n];
    forall i | 0 < i < n && ws[i].sync
      ensures ws[0].sync
    {
      assert !Breaks(ws, byteSize, i);
    }
    forall id | id in members
      ensures id in s.writers && (s.writers[id].sync ==> s.writers[members[0]].sync)
    {
      var i :| 0 <= i < n && s.queue[i] == id;
      assert ws[i] == s.writers[id];
    }
    assert WritersOf(members, s.writers) == ws[..n];
  }

  lemma AppendRecord(log: seq<Record>, r: Record)
    requires Ascends(log, r.first)
    ensures Ascends(log + [r], r.first + |r.ops|) && r in log + [r]
  {
    assert (log + [r])[|log|] == r;
  }

  lemma LoggedMore(groups: seq<Group>, front: Pc, front': Pc, log: seq<Record>, log': seq<Record>)
    requires Logged(groups, front, log) && (forall r :: r in log ==> r in log')
    requires front'.Inserting? ==> Record(front'.first, front'.ops) in log'
    ensures Logged(groups, front', log')
  {
  }

  lemma LoggedKeeps(s: State, id: Id, t: State, byteSize: seq<Operation> -> nat, step: Step)
    requires Invariant(s) && (step == AddRecord(id) || step == LogFailed(id, true) || step == LogFailed(id, false))
    requires Next(s, byteSize, step, t)
    ensures Invariant(t)
  {
    hide QueueOk, HistoryOk, WellGrouped, Logged, Ascends;
    FrontIs(s, id);
    LeaderMoves(s, id, t.pc[id], t);
    var r := Record(s.pc[id].first, s.pc[id].ops);
    AppendRecord(s.log, r);
    EndGrows(s.log, r.first, r.first + |r.ops|);
    assert step == LogFailed(id, false) ==> t.log == s.log;
    LoggedMore(s.groups, Front(s), Front(t), s.log, t.log);
    assert UnderWay(Front(t)) == {} == UnderWay(Front(s));
  }

  lemma EndGrows(log: seq<Record>, end: nat, end': nat)
    requires Ascends(log, end) && end <= end'
    ensures Ascends(log, end')
  {
  }

  lemma InsertKeeps(s: State, id: Id, t: State, byteSize: seq<Operation> -> nat)
    requires Invariant(s) && Next(s, byteSize, InsertOne(id), t)
    ensures Invariant(t)
  {
    hide QueueOk, HistoryOk, WellGrouped, Logged, Ascends, BatchEntries, Contents;
    FrontIs(s, id);
    LeaderMoves(s, id, t.pc[id], t);
    LoggedMore(s.groups, Front(s), Front(t), s.log, t.log) by { LoggedFront(s.groups, Front(s), s.log); }
    InsertedOne(s.pc[id].ops, s.pc[id].first, s.pc[id].inserted);
  }

  lemma LoggedFront(groups: seq<Group>, front: Pc, log: seq<Record>)
    requires Logged(groups, front, log) && front.Inserting?
    ensures Record(front.first, front.ops) in log
  {
  }

  lemma InsertedOne(ops: seq<Operation>, first: nat, i: nat)
    requires i < |ops|
    ensures |BatchEntries(ops, first)| == |ops|
    ensures Contents(BatchEntries(ops, first)[..i + 1]) == Contents(BatchEntries(ops, first)[..i]) + {EntryOf(ops[i], first + i)}
  {
    PrefixStep(BatchEntries(ops, first), i);
  }

  lemma PopKeepsQueue(s: State, n: nat, first: nat, ops: seq<Operation>, ok: bool)
    requires QueueOk(s) && 0 < n <= |s.queue| && 0 < first
    ensures QueueOk(PopGroup(s, n, first, ops, ok)) && Front(PopGroup(s, n, first, ops, ok)) == Waiting
  {
    var t := PopGroup(s, n, first, ops, ok);
    QueuedAreKnown(s);
    QueueSplits(s, n);
    GroupAppended(s.groups, Group(s.queue[..n], first, ops, ok));
    RestWaits(s.queue, n, s.pc, ok);
    PoppedAreDone(s.groups, s.pc, Group(s.queue[..n], first, ops, ok)) by { hide ArrivalsOk; }
    hide NoDuplicates, Members, QueuePcs, GroupsDone;
  }

  lemma RestWaits(queue: seq<Id>, n: nat, pc: map<Id, Pc>, ok: bool)
    requires QueuePcs(queue, pc) && 0 < n <= |queue| && forall id :: id in queue[n..] ==> id !in queue[..n]
    ensures var pc' := map id | id in pc :: if id in queue[..n] then Done(ok) else pc[id];
            QueuePcs(queue[n..], pc') && (n < |queue| ==> pc'[queue[n]] == Waiting)
  {
    forall i | 0 <= i < |queue[n..]|
      ensures queue[n..][i] == queue[n + i] && queue[n + i] !in queue[..n]
    {
      assert queue[n..][i] in queue[n..];
    }
  }

  lemma QueueSplits(s: State, n: nat)
    requires NoDuplicates(s.queue) && 0 < n <= |s.queue|
    ensures forall id :: id in s.queue[n..] ==> id !in s.queue[..n] && id in s.queue
    ensures forall id :: id in s.queue[..n] ==> id in s.queue
    ensures Members(s.groups) + s.queue == Members(s.groups) + s.queue[..n] + s.queue[n..]
  {
    assert s.queue == s.queue[..n] + s.queue[n..];
    SplitHasNoDuplicates(s.queue[..n], s.queue[n..]);
  }

  lemma PoppedAreDone(groups: seq<Group>, pc: map<Id, Pc>, g: Group)
    requires GroupsDone(groups, pc) && (forall h, id :: h in groups && id in h.members ==> id !in g.members)
    requires forall id :: id in g.members ==> id in pc
    ensures GroupsDone(groups + [g], map id | id in pc :: if id in g.members then Done(g.ok) else pc[id])
  {
  }

  lemma HistoryGrows(groups: seq<Group>, writers: map<Id, Writer>, lastSequence: nat, g: Group)
    requires HistoryOk(groups, writers, lastSequence) && WellGrouped(g, writers) && g.first == lastSequence + 1
    ensures HistoryOk(groups + [g], writers, g.first + |g.ops| - 1)
  {
    hide WellGrouped;
    GroupAppended(groups, g);
  }

  lemma LoggedGroup(groups: seq<Group>, front: Pc, log: seq<Record>, g: Group)
    requires Logged(groups, front, log) && (g.ok && g.ops != [] ==> Record(g.first, g.ops) in log)
    ensures Logged(groups + [g], Waiting, log)
  {
  }

  lemma PopKeeps(s: State, n: nat, first: nat, ops: seq<Operation>, ok: bool)
    requires Invariant(s) && 0 < n <= |s.queue| && first == s.lastSequence + 1
    requires WellGrouped(Group(s.queue[..n], first, ops, ok), s.writers)
    requires UnderWay(Front(s)) == GroupEntries(Group(s.queue[..n], first, ops, ok))
    requires LogEnd(s) <= first + |ops|
    requires ok && ops != [] ==> Record(first, ops) in s.log
    ensures Invariant(PopGroup(s, n, first, ops, ok))
  {
    hide QueueOk, WellGrouped, HistoryOk, Logged, Ascends, Members;
    var g := Group(s.queue[..n], first, ops, ok);
    PopKeepsQueue(s, n, first, ops, ok);
    HistoryGrows(s.groups, s.writers, s.lastSequence, g);
    LoggedGroup(s.groups, Front(s), s.log, g);
    EndGrows(s.log, LogEnd(s), first + |ops|);
    GroupAppended(s.groups, g);
  }

  lemma AloneIsWellGrouped(s: State, ok: bool)
    requires s.queue != [] && s.queue[0] in s.writers && (ok ==> s.writers[s.queue[0]].batch.None?)
    ensures WellGrouped(Group(s.queue[..1], s.lastSequence + 1, [], ok), s.writers)
    ensures GroupEntries(Group(s.queue[..1], s.lastSequence + 1, [], ok)) == {}
  {
    var g := Group(s.queue[..1], s.lastSequence + 1, [], ok);
    var ws := WritersOf(g.members, s.writers);
    assert ok ==> ws[..0] == [] && BatchesOf(ws) == [];
  }

  lemma AloneKeeps(s: State, id: Id, ok: bool, t: State, byteSize: seq<Operation> -> nat)
    requires Invariant(s) && Next(s, byteSize, if ok then NoBatch(id) else RoomFailed(id), t)
    ensures Invariant(t)
  {
    hide QueueOk, WellGrouped, HistoryOk, Logged, Ascends, GroupEntries, Applied;
    FrontIs(s, id);
    AloneIsWellGrouped(s, ok) by { QueuedAreKnown(s); }
    PopKeeps(s, 1, s.lastSequence + 1, [], ok);
  }

  lemma FinishKeeps(s: State, id: Id, t: State, byteSize: seq<Operation> -> nat)
    requires Invariant(s) && Next(s, byteSize, Finish(id), t)
    ensures Invariant(t)
  {
    hide QueueOk, HistoryOk, Logged, Ascends, Applied;
    FrontIs(s, id);
    var n, first, ops := s.pc[id].n, s.pc[id].first, s.pc[id].ops;
    assert BatchEntries(ops, first)[..|ops|] == BatchEntries(ops, first);
    if s.pc[id].Inserting? {
      LoggedFront(s.groups, Front(s), s.log);
    }
    PopKeeps(s, n, first, ops, s.pc[id].Inserting?);
  }

  lemma StepKeepsInvariant(s: State, byteSize: seq<Operation> -> nat, step: Step, t: State)
    requires Invariant(s) && Next(s, byteSize, step, t)
    ensures Invariant(t)
  {
    hide Invariant, Next;
    match step
    case Enqueue(id, w) => EnqueueKeeps(s, id, w, t, byteSize);
    case Lead(id) => LeadKeeps(s, id, t, byteSize);
    case RoomFailed(id) => AloneKeeps(s, id, false, t, byteSize);
    case NoBatch(id) => AloneKeeps(s, id, true, t, byteSize);
    case Build(id, n) => BuildKeeps(s, id, n, t, byteSize);
    case AddRecord(id) => LoggedKeeps(s, id, t, byteSize, step);
    case LogFailed(id, written) => LoggedKeeps(s, id, t, byteSize, step);
    case InsertOne(id) => InsertKeeps(s, id, t, byteSize);
    case Finish(id) => FinishKeeps(s, id, t, byteSize);
  }

  // ---------- what the invariant means ----------

  /** A run from the empty queue: `steps[i]` leads from `run[i]` to `run[i + 1]`, in any interleaving. */
  ghost predicate IsRun(run: seq<State>, steps: seq<Step>, byteSize: seq<Operation> -> nat) {
    && |run| == |steps| + 1 && run[0] == initial
    && forall i :: 0 <= i < |steps| ==> Next(run[i], byteSize, steps[i], run[i + 1])
  }

  lemma InitialOk()
    ensures Invariant(initial)
  {
    assert Members([]) + [] == [];
  }

  lemma {:induction false} RunKeepsInvariant(run: seq<State>, steps: seq<Step>, byteSize: seq<Operation> -> nat, i: nat)
    requires IsRun(run, steps, byteSize) && i < |run|
    ensures Invariant(run[i])
  {
    hide Invariant, Next;
    if i == 0 {
      InitialOk();
    } else {
      RunKeepsInvariant(run, steps, byteSize, i - 1);
      assert Next(run[i - 1], byteSize, steps[i - 1], run[i - 1 + 1]);
      StepKeepsInvariant(run[i - 1], byteSize, steps[i - 1], run[i]);
    }
  }

  predicate Leads(pc: Pc) {
    pc != Waiting && !pc.Done?
  }

  /** At most one writer is past the wait loop, and it is the oldest one queued. */
  lemma OneLeader(s: State, a: Id, b: Id)
    requires Invariant(s) && a in s.pc && b in s.pc && Leads(s.pc[a]) && Leads(s.pc[b])
    ensures a == b && s.queue != [] && s.queue[0] == a
  {
    LeaderIsFront(s, a);
    LeaderIsFront(s, b);
  }

  /** Everyone who came is popped exactly once, group after group, in order of arrival, or still waits. */
  lemma EveryWriterOnce(s: State, id: Id)
    requires Invariant(s) && id in s.writers
    ensures s.arrivals == Members(s.groups) + s.queue && NoDuplicates(s.arrivals)
    ensures s.pc[id].Done? <==> id in Members(s.groups)
    ensures id in s.queue <==> id !in Members(s.groups)
  {
    QueuedAreKnown(s);
    assert id in s.arrivals;
    if id in Members(s.groups) {
      var g := InMembers(s.groups, id);
    } else {
      assert id in s.queue;
    }
  }

  /** A status once given is never taken back or changed. */
  lemma DoneStaysDone(s: State, byteSize: seq<Operation> -> nat, step: Step, t: State, id: Id)
    requires Invariant(s) && Next(s, byteSize, step, t) && id in s.pc && s.pc[id].Done?
    ensures id in t.pc && t.pc[id] == s.pc[id]
  {
    hide ArrivalsOk, GroupsDone, HistoryOk, StageOk, Logged, Ascends, IsGroup, Applied, UnderWay;
    EveryWriterOnce(s, id);
    DoneUnderStep(s, byteSize, step, t, id);
  }

  lemma DoneUnderStep(s: State, byteSize: seq<Operation> -> nat, step: Step, t: State, id: Id)
    requires Next(s, byteSize, step, t) && id in s.pc && s.pc[id].Done? && id !in s.queue
    requires s.pc.Keys == s.writers.Keys
    ensures id in t.pc && t.pc[id] == s.pc[id]
  {
    hide IsGroup;
  }

  // ---------- sequence numbers ----------

  lemma {:induction false} GaplessBounds(groups: seq<Group>, i: nat)
    requires Gapless(groups) && i <= |groups|
    ensures 1 <= NextSequence(groups[..i]) <= NextSequence(groups)
    decreases |groups| - i
  {
    assert groups[..|groups|] == groups;
    if i < |groups| {
      assert groups[..i + 1][i] == groups[i];
      GaplessBounds(groups, i + 1);
    }
    FirstIsPositive(groups, i);
  }

  lemma {:induction false} FirstIsPositive(groups: seq<Group>, i: nat)
    requires Gapless(groups) && i <= |groups|
    ensures 1 <= NextSequence(groups[..i])
  {
    if 0 < i {
      FirstIsPositive(groups, i - 1);
      assert groups[..i][i - 1] == groups[i - 1];
    }
  }

  /** The numbers of an earlier group all lie before those of a later one. */
  lemma NumbersAreFresh(groups: seq<Group>, i: nat, j: nat)
    requires Gapless(groups) && i < j < |groups|
    ensures groups[i].first + |groups[i].ops| <= groups[j].first
  {
    assert Gapless(groups[..j]) by {
      forall k | 0 <= k < j
        ensures groups[..j][k].first == NextSequence(groups[..j][..k])
      {
        assert groups[..j][..k] == groups[..k];
      }
    }
    GaplessBounds(groups[..j], i + 1);
    assert groups[..j][..i + 1] == groups[..i + 1] && groups[..i + 1][i] == groups[i];
  }

  lemma {:induction false} AppliedInRange(groups: seq<Group>, e: Entry)
    requires Gapless(groups) && e in Applied(groups)
    ensures 1 <= e.key.sequence < NextSequence(groups)
  {
    var n := |groups| - 1;
    var init := groups[..n];
    FirstIsPositive(groups, n);
    assert groups[n].first == NextSequence(init);
    if e in Applied(init) {
      assert Gapless(init) by {
        forall k | 0 <= k < n
          ensures init[k].first == NextSequence(init[..k])
        {
          assert init[..k] == groups[..k];
        }
      }
      AppliedInRange(init, e);
    } else {
      var k :| 0 <= k < |groups[n].ops| && BatchEntries(groups[n].ops, groups[n].first)[k] == e;
    }
  }

  function UpTo(contents: set<Entry>, last: nat): set<Entry> {
    set e | e in contents && e.key.sequence <= last
  }

  /** At the published number a reader sees every finished group whole and nothing of one under way. */
  lemma PublishedIsWhole(s: State)
    requires Invariant(s)
    ensures UpTo(s.contents, s.lastSequence) == Applied(s.groups)
  {
    forall e | e in Applied(s.groups)
      ensures e.key.sequence <= s.lastSequence
    {
      AppliedInRange(s.groups, e);
    }
    UnderWayIsAhead(s);
  }

  lemma UnderWayIsAhead(s: State)
    requires StageOk(s)
    ensures forall e :: e in UnderWay(Front(s)) ==> s.lastSequence < e.key.sequence
  {
    forall e | e in UnderWay(Front(s))
      ensures s.lastSequence < e.key.sequence
    {
      var batch := BatchEntries(Front(s).ops, Front(s).first);
      var k :| 0 <= k < Front(s).inserted && batch[..Front(s).inserted][k] == e;
    }
  }

  /** What a reader saw at a published number never changes again. */
  lemma SnapshotsAreStable(s: State, byteSize: seq<Operation> -> nat, step: Step, t: State)
    requires Invariant(s) && Next(s, byteSize, step, t)
    ensures s.lastSequence <= t.lastSequence
    ensures UpTo(t.contents, s.lastSequence) == UpTo(s.contents, s.lastSequence)
  {
    hide QueueOk, HistoryOk, Ascends, Logged, IsGroup, Applied;
    if step.InsertOne? || step.Finish? {
      FrontIs(s, step.id);
    }
  }

  lemma {:induction false} ReadersSeeOneState(run: seq<State>, steps: seq<Step>, byteSize: seq<Operation> -> nat, i: nat, j: nat)
    requires IsRun(run, steps, byteSize) && i <= j < |run|
    ensures run[i].lastSequence <= run[j].lastSequence
    ensures UpTo(run[j].contents, run[i].lastSequence) == Applied(run[i].groups)
    decreases j - i
  {
    hide Invariant, Next, UpTo;
    if i == j {
      RunKeepsInvariant(run, steps, byteSize, i);
      PublishedIsWhole(run[i]);
    } else {
      ReadersSeeOneState(run, steps, byteSize, i, j - 1);
      RunKeepsInvariant(run, steps, byteSize, j - 1);
      assert Next(run[j - 1], byteSize, steps[j - 1], run[j - 1 + 1]);
      SnapshotsAreStable(run[j - 1], byteSize, steps[j - 1], run[j]);
      SmallerBound(run[j - 1].contents, run[j].contents, run[i].lastSequence, run[j - 1].lastSequence);
    }
  }

  lemma SmallerBound(a: set<Entry>, b: set<Entry>, low: nat, high: nat)
    requires low <= high && UpTo(a, high) == UpTo(b, high)
    ensures UpTo(a, low) == UpTo(b, low)
  {
    forall e: Entry | e.key.sequence <= low
      ensures e in a <==> e in b
    {
      assert e in UpTo(a, high) <==> e in a;
      assert e in UpTo(b, high) <==> e in b;
    }
  }

  // ---------- what a caller gets ----------

  /** The offset of one writer's operations within its group. */
  lemma BatchesUnfold(ws: seq<Writer>)
    requires ws != []
    ensures BatchesOf(ws) == BatchesOf(ws[..|ws| - 1]) + Ops(ws[|ws| - 1])
  {
  }

  lemma SliceInFront(a: seq<Operation>, b: seq<Operation>, i: nat, j: nat)
    requires i <= j <= |a|
    ensures (a + b)[i..j] == a[i..j]
  {
  }

  lemma SliceBehind(a: seq<Operation>, b: seq<Operation>)
    ensures (a + b)[|a|..|a| + |b|] == b
  {
  }

  lemma {:induction false} MemberSlice(ws: seq<Writer>, i: nat)
    requires i < |ws|
    ensures var at := |BatchesOf(ws[..i])|;
            at + |Ops(ws[i])| <= |BatchesOf(ws)| && BatchesOf(ws)[at..at + |Ops(ws[i])|] == Ops(ws[i])
  {
    hide BatchesOf;
    var n := |ws| - 1;
    BatchesUnfold(ws);
    if i < n {
      MemberSlice(ws[..n], i);
      assert ws[..n][..i] == ws[..i];
      var at := |BatchesOf(ws[..i])|;
      SliceInFront(BatchesOf(ws[..n]), Ops(ws[n]), at, at + |Ops(ws[i])|);
    } else {
      SliceBehind(BatchesOf(ws[..n]), Ops(ws[n]));
    }
  }

  /**
   * A writer told "ok" has its whole batch in memory, under consecutive numbers, every one published,
   * and the record that holds it in the log.
   */
  lemma OkMeansWritten(s: State, g: Group, i: nat) returns (at: nat)
    requires Invariant(s) && g in s.groups && g.ok && i < |g.members|
    ensures g.members[i] in s.writers && g.members[i] in s.pc && s.pc[g.members[i]] == Done(true)
    ensures var batch := Ops(s.writers[g.members[i]]);
            && at + |batch| <= |g.ops| && g.ops[at..at + |batch|] == batch
            && Contents(BatchEntries(batch, g.first + at)) <= UpTo(s.contents, s.lastSequence)
    ensures g.ops != [] ==> Record(g.first, g.ops) in s.log
  {
    hide ArrivalsOk, QueuePcs, StageOk, Ascends, Gapless, NextSequence;
    assert g.members[i] in g.members;
    assert WellGrouped(g, s.writers);
    at := MemberAt(g, s.writers, i);
    PublishedIsWhole(s);
    AppliedHolds(s.groups, g);
    SliceEntries(g.ops, g.first, at, Ops(s.writers[g.members[i]]));
  }

  lemma MemberAt(g: Group, writers: map<Id, Writer>, i: nat) returns (at: nat)
    requires WellGrouped(g, writers) && g.ok && i < |g.members|
    ensures g.members[i] in writers && at + |Ops(writers[g.members[i]])| <= |g.ops|
    ensures g.ops[at..at + |Ops(writers[g.members[i]])|] == Ops(writers[g.members[i]])
  {
    hide BatchesOf;
    assert g.members[i] in g.members;
    var ws := WritersOf(g.members, writers);
    MemberSlice(ws, i);
    at := |BatchesOf(ws[..i])|;
  }

  lemma SliceEntries(ops: seq<Operation>, first: nat, at: nat, part: seq<Operation>)
    requires at + |part| <= |ops| && ops[at..at + |part|] == part
    ensures Contents(BatchEntries(part, first + at)) <= Contents(BatchEntries(ops, first))
  {
    forall e | e in BatchEntries(part, first + at)
      ensures e in BatchEntries(ops, first)
    {
      var k :| 0 <= k < |part| && BatchEntries(part, first + at)[k] == e;
      assert ops[at..at + |part|][k] == ops[at + k];
      assert BatchEntries(ops, first)[at + k] == e;
    }
  }

  lemma {:induction false} AppliedHolds(groups: seq<Group>, g: Group)
    requires g in groups
    ensures GroupEntries(g) <= Applied(groups)
  {
    var n := |groups| - 1;
    if g != groups[n] {
      AppliedHolds(groups[..n], g);
    }
  }

  /** No sync write is ever carried by a leader that does not sync. */
  lemma SyncIsHonoured(s: State, g: Group, id: Id)
    requires Invariant(s) && g in s.groups && id in g.members
    ensures g.members != [] && id in s.writers && g.members[0] in s.writers
    ensures s.writers[id].sync ==> s.writers[g.members[0]].sync
  {
    assert WellGrouped(g, s.writers);
    assert g.members[0] in g.members;
  }

  /** Each finished group is one write of the store machine: the same operations under the same numbers. */
  lemma GroupIsOneWrite(s: State, byteSize: seq<Operation> -> nat, id: Id, t: State)
    requires Invariant(s) && Next(s, byteSize, Finish(id), t) && s.pc[id].Inserting?
    ensures var ops := s.pc[id].ops;
            && t.lastSequence == s.lastSequence + |ops|
            && UpTo(t.contents, t.lastSequence) ==
               UpTo(s.contents, s.lastSequence) + Contents(BatchEntries(ops, s.lastSequence + 1))
  {
    FrontIs(s, id);
    StepKeepsInvariant(s, byteSize, Finish(id), t);
    PublishedIsWhole(s);
    PublishedIsWhole(t);
    GroupAppended(s.groups, t.groups[|s.groups|]);
  }
}
