/** What readers see of the operations written, whatever entries stand for them (db/db_impl, db/write_batch). */
module DbReads {
  import opened Common
  import opened DbFormat
  import opened VersionSet
  import opened CompactionStep
  import opened CompactionInputs
  import opened CompactionWork
  import opened VersionChanges
  import opened DbRun

  // ---------- operations on a map ----------

  /** What `k` answers after the operations, if it answered `before`: the last operation on it decides. */
  function Answer(before: Option<Bytes>, ops: seq<Operation>, k: UserKey): Option<Bytes> {
    if ops == [] then before
    else
      match ops[|ops| - 1]
      case Put(user, value) => if user == k then Some(value) else Answer(before, ops[..|ops| - 1], k)
      case Delete(user) => if user == k then None else Answer(before, ops[..|ops| - 1], k)
  }

  predicate LastOn(ops: seq<Operation>, k: UserKey, i: nat) {
    i < |ops| && ops[i].user == k && forall j :: i < j < |ops| ==> ops[j].user != k
  }

  lemma {:induction false} AnswerIsLast(before: Option<Bytes>, ops: seq<Operation>, k: UserKey, i: nat)
    requires LastOn(ops, k, i)
    ensures ops[i].Put? ==> Answer(before, ops, k) == Some(ops[i].value)
    ensures ops[i].Delete? ==> Answer(before, ops, k) == None
  {
    var n := |ops| - 1;
    if i < n {
      assert ops[n].user != k;
      AnswerIsLast(before, ops[..n], k, i);
    }
  }

  lemma {:induction false} AnswerIsBefore(before: Option<Bytes>, ops: seq<Operation>, k: UserKey)
    requires forall i :: 0 <= i < |ops| ==> ops[i].user != k
    ensures Answer(before, ops, k) == before
  {
    if ops != [] {
      var n := |ops| - 1;
      assert ops[n].user != k;
      AnswerIsBefore(before, ops[..n], k);
    }
  }

  lemma {:induction false} AnswerAppends(before: Option<Bytes>, x: seq<Operation>, y: seq<Operation>, k: UserKey)
    ensures Answer(before, x + y, k) == Answer(Answer(before, x, k), y, k)
  {
    if y == [] {
      assert x + y == x;
    } else {
      var n := |y| - 1;
      AnswerAppends(before, x, y[..n], k);
      assert (x + y)[..|x + y| - 1] == x + y[..n] && (x + y)[|x + y| - 1] == y[n];
    }
  }

  // ---------- a batch over older entries ----------

  /** No entry of the key lies between the two snapshots. */
  lemma NothingBetween(s: set<Entry>, k: UserKey, a: nat, b: nat)
    requires UniqueKeys(s) && a <= b && forall e :: e in s && e.key.user == k && e.key.sequence <= b ==> e.key.sequence <= a
    ensures Read(s, k, a) == Read(s, k, b)
  {
    forall e
      ensures IsNewest(s, k, a, e) <==> IsNewest(s, k, b, e)
    {
    }
    if n :| IsNewest(s, k, a, n) {
      assert forall f :: IsNewest(s, k, a, f) ==> f == n;
    }
  }

  lemma BatchEntry(ops: seq<Operation>, first: nat, e: Entry)
    requires e in Contents(BatchEntries(ops, first))
    ensures first <= e.key.sequence < first + |ops| && e == EntryOf(ops[e.key.sequence - first], e.key.sequence)
  {
  }

  lemma NewestOfBatch(older: set<Entry>, ops: seq<Operation>, last: nat, k: UserKey, n: nat)
    requires SequencesUpTo(older, last) && 0 < n <= |ops| && ops[n - 1].user == k
    ensures IsNewest(older + Contents(BatchEntries(ops, last + 1)), k, last + n, EntryOf(ops[n - 1], last + n))
  {
    var batch := BatchEntries(ops, last + 1);
    assert batch[n - 1] == EntryOf(ops[n - 1], last + n);
  }

  /** A reader after the first `n` operations of a batch sees just them, on top of what it saw before. */
  lemma {:induction false} BatchRead(older: set<Entry>, ops: seq<Operation>, last: nat, k: UserKey, n: nat)
    requires UniqueKeys(older) && SequencesUpTo(older, last) && n <= |ops|
    ensures Read(older + Contents(BatchEntries(ops, last + 1)), k, last + n) == Answer(Read(older, k, last), ops[..n], k)
  {
    hide BatchEntries, Read, UniqueKeys, IsNewest;
    var batch := Contents(BatchEntries(ops, last + 1));
    var all := older + batch;
    if n == 0 {
      OlderRead(older, ops, last, k, last);
      assert ops[..0] == [];
    } else {
      BatchIs(ops, last + 1);
      BatchIsNewer(batch, older, last, |ops|);
      assert all == batch + older;
      BatchRead(older, ops, last, k, n - 1);
      assert ops[..n][..n - 1] == ops[..n - 1];
      if ops[n - 1].user == k {
        NewestOfBatch(older, ops, last, k, n);
        ReadIsNewest(all, k, last + n, EntryOf(ops[n - 1], last + n));
      } else {
        forall e | e in all && e.key.user == k && e.key.sequence <= last + n
          ensures e.key.sequence <= last + (n - 1)
        {
          if e in batch {
            BatchEntry(ops, last + 1, e);
          }
        }
        NothingBetween(all, k, last + (n - 1), last + n);
      }
    }
  }

  lemma OlderRead(older: set<Entry>, ops: seq<Operation>, last: nat, k: UserKey, snapshot: nat)
    requires UniqueKeys(older) && SequencesUpTo(older, last) && snapshot <= last
    ensures Read(older + Contents(BatchEntries(ops, last + 1)), k, snapshot) == Read(older, k, snapshot)
  {
    hide BatchEntries, Read, UniqueKeys;
    BatchIs(ops, last + 1);
    BatchIsNewer(Contents(BatchEntries(ops, last + 1)), older, last, |ops|);
    assert Contents(BatchEntries(ops, last + 1)) + older == older + Contents(BatchEntries(ops, last + 1));
    ReadDependsOn(older + Contents(BatchEntries(ops, last + 1)), older, k, snapshot);
  }

  // ---------- one write ----------

  /**
   * What a write of `ops` makes of the reads of store `s`: no reader of an earlier snapshot sees it,
   * and a reader after its first `n` operations sees those.
   */
  ghost predicate Shows(s: Store, ops: seq<Operation>, t: Store) {
    && t.lastSequence == s.lastSequence + |ops|
    && (forall k, q :: 0 <= q <= s.lastSequence ==> Read(StoreContents(t), k, q) == Read(StoreContents(s), k, q))
    && forall k, n :: 0 <= n <= |ops| ==>
         Read(StoreContents(t), k, s.lastSequence + n) == Answer(Read(StoreContents(s), k, s.lastSequence), ops[..n], k)
  }

  lemma WriteShows(s: Store, ops: seq<Operation>, t: Store)
    requires Invariant(s) && Next(s, Write(ops), t)
    ensures Shows(s, ops, t)
  {
    hide Read, StoreContents, Invariant, BatchEntries, AddEntries, UniqueKeys, Answer;
    WriteKeepsInvariant(s, ops, t);
    StoreBounds(s);
    forall k, q: nat | q <= s.lastSequence
      ensures Read(StoreContents(t), k, q) == Read(StoreContents(s), k, q)
    {
      OlderRead(StoreContents(s), ops, s.lastSequence, k, q);
    }
    forall k, n: nat | n <= |ops|
      ensures Read(StoreContents(t), k, s.lastSequence + n) == Answer(Read(StoreContents(s), k, s.lastSequence), ops[..n], k)
    {
      BatchRead(StoreContents(s), ops, s.lastSequence, k, n);
    }
  }

  lemma StoreBounds(s: Store)
    requires Invariant(s)
    ensures UniqueKeys(StoreContents(s)) && SequencesUpTo(StoreContents(s), s.lastSequence)
  {
  }

  /** Read your writes: at the new last sequence number a key answers with the last operation on it, or as before. */
  ghost predicate ShowsLast(s: Store, ops: seq<Operation>, t: Store, k: UserKey) {
    && (forall i :: 0 <= i < |ops| && LastOn(ops, k, i) ==>
          Read(StoreContents(t), k, t.lastSequence) == match ops[i] case Put(_, value) => Some(value) case Delete(_) => None)
    && ((forall i :: 0 <= i < |ops| ==> ops[i].user != k) ==>
          Read(StoreContents(t), k, t.lastSequence) == Read(StoreContents(s), k, s.lastSequence))
  }

  lemma ReadYourWrites(s: Store, ops: seq<Operation>, t: Store, k: UserKey)
    requires Invariant(s) && Next(s, Write(ops), t)
    ensures ShowsLast(s, ops, t, k)
  {
    hide Read, StoreContents, Invariant, Next, Answer, LastOn;
    WriteShows(s, ops, t);
    assert ops[..|ops|] == ops;
    var before := Read(StoreContents(s), k, s.lastSequence);
    forall i | 0 <= i < |ops| && LastOn(ops, k, i)
      ensures Answer(before, ops, k) == match ops[i] case Put(_, value) => Some(value) case Delete(_) => None
    {
      AnswerIsLast(before, ops, k, i);
    }
    if forall i :: 0 <= i < |ops| ==> ops[i].user != k {
      AnswerIsBefore(before, ops, k);
    }
  }

  // ---------- a whole run ----------

  /** Every operation written, in order. */
  function Operations(steps: seq<Step>): seq<Operation> {
    if steps == [] then []
    else
      Operations(steps[..|steps| - 1])
      + if steps[|steps| - 1].Write? then steps[|steps| - 1].ops else []
  }

  lemma OperationsMore(steps: seq<Step>, i: nat)
    requires i < |steps|
    ensures Operations(steps[..i + 1]) == Operations(steps[..i]) + if steps[i].Write? then steps[i].ops else []
  {
    assert steps[..i + 1][..i] == steps[..i];
  }

  /** Sequence numbers count the operations, and a snapshot of the history is a prefix of them. */
  lemma {:induction false} HistoryIsMap(states: seq<Store>, steps: seq<Step>, i: nat)
    requires IsRun(states, steps) && i < |states|
    ensures states[i].lastSequence == |Operations(steps[..i])|
    ensures UniqueKeys(History(states, steps, i)) && SequencesUpTo(History(states, steps, i), states[i].lastSequence)
    ensures StoreContents(states[i]) <= History(states, steps, i)
    ensures forall k, q :: 0 <= q <= states[i].lastSequence ==>
              Read(History(states, steps, i), k, q) == Answer(None, Operations(steps[..i])[..q], k)
  {
    hide Next, Read, StoreContents, UniqueKeys, Answer, Operations, History, Invariant;
    if i == 0 {
      EmptyHistory(states, steps);
    } else {
      HistoryIsMap(states, steps, i - 1);
      RunKeepsInvariant(states, steps, i - 1);
      OperationsMore(steps, i - 1);
      HistoryMore(states, steps, i - 1);
      var ops := Operations(steps[..i - 1]);
      if steps[i - 1].Write? {
        WrittenMore(History(states, steps, i - 1), states[i - 1], steps[i - 1].ops, states[i], ops);
      } else {
        QuietStep(states[i - 1], steps[i - 1], states[i]);
        assert ops + [] == ops && History(states, steps, i - 1) + {} == History(states, steps, i - 1);
      }
    }
  }

  lemma EmptyHistory(states: seq<Store>, steps: seq<Step>)
    requires IsRun(states, steps)
    ensures states[0].lastSequence == |Operations(steps[..0])|
    ensures History(states, steps, 0) == {} == StoreContents(states[0])
    ensures UniqueKeys({}) && SequencesUpTo({}, 0)
    ensures forall k :: Read(History(states, steps, 0), k, 0) == Answer(None, Operations(steps[..0])[..0], k)
  {
    hide Next;
    EmptyStoreOk();
  }

  lemma HistoryMore(states: seq<Store>, steps: seq<Step>, i: nat)
    requires IsRun(states, steps) && i < |steps|
    ensures History(states, steps, i + 1) == History(states, steps, i) + Written(states[i], steps[i])
    ensures Next(states[i], steps[i], states[i + 1])
  {
    hide Next, Written;
  }

  lemma QuietStep(s: Store, step: Step, t: Store)
    requires Invariant(s) && Next(s, step, t) && !step.Write?
    ensures t.lastSequence == s.lastSequence && StoreContents(t) <= StoreContents(s) && Written(s, step) == {}
  {
    hide VersionOk, MemoryOk, ProperInputs, IsMerged, OutputsOf, Replaced, AddedTo, MaySinkTo, Numbered, VersionContents;
    match step
    case Compact(_, _, _, _, _) => CompactAddsNothing(s, step, t);
    case Flush(level, f) => FlushKeepsInvariant(s, level, f, t);
    case TrivialMove(level, f) => MoveKeepsInvariant(s, level, f, t);
    case SwitchMemTable => SwitchKeepsInvariant(s, t);
    case _ =>
  }

  /** A write appends its operations to the history. */
  lemma WrittenMore(history: set<Entry>, s: Store, batch: seq<Operation>, t: Store, ops: seq<Operation>)
    requires Invariant(s) && Next(s, Write(batch), t) && StoreContents(s) <= history
    requires UniqueKeys(history) && SequencesUpTo(history, s.lastSequence) && |ops| == s.lastSequence
    requires forall k, q :: 0 <= q <= s.lastSequence ==> Read(history, k, q) == Answer(None, ops[..q], k)
    ensures var history' := history + Written(s, Write(batch));
            && t.lastSequence == |ops + batch| && StoreContents(t) <= history'
            && UniqueKeys(history') && SequencesUpTo(history', t.lastSequence)
            && forall k, q :: 0 <= q <= t.lastSequence ==> Read(history', k, q) == Answer(None, (ops + batch)[..q], k)
  {
    hide Invariant, Read, StoreContents, UniqueKeys, Answer, BatchEntries, AddEntries;
    var last := s.lastSequence;
    var added := Contents(BatchEntries(batch, last + 1));
    WriteKeepsInvariant(s, batch, t);
    BatchIs(batch, last + 1);
    BatchIsNewer(added, history, last, |batch|);
    assert added + history == history + added;
    forall k, q: nat | q <= t.lastSequence
      ensures Read(history + added, k, q) == Answer(None, (ops + batch)[..q], k)
    {
      if q <= last {
        OlderRead(history, batch, last, k, q);
        assert (ops + batch)[..q] == ops[..q];
      } else {
        BatchRead(history, batch, last, k, q - last);
        assert ops[..last] == ops && (ops + batch)[..q] == ops + batch[..q - last];
        AnswerAppends(None, ops, batch[..q - last], k);
      }
    }
  }

  /** The readers of a store: at every live snapshot and at the last sequence number. */
  ghost predicate AnswersLike(s: Store, ops: seq<Operation>) {
    && s.lastSequence == |ops|
    && forall k, q :: SmallestSnapshot(s) <= q <= s.lastSequence ==> Read(StoreContents(s), k, q) == Answer(None, ops[..q], k)
  }

  /** Beyond the last sequence number there is nothing more to see. */
  lemma PastTheEnd(s: set<Entry>, last: nat, k: UserKey, q: nat)
    requires UniqueKeys(s) && SequencesUpTo(s, last) && last <= q
    ensures Read(s, k, q) == Read(s, k, last)
  {
    NothingBetween(s, k, last, q);
  }

  lemma FaithfulAnswers(states: seq<Store>, steps: seq<Step>, i: nat)
    requires IsRun(states, steps) && i < |states|
    ensures Faithful(states[i], History(states, steps, i)) <==> AnswersLike(states[i], Operations(steps[..i]))
  {
    hide Next, Read, UniqueKeys, Answer, Operations, History, Invariant, StoreContents, SequencesUpTo;
    HistoryIsMap(states, steps, i);
    RunKeepsInvariant(states, steps, i);
    var s, history, ops := states[i], History(states, steps, i), Operations(steps[..i]);
    StoreBounds(s);
    SmallestIsLive(s);
    if AnswersLike(s, ops) {
      forall k, q: nat | SmallestSnapshot(s) <= q
        ensures Read(StoreContents(s), k, q) == Read(history, k, q)
      {
        if s.lastSequence < q {
          PastTheEnd(StoreContents(s), s.lastSequence, k, q);
          PastTheEnd(history, s.lastSequence, k, q);
        }
      }
    }
  }

  lemma SmallestIsLive(s: Store)
    requires Invariant(s)
    ensures SmallestSnapshot(s) <= s.lastSequence
  {
  }

  /**
   * Along a run every reader at sequence number `q` sees the first `q` operations ever written, applied
   * to an empty map, if and only if no compaction of the run springs a trap.
   */
  lemma RunAnswersOperations(states: seq<Store>, steps: seq<Step>)
    requires IsRun(states, steps)
    ensures (forall i :: 0 <= i < |states| ==> AnswersLike(states[i], Operations(steps[..i]))) <==> TrapFree(states, steps)
  {
    hide Next, Faithful, AnswersLike, TrapFree;
    RunIsFaithful(states, steps);
    forall i | 0 <= i < |states|
      ensures Faithful(states[i], History(states, steps, i)) <==> AnswersLike(states[i], Operations(steps[..i]))
    {
      FaithfulAnswers(states, steps, i);
    }
  }
}
