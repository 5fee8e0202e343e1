/** The block builder (table/block_builder). */
module BlockBuilder {
  import opened Coding
  import opened Varint
  import opened Slices
  import opened BlockFormat

  class Builder {
    const restartInterval: nat
    var buffer: Bytes
    var restarts: seq<nat>
    var counter: nat
    var lastKey: Bytes
    ghost var layout: Layout

    constructor (restartInterval: nat)
      requires 1 <= restartInterval
      ensures Valid() && layout.pairs == []
    {
      this.restartInterval := restartInterval;
      buffer, restarts, counter, lastKey := [], [0], 0, [];
      layout := Layout([], [], [0]);
    }

    ghost predicate Valid()
      reads this
    {
      && LayoutOk(layout) && buffer == Body(layout, |layout.pairs|)
      && Mirrors(restarts, layout)
      && lastKey == (if layout.pairs == [] then [] else layout.pairs[|layout.pairs| - 1].key)
      && 1 <= restartInterval && counter <= restartInterval
      && Spaced(layout, restartInterval, counter)
      && Compressed(layout)
    }

    /** The loop that finds how much of the key the last one already has. */
    method SharedLength(key: Bytes) returns (shared: nat)
      ensures shared <= |key| && shared <= |lastKey| && key[..shared] == lastKey[..shared]
      ensures Maximal(lastKey, key, shared)
    {
      var minLength := if |lastKey| < |key| then |lastKey| else |key|;
      shared := 0;
      while shared < minLength && lastKey[shared] == key[shared]
        invariant shared <= minLength && key[..shared] == lastKey[..shared]
      {
        shared := shared + 1;
      }
    }

    method Add(key: Bytes, value: Bytes)
      requires Valid()
      modifies this
      ensures Valid() && layout.pairs == old(layout.pairs) + [Pair(key, value)]
    {
      hide LayoutOk, Body, EntryBytes, VarintBytes, Compressed, Maximal, Mirrors, Spaced;
      FirstMark(layout);
      SpacedEntries(layout, restartInterval, counter);
      var shared := 0;
      ghost var marks := layout.marks;
      if counter < restartInterval {
        shared := SharedLength(key);
      } else {
        restarts := restarts + [|buffer|];
        counter := 0;
        marks := marks + [|layout.pairs|];
      }
      AddKeepsLayout(layout, Pair(key, value), shared, marks);
      AddKeepsMirror(old(restarts), layout, Pair(key, value), shared, marks, |buffer|);
      AddKeepsSpaced(layout, Pair(key, value), shared, marks, restartInterval, old(counter));
      AddKeepsCompressed(layout, Pair(key, value), shared, marks);
      AppendEntry(key, value, shared);
      layout := Layout(layout.pairs + [Pair(key, value)], layout.shares + [shared], marks);
    }

    /** Writes the three lengths, the key delta and the value, and remembers the key. */
    method AppendEntry(key: Bytes, value: Bytes, shared: nat)
      requires shared <= |key| && shared <= |lastKey| && key[..shared] == lastKey[..shared]
      modifies this`buffer, this`lastKey, this`counter
      ensures buffer == old(buffer) + EntryBytes(Pair(key, value), shared) && lastKey == key && counter == old(counter) + 1
    {
      hide VarintBytes;
      var nonShared := |key| - shared;
      var a := EncodeVarint32(Low32(shared));
      var b := EncodeVarint32(Low32(nonShared));
      var c := EncodeVarint32(Low32(|value|));
      assert buffer + a + b + c + key[shared..] + value == buffer + (a + b + c + key[shared..] + value);
      buffer := buffer + a + b + c;
      buffer := buffer + key[shared..];
      buffer := buffer + value;
      lastKey := lastKey[..shared] + key[shared..];
      assert key[..shared] + key[shared..] == key;
      counter := counter + 1;
    }

    /** Appends the restart offsets and their number, of which 32 bits each are kept. */
    method Finish() returns (data: Bytes)
      requires Valid()
      ensures |buffer| <= |data| && data[..|buffer|] == buffer
      ensures LaidOut(data, |buffer|, layout) <==> BlockFits(layout)
    {
      hide LayoutOk, Body, EncodeFixed32, DecodeFixed32, Spaced, Compressed, PairFits, Low32;
      data := buffer;
      for i := 0 to |restarts|
        invariant |data| == |buffer| + 4 * i && data[..|buffer|] == buffer
        invariant forall j :: 0 <= j < i ==> DecodeFixed32(RestartBytes(data, |buffer|, j)) == Low32(restarts[j])
      {
        var code := EncodeFixed32(Low32(restarts[i]));
        ghost var before := data;
        data := data + code;
        forall j | 0 <= j < i
          ensures RestartBytes(data, |buffer|, j) == RestartBytes(before, |buffer|, j)
        {
        }
        assert RestartBytes(data, |buffer|, i) == code;
      }
      ghost var before := data;
      var code := EncodeFixed32(Low32(|restarts|));
      data := data + code;
      forall j | 0 <= j < |restarts|
        ensures RestartBytes(data, |buffer|, j) == RestartBytes(before, |buffer|, j)
      {
      }
      assert data[|data| - 4..] == code;
      if BlockFits(layout) {
        RestartsFit(layout, restarts);
      }
    }
  }

  /** No longer prefix is common to both keys. */
  predicate Maximal(a: Bytes, b: Bytes, shared: nat) {
    shared >= |a| || shared >= |b| || a[shared] != b[shared]
  }

  /** Every entry but the restart points leaves out all it has in common with the one before. */
  predicate Compressed(l: Layout) {
    |l.pairs| == |l.shares| &&
    forall i :: 0 < i < |l.pairs| && i !in l.marks ==> Maximal(l.pairs[i - 1].key, l.pairs[i].key, l.shares[i])
  }

  lemma AddKeepsCompressed(l: Layout, p: Pair, shared: nat, marks: seq<nat>)
    requires Compressed(l) && (marks == l.marks || marks == l.marks + [|l.pairs|])
    requires l.pairs != [] && marks == l.marks ==> Maximal(l.pairs[|l.pairs| - 1].key, p.key, shared)
    ensures Compressed(Layout(l.pairs + [p], l.shares + [shared], marks))
  {
    hide Maximal;
  }

  /** Restart points lie a whole interval apart, and `counter` entries follow the last one. */
  predicate Spaced(l: Layout, restartInterval: nat, counter: nat) {
    && (forall j :: 0 < j < |l.marks| ==> l.marks[j] == l.marks[j - 1] + restartInterval)
    && l.marks != [] && |l.pairs| == l.marks[|l.marks| - 1] + counter
  }

  lemma SpacedEntries(l: Layout, restartInterval: nat, counter: nat)
    requires Spaced(l, restartInterval, counter)
    ensures counter <= |l.pairs|
  {
  }

  lemma AddKeepsSpaced(l: Layout, p: Pair, shared: nat, marks: seq<nat>, restartInterval: nat, counter: nat)
    requires Spaced(l, restartInterval, counter)
    requires marks == l.marks || (marks == l.marks + [|l.pairs|] && counter == restartInterval)
    ensures Spaced(Layout(l.pairs + [p], l.shares + [shared], marks), restartInterval, if marks == l.marks then counter + 1 else 1)
  {
  }

  /** The restart array has the offsets of the restart points. */
  predicate Mirrors(restarts: seq<nat>, l: Layout) {
    && |restarts| == |l.marks| && SharesOk(l)
    && forall j :: 0 <= j < |restarts| ==> l.marks[j] <= |l.pairs| && restarts[j] == Off(l, l.marks[j])
  }

  lemma AddKeepsMirror(restarts: seq<nat>, l: Layout, p: Pair, shared: nat, marks: seq<nat>, end: nat)
    requires var m := Layout(l.pairs + [p], l.shares + [shared], marks);
             Mirrors(restarts, l) && SharesOk(m) && end == Off(l, |l.pairs|)
    requires marks == l.marks || marks == l.marks + [|l.pairs|]
    ensures Mirrors(if marks == l.marks then restarts else restarts + [end], Layout(l.pairs + [p], l.shares + [shared], marks))
  {
    hide Body, ShareOk;
    var m := Layout(l.pairs + [p], l.shares + [shared], marks);
    forall j | 0 <= j < |marks|
      ensures marks[j] <= |l.pairs| && Off(m, marks[j]) == Off(l, marks[j])
    {
      SameBody(l, m, marks[j]);
    }
  }

  lemma FirstMark(l: Layout)
    requires LayoutOk(l)
    ensures l.marks != [] && (l.pairs == [] ==> l.marks == [0])
    ensures forall j :: 0 <= j < |l.marks| ==> l.marks[j] <= |l.pairs|
  {
    assert |l.marks| > 1 ==> l.marks[1] < |l.pairs|;
  }

  lemma RestartsFit(l: Layout, restarts: seq<nat>)
    requires SharesOk(l) && BlockFits(l) && Mirrors(restarts, l)
    ensures forall j :: 0 <= j < |restarts| ==> Low32(restarts[j]) == restarts[j]
    ensures Low32(|restarts|) == |restarts|
  {
    hide Low32, PairFits, Body, ShareOk;
    Low32IsWhole(|restarts|);
    forall j | 0 <= j < |restarts|
      ensures Low32(restarts[j]) == restarts[j]
    {
      BodyPrefix(l, l.marks[j], |l.pairs|);
      Low32IsWhole(restarts[j]);
    }
  }

  /** The layout with one more entry, which may be a new restart point. */
  lemma AddKeepsLayout(l: Layout, p: Pair, shared: nat, marks: seq<nat>)
    requires LayoutOk(l) && shared <= |p.key|
    requires marks == l.marks || (marks == l.marks + [|l.pairs|] && shared == 0 && l.pairs != [])
    requires if l.pairs == [] then shared == 0
             else shared <= |l.pairs[|l.pairs| - 1].key| && p.key[..shared] == l.pairs[|l.pairs| - 1].key[..shared]
    ensures var m := Layout(l.pairs + [p], l.shares + [shared], marks);
            && LayoutOk(m) && SharesOk(m)
            && Body(m, |m.pairs|) == Body(l, |l.pairs|) + EntryBytes(p, shared)
  {
    hide EntryBytes, Body;
    var m := Layout(l.pairs + [p], l.shares + [shared], marks);
    AddKeepsShares(l, p, shared, marks);
    SameBody(l, m, |l.pairs|);
    BodyUnfolds(m, |l.pairs|);
  }

  lemma AddKeepsShares(l: Layout, p: Pair, shared: nat, marks: seq<nat>)
    requires SharesOk(l) && shared <= |p.key|
    requires if l.pairs == [] then shared == 0
             else shared <= |l.pairs[|l.pairs| - 1].key| && p.key[..shared] == l.pairs[|l.pairs| - 1].key[..shared]
    ensures SharesOk(Layout(l.pairs + [p], l.shares + [shared], marks))
  {
    var m := Layout(l.pairs + [p], l.shares + [shared], marks);
    forall i | 0 <= i < |m.pairs|
      ensures ShareOk(m, i)
    {
      if i < |l.pairs| {
        assert ShareOk(l, i);
      }
    }
  }

  lemma {:induction false} SameBody(l: Layout, m: Layout, n: nat)
    requires n <= |l.pairs| && n <= |m.pairs| && SharesOk(l) && SharesOk(m)
    requires forall i :: 0 <= i < n ==> l.pairs[i] == m.pairs[i] && l.shares[i] == m.shares[i]
    ensures Body(l, n) == Body(m, n)
  {
    hide EntryBytes, ShareOk;
    if 0 < n {
      SameBody(l, m, n - 1);
    }
  }
}
