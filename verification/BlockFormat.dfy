/** Prefix-compressed blocks: how entries and restart points lie in the bytes (table/block_builder, table/block). */
module BlockFormat {
  import opened Coding
  import opened Varint

  datatype Pair = Pair(key: Bytes, value: Bytes)

  /** One entry: shared and unshared key length, value length, the unshared part of the key, the value. */
  function EntryBytes(p: Pair, shared: nat): (r: Bytes)
    requires shared <= |p.key|
    ensures 3 <= |r|
  {
    VarintBytes(Low32(shared)) + VarintBytes(Low32(|p.key| - shared)) + VarintBytes(Low32(|p.value|)) + p.key[shared..] + p.value
  }

  /**
   * What a block holds: entries in order, how much of its key each entry shares with the one before,
   * and which entries are restart points.
   */
  datatype Layout = Layout(pairs: seq<Pair>, shares: seq<nat>, marks: seq<nat>)

  predicate ShareOk(l: Layout, i: nat)
    requires i < |l.pairs| == |l.shares|
  {
    && l.shares[i] <= |l.pairs[i].key|
    && (if i == 0 then l.shares[i] == 0
        else l.shares[i] <= |l.pairs[i - 1].key| && l.pairs[i].key[..l.shares[i]] == l.pairs[i - 1].key[..l.shares[i]])
  }

  predicate SharesOk(l: Layout) {
    |l.pairs| == |l.shares| && forall i :: 0 <= i < |l.pairs| ==> ShareOk(l, i)
  }

  function EntryOf(l: Layout, i: nat): (r: Bytes)
    requires SharesOk(l) && i < |l.pairs|
    ensures 3 <= |r|
  {
    assert ShareOk(l, i);
    EntryBytes(l.pairs[i], l.shares[i])
  }

  predicate PairFits(p: Pair) {
    |p.key| < TWO_32 && |p.value| < TWO_32
  }

  /** Lengths and offsets fit the 32 bits they are stored in. */
  predicate BlockFits(l: Layout)
    requires SharesOk(l)
  {
    (forall i :: 0 <= i < |l.pairs| ==> PairFits(l.pairs[i])) && Off(l, |l.pairs|) < TWO_32 && |l.marks| < TWO_32
  }

  /** Restart points start at entry 0, ascend, and share nothing; an empty block has only the first. */
  ghost predicate LayoutOk(l: Layout) {
    && SharesOk(l) && l.marks != [] && l.marks[0] == 0
    && (forall i, j :: 0 <= i < j < |l.marks| ==> l.marks[i] < l.marks[j])
    && (forall j :: 0 < j < |l.marks| ==> l.marks[j] < |l.pairs|)
    && forall j :: 0 <= j < |l.marks| && l.marks[j] < |l.pairs| ==> l.shares[l.marks[j]] == 0
  }

  /** The bytes of the first `n` entries. */
  function Body(l: Layout, n: nat): Bytes
    requires n <= |l.pairs| && SharesOk(l)
  {
    if n == 0 then [] else Body(l, n - 1) + EntryOf(l, n - 1)
  }

  /** The offset of entry `i`. */
  function Off(l: Layout, i: nat): nat
    requires i <= |l.pairs| && SharesOk(l)
  {
    |Body(l, i)|
  }

  lemma {:induction false} BodyPrefix(l: Layout, m: nat, n: nat)
    requires m <= n <= |l.pairs| && SharesOk(l)
    ensures Off(l, m) <= Off(l, n) && (m < n ==> Off(l, m) < Off(l, n)) && Body(l, n)[..Off(l, m)] == Body(l, m)
    decreases n
  {
    hide EntryOf;
    if m < n {
      BodyPrefix(l, m, n - 1);
    }
  }

  /** Offsets order entries. */
  lemma OffOrders(l: Layout, i: nat, j: nat)
    requires i <= |l.pairs| && j <= |l.pairs| && SharesOk(l)
    ensures Off(l, i) < Off(l, j) <==> i < j
  {
    if i < j {
      BodyPrefix(l, i, j);
    } else {
      BodyPrefix(l, j, i);
    }
  }

  lemma EntryAt(l: Layout, i: nat)
    requires i < |l.pairs| && SharesOk(l)
    ensures var body := Body(l, |l.pairs|);
            && Off(l, i + 1) == Off(l, i) + |EntryOf(l, i)| <= |body|
            && body[Off(l, i)..] == EntryOf(l, i) + body[Off(l, i + 1)..]
  {
    hide EntryOf, Body;
    var n := |l.pairs|;
    BodyPrefix(l, i, n);
    BodyPrefix(l, i + 1, n);
    assert Body(l, i + 1) == Body(l, i) + EntryOf(l, i) by { BodyUnfolds(l, i); }
    var body := Body(l, n);
    assert body == body[..Off(l, i + 1)] + body[Off(l, i + 1)..];
  }

  lemma BodyUnfolds(l: Layout, i: nat)
    requires i < |l.pairs| && SharesOk(l)
    ensures Body(l, i + 1) == Body(l, i) + EntryOf(l, i)
  {
  }

  /** Where restart point `j` is stored. */
  function RestartBytes(data: Bytes, restarts: nat, j: nat): Bytes
    requires restarts + 4 * j + 4 <= |data|
  {
    data[restarts + 4 * j..restarts + 4 * j + 4]
  }

  /** A finished block: entries, restart offsets, their number. */
  ghost predicate LaidOut(data: Bytes, restarts: nat, l: Layout) {
    && LayoutOk(l) && BlockFits(l) && restarts + 4 * |l.marks| + 4 == |data| && data[..restarts] == Body(l, |l.pairs|)
    && (forall j :: 0 <= j < |l.marks| ==> DecodeFixed32(RestartBytes(data, restarts, j)) == Off(l, l.marks[j]))
    && DecodeFixed32(data[|data| - 4..]) == |l.marks|
  }
}
