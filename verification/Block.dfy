/** Reading a block: parsing, seeking and stepping over prefix-compressed entries (table/block). */
module Block {
  import opened Coding
  import opened Varint
  import opened Slices
  import opened BlockFormat

  /** The user's comparator, as far as searching needs it. */
  type Comparator = (Bytes, Bytes) -> int

  ghost predicate Transitive(cmp: Comparator) {
    forall a, b, c :: cmp(a, b) < 0 && cmp(b, c) < 0 ==> cmp(a, c) < 0
  }

  ghost predicate Increasing(cmp: Comparator, pairs: seq<Pair>) {
    forall i, j :: 0 <= i < j < |pairs| ==> cmp(pairs[i].key, pairs[j].key) < 0
  }

  /** What DecodeEntry finds: three lengths and where the key delta starts. */
  datatype Header = Header(shared: nat, nonShared: nat, valueLength: nat, rest: Bytes)

  lemma EntryStarts(p: Pair, shared: nat, tail: Bytes)
    requires shared <= |p.key| && PairFits(p)
    ensures EntryBytes(p, shared) + tail ==
            VarintBytes(shared) + (VarintBytes(|p.key| - shared) + (VarintBytes(|p.value|) + (p.key[shared..] + p.value + tail)))
  {
    hide VarintBytes, Low32;
    Low32IsWhole(shared);
    Low32IsWhole(|p.key| - shared);
    Low32IsWhole(|p.value|);
  }

  /** One byte below 128 is a whole varint. */
  lemma OneByteVarint(v: nat, tail: Bytes)
    ensures var u := VarintBytes(v) + tail;
            u[0] < 128 ==> u[0] == v && u[1..] == tail
  {
    FirstGroup(v, tail);
  }

  lemma ThreeBytes(region: Bytes, a: nat, b: nat, c: nat, tail: Bytes)
    requires region == VarintBytes(a) + (VarintBytes(b) + (VarintBytes(c) + tail)) && 3 <= |region|
    requires region[0] < 128 && region[1] < 128 && region[2] < 128
    ensures region[0] == a && region[1] == b && region[2] == c && region[3..] == tail
  {
    hide VarintBytes;
    OneByteVarint(a, VarintBytes(b) + (VarintBytes(c) + tail));
    OneByteVarint(b, VarintBytes(c) + tail);
    OneByteVarint(c, tail);
    assert region[1..][1..] == region[2..] && region[2..][1..] == region[3..];
  }

  /** DecodeEntry, with its fast path for three one-byte lengths. */
  method DecodeEntry(region: Bytes, ghost p: Pair, ghost shared: nat, ghost tail: Bytes) returns (ok: bool, h: Header)
    requires shared <= |p.key| && PairFits(p) && region == EntryBytes(p, shared) + tail
    ensures ok && h == Header(shared, |p.key| - shared, |p.value|, p.key[shared..] + p.value + tail)
    ensures |h.rest| <= |region| && region[|region| - |h.rest|..] == h.rest
  {
    hide VarintBytes, EntryBytes, Low32;
    EntryStarts(p, shared, tail);
    ghost var t3 := p.key[shared..] + p.value + tail;
    h := Header(0, 0, 0, []);
    if |region| < 3 {
      assert false;
    } else if region[0] < 128 && region[1] < 128 && region[2] < 128 {
      ThreeBytes(region, shared, |p.key| - shared, |p.value|, t3);
      h := Header(region[0], region[1], region[2], region[3..]);
    } else {
      h := DecodeLengths(region, shared, |p.key| - shared, |p.value|, t3);
    }
    ok := |h.rest| >= h.nonShared + h.valueLength;
  }

  /** The slow path: three varints. */
  method DecodeLengths(region: Bytes, ghost a: nat, ghost b: nat, ghost c: nat, ghost tail: Bytes) returns (h: Header)
    requires region == VarintBytes(a) + (VarintBytes(b) + (VarintBytes(c) + tail)) && a < TWO_32 && b < TWO_32 && c < TWO_32
    ensures h == Header(a, b, c, tail) && |tail| <= |region| && region[|region| - |tail|..] == tail
  {
    hide VarintBytes, Pow2, ReadsVarint;
    Pow2Values();
    OnlyWrittenReads(a, 32, VarintBytes(b) + (VarintBytes(c) + tail));
    OnlyWrittenReads(b, 32, VarintBytes(c) + tail);
    OnlyWrittenReads(c, 32, tail);
    var x, y, z, r1, r2, r3, ok;
    ok, x, r1 := GetVarint(region, 32);
    ok, y, r2 := GetVarint(r1, 32);
    ok, z, r3 := GetVarint(r2, 32);
    h := Header(x, y, z, r3);
  }

  class Iter {
    const cmp: Comparator
    const data: Bytes
    const restarts: nat
    const numRestarts: nat
    var current: nat
    var restartIndex: nat
    var key: Bytes
    var valueStart: nat
    var valueLength: nat
    ghost const layout: Layout

    /** Block::NewIterator on a finished block. */
    constructor (cmp: Comparator, data: Bytes, ghost restarts': nat, ghost layout: Layout)
      requires LaidOut(data, restarts', layout)
      ensures Ready() && this.data == data && this.layout == layout && this.cmp == cmp && Standing(|layout.pairs|)
    {
      LaidOutSizes(data, restarts', layout);
      this.cmp, this.data, this.layout := cmp, data, layout;
      numRestarts := DecodeFixed32(data[|data| - 4..]);
      restarts := |data| - (1 + DecodeFixed32(data[|data| - 4..])) * 4;
      current := |data| - (1 + DecodeFixed32(data[|data| - 4..])) * 4;
      restartIndex := DecodeFixed32(data[|data| - 4..]);
      key, valueStart, valueLength := [], 0, 0;
    }

    ghost predicate Ready()
      reads this
    {
      LaidOut(data, restarts, layout) && numRestarts == |layout.marks|
    }

    function NextEntryOffset(): nat
      reads this
    {
      valueStart + valueLength
    }

    function GetRestartPoint(index: nat): (r: nat)
      requires Ready() && index < numRestarts
      reads this
      ensures layout.marks[index] <= |layout.pairs| && r == Off(layout, layout.marks[index])
    {
      DecodeFixed32(RestartBytes(data, restarts, index))
    }

    /** On entry `i`, or past the end if there is no such entry. */
    ghost predicate Standing(i: nat)
      requires Ready()
      reads this
    {
      && i <= |layout.pairs|
      && if i == |layout.pairs| then current == restarts && restartIndex == numRestarts
         else
           && current == Off(layout, i) && key == layout.pairs[i].key
           && valueStart + valueLength <= restarts && data[valueStart..valueStart + valueLength] == layout.pairs[i].value
           && NextEntryOffset() == Off(layout, i + 1)
           && restartIndex < numRestarts && layout.marks[restartIndex] <= i
           && (restartIndex + 1 < numRestarts ==> i <= layout.marks[restartIndex + 1])
    }

    /** About to parse entry `i`. */
    ghost predicate Poised(i: nat)
      requires Ready()
      reads this
    {
      && i <= |layout.pairs| && NextEntryOffset() == Off(layout, i)
      && restartIndex < numRestarts && layout.marks[restartIndex] <= i
      && (i < |layout.pairs| ==> layout.shares[i] == 0 || (0 < i && key == layout.pairs[i - 1].key))
    }

    predicate Valid()
      reads this
    {
      current < restarts
    }

    /** Valid exactly on an entry. */
    lemma ValidOnEntry(i: nat)
      requires Ready() && Standing(i)
      ensures Valid() <==> i < |layout.pairs|
    {
      hide Body, EntryOf, ShareOk, RestartBytes, DecodeFixed32, BlockFits;
      LaidOutSizes(data, restarts, layout);
      OffOrders(layout, i, |layout.pairs|);
    }

    method SeekToRestartPoint(index: nat)
      requires Ready() && index < numRestarts
      modifies this
      ensures Ready() && Poised(layout.marks[index])
    {
      key := [];
      restartIndex := index;
      valueStart, valueLength := GetRestartPoint(index), 0;
    }

    method ParseNextKey(ghost i: nat) returns (ok: bool)
      requires Ready() && Poised(i)
      modifies this
      ensures Ready() && ok == (i < |layout.pairs|) && Standing(i)
    {
      hide Body, EntryOf, EntryBytes, ShareOk, RestartBytes, DecodeFixed32, BlockFits;
      LaidOutSizes(data, restarts, layout);
      OffOrders(layout, i, |layout.pairs|);
      current := NextEntryOffset();
      if current >= restarts {
        current := restarts;
        restartIndex := numRestarts;
        return false;
      }
      TakeEntry(i);
      AdvanceRestart(i);
      return true;
    }

    /** Decodes the entry at `current` into the key and the value. */
    method TakeEntry(ghost i: nat)
      requires Ready() && i < |layout.pairs| && current == Off(layout, i)
      requires layout.shares[i] == 0 || (0 < i && key == layout.pairs[i - 1].key)
      modifies this`key, this`valueStart, this`valueLength
      ensures key == layout.pairs[i].key && NextEntryOffset() == Off(layout, i + 1)
      ensures valueStart + valueLength <= restarts && data[valueStart..valueStart + valueLength] == layout.pairs[i].value
    {
      hide Body, EntryOf, EntryBytes, ShareOk, RestartBytes, DecodeFixed32, LaidOut, PairFits, SharesOk;
      RegionAt(data, restarts, layout, i);
      ghost var pair, shared := layout.pairs[i], layout.shares[i];
      KeyCompletes(layout, i, key, pair.key[shared..]);
      ghost var tail := data[Off(layout, i + 1)..restarts];
      var good, h := DecodeEntry(data[current..restarts], pair, shared, tail);
      if !good || |key| < h.shared {
        assert false;
      } else {
        ValueFollows(data, current, restarts, h.rest, pair.key[shared..], pair.value, tail);
        key := key[..h.shared] + h.rest[..h.nonShared];
        valueStart := restarts - |h.rest| + h.nonShared;
        valueLength := h.valueLength;
      }
    }

    /** The restart index follows the current entry. */
    method AdvanceRestart(ghost i: nat)
      requires Ready() && i < |layout.pairs| && current == Off(layout, i) && restartIndex < numRestarts && layout.marks[restartIndex] <= i
      modifies this`restartIndex
      ensures restartIndex < numRestarts && layout.marks[restartIndex] <= i
      ensures restartIndex + 1 < numRestarts ==> i <= layout.marks[restartIndex + 1]
    {
      hide Body, EntryOf, ShareOk, RestartBytes, DecodeFixed32;
      while restartIndex + 1 < numRestarts && GetRestartPoint(restartIndex + 1) < current
        invariant Ready() && restartIndex < numRestarts && layout.marks[restartIndex] <= i
        decreases numRestarts - restartIndex
      {
        OffOrders(layout, layout.marks[restartIndex + 1], i);
        restartIndex := restartIndex + 1;
      }
      if restartIndex + 1 < numRestarts {
        OffOrders(layout, layout.marks[restartIndex + 1], i);
      }
    }

    method Next(ghost i: nat)
      requires Ready() && Standing(i) && i < |layout.pairs|
      modifies this
      ensures Ready() && Standing(i + 1)
    {
      var ok := ParseNextKey(i + 1);
    }

    /** Back to the last restart point before the entry, then forward to the entry in front of it. */
    method Prev(ghost i: nat)
      requires Ready() && Standing(i) && i < |layout.pairs|
      modifies this
      ensures Ready() && Standing(if i == 0 then |layout.pairs| else i - 1)
    {
      hide Body, EntryOf, EntryBytes, ShareOk, RestartBytes, DecodeFixed32, BlockFits;
      var original := current;
      while GetRestartPoint(restartIndex) >= original
        invariant Ready() && restartIndex < numRestarts && original == Off(layout, i) && layout.marks[restartIndex] <= i
        decreases restartIndex
      {
        OffOrders(layout, layout.marks[restartIndex], i);
        if restartIndex == 0 {
          current := restarts;
          restartIndex := numRestarts;
          return;
        }
        MarksAscend(layout, restartIndex - 1, restartIndex);
        restartIndex := restartIndex - 1;
      }
      OffOrders(layout, layout.marks[restartIndex], i);
      ghost var j := layout.marks[restartIndex];
      SeekToRestartPoint(restartIndex);
      var more := true;
      while more
        invariant Ready() && j <= i
        invariant more ==> j < i && Poised(j)
        invariant !more ==> 0 < j == i && Standing(j - 1)
        decreases more, i - j
      {
        var ok := ParseNextKey(j);
        OffOrders(layout, j + 1, i);
        more := ok && NextEntryOffset() < original;
        j := j + 1;
      }
    }

    /** The binary search for the last restart point with a key before the target, or the first one. */
    method FindRestart(target: Bytes) returns (left: nat)
      requires Ready() && Transitive(cmp) && Increasing(cmp, layout.pairs)
      ensures left < numRestarts && forall j :: 0 <= j < layout.marks[left] ==> cmp(layout.pairs[j].key, target) < 0
    {
      hide Body, EntryOf, EntryBytes, ShareOk, RestartBytes, DecodeFixed32, BlockFits;
      left := 0;
      var right := numRestarts - 1;
      FirstMarkIs(layout);
      while left < right
        invariant left <= right < numRestarts
        invariant forall j :: 0 <= j < layout.marks[left] ==> cmp(layout.pairs[j].key, target) < 0
      {
        var mid := (left + right + 1) / 2;
        var midKey := RestartKey(mid);
        if cmp(midKey, target) < 0 {
          left := mid;
        } else {
          right := mid - 1;
        }
      }
    }

    /** The whole key of a restart entry. */
    method RestartKey(mid: nat) returns (midKey: Bytes)
      requires Ready() && 0 < mid < numRestarts
      ensures layout.marks[mid] < |layout.pairs| && midKey == layout.pairs[layout.marks[mid]].key
    {
      hide Body, EntryOf, EntryBytes, ShareOk, RestartBytes, DecodeFixed32, BlockFits;
      ghost var i := layout.marks[mid];
      MarkIsEntry(layout, mid);
      RegionAt(data, restarts, layout, i);
      EntryIsSplit(layout, i);
      var regionOffset := GetRestartPoint(mid);
      midKey := [];
      var good, h := DecodeEntry(data[regionOffset..restarts], layout.pairs[i], layout.shares[i], data[Off(layout, i + 1)..restarts]);
      if !good || h.shared != 0 {
        assert false;
      } else {
        midKey := h.rest[..h.nonShared];
        assert midKey == layout.pairs[i].key;
      }
    }

    /** The first entry whose key is not before the target. */
    method Seek(target: Bytes) returns (ghost at: nat)
      requires Ready() && Transitive(cmp) && Increasing(cmp, layout.pairs)
      modifies this
      ensures Ready() && Standing(at)
      ensures forall j :: 0 <= j < at ==> cmp(layout.pairs[j].key, target) < 0
      ensures at < |layout.pairs| ==> cmp(layout.pairs[at].key, target) >= 0
    {
      hide Body, EntryOf, EntryBytes, ShareOk, RestartBytes, DecodeFixed32, BlockFits;
      var left := FindRestart(target);
      SeekToRestartPoint(left);
      at := layout.marks[left];
      while true
        invariant Ready() && Poised(at)
        invariant forall j :: 0 <= j < at ==> cmp(layout.pairs[j].key, target) < 0
        decreases |layout.pairs| - at
      {
        var ok := ParseNextKey(at);
        if !ok {
          return;
        }
        if cmp(key, target) >= 0 {
          return;
        }
        at := at + 1;
      }
    }

    method SeekToFirst()
      requires Ready()
      modifies this
      ensures Ready() && Standing(0)
    {
      FirstMarkIs(layout);
      SeekToRestartPoint(0);
      var ok := ParseNextKey(0);
    }

    method SeekToLast()
      requires Ready()
      modifies this
      ensures Ready() && Standing(if layout.pairs == [] then 0 else |layout.pairs| - 1)
    {
      hide Body, EntryOf, EntryBytes, ShareOk, RestartBytes, DecodeFixed32, BlockFits;
      FirstMarkIs(layout);
      LaidOutSizes(data, restarts, layout);
      SeekToRestartPoint(numRestarts - 1);
      ghost var j := layout.marks[numRestarts - 1];
      var more := true;
      while more
        invariant Ready() && j <= |layout.pairs| + 1
        invariant more ==> Poised(j) && (j < |layout.pairs| || layout.pairs == [])
        invariant !more ==> 0 < j && Standing(j - 1) && (j == |layout.pairs| || layout.pairs == [])
        decreases more, |layout.pairs| + 1 - j
      {
        var ok := ParseNextKey(j);
        if ok {
          OffOrders(layout, j + 1, |layout.pairs|);
        }
        more := ok && NextEntryOffset() < restarts;
        j := j + 1;
      }
    }
  }

  /** The key delta, then the value, then what follows the entry, up to the restart array. */
  lemma ValueFollows(data: Bytes, current: nat, restarts: nat, rest: Bytes, delta: Bytes, value: Bytes, tail: Bytes)
    requires current <= restarts <= |data| && |rest| <= restarts - current && rest == delta + value + tail
    requires data[current..restarts][restarts - current - |rest|..] == rest
    ensures var start := restarts - |rest| + |delta|;
            && rest[..|delta|] == delta && start + |value| + |tail| == restarts && data[start..start + |value|] == value
  {
    var from := restarts - |rest|;
    assert data[current..restarts][restarts - current - |rest|..] == data[from..restarts];
    assert rest[|delta|..|delta| + |value|] == value;
    SliceOfSlice(data, from, restarts, |delta|, |delta| + |value|);
  }

  lemma SliceOfSlice(data: Bytes, a: nat, b: nat, x: nat, y: nat)
    requires a <= b <= |data| && x <= y <= b - a
    ensures data[a..b][x..y] == data[a + x..a + y]
  {
    forall k | 0 <= k < y - x
      ensures data[a..b][x..y][k] == data[a + x..a + y][k]
    {
      assert data[a..b][x..y][k] == data[a..b][x + k];
    }
  }

  lemma LaidOutSizes(data: Bytes, restarts: nat, l: Layout)
    requires LaidOut(data, restarts, l)
    ensures |data| >= 4 && restarts == |data| - (1 + DecodeFixed32(data[|data| - 4..])) * 4
    ensures DecodeFixed32(data[|data| - 4..]) == |l.marks| > 0 && restarts == Off(l, |l.pairs|)
    ensures data[..restarts] == Body(l, |l.pairs|)
  {
    assert |data[..restarts]| == restarts;
  }

  /** What lies between an entry's offset and the restart array. */
  lemma RegionAt(data: Bytes, restarts: nat, l: Layout, i: nat)
    requires LaidOut(data, restarts, l) && i < |l.pairs|
    ensures SharesOk(l) && |l.shares| == |l.pairs| && restarts <= |data|
    ensures Off(l, i) < restarts && Off(l, i + 1) <= restarts && PairFits(l.pairs[i]) && l.shares[i] <= |l.pairs[i].key|
    ensures data[Off(l, i)..restarts] == EntryBytes(l.pairs[i], l.shares[i]) + data[Off(l, i + 1)..restarts]
    ensures Off(l, i + 1) == Off(l, i) + |EntryBytes(l.pairs[i], l.shares[i])|
  {
    hide Body, EntryBytes;
    LaidOutSizes(data, restarts, l);
    assert ShareOk(l, i);
    EntryAt(l, i);
    OffOrders(l, i, |l.pairs|);
    var body := Body(l, |l.pairs|);
    assert data[Off(l, i)..restarts] == body[Off(l, i)..] && data[Off(l, i + 1)..restarts] == body[Off(l, i + 1)..];
  }

  /** The delta of an entry completes its key. */
  lemma EntryIsSplit(l: Layout, i: nat)
    requires SharesOk(l) && i < |l.pairs|
    ensures var p, shared := l.pairs[i], l.shares[i];
            && shared <= |p.key| && p.key[..shared] + p.key[shared..] == p.key
            && (0 < i ==> shared <= |l.pairs[i - 1].key| && l.pairs[i - 1].key[..shared] == p.key[..shared])
            && (i == 0 ==> shared == 0)
  {
    assert ShareOk(l, i);
  }

  lemma KeyCompletes(l: Layout, i: nat, key: Bytes, delta: Bytes)
    requires SharesOk(l) && i < |l.pairs| && l.shares[i] <= |l.pairs[i].key| && delta == l.pairs[i].key[l.shares[i]..]
    requires l.shares[i] == 0 || (0 < i && key == l.pairs[i - 1].key)
    ensures l.shares[i] <= |key| && key[..l.shares[i]] + delta == l.pairs[i].key
  {
    EntryIsSplit(l, i);
  }

  lemma MarksAscend(l: Layout, i: nat, j: nat)
    requires LayoutOk(l) && i < j < |l.marks|
    ensures l.marks[i] < l.marks[j]
  {
  }

  lemma FirstMarkIs(l: Layout)
    requires LayoutOk(l)
    ensures l.marks != [] && l.marks[0] == 0
    ensures forall j :: 0 <= j < |l.marks| ==> l.marks[j] <= |l.pairs| && (l.pairs != [] ==> l.marks[j] < |l.pairs|)
  {
  }

  lemma MarkIsEntry(l: Layout, j: nat)
    requires LayoutOk(l) && 0 < j < |l.marks|
    ensures l.marks[j] < |l.pairs| && l.shares[l.marks[j]] == 0
  {
  }
}
