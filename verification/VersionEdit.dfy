/** Version edits as records of the MANIFEST (db/version_edit). */
module VersionEdit {
  import opened Common
  import opened Coding
  import opened Varint
  import opened Readers
  import opened Slices

  const NUM_LEVELS: nat := 7

  /** A file as the MANIFEST describes it, its bounds as encoded internal keys. */
  datatype FileMetaData = FileMetaData(number: nat, fileSize: nat, smallest: Bytes, largest: Bytes)

  datatype Edit = Edit(comparator: Option<Bytes>, logNumber: Option<nat>, prevLogNumber: Option<nat>, nextFileNumber: Option<nat>,
                       lastSequence: Option<nat>, compactPointers: seq<(nat, Bytes)>, deletedFiles: set<(nat, nat)>,
                       newFiles: seq<(nat, FileMetaData)>)

  const EMPTY: Edit := Edit(None, None, None, None, None, [], {}, [])

  // ---------- the encoding, record by record ----------

  datatype Record =
    | Comparator(name: Bytes)
    | LogNumber(number: nat)
    | NextFileNumber(number: nat)
    | LastSequence(number: nat)
    | CompactPointer(level: nat, key: Bytes)
    | DeletedFile(level: nat, number: nat)
    | NewFile(level: nat, file: FileMetaData)
    | PrevLogNumber(number: nat)

  predicate FileFits(f: FileMetaData) {
    f.number < TWO_64 && f.fileSize < TWO_64 && |f.smallest| < TWO_32 && |f.largest| < TWO_32
  }

  /** Numbers have 64 bits, strings 32-bit lengths, and levels exist. */
  predicate RecordFits(r: Record) {
    match r
    case Comparator(name) => |name| < TWO_32
    case CompactPointer(level, key) => level < NUM_LEVELS && |key| < TWO_32
    case DeletedFile(level, number) => level < NUM_LEVELS && number < TWO_64
    case NewFile(level, f) => level < NUM_LEVELS && FileFits(f)
    case _ => r.number < TWO_64
  }

  /** What the fields of a record can hold: 64-bit numbers, and levels that are ints. */
  predicate RecordTyped(r: Record) {
    match r
    case Comparator(_) => true
    case CompactPointer(level, _) => level < TWO_32
    case DeletedFile(level, number) => level < TWO_32 && number < TWO_64
    case NewFile(level, f) => level < TWO_32 && f.number < TWO_64 && f.fileSize < TWO_64
    case _ => r.number < TWO_64
  }

  function Tag(r: Record): (t: nat)
    ensures 1 <= t <= 9 && t != 8
  {
    match r
    case Comparator(_) => 1
    case LogNumber(_) => 2
    case NextFileNumber(_) => 3
    case LastSequence(_) => 4
    case CompactPointer(_, _) => 5
    case DeletedFile(_, _) => 6
    case NewFile(_, _) => 7
    case PrevLogNumber(_) => 9
  }

  function FileBytes(f: FileMetaData): Bytes {
    VarintBytes(f.number) + (VarintBytes(f.fileSize) + (Prefixed(f.smallest) + Prefixed(f.largest)))
  }

  function Payload(r: Record): Bytes {
    match r
    case Comparator(name) => Prefixed(name)
    case CompactPointer(level, key) => VarintBytes(level) + Prefixed(key)
    case DeletedFile(level, number) => VarintBytes(level) + VarintBytes(number)
    case NewFile(level, f) => VarintBytes(level) + FileBytes(f)
    case _ => VarintBytes(r.number)
  }

  function RecordBytes(r: Record): (b: Bytes)
    ensures 0 < |b|
  {
    VarintBytes(Tag(r)) + Payload(r)
  }

  function AllBytes(rs: seq<Record>): Bytes {
    if rs == [] then [] else RecordBytes(rs[0]) + AllBytes(rs[1..])
  }

  /** What reading one record does to an edit. */
  function Put(e: Edit, r: Record): Edit {
    match r
    case Comparator(name) => e.(comparator := Some(name))
    case LogNumber(n) => e.(logNumber := Some(n))
    case NextFileNumber(n) => e.(nextFileNumber := Some(n))
    case LastSequence(n) => e.(lastSequence := Some(n))
    case CompactPointer(level, key) => e.(compactPointers := e.compactPointers + [(level, key)])
    case DeletedFile(level, n) => e.(deletedFiles := e.deletedFiles + {(level, n)})
    case NewFile(level, f) => e.(newFiles := e.newFiles + [(level, f)])
    case PrevLogNumber(n) => e.(prevLogNumber := Some(n))
  }

  function PutAll(e: Edit, rs: seq<Record>): Edit
    decreases rs
  {
    if rs == [] then e else PutAll(Put(e, rs[0]), rs[1..])
  }

  lemma AllBytesUnfolds(rs: seq<Record>)
    ensures AllBytes([]) == []
    ensures rs != [] ==> AllBytes(rs) == RecordBytes(rs[0]) + AllBytes(rs[1..])
  {
    hide RecordBytes;
  }

  lemma {:induction false} AllBytesAppends(a: seq<Record>, b: seq<Record>)
    ensures AllBytes(a + b) == AllBytes(a) + AllBytes(b)
  {
    hide RecordBytes, AllBytes;
    AllBytesUnfolds(a);
    if a == [] {
      assert a + b == b;
    } else {
      AllBytesUnfolds(a + b);
      AllBytesAppends(a[1..], b);
      assert (a + b)[1..] == a[1..] + b;
    }
  }

  lemma JustOne(r: Record)
    ensures AllBytes([r]) == RecordBytes(r)
  {
    hide RecordBytes, AllBytes;
    AllBytesUnfolds([r]);
    assert [r][1..] == [];
  }

  lemma AllBytesOne(a: seq<Record>, r: Record)
    ensures AllBytes(a + [r]) == AllBytes(a) + RecordBytes(r)
  {
    hide RecordBytes, AllBytes;
    AllBytesAppends(a, [r]);
    JustOne(r);
  }

  lemma {:induction false} PutAllAppends(e: Edit, a: seq<Record>, b: seq<Record>)
    ensures PutAll(e, a + b) == PutAll(PutAll(e, a), b)
    decreases a
  {
    hide Put;
    if a == [] {
      assert a + b == b;
    } else {
      PutAllAppends(Put(e, a[0]), a[1..], b);
      assert (a + b)[1..] == a[1..] + b;
    }
  }

  // ---------- the deleted files in the order of their set ----------

  predicate PairBefore(a: (nat, nat), b: (nat, nat)) {
    a.0 < b.0 || (a.0 == b.0 && a.1 < b.1)
  }

  ghost predicate IsLeast(s: set<(nat, nat)>, x: (nat, nat)) {
    x in s && forall y :: y in s && y != x ==> PairBefore(x, y)
  }

  lemma {:induction false} LeastExists(s: set<(nat, nat)>)
    requires s != {}
    ensures exists x :: IsLeast(s, x)
  {
    var y :| y in s;
    var rest := s - {y};
    assert s == rest + {y};
    if rest == {} {
      assert IsLeast(s, y);
    } else {
      LeastExists(rest);
      var x :| IsLeast(rest, x);
      var least := if PairBefore(y, x) then y else x;
      assert IsLeast(s, least);
    }
  }

  /** The pairs of a std::set, least first. */
  ghost function InOrder(s: set<(nat, nat)>): seq<(nat, nat)> {
    if s == {} then [] else
      LeastExists(s);
      var x :| IsLeast(s, x);
      [x] + InOrder(s - {x})
  }

  // ---------- an edit as its records ----------

  ghost function Pointers(ps: seq<(nat, Bytes)>): (rs: seq<Record>)
    ensures |rs| == |ps| && forall i :: 0 <= i < |ps| ==> rs[i] == CompactPointer(ps[i].0, ps[i].1)
  {
    seq(|ps|, i requires 0 <= i < |ps| => CompactPointer(ps[i].0, ps[i].1))
  }

  ghost function Deletions(ds: seq<(nat, nat)>): (rs: seq<Record>)
    ensures |rs| == |ds| && forall i :: 0 <= i < |ds| ==> rs[i] == DeletedFile(ds[i].0, ds[i].1)
  {
    seq(|ds|, i requires 0 <= i < |ds| => DeletedFile(ds[i].0, ds[i].1))
  }

  ghost function Files(fs: seq<(nat, FileMetaData)>): (rs: seq<Record>)
    ensures |rs| == |fs| && forall i :: 0 <= i < |fs| ==> rs[i] == NewFile(fs[i].0, fs[i].1)
  {
    seq(|fs|, i requires 0 <= i < |fs| => NewFile(fs[i].0, fs[i].1))
  }

  ghost function NameRecord(e: Edit): (rs: seq<Record>)
    ensures |rs| <= 1
  {
    if e.comparator.Some? then [Comparator(e.comparator.value)] else []
  }

  ghost function LogRecord(e: Edit): (rs: seq<Record>)
    ensures |rs| <= 1
  {
    if e.logNumber.Some? then [LogNumber(e.logNumber.value)] else []
  }

  ghost function PrevLogRecord(e: Edit): (rs: seq<Record>)
    ensures |rs| <= 1
  {
    if e.prevLogNumber.Some? then [PrevLogNumber(e.prevLogNumber.value)] else []
  }

  ghost function NextFileRecord(e: Edit): (rs: seq<Record>)
    ensures |rs| <= 1
  {
    if e.nextFileNumber.Some? then [NextFileNumber(e.nextFileNumber.value)] else []
  }

  ghost function LastSequenceRecord(e: Edit): (rs: seq<Record>)
    ensures |rs| <= 1
  {
    if e.lastSequence.Some? then [LastSequence(e.lastSequence.value)] else []
  }

  /** The single fields, in the order they are written. */
  ghost function Scalars(e: Edit): seq<Record> {
    NameRecord(e) + LogRecord(e) + PrevLogRecord(e) + NextFileRecord(e) + LastSequenceRecord(e)
  }

  ghost function Records(e: Edit): seq<Record> {
    Scalars(e) + Pointers(e.compactPointers) + Deletions(InOrder(e.deletedFiles)) + Files(e.newFiles)
  }

  /** The edit fits its encoding: 64-bit numbers, 32-bit lengths, levels that exist. */
  ghost predicate EditFits(e: Edit) {
    forall r :: r in Records(e) ==> RecordFits(r)
  }

  ghost predicate EditTyped(e: Edit) {
    forall r :: r in Records(e) ==> RecordTyped(r)
  }

  lemma {:induction false} PutPointers(e: Edit, ps: seq<(nat, Bytes)>)
    ensures PutAll(e, Pointers(ps)) == e.(compactPointers := e.compactPointers + ps)
  {
    hide PutAll;
    PutNone(e);
    if ps == [] {
      assert Pointers(ps) == [];
    } else {
      var n := |ps| - 1;
      PutPointers(e, ps[..n]);
      assert Pointers(ps) == Pointers(ps[..n]) + [CompactPointer(ps[n].0, ps[n].1)];
      PutAllAppends(e, Pointers(ps[..n]), [CompactPointer(ps[n].0, ps[n].1)]);
      PutOne(PutAll(e, Pointers(ps[..n])), CompactPointer(ps[n].0, ps[n].1));
      assert ps == ps[..n] + [(ps[n].0, ps[n].1)];
    }
  }

  lemma {:induction false} PutDeletions(e: Edit, ds: seq<(nat, nat)>)
    ensures PutAll(e, Deletions(ds)) == e.(deletedFiles := e.deletedFiles + set d | d in ds)
  {
    hide PutAll;
    PutNone(e);
    if ds == [] {
      assert Deletions(ds) == [];
    } else {
      var n := |ds| - 1;
      PutDeletions(e, ds[..n]);
      assert Deletions(ds) == Deletions(ds[..n]) + [DeletedFile(ds[n].0, ds[n].1)];
      PutAllAppends(e, Deletions(ds[..n]), [DeletedFile(ds[n].0, ds[n].1)]);
      PutOne(PutAll(e, Deletions(ds[..n])), DeletedFile(ds[n].0, ds[n].1));
      assert ds == ds[..n] + [(ds[n].0, ds[n].1)];
    }
  }

  lemma {:induction false} PutFiles(e: Edit, fs: seq<(nat, FileMetaData)>)
    ensures PutAll(e, Files(fs)) == e.(newFiles := e.newFiles + fs)
  {
    hide PutAll;
    PutNone(e);
    if fs == [] {
      assert Files(fs) == [];
    } else {
      var n := |fs| - 1;
      PutFiles(e, fs[..n]);
      assert Files(fs) == Files(fs[..n]) + [NewFile(fs[n].0, fs[n].1)];
      PutAllAppends(e, Files(fs[..n]), [NewFile(fs[n].0, fs[n].1)]);
      PutOne(PutAll(e, Files(fs[..n])), NewFile(fs[n].0, fs[n].1));
      assert fs == fs[..n] + [(fs[n].0, fs[n].1)];
    }
  }

  lemma PutOne(e: Edit, r: Record)
    ensures PutAll(e, [r]) == Put(e, r)
  {
    assert [r][1..] == [];
  }

  lemma LeastIsFirst(s: set<(nat, nat)>, d: (nat, nat))
    requires IsLeast(s, d)
    ensures InOrder(s) == [d] + InOrder(s - {d})
  {
  }

  lemma NoneInOrder()
    ensures InOrder({}) == []
  {
  }

  lemma {:induction false} InOrderIs(s: set<(nat, nat)>)
    ensures forall d :: d in InOrder(s) <==> d in s
    ensures forall i, j :: 0 <= i < j < |InOrder(s)| ==> PairBefore(InOrder(s)[i], InOrder(s)[j])
  {
    hide InOrder;
    NoneInOrder();
    if s != {} {
      LeastExists(s);
      var x :| IsLeast(s, x);
      LeastIsFirst(s, x);
      InOrderIs(s - {x});
      assert s == {x} + (s - {x});
      forall d
        ensures d in InOrder(s) <==> d == x || d in s - {x}
      {
      }
    }
  }

  lemma PutScalars(e: Edit, before: Edit)
    requires before.comparator.None? && before.logNumber.None? && before.prevLogNumber.None?
    requires before.nextFileNumber.None? && before.lastSequence.None?
    ensures PutAll(before, Scalars(e)) ==
            before.(comparator := e.comparator, logNumber := e.logNumber, prevLogNumber := e.prevLogNumber,
                    nextFileNumber := e.nextFileNumber, lastSequence := e.lastSequence)
  {
    hide PutAll;
    var a := NameRecord(e);
    var b := a + LogRecord(e);
    var c := b + PrevLogRecord(e);
    var d := c + NextFileRecord(e);
    PutMaybe(before, [], a);
    PutMaybe(before, a, LogRecord(e));
    PutMaybe(before, b, PrevLogRecord(e));
    PutMaybe(before, c, NextFileRecord(e));
    PutMaybe(before, d, LastSequenceRecord(e));
    PutNone(before);
    assert [] + a == a;
  }

  lemma PutNone(e: Edit)
    ensures PutAll(e, []) == e
  {
  }

  lemma PutMaybe(e: Edit, before: seq<Record>, rs: seq<Record>)
    requires |rs| <= 1
    ensures PutAll(e, before + rs) == if rs == [] then PutAll(e, before) else Put(PutAll(e, before), rs[0])
  {
    PutAllAppends(e, before, rs);
    if rs != [] {
      PutOne(PutAll(e, before), rs[0]);
      assert rs == [rs[0]];
    }
  }

  /** Reading an edit's records into a cleared edit gives the edit, after any compaction pointers already there. */
  lemma PutRecords(e: Edit, pointers: seq<(nat, Bytes)>)
    ensures PutAll(EMPTY.(compactPointers := pointers), Records(e)) == e.(compactPointers := pointers + e.compactPointers)
  {
    hide PutAll, Put, Scalars, Pointers, Deletions, Files, InOrder;
    var start := EMPTY.(compactPointers := pointers);
    var a, b, c, d := Scalars(e), Pointers(e.compactPointers), Deletions(InOrder(e.deletedFiles)), Files(e.newFiles);
    PutAllAppends(start, a, b);
    PutAllAppends(start, a + b, c);
    PutAllAppends(start, a + b + c, d);
    PutScalars(e, start);
    PutPointers(PutAll(start, a), e.compactPointers);
    PutDeletions(PutAll(start, a + b), InOrder(e.deletedFiles));
    PutFiles(PutAll(start, a + b + c), e.newFiles);
    InOrderIs(e.deletedFiles);
    assert (set d | d in InOrder(e.deletedFiles)) == e.deletedFiles;
  }

  // ---------- reading the parts of a record ----------

  ghost predicate ReadsLevel(input: Bytes, level: nat, rest: Bytes) {
    level < 7 && ReadsVarint(input, 32, level, rest)
  }

  ghost predicate ReadsNumber(input: Bytes, number: nat, rest: Bytes) {
    ReadsVarint(input, 64, number, rest)
  }

  ghost predicate ReadsNumbers(input: Bytes, n: (nat, nat), rest: Bytes) {
    Then(ReadsNumber, ReadsNumber, input, n.0, n.1, rest)
  }

  ghost predicate ReadsKeys(input: Bytes, k: (Bytes, Bytes), rest: Bytes) {
    Then(ReadsSlice, ReadsSlice, input, k.0, k.1, rest)
  }

  ghost predicate ReadsFile(input: Bytes, f: FileMetaData, rest: Bytes) {
    Then(ReadsNumbers, ReadsKeys, input, (f.number, f.fileSize), (f.smallest, f.largest), rest)
  }

  /** The input starts with the payload of a record. */
  ghost predicate ReadsPayload(input: Bytes, r: Record, rest: Bytes) {
    match r
    case Comparator(name) => ReadsSlice(input, name, rest)
    case CompactPointer(level, key) => Then(ReadsLevel, ReadsSlice, input, level, key, rest)
    case DeletedFile(level, number) => Then(ReadsLevel, ReadsNumber, input, level, number, rest)
    case NewFile(level, f) => Then(ReadsLevel, ReadsFile, input, level, f, rest)
    case _ => ReadsNumber(input, r.number, rest)
  }

  /** The input starts with a record: its tag and its payload. */
  ghost predicate ReadsRecord(input: Bytes, r: Record, rest: Bytes) {
    exists mid :: ReadsVarint(input, 32, Tag(r), mid) && ReadsPayload(mid, r, rest)
  }

  lemma PartsReadOnce()
    ensures Deterministic(ReadsLevel) && Deterministic(ReadsNumber) && Deterministic(ReadsSlice)
  {
    hide ReadsVarint, ReadsSlice;
    SlicesReadOnce();
    forall input, a, r, b, r' | ReadsLevel(input, a, r) && ReadsLevel(input, b, r')
      ensures a == b && r == r'
    {
      ReadsVarintOnce(input, 32, a, r, b, r');
    }
    forall input, a, r, b, r' | ReadsNumber(input, a, r) && ReadsNumber(input, b, r')
      ensures a == b && r == r'
    {
      ReadsVarintOnce(input, 64, a, r, b, r');
    }
  }

  lemma PairsReadOnce()
    ensures Deterministic(ReadsNumbers) && Deterministic(ReadsKeys)
  {
    hide Then, ReadsNumber, ReadsSlice;
    PartsReadOnce();
    forall input, a: (nat, nat), r, b: (nat, nat), r' | ReadsNumbers(input, a, r) && ReadsNumbers(input, b, r')
      ensures a == b && r == r'
    {
      ThenOnce(ReadsNumber, ReadsNumber, input, a.0, a.1, r, b.0, b.1, r');
    }
    forall input, a: (Bytes, Bytes), r, b: (Bytes, Bytes), r' | ReadsKeys(input, a, r) && ReadsKeys(input, b, r')
      ensures a == b && r == r'
    {
      ThenOnce(ReadsSlice, ReadsSlice, input, a.0, a.1, r, b.0, b.1, r');
    }
  }

  lemma FilesReadOnce()
    ensures Deterministic(ReadsFile)
  {
    hide Then, ReadsNumbers, ReadsKeys;
    PairsReadOnce();
    forall input, f: FileMetaData, r, g: FileMetaData, r' | ReadsFile(input, f, r) && ReadsFile(input, g, r')
      ensures f == g && r == r'
    {
      ThenOnce(ReadsNumbers, ReadsKeys, input, (f.number, f.fileSize), (f.smallest, f.largest), r,
               (g.number, g.fileSize), (g.smallest, g.largest), r');
    }
  }

  lemma PayloadReadsOnce(input: Bytes, r: Record, rest: Bytes, r': Record, rest': Bytes)
    requires Tag(r) == Tag(r') && ReadsPayload(input, r, rest) && ReadsPayload(input, r', rest')
    ensures r == r' && rest == rest'
  {
    hide Then, ReadsLevel, ReadsNumber, ReadsSlice, ReadsFile;
    PartsReadOnce();
    FilesReadOnce();
    match r
    case CompactPointer(level, key) => ThenOnce(ReadsLevel, ReadsSlice, input, level, key, rest, r'.level, r'.key, rest');
    case DeletedFile(level, number) => ThenOnce(ReadsLevel, ReadsNumber, input, level, number, rest, r'.level, r'.number, rest');
    case NewFile(level, f) => ThenOnce(ReadsLevel, ReadsFile, input, level, f, rest, r'.level, r'.file, rest');
    case _ =>
  }

  lemma RecordsReadOnce()
    ensures Deterministic(ReadsRecord)
  {
    hide ReadsVarint, ReadsPayload, Tag;
    forall input, r, rest, r', rest' | ReadsRecord(input, r, rest) && ReadsRecord(input, r', rest')
      ensures r == r' && rest == rest'
    {
      var mid :| ReadsVarint(input, 32, Tag(r), mid) && ReadsPayload(mid, r, rest);
      var mid' :| ReadsVarint(input, 32, Tag(r'), mid') && ReadsPayload(mid', r', rest');
      ReadsVarintOnce(input, 32, Tag(r), mid, Tag(r'), mid');
      PayloadReadsOnce(mid, r, rest, r', rest');
    }
  }

  // ---------- what was written reads back ----------

  lemma WrittenNumberReads(v: nat, tail: Bytes)
    requires v < TWO_64
    ensures ReadsNumber(VarintBytes(v) + tail, v, tail)
  {
    hide VarintBytes, Pow2, ReadsVarint;
    Pow2Values();
    WrittenVarintReads(v, 64, tail);
  }

  lemma WrittenLevelReads(l: nat, tail: Bytes)
    requires l < NUM_LEVELS
    ensures ReadsLevel(VarintBytes(l) + tail, l, tail)
  {
    hide VarintBytes, Pow2, ReadsVarint;
    Pow2Values();
    WrittenVarintReads(l, 32, tail);
  }

  lemma WrittenFileReads(f: FileMetaData, tail: Bytes)
    requires FileFits(f)
    ensures ReadsFile(FileBytes(f) + tail, f, tail)
  {
    hide VarintBytes, Prefixed, ReadsNumber, ReadsSlice, Then;
    var t1 := Prefixed(f.largest) + tail;
    var t2 := Prefixed(f.smallest) + t1;
    var t3 := VarintBytes(f.fileSize) + t2;
    assert FileBytes(f) + tail == VarintBytes(f.number) + t3;
    WrittenNumberReads(f.number, t3);
    WrittenNumberReads(f.fileSize, t2);
    WrittenSliceReads(f.smallest, t1);
    WrittenSliceReads(f.largest, tail);
    ThenReads(ReadsNumber, ReadsNumber, FileBytes(f) + tail, f.number, t3, f.fileSize, t2);
    ThenReads(ReadsSlice, ReadsSlice, t2, f.smallest, t1, f.largest, tail);
    ThenReads(ReadsNumbers, ReadsKeys, FileBytes(f) + tail, (f.number, f.fileSize), t2, (f.smallest, f.largest), tail);
  }

  lemma WrittenPayloadReads(r: Record, tail: Bytes)
    requires RecordFits(r)
    ensures ReadsPayload(Payload(r) + tail, r, tail)
  {
    hide VarintBytes, Prefixed, FileBytes, FileFits, ReadsLevel, ReadsNumber, ReadsSlice, ReadsFile, Then;
    match r
    case Comparator(name) => WrittenSliceReads(name, tail);
    case CompactPointer(level, key) =>
      Regroup(VarintBytes(level), Prefixed(key), tail);
      WrittenLevelReads(level, Prefixed(key) + tail);
      WrittenSliceReads(key, tail);
      ThenReads(ReadsLevel, ReadsSlice, Payload(r) + tail, level, Prefixed(key) + tail, key, tail);
    case DeletedFile(level, number) =>
      Regroup(VarintBytes(level), VarintBytes(number), tail);
      WrittenLevelReads(level, VarintBytes(number) + tail);
      WrittenNumberReads(number, tail);
      ThenReads(ReadsLevel, ReadsNumber, Payload(r) + tail, level, VarintBytes(number) + tail, number, tail);
    case NewFile(level, f) =>
      Regroup(VarintBytes(level), FileBytes(f), tail);
      WrittenLevelReads(level, FileBytes(f) + tail);
      WrittenFileReads(f, tail);
      ThenReads(ReadsLevel, ReadsFile, Payload(r) + tail, level, FileBytes(f) + tail, f, tail);
    case _ => WrittenNumberReads(r.number, tail);
  }

  lemma WrittenRecordReads(r: Record, tail: Bytes)
    requires RecordFits(r)
    ensures ReadsRecord(RecordBytes(r) + tail, r, tail)
  {
    hide VarintBytes, Pow2, Payload, RecordFits, ReadsVarint, ReadsPayload, Tag;
    Pow2Values();
    Regroup(VarintBytes(Tag(r)), Payload(r), tail);
    WrittenVarintReads(Tag(r), 32, Payload(r) + tail);
    WrittenPayloadReads(r, tail);
  }

  lemma {:induction false} WrittenRecordsRead(rs: seq<Record>)
    requires forall r :: r in rs ==> RecordFits(r)
    ensures Many(ReadsRecord, AllBytes(rs), rs, [])
  {
    hide RecordBytes, AllBytes, ReadsRecord, RecordFits;
    AllBytesUnfolds(rs);
    if rs != [] {
      WrittenRecordReads(rs[0], AllBytes(rs[1..]));
      WrittenRecordsRead(rs[1..]);
    }
  }

  lemma NothingLeft()
    ensures forall r, rest :: !ReadsRecord([], r, rest)
  {
    hide ReadsPayload, Tag;
  }

  /** The bytes of an edit that fits its encoding read as its records, and in no other way. */
  lemma EditParses(e: Edit, rs: seq<Record>, rest: Bytes)
    requires EditFits(e) && Parses(ReadsRecord, AllBytes(Records(e)), rs, rest)
    ensures rs == Records(e) && rest == []
  {
    hide Records, AllBytes, ReadsRecord, RecordFits, Many;
    WrittenRecordsRead(Records(e));
    NothingLeft();
    RecordsReadOnce();
    ParseIsUnique(ReadsRecord, AllBytes(Records(e)), rs, rest, Records(e), []);
  }

  // ---------- reading the parts of a record ----------

  /** GetLevel: a varint that names a level. */
  method GetLevel(input: Bytes) returns (ok: bool, level: nat, rest: Bytes)
    ensures ok ==> ReadsLevel(input, level, rest) && |rest| < |input| && level < NUM_LEVELS
    ensures !ok ==> forall l, r :: !ReadsLevel(input, l, r)
  {
    hide Pow2, ReadsVarint;
    ok, level, rest := GetVarint(input, 32);
    if ok && level >= NUM_LEVELS {
      NotALevel(input, level, rest);
      ok := false;
    }
  }

  lemma NotALevel(input: Bytes, level: nat, rest: Bytes)
    requires ReadsVarint(input, 32, level, rest) && NUM_LEVELS <= level
    ensures forall l, r :: !ReadsLevel(input, l, r)
  {
    hide ReadsVarint;
    forall l, r
      ensures !ReadsLevel(input, l, r)
    {
      if ReadsLevel(input, l, r) {
        ReadsVarintOnce(input, 32, level, rest, l, r);
      }
    }
  }

  method GetNumber(input: Bytes) returns (ok: bool, value: nat, rest: Bytes)
    ensures ok ==> ReadsNumber(input, value, rest) && |rest| < |input| && value < TWO_64
    ensures !ok ==> forall n, r :: !ReadsNumber(input, n, r)
  {
    hide Pow2, ReadsVarint;
    Pow2Values();
    ok, value, rest := GetVarint(input, 64);
  }

  method GetNumbers(input: Bytes) returns (ok: bool, n: (nat, nat), rest: Bytes)
    ensures ok ==> ReadsNumbers(input, n, rest) && |rest| < |input| && n.0 < TWO_64 && n.1 < TWO_64
    ensures !ok ==> forall v, r :: !ReadsNumbers(input, v, r)
  {
    hide ReadsNumber, Then, Deterministic;
    PartsReadOnce();
    n := (0, 0);
    var a, b, mid;
    ok, a, mid := GetNumber(input);
    if !ok {
      NoFirst(ReadsNumber, ReadsNumber, input);
      return false, n, [];
    }
    ok, b, rest := GetNumber(mid);
    if ok {
      ThenReads(ReadsNumber, ReadsNumber, input, a, mid, b, rest);
      n := (a, b);
    } else {
      NoSecond(ReadsNumber, ReadsNumber, input, a, mid);
    }
  }

  method GetKeys(input: Bytes) returns (ok: bool, k: (Bytes, Bytes), rest: Bytes)
    ensures ok ==> ReadsKeys(input, k, rest) && |rest| < |input| && |k.0| < TWO_32 && |k.1| < TWO_32
    ensures !ok ==> forall v, r :: !ReadsKeys(input, v, r)
  {
    hide ReadsSlice, Then, Deterministic;
    PartsReadOnce();
    k := ([], []);
    var a, b, mid;
    ok, a, mid := GetLengthPrefixedSlice(input);
    if !ok {
      NoFirst(ReadsSlice, ReadsSlice, input);
      return false, k, [];
    }
    ok, b, rest := GetLengthPrefixedSlice(mid);
    if ok {
      ThenReads(ReadsSlice, ReadsSlice, input, a, mid, b, rest);
      k := (a, b);
    } else {
      NoSecond(ReadsSlice, ReadsSlice, input, a, mid);
    }
  }

  method GetFile(input: Bytes) returns (ok: bool, file: FileMetaData, rest: Bytes)
    ensures ok ==> ReadsFile(input, file, rest) && |rest| < |input| && FileFits(file)
    ensures !ok ==> forall f, r :: !ReadsFile(input, f, r)
  {
    hide ReadsNumbers, ReadsKeys, Then, Deterministic;
    PairsReadOnce();
    file := FileMetaData(0, 0, [], []);
    var n, k, mid;
    ok, n, mid := GetNumbers(input);
    if !ok {
      NoFirst(ReadsNumbers, ReadsKeys, input);
      return false, file, [];
    }
    ok, k, rest := GetKeys(mid);
    if ok {
      ThenReads(ReadsNumbers, ReadsKeys, input, n, mid, k, rest);
      file := FileMetaData(n.0, n.1, k.0, k.1);
    } else {
      NoSecond(ReadsNumbers, ReadsKeys, input, n, mid);
    }
  }

  // ---------- the edit ----------

  class VersionEdit {
    var comparator: Option<Bytes>
    var logNumber: Option<nat>
    var prevLogNumber: Option<nat>
    var nextFileNumber: Option<nat>
    var lastSequence: Option<nat>
    var compactPointers: seq<(nat, Bytes)>
    var deletedFiles: set<(nat, nat)>
    var newFiles: seq<(nat, FileMetaData)>

    ghost function State(): Edit
      reads this
    {
      Edit(comparator, logNumber, prevLogNumber, nextFileNumber, lastSequence, compactPointers, deletedFiles, newFiles)
    }

    /** Clear leaves the compaction pointers. */
    method Clear()
      modifies this
      ensures State() == EMPTY.(compactPointers := old(compactPointers))
    {
      comparator, logNumber, prevLogNumber, nextFileNumber, lastSequence := None, None, None, None, None;
      deletedFiles, newFiles := {}, [];
    }

    // ---------- EncodeTo ----------

    method PutFile(dst: Bytes, level: nat, f: FileMetaData) returns (r: Bytes)
      requires RecordTyped(NewFile(level, f))
      ensures r == dst + RecordBytes(NewFile(level, f))
    {
      hide VarintBytes, Prefixed;
      var a := EncodeVarint32(7);
      var b := EncodeVarint32(level);
      var c := EncodeVarint64(f.number);
      var d := EncodeVarint64(f.fileSize);
      r := dst + a + b + c + d;
      r := PutLengthPrefixedSlice(r, f.smallest);
      r := PutLengthPrefixedSlice(r, f.largest);
      assert r == dst + (a + (b + (c + (d + (Prefixed(f.smallest) + Prefixed(f.largest))))));
    }

    method PutPointer(dst: Bytes, level: nat, key: Bytes) returns (r: Bytes)
      requires RecordTyped(CompactPointer(level, key))
      ensures r == dst + RecordBytes(CompactPointer(level, key))
    {
      hide VarintBytes, Prefixed;
      var a := EncodeVarint32(5);
      var b := EncodeVarint32(level);
      r := PutLengthPrefixedSlice(dst + a + b, key);
      assert r == dst + (a + (b + Prefixed(key)));
    }

    method PutDeletion(dst: Bytes, level: nat, number: nat) returns (r: Bytes)
      requires RecordTyped(DeletedFile(level, number))
      ensures r == dst + RecordBytes(DeletedFile(level, number))
    {
      hide VarintBytes;
      var a := EncodeVarint32(6);
      var b := EncodeVarint32(level);
      var c := EncodeVarint64(number);
      r := dst + a + b + c;
      assert r == dst + (a + (b + c));
    }

    /** A tag and a 64-bit number, for the single fields. */
    method PutNumber(dst: Bytes, tag: nat, o: Option<nat>) returns (r: Bytes)
      requires tag < TWO_32 && (o.Some? ==> o.value < TWO_64)
      ensures r == dst + Numbered(tag, o)
    {
      hide VarintBytes;
      r := dst;
      if o.Some? {
        var a := EncodeVarint32(tag);
        var b := EncodeVarint64(o.value);
        r := dst + a + b;
        assert r == dst + (a + b);
      }
    }

    method PutName(dst: Bytes) returns (r: Bytes)
      ensures r == dst + Named(comparator)
    {
      hide VarintBytes, Prefixed;
      r := dst;
      if comparator.Some? {
        var a := EncodeVarint32(1);
        r := PutLengthPrefixedSlice(r + a, comparator.value);
        assert r == dst + (a + Prefixed(comparator.value));
      }
    }

    method PutScalarFields(dst: Bytes) returns (r: Bytes)
      requires EditTyped(State())
      ensures r == dst + AllBytes(Scalars(State()))
    {
      hide AllBytes, Numbered, Named, EditTyped, Scalars;
      ScalarsTyped(State());
      r := PutName(dst);
      r := PutNumber(r, 2, logNumber);
      r := PutNumber(r, 9, prevLogNumber);
      r := PutNumber(r, 3, nextFileNumber);
      r := PutNumber(r, 4, lastSequence);
      ScalarBytes(State());
      FiveParts(dst, Named(comparator), Numbered(2, logNumber), Numbered(9, prevLogNumber), Numbered(3, nextFileNumber),
                Numbered(4, lastSequence));
    }

    method PutPointers(dst: Bytes) returns (r: Bytes)
      requires EditTyped(State())
      ensures r == dst + AllBytes(Pointers(compactPointers))
    {
      hide RecordBytes, AllBytes, Scalars, InOrder;
      r := dst;
      ghost var rs := Pointers(compactPointers);
      AllBytesUnfolds(rs[..0]);
      for i := 0 to |compactPointers|
        invariant r == dst + AllBytes(rs[..i])
      {
        PrefixOne(rs, i);
        assert rs[i] in Records(State());
        r := PutPointer(r, compactPointers[i].0, compactPointers[i].1);
      }
      assert rs[..|compactPointers|] == rs;
    }

    /** The set is walked in its order. */
    method PutDeletedFiles(dst: Bytes) returns (r: Bytes)
      requires EditTyped(State())
      ensures r == dst + AllBytes(Deletions(InOrder(deletedFiles)))
    {
      hide RecordBytes, AllBytes, Scalars, InOrder, PairBefore;
      r := dst;
      ghost var ds := InOrder(deletedFiles);
      ghost var rs := Deletions(ds);
      AllBytesUnfolds(rs[..0]);
      NoneInOrder();
      var rest := deletedFiles;
      ghost var i := 0;
      while rest != {}
        invariant i <= |ds| && InOrder(rest) == ds[i..] && r == dst + AllBytes(rs[..i])
        decreases |rest|
      {
        LeastExists(rest);
        var d :| d in rest && forall y :: y in rest && y != d ==> PairBefore(d, y);
        LeastIsFirst(rest, d);
        TailIs(ds, i, d, InOrder(rest - {d}));
        PrefixOne(rs, i);
        assert rs[i] in Records(State());
        r := PutDeletion(r, d.0, d.1);
        rest := rest - {d};
        i := i + 1;
      }
      assert rs[..i] == rs;
    }

    method PutNewFiles(dst: Bytes) returns (r: Bytes)
      requires EditTyped(State())
      ensures r == dst + AllBytes(Files(newFiles))
    {
      hide RecordBytes, AllBytes, Scalars, InOrder;
      r := dst;
      ghost var rs := Files(newFiles);
      AllBytesUnfolds(rs[..0]);
      for i := 0 to |newFiles|
        invariant r == dst + AllBytes(rs[..i])
      {
        PrefixOne(rs, i);
        assert rs[i] in Records(State());
        r := PutFile(r, newFiles[i].0, newFiles[i].1);
      }
      assert rs[..|newFiles|] == rs;
    }

    method EncodeTo(dst: Bytes) returns (r: Bytes)
      requires EditTyped(State())
      ensures r == dst + AllBytes(Records(State()))
    {
      hide Scalars, Pointers, Deletions, Files, InOrder, AllBytes, EditTyped;
      r := PutScalarFields(dst);
      r := PutPointers(r);
      r := PutDeletedFiles(r);
      r := PutNewFiles(r);
      var a, b, c, d := Scalars(State()), Pointers(compactPointers), Deletions(InOrder(deletedFiles)), Files(newFiles);
      AllBytesAppends(a, b);
      AllBytesAppends(a + b, c);
      AllBytesAppends(a + b + c, d);
      assert r == dst + (AllBytes(a) + AllBytes(b) + AllBytes(c) + AllBytes(d));
    }

    // ---------- DecodeFrom ----------

    method ReadName(input: Bytes) returns (ok: bool, rest: Bytes, ghost got: Record)
      modifies this`comparator
      ensures ok ==> ReadsPayload(input, got, rest) && |rest| < |input| && got.Comparator?
                     && RecordFits(got) && State() == Put(old(State()), got)
      ensures !ok ==> State() == old(State()) && forall s, r :: !ReadsSlice(input, s, r)
    {
      hide ReadsSlice;
      var str;
      ok, str, rest := GetLengthPrefixedSlice(input);
      got := Comparator(str);
      if ok {
        comparator := Some(str);
      }
    }

    method ReadPointer(input: Bytes) returns (ok: bool, rest: Bytes, ghost got: Record)
      modifies this`compactPointers
      ensures ok ==> ReadsPayload(input, got, rest) && |rest| < |input| && got.CompactPointer?
                     && RecordFits(got) && State() == Put(old(State()), got)
      ensures !ok ==> State() == old(State()) && forall l, k, r :: !Then(ReadsLevel, ReadsSlice, input, l, k, r)
    {
      hide ReadsLevel, ReadsSlice, Then, Deterministic;
      PartsReadOnce();
      got := LogNumber(0);
      var level, key, mid;
      ok, level, mid := GetLevel(input);
      if !ok {
        NoFirst(ReadsLevel, ReadsSlice, input);
        return false, [], got;
      }
      ok, key, rest := GetLengthPrefixedSlice(mid);
      if ok {
        ThenReads(ReadsLevel, ReadsSlice, input, level, mid, key, rest);
        got := CompactPointer(level, key);
        compactPointers := compactPointers + [(level, key)];
      } else {
        NoSecond(ReadsLevel, ReadsSlice, input, level, mid);
      }
    }

    method ReadDeletedFile(input: Bytes) returns (ok: bool, rest: Bytes, ghost got: Record)
      modifies this`deletedFiles
      ensures ok ==> ReadsPayload(input, got, rest) && |rest| < |input| && got.DeletedFile?
                     && RecordFits(got) && State() == Put(old(State()), got)
      ensures !ok ==> State() == old(State()) && forall l, n, r :: !Then(ReadsLevel, ReadsNumber, input, l, n, r)
    {
      hide ReadsLevel, ReadsNumber, Then, Deterministic;
      PartsReadOnce();
      got := LogNumber(0);
      var level, number, mid;
      ok, level, mid := GetLevel(input);
      if !ok {
        NoFirst(ReadsLevel, ReadsNumber, input);
        return false, [], got;
      }
      ok, number, rest := GetNumber(mid);
      if ok {
        ThenReads(ReadsLevel, ReadsNumber, input, level, mid, number, rest);
        got := DeletedFile(level, number);
        deletedFiles := deletedFiles + {(level, number)};
      } else {
        NoSecond(ReadsLevel, ReadsNumber, input, level, mid);
      }
    }

    method ReadNewFile(input: Bytes) returns (ok: bool, rest: Bytes, ghost got: Record)
      modifies this`newFiles
      ensures ok ==> ReadsPayload(input, got, rest) && |rest| < |input| && got.NewFile?
                     && RecordFits(got) && State() == Put(old(State()), got)
      ensures !ok ==> State() == old(State()) && forall l, f, r :: !Then(ReadsLevel, ReadsFile, input, l, f, r)
    {
      hide ReadsLevel, ReadsFile, Then, Deterministic, FileFits;
      PartsReadOnce();
      got := LogNumber(0);
      var level, file, mid;
      ok, level, mid := GetLevel(input);
      if !ok {
        NoFirst(ReadsLevel, ReadsFile, input);
        return false, [], got;
      }
      ok, file, rest := GetFile(mid);
      if ok {
        ThenReads(ReadsLevel, ReadsFile, input, level, mid, file, rest);
        got := NewFile(level, file);
        newFiles := newFiles + [(level, file)];
      } else {
        NoSecond(ReadsLevel, ReadsFile, input, level, mid);
      }
    }

    /** The single numbers. */
    method ReadScalar(tag: nat, input: Bytes) returns (ok: bool, rest: Bytes, ghost got: Record)
      requires tag == 2 || tag == 9 || tag == 3 || tag == 4
      modifies this`logNumber, this`prevLogNumber, this`nextFileNumber, this`lastSequence
      ensures ok ==> ReadsPayload(input, got, rest) && |rest| < |input| && Tag(got) == tag
                     && RecordFits(got) && State() == Put(old(State()), got)
      ensures !ok ==> State() == old(State()) && forall n, r :: !ReadsNumber(input, n, r)
    {
      hide ReadsNumber;
      var number;
      ok, number, rest := GetNumber(input);
      got := ScalarRecord(tag, number);
      if ok {
        if tag == 2 {
          logNumber := Some(number);
        } else if tag == 9 {
          prevLogNumber := Some(number);
        } else if tag == 3 {
          nextFileNumber := Some(number);
        } else {
          lastSequence := Some(number);
        }
      }
    }

    /**
     * The switch of DecodeFrom: the record for a tag is read and put into the edit, or none is there
     * and the message names what is missing.
     */
    method ReadRecord(tag: nat, input: Bytes) returns (msg: Option<string>, rest: Bytes, ghost got: Record)
      modifies this
      ensures msg.None? ==> ReadsPayload(input, got, rest) && |rest| < |input| && Tag(got) == tag
                            && RecordFits(got) && State() == Put(old(State()), got)
      ensures msg.Some? ==> State() == old(State()) && msg.value == Missing(tag)
                            && forall r, x :: Tag(r) == tag ==> !ReadsPayload(input, r, x)
    {
      hide RecordFits, Put, ReadsSlice, ReadsNumber, Then;
      var ok;
      match tag {
        case 1 =>
          ok, rest, got := ReadName(input);
          msg := Some("comparator name");
        case 2 =>
          ok, rest, got := ReadScalar(tag, input);
          msg := Some("log number");
        case 9 =>
          ok, rest, got := ReadScalar(tag, input);
          msg := Some("previous log number");
        case 3 =>
          ok, rest, got := ReadScalar(tag, input);
          msg := Some("next file number");
        case 4 =>
          ok, rest, got := ReadScalar(tag, input);
          msg := Some("last sequence number");
        case 5 =>
          ok, rest, got := ReadPointer(input);
          msg := Some("compaction pointer");
        case 6 =>
          ok, rest, got := ReadDeletedFile(input);
          msg := Some("deleted file");
        case 7 =>
          ok, rest, got := ReadNewFile(input);
          msg := Some("new-file entry");
        case _ =>
          ok, rest, got := false, [], LogNumber(0);
          msg := Some("unknown tag");
      }
      if ok {
        msg := None;
      }
    }

    /**
     * The loop of DecodeFrom: records until none is left or none reads. Of any bytes at all, the
     * records that read one after the other are put into the edit.
     */
    method ReadRecords(src: Bytes) returns (msg: Option<string>, ghost rs: seq<Record>, ghost left: Bytes)
      modifies this
      ensures Parses(ReadsRecord, src, rs, left) && State() == PutAll(old(State()), rs) && IsVerdict(left, msg)
      ensures EditFits(old(State())) ==> EditFits(State())
    {
      hide Pow2, Put, RecordFits, Tag, EditFits, PutAll, ReadsVarint, ReadsPayload, ReadsRecord, IsVerdict, Many;
      msg, rs, left := None, [], src;
      var input := src;
      NoneYet(ReadsRecord, src);
      PutNone(State());
      while msg.None?
        invariant Many(ReadsRecord, src, rs, left) && State() == PutAll(old(State()), rs)
        invariant msg.None? ==> left == input
        invariant msg.Some? ==> (forall r, x :: !ReadsRecord(left, r, x)) && IsVerdict(left, msg)
        invariant EditFits(old(State())) ==> EditFits(State())
        decreases msg.None?, |input|
      {
        var ok, tag, body := GetVarint(input, 32);
        if !ok {
          NoTag(input);
          break;
        }
        ghost var before := State();
        ghost var got;
        msg, input, got := ReadRecord(tag, body);
        if msg.None? {
          ManyMore(ReadsRecord, src, rs, left, got, input) by { RecordIsRead(left, tag, body, got, input); }
          PutAllMore(old(State()), rs, got);
          if EditFits(before) {
            PutKeepsFit(before, got);
          }
          rs, left := rs + [got], input;
        } else {
          NoRecord(left, tag, body);
        }
      }
      if msg.None? && input != [] {
        msg := Some("invalid tag");
      }
    }

    /**
     * DecodeFrom on any bytes: the cleared edit with the records put in that read one after the other,
     * and a message exactly if bytes are left.
     */
    method DecodeFrom(src: Bytes) returns (msg: Option<string>, ghost rs: seq<Record>, ghost left: Bytes)
      modifies this
      ensures Parses(ReadsRecord, src, rs, left) && IsVerdict(left, msg)
      ensures State() == PutAll(EMPTY.(compactPointers := old(compactPointers)), rs)
      ensures EditFits(EMPTY.(compactPointers := old(compactPointers))) ==> EditFits(State())
    {
      hide Parses, PutAll, EditFits, IsVerdict;
      Clear();
      msg, rs, left := ReadRecords(src);
    }
  }

  /** The message for a tag whose record does not read. */
  function Missing(tag: nat): string {
    match tag
    case 1 => "comparator name"
    case 2 => "log number"
    case 9 => "previous log number"
    case 3 => "next file number"
    case 4 => "last sequence number"
    case 5 => "compaction pointer"
    case 6 => "deleted file"
    case 7 => "new-file entry"
    case _ => "unknown tag"
  }

  /** No message if nothing is left; otherwise it names what the next tag asks for, or misses the tag. */
  ghost predicate IsVerdict(left: Bytes, msg: Option<string>) {
    if left == [] then msg == None
    else
      && msg.Some?
      && (forall tag, rest :: ReadsVarint(left, 32, tag, rest) ==> msg.value == Missing(tag))
      && ((forall tag, rest :: !ReadsVarint(left, 32, tag, rest)) ==> msg.value == "invalid tag")
  }

  function ScalarRecord(tag: nat, number: nat): Record
    requires tag == 2 || tag == 9 || tag == 3 || tag == 4
  {
    if tag == 2 then LogNumber(number) else if tag == 9 then PrevLogNumber(number)
    else if tag == 3 then NextFileNumber(number) else LastSequence(number)
  }

  lemma RecordIsRead(input: Bytes, tag: nat, body: Bytes, r: Record, rest: Bytes)
    requires ReadsVarint(input, 32, tag, body) && Tag(r) == tag && ReadsPayload(body, r, rest)
    ensures ReadsRecord(input, r, rest)
  {
    hide ReadsVarint, ReadsPayload, Tag;
  }

  lemma NoTag(input: Bytes)
    requires forall tag, rest :: !ReadsVarint(input, 32, tag, rest)
    ensures forall r, x :: !ReadsRecord(input, r, x)
    ensures IsVerdict(input, if input == [] then None else Some("invalid tag"))
  {
    hide ReadsVarint, ReadsPayload, Tag;
  }

  lemma NoRecord(input: Bytes, tag: nat, body: Bytes)
    requires ReadsVarint(input, 32, tag, body) && forall r, x :: Tag(r) == tag ==> !ReadsPayload(body, r, x)
    ensures forall r, x :: !ReadsRecord(input, r, x)
    ensures IsVerdict(input, Some(Missing(tag)))
  {
    hide ReadsVarint, ReadsPayload, Tag, Missing;
    forall t, rest | ReadsVarint(input, 32, t, rest)
      ensures t == tag && rest == body
    {
      ReadsVarintOnce(input, 32, t, rest, tag, body);
    }
    TagNeedsBytes(input, tag, body);
  }

  lemma TagNeedsBytes(input: Bytes, tag: nat, body: Bytes)
    requires ReadsVarint(input, 32, tag, body)
    ensures input != []
  {
  }

  lemma PutAllMore(e: Edit, rs: seq<Record>, r: Record)
    ensures PutAll(e, rs + [r]) == Put(PutAll(e, rs), r)
  {
    hide Put, PutAll;
    PutAllAppends(e, rs, [r]);
    PutOne(PutAll(e, rs), r);
  }

  lemma DeletionsOf(ds: set<(nat, nat)>, x: Record)
    ensures x in Deletions(InOrder(ds)) <==> x.DeletedFile? && (x.level, x.number) in ds
  {
    hide InOrder;
    InOrderIs(ds);
    if x.DeletedFile? && (x.level, x.number) in ds {
      var j :| 0 <= j < |InOrder(ds)| && InOrder(ds)[j] == (x.level, x.number);
      assert Deletions(InOrder(ds))[j] == x;
    }
  }

  lemma PointersOf(ps: seq<(nat, Bytes)>, x: Record)
    ensures x in Pointers(ps) <==> x.CompactPointer? && (x.level, x.key) in ps
  {
    if x.CompactPointer? && (x.level, x.key) in ps {
      var i :| 0 <= i < |ps| && ps[i] == (x.level, x.key);
      assert Pointers(ps)[i] == x;
    }
  }

  lemma FilesOf(fs: seq<(nat, FileMetaData)>, x: Record)
    ensures x in Files(fs) <==> x.NewFile? && (x.level, x.file) in fs
  {
    if x.NewFile? && (x.level, x.file) in fs {
      var i :| 0 <= i < |fs| && fs[i] == (x.level, x.file);
      assert Files(fs)[i] == x;
    }
  }

  ghost predicate Has(e: Edit, x: Record) {
    match x
    case Comparator(name) => e.comparator == Some(name)
    case LogNumber(n) => e.logNumber == Some(n)
    case PrevLogNumber(n) => e.prevLogNumber == Some(n)
    case NextFileNumber(n) => e.nextFileNumber == Some(n)
    case LastSequence(n) => e.lastSequence == Some(n)
    case CompactPointer(level, key) => (level, key) in e.compactPointers
    case DeletedFile(level, n) => (level, n) in e.deletedFiles
    case NewFile(level, f) => (level, f) in e.newFiles
  }

  lemma ScalarsOf(e: Edit, x: Record)
    ensures x in Scalars(e) <==> !x.CompactPointer? && !x.DeletedFile? && !x.NewFile? && Has(e, x)
  {
  }

  /** Which records an edit has. */
  lemma RecordsAre(e: Edit, x: Record)
    ensures x in Records(e) <==> Has(e, x)
  {
    hide Scalars, Pointers, Deletions, Files, InOrder;
    ScalarsOf(e, x);
    PointersOf(e.compactPointers, x);
    DeletionsOf(e.deletedFiles, x);
    FilesOf(e.newFiles, x);
  }

  /** Putting a record into an edit adds no other record to it. */
  lemma PutHolds(e: Edit, r: Record, x: Record)
    requires x in Records(Put(e, r))
    ensures x == r || x in Records(e)
  {
    hide Records;
    RecordsAre(e, x);
    RecordsAre(Put(e, r), x);
  }

  lemma PutKeepsFit(e: Edit, r: Record)
    requires EditFits(e) && RecordFits(r)
    ensures EditFits(Put(e, r))
  {
    hide Records, Put, RecordFits;
    forall x | x in Records(Put(e, r))
      ensures RecordFits(x)
    {
      PutHolds(e, r, x);
    }
  }

  lemma TailIs(ds: seq<(nat, nat)>, i: nat, d: (nat, nat), tail: seq<(nat, nat)>)
    requires i <= |ds| && ds[i..] == [d] + tail
    ensures i < |ds| && ds[i] == d && ds[i + 1..] == tail
  {
    assert ds[i..][0] == d && ds[i..][1..] == tail;
  }

  lemma PrefixOne(rs: seq<Record>, i: nat)
    requires i < |rs|
    ensures AllBytes(rs[..i + 1]) == AllBytes(rs[..i]) + RecordBytes(rs[i])
  {
    hide AllBytes, RecordBytes;
    assert rs[..i + 1] == rs[..i] + [rs[i]];
    AllBytesOne(rs[..i], rs[i]);
  }

  lemma ScalarsTyped(e: Edit)
    requires EditTyped(e)
    ensures (e.logNumber.Some? ==> e.logNumber.value < TWO_64) && (e.prevLogNumber.Some? ==> e.prevLogNumber.value < TWO_64)
    ensures (e.nextFileNumber.Some? ==> e.nextFileNumber.value < TWO_64) && (e.lastSequence.Some? ==> e.lastSequence.value < TWO_64)
  {
    hide Records;
    if e.logNumber.Some? {
      RecordsAre(e, LogNumber(e.logNumber.value));
    }
    if e.prevLogNumber.Some? {
      RecordsAre(e, PrevLogNumber(e.prevLogNumber.value));
    }
    if e.nextFileNumber.Some? {
      RecordsAre(e, NextFileNumber(e.nextFileNumber.value));
    }
    if e.lastSequence.Some? {
      RecordsAre(e, LastSequence(e.lastSequence.value));
    }
  }

  lemma FiveParts(dst: Bytes, a: Bytes, b: Bytes, c: Bytes, d: Bytes, e: Bytes)
    ensures dst + a + b + c + d + e == dst + (a + b + c + d + e)
  {
  }

  function Numbered(tag: nat, o: Option<nat>): Bytes {
    if o.Some? then VarintBytes(tag) + VarintBytes(o.value) else []
  }

  function Named(o: Option<Bytes>): Bytes {
    if o.Some? then VarintBytes(1) + Prefixed(o.value) else []
  }

  lemma ScalarBytes(e: Edit)
    ensures AllBytes(Scalars(e)) ==
            Named(e.comparator) + Numbered(2, e.logNumber) + Numbered(9, e.prevLogNumber)
            + Numbered(3, e.nextFileNumber) + Numbered(4, e.lastSequence)
  {
    hide AllBytes, VarintBytes, Prefixed;
    AllBytesUnfolds([]);
    var a, b, c, d, f := NameRecord(e), LogRecord(e), PrevLogRecord(e), NextFileRecord(e), LastSequenceRecord(e);
    AllBytesAppends(a, b);
    AllBytesAppends(a + b, c);
    AllBytesAppends(a + b + c, d);
    AllBytesAppends(a + b + c + d, f);
    if a != [] { JustOne(a[0]); }
    if b != [] { JustOne(b[0]); }
    if c != [] { JustOne(c[0]); }
    if d != [] { JustOne(d[0]); }
    if f != [] { JustOne(f[0]); }
  }

  /** An edit reads back as it was written if and only if it fits its encoding. */
  method RoundTrip(source: VersionEdit, target: VersionEdit) returns (bytes: Bytes, msg: Option<string>)
    requires EditTyped(source.State()) && target.compactPointers == [] && source != target
    modifies target
    ensures msg == None && target.State() == source.State() <==> EditFits(source.State())
  {
    hide Records, AllBytes;
    bytes := source.EncodeTo([]);
    assert [] + AllBytes(Records(source.State())) == AllBytes(Records(source.State()));
    NothingFits();
    ghost var rs, left;
    msg, rs, left := target.DecodeFrom(bytes);
    if EditFits(source.State()) {
      EditParses(source.State(), rs, left);
      PutRecords(source.State(), []);
      assert [] + source.compactPointers == source.compactPointers;
    }
  }

  lemma NothingFits()
    ensures EditFits(EMPTY)
  {
    hide Records;
    forall x
      ensures x !in Records(EMPTY)
    {
      RecordsAre(EMPTY, x);
    }
  }
}
