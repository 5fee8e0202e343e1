/** The log reader from offset 0, and what it returns after a crash at any byte (db/log_reader). */
module LogReader {
  import opened Common
  import opened Coding
  import opened LogFormat
  import LogWriter

  /** What ReadPhysicalRecord returns: kEof, kBadRecord, or a type and a payload. */
  datatype Fragment = Eof | Bad | Got(kind: byte, payload: seq<byte>)

  /** `unread` is a prefix of a physical record of the given type, placed at block offset `o`, and what follows it. */
  ghost predicate Ahead(step: CrcStep, o: nat, unread: seq<byte>, kind: byte, payload: seq<byte>, more: seq<byte>) {
    && o <= BLOCK_SIZE && 0 < kind <= LAST && Start(o) + HEADER_SIZE + |payload| <= BLOCK_SIZE
    && unread <= Zeros(Trailer(o)) + Physical(step, kind, payload) + more
  }

  lemma DropPrefix(u: seq<byte>, a: seq<byte>, b: seq<byte>)
    requires u <= a + b && |a| <= |u|
    ensures u[|a|..] <= b && u[..|a|] == a
  {
    assert u[..|a|] == (a + b)[..|a|];
    assert u[|a|..] == (a + b)[|a|..|u|];
  }

  /** The first fields of a physical record, if enough of it is there. */
  lemma HeaderFields(step: CrcStep, u: seq<byte>, kind: byte, payload: seq<byte>, more: seq<byte>)
    requires |payload| <= 0xffff && u <= Physical(step, kind, payload) + more && HEADER_SIZE <= |u|
    ensures u[4] as int + 256 * u[5] as int == |payload| && u[6] == kind
    ensures HEADER_SIZE + |payload| <= |u| ==>
              && u[HEADER_SIZE..HEADER_SIZE + |payload|] == payload
              && Unmask(DecodeFixed32(u[..4])) == Extend(step, 0, u[6..HEADER_SIZE + |payload|])
  {
    hide Extend, Mask, Unmask, DecodeFixed32;
    var crc := Extend(step, Extend(step, 0, [kind]), payload);
    var p := Physical(step, kind, payload);
    assert forall i :: 0 <= i < HEADER_SIZE ==> u[i] == (p + more)[i] == p[i];
    if HEADER_SIZE + |payload| <= |u| {
      DropPrefix(u, p, more);
      assert u[..4] == p[..4] == EncodeFixed32(Mask(crc));
      assert u[6..HEADER_SIZE + |payload|] == p[6..] == [kind] + payload;
      ExtendAppends(step, 0, [kind], payload);
      UnmaskMask(crc);
      assert p[HEADER_SIZE..] == payload;
    }
  }

  // ---------- what any file may hold ----------

  /** The bytes start with a physical record whose length is there and whose checksum holds. */
  ghost predicate IntactFront(step: CrcStep, u: seq<byte>, kind: byte, payload: seq<byte>) {
    && 7 + |payload| <= |u| && u[4] as int + 256 * u[5] as int == |payload| && u[6] == kind
    && u[7..7 + |payload|] == payload && Unmask(DecodeFixed32(u[..4])) == Extend(step, 0, u[6..7 + |payload|])
  }

  /** What the buffer gives, whatever it holds: a fragment, how many complaints, how many bytes used. */
  ghost predicate Gives(step: CrcStep, u: seq<byte>, eof: bool, r: Fragment, complaints: int, used: int)
    requires 7 <= |u|
  {
    var length := u[4] as int + 256 * u[5] as int;
    if |u| < 7 + length then used == |u| && if eof then r == Eof && complaints == 0 else r == Bad && complaints == 1
    else if u[6] == 0 && length == 0 then used == |u| && r == Bad && complaints == 0
    else if Unmask(DecodeFixed32(u[..4])) != Extend(step, 0, u[6..7 + length]) then used == |u| && r == Bad && complaints == 1
    else used == 7 + length && r == Got(u[6], u[7..7 + length]) && complaints == 0
  }

  lemma GivenIsIntact(step: CrcStep, u: seq<byte>, eof: bool, r: Fragment, complaints: int, used: int, more: seq<byte>)
    requires 7 <= |u| && Gives(step, u, eof, r, complaints, used) && r.Got?
    ensures IntactFront(step, u + more, r.kind, r.payload) && used == 7 + |r.payload| && complaints == 0
  {
    hide Extend, Unmask, DecodeFixed32;
    var length := |r.payload|;
    assert (u + more)[..4] == u[..4] && (u + more)[6..7 + length] == u[6..7 + length] && (u + more)[7..7 + length] == u[7..7 + length];
  }

  /** A fragment, and where in the file it was found. */
  datatype Piece = Piece(at: nat, kind: byte, payload: seq<byte>)

  /** A piece starts right behind another, or behind fewer bytes than a header has. */
  ghost predicate Follows(p: Piece, q: Piece) {
    EndOf(p) <= q.at < EndOf(p) + 7
  }

  function EndOf(p: Piece): nat {
    p.at + 7 + |p.payload|
  }

  /** Every piece is intact where it was found, and each follows the one before. */
  ghost predicate AllIntact(step: CrcStep, file: seq<byte>, pieces: seq<Piece>, from: nat, to: nat) {
    && from <= to <= |file|
    && (forall i :: 0 <= i < |pieces| ==>
          from <= pieces[i].at <= |file| && IntactFront(step, file[pieces[i].at..], pieces[i].kind, pieces[i].payload)
          && EndOf(pieces[i]) <= to)
    && forall i :: 0 <= i < |pieces| - 1 ==> Follows(pieces[i], pieces[i + 1])
  }

  function Payloads(pieces: seq<Piece>): seq<byte> {
    if pieces == [] then [] else Payloads(pieces[..|pieces| - 1]) + pieces[|pieces| - 1].payload
  }

  /** The pieces of a record so far: the first of type 2, the others of type 3. */
  ghost predicate Begun(pieces: seq<Piece>) {
    pieces != [] && pieces[0].kind == 2 && forall i :: 0 < i < |pieces| ==> pieces[i].kind == 3
  }

  /** The pieces of a record: one of type 1, or a first of type 2, any of type 3, and a last of type 4. */
  ghost predicate Complete(pieces: seq<Piece>) {
    || (|pieces| == 1 && pieces[0].kind == 1)
    || (1 < |pieces| && Begun(pieces[..|pieces| - 1]) && pieces[|pieces| - 1].kind == 4)
  }

  /** A record read from a file, good or damaged, is made of intact fragments in order. */
  ghost predicate IsRecord(step: CrcStep, file: seq<byte>, pieces: seq<Piece>, from: nat, to: nat, record: seq<byte>) {
    AllIntact(step, file, pieces, from, to) && Complete(pieces) && record == Payloads(pieces)
  }

  lemma OnePieceMore(step: CrcStep, file: seq<byte>, pieces: seq<Piece>, from: nat, to: nat, p: Piece, end: nat)
    requires AllIntact(step, file, pieces, from, to) && to <= p.at && EndOf(p) <= end <= |file|
    requires IntactFront(step, file[p.at..], p.kind, p.payload)
    ensures pieces != [] && Follows(pieces[|pieces| - 1], p) ==> AllIntact(step, file, pieces + [p], from, end)
    ensures AllIntact(step, file, [p], from, end)
    ensures Payloads(pieces + [p]) == Payloads(pieces) + p.payload && Payloads([p]) == p.payload
  {
    hide IntactFront, Follows, Payloads, AllIntact;
    PayloadsMore(pieces, p);
    PayloadsMore([], p);
    assert [] + [p] == [p] && [] + p.payload == p.payload;
    OneIsIntact(step, file, p, from, end) by { FromIsBelow(step, file, pieces, from, to); }
    if pieces != [] && Follows(pieces[|pieces| - 1], p) {
      MoreAreIntact(step, file, pieces, from, to, p, end);
    }
  }

  lemma FromIsBelow(step: CrcStep, file: seq<byte>, pieces: seq<Piece>, from: nat, to: nat)
    requires AllIntact(step, file, pieces, from, to)
    ensures from <= to
  {
  }

  lemma PayloadsMore(pieces: seq<Piece>, p: Piece)
    ensures Payloads(pieces + [p]) == Payloads(pieces) + p.payload && Payloads([]) == []
  {
    assert (pieces + [p])[..|pieces|] == pieces;
  }

  lemma OneIsIntact(step: CrcStep, file: seq<byte>, p: Piece, from: nat, end: nat)
    requires from <= p.at && EndOf(p) <= end <= |file| && IntactFront(step, file[p.at..], p.kind, p.payload)
    ensures AllIntact(step, file, [p], from, end)
  {
    hide IntactFront;
  }

  lemma MoreAreIntact(step: CrcStep, file: seq<byte>, pieces: seq<Piece>, from: nat, to: nat, p: Piece, end: nat)
    requires AllIntact(step, file, pieces, from, to) && to <= p.at && EndOf(p) <= end <= |file|
    requires IntactFront(step, file[p.at..], p.kind, p.payload) && pieces != [] && Follows(pieces[|pieces| - 1], p)
    ensures AllIntact(step, file, pieces + [p], from, end)
  {
    hide IntactFront, Follows;
    var all := pieces + [p];
    forall i | 0 <= i < |all| - 1
      ensures Follows(all[i], all[i + 1])
    {
      assert all[i] == pieces[i];
    }
  }

  lemma NothingElse(step: CrcStep, file: seq<byte>, pieces: seq<Piece>, from: nat, to: nat, end: nat)
    requires AllIntact(step, file, pieces, from, to) && to <= end <= |file|
    ensures AllIntact(step, file, pieces, from, end) && AllIntact(step, file, [], from, end)
  {
    hide IntactFront;
  }

  class Reader {
    const step: CrcStep
    const file: seq<byte>
    var filePos: nat
    var buffer: seq<byte>
    var eof: bool
    var corruptions: nat
    ghost var blockStart: nat

    constructor (step: CrcStep, file: seq<byte>)
      ensures Valid() && this.step == step && this.file == file && Position() == 0 && corruptions == 0
    {
      this.step, this.file := step, file;
      filePos, buffer, eof, corruptions, blockStart := 0, [], false, 0, 0;
    }

    /** The buffer is the unread part of the one block read last. */
    ghost predicate Valid()
      reads this`filePos, this`buffer, this`eof, this`blockStart
    {
      && filePos <= |file| && |buffer| <= filePos && buffer == file[filePos - |buffer|..filePos]
      && blockStart % BLOCK_SIZE == 0 && blockStart + |buffer| <= filePos <= blockStart + BLOCK_SIZE
      && (eof ==> filePos == |file|)
      && (!eof ==> filePos == blockStart || filePos == blockStart + BLOCK_SIZE)
    }

    ghost function Position(): nat
      reads this`filePos, this`buffer, this`eof, this`blockStart
      requires Valid()
    {
      filePos - |buffer|
    }

    ghost function Unread(): seq<byte>
      reads this`filePos, this`buffer, this`eof, this`blockStart
      requires Valid()
    {
      file[Position()..]
    }

    /** What the buffer still held is gone; a block cut short by the end of the file is the last. */
    method ReadBlock()
      requires Valid() && !eof
      modifies this
      ensures Valid() && corruptions == old(corruptions) && Position() == old(filePos)
      ensures |buffer| < HEADER_SIZE ==> eof
    {
      var n := if filePos + BLOCK_SIZE <= |file| then BLOCK_SIZE else |file| - filePos;
      NextBlock(blockStart);
      blockStart := filePos;
      buffer := file[filePos..filePos + n];
      filePos := filePos + n;
      if n < BLOCK_SIZE {
        eof := true;
      }
    }

    /** Reads the next block once fewer than a header's bytes are buffered; false at the end of the file. */
    method FillBuffer() returns (more: bool)
      requires Valid()
      modifies this
      ensures Valid() && corruptions == old(corruptions)
      ensures var skipped := if |old(buffer)| < HEADER_SIZE && !old(eof) then |old(buffer)| else 0;
              && (more ==> HEADER_SIZE <= |buffer| && skipped <= |old(Unread())| && Unread() == old(Unread())[skipped..])
              && (!more ==> eof && Unread() == [] && |old(Unread())| < skipped + HEADER_SIZE)
    {
      ghost var read := false;
      while |buffer| < HEADER_SIZE
        invariant Valid() && corruptions == old(corruptions)
        invariant !read ==> buffer == old(buffer) && eof == old(eof) && filePos == old(filePos)
        invariant read ==> !old(eof) && |old(buffer)| < HEADER_SIZE && Position() == old(filePos)
        invariant read && |buffer| < HEADER_SIZE ==> eof
        decreases !read
      {
        if !eof {
          ReadBlock();
          read := true;
        } else {
          buffer := [];
          return false;
        }
      }
      return true;
    }

    method Consume(n: nat)
      requires Valid() && n <= |buffer|
      modifies this`buffer
      ensures Valid() && n <= |old(Unread())| && Unread() == old(Unread())[n..] && |buffer| == |old(buffer)| - n
      ensures eof && buffer == [] ==> Unread() == []
    {
      buffer := buffer[n..];
    }

    lemma InFile()
      requires Valid()
      ensures Position() <= |file|
    {
    }

    lemma PlaceOf()
      requires Valid()
      ensures Position() <= |file| && Unread() == file[Position()..]
    {
    }

    lemma BufferComesFirst()
      requires Valid()
      ensures buffer <= Unread() && (eof ==> buffer == Unread())
    {
    }

    method ReportCorruption()
      requires Valid()
      modifies this`corruptions
      ensures Valid() && Unread() == old(Unread()) && corruptions == old(corruptions) + 1
    {
      corruptions := corruptions + 1;
    }

    /** The record the buffer starts with, checked. */
    method ParseRecord(ghost kind: byte, ghost payload: seq<byte>, ghost after: seq<byte>) returns (r: Fragment)
      requires Valid() && HEADER_SIZE <= |buffer|
      modifies this
      ensures Valid() && old(corruptions) <= corruptions
      ensures Gives(step, old(buffer), old(eof), r, corruptions - old(corruptions), |old(Unread())| - |Unread()|)
      ensures r != Bad ==> corruptions == old(corruptions)
      ensures r.Got? ==> IntactFront(step, old(Unread()), r.kind, r.payload) && |Unread()| == |old(Unread())| - 7 - |r.payload|
      ensures r == Eof ==> Unread() == []
      ensures r != Eof ==> |Unread()| < |old(Unread())|
      ensures kind != 0 && |payload| <= 0xffff && old(Unread()) <= Physical(step, kind, payload) + after &&
              (HEADER_SIZE + |payload| <= |old(buffer)| || old(eof)) ==>
                && corruptions == old(corruptions)
                && (if HEADER_SIZE + |payload| <= |old(Unread())| then
                      r == Got(kind, payload) && Unread() == old(Unread())[HEADER_SIZE + |payload|..]
                    else r == Eof)
    {
      hide Valid, Unread, Position, Extend, Physical, Unmask, DecodeFixed32, Mask;
      BufferComesFirst();
      if kind != 0 && |payload| <= 0xffff && Unread() <= Physical(step, kind, payload) + after {
        PrefixOfPrefix(buffer, Unread(), Physical(step, kind, payload) + after);
        HeaderFields(step, buffer, kind, payload, after);
      }
      var length := buffer[4] as int + 256 * buffer[5] as int;
      var t := buffer[6];
      if HEADER_SIZE + length > |buffer| {
        Consume(|buffer|);
        if !eof {
          ReportCorruption();
          return Bad;
        }
        return Eof;
      }
      if t == 0 && length == 0 {
        Consume(|buffer|);
        return Bad;
      }
      var expected := Unmask(DecodeFixed32(buffer[..4]));
      var actual := Extend(step, 0, buffer[6..HEADER_SIZE + length]);
      if actual != expected {
        Consume(|buffer|);
        ReportCorruption();
        return Bad;
      }
      r := Got(t, buffer[HEADER_SIZE..HEADER_SIZE + length]);
      ghost var more := Unread()[|buffer|..];
      assert buffer + more == Unread();
      GivenIsIntact(step, buffer, eof, r, 0, HEADER_SIZE + length, more);
      Consume(HEADER_SIZE + length);
    }

    /** FillBuffer, with what it means for the physical record ahead: the trailer before it is gone. */
    method FindHeader(ghost kind: byte, ghost payload: seq<byte>, ghost after: seq<byte>) returns (more: bool)
      requires Valid()
      modifies this
      ensures Valid() && corruptions == old(corruptions)
      ensures if more then HEADER_SIZE <= |buffer| && |Unread()| <= |old(Unread())| else Unread() == []
      ensures more ==> Position() < old(Position()) + 7
      ensures Ahead(step, old(Position()) % BLOCK_SIZE, old(Unread()), kind, payload, after) ==>
                var skipped := Trailer(old(Position()) % BLOCK_SIZE);
                if more then
                  && kind != 0 && |payload| <= 0xffff && Unread() <= Physical(step, kind, payload) + after
                  && (HEADER_SIZE + |payload| <= |buffer| || eof)
                  && skipped <= |old(Unread())| && Unread() == old(Unread())[skipped..]
                else |old(Unread())| < skipped + HEADER_SIZE
    {
      hide Physical, Trailer, Start, Ahead;
      ghost var unread, offset := Unread(), Position() % BLOCK_SIZE;
      SkippedIsTrailer(blockStart, filePos, |buffer|, eof);
      more := FillBuffer();
      if more {
        AfterTrailer(old(Position()));
        BlockIsBuffered(blockStart, filePos, |buffer|, eof);
        if Ahead(step, offset, unread, kind, payload, after) {
          DropTrailer(step, offset, unread, kind, payload, after);
        }
      }
    }

    /** The fragment is intact in the file, at or after `from`, and reading goes on right behind it. */
    ghost predicate FoundAt(r: Fragment, at: nat, from: nat)
      requires Valid() && r.Got?
      reads this`filePos, this`buffer, this`eof, this`blockStart
    {
      && from <= at < from + 7 && at <= |file| && IntactFront(step, file[at..], r.kind, r.payload)
      && Position() == at + 7 + |r.payload|
    }

    /**
     * The next physical record. Of a well-formed file it returns the record if the file has all of
     * it, and the end of the file otherwise, without a complaint.
     */
    method ReadPhysicalRecord(ghost kind: byte, ghost payload: seq<byte>, ghost after: seq<byte>) returns (r: Fragment, ghost at: nat)
      requires Valid()
      modifies this
      ensures Valid() && old(corruptions) <= corruptions
      ensures r.Got? ==> corruptions == old(corruptions) && FoundAt(r, at, old(Position()))
      ensures r == Eof ==> Unread() == []
      ensures r != Eof ==> |Unread()| < |old(Unread())|
      ensures old(Unread()) == [] ==> r == Eof && corruptions == old(corruptions)
      ensures Ahead(step, old(Position()) % BLOCK_SIZE, old(Unread()), kind, payload, after) ==>
                var size := Trailer(old(Position()) % BLOCK_SIZE) + HEADER_SIZE + |payload|;
                && corruptions == old(corruptions)
                && (if size <= |old(Unread())| then r == Got(kind, payload) && Unread() == old(Unread())[size..] else r == Eof)
    {
      hide Physical, Trailer, Start, Ahead, Extend, Valid, Position, Unread, Gives, IntactFront;
      PlaceOf();
      var more := FindHeader(kind, payload, after);
      PlaceOf();
      at := Position();
      if !more {
        return Eof, at;
      }
      r := ParseRecord(kind, payload, after);
      PlaceOf();
    }

    /** ReadPhysicalRecord, with what it means for the record being read. */
    method ReadExpected(ghost t: Track, ghost begin: bool, ghost scratch: seq<byte>, ghost clean: bool)
      returns (r: Fragment, ghost end: bool, ghost t': Track, ghost at: nat)
      requires Valid() && (clean ==> OnTrack(step, t, Position(), Unread(), begin, scratch))
      modifies this
      ensures Valid() && old(corruptions) <= corruptions && t' == t.(left := t'.left)
      ensures if r == Eof then Unread() == [] else |Unread()| < |old(Unread())|
      ensures r.Got? ==> FoundAt(r, at, old(Position()))
      ensures old(Position()) <= Position() <= |file|
      ensures old(Unread()) == [] ==> r == Eof && corruptions == old(corruptions)
      ensures clean ==>
                && corruptions == old(corruptions) && (begin ==> scratch == [])
                && (if r == Eof then |t.start| < |t.code| else r.Got? && r.kind == FragmentType(begin, end))
                && (r.Got? && end ==> |t.code| <= |t.start| && Unread() == t.start[|t.code|..] && t.data == scratch + r.payload)
                && (r.Got? && !end ==> OnTrack(step, t', Position(), Unread(), false, scratch + r.payload))
    {
      hide Encode, Ahead, Trailer, Start, FragmentLength, OnTrack, Tail, FragmentType;
      ghost var pos, unread := Position(), Unread();
      ghost var n := FragmentLength(pos % BLOCK_SIZE, |t.left|);
      end := n == |t.left|;
      t' := t.(left := t.left[n..]);
      r, at := ReadPhysicalRecord(FragmentType(begin, end), t.left[..n], Tail(step, pos, t.left) + t.after);
      if clean {
        assert begin ==> scratch == [] by { StartsEmpty(step, t, pos, unread, begin, scratch); }
        FragmentIsAhead(step, t, pos, unread, begin, scratch);
        Advance(step, t, pos, unread, begin, scratch, r, Unread());
      }
    }

    /**
     * The next logical record, from offset 0 on. Whatever the file holds, a record that comes back is made
     * of intact fragments, whole and in order. If what is unread begins with an encoded record, or
     * with as much of it as the file has, it returns that record, or false, without a complaint.
     */
    method ReadRecord(ghost data: seq<byte>, ghost after: seq<byte>)
      returns (ok: bool, record: seq<byte>, ghost pieces: seq<Piece>)
      requires Valid()
      modifies this
      ensures Valid() && old(corruptions) <= corruptions
      ensures ok ==> IsRecord(step, file, pieces, old(Position()), Position(), record)
      ensures if ok then |Unread()| < |old(Unread())| else Unread() == []
      ensures old(Unread()) == [] ==> !ok && corruptions == old(corruptions)
      ensures var code := Encode(step, old(Position()) % BLOCK_SIZE, true, data);
              old(Unread()) <= code + after ==>
                && corruptions == old(corruptions) && (ok <==> |code| <= |old(Unread())|)
                && (ok ==> record == data && Unread() == old(Unread())[|code|..])
    {
      hide Encode, Ahead, Trailer, Start, FragmentLength, OnTrack, Tail;
      hide FoundAt, AllIntact, Payloads, Begun, Complete, Assembles, Complaints, FragmentType, Valid, Position, Unread;
      InFile();
      var scratch: seq<byte> := [];
      record, pieces := [], [];
      var inFragmentedRecord := false;
      ghost var from := Position();
      NothingYet(step, file, from);
      ghost var start := Unread();
      ghost var clean := start <= Encode(step, Position() % BLOCK_SIZE, true, data) + after;
      ghost var code := Encode(step, Position() % BLOCK_SIZE, true, data);
      ghost var t := Track(start, code, after, data, data);
      StartsOnTrack(step, t, Position());
      while true
        invariant Valid() && old(corruptions) <= corruptions && |Unread()| <= |start|
        invariant start == [] ==> Unread() == [] && corruptions == old(corruptions)
        invariant clean ==> corruptions == old(corruptions)
        invariant t == Track(start, code, after, data, t.left)
        invariant clean ==> OnTrack(step, t, Position(), Unread(), !inFragmentedRecord, scratch)
        invariant AllIntact(step, file, pieces, from, Position())
        invariant inFragmentedRecord ==> pieces != [] && Begun(pieces) && scratch == Payloads(pieces) && EndOf(pieces[|pieces| - 1]) == Position()
        decreases |Unread()|
      {
        var fragment;
        ghost var end, at;
        ghost var before := Position();
        fragment, end, t, at := ReadExpected(t, !inFragmentedRecord, scratch, clean);
        NothingElse(step, file, pieces, from, before, Position());
        match fragment
        case Eof => return false, [], pieces;
        case Bad => scratch, inFragmentedRecord := DropFragments(scratch, inFragmentedRecord);
        case Got(kind, payload) =>
          var finished;
          ghost var was, had := inFragmentedRecord, scratch;
          finished, record, scratch, inFragmentedRecord := AddFragment(kind, payload, scratch, inFragmentedRecord, end);
          pieces := AddPiece(pieces, Piece(at, kind, payload), from, before, was, had, finished, record, scratch, inFragmentedRecord);
          if finished {
            return true, record, pieces;
          }
      }
    }

    /** A bad record in the middle of fragments: they are dropped, with a complaint. */
    method DropFragments(scratch: seq<byte>, inFragmentedRecord: bool) returns (scratch': seq<byte>, inFragmentedRecord': bool)
      modifies this`corruptions
      ensures !inFragmentedRecord' && corruptions == old(corruptions) + if inFragmentedRecord then 1 else 0
      ensures scratch' == if inFragmentedRecord then [] else scratch
    {
      scratch', inFragmentedRecord' := scratch, inFragmentedRecord;
      if inFragmentedRecord {
        corruptions := corruptions + 1;
        inFragmentedRecord' := false;
        scratch' := [];
      }
    }

    /** The fragment joins those found, or starts anew. */
    ghost method AddPiece(pieces: seq<Piece>, p: Piece, from: nat, before: nat, was: bool, had: seq<byte>, finished: bool,
                          record: seq<byte>, scratch: seq<byte>, inFragmentedRecord: bool)
      returns (r: seq<Piece>)
      requires Valid() && AllIntact(step, file, pieces, from, before) && FoundAt(Got(p.kind, p.payload), p.at, before)
      requires was ==> pieces != [] && Begun(pieces) && had == Payloads(pieces) && EndOf(pieces[|pieces| - 1]) == before
      requires Assembles(p.kind, p.payload, had, was, finished, record, scratch, inFragmentedRecord)
      ensures AllIntact(step, file, r, from, Position())
      ensures finished ==> Complete(r) && record == Payloads(r)
      ensures !finished && inFragmentedRecord ==> r != [] && Begun(r) && scratch == Payloads(r) && EndOf(r[|r| - 1]) == Position()
    {
      hide AllIntact, Payloads;
      OnePieceMore(step, file, pieces, from, before, p, Position());
      NothingElse(step, file, pieces, from, before, Position());
      if p.kind == 1 || p.kind == 2 {
        r := [p];
      } else if was && (p.kind == 3 || p.kind == 4) {
        r := pieces + [p];
        assert r[..|r| - 1] == pieces;
      } else {
        r := pieces;
      }
    }

    /** The switch on the record type; a fragment the writer would put here is taken without a complaint. */
    method AddFragment(kind: byte, payload: seq<byte>, scratch: seq<byte>, inFragmentedRecord: bool, ghost end: bool)
      returns (finished: bool, record: seq<byte>, scratch': seq<byte>, inFragmentedRecord': bool)
      modifies this`corruptions
      ensures old(corruptions) <= corruptions
      ensures Assembles(kind, payload, scratch, inFragmentedRecord, finished, record, scratch', inFragmentedRecord')
      ensures corruptions == old(corruptions) + Complaints(kind, scratch, inFragmentedRecord)
      ensures kind == FragmentType(!inFragmentedRecord, end) && (!inFragmentedRecord ==> scratch == []) ==>
                && corruptions == old(corruptions) && finished == end
                && if end then record == scratch + payload else scratch' == scratch + payload && inFragmentedRecord'
    {
      finished, record, scratch', inFragmentedRecord' := false, [], scratch, inFragmentedRecord;
      if kind == FULL {
        if inFragmentedRecord && scratch != [] {
          corruptions := corruptions + 1;
        }
        finished, record := true, payload;
      } else if kind == FIRST {
        if inFragmentedRecord && scratch != [] {
          corruptions := corruptions + 1;
        }
        scratch', inFragmentedRecord' := payload, true;
      } else if kind == MIDDLE {
        if !inFragmentedRecord {
          corruptions := corruptions + 1;
        } else {
          scratch' := scratch + payload;
        }
      } else if kind == LAST {
        if !inFragmentedRecord {
          corruptions := corruptions + 1;
        } else {
          finished, record := true, scratch + payload;
        }
      } else {
        corruptions := corruptions + 1;
        scratch', inFragmentedRecord' := [], false;
      }
    }
  }

  /** What the switch makes of a fragment of any type: 1 a whole record, 2 a first, 3 a middle, 4 a last. */
  ghost predicate Assembles(kind: byte, payload: seq<byte>, scratch: seq<byte>, begun: bool, finished: bool, record: seq<byte>,
                            scratch': seq<byte>, begun': bool) {
    match kind
    case 1 => finished && record == payload
    case 2 => !finished && scratch' == payload && begun'
    case 3 => !finished && begun' == begun && scratch' == if begun then scratch + payload else scratch
    case 4 => if begun then finished && record == scratch + payload else !finished && !begun' && scratch' == scratch
    case _ => !finished && scratch' == [] && !begun'
  }

  /** One complaint for a fragment that has no place here, or that leaves a record without its end. */
  function Complaints(kind: byte, scratch: seq<byte>, begun: bool): nat {
    match kind
    case 1 => if begun && scratch != [] then 1 else 0
    case 2 => if begun && scratch != [] then 1 else 0
    case 3 => if begun then 0 else 1
    case 4 => if begun then 0 else 1
    case _ => 1
  }

  lemma NothingYet(step: CrcStep, file: seq<byte>, from: nat)
    requires from <= |file|
    ensures AllIntact(step, file, [], from, from)
  {
  }

  /** A logical record being read: what was unread at its start, its encoding, and the data still to come. */
  datatype Track = Track(start: seq<byte>, code: seq<byte>, after: seq<byte>, data: seq<byte>, left: seq<byte>)

  /** What is unread is the encoding of the data still to come, or as much of it as the file has. */
  ghost predicate OnTrack(step: CrcStep, t: Track, pos: nat, unread: seq<byte>, begin: bool, scratch: seq<byte>) {
    var rest := Encode(step, pos % BLOCK_SIZE, begin, t.left);
    && t.data == scratch + t.left && (begin ==> scratch == [])
    && unread <= rest + t.after
    && |rest| <= |t.code| && |t.code| - |rest| <= |t.start| && unread == t.start[|t.code| - |rest|..]
  }

  lemma StartsOnTrack(step: CrcStep, t: Track, pos: nat)
    requires t.code == Encode(step, pos % BLOCK_SIZE, true, t.data) && t.left == t.data
    ensures t.start <= t.code + t.after ==> OnTrack(step, t, pos, t.start, true, [])
  {
    hide Encode;
    assert t.start[0..] == t.start && [] + t.left == t.left;
  }

  lemma StartsEmpty(step: CrcStep, t: Track, pos: nat, unread: seq<byte>, begin: bool, scratch: seq<byte>)
    requires OnTrack(step, t, pos, unread, begin, scratch)
    ensures begin ==> scratch == []
  {
  }

  /** The encoding that follows the first fragment of the data to come. */
  function Tail(step: CrcStep, pos: nat, left: seq<byte>): seq<byte> {
    var n := FragmentLength(pos % BLOCK_SIZE, |left|);
    if n == |left| then []
    else Encode(step, (pos + Trailer(pos % BLOCK_SIZE) + HEADER_SIZE + n) % BLOCK_SIZE, false, left[n..])
  }

  lemma FirstFragment(step: CrcStep, pos: nat, begin: bool, left: seq<byte>)
    ensures var n := FragmentLength(pos % BLOCK_SIZE, |left|);
            && Start(pos % BLOCK_SIZE) + HEADER_SIZE + n <= BLOCK_SIZE
            && Encode(step, pos % BLOCK_SIZE, begin, left) ==
               Zeros(Trailer(pos % BLOCK_SIZE)) + Physical(step, FragmentType(begin, n == |left|), left[..n]) + Tail(step, pos, left)
  {
    hide Encode, Physical;
    var o := pos % BLOCK_SIZE;
    var tail := LogWriter.SplitFragment(step, o, begin, left);
    var n := FragmentLength(o, |left|);
    if n < |left| {
      NextOffset(step, pos, n, left[n..]);
    }
  }

  lemma FragmentIsAhead(step: CrcStep, t: Track, pos: nat, unread: seq<byte>, begin: bool, scratch: seq<byte>)
    requires OnTrack(step, t, pos, unread, begin, scratch)
    ensures var n := FragmentLength(pos % BLOCK_SIZE, |t.left|);
            Ahead(step, pos % BLOCK_SIZE, unread, FragmentType(begin, n == |t.left|), t.left[..n], Tail(step, pos, t.left) + t.after)
  {
    hide Encode, Physical, Tail, Zeros, Trailer, Start;
    FirstFragment(step, pos, begin, t.left);
    var n := FragmentLength(pos % BLOCK_SIZE, |t.left|);
    RegroupFour([], Zeros(Trailer(pos % BLOCK_SIZE)) + Physical(step, FragmentType(begin, n == |t.left|), t.left[..n]),
                      Tail(step, pos, t.left), t.after);
  }

  lemma FrontIsRead(unread: seq<byte>, front: seq<byte>, tail: seq<byte>, after: seq<byte>, start: seq<byte>, end: nat)
    requires unread <= front + tail + after && |front| <= |unread|
    requires |front + tail| <= end && end - |front + tail| <= |start| && unread == start[end - |front + tail|..]
    ensures end - |tail| <= |start| && unread[|front|..] == start[end - |tail|..] && unread[|front|..] <= tail + after
  {
    assert front + tail + after == front + (tail + after);
    DropPrefix(unread, front, tail + after);
  }

  /** Reading the expected fragment finishes the record, keeps the reader on track, or meets the cut. */
  lemma Advance(step: CrcStep, t: Track, pos: nat, unread: seq<byte>, begin: bool, scratch: seq<byte>,
                fragment: Fragment, unread': seq<byte>)
    requires OnTrack(step, t, pos, unread, begin, scratch)
    requires var n := FragmentLength(pos % BLOCK_SIZE, |t.left|);
             var size := Trailer(pos % BLOCK_SIZE) + HEADER_SIZE + n;
             if size <= |unread| then fragment == Got(FragmentType(begin, n == |t.left|), t.left[..n]) && unread' == unread[size..]
             else fragment == Eof
    ensures var n := FragmentLength(pos % BLOCK_SIZE, |t.left|);
            if fragment == Eof then |t.start| < |t.code|
            else if n == |t.left| then
              && |t.code| <= |t.start| && unread' == t.start[|t.code|..] && t.data == scratch + t.left[..n]
            else
              OnTrack(step, t.(left := t.left[n..]), pos + |unread| - |unread'|, unread', false, scratch + t.left[..n])
  {
    hide Encode, Physical, Trailer, Start, Zeros, FragmentLength, FragmentType, OnTrack;
    var n := FragmentLength(pos % BLOCK_SIZE, |t.left|);
    var front := Zeros(Trailer(pos % BLOCK_SIZE)) + Physical(step, FragmentType(begin, n == |t.left|), t.left[..n]);
    var tail := Tail(step, pos, t.left);
    TrackParts(step, t, pos, unread, begin, scratch, front, tail) by { FirstFragment(step, pos, begin, t.left); }
    hide Tail;
    if |front| <= |unread| {
      FrontIsRead(unread, front, tail, t.after, t.start, |t.code|);
    }
    assert t.left == t.left[..n] + t.left[n..];
    if |front| <= |unread| && n < |t.left| {
      StaysOnTrack(step, t, pos, n, unread', scratch, tail) by { TailIs(step, pos, t.left); }
    }
    if n == |t.left| {
      assert tail == [] by { TailIs(step, pos, t.left); }
    }
  }

  lemma TailIs(step: CrcStep, pos: nat, left: seq<byte>)
    ensures var n := FragmentLength(pos % BLOCK_SIZE, |left|);
            Tail(step, pos, left) ==
            if n == |left| then []
            else Encode(step, (pos + Trailer(pos % BLOCK_SIZE) + HEADER_SIZE + n) % BLOCK_SIZE, false, left[n..])
  {
  }

  lemma TrackParts(step: CrcStep, t: Track, pos: nat, unread: seq<byte>, begin: bool, scratch: seq<byte>,
                   front: seq<byte>, tail: seq<byte>)
    requires OnTrack(step, t, pos, unread, begin, scratch) && Encode(step, pos % BLOCK_SIZE, begin, t.left) == front + tail
    ensures t.data == scratch + t.left && unread <= front + tail + t.after
    ensures |front + tail| <= |t.code| && |t.code| - |front + tail| <= |t.start| && unread == t.start[|t.code| - |front + tail|..]
  {
    hide Encode;
  }

  lemma StaysOnTrack(step: CrcStep, t: Track, pos: nat, n: nat, unread: seq<byte>, scratch: seq<byte>, tail: seq<byte>)
    requires n < |t.left| && t.data == scratch + t.left && unread <= tail + t.after
    requires tail == Encode(step, (pos + Trailer(pos % BLOCK_SIZE) + HEADER_SIZE + n) % BLOCK_SIZE, false, t.left[n..])
    requires |tail| <= |t.code| && |t.code| - |tail| <= |t.start| && unread == t.start[|t.code| - |tail|..]
    ensures OnTrack(step, t.(left := t.left[n..]), pos + Trailer(pos % BLOCK_SIZE) + HEADER_SIZE + n, unread, false, scratch + t.left[..n])
  {
    hide Encode, Trailer;
    assert scratch + t.left[..n] + t.left[n..] == scratch + t.left;
  }

  lemma NextOffset(step: CrcStep, pos: nat, n: nat, data: seq<byte>)
    requires Start(pos % BLOCK_SIZE) + HEADER_SIZE + n <= BLOCK_SIZE
    ensures Encode(step, (pos + Trailer(pos % BLOCK_SIZE) + HEADER_SIZE + n) % BLOCK_SIZE, false, data) ==
            Encode(step, Start(pos % BLOCK_SIZE) + HEADER_SIZE + n, false, data)
  {
    hide Encode;
    AfterTrailer(pos);
    if Start(pos % BLOCK_SIZE) + HEADER_SIZE + n == BLOCK_SIZE {
      EncodeAtEnd(step, false, data);
    }
  }

  lemma DropTrailer(step: CrcStep, o: nat, unread: seq<byte>, kind: byte, payload: seq<byte>, after: seq<byte>)
    requires Ahead(step, o, unread, kind, payload, after) && Trailer(o) <= |unread|
    ensures unread[Trailer(o)..] <= Physical(step, kind, payload) + after
    ensures kind != 0 && |payload| <= 0xffff && Start(o) + HEADER_SIZE + |payload| <= BLOCK_SIZE
  {
    hide Physical;
    assert Zeros(Trailer(o)) + Physical(step, kind, payload) + after == Zeros(Trailer(o)) + (Physical(step, kind, payload) + after);
    DropPrefix(unread, Zeros(Trailer(o)), Physical(step, kind, payload) + after);
  }

  lemma AfterTrailer(pos: nat)
    ensures (pos + Trailer(pos % BLOCK_SIZE)) % BLOCK_SIZE == Start(pos % BLOCK_SIZE)
  {
  }

  /** Before the end of the file, the buffer reaches to the end of its block. */
  lemma BlockIsBuffered(blockStart: nat, filePos: nat, buffered: nat, eof: bool)
    requires blockStart % BLOCK_SIZE == 0 && blockStart + buffered <= filePos <= blockStart + BLOCK_SIZE
    requires !eof ==> filePos == blockStart || filePos == blockStart + BLOCK_SIZE
    ensures !eof && 0 < buffered ==> (filePos - buffered) % BLOCK_SIZE + buffered == BLOCK_SIZE
  {
  }

  lemma NextBlock(start: nat)
    requires start % BLOCK_SIZE == 0
    ensures (start + BLOCK_SIZE) % BLOCK_SIZE == 0
  {
  }

  lemma PrefixOfPrefix(a: seq<byte>, b: seq<byte>, c: seq<byte>)
    requires a <= b <= c
    ensures a <= c
  {
  }

  /** Fewer bytes than a header at the end of a full block are exactly the writer's trailer. */
  lemma SkippedIsTrailer(blockStart: nat, filePos: nat, buffered: nat, eof: bool)
    requires blockStart % BLOCK_SIZE == 0 && blockStart + buffered <= filePos <= blockStart + BLOCK_SIZE
    requires !eof ==> filePos == blockStart || filePos == blockStart + BLOCK_SIZE
    ensures !eof && buffered < HEADER_SIZE ==> Trailer((filePos - buffered) % BLOCK_SIZE) == buffered
    ensures HEADER_SIZE <= buffered ==> Trailer((filePos - buffered) % BLOCK_SIZE) == 0
  {
  }

  // ---------- the whole file ----------

  lemma TailOfParts(records: seq<seq<byte>>, k: nat)
    requires 0 < k <= |records|
    ensures records[..k][1..] == records[1..][..k - 1] && records[1..][k - 1..] == records[k..]
  {
  }

  lemma WrittenUnfolds(step: CrcStep, pos: nat, records: seq<seq<byte>>)
    ensures records == [] ==> Written(step, pos, records) == []
    ensures records != [] ==>
              var r := Encode(step, pos % BLOCK_SIZE, true, records[0]);
              Written(step, pos, records) == r + Written(step, pos + |r|, records[1..])
  {
    hide Encode;
  }

  lemma {:induction false} WrittenFromSplit(step: CrcStep, pos: nat, records: seq<seq<byte>>, k: nat)
    requires k <= |records|
    ensures Written(step, pos, records) ==
            Written(step, pos, records[..k]) + Written(step, pos + |Written(step, pos, records[..k])|, records[k..])
    decreases k
  {
    hide Encode, Written;
    WrittenUnfolds(step, pos, records[..k]);
    if 0 < k {
      var r := Encode(step, pos % BLOCK_SIZE, true, records[0]);
      TailOfParts(records, k);
      WrittenUnfolds(step, pos, records);
      WrittenFromSplit(step, pos + |r|, records[1..], k - 1);
    } else {
      assert records[0..] == records;
    }
  }

  lemma WrittenStep(step: CrcStep, records: seq<seq<byte>>, k: nat)
    requires k < |records|
    ensures Written(step, 0, records[..k + 1]) ==
            Written(step, 0, records[..k]) + Encode(step, |Written(step, 0, records[..k])| % BLOCK_SIZE, true, records[k])
  {
    hide Encode, Written;
    PrefixStep(records, k);
    WrittenAppend(step, 0, records[..k], records[k]);
  }

  /** Every record of the list is made of intact fragments, in stretches of the file that follow one another. */
  ghost predicate AreRecords(step: CrcStep, file: seq<byte>, found: seq<seq<Piece>>, ends: seq<nat>, r: seq<seq<byte>>) {
    && |found| == |r| && |ends| == |r| + 1
    && forall i :: 0 <= i < |r| ==> IsRecord(step, file, found[i], ends[i], ends[i + 1], r[i])
  }

  lemma RecordFound(step: CrcStep, file: seq<byte>, found: seq<seq<Piece>>, ends: seq<nat>, r: seq<seq<byte>>,
                    pieces: seq<Piece>, end: nat, record: seq<byte>)
    requires AreRecords(step, file, found, ends, r) && IsRecord(step, file, pieces, ends[|r|], end, record)
    ensures AreRecords(step, file, found + [pieces], ends + [end], r + [record])
  {
    hide IsRecord;
  }

  /**
   * Reading a whole log. Whatever the file holds, what comes back was put together from intact fragments
   * in order. Of a log cut off at any byte, it returns exactly the records that are wholly there, in
   * order, and reports no corruption.
   */
  method ReadLog(step: CrcStep, file: seq<byte>, ghost records: seq<seq<byte>>)
    returns (r: seq<seq<byte>>, corruptions: nat, ghost found: seq<seq<Piece>>, ghost ends: seq<nat>)
    ensures AreRecords(step, file, found, ends, r)
    ensures file <= Written(step, 0, records) ==>
              corruptions == 0 && Contained(step, records, |file|, |r|) && r == records[..|r|]
  {
    hide Encode, Written, IsRecord, AreRecords, Reader.Valid, Reader.Position, Reader.Unread;
    var reader := new Reader(step, file);
    r, found, ends := [], [], [0];
    NothingFound(step, file);
    ghost var clean := file <= Written(step, 0, records);
    WrittenFromSplit(step, 0, records, 0);
    NothingWritten(step, records);
    var ok := true;
    while ok
      invariant fresh(reader) && reader.Valid() && reader.step == step && reader.file == file
      invariant AreRecords(step, file, found, ends, r) && |ends| == |r| + 1 && (ok ==> ends[|r|] == reader.Position())
      invariant clean ==> reader.corruptions == 0 && |r| <= |records| && r == records[..|r|]
      invariant clean && ok ==> reader.Position() == |Written(step, 0, records[..|r|])|
      invariant clean && !ok ==> Contained(step, records, |file|, |r|)
      decreases ok, |reader.Unread()|
    {
      reader.PlaceOf();
      ghost var k, unread := |r|, reader.Unread();
      ghost var next, after := [], [];
      if clean && k < |records| {
        next := records[k];
        after := Written(step, |Written(step, 0, records[..k + 1])|, records[k + 1..]);
        RestIsAhead(step, records, k, file);
      } else if clean {
        AllIsRead(step, records, file);
      }
      var record: seq<byte>;
      ghost var pieces;
      ok, record, pieces := reader.ReadRecord(next, after);
      reader.PlaceOf();
      if ok {
        RecordFound(step, file, found, ends, r, pieces, reader.Position(), record);
        found, ends := found + [pieces], ends + [reader.Position()];
        r := r + [record];
      }
      if clean && k < |records| {
        WrittenStep(step, records, k);
      }
    }
    corruptions := reader.corruptions;
  }

  lemma NothingFound(step: CrcStep, file: seq<byte>)
    ensures AreRecords(step, file, [], [0], [])
  {
  }

  lemma NothingWritten(step: CrcStep, records: seq<seq<byte>>)
    ensures Written(step, 0, records[..0]) == []
  {
  }

  lemma RestIsAhead(step: CrcStep, records: seq<seq<byte>>, k: nat, file: seq<byte>)
    requires k < |records| && file <= Written(step, 0, records)
    requires |Written(step, 0, records[..k])| <= |file|
    ensures var pos := |Written(step, 0, records[..k])|;
            file[pos..] <= Encode(step, pos % BLOCK_SIZE, true, records[k]) +
                           Written(step, |Written(step, 0, records[..k + 1])|, records[k + 1..])
  {
    hide Encode, Written;
    WrittenFromSplit(step, 0, records, k + 1);
    WrittenStep(step, records, k);
    var before := Written(step, 0, records[..k]);
    var code := Encode(step, |before| % BLOCK_SIZE, true, records[k]);
    var after := Written(step, |Written(step, 0, records[..k + 1])|, records[k + 1..]);
    RegroupFour([], before, code, after);
    DropPrefix(file, before, code + after);
  }

  lemma AllIsRead(step: CrcStep, records: seq<seq<byte>>, file: seq<byte>)
    requires file <= Written(step, 0, records) && |Written(step, 0, records[..|records|])| <= |file|
    ensures file[|Written(step, 0, records[..|records|])|..] == []
  {
    assert records[..|records|] == records;
  }

  /** The uncut file gives back every record written. */
  lemma WholeFileHoldsAll(step: CrcStep, records: seq<seq<byte>>, k: nat)
    requires Contained(step, records, |Written(step, 0, records)|, k)
    ensures k == |records|
  {
    hide Encode, Written;
    if k < |records| {
      WrittenFromSplit(step, 0, records, k + 1);
    }
  }

  /** The cut decides how many records come back. */
  lemma ContainedIsUnique(step: CrcStep, records: seq<seq<byte>>, n: nat, j: nat, k: nat)
    requires Contained(step, records, n, j) && Contained(step, records, n, k)
    ensures j == k
  {
    hide Encode, Written;
    if j < k {
      WrittenGrows(step, records, j + 1, k);
    } else if k < j {
      WrittenGrows(step, records, k + 1, j);
    }
  }

  lemma {:induction false} WrittenGrows(step: CrcStep, records: seq<seq<byte>>, j: nat, k: nat)
    requires j <= k <= |records|
    ensures |Written(step, 0, records[..j])| <= |Written(step, 0, records[..k])|
    decreases k - j
  {
    hide Encode, Written;
    if j < k {
      WrittenGrows(step, records, j, k - 1);
      WrittenStep(step, records, k - 1);
    }
  }

  /** Writing records one after another, reopening the writer before each, fills the file `Written` describes. */
  method WriteLog(step: CrcStep, records: seq<seq<byte>>, reopen: nat -> bool) returns (file: seq<byte>)
    ensures file == Written(step, 0, records)
  {
    hide Encode, Written;
    NothingWritten(step, records);
    var writer := new LogWriter.Writer(step, []);
    for i := 0 to |records|
      invariant fresh(writer) && writer.Valid() && writer.step == step && writer.dest == Written(step, 0, records[..i])
    {
      if reopen(i) {
        writer := new LogWriter.Writer(step, writer.dest);
      }
      WrittenStep(step, records, i);
      writer.AddRecord(records[i]);
    }
    assert records[..|records|] == records;
    file := writer.dest;
  }
}
