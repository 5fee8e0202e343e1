/** The decoder's input stream and its integers (nanopb pb_decode.c). */
module PbStream {
  import opened Common
  import opened Coding
  import opened Varint
  import opened Slices
  import opened PbWire

  class IStream {
    /** The bytes at the read pointer and after it; only `bytesLeft` of them belong to this stream. */
    var state: seq<byte>
    var bytesLeft: nat

    constructor (state: seq<byte>, bytesLeft: nat)
      requires bytesLeft <= |state| && bytesLeft < TWO_63
      ensures Valid() && this.state == state && this.bytesLeft == bytesLeft
    {
      this.state, this.bytesLeft := state, bytesLeft;
    }

    /** The stream lies in memory, so its length is below half the range of a size. */
    ghost predicate Valid()
      reads this
    {
      bytesLeft <= |state| && bytesLeft < TWO_63
    }

    ghost function Unread(): seq<byte>
      reads this
      requires Valid()
    {
      state[..bytesLeft]
    }

    /** Reading moves the pointer inside the stream and nowhere else. */
    twostate predicate Moved()
      requires old(Valid())
      reads this
    {
      Valid() && bytesLeft <= old(bytesLeft) && state[bytesLeft..] == old(state[bytesLeft..])
    }

    method Read(count: nat) returns (ok: bool, data: seq<byte>)
      requires Valid()
      modifies this
      ensures Moved() && (ok <==> count <= |old(Unread())|)
      ensures ok ==> data == old(Unread())[..count] && Unread() == old(Unread())[count..]
      ensures !ok ==> Unread() == old(Unread())
    {
      if bytesLeft < count {
        return false, [];
      }
      data := state[..count];
      state := state[count..];
      bytesLeft := bytesLeft - count;
      return true, data;
    }

    method ReadByte() returns (ok: bool, b: byte)
      requires Valid()
      modifies this
      ensures Moved() && (ok <==> old(Unread()) != [])
      ensures ok ==> b == old(Unread())[0] && Unread() == old(Unread())[1..]
      ensures !ok ==> Unread() == []
    {
      if bytesLeft == 0 {
        return false, 0;
      }
      b := state[0];
      state := state[1..];
      bytesLeft := bytesLeft - 1;
      return true, b;
    }

    /** pb_decode_varint. */
    method DecodeVarint() returns (ok: bool, value: nat)
      requires Valid()
      modifies this
      ensures Moved() && value < TWO_64
      ensures ok <==> VarintOf(old(Unread())).Some?
      ensures ok ==> VarintOf(old(Unread())) == Some(Taken(value, Unread()))
    {
      hide Pow2, WithGroup, GroupSum;
      Pow2Values();
      ghost var start := Unread();
      ghost var n := 0;
      NothingSummed(64);
      assert start[..0] == [];
      var bitpos: nat := 0;
      value := 0;
      var more := true;
      while more
        invariant Moved() && value < TWO_64 && n <= 10 && bitpos == 7 * n && n <= |start| && Unread() == start[n..]
        invariant value == GroupSum(start[..n]) % TWO_64
        invariant forall i :: 0 <= i < n - 1 ==> 128 <= start[i]
        invariant if more then 0 < n ==> 128 <= start[n - 1] else 0 < n && start[n - 1] < 128
        decreases more, 70 - bitpos
      {
        if bitpos >= 64 {
          return false, 0;
        }
        var got, b := ReadByte();
        if !got {
          return false, 0;
        }
        GroupTaken(start, 64, n, value);
        value := WithGroup(value, b, bitpos, TWO_64);
        n := n + 1;
        bitpos := bitpos + 7;
        more := b >= 128;
      }
      ok := true;
    }

    /**
     * pb_decode_varint32_eof: 32 bits, also from a number sign-extended to 64 bits. Only an empty stream
     * counts as its end.
     */
    method DecodeVarint32() returns (ok: bool, value: nat, eof: bool)
      requires Valid()
      modifies this
      ensures Moved() && (eof <==> old(Unread()) == [])
      ensures ok <==> Varint32Of(old(Unread())).Some?
      ensures ok ==> Varint32Of(old(Unread())) == Some(Taken(value, Unread()))
    {
      hide Groups32;
      value, eof := 0, false;
      ghost var start := Unread();
      var got, b := ReadByte();
      if !got {
        return false, 0, true;
      }
      FirstGroup32(start);
      if b < 128 {
        return true, b, false;
      }
      ok, value := DecodeMoreGroups(b % 128, start);
    }

    /** The loop of pb_decode_varint32_eof, from the second byte on. */
    method DecodeMoreGroups(first: nat, ghost start: seq<byte>) returns (ok: bool, value: nat)
      requires Valid() && 0 < |start| && 128 <= start[0] && Unread() == start[1..] && Groups32(start, 1) == Some(first)
      modifies this
      ensures Moved()
      ensures ok <==> Varint32Of(start).Some?
      ensures ok ==> Varint32Of(start) == Some(Taken(value, Unread()))
    {
      hide Groups32, Group32, Varint32Of, BitPos;
      NextBitPos(0);
      value := first;
      var bitpos: nat := 7;
      ghost var n := 1;
      var more := true;
      var b: byte := 128;
      while more
        invariant Moved() && 0 < n <= |start| && Unread() == start[n..] && bitpos == BitPos(n)
        invariant Groups32(start, n) == Some(value) && (1 < n ==> b == start[n - 1])
        invariant forall i :: 0 <= i < n - 1 ==> 128 <= start[i]
        invariant (more <==> 128 <= b) && (!more ==> 1 < n)
        decreases more, bytesLeft
      {
        var got, c := ReadByte();
        if !got {
          NoCode(start);
          return false, 0;
        }
        b := c;
        NextBitPos(n);
        MoreGroups32(start, n, value);
        if bitpos >= 32 && b % 128 != 0 && (value < 0x8000_0000 || b != (if bitpos < 63 then 0xff else 0x01)) {
          BadGroup(start, n, value);
          return false, 0;
        }
        if bitpos < 32 {
          value := Group32(value, b, bitpos);
        }
        bitpos := (bitpos + 7) % 256;
        n := n + 1;
        more := b >= 128;
      }
      CodeEnds(start, n, value);
      ok := !(bitpos == 35 && b % 128 >= 16);
      if !ok {
        value := 0;
      }
    }

    /** Also on failure no byte of an enclosing stream is taken. */
    twostate predicate Within()
      requires old(Valid())
      reads this
    {
      Valid() && old(|state| - bytesLeft) <= |state| - bytesLeft
    }

    /** pb_decode_tag: a wire type and a field number; a zero tag ends the message like the end of the stream. */
    method DecodeTag() returns (ok: bool, wireType: nat, number: nat, eof: bool)
      requires Valid()
      modifies this
      ensures Moved() && wireType < 8
      ensures ok <==> Varint32Of(old(Unread())).Some? && Varint32Of(old(Unread())).value.value != 0
      ensures ok ==> Varint32Of(old(Unread())) == Some(Taken(number * 8 + wireType, Unread()))
      ensures eof <==> old(Unread()) == [] || (Varint32Of(old(Unread())).Some? && Varint32Of(old(Unread())).value.value == 0)
      ensures eof && old(Unread()) != [] ==> Varint32Of(old(Unread())) == Some(Taken(0, Unread()))
    {
      hide Varint32Of;
      var temp;
      ok, temp, eof := DecodeVarint32();
      if ok && temp == 0 {
        ok, eof := false, true;
      }
      wireType, number := temp % 8, temp / 8;
    }

    method SkipVarint() returns (ok: bool)
      requires Valid()
      modifies this
      ensures Moved()
      ensures ok <==> 0 < CodeLength(old(Unread()))
      ensures ok ==> Unread() == old(Unread())[CodeLength(old(Unread()))..]
    {
      ghost var start := Unread();
      ghost var n := 0;
      var b: byte := 128;
      while b >= 128
        invariant Moved() && n <= |start| && Unread() == start[n..]
        invariant forall i :: 0 <= i < n - 1 ==> 128 <= start[i]
        invariant 0 < n ==> b == start[n - 1]
        invariant b < 128 ==> 0 < n
        decreases bytesLeft, b
      {
        ok, b := ReadByte();
        if !ok {
          return;
        }
        n := n + 1;
      }
      ok := true;
    }

    /** pb_skip_string. */
    method SkipString() returns (ok: bool)
      requires Valid()
      modifies this
      ensures Moved()
      ensures ok <==> SizedOf(old(Unread())).Some?
      ensures ok ==> Unread() == SizedOf(old(Unread())).value.rest
    {
      hide Varint32Of;
      var length, eof;
      ok, length, eof := DecodeVarint32();
      if ok {
        var skipped;
        ok, skipped := Read(length);
      }
    }

    /** pb_skip_field. */
    method SkipField(wireType: nat) returns (ok: bool)
      requires Valid()
      modifies this
      ensures Moved()
      ensures ok <==> SkipOf(wireType, old(Unread())).Some?
      ensures ok ==> SkipOf(wireType, old(Unread())) == Some(Unread())
    {
      hide SizedOf;
      var skipped;
      if wireType == 0 {
        ok := SkipVarint();
      } else if wireType == 1 {
        ok, skipped := Read(8);
      } else if wireType == 2 {
        ok := SkipString();
      } else if wireType == 5 {
        ok, skipped := Read(4);
      } else {
        ok := false;
      }
    }

    /** pb_make_string_substream: the next length-prefixed bytes as a stream of their own. */
    method MakeStringSubstream() returns (ok: bool, sub: IStream)
      requires Valid()
      modifies this
      ensures Within() && fresh(sub) && sub.Valid()
      ensures ok ==>
                && sub.state == state && sub.bytesLeft + bytesLeft <= old(bytesLeft) && sub.bytesLeft + bytesLeft <= |state|
                && state[sub.bytesLeft + bytesLeft..] == old(state[bytesLeft..])
      ensures ok <==> SizedOf(old(Unread())).Some?
      ensures ok ==> SizedOf(old(Unread())) == Some(Taken(sub.Unread(), state[sub.bytesLeft..][..bytesLeft]))
    {
      hide Varint32Of;
      var size, eof;
      ok, size, eof := DecodeVarint32();
      if ok && bytesLeft < size {
        ok := false;
      }
      if ok {
        ghost var rest := Unread();
        sub := new IStream(state, size);
        bytesLeft := bytesLeft - size;
        assert rest[..size] == sub.Unread() && rest[size..] == state[size..][..bytesLeft];
      } else {
        sub := new IStream([], 0);
      }
    }

    /** pb_close_string_substream: what the substream left is skipped, and reading goes on after it. */
    method CloseStringSubstream(sub: IStream)
      requires Valid() && sub.Valid() && sub != this && bytesLeft + sub.bytesLeft <= |sub.state|
      modifies this, sub
      ensures Valid() && bytesLeft == old(bytesLeft) && state == old(sub.state[sub.bytesLeft..])
    {
      if sub.bytesLeft > 0 {
        var ok, skipped := sub.Read(sub.bytesLeft);
      }
      state := sub.state;
    }
  }

  lemma FirstGroup32(input: seq<byte>)
    requires input != []
    ensures Groups32(input, 1) == Some(input[0] % 128)
    ensures input[0] < 128 ==> Varint32Of(input) == Some(Taken(input[0] as nat, input[1..]))
  {
    if input[0] < 128 {
      assert CodeLength(input) == 1;
    }
  }

  lemma NextBitPos(n: nat)
    ensures BitPos(n + 1) == (BitPos(n) + 7) % 256 && BitPos(1) == 7
  {
  }

  lemma NoCode(input: seq<byte>)
    requires forall i :: 0 <= i < |input| ==> 128 <= input[i]
    ensures Varint32Of(input).None?
  {
  }

  lemma MoreGroups32(code: seq<byte>, n: nat, value: nat)
    requires 0 < n < |code| && Groups32(code, n) == Some(value)
    ensures Groups32(code, n + 1) == if !GroupOk(value, code[n], BitPos(n)) then None
                                     else if BitPos(n) < 32 then Some(Group32(value, code[n], BitPos(n))) else Some(value)
  {
    hide Group32, GroupOk, BitPos;
  }

  /** What the first groups come to does not depend on what follows. */
  lemma {:induction false} GroupsOfPrefix(code: seq<byte>, m: nat, n: nat)
    requires 0 < n <= m <= |code|
    ensures Groups32(code[..m], n) == Groups32(code, n)
    decreases n
  {
    hide Group32, GroupOk, BitPos;
    if 1 < n {
      GroupsOfPrefix(code, m, n - 1);
    }
  }

  /** Once a group does not fit, the number does not. */
  lemma {:induction false} NoneStays(code: seq<byte>, n: nat, m: nat)
    requires 0 < n <= m <= |code| && Groups32(code, n).None?
    ensures Groups32(code, m).None?
    decreases m
  {
    hide Group32, GroupOk, BitPos;
    if n < m {
      NoneStays(code, n, m - 1);
    }
  }

  lemma BadGroup(input: seq<byte>, n: nat, value: nat)
    requires 0 < n < |input| && Groups32(input, n) == Some(value) && !GroupOk(value, input[n], BitPos(n))
    requires forall i :: 0 <= i < n ==> 128 <= input[i]
    ensures Varint32Of(input).None?
  {
    hide Groups32, GroupOk, BitPos;
    MoreGroups32(input, n, value);
    var m := CodeLength(input);
    if 0 < m {
      NoneStays(input, n + 1, m);
      GroupsOfPrefix(input, m, m);
    }
  }

  lemma CodeEnds(input: seq<byte>, n: nat, value: nat)
    requires 1 < n <= |input| && Groups32(input, n) == Some(value) && input[n - 1] < 128
    requires forall i :: 0 <= i < n - 1 ==> 128 <= input[i]
    ensures Varint32Of(input) == if BitPos(n) == 35 && 16 <= input[n - 1] % 128 then None else Some(Taken(value, input[n..]))
  {
    hide Groups32, BitPos;
    GroupsOfPrefix(input, n, n);
    assert CodeLength(input) == n;
  }
}
