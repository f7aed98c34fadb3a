/**
 The zcbor encoder state and the CORECONF printer, writing into a caller's buffer.
 Every write either fits and appends, or fails and leaves the buffer position alone.
 */
module Encoders {
  import opened Heads
  import opened Integers
  import opened Values
  import opened Codec

  class Encoder {
    const buf: array<byte>
    var payload: nat

    ghost predicate Valid()
      reads this
    {
      payload <= buf.Length
    }

    ghost function Written(): seq<byte>
      requires Valid()
      reads this, buf
    {
      buf[..payload]
    }

    /** There is room for `n` more bytes. */
    predicate Room(n: nat)
      reads this
    {
      payload + n <= buf.Length
    }

    /** `zcbor_new_encode_state` over the rest of `buf` from `start`. */
    constructor (buf: array<byte>, start: nat)
      requires start <= buf.Length
      ensures Valid() && this.buf == buf && payload == start && Written() == buf[..start]
    {
      this.buf := buf;
      payload := start;
    }

    method HeaderByte(major: nat, additional: nat) returns (ok: bool)
      requires Valid() && major < 8 && additional < 32
      modifies this, buf
      ensures Valid() && ok == old(Room(1))
      ensures Written() == old(Written()) + if ok then [major * 32 + additional] else []
    {
      if payload >= buf.Length {
        return false;
      }
      buf[payload] := major * 32 + additional;
      payload := payload + 1;
      ok := true;
    }

    /** `get_additional`: the value itself, or the code for the number of bytes that follow. */
    static function Additional(len: nat, low: byte): nat {
      if len == 0 then low else if len == 1 then 24 else if len == 2 then 25 else if len <= 4 then 26 else 27
    }

    /** Writes an initial byte and the lowest `len` bytes of `mem`, most significant first. */
    method ValueEncodeLen(major: nat, mem: seq<byte>, len: nat) returns (ok: bool)
      requires Valid() && major < 8 && 0 < |mem| && len <= |mem| && Additional(len, mem[0]) < 32
      modifies this, buf
      ensures Valid() && ok == old(Room(1 + len))
      ensures ok ==> Written() == old(Written()) + [major * 32 + Additional(len, mem[0])] + Reversed(mem, len)
      ensures !ok ==> Written() == old(Written())
    {
      if payload + 1 + len > buf.Length {
        return false;
      }
      ok := HeaderByte(major, Additional(len, mem[0]));
      ghost var head := Written();
      var left: nat := len;
      while left > 0
        invariant left <= len && Valid() && Room(left) && ok
        invariant Written() + Reversed(mem, left) == head + Reversed(mem, len)
      {
        ghost var before := Written();
        buf[payload] := mem[left - 1];
        payload := payload + 1;
        assert Written() == before + [mem[left - 1]];
        left := left - 1;
        assert before + Reversed(mem, left + 1) == Written() + Reversed(mem, left);
      }
    }

    /** Writes the number held in `mem` with the shortest head. */
    method ValueEncode(major: nat, mem: seq<byte>) returns (ok: bool)
      requires Valid() && major < 8 && |mem| in {1, 4, 8} && FromLittleEndian(mem) < TWO_64
      modifies this, buf
      ensures var n := FromLittleEndian(mem);
        && Valid() && ok == old(Room(HeaderLen(n)))
        && Written() == old(Written()) + if ok then Head(major, Shortest(n), n) else []
    {
      ghost var n := FromLittleEndian(mem);
      HeadFromMemory(major, mem);
      ok := ValueEncodeLen(major, mem, HeaderLen(FromLittleEndian(mem)) - 1);
    }

    method UintPut(n: nat, size: nat) returns (ok: bool)
      requires Valid() && size in {4, 8} && n < Pow256(size) && n < TWO_64
      modifies this, buf
      ensures Valid() && ok == old(Room(HeaderLen(n)))
      ensures Written() == old(Written()) + if ok then Head(0, Shortest(n), n) else []
    {
      Powers();
      LittleEndianRoundTrip(n, size);
      ok := ValueEncode(0, LittleEndian(n, size));
    }

    /** A negative integer is written as the complement of its memory, under the negative major type. */
    method IntPut(n: int, size: nat) returns (ok: bool)
      requires Valid() && size in {4, 8} && 0 <= 2 * n + Pow256(size) && 2 * n < Pow256(size)
      requires -TWO_63 <= n < TWO_63
      modifies this, buf
      ensures Valid() && ok == old(Room(HeaderLen(if n >= 0 then n else -1 - n)))
      ensures Written() == old(Written()) + if ok then Encode(Int(I64, n)) else []
    {
      hide BigEndian, FromLittleEndian, Pow256;
      Powers();
      SignAndComplement(n, size);
      var mem, major := Memory(n, size), 0;
      if mem[size - 1] >= 128 {
        major := 1;
        mem := Flipped(mem);
      }
      ok := ValueEncode(major, mem);
    }

    method StrEncode(major: nat, s: seq<byte>) returns (ok: bool)
      requires Valid() && major < 8 && |s| < TWO_63
      modifies this, buf
      ensures Valid() && ok == old(Room(HeaderLen(|s|) + |s|))
      ensures Written() == old(Written()) + if ok then Head(major, Shortest(|s|), |s|) + s else []
    {
      hide BigEndian, Pow256, FromLittleEndian;
      if payload >= buf.Length || |s| > buf.Length - payload || HeaderLen(|s|) + |s| + payload > buf.Length {
        return false;
      }
      Powers();
      LittleEndianRoundTrip(|s|, 8);
      ShortestIsShortest(major, |s|, Eight);
      ok := ValueEncode(major, LittleEndian(|s|, 8));
      ghost var head := Written();
      forall i | 0 <= i < |s| {
        buf[payload + i] := s[i];
      }
      payload := payload + |s|;
      assert Written() == head + s;
    }

    method SimplePut(n: byte) returns (ok: bool)
      requires Valid() && n <= 23
      modifies this, buf
      ensures Valid() && ok == old(Room(1))
      ensures Written() == old(Written()) + if ok then Head(7, Direct, n) else []
    {
      assert FromLittleEndian([n]) == n;
      ok := ValueEncode(7, [n]);
    }

    method Float64Put(bits: nat) returns (ok: bool)
      requires Valid() && bits < TWO_64
      modifies this, buf
      ensures Valid() && ok == old(Room(9))
      ensures Written() == old(Written()) + if ok then Head(7, Eight, bits) else []
    {
      Powers();
      var mem := LittleEndian(bits, 8);
      LittleEndianRoundTrip(bits, 8);
      ReversedIsBigEndian(mem, 8);
      ok := ValueEncodeLen(7, mem, 8);
    }
  }

  lemma ArgumentFitsMemory(mem: seq<byte>)
    requires |mem| in {1, 4, 8}
    ensures FromLittleEndian(mem) < TWO_64 && HeaderLen(FromLittleEndian(mem)) - 1 <= |mem|
    ensures FromLittleEndian(mem) % 256 == mem[0]
  {
    TopByte(mem);
    Powers();
  }

  lemma HeadFromMemory(major: nat, mem: seq<byte>)
    requires major < 8 && |mem| in {1, 4, 8} && FromLittleEndian(mem) < TWO_64
    ensures var n := FromLittleEndian(mem); var len := HeaderLen(n) - 1;
      && len <= |mem| && Encoder.Additional(len, mem[0]) < 32
      && Head(major, Shortest(n), n) == [major * 32 + Encoder.Additional(len, mem[0])] + Reversed(mem, len)
  {
    hide FromLittleEndian, BigEndian, Reversed, Pow256;
    var n := FromLittleEndian(mem);
    var len := HeaderLen(n) - 1;
    ArgumentFitsMemory(mem);
    ReversedIsBigEndian(mem, len);
    assert Shortest(n).Len() == len && Shortest(n).Additional(n) == Encoder.Additional(len, mem[0]);
  }
}
