/** Machine integers as little-endian memory, the form in which zcbor_int_encode and val_to_int handle them. */
module Integers {
  import opened Heads

  function FromLittleEndian(mem: seq<byte>): nat {
    if mem == [] then 0 else mem[0] + 256 * FromLittleEndian(mem[1..])
  }

  function LittleEndian(n: nat, size: nat): (mem: seq<byte>)
    ensures |mem| == size
  {
    if size == 0 then [] else [n % 256] + LittleEndian(n / 256, size - 1)
  }

  lemma {:induction false} LittleEndianRoundTrip(n: nat, size: nat)
    requires n < Pow256(size)
    ensures FromLittleEndian(LittleEndian(n, size)) == n
  {
    if size > 0 {
      LittleEndianRoundTrip(n / 256, size - 1);
    }
  }

  /** The bytes of memory from index `len - 1` down to 0 are the big-endian argument of `len` bytes. */
  function Reversed(mem: seq<byte>, len: nat): (bs: seq<byte>)
    requires len <= |mem|
    ensures |bs| == len
  {
    if len == 0 then [] else [mem[len - 1]] + Reversed(mem, len - 1)
  }

  lemma {:induction false} ReversedIsBigEndian(mem: seq<byte>, len: nat)
    requires len <= |mem|
    ensures Reversed(mem, len) == BigEndian(FromLittleEndian(mem), len)
  {
    if len > 0 {
      ReversedIsBigEndian(mem[1..], len - 1);
      ReversedSplit(mem, len);
      assert FromLittleEndian(mem) % 256 == mem[0] && FromLittleEndian(mem) / 256 == FromLittleEndian(mem[1..]);
    }
  }

  lemma {:induction false} ReversedSplit(mem: seq<byte>, len: nat)
    requires 0 < len <= |mem|
    ensures Reversed(mem, len) == Reversed(mem[1..], len - 1) + [mem[0]]
  {
    if len > 1 {
      ReversedSplit(mem, len - 1);
    }
  }

  /** Every bit inverted. */
  function Flipped(mem: seq<byte>): (r: seq<byte>)
    ensures |r| == |mem|
  {
    if mem == [] then [] else [255 - mem[0]] + Flipped(mem[1..])
  }

  lemma {:induction false} FlippedIsComplement(mem: seq<byte>)
    ensures FromLittleEndian(Flipped(mem)) == Pow256(|mem|) - 1 - FromLittleEndian(mem)
    ensures Flipped(Flipped(mem)) == mem
  {
    if mem != [] {
      FlippedIsComplement(mem[1..]);
    }
  }

  lemma {:induction false} FlippedAt(mem: seq<byte>, i: nat)
    requires i < |mem|
    ensures Flipped(mem)[i] == 255 - mem[i]
  {
    if i > 0 {
      FlippedAt(mem[1..], i - 1);
    }
  }

  /** Memory read as a signed integer in two's complement. */
  function Signed(mem: seq<byte>): int
    requires mem != []
  {
    if mem[|mem| - 1] >= 128 then FromLittleEndian(mem) - Pow256(|mem|) else FromLittleEndian(mem)
  }

  /** The two's complement memory of a signed integer. */
  function Memory(n: int, size: nat): (mem: seq<byte>)
    requires 0 <= n + Pow256(size) && n < Pow256(size)
    ensures |mem| == size
  {
    LittleEndian(if n >= 0 then n else n + Pow256(size), size)
  }

  lemma {:induction false} TopByte(mem: seq<byte>)
    requires mem != []
    ensures FromLittleEndian(mem) < Pow256(|mem|)
    ensures mem[|mem| - 1] >= 128 <==> 2 * FromLittleEndian(mem) >= Pow256(|mem|)
  {
    if |mem| == 1 {
      assert Pow256(1) == 256 * Pow256(0);
    } else {
      TopByte(mem[1..]);
    }
  }

  /**
   The sign bit and the complement, both ways: a negative integer's memory has its top bit set and,
   flipped, holds `-1 - n`; a non-negative integer's memory holds `n` itself.
   */
  lemma SignAndComplement(n: int, size: nat)
    requires 0 < size && 0 <= 2 * n + Pow256(size) && 2 * n < Pow256(size)
    ensures Memory(n, size)[size - 1] >= 128 <==> n < 0
    ensures n >= 0 ==> FromLittleEndian(Memory(n, size)) == n
    ensures n < 0 ==> FromLittleEndian(Flipped(Memory(n, size))) == -1 - n
  {
    var u := if n >= 0 then n else n + Pow256(size);
    LittleEndianRoundTrip(u, size);
    TopByte(Memory(n, size));
    FlippedIsComplement(Memory(n, size));
  }

  /**
   The way back: the memory of an argument has its top bit set exactly if the argument is too large for a
   signed integer; otherwise it reads as `n`, and flipped as `-1 - n`.
   */
  lemma ComplementBack(n: nat, size: nat)
    requires 0 < size && n < Pow256(size)
    ensures var mem := LittleEndian(n, size);
      && (mem[size - 1] >= 128 <==> 2 * n >= Pow256(size))
      && (2 * n < Pow256(size) ==> Signed(mem) == n && Signed(Flipped(mem)) == -1 - n)
  {
    hide FromLittleEndian, LittleEndian, Flipped;
    var mem := LittleEndian(n, size);
    LittleEndianRoundTrip(n, size);
    TopByte(mem);
    FlippedIsComplement(mem);
    TopByte(Flipped(mem));
  }
}
