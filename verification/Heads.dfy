/**
 CBOR item heads: the initial byte and its big-endian argument, as zcbor_encode.c writes
 them and zcbor_decode.c reads them (section 3 of RFC 8949).
 */
module Heads {
  type byte = n: nat | n < 256

  function Pow256(k: nat): (p: nat)
    ensures 1 <= p
  {
    if k == 0 then 1 else 256 * Pow256(k - 1)
  }

  /** The low `len` bytes of `n`, most significant first. */
  function BigEndian(n: nat, len: nat): (bs: seq<byte>)
    ensures |bs| == len
  {
    if len == 0 then [] else BigEndian(n / 256, len - 1) + [n % 256]
  }

  function FromBigEndian(bs: seq<byte>): nat {
    if bs == [] then 0 else FromBigEndian(bs[..|bs| - 1]) * 256 + bs[|bs| - 1]
  }

  lemma {:induction false} BigEndianRoundTrip(n: nat, len: nat)
    requires n < Pow256(len)
    ensures FromBigEndian(BigEndian(n, len)) == n
  {
    if len > 0 {
      BigEndianRoundTrip(n / 256, len - 1);
      assert BigEndian(n, len)[..len - 1] == BigEndian(n / 256, len - 1);
    }
  }

  lemma {:induction false} FromBigEndianRoundTrip(bs: seq<byte>)
    ensures FromBigEndian(bs) < Pow256(|bs|) && BigEndian(FromBigEndian(bs), |bs|) == bs
  {
    if bs != [] {
      var front, last := bs[..|bs| - 1], bs[|bs| - 1];
      FromBigEndianRoundTrip(front);
      assert FromBigEndian(bs) / 256 == FromBigEndian(front) && FromBigEndian(bs) % 256 == last;
      assert bs == front + [last];
    }
  }

  lemma Powers()
    ensures Pow256(1) == 0x100 && Pow256(2) == 0x1_0000
    ensures Pow256(4) == 0x1_0000_0000 && Pow256(8) == 0x1_0000_0000_0000_0000
  {
    assert Pow256(3) == 256 * Pow256(2);
    assert Pow256(5) == 256 * Pow256(4);
    assert Pow256(6) == 256 * Pow256(5);
    assert Pow256(7) == 256 * Pow256(6);
  }

  // ---------------------------------------------------------------- heads

  /** How many argument bytes follow the initial byte. */
  datatype Width = Direct | One | Two | Four | Eight {
    function Len(): nat {
      match this
      case Direct => 0
      case One => 1
      case Two => 2
      case Four => 4
      case Eight => 8
    }

    /** The five-bit additional information. */
    function Additional(n: nat): nat {
      match this
      case Direct => n
      case One => 24
      case Two => 25
      case Four => 26
      case Eight => 27
    }

    predicate Expresses(n: nat) {
      match this
      case Direct => n <= 23
      case One => n <= 0xFF
      case Two => n <= 0xFFFF
      case Four => n <= 0xFFFF_FFFF
      case Eight => n <= 0xFFFF_FFFF_FFFF_FFFF
    }
  }

  function Head(major: nat, w: Width, n: nat): (bs: seq<byte>)
    requires major < 8 && w.Expresses(n)
    ensures |bs| == 1 + w.Len()
  {
    [major * 32 + w.Additional(n)] + BigEndian(n, w.Len())
  }

  /** The initial byte of an indefinite-length list or map, and the break that ends one. */
  const LIST_START: byte := 0x9F
  const MAP_START: byte := 0xBF
  const BREAK: byte := 0xFF

  function Shortest(n: nat): (w: Width)
    requires n < 0x1_0000_0000_0000_0000
    ensures w.Expresses(n)
  {
    if n <= 23 then Direct else if n <= 0xFF then One else if n <= 0xFFFF then Two
    else if n <= 0xFFFF_FFFF then Four else Eight
  }

  /** `zcbor_header_len`. */
  function HeaderLen(n: nat): nat {
    if n <= 23 then 1 else if n <= 0xFF then 2 else if n <= 0xFFFF then 3
    else if n <= 0xFFFF_FFFF then 5 else 9
  }

  /** The predicted length is the length of the shortest head, and no other width does better. */
  lemma ShortestIsShortest(major: nat, n: nat, w: Width)
    requires major < 8 && n < 0x1_0000_0000_0000_0000 && w.Expresses(n)
    ensures |Head(major, Shortest(n), n)| == HeaderLen(n) <= |Head(major, w, n)|
  {
  }

  /** Examples of appendix A of RFC 8949. */
  lemma HeadExamples()
    ensures Head(0, Shortest(23), 23) == [0x17]
    ensures Head(0, Shortest(24), 24) == [0x18, 0x18]
    ensures Head(0, Shortest(1000), 1000) == [0x19, 0x03, 0xE8]
    ensures Head(0, Shortest(1000000), 1000000) == [0x1A, 0x00, 0x0F, 0x42, 0x40]
    ensures Head(0, Shortest(1000000000000), 1000000000000) == [0x1B, 0x00, 0x00, 0x00, 0xE8, 0xD4, 0xA5, 0x10, 0x00]
    ensures Head(1, Shortest(999), 999) == [0x39, 0x03, 0xE7]
  {
    Bytes(0, 0); Bytes(24, 1); Bytes(3, 1); Bytes(1000, 2); Bytes(999, 2);
    Bytes(15, 2); Bytes(3906, 3); Bytes(1000000, 4);
    Bytes(0, 1); Bytes(0, 2); Bytes(0, 3); Bytes(232, 4); Bytes(59604, 5);
    Bytes(15258789, 6); Bytes(3906250000, 7); Bytes(1000000000000, 8);
  }

  lemma Bytes(n: nat, len: nat)
    ensures BigEndian(n, len) == if len == 0 then [] else BigEndian(n / 256, len - 1) + [n % 256]
  {
  }

  // ---------------------------------------------------------------- reading a head

  ghost predicate At(buf: seq<byte>, pos: nat, bs: seq<byte>) {
    pos + |bs| <= |buf| && buf[pos..pos + |bs|] == bs
  }

  lemma WholeAt(bs: seq<byte>)
    ensures At(bs, 0, bs)
  {
  }

  lemma AtConcat(buf: seq<byte>, pos: nat, a: seq<byte>, b: seq<byte>)
    ensures At(buf, pos, a + b) <==> At(buf, pos, a) && At(buf, pos + |a|, b)
  {
    if At(buf, pos, a + b) {
      assert buf[pos..pos + |a|] == (a + b)[..|a|];
      assert buf[pos + |a|..pos + |a| + |b|] == (a + b)[|a|..];
    }
    if At(buf, pos, a) && At(buf, pos + |a|, b) {
      assert buf[pos..pos + |a + b|] == buf[pos..pos + |a|] + buf[pos + |a|..pos + |a| + |b|];
    }
  }

  datatype Extract = Fail | Value(n: nat, len: nat) | Unbounded

  /** `additional_len`, for additional information up to 27. */
  function ArgumentLen(additional: nat): (len: nat)
    requires additional <= 27
    ensures len <= 8
  {
    if additional <= 23 then 0 else if additional == 24 then 1 else if additional == 25 then 2
    else if additional == 26 then 4 else 8
  }

  /**
   What `value_extract` finds at `pos` for a result of `resultLen` bytes, when the enclosing
   container still expects `elemCount` elements.
   */
  function ExtractHead(buf: seq<byte>, pos: nat, resultLen: nat, indefiniteOk: bool, elemCount: nat): Extract {
    if pos >= |buf| || elemCount == 0 then Fail
    else
      var additional := buf[pos] % 32;
      if additional == 31 && indefiniteOk then Unbounded
      else if additional > 27 then Fail
      else
        var len := ArgumentLen(additional);
        if len > resultLen || pos + len + 1 > |buf| then Fail
        else Value(if len == 0 then additional else FromBigEndian(buf[pos + 1..pos + 1 + len]), len)
  }

  lemma ExpressedInBytes(w: Width, n: nat)
    requires !w.Direct?
    ensures w.Expresses(n) <==> n < Pow256(w.Len())
  {
    Powers();
  }

  lemma InitialByte(major: nat, w: Width, n: nat)
    requires major < 8 && w.Expresses(n)
    ensures var b := Head(major, w, n)[0];
      && b / 32 == major && b % 32 == w.Additional(n) <= 27 && ArgumentLen(b % 32) == w.Len()
  {
  }

  /** A head is read back as the argument it was written for. */
  lemma HeadExtracts(buf: seq<byte>, pos: nat, major: nat, w: Width, n: nat,
                     resultLen: nat, indefiniteOk: bool, elemCount: nat)
    requires major < 8 && w.Expresses(n) && At(buf, pos, Head(major, w, n))
    requires w.Len() <= resultLen && elemCount > 0
    ensures pos < |buf| && buf[pos] / 32 == major
    ensures ExtractHead(buf, pos, resultLen, indefiniteOk, elemCount) == Value(n, w.Len())
  {
    var h, arg := Head(major, w, n), BigEndian(n, w.Len());
    InitialByte(major, w, n);
    AtConcat(buf, pos, [h[0]], arg);
    assert buf[pos] == [buf[pos]][0] == h[0];
    if !w.Direct? {
      ExpressedInBytes(w, n);
      BigEndianRoundTrip(n, w.Len());
    }
  }

  function WidthOf(additional: nat): Width
    requires additional <= 27
  {
    if additional <= 23 then Direct else if additional == 24 then One else if additional == 25 then Two
    else if additional == 26 then Four else Eight
  }

  lemma ArgumentIsExpressed(b: byte, arg: seq<byte>, n: nat)
    requires b % 32 <= 27 && |arg| == ArgumentLen(b % 32)
    requires n == if |arg| == 0 then b % 32 else FromBigEndian(arg)
    ensures var w := WidthOf(b % 32);
      w.Expresses(n) && w.Len() == |arg| && Head(b / 32, w, n) == [b] + arg
  {
    hide FromBigEndian, Pow256;
    var w := WidthOf(b % 32);
    if w.Direct? {
      assert arg == [];
    } else {
      hide BigEndian;
      FromBigEndianRoundTrip(arg);
      ExpressedInBytes(w, n);
    }
    assert b / 32 * 32 + b % 32 == b;
  }

  /** Whatever is read as a value was a head. */
  lemma ExtractIsHead(buf: seq<byte>, pos: nat, resultLen: nat, indefiniteOk: bool, elemCount: nat) returns (w: Width)
    requires ExtractHead(buf, pos, resultLen, indefiniteOk, elemCount).Value?
    ensures var x := ExtractHead(buf, pos, resultLen, indefiniteOk, elemCount);
      && w.Expresses(x.n) && w.Len() == x.len <= resultLen
      && At(buf, pos, Head(buf[pos] / 32, w, x.n))
  {
    var x := ExtractHead(buf, pos, resultLen, indefiniteOk, elemCount);
    var arg := buf[pos + 1..pos + 1 + x.len];
    ArgumentIsExpressed(buf[pos], arg, x.n);
    w := WidthOf(buf[pos] % 32);
    assert buf[pos..pos + 1 + x.len] == [buf[pos]] + arg;
  }
}
