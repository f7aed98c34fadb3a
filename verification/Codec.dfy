/**
 The meaning of src/serialization.c as functions: the item a value is written as, the value
 an item is read as, and what encoding and decoding do to each other.
 */
module Codec {
  import opened Heads
  import opened Items
  import opened Values

  // ---------------------------------------------------------------- what the encoder writes

  /** What the C representation of a value already guarantees. */
  ghost predicate Encodable(v: Value) {
    match v
    case Str(bs) => |bs| < TWO_63 && 0 !in bs
    case Real(bits) => bits < TWO_64
    case Int(t, n) => t.InRange(n)
    case Bool(_) => true
    case Null => true
    case Array(es) => forall i :: 0 <= i < |es| ==> Encodable(es[i])
    case Map(t) => WellPlaced(t) && forall i :: 0 <= i < |t| ==> EncodableChain(t[i])
  }

  ghost predicate EncodableChain(c: Chain) {
    c.Object? ==> c.key < TWO_64 && Encodable(c.value) && EncodableChain(c.next)
  }

  function IntItem(n: int): Item
    requires -TWO_64 <= n < TWO_64
  {
    if n >= 0 then Uint(Shortest(n), n) else Nint(Shortest(-1 - n), -1 - n)
  }

  ghost function ItemOf(v: Value): Item
    requires Encodable(v)
    decreases v
  {
    match v
    case Str(bs) => Tstr(Shortest(|bs|), bs)
    case Real(bits) => Simple(Eight, bits)
    case Int(_, n) => IntItem(n)
    case Bool(b) => Simple(Direct, if b then 21 else 20)
    case Null => Simple(Direct, 22)
    case Array(es) => List(Indefinite, ElemItems(es, 0))
    case Map(t) => Item.Map(Indefinite, TableItems(t, 0))
  }

  ghost function ElemItems(es: seq<Value>, i: nat): (items: seq<Item>)
    requires i <= |es| && forall j :: 0 <= j < |es| ==> Encodable(es[j])
    ensures |items| == |es| - i
    decreases es, |es| - i
  {
    if i == |es| then [] else [ItemOf(es[i])] + ElemItems(es, i + 1)
  }

  ghost function TableItems(t: Table, i: nat): seq<Item>
    requires i <= |t| && forall j :: 0 <= j < |t| ==> EncodableChain(t[j])
    decreases t, |t| - i
  {
    if i == |t| then [] else ChainItems(t[i]) + TableItems(t, i + 1)
  }

  ghost function ChainItems(c: Chain): seq<Item>
    requires EncodableChain(c)
    decreases c
  {
    if c.End? then [] else [Uint(Shortest(c.key), c.key), ItemOf(c.value)] + ChainItems(c.next)
  }

  /** The bytes the encoder writes. */
  ghost function Encode(v: Value): (bs: seq<byte>)
    requires Encodable(v)
    ensures 1 <= |bs|
    decreases v
  {
    match v
    case Str(bs) => Head(3, Shortest(|bs|), |bs|) + bs
    case Real(bits) => Head(7, Eight, bits)
    case Int(_, n) => if n >= 0 then Head(0, Shortest(n), n) else Head(1, Shortest(-1 - n), -1 - n)
    case Bool(b) => Head(7, Direct, if b then 21 else 20)
    case Null => Head(7, Direct, 22)
    case Array(es) => [LIST_START] + EncodeElems(es, 0) + [BREAK]
    case Map(t) => [MAP_START] + EncodeTable(t, 0) + [BREAK]
  }

  ghost function EncodeElems(es: seq<Value>, i: nat): seq<byte>
    requires i <= |es| && forall j :: 0 <= j < |es| ==> Encodable(es[j])
    decreases es, |es| - i
  {
    if i == |es| then [] else Encode(es[i]) + EncodeElems(es, i + 1)
  }

  ghost function EncodeTable(t: Table, i: nat): seq<byte>
    requires i <= |t| && forall j :: 0 <= j < |t| ==> EncodableChain(t[j])
    decreases t, |t| - i
  {
    if i == |t| then [] else EncodeChain(t[i]) + EncodeTable(t, i + 1)
  }

  ghost function EncodeChain(c: Chain): seq<byte>
    requires EncodableChain(c)
    decreases c
  {
    if c.End? then [] else Head(0, Shortest(c.key), c.key) + Encode(c.value) + EncodeChain(c.next)
  }

  /** The predicted number of bytes: one header per item, plus string bytes, plus a break per container. */
  ghost function Size(v: Value): nat
    requires Encodable(v)
    decreases v
  {
    match v
    case Str(bs) => HeaderLen(|bs|) + |bs|
    case Real(_) => 9
    case Int(_, n) => HeaderLen(if n >= 0 then n else -1 - n)
    case Bool(_) => 1
    case Null => 1
    case Array(es) => 2 + SizeElems(es, 0)
    case Map(t) => 2 + SizeTable(t, 0)
  }

  ghost function SizeElems(es: seq<Value>, i: nat): nat
    requires i <= |es| && forall j :: 0 <= j < |es| ==> Encodable(es[j])
    decreases es, |es| - i
  {
    if i == |es| then 0 else Size(es[i]) + SizeElems(es, i + 1)
  }

  ghost function SizeTable(t: Table, i: nat): nat
    requires i <= |t| && forall j :: 0 <= j < |t| ==> EncodableChain(t[j])
    decreases t, |t| - i
  {
    if i == |t| then 0 else SizeChain(t[i]) + SizeTable(t, i + 1)
  }

  ghost function SizeChain(c: Chain): nat
    requires EncodableChain(c)
    decreases c
  {
    if c.End? then 0 else HeaderLen(c.key) + Size(c.value) + SizeChain(c.next)
  }

  /** The encoder's output is a well-formed item, of exactly the predicted length. */
  lemma {:induction false} EncodeIsWire(v: Value)
    requires Encodable(v)
    ensures WellFormed(ItemOf(v)) && Wire(ItemOf(v)) == Encode(v) && |Encode(v)| == Size(v)
    decreases v
  {
    match v
    case Array(es) => ElemsAreWire(es, 0);
    case Map(t) => TableIsWire(t, 0);
    case _ =>
  }

  /**
   The form of each kind of value on the wire (sections 3.1 to 3.3 of RFC 8949): a text string is a head of major
   type 3 and its bytes, integers have major type 0 or 1 by sign, reals are 64-bit floats, containers are of
   indefinite length and end with a break.
   */
  ghost predicate HasForm(v: Value, bs: seq<byte>) {
    && bs != []
    && match v
       case Str(s) =>
         bs[0] / 32 == 3 && |bs| == HeaderLen(|s|) + |s| && bs[HeaderLen(|s|)..] == s
         && Argument(bs[..HeaderLen(|s|)]) == |s|
       case Int(_, n) =>
         bs[0] / 32 == (if n >= 0 then 0 else 1) && Argument(bs) == if n >= 0 then n else -1 - n
       case Real(bits) => |bs| == 9 && bs[0] == 0xFB && FromBigEndian(bs[1..]) == bits
       case Bool(b) => bs == [if b then 0xF5 else 0xF4]
       case Null => bs == [0xF6]
       case Array(_) => |bs| >= 2 && bs[0] == 0x9F && bs[|bs| - 1] == 0xFF
       case Map(_) => |bs| >= 2 && bs[0] == 0xBF && bs[|bs| - 1] == 0xFF
  }

  /** The argument of a head: in the initial byte itself, or in the bytes after it. */
  function Argument(head: seq<byte>): nat
    requires head != []
  {
    if |head| == 1 then head[0] % 32 else FromBigEndian(head[1..])
  }

  lemma HeadArgument(major: nat, n: nat)
    requires major < 8 && n < TWO_64
    ensures var h := Head(major, Shortest(n), n);
      h[0] / 32 == major && |h| == HeaderLen(n) && Argument(h) == n
  {
    var w := Shortest(n);
    var h := Head(major, w, n);
    InitialByte(major, w, n);
    assert h[1..] == BigEndian(n, w.Len());
    if !w.Direct? {
      ExpressedInBytes(w, n);
      BigEndianRoundTrip(n, w.Len());
    }
  }

  lemma EncodeHasForm(v: Value)
    requires Encodable(v)
    ensures HasForm(v, Encode(v))
  {
    hide BigEndian, FromBigEndian, Pow256;
    match v
    case Str(s) =>
      HeadArgument(3, |s|);
      assert Encode(v)[..HeaderLen(|s|)] == Head(3, Shortest(|s|), |s|);
    case Int(_, n) => HeadArgument(if n >= 0 then 0 else 1, if n >= 0 then n else -1 - n);
    case Real(bits) =>
      Powers();
      BigEndianRoundTrip(bits, 8);
      assert Encode(v)[1..] == BigEndian(bits, 8);
    case Bool(b) => HeadArgument(7, if b then 21 else 20);
    case Null => HeadArgument(7, 22);
    case _ =>
  }

  lemma {:induction false} ElemsAreWire(es: seq<Value>, i: nat)
    requires i <= |es| && forall j :: 0 <= j < |es| ==> Encodable(es[j])
    ensures AllWellFormed(ElemItems(es, i)) && WireFrom(ElemItems(es, i), 0) == EncodeElems(es, i)
    ensures |EncodeElems(es, i)| == SizeElems(es, i)
    decreases es, |es| - i
  {
    hide Wire, WellFormed, Encode, Encodable, ItemOf, Size;
    if i < |es| {
      EncodeIsWire(es[i]);
      ElemsAreWire(es, i + 1);
      WireFromCons(ItemOf(es[i]), ElemItems(es, i + 1), 0);
    }
  }

  lemma {:induction false} WireFromConcat(a: seq<Item>, b: seq<Item>, i: nat)
    requires AllWellFormed(a) && AllWellFormed(b) && i <= |a|
    ensures AllWellFormed(a + b) && WireFrom(a + b, i) == WireFrom(a, i) + WireFrom(b, 0)
    decreases |a| - i
  {
    if i < |a| {
      WireFromConcat(a, b, i + 1);
    } else {
      WireFromSuffix(a, b, 0);
    }
  }

  lemma {:induction false} WireFromSuffix(a: seq<Item>, b: seq<Item>, i: nat)
    requires AllWellFormed(a) && AllWellFormed(b) && i <= |b|
    ensures AllWellFormed(a + b) && WireFrom(a + b, |a| + i) == WireFrom(b, i)
    decreases |b| - i
  {
    assert forall j :: 0 <= j < |a + b| ==> (a + b)[j] == if j < |a| then a[j] else b[j - |a|];
    if i < |b| {
      WireFromSuffix(a, b, i + 1);
      assert WireFrom(a + b, |a| + i) == Wire((a + b)[|a| + i]) + WireFrom(a + b, |a| + i + 1);
    }
  }

  lemma WireFromPair(key: Item, item: Item, rest: seq<Item>)
    requires WellFormed(key) && WellFormed(item) && AllWellFormed(rest)
    ensures AllWellFormed([key, item] + rest)
    ensures WireFrom([key, item] + rest, 0) == Wire(key) + Wire(item) + WireFrom(rest, 0)
  {
    hide Wire, WellFormed;
    WireFromCons(item, rest, 0);
    WireFromCons(key, [item] + rest, 0);
    assert [key, item] + rest == [key] + ([item] + rest);
    assert WireFrom([item] + rest, 0) == Wire(item) + WireFrom(rest, 0);
    assert WireFrom([key] + ([item] + rest), 0) == Wire(key) + WireFrom([item] + rest, 0);
  }

  lemma {:induction false} ChainIsWire(c: Chain)
    requires EncodableChain(c)
    ensures AllWellFormed(ChainItems(c)) && WireFrom(ChainItems(c), 0) == EncodeChain(c)
    ensures |EncodeChain(c)| == SizeChain(c)
    decreases c
  {
    if c.Object? {
      EncodeIsWire(c.value);
      ChainIsWire(c.next);
      var key := Uint(Shortest(c.key), c.key);
      assert Wire(key) == Head(0, Shortest(c.key), c.key);
      WireFromPair(key, ItemOf(c.value), ChainItems(c.next));
    }
  }

  lemma {:induction false} TableIsWire(t: Table, i: nat)
    requires i <= |t| && forall j :: 0 <= j < |t| ==> EncodableChain(t[j])
    ensures AllWellFormed(TableItems(t, i)) && WireFrom(TableItems(t, i), 0) == EncodeTable(t, i)
    ensures |EncodeTable(t, i)| == SizeTable(t, i)
    decreases t, |t| - i
  {
    if i < |t| {
      ChainIsWire(t[i]);
      TableIsWire(t, i + 1);
      WireFromConcat(ChainItems(t[i]), TableItems(t, i + 1), 0);
    }
  }

  // ---------------------------------------------------------------- the order on the wire

  lemma {:induction false} EmptyBuckets(t: Table, i: nat)
    requires i <= |t| && forall j :: i <= j < |t| ==> t[j] == End
    requires forall j :: 0 <= j < |t| ==> EncodableChain(t[j])
    ensures EncodeTable(t, i) == []
    decreases |t| - i
  {
    if i < |t| {
      EmptyBuckets(t, i + 1);
    }
  }

  /** Keys 2, 3 and 1, inserted in this order and bound to true: bucket 0 holds 1, and bucket 1 holds 3 before 2. */
  ghost function ThreeKeys(): Table {
    NoObjects()[0 := Object(1, Bool(true), End)][1 := Object(3, Bool(true), Object(2, Bool(true), End))]
  }

  lemma ThreeKeysInserted()
    ensures WellPlaced(ThreeKeys())
    ensures Put(Put(Put(NoObjects(), 2, Bool(true)).0, 3, Bool(true)).0, 1, Bool(true)).0 == ThreeKeys()
  {
    var yes := Bool(true);
    EmptyTable();
    assert HashKey(1) == 0 && HashKey(2) == 1 && HashKey(3) == 1;
    PutBinds(NoObjects(), 2, yes);
    var t2 := Put(NoObjects(), 2, yes).0;
    assert t2 == NoObjects()[1 := Object(2, yes, End)];
    PutBinds(t2, 3, yes);
    var t3 := Put(t2, 3, yes).0;
    assert t3 == NoObjects()[1 := Object(3, yes, Object(2, yes, End))];
    PutBinds(t3, 1, yes);
    assert Put(t3, 1, yes).0 == ThreeKeys();
  }

  /** They are written bucket by bucket, the newest of a bucket first. */
  lemma ThreeKeysOnTheWire()
    ensures var v := Value.Map(ThreeKeys());
      Encodable(v) && Encode(v) == [0xBF, 0x01, 0xF5, 0x03, 0xF5, 0x02, 0xF5, 0xFF]
  {
    hide HashKey, WellPlaced, EncodeChain, EncodableChain, ThreeKeys, EncodeTable;
    ThreeKeysInserted();
    var t := ThreeKeys();
    ThreeKeysParts();
    EntryIsWritten(2, End);
    EntryIsWritten(3, Object(2, Bool(true), End));
    EntryIsWritten(1, End);
    EmptyBuckets(t, 2);
    BucketIsWritten(t, 1);
    BucketIsWritten(t, 0);
    assert EncodeTable(t, 0) == [0x01, 0xF5] + ([0x03, 0xF5] + ([0x02, 0xF5] + []) + []);
  }

  lemma BucketIsWritten(t: Table, i: nat)
    requires i < |t| && forall j :: 0 <= j < |t| ==> EncodableChain(t[j])
    ensures EncodeTable(t, i) == EncodeChain(t[i]) + EncodeTable(t, i + 1)
  {
    hide EncodeChain, EncodableChain;
  }

  lemma ThreeKeysParts()
    ensures var t := ThreeKeys();
      && |t| == 100 && t[0] == Object(1, Bool(true), End)
      && t[1] == Object(3, Bool(true), Object(2, Bool(true), End))
      && forall j :: 2 <= j < |t| ==> t[j] == End
  {
  }

  lemma EntryIsWritten(key: byte, next: Chain)
    requires key < 24 && EncodableChain(next)
    ensures EncodableChain(End) && EncodeChain(End) == []
    ensures var c := Object(key, Bool(true), next);
      EncodableChain(c) && EncodeChain(c) == [key, 0xF5] + EncodeChain(next)
  {
    assert BigEndian(key, 0) == [] && BigEndian(21, 0) == [];
    assert Encode(Bool(true)) == [0xF5];
  }
}
