/**
 `coreconfToCBOR`: the recursive printer over the encoder, specified for every buffer size.
 A map's entries are written by a callback that drops write errors, so in a buffer that is
 too small a map can be reported as written with entries missing.
 */
module Printer {
  import opened Heads
  import opened Values
  import opened Codec
  import opened Encoders

  // ---------------------------------------------------------------- what is written into `room` bytes

  /** The bytes written and the result returned, when `room` bytes are left. */
  ghost function Attempt(v: Value, room: nat): (r: (seq<byte>, bool))
    requires Encodable(v)
    ensures |r.0| <= room
    decreases v, 0
  {
    match v
    case Array(es) =>
      if room == 0 then ([], false)
      else
        var body := AttemptElems(es, 0, room - 1);
        if body.1 && |body.0| + 1 < room then ([LIST_START] + body.0 + [BREAK], true)
        else ([LIST_START] + body.0, false)
    case Map(t) =>
      if room == 0 then ([], false)
      else
        var body := AttemptTable(t, 0, room - 1);
        if |body| + 1 < room then ([MAP_START] + body + [BREAK], true) else ([MAP_START] + body, false)
    case _ => if |Encode(v)| <= room then (Encode(v), true) else ([], false)
  }

  ghost function AttemptElems(es: seq<Value>, i: nat, room: nat): (r: (seq<byte>, bool))
    requires i <= |es| && forall j :: 0 <= j < |es| ==> Encodable(es[j])
    ensures |r.0| <= room
    decreases es, |es| - i
  {
    if i == |es| then ([], true)
    else
      var first := Attempt(es[i], room);
      if !first.1 then first
      else
        var rest := AttemptElems(es, i + 1, room - |first.0|);
        (first.0 + rest.0, rest.1)
  }

  ghost function AttemptTable(t: Table, i: nat, room: nat): (bs: seq<byte>)
    requires i <= |t| && forall j :: 0 <= j < |t| ==> EncodableChain(t[j])
    ensures |bs| <= room
    decreases t, |t| - i
  {
    if i == |t| then []
    else
      var chain := AttemptChain(t[i], room);
      chain + AttemptTable(t, i + 1, room - |chain|)
  }

  /** The result of each key and of each value is ignored. */
  ghost function AttemptChain(c: Chain, room: nat): (bs: seq<byte>)
    requires EncodableChain(c)
    ensures |bs| <= room
    decreases c
  {
    if c.End? then []
    else
      var entry := AttemptEntry(c.key, c.value, room);
      entry + AttemptChain(c.next, room - |entry|)
  }

  ghost function AttemptEntry(key: nat, value: Value, room: nat): (bs: seq<byte>)
    requires key < TWO_64 && Encodable(value)
    ensures |bs| <= room
    decreases value, 1
  {
    var k := if HeaderLen(key) <= room then Head(0, Shortest(key), key) else [];
    k + Attempt(value, room - |k|).0
  }

  // ---------------------------------------------------------------- with room, and without

  /** With room for the whole encoding, exactly the encoding is written. */
  lemma {:induction false} RoomIsEnough(v: Value, room: nat)
    requires Encodable(v) && |Encode(v)| <= room
    ensures Attempt(v, room) == (Encode(v), true)
    decreases v
  {
    match v
    case Array(es) => ElemsHaveRoom(es, 0, room - 1);
    case Map(t) => TableHasRoom(t, 0, room - 1);
    case _ =>
  }

  lemma {:induction false} ElemsHaveRoom(es: seq<Value>, i: nat, room: nat)
    requires i <= |es| && (forall j :: 0 <= j < |es| ==> Encodable(es[j])) && |EncodeElems(es, i)| <= room
    ensures AttemptElems(es, i, room) == (EncodeElems(es, i), true)
    decreases es, |es| - i
  {
    if i < |es| {
      RoomIsEnough(es[i], room);
      ElemsHaveRoom(es, i + 1, room - |Encode(es[i])|);
    }
  }

  lemma {:induction false} TableHasRoom(t: Table, i: nat, room: nat)
    requires i <= |t| && (forall j :: 0 <= j < |t| ==> EncodableChain(t[j])) && |EncodeTable(t, i)| <= room
    ensures AttemptTable(t, i, room) == EncodeTable(t, i)
    decreases t, |t| - i
  {
    hide Encode, Attempt, AttemptChain, EncodeChain;
    if i < |t| {
      ChainHasRoom(t[i], room);
      TableHasRoom(t, i + 1, room - |EncodeChain(t[i])|);
    }
  }

  lemma {:induction false} ChainHasRoom(c: Chain, room: nat)
    requires EncodableChain(c) && |EncodeChain(c)| <= room
    ensures AttemptChain(c, room) == EncodeChain(c)
    decreases c
  {
    hide Encode, Attempt, Head;
    if c.Object? {
      var key := Head(0, Shortest(c.key), c.key);
      ShortestIsShortest(0, c.key, Shortest(c.key));
      assert EncodeChain(c) == key + Encode(c.value) + EncodeChain(c.next);
      RoomIsEnough(c.value, room - |key|);
      assert AttemptEntry(c.key, c.value, room) == key + Encode(c.value);
      ChainHasRoom(c.next, room - |key| - |Encode(c.value)|);
    }
  }

  /** The whole encoding is written exactly when it fits, whatever result is returned. */
  lemma WrittenIffRoom(v: Value, room: nat)
    requires Encodable(v)
    ensures Attempt(v, room).0 == Encode(v) <==> |Encode(v)| <= room
  {
    if |Encode(v)| <= room {
      RoomIsEnough(v, room);
    }
  }

  /** A value without maps, whose result can be relied on. */
  ghost predicate Firm(v: Value)
    decreases v
  {
    !v.Map? && (v.Array? ==> forall i :: 0 <= i < |v.elems| ==> Firm(v.elems[i]))
  }

  ghost predicate FirmChain(c: Chain) {
    c.Object? ==> Firm(c.value) && FirmChain(c.next)
  }

  ghost predicate FirmTable(t: Table) {
    forall i :: 0 <= i < |t| ==> FirmChain(t[i])
  }

  /** For a value without maps a true result means that all of it was written, so it means that there was room. */
  lemma {:induction false} FirmIsWhole(v: Value, room: nat)
    requires Encodable(v) && Firm(v) && Attempt(v, room).1
    ensures Attempt(v, room).0 == Encode(v)
    decreases v
  {
    if v.Array? {
      FirmElemsAreWhole(v.elems, 0, room - 1);
    }
  }

  lemma {:induction false} FirmElemsAreWhole(es: seq<Value>, i: nat, room: nat)
    requires i <= |es| && forall j :: 0 <= j < |es| ==> Encodable(es[j]) && Firm(es[j])
    requires AttemptElems(es, i, room).1
    ensures AttemptElems(es, i, room).0 == EncodeElems(es, i)
    decreases es, |es| - i
  {
    hide Attempt, Encode, Encodable, Firm;
    if i < |es| {
      FirmIsWhole(es[i], room);
      FirmElemsAreWhole(es, i + 1, room - |Attempt(es[i], room).0|);
    }
  }

  /** One object, in the bucket of its key. */
  ghost function Singleton(key: nat, value: Value): Table {
    NoObjects()[HashKey(key) := Object(key, value, End)]
  }

  lemma {:induction false} EmptyBucketsWriteNothing(t: Table, i: nat, room: nat)
    requires i <= |t| && forall j :: i <= j < |t| ==> t[j].End?
    requires forall j :: 0 <= j < |t| ==> EncodableChain(t[j])
    ensures AttemptTable(t, i, room) == []
    decreases |t| - i
  {
    if i < |t| {
      EmptyBucketsWriteNothing(t, i + 1, room);
    }
  }

  lemma {:induction false} SingletonWrites(key: nat, value: Value, i: nat, room: nat)
    requires key < TWO_64 && Encodable(value) && i <= HashKey(key)
    ensures forall j :: 0 <= j < |Singleton(key, value)| ==> EncodableChain(Singleton(key, value)[j])
    ensures AttemptTable(Singleton(key, value), i, room) == AttemptEntry(key, value, room)
    decreases HashKey(key) - i
  {
    hide Attempt, Encode;
    var t := Singleton(key, value);
    assert forall j :: 0 <= j < |t| && j != HashKey(key) ==> t[j] == End;
    if i < HashKey(key) {
      SingletonWrites(key, value, i + 1, room);
    } else {
      EmptyBucketsWriteNothing(t, i + 1, room - |AttemptEntry(key, value, room)|);
      assert AttemptChain(t[i], room) == AttemptEntry(key, value, room);
    }
  }

  lemma SingletonIsPlaced(key: nat, value: Value)
    ensures WellPlaced(Singleton(key, value))
  {
    var t := Singleton(key, value);
    assert Keys(t[HashKey(key)]) == {key};
    forall i: nat | i < |t|
      ensures InBucket(t[i], i)
    {
    }
  }

  /**
   A true result does not mean the value was written: whenever a scalar does not fit after its key
   but the break does, the map is reported as written with the value missing.
   */
  lemma TrueWithoutTheValue(key: nat, value: Value, room: nat)
    requires key < TWO_64 && Encodable(value) && !value.Array? && !value.Map?
    requires HeaderLen(key) + 2 <= room && room - 1 - HeaderLen(key) < |Encode(value)|
    ensures var v := Value.Map(Singleton(key, value));
      && Encodable(v) && |Encode(v)| > room
      && Attempt(v, room) == ([MAP_START] + Head(0, Shortest(key), key) + [BREAK], true)
  {
    hide Encode, HashKey;
    SingletonIsPlaced(key, value);
    SingletonWrites(key, value, 0, room - 1);
    ShortestIsShortest(0, key, Shortest(key));
    var v := Value.Map(Singleton(key, value));
    assert AttemptEntry(key, value, room - 1) == Head(0, Shortest(key), key);
    if |Encode(v)| <= room {
      RoomIsEnough(v, room);
      SingletonWrites(key, value, 0, |Encode(v)| + |Encode(value)| + room);
      RoomIsEnough(v, |Encode(v)| + |Encode(value)| + room + 1);
      assert false;
    }
  }

  /** A value that does not fit leaves its key behind, and the walk goes on with the next object. */
  lemma WalkGoesOn(key: nat, value: Value, next: Chain, room: nat)
    requires key < TWO_64 && Encodable(value) && EncodableChain(next) && !value.Array? && !value.Map?
    requires HeaderLen(key) <= room && room - HeaderLen(key) < |Encode(value)|
    ensures AttemptChain(Object(key, value, next), room)
      == Head(0, Shortest(key), key) + AttemptChain(next, room - HeaderLen(key))
  {
    hide Encode, Head, Attempt;
    ShortestIsShortest(0, key, Shortest(key));
    ScalarAttempt(value, room - HeaderLen(key));
    assert Head(0, Shortest(key), key) + [] == Head(0, Shortest(key), key);
  }

  lemma ScalarAttempt(v: Value, room: nat)
    requires Encodable(v) && !v.Array? && !v.Map?
    ensures Attempt(v, room) == if |Encode(v)| <= room then (Encode(v), true) else ([], false)
  {
    hide Encode;
  }

  /** Keys 3 and 2 of one bucket and room for 6 bytes: the real under key 3 is dropped, all the rest is written. */
  lemma DropsTheReal()
    ensures var v := Value.Map(NoObjects()[1 := Object(3, Real(0), Object(2, Bool(true), End))]);
      Encodable(v) && Attempt(v, 6) == ([0xBF, 0x03, 0x02, 0xF5, 0xFF], true)
  {
    hide WellPlaced, HashKey, AttemptChain, EncodeChain, Encode, Head, EncodableChain;
    TwoKeysEncodable();
    var next := Object(2, Bool(true), End);
    var c := Object(3, Real(0), next);
    var t := NoObjects()[1 := c];
    TwoKeysPlaced();
    EntryIsWritten(2, End);
    ChainHasRoom(next, 4);
    EncodeIsWire(Real(0));
    WalkGoesOn(3, Real(0), next, 5);
    HeadOfThree();
    EmptyBucketsWriteNothing(t, 2, 2);
    assert AttemptChain(t[1], 5) == [0x03, 0x02, 0xF5];
    assert AttemptTable(t, 1, 5) == AttemptChain(t[1], 5) + AttemptTable(t, 2, 2);
    NoObjectsLeft(5);
    assert AttemptTable(t, 0, 5) == AttemptChain(t[0], 5) + AttemptTable(t, 1, 5) == [0x03, 0x02, 0xF5];
    assert [MAP_START] + [0x03, 0x02, 0xF5] + [BREAK] == [0xBF, 0x03, 0x02, 0xF5, 0xFF];
  }

  lemma HeadOfThree()
    ensures Head(0, Shortest(3), 3) == [0x03] && HeaderLen(3) == 1
  {
    Bytes(3, 0);
  }

  lemma TwoKeysEncodable()
    ensures var next := Object(2, Bool(true), End);
      && EncodableChain(End) && EncodableChain(next) && EncodableChain(Object(3, Real(0), next))
      && |Encode(Real(0))| == 9
  {
    EncodeIsWire(Real(0));
  }

  lemma TwoKeysPlaced()
    ensures WellPlaced(NoObjects()[1 := Object(3, Real(0), Object(2, Bool(true), End))])
  {
    assert HashKey(2) == 1 && HashKey(3) == 1;
    assert InBucket(Object(3, Real(0), Object(2, Bool(true), End)), 1);
  }

  /** An array stops at the first scalar that does not fit, and goes on after one that does. */
  lemma ElementsStop(es: seq<Value>, i: nat, room: nat)
    requires i < |es| && (forall j :: 0 <= j < |es| ==> Encodable(es[j])) && !es[i].Array? && !es[i].Map?
    ensures |Encode(es[i])| > room ==> AttemptElems(es, i, room) == ([], false)
    ensures |Encode(es[i])| <= room ==>
      var rest := AttemptElems(es, i + 1, room - |Encode(es[i])|);
      AttemptElems(es, i, room) == (Encode(es[i]) + rest.0, rest.1)
  {
    hide Encode, Encodable, Attempt;
    ScalarAttempt(es[i], room);
  }

  /** False, a real and null, with room for 5 bytes: the array ends after false, without its break, and says so. */
  lemma StopsAtTheReal()
    ensures Encodable(Array([Bool(false), Real(0), Null]))
    ensures Attempt(Array([Bool(false), Real(0), Null]), 5) == ([0x9F, 0xF4], false)
  {
    hide AttemptElems, Encode, BigEndian;
    var es := [Bool(false), Real(0), Null];
    ScalarsEncoded();
    ElementsStop(es, 0, 4);
    ElementsStop(es, 1, 3);
    assert [0xF4] + [] == [0xF4];
    assert [LIST_START] + [0xF4] == [0x9F, 0xF4];
    assert Attempt(Array(es), 5) == ([LIST_START] + [0xF4], false);
  }

  lemma ScalarsEncoded()
    ensures Encode(Bool(false)) == [0xF4] && |Encode(Real(0))| == 9
  {
    EncodeIsWire(Real(0));
    EncodeHasForm(Bool(false));
  }

  // ---------------------------------------------------------------- the printer

  ghost function Left(e: Encoder): nat
    requires e.Valid()
    reads e
  {
    e.buf.Length - e.payload
  }

  method CoreconfToCbor(e: Encoder, v: Value) returns (ok: bool)
    requires e.Valid() && Encodable(v)
    modifies e, e.buf
    ensures e.Valid() && ok == Attempt(v, old(Left(e))).1
    ensures e.Written() == old(e.Written()) + Attempt(v, old(Left(e))).0
    ensures Size(v) <= old(Left(e)) ==> ok && HasForm(v, e.Written()[|old(e.Written())|..])
    decreases v, 0
  {
    hide HasForm, Size;
    if Size(v) <= Left(e) {
      EncodeIsWire(v);
      EncodeHasForm(v);
      RoomIsEnough(v, Left(e));
    }
    match v
    case Map(t) => ok := MapToCbor(e, t);
    case Array(es) => ok := ArrayToCbor(e, es);
    case _ => ok := ScalarToCbor(e, v);
  }

  /** Eight-, 16- and 32-bit integers go through a 32-bit put. */
  method ScalarToCbor(e: Encoder, v: Value) returns (ok: bool)
    requires e.Valid() && Encodable(v) && !v.Array? && !v.Map?
    modifies e, e.buf
    ensures e.Valid() && ok == (|Encode(v)| <= old(Left(e)))
    ensures e.Written() == old(e.Written()) + if ok then Encode(v) else []
  {
    hide BigEndian, Pow256, ItemOf;
    EncodeIsWire(v);
    match v
    case Real(bits) => ok := e.Float64Put(bits);
    case Int(t, n) =>
      Powers();
      match t {
      case I8 => ok := e.IntPut(n, 4);
      case I16 => ok := e.IntPut(n, 4);
      case I32 => ok := e.IntPut(n, 4);
      case I64 => ok := e.IntPut(n, 8);
      case U8 => ok := e.UintPut(n, 4);
      case U16 => ok := e.UintPut(n, 4);
      case U32 => ok := e.UintPut(n, 4);
      case U64 => ok := e.UintPut(n, 8);
      }
    case Str(bs) => ok := e.StrEncode(3, bs);
    case Bool(b) => ok := e.SimplePut(if b then 21 else 20);
    case Null => ok := e.SimplePut(22);
  }

  method ArrayToCbor(e: Encoder, es: seq<Value>) returns (ok: bool)
    requires e.Valid() && Encodable(Array(es))
    modifies e, e.buf
    ensures e.Valid() && ok == Attempt(Array(es), old(Left(e))).1
    ensures e.Written() == old(e.Written()) + Attempt(Array(es), old(Left(e))).0
    decreases es, 1
  {
    ghost var before, room := e.Written(), Left(e);
    ok := e.HeaderByte(4, 31);
    if !ok {
      return;
    }
    ok := ElemsToCbor(e, es);
    ghost var body := AttemptElems(es, 0, room - 1);
    assert e.Written() == before + ([LIST_START] + body.0);
    if !ok {
      return;
    }
    ok := e.HeaderByte(7, 31);
    assert ok ==> e.Written() == before + ([LIST_START] + body.0 + [BREAK]);
  }

  method ElemsToCbor(e: Encoder, es: seq<Value>) returns (ok: bool)
    requires e.Valid() && forall j :: 0 <= j < |es| ==> Encodable(es[j])
    modifies e, e.buf
    ensures e.Valid() && ok == AttemptElems(es, 0, old(Left(e))).1
    ensures e.Written() == old(e.Written()) + AttemptElems(es, 0, old(Left(e))).0
    decreases es, 0
  {
    hide Attempt, Encode;
    ghost var start, body := e.Written(), AttemptElems(es, 0, Left(e));
    var i: nat := 0;
    while i < |es|
      invariant i <= |es| && e.Valid()
      invariant e.Written() + AttemptElems(es, i, Left(e)).0 == start + body.0
      invariant AttemptElems(es, i, Left(e)).1 == body.1
    {
      ghost var before, room := e.Written(), Left(e);
      ok := CoreconfToCbor(e, es[i]);
      if !ok {
        return;
      }
      assert e.Written() + AttemptElems(es, i + 1, Left(e)).0 == before + AttemptElems(es, i, room).0;
      i := i + 1;
    }
    ok := true;
  }

  method MapToCbor(e: Encoder, t: Table) returns (ok: bool)
    requires e.Valid() && Encodable(Value.Map(t))
    modifies e, e.buf
    ensures e.Valid() && ok == Attempt(Value.Map(t), old(Left(e))).1
    ensures e.Written() == old(e.Written()) + Attempt(Value.Map(t), old(Left(e))).0
    decreases t, 1
  {
    hide Encode, AttemptTable, WellPlaced;
    ghost var before, room := e.Written(), Left(e);
    ok := e.HeaderByte(5, 31);
    if !ok {
      return;
    }
    TableToCbor(e, t);
    ghost var body := AttemptTable(t, 0, room - 1);
    assert e.Written() == before + ([MAP_START] + body);
    ok := e.HeaderByte(7, 31);
    assert ok ==> e.Written() == before + ([MAP_START] + body + [BREAK]);
  }

  /** Walks the buckets in table order. */
  method TableToCbor(e: Encoder, t: Table)
    requires e.Valid() && forall j :: 0 <= j < |t| ==> EncodableChain(t[j])
    modifies e, e.buf
    ensures e.Valid() && e.Written() == old(e.Written()) + AttemptTable(t, 0, old(Left(e)))
    decreases t, 0
  {
    hide Attempt, Encode, AttemptChain;
    ghost var start, body := e.Written(), AttemptTable(t, 0, Left(e));
    var i: nat := 0;
    while i < |t|
      invariant i <= |t| && e.Valid()
      invariant e.Written() + AttemptTable(t, i, Left(e)) == start + body
    {
      ghost var before, room := e.Written(), Left(e);
      ChainToCbor(e, t[i]);
      assert e.Written() + AttemptTable(t, i + 1, Left(e)) == before + AttemptTable(t, i, room);
      i := i + 1;
    }
  }

  /** Walks one bucket, writing each object's key and value and dropping both results. */
  method ChainToCbor(e: Encoder, c: Chain)
    requires e.Valid() && EncodableChain(c)
    modifies e, e.buf
    ensures e.Valid() && e.Written() == old(e.Written()) + AttemptChain(c, old(Left(e)))
    decreases c
  {
    hide AttemptChain, AttemptEntry, Encodable;
    ghost var start, body := e.Written(), AttemptChain(c, Left(e));
    var current := c;
    while current.Object?
      invariant e.Valid() && EncodableChain(current) && (c nonincreases to current)
      invariant e.Written() + AttemptChain(current, Left(e)) == start + body
      decreases current
    {
      ghost var before, room := e.Written(), Left(e);
      ObjectToCbor(e, current.key, current.value);
      ChainStep(current, room, before);
      current := current.next;
    }
    NoObjectsLeft(Left(e));
  }

  lemma ChainStep(c: Chain, room: nat, before: seq<byte>)
    requires c.Object? && EncodableChain(c)
    ensures var entry := AttemptEntry(c.key, c.value, room);
      before + entry + AttemptChain(c.next, room - |entry|) == before + AttemptChain(c, room)
  {
    hide AttemptEntry, Encodable;
  }

  lemma NoObjectsLeft(room: nat)
    ensures AttemptChain(End, room) == []
  {
  }

  method ObjectToCbor(e: Encoder, key: nat, value: Value)
    requires e.Valid() && key < TWO_64 && Encodable(value)
    modifies e, e.buf
    ensures e.Valid() && e.Written() == old(e.Written()) + AttemptEntry(key, value, old(Left(e)))
    decreases value, 1
  {
    hide Attempt, Encode, Head, HasForm, Size, HeaderLen;
    Powers();
    ShortestIsShortest(0, key, Shortest(key));
    ghost var before, room := e.Written(), Left(e);
    var _ := e.UintPut(key, 8);
    ghost var k := if HeaderLen(key) <= room then Head(0, Shortest(key), key) else [];
    assert e.Written() == before + k;
    var _ := CoreconfToCbor(e, value);
    assert e.Written() == before + (k + Attempt(value, room - |k|).0);
  }
}
