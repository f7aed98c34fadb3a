/**
 What src/serialization.c reads back, and the laws between the two directions: a round trip
 keeps every value up to integer width and the order inside hash buckets, and two round trips
 restore the first encoding byte for byte.
 */
module RoundTrip {
  import opened Heads
  import opened Items
  import opened Values
  import opened Codec

  // ---------------------------------------------------------------- the value an item is read as

  /** A C string ends at its first NUL. */
  function CString(bs: seq<byte>): seq<byte> {
    if bs == [] || bs[0] == 0 then [] else [bs[0]] + CString(bs[1..])
  }

  lemma {:induction false} CStringOfNulFree(bs: seq<byte>)
    requires 0 !in bs
    ensures CString(bs) == bs
  {
    if bs != [] {
      CStringOfNulFree(bs[1..]);
    }
  }

  /**
   The items the value decoder reads completely, starting at recursion depth `indent` with
   `backups` state backups left: the depth and loop limits of the code, and its type checks.
   */
  ghost predicate Decodable(it: Item, indent: nat, backups: nat)
    decreases it
  {
    && indent <= 20
    && match it
       case Uint(_, _) => true
       case Nint(_, n) => n < TWO_63
       case Bstr(_, _) => true
       case Tstr(_, _) => true
       case Simple(w, n) => w.Eight? || (w.Direct? && 20 <= n <= 22)
       case List(_, items) =>
         1 <= backups && forall i :: 0 <= i < |items| ==> Decodable(items[i], indent + 1, backups - 1)
       case Map(_, items) =>
         && 1 <= backups && |items| % 2 == 0 && |items| / 2 <= 51
         && forall i :: 0 <= i < |items| ==>
           if i % 2 == 0 then items[i].Uint? else Decodable(items[i], indent + 1, backups - 1)
       case Tag(_, _, _) => false
  }

  ghost function Meaning(it: Item): Value
    decreases it
  {
    match it
    case Uint(_, n) => Int(U64, n)
    case Nint(_, n) => Int(I64, -1 - n)
    case Bstr(_, bs) => Str(CString(bs))
    case Tstr(_, bs) => Str(CString(bs))
    case Simple(w, n) => if w.Eight? then Real(n) else if n == 22 then Null else Bool(n == 21)
    case List(_, items) => Array(seq(|items|, i requires 0 <= i < |items| => Meaning(items[i])))
    case Map(_, items) => Value.Map(Load(NoObjects(), items, 0))
    case Tag(_, _, _) => Null
  }

  /** The table after inserting the key-value pairs from index `i` on, in order. */
  ghost function Load(t: Table, items: seq<Item>, i: nat): Table
    requires |t| == HASHMAP_TABLE_SIZE
    ensures |Load(t, items, i)| == HASHMAP_TABLE_SIZE
    decreases items, |items| - i
  {
    if i + 1 >= |items| then t
    else Load(Put(t, if items[i].Uint? then items[i].n else 0, Meaning(items[i + 1])).0, items, i + 2)
  }

  // ---------------------------------------------------------------- one round trip

  /** Integers come back unsigned when non-negative; every chain comes back reversed. */
  ghost function Turned(v: Value): Value
    decreases v
  {
    match v
    case Int(_, n) => Int(if n >= 0 then U64 else I64, n)
    case Array(es) => Array(seq(|es|, i requires 0 <= i < |es| => Turned(es[i])))
    case Map(t) => Value.Map(TurnedTable(t))
    case _ => v
  }

  ghost function TurnedTable(t: Table): (t': Table)
    ensures |t'| == |t|
    decreases t
  {
    seq(|t|, i requires 0 <= i < |t| => TurnedChain(t[i], End))
  }

  /** Pushes the objects of `c`, each with its value turned, one by one in front of `front`. */
  ghost function TurnedChain(c: Chain, front: Chain): (c': Chain)
    ensures Keys(c') == Keys(c) + Keys(front) && Length(c') == Length(c) + Length(front)
    decreases c
  {
    if c.End? then front else TurnedChain(c.next, Object(c.key, Turned(c.value), front))
  }

  /** The depth, backup and 51-entry limits on a value, as the decoder will meet them. */
  ghost predicate Fits(v: Value, indent: nat, backups: nat)
    decreases v
  {
    && indent <= 20
    && match v
       case Array(es) => 1 <= backups && forall i :: 0 <= i < |es| ==> Fits(es[i], indent + 1, backups - 1)
       case Map(t) =>
         && 1 <= backups && Entries(t, 0) <= 51
         && forall i :: 0 <= i < |t| ==> FitsChain(t[i], indent + 1, backups - 1)
       case _ => true
  }

  ghost predicate FitsChain(c: Chain, indent: nat, backups: nat)
    decreases c
  {
    c.Object? ==> Fits(c.value, indent, backups) && FitsChain(c.next, indent, backups)
  }

  ghost function Entries(t: Table, i: nat): nat
    requires i <= |t|
    decreases |t| - i
  {
    if i == |t| then 0 else Length(t[i]) + Entries(t, i + 1)
  }

  lemma {:induction false} EntriesBoundChain(t: Table, i: nat, j: nat)
    requires i <= j < |t|
    ensures Length(t[j]) <= Entries(t, i)
    decreases |t| - i
  {
    if i < j {
      EntriesBoundChain(t, i + 1, j);
    }
  }

  // The items of a value are decodable within the same limits.

  lemma {:induction false} FitsIsDecodable(v: Value, indent: nat, backups: nat)
    requires Encodable(v) && Fits(v, indent, backups)
    ensures Decodable(ItemOf(v), indent, backups)
    decreases v
  {
    match v
    case Array(es) => ElemsDecodable(es, 0, indent + 1, backups - 1);
    case Map(t) => TableDecodable(t, 0, indent + 1, backups - 1);
    case _ =>
  }

  lemma {:induction false} ElemsDecodable(es: seq<Value>, i: nat, indent: nat, backups: nat)
    requires i <= |es| && forall j :: 0 <= j < |es| ==> Encodable(es[j]) && Fits(es[j], indent, backups)
    ensures forall k :: 0 <= k < |ElemItems(es, i)| ==> Decodable(ElemItems(es, i)[k], indent, backups)
    decreases es, |es| - i
  {
    if i < |es| {
      FitsIsDecodable(es[i], indent, backups);
      ElemsDecodable(es, i + 1, indent, backups);
    }
  }

  /** Keys and values alternate, and every value can be read. */
  ghost predicate Pairs(items: seq<Item>, indent: nat, backups: nat) {
    && |items| % 2 == 0
    && forall i :: 0 <= i < |items| ==> if i % 2 == 0 then items[i].Uint? else Decodable(items[i], indent, backups)
  }

  lemma PairsConcat(a: seq<Item>, b: seq<Item>, indent: nat, backups: nat)
    requires Pairs(a, indent, backups) && Pairs(b, indent, backups)
    ensures Pairs(a + b, indent, backups)
  {
    hide Decodable;
    var ab, n := a + b, |a|;
    forall i | 0 <= i < |ab|
      ensures if i % 2 == 0 then ab[i].Uint? else Decodable(ab[i], indent, backups)
    {
      if i >= n {
        SameParity(i, n);
        assert ab[i] == b[i - n];
      } else {
        assert ab[i] == a[i];
      }
    }
    SameParity(|ab|, n);
  }

  lemma SameParity(i: nat, n: nat)
    requires n <= i && n % 2 == 0
    ensures (i - n) % 2 == i % 2
  {
  }

  lemma OnePair(key: Item, value: Item, indent: nat, backups: nat)
    requires key.Uint? && Decodable(value, indent, backups)
    ensures Pairs([key, value], indent, backups)
  {
    hide Decodable;
  }

  lemma NoPairs(indent: nat, backups: nat)
    ensures Pairs([], indent, backups)
  {
  }

  lemma {:induction false} ChainDecodable(c: Chain, indent: nat, backups: nat)
    requires EncodableChain(c) && FitsChain(c, indent, backups)
    ensures Pairs(ChainItems(c), indent, backups) && |ChainItems(c)| == 2 * Length(c)
    decreases c
  {
    hide Decodable, Fits, ItemOf, Encodable, Pairs;
    if c.Object? {
      FitsIsDecodable(c.value, indent, backups);
      ChainDecodable(c.next, indent, backups);
      OnePair(Uint(Shortest(c.key), c.key), ItemOf(c.value), indent, backups);
      PairsConcat([Uint(Shortest(c.key), c.key), ItemOf(c.value)], ChainItems(c.next), indent, backups);
    } else {
      NoPairs(indent, backups);
    }
  }

  lemma {:induction false} TableDecodable(t: Table, i: nat, indent: nat, backups: nat)
    requires i <= |t| && forall j :: 0 <= j < |t| ==> EncodableChain(t[j]) && FitsChain(t[j], indent, backups)
    ensures Pairs(TableItems(t, i), indent, backups) && |TableItems(t, i)| == 2 * Entries(t, i)
    decreases t, |t| - i
  {
    if i < |t| {
      ChainDecodable(t[i], indent, backups);
      TableDecodable(t, i + 1, indent, backups);
      PairsConcat(ChainItems(t[i]), TableItems(t, i + 1), indent, backups);
    }
  }

  // Loading the items of a chain pushes its objects in front, one by one.

  lemma {:induction false} LoadSuffix(t: Table, a: seq<Item>, b: seq<Item>, i: nat)
    requires |t| == HASHMAP_TABLE_SIZE
    ensures Load(t, a + b, |a| + i) == Load(t, b, i)
    decreases |b| - i
  {
    if i + 1 < |b| {
      assert (a + b)[|a| + i] == b[i] && (a + b)[|a| + i + 1] == b[i + 1];
      LoadSuffix(Put(t, if b[i].Uint? then b[i].n else 0, Meaning(b[i + 1])).0, a, b, i + 2);
    }
  }

  lemma {:induction false} LoadConcat(t: Table, a: seq<Item>, b: seq<Item>, i: nat)
    requires |t| == HASHMAP_TABLE_SIZE && |a| % 2 == 0 && i % 2 == 0 && i <= |a|
    ensures Load(t, a + b, i) == Load(Load(t, a, i), b, 0)
    decreases |a| - i
  {
    if i < |a| {
      assert (a + b)[i] == a[i] && (a + b)[i + 1] == a[i + 1];
      LoadConcat(Put(t, if a[i].Uint? then a[i].n else 0, Meaning(a[i + 1])).0, a, b, i + 2);
    } else {
      LoadSuffix(t, a, b, 0);
    }
  }

  lemma PutInFront(t: Table, key: nat, value: Value, front: Chain)
    requires |t| == HASHMAP_TABLE_SIZE && t[HashKey(key)] == front
    requires key !in Keys(front) && Length(front) <= 51
    ensures Put(t, key, value) == (t[HashKey(key) := Object(key, value, front)], true)
  {
    WalkReports(front, key, 0);
  }

  lemma {:induction false} LoadChain(t: Table, c: Chain, b: nat, front: Chain, indent: nat, backups: nat)
    requires |t| == HASHMAP_TABLE_SIZE && b < |t| && t[b] == front
    requires EncodableChain(c) && FitsChain(c, indent, backups) && Distinct(c) && Keys(c) !! Keys(front)
    requires forall k :: k in Keys(c) ==> HashKey(k) == b
    requires Length(c) + Length(front) <= 51
    ensures Load(t, ChainItems(c), 0) == t[b := TurnedChain(c, front)]
    decreases c, 0
  {
    if c.Object? {
      TurnedIsMeaning(c.value, indent, backups);
      var value := Turned(c.value);
      var pushed := Object(c.key, value, front);
      PutInFront(t, c.key, value, front);
      var pair, rest := [Uint(Shortest(c.key), c.key), ItemOf(c.value)], ChainItems(c.next);
      LoadSuffix(t[b := pushed], pair, rest, 0);
      LoadChain(t[b := pushed], c.next, b, pushed, indent, backups);
      assert t[b := pushed][b := TurnedChain(c.next, pushed)] == t[b := TurnedChain(c, front)];
    } else {
      assert t[b := front] == t;
    }
  }

  /** The table with its first `b` buckets turned and the others still empty. */
  ghost function TurnedUpTo(t: Table, b: nat): Table
    requires b <= |t|
  {
    seq(|t|, i requires 0 <= i < |t| => if i < b then TurnedChain(t[i], End) else End)
  }

  lemma {:induction false} LoadTable(t: Table, b: nat, indent: nat, backups: nat)
    requires WellPlaced(t) && b <= |t| && Entries(t, 0) <= 51
    requires forall j :: 0 <= j < |t| ==> EncodableChain(t[j]) && FitsChain(t[j], indent, backups)
    ensures Load(TurnedUpTo(t, b), TableItems(t, b), 0) == TurnedTable(t)
    decreases t, |t| - b
  {
    var t0 := TurnedUpTo(t, b);
    if b == |t| {
      assert t0 == TurnedTable(t);
    } else {
      EntriesBoundChain(t, 0, b);
      assert InBucket(t[b], b);
      LoadChain(t0, t[b], b, End, indent, backups);
      assert t0[b := TurnedChain(t[b], End)] == TurnedUpTo(t, b + 1);
      ChainDecodable(t[b], indent, backups);
      LoadConcat(t0, ChainItems(t[b]), TableItems(t, b + 1), 0);
      LoadTable(t, b + 1, indent, backups);
    }
  }

  /** Decoding what was encoded yields the turned value. */
  lemma {:induction false} TurnedIsMeaning(v: Value, indent: nat, backups: nat)
    requires Encodable(v) && Fits(v, indent, backups)
    ensures Meaning(ItemOf(v)) == Turned(v)
    decreases v, 1
  {
    hide Load, TableItems, TurnedTable, TurnedUpTo, ElemItems, CString, WellPlaced;
    match v
    case Str(bs) => CStringOfNulFree(bs);
    case Array(es) =>
      var items := ElemItems(es, 0);
      forall i: nat | i < |es|
        ensures Meaning(items[i]) == Turned(es[i])
      {
        ElemItemAt(es, 0, i);
        TurnedIsMeaning(es[i], indent + 1, backups - 1);
      }
      ArrayTurned(items, es);
    case Map(t) =>
      PlacedLength(t);
      NothingTurned(t);
      LoadTable(t, 0, indent + 1, backups - 1);
    case _ =>
  }

  lemma ArrayTurned(items: seq<Item>, es: seq<Value>)
    requires |items| == |es| && forall i: nat :: i < |es| ==> Meaning(items[i]) == Turned(es[i])
    ensures Meaning(List(Indefinite, items)) == Turned(Array(es))
  {
    var a, b := Meaning(List(Indefinite, items)).elems, Turned(Array(es)).elems;
    assert forall i: nat :: i < |es| ==> a[i] == Meaning(items[i]) && b[i] == Turned(es[i]);
    assert a == b;
  }

  lemma PlacedLength(t: Table)
    requires WellPlaced(t)
    ensures |t| == HASHMAP_TABLE_SIZE
  {
  }

  lemma NothingTurned(t: Table)
    requires |t| == HASHMAP_TABLE_SIZE
    ensures TurnedUpTo(t, 0) == NoObjects()
  {
  }

  lemma {:induction false} ElemItemAt(es: seq<Value>, i: nat, k: nat)
    requires i <= k < |es| && forall j :: 0 <= j < |es| ==> Encodable(es[j])
    ensures ElemItems(es, i)[k - i] == ItemOf(es[k])
    decreases k - i
  {
    if i < k {
      ElemItemAt(es, i + 1, k);
    }
  }

  // ---------------------------------------------------------------- two round trips

  /** Every integer in its widest type, nothing else changed. */
  ghost function Widened(v: Value): Value
    decreases v
  {
    match v
    case Int(_, n) => Int(if n >= 0 then U64 else I64, n)
    case Array(es) => Array(seq(|es|, i requires 0 <= i < |es| => Widened(es[i])))
    case Map(t) => Value.Map(seq(|t|, i requires 0 <= i < |t| => WidenedChain(t[i], End)))
    case _ => v
  }

  /** The widened objects of `c`, in order, followed by `tail`. */
  ghost function WidenedChain(c: Chain, tail: Chain): Chain
    decreases c
  {
    if c.End? then tail else Object(c.key, Widened(c.value), WidenedChain(c.next, tail))
  }

  /** Turning a value twice restores the order of every chain at every level. */
  lemma {:induction false} TurnedTwice(v: Value)
    ensures Turned(Turned(v)) == Widened(v)
    decreases v, 1
  {
    match v
    case Array(es) =>
      forall i | 0 <= i < |es|
        ensures Turned(Turned(es[i])) == Widened(es[i])
      {
        TurnedTwice(es[i]);
      }
    case Map(t) =>
      forall i | 0 <= i < |t|
        ensures TurnedChain(TurnedChain(t[i], End), End) == WidenedChain(t[i], End)
      {
        ChainTurnedTwice(t[i], End, End);
      }
    case _ =>
  }

  lemma {:induction false} ChainTurnedTwice(c: Chain, front: Chain, tail: Chain)
    ensures TurnedChain(TurnedChain(c, front), tail) == TurnedChain(front, WidenedChain(c, tail))
    decreases c, 0
  {
    if c.Object? {
      TurnedTwice(c.value);
      ChainTurnedTwice(c.next, Object(c.key, Turned(c.value), front), tail);
    }
  }

  /** The encoder does not see integer widths. */
  lemma {:induction false} WidenedEncodesAlike(v: Value)
    requires Encodable(v)
    ensures Encodable(Widened(v)) && Encode(Widened(v)) == Encode(v)
    decreases v, 1
  {
    match v
    case Array(es) =>
      var es' := Widened(v).elems;
      forall i | 0 <= i < |es|
        ensures Encodable(es'[i]) && Encode(es'[i]) == Encode(es[i])
      {
        WidenedEncodesAlike(es[i]);
      }
      ElemsEncodeAlike(es, es', 0);
    case Map(t) =>
      var t' := Widened(v).table;
      forall i: nat | i < |t|
        ensures EncodableChain(t'[i]) && EncodeChain(t'[i]) == EncodeChain(t[i]) && InBucket(t'[i], i)
      {
        assert InBucket(t[i], i);
        WidenedChainEncodesAlike(t[i]);
      }
      TablesEncodeAlike(t, t', 0);
    case _ =>
  }

  lemma {:induction false} WidenedChainEncodesAlike(c: Chain)
    requires EncodableChain(c)
    ensures EncodableChain(WidenedChain(c, End)) && EncodeChain(WidenedChain(c, End)) == EncodeChain(c)
    ensures Keys(WidenedChain(c, End)) == Keys(c) && Length(WidenedChain(c, End)) == Length(c)
    ensures Distinct(c) ==> Distinct(WidenedChain(c, End))
    decreases c, 0
  {
    if c.Object? {
      WidenedEncodesAlike(c.value);
      WidenedChainEncodesAlike(c.next);
    }
  }

  lemma {:induction false} ElemsEncodeAlike(es: seq<Value>, es': seq<Value>, i: nat)
    requires i <= |es| == |es'|
    requires forall j :: 0 <= j < |es| ==> Encodable(es[j]) && Encodable(es'[j]) && Encode(es'[j]) == Encode(es[j])
    ensures EncodeElems(es', i) == EncodeElems(es, i)
    decreases |es| - i
  {
    hide Encode, Encodable;
    if i < |es| {
      ElemsEncodeAlike(es, es', i + 1);
    }
  }

  lemma {:induction false} TablesEncodeAlike(t: Table, t': Table, i: nat)
    requires i <= |t| == |t'|
    requires forall j :: 0 <= j < |t| ==>
      EncodableChain(t[j]) && EncodableChain(t'[j]) && EncodeChain(t'[j]) == EncodeChain(t[j])
    ensures EncodeTable(t', i) == EncodeTable(t, i)
    decreases |t| - i
  {
    hide EncodeChain, EncodableChain;
    if i < |t| {
      TablesEncodeAlike(t, t', i + 1);
    }
  }

  // A turned value can itself be encoded.

  lemma {:induction false} TurnedEncodable(v: Value)
    requires Encodable(v)
    ensures Encodable(Turned(v))
    decreases v, 1
  {
    match v
    case Array(es) =>
      forall i | 0 <= i < |es|
        ensures Encodable(Turned(es[i]))
      {
        TurnedEncodable(es[i]);
      }
    case Map(t) =>
      var t' := TurnedTable(t);
      forall i: nat | i < |t|
        ensures EncodableChain(t'[i]) && InBucket(t'[i], i)
      {
        assert InBucket(t[i], i);
        TurnedChainEncodable(t[i], End);
      }
    case _ =>
  }

  lemma {:induction false} TurnedChainEncodable(c: Chain, front: Chain)
    requires EncodableChain(c) && EncodableChain(front) && Distinct(c) && Distinct(front) && Keys(c) !! Keys(front)
    ensures EncodableChain(TurnedChain(c, front)) && Distinct(TurnedChain(c, front))
    decreases c, 0
  {
    if c.Object? {
      TurnedEncodable(c.value);
      TurnedChainEncodable(c.next, Object(c.key, Turned(c.value), front));
    }
  }

  /** Decoding and re-encoding twice reproduces the first encoding byte for byte. */
  lemma TwoRoundTripsRestoreBytes(v: Value)
    requires Encodable(v)
    ensures Encodable(Turned(v)) && Encodable(Turned(Turned(v)))
    ensures Encode(Turned(Turned(v))) == Encode(v)
  {
    TurnedEncodable(v);
    TurnedTwice(v);
    WidenedEncodesAlike(v);
  }

  // ---------------------------------------------------------------- values as finite maps

  /** A value with its maps as finite maps and its integers as numbers. */
  datatype Abstract =
    | AStr(bytes: seq<byte>)
    | AReal(bits: nat)
    | AInt(n: int)
    | ABool(b: bool)
    | ANull
    | AArray(elems: seq<Abstract>)
    | AMap(m: map<nat, Abstract>)

  ghost function Abs(v: Value): Abstract
    decreases v
  {
    match v
    case Str(bs) => AStr(bs)
    case Real(bits) => AReal(bits)
    case Int(_, n) => AInt(n)
    case Bool(b) => ABool(b)
    case Null => ANull
    case Array(es) => AArray(seq(|es|, i requires 0 <= i < |es| => Abs(es[i])))
    case Map(t) => AMap(AbsTable(t, 0))
  }

  ghost function AbsTable(t: Table, i: nat): map<nat, Abstract>
    requires i <= |t|
    decreases t, |t| - i
  {
    if i == |t| then map[] else AbsChain(t[i]) + AbsTable(t, i + 1)
  }

  ghost function AbsChain(c: Chain): (m: map<nat, Abstract>)
    ensures m.Keys == Keys(c)
    decreases c
  {
    if c.End? then map[] else AbsChain(c.next)[c.key := Abs(c.value)]
  }

  /** A round trip is invisible to anyone who looks values up by key. */
  lemma {:induction false} TurnedIsSame(v: Value)
    requires Encodable(v)
    ensures Abs(Turned(v)) == Abs(v)
    decreases v, 1
  {
    match v
    case Array(es) =>
      forall i | 0 <= i < |es|
        ensures Abs(Turned(es[i])) == Abs(es[i])
      {
        TurnedIsSame(es[i]);
      }
      assert Abs(Turned(v)).elems == Abs(v).elems;
    case Map(t) =>
      forall i: nat | i < |t|
        ensures AbsChain(TurnedTable(t)[i]) == AbsChain(t[i])
      {
        assert InBucket(t[i], i);
        TurnedChainIsSame(t[i], End);
      }
      AbsTablesAlike(t, TurnedTable(t), 0);
    case _ =>
  }

  lemma {:induction false} TurnedChainIsSame(c: Chain, front: Chain)
    requires EncodableChain(c) && Distinct(c) && Keys(c) !! Keys(front)
    ensures AbsChain(TurnedChain(c, front)) == AbsChain(front) + AbsChain(c)
    decreases c, 0
  {
    if c.Object? {
      TurnedIsSame(c.value);
      TurnedChainIsSame(c.next, Object(c.key, Turned(c.value), front));
    }
  }

  lemma {:induction false} AbsTablesAlike(t: Table, t': Table, i: nat)
    requires i <= |t| == |t'| && forall j :: 0 <= j < |t| ==> AbsChain(t'[j]) == AbsChain(t[j])
    ensures AbsTable(t', i) == AbsTable(t, i)
    decreases |t| - i
  {
    if i < |t| {
      AbsTablesAlike(t, t', i + 1);
    }
  }

  /**
   The round-trip law. An encoded value within the limits is one well-formed item of the predicted
   length, the decoder can read it, and what it reads is the value up to integer width and bucket order.
   */
  lemma RoundTripLaw(v: Value, indent: nat, backups: nat)
    requires Encodable(v) && Fits(v, indent, backups)
    ensures var it := ItemOf(v);
      && WellFormed(it) && Wire(it) == Encode(v) && |Encode(v)| == Size(v)
      && Decodable(it, indent, backups)
      && Meaning(it) == Turned(v) && Abs(Meaning(it)) == Abs(v)
  {
    EncodeIsWire(v);
    FitsIsDecodable(v, indent, backups);
    TurnedIsMeaning(v, indent, backups);
    TurnedIsSame(v);
  }
}
