/**
 What a decoded value has to do with the item it was read from, item by item and without reference to how the
 decoder builds it.
 */
module Reading {
  import opened Heads
  import opened Items
  import opened Values
  import opened Codec
  import opened RoundTrip

  /** `s` is what a C string function sees of `bs`: the bytes before the first NUL. */
  ghost predicate IsCString(bs: seq<byte>, s: seq<byte>) {
    0 !in s && |s| <= |bs| && bs[..|s|] == s && (|s| < |bs| ==> bs[|s|] == 0)
  }

  lemma {:induction false} CStringEndsAtNul(bs: seq<byte>)
    ensures IsCString(bs, CString(bs))
  {
    if bs != [] && bs[0] != 0 {
      CStringEndsAtNul(bs[1..]);
      assert bs[..|CString(bs)|] == [bs[0]] + bs[1..][..|CString(bs[1..])|];
    }
  }

  /** Pair `i` of a map is the last one with its key. */
  ghost predicate IsLastPair(items: seq<Item>, i: nat) {
    && i % 2 == 0 && i + 1 < |items| && items[i].Uint?
    && forall j :: i < j < |items| && j % 2 == 0 && items[j].Uint? ==> items[j].n != items[i].n
  }

  ghost predicate HasKey(items: seq<Item>, i: nat, key: nat) {
    i % 2 == 0 && i + 1 < |items| && items[i].Uint? && items[i].n == key
  }

  /** The value `v` is what item `it` says; of several pairs of a map with one key the last one counts. */
  ghost predicate ReadAs(it: Item, v: Value)
    decreases it
  {
    match it
    case Uint(_, n) => v == Int(U64, n)
    case Nint(_, n) => v == Int(I64, -1 - n)
    case Bstr(_, bs) => v.Str? && IsCString(bs, v.bytes)
    case Tstr(_, bs) => v.Str? && IsCString(bs, v.bytes)
    case Simple(w, n) =>
      if w.Eight? then v == Real(n)
      else if n == 20 then v == Bool(false)
      else if n == 21 then v == Bool(true)
      else v == Null
    case List(_, items) =>
      v.Array? && |v.elems| == |items| && forall i :: 0 <= i < |items| ==> ReadAs(items[i], v.elems[i])
    case Map(_, items) =>
      && v.Map? && WellPlaced(v.table)
      && (forall key: nat :: key in Contents(v.table) <==> exists i :: 0 <= i < |items| && HasKey(items, i, key))
      && (forall i :: 0 <= i < |items| && IsLastPair(items, i) ==>
            items[i].n in Contents(v.table) && ReadAs(items[i + 1], Contents(v.table)[items[i].n]))
    case Tag(_, _, _) => false
  }

  // ---------------------------------------------------------------- the pairs of a map

  /** The finite map after binding the pairs from index `i` on, one after the other. */
  ghost function Bound(m: map<nat, Value>, items: seq<Item>, i: nat): map<nat, Value>
    decreases |items| - i
  {
    if i + 1 >= |items| then m
    else Bound(m[(if items[i].Uint? then items[i].n else 0) := Meaning(items[i + 1])], items, i + 2)
  }

  /** Up to 51 pairs no bucket gets too long, so every pair is bound. */
  lemma {:induction false} LoadBinds(t: Table, items: seq<Item>, i: nat)
    requires WellPlaced(t) && i % 2 == 0 && |items| <= 102 && forall b :: 0 <= b < |t| ==> 2 * Length(t[b]) <= i
    ensures WellPlaced(Load(t, items, i)) && Contents(Load(t, items, i)) == Bound(Contents(t), items, i)
    decreases |items| - i
  {
    hide Contents, Meaning, InBucket, HashKey;
    if i + 1 < |items| {
      var key, v := if items[i].Uint? then items[i].n else 0, Meaning(items[i + 1]);
      var t' := Put(t, key, v).0;
      PutBinds(t, key, v);
      forall b | 0 <= b < |t'|
        ensures 2 * Length(t'[b]) <= i + 2
      {
        PutLength(t, key, v, b);
      }
      LoadBinds(t', items, i + 2);
    }
  }

  lemma PutLength(t: Table, key: nat, v: Value, b: nat)
    requires |t| == HASHMAP_TABLE_SIZE && b < |t|
    ensures Length(Put(t, key, v).0[b]) <= Length(t[b]) + 1
  {
  }

  lemma {:induction false} BoundKeys(m: map<nat, Value>, items: seq<Item>, i: nat, key: nat)
    requires i % 2 == 0 && forall j :: 0 <= j < |items| && j % 2 == 0 ==> items[j].Uint?
    ensures key in Bound(m, items, i) <==> key in m || exists j :: i <= j < |items| && HasKey(items, j, key)
    decreases |items| - i
  {
    hide Meaning;
    if i + 1 < |items| {
      var m' := m[items[i].n := Meaning(items[i + 1])];
      BoundKeys(m', items, i + 2, key);
      if items[i].n == key {
        assert HasKey(items, i, key);
      }
      if j :| i <= j < |items| && HasKey(items, j, key) && items[i].n != key {
        assert i + 2 <= j;
      }
    }
  }

  lemma {:induction false} BoundLast(m: map<nat, Value>, items: seq<Item>, i: nat, j: nat)
    requires i % 2 == 0 && i <= j && IsLastPair(items, j)
    requires forall k :: 0 <= k < |items| && k % 2 == 0 ==> items[k].Uint?
    ensures items[j].n in Bound(m, items, i) && Bound(m, items, i)[items[j].n] == Meaning(items[j + 1])
    decreases |items| - i
  {
    hide Meaning;
    var m' := m[items[i].n := Meaning(items[i + 1])];
    if i < j {
      BoundLast(m', items, i + 2, j);
    } else {
      BoundRest(m', items, i + 2, items[j].n);
    }
  }

  lemma {:induction false} BoundRest(m: map<nat, Value>, items: seq<Item>, i: nat, key: nat)
    requires i % 2 == 0 && key in m
    requires forall k :: i <= k < |items| && k % 2 == 0 ==> items[k].Uint? && items[k].n != key
    ensures key in Bound(m, items, i) && Bound(m, items, i)[key] == m[key]
    decreases |items| - i
  {
    hide Meaning;
    if i + 1 < |items| {
      BoundRest(m[items[i].n := Meaning(items[i + 1])], items, i + 2, key);
    }
  }

  // ---------------------------------------------------------------- every item

  /** The decoder's answer is what the item says. */
  lemma {:induction false} MeaningIsReadAs(it: Item, indent: nat, backups: nat)
    requires Decodable(it, indent, backups)
    ensures ReadAs(it, Meaning(it))
    decreases it
  {
    match it
    case Bstr(_, bs) => CStringEndsAtNul(bs);
    case Tstr(_, bs) => CStringEndsAtNul(bs);
    case List(_, items) =>
      forall i | 0 <= i < |items|
        ensures ReadAs(items[i], Meaning(items[i]))
      {
        MeaningIsReadAs(items[i], indent + 1, backups - 1);
      }
    case Map(_, items) => MapIsReadAs(it, indent, backups);
    case _ =>
  }

  lemma {:induction false} MapIsReadAs(it: Item, indent: nat, backups: nat)
    requires it.Map? && Decodable(it, indent, backups)
    ensures ReadAs(it, Meaning(it))
    decreases it, 0
  {
    hide Contents, WellPlaced;
    var items := it.items;
    EmptyTable();
    NoneLonger();
    LoadBinds(NoObjects(), items, 0);
    var m := Bound(map[], items, 0);
    forall key: nat
      ensures key in m <==> exists i :: 0 <= i < |items| && HasKey(items, i, key)
    {
      BoundKeys(map[], items, 0, key);
    }
    forall i | 0 <= i < |items| && IsLastPair(items, i)
      ensures items[i].n in m && ReadAs(items[i + 1], m[items[i].n])
    {
      BoundLast(map[], items, 0, i);
      assert (i + 1) % 2 == 1;
      MeaningIsReadAs(items[i + 1], indent + 1, backups - 1);
    }
  }

  lemma NoneLonger()
    ensures forall b :: 0 <= b < |NoObjects()| ==> Length(NoObjects()[b]) == 0
  {
  }

  // ---------------------------------------------------------------- the same value up to integer width

  lemma {:induction false} FoundIsSmaller(c: Chain, key: nat)
    requires Find(c, key).Some?
    ensures (c decreases to Find(c, key).value)
  {
    if c.key != key {
      FoundIsSmaller(c.next, key);
    }
  }

  lemma GotIsSmaller(t: Table, key: nat)
    requires |t| == HASHMAP_TABLE_SIZE && Get(t, key).Some?
    ensures (Value.Map(t) decreases to Get(t, key).value)
  {
    FoundIsSmaller(t[HashKey(key)], key);
  }

  /** Integers of the same number, whatever their width, and maps that answer every lookup with the same. */
  ghost predicate Same(v: Value, w: Value)
    decreases v
  {
    match v
    case Str(bs) => w.Str? && w.bytes == bs
    case Real(bits) => w.Real? && w.bits == bits
    case Int(_, n) => w.Int? && w.n == n
    case Bool(b) => w.Bool? && w.b == b
    case Null => w.Null?
    case Array(es) => w.Array? && |w.elems| == |es| && forall i :: 0 <= i < |es| ==> Same(es[i], w.elems[i])
    case Map(t) =>
      && w.Map? && |t| == |w.table| == HASHMAP_TABLE_SIZE
      && forall key: nat ::
        && Get(t, key).Some? == Get(w.table, key).Some?
        && (Get(t, key).Some? ==> (GotIsSmaller(t, key); Same(Get(t, key).value, Get(w.table, key).value)))
  }

  lemma {:induction false} AbsChainAt(c: Chain, key: nat)
    ensures key in AbsChain(c) <==> Find(c, key).Some?
    ensures key in AbsChain(c) ==> AbsChain(c)[key] == Abs(Find(c, key).value)
  {
    hide Abs;
    if c.Object? && c.key != key {
      AbsChainAt(c.next, key);
    }
  }

  lemma {:induction false} AbsTableAt(t: Table, i: nat, key: nat)
    requires WellPlaced(t) && i <= |t|
    ensures key in AbsTable(t, i) <==> i <= HashKey(key) && Get(t, key).Some?
    ensures key in AbsTable(t, i) ==> AbsTable(t, i)[key] == Abs(Get(t, key).value)
    decreases |t| - i
  {
    hide Abs, AbsChain, HashKey;
    if i < |t| {
      AbsTableAt(t, i + 1, key);
      AbsChainAt(t[i], key);
      assert InBucket(t[i], i);
    }
  }

  /** The abstraction that the round-trip laws are stated with tells values apart exactly as far as this. */
  lemma {:induction false} AbsIffSame(v: Value, w: Value)
    requires Encodable(v) && Encodable(w)
    ensures Abs(v) == Abs(w) <==> Same(v, w)
    decreases v
  {
    match v
    case Array(es) =>
      if w.Array? && |w.elems| == |es| {
        forall i | 0 <= i < |es|
          ensures Abs(es[i]) == Abs(w.elems[i]) <==> Same(es[i], w.elems[i])
        {
          AbsIffSame(es[i], w.elems[i]);
        }
        ArraysAlike(es, w.elems);
      } else {
        assert w.Array? ==> |Abs(v).elems| == |es| != |w.elems| == |Abs(w).elems|;
      }
    case Map(t) =>
      if w.Map? {
        MapsAlike(t, w.table);
      }
    case _ =>
  }

  lemma ArraysAlike(es: seq<Value>, ws: seq<Value>)
    requires |es| == |ws|
    ensures Abs(Array(es)) == Abs(Array(ws)) <==> forall i :: 0 <= i < |es| ==> Abs(es[i]) == Abs(ws[i])
  {
    var a, b := Abs(Array(es)).elems, Abs(Array(ws)).elems;
    assert forall i :: 0 <= i < |es| ==> a[i] == Abs(es[i]) && b[i] == Abs(ws[i]);
  }

  lemma {:induction false} MapsAlike(t: Table, u: Table)
    requires Encodable(Value.Map(t)) && Encodable(Value.Map(u))
    ensures Abs(Value.Map(t)) == Abs(Value.Map(u)) <==> Same(Value.Map(t), Value.Map(u))
    decreases Value.Map(t), 1
  {
    hide Get, AbsTable, Encodable;
    EncodableParts(t, 0);
    EncodableParts(u, 0);
    var a, b := AbsTable(t, 0), AbsTable(u, 0);
    forall key: nat
      ensures key in a <==> Get(t, key).Some?
      ensures key in b <==> Get(u, key).Some?
      ensures key in a && key in b ==> (a[key] == b[key] <==> Same(Get(t, key).value, Get(u, key).value))
    {
      AlikeAt(t, u, key);
    }
    if Same(Value.Map(t), Value.Map(u)) {
      forall key: nat
        ensures (key in a <==> key in b) && (key in a && key in b ==> a[key] == b[key])
      {
        assert Get(t, key).Some? == Get(u, key).Some?;
      }
      assert a == b;
    }
  }

  lemma {:induction false} AlikeAt(t: Table, u: Table, key: nat)
    requires Encodable(Value.Map(t)) && Encodable(Value.Map(u))
    ensures |t| == |u| == HASHMAP_TABLE_SIZE
    ensures var a, b := AbsTable(t, 0), AbsTable(u, 0);
      && (key in a <==> Get(t, key).Some?) && (key in b <==> Get(u, key).Some?)
      && (key in a && key in b ==> (a[key] == b[key] <==> Same(Get(t, key).value, Get(u, key).value)))
    decreases Value.Map(t), 0
  {
    hide HashKey, Encodable, Get, WellPlaced, Same, Abs, AbsTable;
    EncodableParts(t, key);
    EncodableParts(u, key);
    AbsTableAt(t, 0, key);
    AbsTableAt(u, 0, key);
    if Get(t, key).Some? && Get(u, key).Some? {
      GotIsSmaller(t, key);
      AbsIffSame(Get(t, key).value, Get(u, key).value);
    }
  }

  lemma EncodableParts(t: Table, key: nat)
    requires Encodable(Value.Map(t))
    ensures WellPlaced(t) && |t| == HASHMAP_TABLE_SIZE && (Get(t, key).Some? ==> Encodable(Get(t, key).value))
  {
    if Get(t, key).Some? {
      FoundEncodable(t[HashKey(key)], key);
    }
  }

  lemma {:induction false} FoundEncodable(c: Chain, key: nat)
    requires EncodableChain(c) && Find(c, key).Some?
    ensures Encodable(Find(c, key).value)
  {
    if c.key != key {
      FoundEncodable(c.next, key);
    }
  }

  // ---------------------------------------------------------------- the limits, counted

  /** No more than `depth` containers lie one inside the other, and no map has more than 51 entries. */
  ghost predicate Nests(v: Value, depth: nat)
    decreases v
  {
    match v
    case Array(es) => 1 <= depth && forall i :: 0 <= i < |es| ==> Nests(es[i], depth - 1)
    case Map(t) => 1 <= depth && Entries(t, 0) <= 51 && forall i :: 0 <= i < |t| ==> NestsChain(t[i], depth - 1)
    case _ => true
  }

  ghost predicate NestsChain(c: Chain, depth: nat)
    decreases c
  {
    c.Object? ==> Nests(c.value, depth) && NestsChain(c.next, depth)
  }

  /** Up to 20 containers deep, a value needs one backup for each. */
  lemma {:induction false} NestingFits(v: Value, depth: nat, indent: nat, backups: nat)
    requires Nests(v, depth) && depth <= backups && indent + depth <= 20
    ensures Fits(v, indent, backups)
    decreases v
  {
    match v
    case Array(es) =>
      forall i | 0 <= i < |es|
        ensures Fits(es[i], indent + 1, backups - 1)
      {
        NestingFits(es[i], depth - 1, indent + 1, backups - 1);
      }
    case Map(t) =>
      forall i | 0 <= i < |t|
        ensures FitsChain(t[i], indent + 1, backups - 1)
      {
        ChainNestingFits(t[i], depth - 1, indent + 1, backups - 1);
      }
    case _ =>
  }

  lemma {:induction false} ChainNestingFits(c: Chain, depth: nat, indent: nat, backups: nat)
    requires NestsChain(c, depth) && depth <= backups && indent + depth <= 20
    ensures FitsChain(c, indent, backups)
    decreases c
  {
    if c.Object? {
      NestingFits(c.value, depth, indent, backups);
      ChainNestingFits(c.next, depth, indent, backups);
    }
  }
}
