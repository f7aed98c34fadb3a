/**
 iPATCH end to end: the request a client builds from a patch map, applied over the wire by the server,
 against the same patch applied in memory; and the idempotence of SID-keyed payloads.
 */
module PatchWire {
  import opened Wrappers
  import opened Heads
  import opened Items
  import opened Skipping
  import opened Values
  import opened ChainedMaps
  import opened Codec
  import opened RoundTrip
  import opened Reading
  import opened Encoders
  import Printer
  import opened PatchTheory
  import opened Patch

  // ---------------------------------------------------------------- SID payloads are operations

  /** The operations of one map's pairs from index `i` on. */
  ghost function PairOps(items: seq<Item>, i: nat): Ops
    decreases |items| - i
  {
    if i + 1 >= |items| then []
    else [(if items[i].Uint? then items[i].n else 0, Meaning(items[i + 1]))] + PairOps(items, i + 2)
  }

  ghost function MapsOps(maps: seq<Item>, j: nat): Ops
    decreases |maps| - j
  {
    if j >= |maps| then [] else PairOps(if maps[j].Map? then maps[j].items else [], 0) + MapsOps(maps, j + 1)
  }

  ghost predicate SidKeyed(items: seq<Item>) {
    forall i :: 0 <= i < |items| && i % 2 == 0 ==> items[i].Uint?
  }

  lemma {:induction false} ApplyOpsConcat(t: Table, a: Ops, b: Ops)
    requires |t| == HASHMAP_TABLE_SIZE
    ensures ApplyOps(t, a + b) == ApplyOps(ApplyOps(t, a), b)
    decreases |a|
  {
    if a == [] {
      assert a + b == b;
    } else {
      assert (a + b)[0] == a[0] && (a + b)[1..] == a[1..] + b;
      ApplyOpsConcat(ApplySid(t, a[0].0, a[0].1), a[1..], b);
    }
  }

  lemma {:induction false} PairsAreOps(t: Table, items: seq<Item>, i: nat)
    requires |t| == HASHMAP_TABLE_SIZE && SidKeyed(items) && i % 2 == 0
    ensures ApplyPairs(t, items, i) == (ApplyOps(t, PairOps(items, i)), |PairOps(items, i)|)
    decreases |items| - i
  {
    hide Meaning, ApplySid;
    if i + 1 < |items| {
      var op := (items[i].n, Meaning(items[i + 1]));
      PairsAreOps(ApplySid(t, op.0, op.1), items, i + 2);
      assert ([op] + PairOps(items, i + 2))[1..] == PairOps(items, i + 2);
    }
  }

  /** Maps keyed by SIDs only act as one sequence of operations, and each entry is counted. */
  lemma {:induction false} MapsAreOps(t: Table, maps: seq<Item>, j: nat)
    requires |t| == HASHMAP_TABLE_SIZE && forall k :: 0 <= k < |maps| ==> maps[k].Map? && SidKeyed(maps[k].items)
    ensures ApplyMaps(t, maps, j) == (ApplyOps(t, MapsOps(maps, j)), |MapsOps(maps, j)|)
    decreases |maps| - j
  {
    if j < |maps| {
      var ops := PairOps(maps[j].items, 0);
      PairsAreOps(t, maps[j].items, 0);
      MapsAreOps(ApplyOps(t, ops), maps, j + 1);
      ApplyOpsConcat(t, ops, MapsOps(maps, j + 1));
    }
  }

  /**
   Applying a SID-keyed payload twice leaves the datastore of applying it once, if it deletes nothing or
   no bucket can outgrow the insert limit.
   */
  lemma PayloadIdempotent(t: Table, maps: seq<Item>)
    requires WellPlaced(t) && forall k :: 0 <= k < |maps| ==> maps[k].Map? && SidKeyed(maps[k].items)
    requires Roomy(t, MapsOps(maps, 0)) || WritesOnly(MapsOps(maps, 0))
    ensures var once := ApplyMaps(t, maps, 0).0; var twice := ApplyMaps(once, maps, 0).0;
      WellPlaced(once) && WellPlaced(twice) && Contents(twice) == Contents(once)
  {
    MapsAreOps(t, maps, 0);
    MapsAreOps(ApplyMaps(t, maps, 0).0, maps, 0);
    if Roomy(t, MapsOps(maps, 0)) {
      PatchIdempotent(t, MapsOps(maps, 0));
    } else {
      WritesIdempotent(t, MapsOps(maps, 0));
    }
  }

  // ---------------------------------------------------------------- a patch table as operations

  ghost function ChainOps(c: Chain): Ops {
    if c.End? then [] else [(c.key, c.value)] + ChainOps(c.next)
  }

  ghost function TableOps(p: Table, i: nat): Ops
    requires i <= |p|
    decreases |p| - i
  {
    if i == |p| then [] else ChainOps(p[i]) + TableOps(p, i + 1)
  }

  /** What the wire makes of the operations. */
  ghost function TurnedOps(ops: Ops): (r: Ops)
    ensures |r| == |ops|
  {
    seq(|ops|, i requires 0 <= i < |ops| => (ops[i].0, Turned(ops[i].1)))
  }

  lemma PairOpsUnfold(items: seq<Item>, i: nat)
    requires i + 1 < |items|
    ensures PairOps(items, i)
      == [(if items[i].Uint? then items[i].n else 0, Meaning(items[i + 1]))] + PairOps(items, i + 2)
  {
    hide Meaning;
  }

  lemma {:induction false} PairOpsSuffix(a: seq<Item>, b: seq<Item>, i: nat)
    ensures PairOps(a + b, |a| + i) == PairOps(b, i)
    decreases |b| - i
  {
    hide Meaning;
    var ab, n := a + b, |a| + i;
    if i + 1 < |b| {
      assert ab[n] == b[i] && ab[n + 1] == b[i + 1];
      PairOpsSuffix(a, b, i + 2);
      PairOpsUnfold(ab, n);
      PairOpsUnfold(b, i);
    }
  }

  lemma {:induction false} PairOpsConcat(a: seq<Item>, b: seq<Item>, i: nat)
    requires |a| % 2 == 0 && i % 2 == 0 && i <= |a|
    ensures PairOps(a + b, i) == PairOps(a, i) + PairOps(b, 0)
    decreases |a| - i
  {
    hide Meaning;
    if i < |a| {
      assert (a + b)[i] == a[i] && (a + b)[i + 1] == a[i + 1];
      PairOpsConcat(a, b, i + 2);
    } else {
      PairOpsSuffix(a, b, 0);
    }
  }

  lemma TurnedOpsConcat(a: Ops, b: Ops)
    ensures TurnedOps(a + b) == TurnedOps(a) + TurnedOps(b)
  {
    hide Turned;
  }

  lemma NoOps()
    ensures PairOps([], 0) == [] && TurnedOps([]) == []
  {
  }

  lemma TurnedOpsCons(sid: nat, v: Value, rest: Ops)
    ensures TurnedOps([(sid, v)] + rest) == [(sid, Turned(v))] + TurnedOps(rest)
  {
    hide Turned;
  }

  lemma PairOpsCons(key: Item, item: Item, rest: seq<Item>)
    requires key.Uint?
    ensures PairOps([key, item] + rest, 0) == [(key.n, Meaning(item))] + PairOps(rest, 0)
  {
    hide Meaning;
    PairOpsSuffix([key, item], rest, 0);
    assert ([key, item] + rest)[0] == key && ([key, item] + rest)[1] == item;
  }

  lemma {:induction false} ChainWireOps(c: Chain, backups: nat)
    requires EncodableChain(c) && FitsChain(c, 0, backups)
    ensures PairOps(ChainItems(c), 0) == TurnedOps(ChainOps(c))
  {
    hide Encodable, ItemOf, Meaning, Turned, Fits, PairOps, TurnedOps;
    if c.End? {
      NoOps();
    } else {
      ChainWireOps(c.next, backups);
      TurnedIsMeaning(c.value, 0, backups);
      PairOpsCons(Uint(Shortest(c.key), c.key), ItemOf(c.value), ChainItems(c.next));
      TurnedOpsCons(c.key, c.value, ChainOps(c.next));
    }
  }

  lemma {:induction false} ChainOpsLength(c: Chain)
    requires EncodableChain(c)
    ensures |ChainItems(c)| == 2 * Length(c) && |ChainOps(c)| == Length(c)
  {
    hide Encodable, ItemOf;
    if c.Object? {
      ChainOpsLength(c.next);
    }
  }

  lemma {:induction false} TableWireOps(p: Table, i: nat, backups: nat)
    requires i <= |p| && forall j :: 0 <= j < |p| ==> EncodableChain(p[j]) && FitsChain(p[j], 0, backups)
    ensures PairOps(TableItems(p, i), 0) == TurnedOps(TableOps(p, i)) && |TableOps(p, i)| == Entries(p, i)
    decreases |p| - i
  {
    hide ChainItems, ChainOps, FitsChain, EncodableChain;
    if i < |p| {
      ChainWireOps(p[i], backups);
      ChainOpsLength(p[i]);
      TableWireOps(p, i + 1, backups);
      TurnedOpsConcat(ChainOps(p[i]), TableOps(p, i + 1));
      PairOpsConcat(ChainItems(p[i]), TableItems(p, i + 1), 0);
    }
  }

  // No SID is named twice.

  lemma {:induction false} ChainOpsNamesOnce(c: Chain)
    requires Distinct(c)
    ensures NamesOnce(ChainOps(c)) && forall i :: 0 <= i < |ChainOps(c)| ==> ChainOps(c)[i].0 in Keys(c)
  {
    if c.Object? {
      ChainOpsNamesOnce(c.next);
      var ops := ChainOps(c);
      assert forall i :: 0 < i < |ops| ==> ops[i] == ChainOps(c.next)[i - 1];
    }
  }

  lemma {:induction false} TableOpsNamesOnce(p: Table, i: nat)
    requires WellPlaced(p) && i <= |p|
    ensures NamesOnce(TableOps(p, i)) && forall k :: 0 <= k < |TableOps(p, i)| ==> HashKey(TableOps(p, i)[k].0) >= i
    decreases |p| - i
  {
    if i < |p| {
      assert InBucket(p[i], i);
      ChainOpsNamesOnce(p[i]);
      TableOpsNamesOnce(p, i + 1);
      var a, b := ChainOps(p[i]), TableOps(p, i + 1);
      assert forall k :: 0 <= k < |a + b| ==> (a + b)[k] == if k < |a| then a[k] else b[k - |a|];
      assert forall k :: 0 <= k < |a| ==> HashKey(a[k].0) == i;
    }
  }

  // ---------------------------------------------------------------- the patch in memory

  /** `apply_one_sid`: no wrapping, values copied as they are. */
  function MemSid(t: Table, sid: nat, v: Value): (t': Table)
    requires |t| == HASHMAP_TABLE_SIZE
    ensures |t'| == |t|
  {
    if v.Null? then Delete(t, sid) else Put(t, sid, v).0
  }

  ghost function MemOps(t: Table, ops: Ops): (t': Table)
    requires |t| == HASHMAP_TABLE_SIZE
    ensures |t'| == |t|
    decreases |ops|
  {
    if ops == [] then t else MemOps(MemSid(t, ops[0].0, ops[0].1), ops[1..])
  }

  /** Some insert of the operations is refused. */
  ghost predicate Refuses(t: Table, ops: Ops)
    requires |t| == HASHMAP_TABLE_SIZE
    decreases |ops|
  {
    ops != [] &&
    ((!ops[0].1.Null? && !Put(t, ops[0].0, ops[0].1).1) || Refuses(MemSid(t, ops[0].0, ops[0].1), ops[1..]))
  }

  lemma {:induction false} MemOpsConcat(t: Table, a: Ops, b: Ops)
    requires |t| == HASHMAP_TABLE_SIZE
    ensures MemOps(t, a + b) == MemOps(MemOps(t, a), b)
    ensures Refuses(t, a + b) <==> Refuses(t, a) || Refuses(MemOps(t, a), b)
    decreases |a|
  {
    if a == [] {
      assert a + b == b;
    } else {
      assert (a + b)[0] == a[0] && (a + b)[1..] == a[1..] + b;
      MemOpsConcat(MemSid(t, a[0].0, a[0].1), a[1..], b);
    }
  }

  /** The operations that get memory for their copy; a deletion needs none. */
  ghost function Copied(ops: Ops, granted: nat -> bool): (r: Ops)
    ensures |r| <= |ops|
    decreases |ops|
  {
    if ops == [] then []
    else (if ops[0].1.Null? || granted(ops[0].0) then [ops[0]] else []) + Copied(ops[1..], granted)
  }

  lemma {:induction false} CopiedConcat(a: Ops, b: Ops, granted: nat -> bool)
    ensures Copied(a + b, granted) == Copied(a, granted) + Copied(b, granted)
    decreases |a|
  {
    hide Copied;
    CopiedFirst([], granted);
    if a == [] {
      assert a + b == b;
    } else {
      assert (a + b)[0] == a[0] && (a + b)[1..] == a[1..] + b;
      CopiedFirst(a, granted);
      CopiedFirst(a + b, granted);
      CopiedConcat(a[1..], b, granted);
    }
  }

  lemma CopiedFirst(ops: Ops, granted: nat -> bool)
    ensures ops == [] ==> Copied(ops, granted) == []
    ensures ops != [] ==>
      var first := if ops[0].1.Null? || granted(ops[0].0) then [ops[0]] else [];
      Copied(ops, granted) == first + Copied(ops[1..], granted)
  {
  }

  lemma {:induction false} CopiedAll(ops: Ops, granted: nat -> bool)
    requires forall sid :: granted(sid)
    ensures Copied(ops, granted) == ops
    decreases |ops|
  {
    if ops != [] {
      CopiedAll(ops[1..], granted);
    }
  }

  /** An entry fails: its copy gets no memory, or its insert is refused. */
  ghost predicate Fails(t: Table, ops: Ops, granted: nat -> bool)
    requires |t| == HASHMAP_TABLE_SIZE
  {
    |Copied(ops, granted)| < |ops| || Refuses(t, Copied(ops, granted))
  }

  /** Walks the patch in table order, as the encoder does; `granted` tells for which SIDs there is memory. */
  method ApplyIpatch(store: ChainedMap, patch: Table, granted: nat -> bool) returns (status: int)
    requires store.Valid() && |patch| == HASHMAP_TABLE_SIZE
    modifies store, store.table
    ensures store.Valid() && store.Chains() == MemOps(old(store.Chains()), Copied(TableOps(patch, 0), granted))
    ensures status == if Fails(old(store.Chains()), TableOps(patch, 0), granted) then -1 else 0
  {
    hide Contents, Refuses, MemOps, ChainOps, Copied, Fails;
    var error := false;
    ghost var t, all := store.Chains(), TableOps(patch, 0);
    NoPatch(t, granted);
    var i := 0;
    while i < |patch|
      invariant i <= |patch| && store.Valid()
      invariant MemOps(store.Chains(), Copied(TableOps(patch, i), granted)) == MemOps(t, Copied(all, granted))
      invariant (error || Fails(store.Chains(), TableOps(patch, i), granted)) == Fails(t, all, granted)
    {
      FailsConcat(store.Chains(), ChainOps(patch[i]), TableOps(patch, i + 1), granted);
      var failed := ApplyChain(store, patch[i], granted);
      error := error || failed;
      i := i + 1;
    }
    NoPatch(store.Chains(), granted);
    status := if error then -1 else 0;
  }

  lemma FailsConcat(t: Table, a: Ops, b: Ops, granted: nat -> bool)
    requires |t| == HASHMAP_TABLE_SIZE
    ensures var after := MemOps(t, Copied(a, granted));
      && MemOps(t, Copied(a + b, granted)) == MemOps(after, Copied(b, granted))
      && (Fails(t, a + b, granted) <==> Fails(t, a, granted) || Fails(after, b, granted))
  {
    hide Copied, MemOps, Refuses;
    CopiedConcat(a, b, granted);
    MemOpsConcat(t, Copied(a, granted), Copied(b, granted));
  }

  lemma NoPatch(t: Table, granted: nat -> bool)
    requires |t| == HASHMAP_TABLE_SIZE
    ensures MemOps(t, Copied([], granted)) == t && !Fails(t, [], granted)
  {
  }

  method ApplyChain(store: ChainedMap, c: Chain, granted: nat -> bool) returns (error: bool)
    requires store.Valid()
    modifies store, store.table
    ensures store.Valid() && store.Chains() == MemOps(old(store.Chains()), Copied(ChainOps(c), granted))
    ensures error == Fails(old(store.Chains()), ChainOps(c), granted)
  {
    hide Contents, MemOps, Copied, Refuses, Fails;
    error := false;
    ghost var t, all := store.Chains(), ChainOps(c);
    var current := c;
    while current.Object?
      invariant store.Valid()
      invariant MemOps(store.Chains(), Copied(ChainOps(current), granted)) == MemOps(t, Copied(all, granted))
      invariant (error || Fails(store.Chains(), ChainOps(current), granted)) == Fails(t, all, granted)
      decreases current
    {
      FailsConcat(store.Chains(), [(current.key, current.value)], ChainOps(current.next), granted);
      OneOp(store.Chains(), current.key, current.value, granted);
      var failed := ApplyOneSid(store, current.key, current.value, granted(current.key));
      error := error || failed;
      current := current.next;
    }
    NoPatch(store.Chains(), granted);
  }

  lemma OneOp(t: Table, sid: nat, v: Value, granted: nat -> bool)
    requires |t| == HASHMAP_TABLE_SIZE
    ensures var op := [(sid, v)];
      && MemOps(t, Copied(op, granted)) == (if v.Null? || granted(sid) then MemSid(t, sid, v) else t)
      && (Fails(t, op, granted) <==> !v.Null? && (!granted(sid) || !Put(t, sid, v).1))
  {
    hide Put, Delete;
    var op := [(sid, v)];
    assert op[1..] == [];
    assert Copied([], granted) == [];
    assert Copied(op, granted) == (if v.Null? || granted(sid) then [(sid, v)] else []);
    assert MemOps(MemSid(t, sid, v), []) == MemSid(t, sid, v);
    assert MemOps(t, op) == MemOps(MemSid(t, sid, v), op[1..]);
    assert !Refuses(MemSid(t, sid, v), []);
    assert Refuses(t, op) == ((!v.Null? && !Put(t, sid, v).1) || Refuses(MemSid(t, sid, v), op[1..]));
  }

  method ApplyOneSid(store: ChainedMap, sid: nat, v: Value, granted: bool) returns (failed: bool)
    requires store.Valid()
    modifies store, store.table
    ensures store.Valid()
    ensures store.Chains() ==
      if v.Null? || granted then MemSid(old(store.Chains()), sid, v) else old(store.Chains())
    ensures failed <==> !v.Null? && (!granted || !Put(old(store.Chains()), sid, v).1)
  {
    hide Contents, Put, Delete;
    if v.Null? {
      var _ := store.Remove(sid);
      return false;
    }
    if !granted {
      return true;
    }
    var inserted := store.Insert(sid, v);
    failed := inserted != 0;
  }

  // ---------------------------------------------------------------- the two agree

  /**
   A value the wire left against the one memory left, for a SID that held `before`: equal up to integer
   width and bucket order, except that a map over a list has become the only element of a list.
   */
  ghost predicate Corresponds(before: Option<Value>, wire: Value, mem: Value) {
    Abs(wire) == if before.Some? && before.value.Array? && mem.Map? then AArray([Abs(mem)]) else Abs(mem)
  }

  /** Two chains with the same keys in the same order and corresponding values. */
  ghost predicate AlikeChain(c: Chain, c': Chain, t0: Table)
    requires |t0| == HASHMAP_TABLE_SIZE
    decreases c
  {
    if c.End? || c'.End? then c == c'
    else c.key == c'.key && Corresponds(Get(t0, c.key), c.value, c'.value) && AlikeChain(c.next, c'.next, t0)
  }

  ghost predicate Alike(t: Table, t': Table, t0: Table) {
    && |t| == |t'| == |t0| == HASHMAP_TABLE_SIZE
    && forall b :: 0 <= b < |t| ==> AlikeChain(t[b], t'[b], t0)
  }

  lemma {:induction false} AlikeWalk(c: Chain, c': Chain, t0: Table, key: nat, loopCount: nat)
    requires |t0| == HASHMAP_TABLE_SIZE && AlikeChain(c, c', t0)
    ensures WalkFrom(c, key, loopCount) == WalkFrom(c', key, loopCount)
    ensures Find(c, key).Some? <==> Find(c', key).Some?
    ensures Find(c, key).Some? ==> Corresponds(Get(t0, key), Find(c, key).value, Find(c', key).value)
  {
    if c.Object? {
      AlikeWalk(c.next, c'.next, t0, key, loopCount + 1);
    }
  }

  lemma {:induction false} AlikeEdit(c: Chain, c': Chain, t0: Table, key: nat, v: Value, v': Value)
    requires |t0| == HASHMAP_TABLE_SIZE && AlikeChain(c, c', t0)
    ensures AlikeChain(Remove(c, key), Remove(c', key), t0)
    ensures Corresponds(Get(t0, key), v, v') ==> AlikeChain(Replace(c, key, v), Replace(c', key, v'), t0)
  {
    hide Corresponds, Get;
    if c.Object? {
      AlikeEdit(c.next, c'.next, t0, key, v, v');
    }
  }

  lemma {:induction false} AlikeSelf(c: Chain, t0: Table, b: nat)
    requires WellPlaced(t0) && b < |t0| && forall k :: k in Keys(c) ==> HashKey(k) == b
    requires Distinct(c) && forall k :: k in Keys(c) ==> Find(t0[b], k) == Find(c, k)
    ensures AlikeChain(c, c, t0)
  {
    if c.Object? {
      assert Find(t0[b], c.key) == Find(c, c.key) == Some(c.value);
      forall k | k in Keys(c.next)
        ensures Find(t0[b], k) == Find(c.next, k)
      {
        assert k in Keys(c) && k != c.key;
      }
      AlikeSelf(c.next, t0, b);
    }
  }

  /** One operation, over the wire and in memory, on a SID that still holds what it held at the start. */
  lemma AlikeStep(t: Table, t': Table, t0: Table, sid: nat, v: Value)
    requires Alike(t, t', t0) && Encodable(v) && Get(t, sid) == Get(t0, sid)
    ensures Alike(ApplySid(t, sid, Turned(v)), MemSid(t', sid, v), t0)
  {
    hide Abs, Turned, Encodable;
    var h := HashKey(sid);
    assert AlikeChain(t[h], t'[h], t0);
    AlikeWalk(t[h], t'[h], t0, sid, 0);
    TurnedKind(v);
    var stored := Stored(Get(t, sid), Turned(v));
    StoredCorresponds(Get(t0, sid), v);
    AlikeEdit(t[h], t'[h], t0, sid, stored, v);
  }

  lemma TurnedKind(v: Value)
    ensures Turned(v).Null? == v.Null? && Turned(v).Map? == v.Map?
  {
  }

  lemma StoredCorresponds(before: Option<Value>, v: Value)
    requires Encodable(v)
    ensures Corresponds(before, Stored(before, Turned(v)), v)
  {
    TurnedKind(v);
    TurnedIsSame(v);
    var w := Turned(v);
    assert Abs(Array([w])).elems == [Abs(w)];
  }

  ghost predicate EncodableOps(ops: Ops) {
    forall i :: 0 <= i < |ops| ==> Encodable(ops[i].1)
  }

  lemma {:induction false} AlikeOps(t: Table, t': Table, t0: Table, ops: Ops)
    requires Alike(t, t', t0) && WellPlaced(t) && NamesOnce(ops) && EncodableOps(ops)
    requires forall i :: 0 <= i < |ops| ==> Get(t, ops[i].0) == Get(t0, ops[i].0)
    ensures Alike(ApplyOps(t, TurnedOps(ops)), MemOps(t', ops), t0)
    decreases |ops|
  {
    hide AlikeChain, Abs, Turned, Encodable, ApplySid, MemSid, Get, InBucket;
    if ops != [] {
      var (sid, v) := ops[0];
      var t1 := ApplySid(t, sid, Turned(v));
      AlikeStep(t, t', t0, sid, v);
      ApplySidPlaced(t, sid, Turned(v));
      forall i | 0 <= i < |ops[1..]|
        ensures Get(t1, ops[1..][i].0) == Get(t0, ops[1..][i].0)
      {
        ApplySidFrame(t, sid, Turned(v), ops[i + 1].0);
      }
      assert TurnedOps(ops)[1..] == TurnedOps(ops[1..]);
      AlikeOps(t1, MemSid(t', sid, v), t0, ops[1..]);
    }
  }

  lemma {:induction false} ChainOpsEncodable(c: Chain)
    requires EncodableChain(c)
    ensures EncodableOps(ChainOps(c))
  {
    if c.Object? {
      ChainOpsEncodable(c.next);
    }
  }

  lemma {:induction false} TableOpsEncodable(p: Table, i: nat)
    requires i <= |p| && forall j :: 0 <= j < |p| ==> EncodableChain(p[j])
    ensures EncodableOps(TableOps(p, i))
    decreases |p| - i
  {
    if i < |p| {
      ChainOpsEncodable(p[i]);
      TableOpsEncodable(p, i + 1);
    }
  }

  lemma AlikeToItself(t: Table)
    requires WellPlaced(t)
    ensures Alike(t, t, t)
  {
    forall b: nat | b < |t|
      ensures AlikeChain(t[b], t[b], t)
    {
      assert InBucket(t[b], b);
      AlikeSelf(t[b], t, b);
    }
  }

  /**
   Sent over the wire or applied in memory, a SID-keyed patch leaves the same SIDs bound, refused inserts
   included, to corresponding values; SIDs it does not name keep theirs, and every entry is counted.
   */
  lemma WireMatchesMemory(t: Table, patch: Table, sid: nat)
    requires WellPlaced(t) && Encodable(Value.Map(patch))
    requires forall j :: 0 <= j < |patch| ==> FitsChain(patch[j], 0, VALUE_BACKUPS)
    ensures var r := ApplyPairs(t, TableItems(patch, 0), 0); var mem := MemOps(t, TableOps(patch, 0));
      && r.1 == Entries(patch, 0)
      && (Get(r.0, sid).Some? <==> Get(mem, sid).Some?)
      && (Get(r.0, sid).Some? ==> Corresponds(Get(t, sid), Get(r.0, sid).value, Get(mem, sid).value))
      && (sid !in Sids(TableOps(patch, 0)) ==> Get(r.0, sid) == Get(t, sid))
  {
    hide Encodable, Abs, Alike, InBucket, ApplyPairs, Decodable;
    var ops := TableOps(patch, 0);
    PatchParts(patch);
    TableWireOps(patch, 0, VALUE_BACKUPS);
    TableDecodable(patch, 0, 0, VALUE_BACKUPS);
    PairsSidKeyed(TableItems(patch, 0), 0, VALUE_BACKUPS);
    PairsAreOps(t, TableItems(patch, 0), 0);
    TableOpsNamesOnce(patch, 0);
    TableOpsEncodable(patch, 0);
    AlikeToItself(t);
    AlikeOps(t, t, t, ops);
    AlikeGet(ApplyOps(t, TurnedOps(ops)), MemOps(t, ops), t, sid);
    if sid !in Sids(ops) {
      SidsCover(ops);
      ApplyOpsFrame(t, TurnedOps(ops), sid);
    }
  }

  lemma PairsSidKeyed(items: seq<Item>, indent: nat, backups: nat)
    requires Pairs(items, indent, backups)
    ensures SidKeyed(items)
  {
    hide Decodable;
  }

  lemma PatchParts(patch: Table)
    requires Encodable(Value.Map(patch))
    ensures WellPlaced(patch) && |patch| == HASHMAP_TABLE_SIZE
    ensures forall j :: 0 <= j < |patch| ==> EncodableChain(patch[j])
  {
  }

  lemma AlikeGet(t: Table, t': Table, t0: Table, sid: nat)
    requires Alike(t, t', t0)
    ensures Get(t, sid).Some? <==> Get(t', sid).Some?
    ensures Get(t, sid).Some? ==> Corresponds(Get(t0, sid), Get(t, sid).value, Get(t', sid).value)
  {
    AlikeWalk(t[HashKey(sid)], t'[HashKey(sid)], t0, sid, 0);
  }

  lemma {:induction false} SidsCover(ops: Ops)
    ensures forall i :: 0 <= i < |ops| ==> ops[i].0 in Sids(ops)
  {
    if ops != [] {
      SidsCover(ops[1..]);
      assert forall i :: 0 < i < |ops| ==> ops[i] == ops[1..][i - 1];
    }
  }

  // ---------------------------------------------------------------- client and server together

  /**
   Writes the patch as one map, giving up with 0 at the first write that is reported to fail. Where no value holds a
   map, whose dropped entries go unreported, that is exactly when the request does not fit.
   */
  method CreateIpatchRequest(buf: array<byte>, patch: Table) returns (n: nat)
    requires Encodable(Value.Map(patch))
    modifies buf
    ensures n <= buf.Length
    ensures |Encode(Value.Map(patch))| <= buf.Length ==> n > 0 && buf[..n] == Encode(Value.Map(patch))
    ensures n > 0 && Printer.FirmTable(patch) ==> buf[..n] == Encode(Value.Map(patch))
  {
    hide Printer.FirmTable;
    PatchParts(patch);
    var e := new Encoder(buf, 0);
    ghost var fits, body := |Encode(Value.Map(patch))| <= buf.Length, EncodeTable(patch, 0);
    var ok := e.HeaderByte(5, 31);
    if !ok {
      return 0;
    }
    ok := WriteEntries(e, patch, fits);
    if !ok {
      return 0;
    }
    ok := e.HeaderByte(7, 31);
    if !ok {
      return 0;
    }
    n := e.payload;
  }

  method WriteEntries(e: Encoder, patch: Table, ghost fits: bool) returns (ok: bool)
    requires e.Valid() && forall j :: 0 <= j < |patch| ==> EncodableChain(patch[j])
    requires fits ==> e.Room(|EncodeTable(patch, 0)|)
    modifies e, e.buf
    ensures e.Valid() && (fits ==> ok)
    ensures fits || (ok && Printer.FirmTable(patch)) ==> e.Written() == old(e.Written()) + EncodeTable(patch, 0)
  {
    hide Encode, EncodeChain, EncodableChain, Printer.FirmChain;
    ghost var total := e.Written() + EncodeTable(patch, 0);
    var i := 0;
    while i < |patch|
      invariant i <= |patch| && e.Valid()
      invariant fits ==> e.Room(|EncodeTable(patch, i)|)
      invariant fits || Printer.FirmTable(patch) ==> e.Written() + EncodeTable(patch, i) == total
    {
      ok := WriteChain(e, patch[i], fits);
      if !ok {
        return;
      }
      i := i + 1;
    }
    ok := true;
  }

  method WriteChain(e: Encoder, c: Chain, ghost fits: bool) returns (ok: bool)
    requires e.Valid() && EncodableChain(c) && (fits ==> e.Room(|EncodeChain(c)|))
    modifies e, e.buf
    ensures e.Valid() && (fits ==> ok)
    ensures fits || (ok && Printer.FirmChain(c)) ==> e.Written() == old(e.Written()) + EncodeChain(c)
  {
    hide Encode, Encodable, Head, Printer.Firm;
    ghost var total := e.Written() + EncodeChain(c);
    var current := c;
    while current.Object?
      invariant e.Valid() && EncodableChain(current) && (Printer.FirmChain(c) ==> Printer.FirmChain(current))
      invariant fits ==> e.Room(|EncodeChain(current)|)
      invariant fits || Printer.FirmChain(c) ==> e.Written() + EncodeChain(current) == total
      decreases current
    {
      ok := WriteObject(e, current.key, current.value, fits);
      if !ok {
        return;
      }
      current := current.next;
    }
    ok := true;
  }

  method WriteObject(e: Encoder, key: nat, value: Value, ghost fits: bool) returns (ok: bool)
    requires e.Valid() && key < TWO_64 && Encodable(value)
    requires fits ==> e.Room(|Head(0, Shortest(key), key) + Encode(value)|)
    modifies e, e.buf
    ensures e.Valid() && (fits ==> ok)
    ensures fits || (ok && Printer.Firm(value)) ==>
      e.Written() == old(e.Written()) + (Head(0, Shortest(key), key) + Encode(value))
  {
    hide Encode, Encodable, Head, Printer.Firm, Printer.Attempt;
    Powers();
    ShortestIsShortest(0, key, Shortest(key));
    ok := e.UintPut(key, 8);
    if !ok {
      return;
    }
    ghost var room := Printer.Left(e);
    if fits {
      Printer.RoomIsEnough(value, room);
    }
    ok := Printer.CoreconfToCbor(e, value);
    if ok && Printer.Firm(value) {
      Printer.FirmIsWhole(value, room);
    }
  }

  /** The request is one patch map keyed by SIDs. */
  lemma RequestIsPatchMap(patch: Table)
    requires Encodable(Value.Map(patch))
    requires forall j :: 0 <= j < |patch| ==> FitsChain(patch[j], 0, VALUE_BACKUPS)
    ensures var it := ItemOf(Value.Map(patch));
      IsPatchMap(it) && it.items == TableItems(patch, 0) && Wire(it) == Encode(Value.Map(patch))
  {
    hide Decodable, FitsChain, Wire;
    PatchParts(patch);
    EncodeIsWire(Value.Map(patch));
    TableDecodable(patch, 0, 0, VALUE_BACKUPS);
  }

  /**
   A request names each SID once, so repeating it changes nothing exactly if no write of it is refused by a full
   bucket in which a later deletion of the same request makes room.
   */
  lemma RequestIdempotentIff(t: Table, patch: Table)
    requires WellPlaced(t) && Encodable(Value.Map(patch))
    requires forall j :: 0 <= j < |patch| ==> FitsChain(patch[j], 0, VALUE_BACKUPS)
    ensures var items, ops := TableItems(patch, 0), TurnedOps(TableOps(patch, 0));
      var once := ApplyPairs(t, items, 0).0; var twice := ApplyPairs(once, items, 0).0;
      && WellPlaced(once) && WellPlaced(twice)
      && (Contents(twice) == Contents(once) <==> forall i :: 0 <= i < |ops| ==> !RoomTooLate(t, ops, i))
  {
    hide Encodable, ApplyPairs, Decodable, RoomTooLate, ApplyOps, Contents, Turned, FitsChain;
    PatchParts(patch);
    var items, ops := TableItems(patch, 0), TurnedOps(TableOps(patch, 0));
    TableWireOps(patch, 0, VALUE_BACKUPS);
    TableDecodable(patch, 0, 0, VALUE_BACKUPS);
    PairsSidKeyed(items, 0, VALUE_BACKUPS);
    PairsAreOps(t, items, 0);
    PairsAreOps(ApplyOps(t, ops), items, 0);
    TableOpsNamesOnce(patch, 0);
    OnceNamedIdempotentIff(t, ops);
  }

  /** Values may nest 5 deep: eight states leave six backups, and the patch map takes one. */
  lemma FiveDeepFits(patch: Table)
    requires forall j :: 0 <= j < |patch| ==> NestsChain(patch[j], 5)
    ensures forall j :: 0 <= j < |patch| ==> FitsChain(patch[j], 0, VALUE_BACKUPS)
  {
    forall j | 0 <= j < |patch|
      ensures FitsChain(patch[j], 0, VALUE_BACKUPS)
    {
      ChainNestingFits(patch[j], 5, 0, VALUE_BACKUPS);
    }
  }

  /** A patch sent by a client and applied by a server. */
  method SendPatch(store: ChainedMap, patch: Table, buf: array<byte>) returns (count: int)
    requires store.Valid() && Encodable(Value.Map(patch)) && |Encode(Value.Map(patch))| <= buf.Length <= HALF_SIZE_MAX
    requires forall j :: 0 <= j < |patch| ==> FitsChain(patch[j], 0, VALUE_BACKUPS)
    modifies store, store.table, buf
    ensures store.Valid() && count == Entries(patch, 0)
    ensures forall sid: nat ::
      var before := Get(old(store.Chains()), sid); var after := Get(store.Chains(), sid);
      var mem := Get(MemOps(old(store.Chains()), TableOps(patch, 0)), sid);
      && (after.Some? <==> mem.Some?) && (after.Some? ==> Corresponds(before, after.value, mem.value))
      && (sid !in Sids(TableOps(patch, 0)) ==> after == before)
  {
    hide Encode, IsPatchMap, ItemOf, TableItems, Contents, ApplyPairs, Wire, WellFormed, Encodable, FitsChain;
    hide Corresponds;
    ghost var t, it := store.Chains(), ItemOf(Value.Map(patch));
    var n := CreateIpatchRequest(buf, patch);
    RequestIsPatchMap(patch);
    OneMapPayload(buf[..n], it);
    var stuck;
    count, stuck := ApplyIpatchRaw(store, buf[..n], Some([it]));
    PatchMapWellFormed(it);
    OneMapApplies(t, it);
    forall sid: nat
      ensures var before := Get(t, sid); var after := Get(store.Chains(), sid);
        var mem := Get(MemOps(t, TableOps(patch, 0)), sid);
        && count == Entries(patch, 0)
        && (after.Some? <==> mem.Some?) && (after.Some? ==> Corresponds(before, after.value, mem.value))
        && (sid !in Sids(TableOps(patch, 0)) ==> after == before)
    {
      WireMatchesMemory(t, patch, sid);
    }
    WireMatchesMemory(t, patch, 0);
  }

  lemma OneMapPayload(data: seq<byte>, it: Item)
    requires IsPatchMap(it) && data == Wire(it)
    ensures Pending(data, 0, [it], 0, |data|) && ArePatchMaps([it])
  {
    hide IsPatchMap, Wire;
    assert WellFormed(it) by {
      PatchMapWellFormed(it);
    }
    assert WireFrom([it], 0) == Wire(it) + WireFrom([it], 1);
    assert data[0..|data|] == data;
  }

  lemma PatchMapWellFormed(it: Item)
    requires IsPatchMap(it)
    ensures WellFormed(it) && it.Map?
  {
  }

  lemma OneMapApplies(t: Table, it: Item)
    requires |t| == HASHMAP_TABLE_SIZE && it.Map?
    ensures ApplyMaps(t, [it], 0) == ApplyPairs(t, it.items, 0)
  {
  }
}
