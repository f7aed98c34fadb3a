/** `apply_ipatch_raw`: a sequence of CBOR maps applied to the datastore entry by entry. */
module Patch {
  import opened Wrappers
  import opened Basics
  import opened Heads
  import opened Items
  import opened Skipping
  import opened Values
  import opened ChainedMaps
  import opened RoundTrip
  import opened Reading
  import opened Decoders
  import opened Parser
  import opened PatchTheory

  /** Eight zcbor states leave six backups: one for the patch map, five for its keys and values. */
  const N_STATES: nat := 8
  const VALUE_BACKUPS: nat := 5

  // ---------------------------------------------------------------- what a patch map means

  /** The key is copied into a 128-byte C string. */
  function KeyString(bs: seq<byte>): seq<byte> {
    CString(bs[..Min(|bs|, 127)])
  }

  /** A key of at most 127 bytes is searched for as it is, up to a NUL; of a longer one the first 127 bytes count. */
  lemma KeyStringIs(bs: seq<byte>)
    ensures IsCString(bs[..if |bs| < 127 then |bs| else 127], KeyString(bs))
    ensures |bs| <= 127 && 0 !in bs ==> KeyString(bs) == bs
  {
    CStringEndsAtNul(bs[..Min(|bs|, 127)]);
    if |bs| <= 127 && 0 !in bs {
      assert bs[..Min(|bs|, 127)] == bs;
      CStringOfNulFree(bs);
    }
  }

  predicate IsInstanceKey(it: Item) {
    it.List? && |it.items| == 2 && it.items[0].Uint? && it.items[1].Tstr?
  }

  ghost predicate IsPatchMap(it: Item) {
    && WellFormed(it) && it.Map? && |it.items| % 2 == 0
    && forall i :: 0 <= i < |it.items| ==>
      if i % 2 == 0 then it.items[i].Uint? || IsInstanceKey(it.items[i]) else Decodable(it.items[i], 0, VALUE_BACKUPS)
  }

  ghost predicate ArePatchMaps(maps: seq<Item>) {
    forall j :: 0 <= j < |maps| ==> IsPatchMap(maps[j])
  }

  ghost function ApplyPair(t: Table, key: Item, v: Value): (r: (Table, nat))
    requires |t| == HASHMAP_TABLE_SIZE
    ensures |r.0| == |t|
  {
    if key.Uint? then (ApplySid(t, key.n, v), 1)
    else if IsInstanceKey(key) then
      var (t', counted) := ApplyInstance(t, key.items[0].n, KeyString(key.items[1].bytes), v);
      (t', if counted then 1 else 0)
    else (t, 0)
  }

  /** The table and the count after the pairs of one map from index `i` on. */
  ghost function ApplyPairs(t: Table, items: seq<Item>, i: nat): (r: (Table, nat))
    requires |t| == HASHMAP_TABLE_SIZE
    ensures |r.0| == |t|
    decreases |items| - i
  {
    if i + 1 >= |items| then (t, 0)
    else
      var (t1, n1) := ApplyPair(t, items[i], Meaning(items[i + 1]));
      var (t2, n2) := ApplyPairs(t1, items, i + 2);
      (t2, n1 + n2)
  }

  /** The same for a sequence of maps. */
  ghost function ApplyMaps(t: Table, maps: seq<Item>, j: nat): (r: (Table, nat))
    requires |t| == HASHMAP_TABLE_SIZE
    ensures |r.0| == |t|
    decreases |maps| - j
  {
    if j >= |maps| then (t, 0)
    else
      var (t1, n1) := ApplyPairs(t, if maps[j].Map? then maps[j].items else [], 0);
      var (t2, n2) := ApplyMaps(t1, maps, j + 1);
      (t2, n1 + n2)
  }

  // ---------------------------------------------------------------- searching and editing lists

  method FindListEntryByKey(es: seq<Value>, key: seq<byte>) returns (index: int)
    ensures FindEntry(es, key, 0) == if index >= 0 then Some(index) else None
  {
    var i := 0;
    while i < |es|
      invariant i <= |es| && FindEntry(es, key, 0) == FindEntry(es, key, i)
    {
      if es[i].Map? {
        var t, b := es[i].table, 0;
        while b < |t|
          invariant b <= |t| && forall k :: 0 <= k < b ==> !ChainHasString(t[k], key)
        {
          var current := t[b];
          while current.Object?
            invariant ChainHasString(t[b], key) == ChainHasString(current, key)
            decreases current
          {
            if current.value.Str? && current.value.bytes == key {
              assert ChainHasString(t[b], key);
              return i;
            }
            current := current.next;
          }
          b := b + 1;
        }
      }
      i := i + 1;
    }
    index := -1;
  }

  /** Shifts the entries after `index` down by one. */
  method RemoveArrayEntry(a: array<Value>, size: nat, index: nat) returns (newSize: nat)
    requires size <= a.Length
    modifies a
    ensures index >= size ==> newSize == size && a[..size] == old(a[..size])
    ensures index < size ==> newSize == size - 1 && a[..newSize] == Without(old(a[..size]), index)
  {
    if index >= size {
      return size;
    }
    ghost var s := a[..];
    var i := index;
    while i < size - 1
      invariant index <= i <= size - 1
      invariant forall k :: index <= k < i ==> a[k] == s[k + 1]
      invariant forall k :: 0 <= k < index || i <= k < a.Length ==> a[k] == s[k]
    {
      a[i] := a[i + 1];
      i := i + 1;
    }
    newSize := size - 1;
    assert a[..newSize] == Without(s[..size], index);
  }

  /** The list stored at `sid` after one instance entry, written back in place; nothing else changes. */
  method EditInstance(store: ChainedMap, sid: nat, key: seq<byte>, v: Value) returns (counted: bool)
    requires store.Valid()
    modifies store, store.table
    ensures store.Valid()
    ensures (store.Chains(), counted) == ApplyInstance(old(store.Chains()), sid, key, v)
    ensures var before, after := Get(old(store.Chains()), sid), Get(store.Chains(), sid);
      if before.Some? && before.value.Array?
      then counted && after.Some? && after.value.Array? && IsEdited(before.value.elems, after.value.elems, key, v)
      else !counted && after == before
    ensures forall other: nat :: other != sid ==> Get(store.Chains(), other) == Get(old(store.Chains()), other)
  {
    hide IsEdited, ApplyInstance, Get, Contents;
    InstanceIsEdited(store.Chains(), sid, key, v);
    counted := EditStored(store, sid, key, v);
  }

  method EditStored(store: ChainedMap, sid: nat, key: seq<byte>, v: Value) returns (counted: bool)
    requires store.Valid()
    modifies store, store.table
    ensures store.Valid()
    ensures (store.Chains(), counted) == ApplyInstance(old(store.Chains()), sid, key, v)
  {
    hide Contents;
    ghost var t := store.Chains();
    ApplyInstanceBinds(t, sid, key, v);
    GetIsLookup(t, sid);
    var list := store.Lookup(sid);
    if list == None || !list.value.Array? {
      return false;
    }
    var es := list.value.elems;
    var index := FindListEntryByKey(es, key);
    if v.Null? {
      if index >= 0 {
        var a := new Value[|es|](i requires 0 <= i < |es| => es[i]);
        assert a[..|es|] == es;
        var n := RemoveArrayEntry(a, |es|, index);
        es := a[..n];
      }
    } else if index >= 0 {
      es := es[index := v];
    } else {
      es := es + [v];
    }
    var h := HashKey(sid);
    store.table[h] := Replace(store.table[h], sid, Array(es));
    assert store.Chains() == ApplyInstance(t, sid, key, v).0;
    SizeUnchanged(t, sid, Array(es));
    counted := true;
  }

  lemma InstanceIsEdited(t: Table, sid: nat, key: seq<byte>, v: Value)
    requires WellPlaced(t)
    ensures var before, r := Get(t, sid), ApplyInstance(t, sid, key, v); var after := Get(r.0, sid);
      if before.Some? && before.value.Array?
      then r.1 && after.Some? && after.value.Array? && IsEdited(before.value.elems, after.value.elems, key, v)
      else !r.1 && after == before
    ensures forall other: nat :: other != sid ==> Get(ApplyInstance(t, sid, key, v).0, other) == Get(t, other)
  {
    hide Contents, IsEdited, EditList, HashKey;
    var before, r := Get(t, sid), ApplyInstance(t, sid, key, v);
    ApplyInstanceBinds(t, sid, key, v);
    if r.1 {
      EditListEdits(before.value.elems, key, v);
    }
    forall other: nat
      ensures other != sid ==> Get(r.0, other) == Get(t, other)
      ensures r.1 && other == sid ==> Get(r.0, other) == Some(Array(EditList(before.value.elems, key, v)))
    {
      GetIsLookup(t, other);
      GetIsLookup(r.0, other);
    }
  }

  lemma SizeUnchanged(t: Table, sid: nat, v: Value)
    requires WellPlaced(t) && Get(t, sid).Some?
    ensures |Contents(t)[sid := v]| == |Contents(t)|
  {
    GetIsLookup(t, sid);
  }

  // ---------------------------------------------------------------- the patch loop

  /** One SID entry: a null deletes, a map over a list is wrapped, anything else replaces. */
  method ApplySidEntry(store: ChainedMap, sid: nat, v: Value)
    requires store.Valid()
    modifies store, store.table
    ensures store.Valid() && store.Chains() == ApplySid(old(store.Chains()), sid, v)
  {
    hide Contents;
    if v.Null? {
      var _ := store.Remove(sid);
    } else {
      var existing := store.Lookup(sid);
      var stored := v;
      if existing.Some? && existing.value.Array? && v.Map? {
        stored := Array([v]);
      }
      var _ := store.Insert(sid, stored);
    }
  }

  /** The key `[SID, string]` of an instance entry; a malformed one closes the list it opened. */
  method DecodeInstanceKey(d: Decoder, ghost hint: Option<Item>) returns (r: Option<(nat, seq<byte>)>)
    requires d.Valid()
    requires hint.Some? ==> WellFormed(hint.value) && At(d.buf, d.payload, Wire(hint.value)) && d.elemCount > 0
    requires hint.Some? ==> IsInstanceKey(hint.value) && |d.backups| < d.numBackups
    modifies d
    ensures d.Valid() && old(d.payload) <= d.payload
    ensures r.Some? ==> Left(d.buf, d.payload) < old(Left(d.buf, d.payload))
    ensures hint.Some? ==> r == Some((hint.value.items[0].n, KeyString(hint.value.items[1].bytes)))
    ensures hint.Some? ==> var bs := hint.value.items[1].bytes; |bs| <= 127 && 0 !in bs ==> r.value.1 == bs
    ensures hint.Some? ==> Consumed(d, hint.value)
  {
    hide Inside, At, Wire, WellFormed, Opened, Closed, ReadUint, ReadStr, KeyString;
    if hint.Some? {
      KeyStringIs(hint.value.items[1].bytes);
    }
    ghost var outer := d.Now();
    if hint.Some? {
      OpenedInside(d.buf, outer, hint.value, d.numBackups);
    }
    var ok := d.ListStart();
    if !ok {
      return None;
    }
    if hint.Some? {
      InsideStep(d.buf, d.Now(), hint.value, 0, outer);
      ReadsNumber(d.buf, d.payload, hint.value.items[0], d.elemCount);
    }
    var sid := d.UintDecode();
    if sid == None {
      var _ := d.ListMapEnd();
      return None;
    }
    if hint.Some? {
      InsideStep(d.buf, d.Now(), hint.value, 1, outer);
      ReadsString(d.buf, d.payload, hint.value.items[1], d.elemCount);
    }
    var key := d.StrDecode(3);
    if key == None {
      var _ := d.ListMapEnd();
      return None;
    }
    if hint.Some? {
      InsideEnd(d.buf, d.Now(), hint.value, outer);
    }
    ok := d.ListMapEnd();
    r := if ok then Some((sid.value, KeyString(key.value))) else None;
  }

  /** The patch map at hand, with the state before its element `i`. */
  ghost predicate InPatch(d: Decoder, hint: Option<Item>, i: nat, outer: Cursor)
    reads d
  {
    hint.Some? ==>
      && hint.value.Map? && IsPatchMap(hint.value) && Inside(d.buf, d.Now(), hint.value, i, outer)
      && i <= |hint.value.items| && i % 2 == 0
      && outer.backups == [] && d.numBackups == 6
  }

  lemma PatchMapAt(maps: seq<Item>, j: nat)
    requires ArePatchMaps(maps) && j < |maps|
    ensures IsPatchMap(maps[j]) && maps[j].Map? && WellFormed(maps[j])
  {
    hide WellFormed, Decodable;
  }

  lemma PatchPairAt(it: Item, i: nat)
    requires IsPatchMap(it) && i < |it.items| && i % 2 == 0
    ensures i + 1 < |it.items| && Decodable(it.items[i + 1], 0, VALUE_BACKUPS)
    ensures it.items[i].Uint? || IsInstanceKey(it.items[i])
  {
    hide Decodable, WellFormed;
    assert (i + 1) % 2 == 1;
  }

  /** One key and its value. The map is given up on a key or a value that cannot be read. */
  method ApplyEntry(store: ChainedMap, d: Decoder, ghost hint: Option<Item>, ghost i: nat, ghost outer: Cursor)
    returns (go: bool, counted: nat, stuck: bool)
    requires store.Valid() && d.Valid() && InPatch(d, hint, i, outer) && (hint.Some? ==> i < |hint.value.items|)
    modifies store, store.table, d
    ensures store.Valid() && d.Valid() && old(d.payload) <= d.payload
    ensures go && !stuck ==> Left(d.buf, d.payload) < old(Left(d.buf, d.payload))
    ensures hint.Some? ==> go && !stuck && i + 1 < |hint.value.items| && InPatch(d, hint, i + 2, outer)
    ensures hint.Some? ==>
      (store.Chains(), counted) == ApplyPair(old(store.Chains()), hint.value.items[i], Meaning(hint.value.items[i + 1]))
  {
    hide Inside, At, Wire, WellFormed, Decodable, ReadUint, Meaning, ApplySid, ApplyInstance, Contents, IsPatchMap;
    counted, stuck := 0, false;
    ghost var key: Option<Item> := None;
    ghost var value: Option<Item> := None;
    if hint.Some? {
      PatchPairAt(hint.value, i);
      InsideStep(d.buf, d.Now(), hint.value, i, outer);
      InsideBackups(d.buf, d.Now(), hint.value, i, outer);
      HintedMajor(d.buf, d.payload, hint.value.items[i]);
      key, value := Some(hint.value.items[i]), Some(hint.value.items[i + 1]);
    }
    if d.payload >= |d.buf| {
      return false, 0, false;
    }
    var major := d.buf[d.payload] / 32;
    var sid, instance;
    if major == 0 {
      if hint.Some? {
        ReadsNumber(d.buf, d.payload, key.value, d.elemCount);
      }
      var n := d.UintDecode();
      if n == None {
        return false, 0, false;
      }
      sid, instance := n.value, None;
    } else if major == 4 {
      var k := DecodeInstanceKey(d, key);
      if k == None {
        return false, 0, false;
      }
      sid, instance := k.value.0, Some(k.value.1);
    } else {
      return false, 0, false;
    }
    if hint.Some? {
      InsideStep(d.buf, d.Now(), hint.value, i + 1, outer);
      InsideBackups(d.buf, d.Now(), hint.value, i + 1, outer);
    }
    var v;
    v, stuck := CborToCoreconfValue(d, 0, value);
    if stuck || v == None {
      return false, 0, stuck;
    }
    ghost var inside := d.Now();
    counted := StoreEntry(store, sid, instance, v.value);
    assert d.Now() == inside;
    go := true;
  }

  method StoreEntry(store: ChainedMap, sid: nat, instance: Option<seq<byte>>, v: Value) returns (counted: nat)
    requires store.Valid()
    modifies store, store.table
    ensures store.Valid()
    ensures instance == None ==> (store.Chains(), counted) == (ApplySid(old(store.Chains()), sid, v), 1)
    ensures instance.Some? ==> var r := ApplyInstance(old(store.Chains()), sid, instance.value, v);
      (store.Chains(), counted) == (r.0, if r.1 then 1 else 0)
  {
    hide ApplySid, ApplyInstance, Contents;
    if instance == None {
      ApplySidEntry(store, sid, v);
      counted := 1;
    } else {
      var edited := EditInstance(store, sid, instance.value, v);
      counted := if edited then 1 else 0;
    }
  }

  /** One patch map: its pairs until the end or the first one that cannot be read, then its end. */
  method ApplyMap(store: ChainedMap, d: Decoder, ghost hint: Option<Item>)
    returns (started: bool, count: nat, stuck: bool)
    requires store.Valid() && d.Valid() && d.backups == []
    requires hint.Some? ==> IsPatchMap(hint.value) && At(d.buf, d.payload, Wire(hint.value))
    requires hint.Some? ==> d.elemCount > 0 && d.numBackups == 6
    modifies store, store.table, d
    ensures store.Valid() && d.Valid()
    ensures started && !stuck ==> old(d.payload) < d.payload
    ensures hint.Some? ==> started && !stuck && d.payload == old(d.payload) + |Wire(hint.value)|
    ensures hint.Some? ==> (store.Chains(), count) == ApplyPairs(old(store.Chains()), hint.value.items, 0)
  {
    hide Inside, At, Wire, WellFormed, OpenedMap, Closed, ApplyPairs, Contents;
    ghost var outer := d.Now();
    count, stuck := 0, false;
    if hint.Some? {
      OpenedInside(d.buf, outer, hint.value, d.numBackups);
    }
    started := d.MapStart();
    if !started {
      return;
    }
    count, stuck := ApplyEntries(store, d, hint, outer);
    if stuck {
      return;
    }
    if hint.Some? {
      InsideEnd(d.buf, d.Now(), hint.value, outer);
    }
    var _ := d.ListMapEnd();
  }

  method ApplyEntries(store: ChainedMap, d: Decoder, ghost hint: Option<Item>, ghost outer: Cursor)
    returns (count: nat, stuck: bool)
    requires store.Valid() && d.Valid() && InPatch(d, hint, 0, outer)
    modifies store, store.table, d
    ensures store.Valid() && d.Valid() && old(d.payload) <= d.payload
    ensures hint.Some? ==> !stuck && Inside(d.buf, d.Now(), hint.value, |hint.value.items|, outer)
    ensures hint.Some? ==> (store.Chains(), count) == ApplyPairs(old(store.Chains()), hint.value.items, 0)
  {
    hide Inside, ApplyPair, Contents, IsPatchMap, Meaning;
    count, stuck := 0, false;
    ghost var i: nat := 0;
    var go := true;
    var atEnd := d.ArrayAtEnd();
    while !atEnd && go
      invariant store.Valid() && d.Valid() && old(d.payload) <= d.payload && !stuck
      invariant go ==> atEnd == AtEnd(d.buf, d.Now())
      invariant InPatch(d, hint, i, outer) && (hint.Some? ==> go)
      invariant hint.Some? ==> var r := ApplyPairs(store.Chains(), hint.value.items, i);
        (r.0, count + r.1) == ApplyPairs(old(store.Chains()), hint.value.items, 0)
      decreases Left(d.buf, d.payload), !atEnd, go
    {
      if hint.Some? {
        InsideNotYetEnd(d.buf, d.Now(), hint.value, i, outer);
      }
      var counted;
      go, counted, stuck := ApplyEntry(store, d, hint, i, outer);
      if stuck {
        return;
      }
      if go {
        count, i := count + counted, i + 2;
        atEnd := d.ArrayAtEnd();
      }
    }
    if hint.Some? {
      InsideAtEnd(d.buf, d.Now(), hint.value, i, outer);
    }
  }

  /**
   Applies a sequence of patch maps and returns how many entries were applied, or -1 for an empty
   payload. Given the maps the payload consists of, the result and the datastore are exactly theirs.
   */
  method ApplyIpatchRaw(store: ChainedMap, data: seq<byte>, ghost hint: Option<seq<Item>>)
    returns (count: int, stuck: bool)
    requires store.Valid() && |data| <= HALF_SIZE_MAX
    requires hint.Some? ==> |hint.value| > 0 && ArePatchMaps(hint.value)
    requires hint.Some? ==> Pending(data, 0, hint.value, 0, |data|)
    modifies store, store.table
    ensures store.Valid() && (data == [] ==> count == -1 && store.Chains() == old(store.Chains()))
    ensures hint.Some? ==> !stuck && (store.Chains(), count) == ApplyMaps(old(store.Chains()), hint.value, 0)
  {
    hide Wire, WellFormed, ApplyPairs, Contents, IsPatchMap, ArePatchMaps, Pending, At;
    stuck := false;
    if data == [] {
      if hint.Some? {
        NextItem(data, 0, hint.value, 0, |data|);
      }
      return -1, false;
    }
    count := 0;
    var ptr: nat := 0;
    ghost var j: nat := 0;
    while ptr < |data|
      invariant store.Valid() && !stuck && count >= 0
      invariant hint.Some? ==> j <= |hint.value| && Pending(data, ptr, hint.value, j, |data|)
      invariant hint.Some? ==> var r := ApplyMaps(store.Chains(), hint.value, j);
        (r.0, count + r.1) == ApplyMaps(old(store.Chains()), hint.value, 0)
    {
      ghost var one: Option<Item> := None;
      if hint.Some? {
        PendingWellFormed(data, ptr, hint.value, j, |data|);
        NextItem(data, ptr, hint.value, j, |data|);
        PatchMapAt(hint.value, j);
        one := Some(hint.value[j]);
      }
      var d := new Decoder(data, ptr, N_STATES, 1);
      var started, n;
      started, n, stuck := ApplyMap(store, d, one);
      if !started {
        break;
      }
      if stuck {
        return;
      }
      count, ptr, j := count + n, d.payload, j + 1;
    }
    if hint.Some? && j < |hint.value| {
      NextItem(data, ptr, hint.value, j, |data|);
    }
  }
}
