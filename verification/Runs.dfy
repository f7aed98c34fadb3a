/** Whole runs of the two tables, each matched step by step with a run of a finite map. */
module Runs {
  import opened Wrappers
  import opened Basics
  import RobinHood
  import opened HashTable
  import opened Values
  import opened ChainedMaps

  // ---------------------------------------------------------------- the Robin Hood table

  /** A call, with the answer that the allocator gives if the call asks it for memory. */
  datatype Call<K, V> =
    | Set(key: K, value: V, granted: bool)
    | Get(key: K)
    | Delete(key: K, granted: bool)
    | Clear(updateCap: bool, granted: bool)

  /** The item a call returns, and whether it raised `oom`. */
  datatype Reply<V> = Reply(item: Option<V>, oom: bool)

  /** What a call does to the finite map `m`; only a set that was denied memory may be refused. */
  ghost predicate Answers<K, V>(m: map<K, V>, call: Call<K, V>, reply: Reply<V>, m': map<K, V>) {
    match call
    case Set(k, v, granted) =>
      if reply.oom then !granted && reply.item == None && m' == m
      else reply.item == Binding(m, k) && m' == m[k := v]
    case Get(k) => reply == Reply(Binding(m, k), false) && m' == m
    case Delete(k, _) => reply == Reply(Binding(m, k), false) && m' == m - {k}
    case Clear(_, _) => reply == Reply(None, false) && m' == map[]
  }

  /** The thresholds leave a vacancy, and no probe distance exceeds the number of keys. */
  ghost predicate Roomy<K, V>(table: HashMap<K, V>)
    reads table, table.buckets
  {
    && table.count == |table.Contents| <= table.growat < table.nbuckets <= table.buckets.Length
    && (exists i :: 0 <= i < table.nbuckets && table.buckets[i].Vacant?)
    && (forall i :: 0 <= i < table.nbuckets && table.buckets[i].Entry? ==> 1 <= table.buckets[i].dib <= table.count)
  }

  lemma ValidIsRoomy<K, V>(table: HashMap<K, V>)
    requires table.Valid()
    ensures Roomy(table)
  {
    var s := table.buckets[..table.nbuckets];
    var q := RobinHood.VacancyExists(s, table.Contents);
    assert table.buckets[q].Vacant?;
    forall i | 0 <= i < table.nbuckets && table.buckets[i].Entry?
      ensures 1 <= table.buckets[i].dib <= table.count
    {
      assert s[i] == table.buckets[i];
      RobinHood.DibWithinCount(s, table.hash, table.Contents, i);
    }
  }

  /** The keys in a table that held `ks`, after the first `n` calls, if no set among them is refused. */
  ghost function Live<K, V>(ks: set<K>, calls: seq<Call<K, V>>, n: nat): set<K>
    requires n <= |calls|
  {
    if n == 0 then ks
    else
      match calls[n - 1]
      case Set(k, _, _) => Live(ks, calls, n - 1) + {k}
      case Get(_) => Live(ks, calls, n - 1)
      case Delete(k, _) => Live(ks, calls, n - 1) - {k}
      case Clear(_, _) => {}
  }

  /** There are never more keys than the 16-bit probe distance can count. */
  ghost predicate Countable<K, V>(ks: set<K>, calls: seq<Call<K, V>>) {
    forall n :: 0 <= n <= |calls| ==> |Live(ks, calls, n)| <= 65535
  }

  method Perform<K(==), V>(table: HashMap<K, V>, call: Call<K, V>) returns (reply: Reply<V>)
    requires table.Valid()
    requires call.Set? ==> |table.Contents.Keys + {call.key}| <= 65535
    modifies table, table.buckets
    ensures table.Valid() && (table.buckets == old(table.buckets) || fresh(table.buckets))
    ensures Answers(old(table.Contents), call, reply, table.Contents)
  {
    hide RobinHood.Represents, Tuned;
    match call
    case Set(k, v, granted) =>
      assert k !in table.Contents ==> |table.Contents.Keys + {k}| == table.count + 1;
      var item := table.Set(k, v, granted);
      reply := Reply(item, table.oom);
    case Get(k) =>
      var item := table.Get(k);
      reply := Reply(item, false);
    case Delete(k, granted) =>
      var item := table.Delete(k, granted);
      reply := Reply(item, table.oom);
    case Clear(updateCap, granted) =>
      table.Clear(updateCap, granted);
      reply := Reply(None, false);
  }

  /**
   Any run from any valid table that never has more than 65535 keys: `trace` lists the finite maps between the
   calls, and every reply is the one the finite map gives.
   */
  method Run<K(==), V>(table: HashMap<K, V>, calls: seq<Call<K, V>>)
    returns (replies: seq<Reply<V>>, ghost trace: seq<map<K, V>>)
    requires table.Valid() && Countable(table.Contents.Keys, calls)
    modifies table, table.buckets
    ensures table.Valid() && Roomy(table)
    ensures |replies| == |calls| && |trace| == |calls| + 1
    ensures trace[0] == old(table.Contents) && trace[|calls|] == table.Contents
    ensures forall i :: 0 <= i < |calls| ==> Answers(trace[i], calls[i], replies[i], trace[i + 1])
  {
    hide Answers, RobinHood.Represents, Tuned, Roomy, Live, Countable, HashMap.Valid;
    replies, trace := [], [table.Contents];
    ghost var ks := table.Contents.Keys;
    LiveAtFirst(ks, calls);
    for n := 0 to |calls|
      invariant table.Valid() && (table.buckets == old(table.buckets) || fresh(table.buckets))
      invariant |replies| == n && |trace| == n + 1 && trace[0] == old(table.Contents) && trace[n] == table.Contents
      invariant table.Contents.Keys <= Live(ks, calls, n)
      invariant forall i :: 0 <= i < n ==> Answers(trace[i], calls[i], replies[i], trace[i + 1])
    {
      ghost var m := table.Contents;
      StaysLive(m, ks, calls, n);
      var reply := Perform(table, calls[n]);
      AnswerIsLive(m, ks, calls, n, reply, table.Contents);
      replies, trace := replies + [reply], trace + [table.Contents];
    }
    ValidIsRoomy(table);
  }

  lemma LiveAtFirst<K, V>(ks: set<K>, calls: seq<Call<K, V>>)
    ensures Live(ks, calls, 0) == ks
  {
  }

  lemma StaysLive<K, V>(m: map<K, V>, ks: set<K>, calls: seq<Call<K, V>>, n: nat)
    requires n < |calls| && m.Keys <= Live(ks, calls, n) && Countable(ks, calls)
    ensures calls[n].Set? ==> |m.Keys + {calls[n].key}| <= 65535
  {
    if calls[n].Set? {
      SubsetIsNoLarger(m.Keys + {calls[n].key}, Live(ks, calls, n + 1));
    }
  }

  lemma AnswerIsLive<K, V>(m: map<K, V>, ks: set<K>, calls: seq<Call<K, V>>, n: nat, reply: Reply<V>, m': map<K, V>)
    requires n < |calls| && m.Keys <= Live(ks, calls, n) && Answers(m, calls[n], reply, m')
    ensures m'.Keys <= Live(ks, calls, n + 1)
  {
  }

  // ---------------------------------------------------------------- the chained map

  datatype Edit = Insert(key: nat, value: Value) | Remove(key: nat)

  /**
   What an edit does to the finite map of table `t`: an insert is refused only where its chain is over the
   walk limit, and then nothing changes; a removal fails exactly for an absent key.
   */
  ghost predicate Edits(t: Table, edit: Edit, status: int, t': Table)
    requires WellPlaced(t) && WellPlaced(t')
  {
    match edit
    case Insert(k, v) =>
      || (status == 0 && Contents(t') == Contents(t)[k := v])
      || (status == -1 && t' == t && Length(t[HashKey(k)]) == 52)
    case Remove(k) => status == (if k in Contents(t) then 0 else -1) && Contents(t') == Contents(t) - {k}
  }

  method PerformEdit(m: ChainedMap, edit: Edit) returns (status: int)
    requires m.Valid()
    modifies m, m.table
    ensures m.Valid() && Edits(old(m.Chains()), edit, status, m.Chains())
  {
    match edit
    case Insert(k, v) =>
      ghost var t := m.Chains();
      assert InBucket(t[HashKey(k)], HashKey(k));
      PutBinds(t, k, v);
      status := m.Insert(k, v);
    case Remove(k) =>
      status := m.Remove(k);
  }

  /** Any run of edits: keys stay in their own bucket without duplicates, and `size` is the number of keys. */
  method RunEdits(m: ChainedMap, edits: seq<Edit>) returns (statuses: seq<int>, ghost trace: seq<Table>)
    requires m.Valid()
    modifies m, m.table
    ensures m.Valid() && m.size == |Contents(m.Chains())|
    ensures |statuses| == |edits| && |trace| == |edits| + 1
    ensures trace[0] == old(m.Chains()) && trace[|edits|] == m.Chains()
    ensures forall i :: 0 <= i < |trace| ==> WellPlaced(trace[i])
    ensures forall i, b :: 0 <= i < |trace| && 0 <= b < |trace[i]| ==> Length(trace[i][b]) <= 52
    ensures forall i :: 0 <= i < |edits| ==> Edits(trace[i], edits[i], statuses[i], trace[i + 1])
  {
    hide Edits, WellPlaced, Contents;
    statuses, trace := [], [m.Chains()];
    for n := 0 to |edits|
      invariant m.Valid() && |statuses| == n && |trace| == n + 1
      invariant trace[0] == old(m.Chains()) && trace[n] == m.Chains()
      invariant forall i :: 0 <= i <= n ==> WellPlaced(trace[i])
      invariant forall i :: 0 <= i < n ==> Edits(trace[i], edits[i], statuses[i], trace[i + 1])
    {
      var status := PerformEdit(m, edits[n]);
      statuses, trace := statuses + [status], trace + [m.Chains()];
    }
    forall i, b | 0 <= i < |trace| && 0 <= b < |trace[i]|
      ensures Length(trace[i][b]) <= 52
    {
      PlacedIsShort(trace[i], b);
    }
  }

  lemma PlacedIsShort(t: Table, b: nat)
    requires WellPlaced(t) && b < |t|
    ensures Length(t[b]) <= 52
  {
    assert InBucket(t[b], b);
  }
}
