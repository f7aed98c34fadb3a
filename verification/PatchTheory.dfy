/**
 What an iPATCH does to a datastore, as functions on tables: SID entries replace or delete a whole
 binding, instance entries work inside a list, and a map written over a list becomes its only element.
 */
module PatchTheory {
  import opened Wrappers
  import opened Basics
  import opened Heads
  import opened Values

  // ---------------------------------------------------------------- SID entries

  /** The value stored for a SID: a map over a list is wrapped. */
  function Stored(existing: Option<Value>, v: Value): Value {
    if existing.Some? && existing.value.Array? && v.Map? then Array([v]) else v
  }

  function ApplySid(t: Table, sid: nat, v: Value): (t': Table)
    requires |t| == HASHMAP_TABLE_SIZE
    ensures |t'| == |t|
  {
    if v.Null? then Delete(t, sid) else Put(t, sid, Stored(Get(t, sid), v)).0
  }

  /** The same on finite maps, where nothing is ever refused. */
  function Step(m: map<nat, Value>, sid: nat, v: Value): map<nat, Value> {
    if v.Null? then m - {sid}
    else m[sid := Stored(if sid in m then Some(m[sid]) else None, v)]
  }

  type Ops = seq<(nat, Value)>

  function ApplyOps(t: Table, ops: Ops): (t': Table)
    requires |t| == HASHMAP_TABLE_SIZE
    ensures |t'| == |t|
    decreases |ops|
  {
    if ops == [] then t else ApplyOps(ApplySid(t, ops[0].0, ops[0].1), ops[1..])
  }

  function Steps(m: map<nat, Value>, ops: Ops): map<nat, Value>
    decreases |ops|
  {
    if ops == [] then m else Steps(Step(m, ops[0].0, ops[0].1), ops[1..])
  }

  lemma ApplySidPlaced(t: Table, sid: nat, v: Value)
    requires WellPlaced(t)
    ensures WellPlaced(ApplySid(t, sid, v))
    ensures Length(t[HashKey(sid)]) <= 51 || v.Null? ==>
      Contents(ApplySid(t, sid, v)) == Step(Contents(t), sid, v)
  {
    DeleteUnbinds(t, sid);
    PutBinds(t, sid, Stored(Get(t, sid), v));
    GetIsLookup(t, sid);
  }

  /** A SID the operation does not name keeps its value. */
  lemma ApplySidFrame(t: Table, sid: nat, v: Value, other: nat)
    requires WellPlaced(t) && other != sid
    ensures Get(ApplySid(t, sid, v), other) == Get(t, other)
  {
    var h := HashKey(sid);
    var c := t[h];
    assert InBucket(c, h);
    RemoveUnbinds(c, sid, other);
    WalkReports(c, sid, 0);
    if sid in Keys(c) {
      ReplaceBinds(c, sid, Stored(Get(t, sid), v), other);
    }
  }

  lemma {:induction false} ApplyOpsFrame(t: Table, ops: Ops, other: nat)
    requires WellPlaced(t) && forall i :: 0 <= i < |ops| ==> ops[i].0 != other
    ensures WellPlaced(ApplyOps(t, ops)) && Get(ApplyOps(t, ops), other) == Get(t, other)
    decreases |ops|
  {
    if ops != [] {
      ApplySidPlaced(t, ops[0].0, ops[0].1);
      ApplySidFrame(t, ops[0].0, ops[0].1, other);
      ApplyOpsFrame(ApplySid(t, ops[0].0, ops[0].1), ops[1..], other);
    }
  }

  // ---------------------------------------------------------------- idempotence on finite maps

  /** All that a sequence of operations can do to one SID. */
  datatype Effect = Same | Always(result: Option<Value>) | Wraps(v: Value)

  function Act(e: Effect, x: Option<Value>): Option<Value> {
    match e
    case Same => x
    case Always(r) => r
    case Wraps(v) => Some(Stored(x, v))
  }

  /** The effect of one more operation after `e`. */
  function Then(e: Effect, v: Value): Effect {
    if v.Null? then Always(None)
    else if !v.Map? then Always(Some(v))
    else if e.Always? then Always(Some(Stored(e.result, v)))
    else Wraps(v)
  }

  function EffectOn(e: Effect, ops: Ops, sid: nat): Effect
    decreases |ops|
  {
    if ops == [] then e
    else EffectOn(if ops[0].0 == sid then Then(e, ops[0].1) else e, ops[1..], sid)
  }

  predicate Sensible(e: Effect) {
    e.Wraps? ==> e.v.Map?
  }

  lemma {:induction false} StepsAct(m0: map<nat, Value>, e: Effect, m: map<nat, Value>, ops: Ops, sid: nat)
    requires Sensible(e) && Binding(m, sid) == Act(e, Binding(m0, sid))
    ensures Binding(Steps(m, ops), sid) == Act(EffectOn(e, ops, sid), Binding(m0, sid))
    ensures Sensible(EffectOn(e, ops, sid))
    decreases |ops|
  {
    if ops != [] {
      var (k, v) := ops[0];
      var e' := if k == sid then Then(e, v) else e;
      assert Binding(Step(m, k, v), sid) == Act(e', Binding(m0, sid));
      StepsAct(m0, e', Step(m, k, v), ops[1..], sid);
    }
  }

  /** Applying the same operations again changes nothing. */
  lemma StepsIdempotent(m: map<nat, Value>, ops: Ops)
    ensures Steps(Steps(m, ops), ops) == Steps(m, ops)
  {
    var once := Steps(m, ops);
    forall sid: nat
      ensures Binding(Steps(once, ops), sid) == Binding(once, sid)
    {
      StepsAct(m, Same, m, ops, sid);
      StepsAct(once, Same, once, ops, sid);
    }
    MapsLookAlike(Steps(once, ops), once);
  }

  lemma MapsLookAlike(m: map<nat, Value>, m': map<nat, Value>)
    requires forall sid: nat :: Binding(m, sid) == Binding(m', sid)
    ensures m == m'
  {
    assert forall k: nat :: k in m <==> Binding(m, k).Some?;
    assert forall k: nat :: k in m' <==> Binding(m', k).Some?;
    forall k: nat | k in m
      ensures k in m' && m[k] == m'[k]
    {
      assert Binding(m, k) == Binding(m', k);
    }
  }

  // ---------------------------------------------------------------- idempotence on tables

  function Sids(ops: Ops): set<nat> {
    if ops == [] then {} else {ops[0].0} + Sids(ops[1..])
  }

  /** The SIDs of bucket `b` among `ks`. */
  ghost function InBucketOf(ks: set<nat>, b: nat): set<nat> {
    set k | k in ks && HashKey(k) == b
  }

  /** No bucket can outgrow the insert limit, however often the operations are applied. */
  ghost predicate Roomy(t: Table, ops: Ops)
    requires |t| == HASHMAP_TABLE_SIZE
  {
    forall b: nat :: b < |t| ==> |Keys(t[b]) + InBucketOf(Sids(ops), b)| <= 51
  }

  /** The keys of a table are among those of `t0` and `ks`, bucket by bucket. */
  ghost predicate Within(t: Table, t0: Table, ks: set<nat>)
    requires |t| == |t0| == HASHMAP_TABLE_SIZE
  {
    forall b: nat :: b < |t| ==> Keys(t[b]) <= Keys(t0[b]) + InBucketOf(ks, b)
  }

  lemma {:induction false} LengthIsKeys(c: Chain)
    requires Distinct(c)
    ensures Length(c) == |Keys(c)|
  {
    if c.Object? {
      LengthIsKeys(c.next);
    }
  }

  lemma RoomyStep(t: Table, t0: Table, ops: Ops, sid: nat, v: Value)
    requires WellPlaced(t) && WellPlaced(t0) && Within(t, t0, Sids(ops)) && Roomy(t0, ops) && sid in Sids(ops)
    ensures WellPlaced(ApplySid(t, sid, v)) && Within(ApplySid(t, sid, v), t0, Sids(ops))
    ensures Contents(ApplySid(t, sid, v)) == Step(Contents(t), sid, v)
  {
    var h := HashKey(sid);
    assert InBucket(t[h], h);
    LengthIsKeys(t[h]);
    SubsetIsNoLarger(Keys(t[h]), Keys(t0[h]) + InBucketOf(Sids(ops), h));
    ApplySidPlaced(t, sid, v);
    WalkReports(t[h], sid, 0);
  }

  lemma {:induction false} RoomySteps(t: Table, t0: Table, all: Ops, ops: Ops)
    requires WellPlaced(t) && WellPlaced(t0) && Within(t, t0, Sids(all)) && Roomy(t0, all) && Sids(ops) <= Sids(all)
    ensures WellPlaced(ApplyOps(t, ops)) && Within(ApplyOps(t, ops), t0, Sids(all))
    ensures Contents(ApplyOps(t, ops)) == Steps(Contents(t), ops)
    decreases |ops|
  {
    if ops != [] {
      RoomyStep(t, t0, all, ops[0].0, ops[0].1);
      RoomySteps(ApplySid(t, ops[0].0, ops[0].1), t0, all, ops[1..]);
    }
  }

  /** SID-keyed patches are idempotent as long as no bucket is pushed past the insert limit. */
  lemma PatchIdempotent(t: Table, ops: Ops)
    requires WellPlaced(t) && Roomy(t, ops)
    ensures WellPlaced(ApplyOps(t, ops)) && WellPlaced(ApplyOps(ApplyOps(t, ops), ops))
    ensures Contents(ApplyOps(ApplyOps(t, ops), ops)) == Contents(ApplyOps(t, ops))
  {
    RoomySteps(t, t, ops, ops);
    RoomySteps(ApplyOps(t, ops), t, ops, ops);
    StepsIdempotent(Contents(t), ops);
  }

  // ---------------------------------------------------------------- patches that delete nothing

  ghost predicate WritesOnly(ops: Ops) {
    forall i :: 0 <= i < |ops| ==> !ops[i].1.Null?
  }

  /** How an insert of `sid` would end. */
  function WalkOf(t: Table, sid: nat): Walk
    requires |t| == HASHMAP_TABLE_SIZE
  {
    WalkFrom(t[HashKey(sid)], sid, 0)
  }

  lemma {:induction false} ReplaceKeepsWalks(c: Chain, key: nat, v: Value, other: nat, n: nat)
    ensures WalkFrom(Replace(c, key, v), other, n) == WalkFrom(c, other, n)
  {
    if c.Object? && c.key != key && n <= CORECONF_MAX_LOOP {
      ReplaceKeepsWalks(c.next, key, v, other, n + 1);
    }
  }

  /** A write to a SID that is bound or refused leaves every other walk as it was. */
  lemma WriteKeepsWalks(t: Table, sid: nat, v: Value, other: nat)
    requires |t| == HASHMAP_TABLE_SIZE && !v.Null? && !WalkOf(t, sid).Absent?
    ensures WalkOf(ApplySid(t, sid, v), other) == WalkOf(t, other)
  {
    ReplaceKeepsWalks(t[HashKey(sid)], sid, Stored(Get(t, sid), v), other, 0);
  }

  /** Once refused, always refused: the bucket is full, and writes neither lengthen nor shorten it. */
  lemma RefusedStays(t: Table, sid: nat, v: Value, other: nat)
    requires WellPlaced(t) && !v.Null? && WalkOf(t, other).TooFar?
    ensures WalkOf(ApplySid(t, sid, v), other).TooFar? && Get(ApplySid(t, sid, v), other) == Get(t, other)
  {
    WalkReports(t[HashKey(other)], other, 0);
    WalkReports(t[HashKey(sid)], sid, 0);
    if !WalkOf(t, sid).Absent? {
      WriteKeepsWalks(t, sid, v, other);
    }
    if sid != other {
      ApplySidFrame(t, sid, v, other);
    }
  }

  lemma {:induction false} RefusedThroughout(t: Table, ops: Ops, sid: nat)
    requires WellPlaced(t) && WritesOnly(ops) && WalkOf(t, sid).TooFar?
    ensures WalkOf(ApplyOps(t, ops), sid).TooFar? && Get(ApplyOps(t, ops), sid) == Get(t, sid)
    decreases |ops|
  {
    if ops != [] {
      var (k, v) := ops[0];
      ApplySidPlaced(t, k, v);
      RefusedStays(t, k, v, sid);
      RefusedThroughout(ApplySid(t, k, v), ops[1..], sid);
    }
  }

  /** A SID that is not refused in the end never was, and has seen the effect of all its writes. */
  lemma {:induction false} WritesAct(x: Option<Value>, e: Effect, t: Table, ops: Ops, sid: nat)
    requires WellPlaced(t) && WritesOnly(ops) && Sensible(e) && Get(t, sid) == Act(e, x)
    requires !WalkOf(ApplyOps(t, ops), sid).TooFar?
    ensures Get(ApplyOps(t, ops), sid) == Act(EffectOn(e, ops, sid), x) && Sensible(EffectOn(e, ops, sid))
    decreases |ops|
  {
    if ops != [] {
      var (k, v) := ops[0];
      var t' := ApplySid(t, k, v);
      ApplySidPlaced(t, k, v);
      if k != sid {
        ApplySidFrame(t, k, v, sid);
        WritesAct(x, e, t', ops[1..], sid);
      } else {
        assert !WalkOf(t, sid).TooFar? by {
          if WalkOf(t, sid).TooFar? {
            RefusedThroughout(t, ops, sid);
          }
        }
        WriteBinds(t, sid, v);
        WritesAct(x, Then(e, v), t', ops[1..], sid);
      }
    }
  }

  lemma WriteBinds(t: Table, sid: nat, v: Value)
    requires WellPlaced(t) && !v.Null? && !WalkOf(t, sid).TooFar?
    ensures Get(ApplySid(t, sid, v), sid) == Some(Stored(Get(t, sid), v))
    ensures WalkOf(ApplySid(t, sid, v), sid).Found?
  {
    var c := t[HashKey(sid)];
    WalkReports(c, sid, 0);
    if WalkOf(t, sid).Found? {
      ReplaceBinds(c, sid, Stored(Get(t, sid), v), sid);
      ReplaceKeepsWalks(c, sid, Stored(Get(t, sid), v), sid, 0);
    }
  }

  /** After a run of writes each SID named is bound within reach or refused. */
  lemma {:induction false} NamedAreSettled(t: Table, ops: Ops, i: nat)
    requires WellPlaced(t) && WritesOnly(ops) && i < |ops|
    ensures !WalkOf(ApplyOps(t, ops), ops[i].0).Absent?
    decreases |ops|
  {
    var (k, v) := ops[0];
    ApplySidPlaced(t, k, v);
    if i > 0 {
      NamedAreSettled(ApplySid(t, k, v), ops[1..], i - 1);
    } else {
      if !WalkOf(t, k).TooFar? {
        WriteBinds(t, k, v);
      } else {
        RefusedStays(t, k, v, k);
      }
      SettledStays(ApplySid(t, k, v), ops[1..], k);
    }
  }

  lemma {:induction false} SettledStays(t: Table, ops: Ops, sid: nat)
    requires WellPlaced(t) && WritesOnly(ops) && !WalkOf(t, sid).Absent?
    ensures !WalkOf(ApplyOps(t, ops), sid).Absent?
    decreases |ops|
  {
    if ops != [] {
      var (k, v) := ops[0];
      var t' := ApplySid(t, k, v);
      ApplySidPlaced(t, k, v);
      SettledStep(t, k, v, sid);
      SettledStays(t', ops[1..], sid);
    }
  }

  lemma SettledStep(t: Table, k: nat, v: Value, sid: nat)
    requires WellPlaced(t) && !v.Null? && !WalkOf(t, sid).Absent?
    ensures !WalkOf(ApplySid(t, k, v), sid).Absent?
  {
    if !WalkOf(t, k).Absent? {
      WriteKeepsWalks(t, k, v, sid);
    } else if WalkOf(t, sid).TooFar? {
      RefusedStays(t, k, v, sid);
    } else {
      var t' := ApplySid(t, k, v);
      WalkReports(t[HashKey(sid)], sid, 0);
      ApplySidFrame(t, k, v, sid);
      WalkReports(t'[HashKey(sid)], sid, 0);
    }
  }

  /** A second run over settled SIDs changes no walk. */
  lemma {:induction false} SettledRun(t: Table, ops: Ops, sid: nat)
    requires WellPlaced(t) && WritesOnly(ops) && forall i :: 0 <= i < |ops| ==> !WalkOf(t, ops[i].0).Absent?
    ensures WalkOf(ApplyOps(t, ops), sid) == WalkOf(t, sid)
    decreases |ops|
  {
    if ops != [] {
      var (k, v) := ops[0];
      var t' := ApplySid(t, k, v);
      ApplySidPlaced(t, k, v);
      WriteKeepsWalks(t, k, v, sid);
      forall i | 0 <= i < |ops[1..]|
        ensures !WalkOf(t', ops[1..][i].0).Absent?
      {
        WriteKeepsWalks(t, k, v, ops[i + 1].0);
      }
      SettledRun(t', ops[1..], sid);
    }
  }

  lemma {:induction false} OpsPlaced(t: Table, ops: Ops)
    requires WellPlaced(t)
    ensures WellPlaced(ApplyOps(t, ops))
    decreases |ops|
  {
    if ops != [] {
      ApplySidPlaced(t, ops[0].0, ops[0].1);
      OpsPlaced(ApplySid(t, ops[0].0, ops[0].1), ops[1..]);
    }
  }

  /** Patches without deletions are idempotent on every datastore, full buckets included. */
  lemma WritesIdempotent(t: Table, ops: Ops)
    requires WellPlaced(t) && WritesOnly(ops)
    ensures WellPlaced(ApplyOps(t, ops)) && WellPlaced(ApplyOps(ApplyOps(t, ops), ops))
    ensures Contents(ApplyOps(ApplyOps(t, ops), ops)) == Contents(ApplyOps(t, ops))
  {
    hide Contents, ApplyOps, WalkOf, Get;
    var once := ApplyOps(t, ops);
    var twice := ApplyOps(once, ops);
    OpsPlaced(t, ops);
    OpsPlaced(once, ops);
    forall sid: nat
      ensures Get(twice, sid) == Get(once, sid)
    {
      if WalkOf(once, sid).TooFar? {
        RefusedThroughout(once, ops, sid);
      } else {
        forall i | 0 <= i < |ops|
          ensures !WalkOf(once, ops[i].0).Absent?
        {
          NamedAreSettled(t, ops, i);
        }
        SettledRun(once, ops, sid);
        WritesAct(Get(t, sid), Same, t, ops, sid);
        WritesAct(Get(once, sid), Same, once, ops, sid);
      }
    }
    SameContents(twice, once);
  }

  lemma SameContents(t: Table, t': Table)
    requires WellPlaced(t) && WellPlaced(t') && forall sid: nat :: Get(t, sid) == Get(t', sid)
    ensures Contents(t) == Contents(t')
  {
    forall k: nat
      ensures Get(t, k) == if k in Contents(t') then Some(Contents(t')[k]) else None
    {
      GetIsLookup(t', k);
    }
    SameLookups(t, Contents(t'));
  }

  // ---------------------------------------------------------------- patches that name each SID once

  ghost predicate NamesOnce(ops: Ops) {
    forall i, j :: 0 <= i < j < |ops| ==> ops[i].0 != ops[j].0
  }

  /** The table after the first `i` operations. */
  function StateAt(t: Table, ops: Ops, i: nat): (t': Table)
    requires |t| == HASHMAP_TABLE_SIZE && i <= |ops|
    ensures |t'| == |t|
  {
    if i == 0 then t else ApplySid(StateAt(t, ops, i - 1), ops[i - 1].0, ops[i - 1].1)
  }

  lemma {:induction false} StateAtEnd(t: Table, ops: Ops, i: nat)
    requires |t| == HASHMAP_TABLE_SIZE && i <= |ops|
    ensures ApplyOps(StateAt(t, ops, i), ops[i..]) == StateAt(t, ops, |ops|)
    decreases |ops| - i
  {
    hide ApplySid;
    if i < |ops| {
      StateAtEnd(t, ops, i + 1);
      assert ops[i..][0] == ops[i] && ops[i..][1..] == ops[i + 1..];
    }
  }

  lemma {:induction false} StatePlaced(t: Table, ops: Ops, i: nat)
    requires WellPlaced(t) && i <= |ops|
    ensures WellPlaced(StateAt(t, ops, i))
  {
    hide InBucket, ApplySid;
    if i > 0 {
      StatePlaced(t, ops, i - 1);
      ApplySidPlaced(StateAt(t, ops, i - 1), ops[i - 1].0, ops[i - 1].1);
    }
  }

  /** Operations on other SIDs, from `i` to `j`, leave a SID alone. */
  lemma {:induction false} StateFrame(t: Table, ops: Ops, i: nat, j: nat, sid: nat)
    requires WellPlaced(t) && i <= j <= |ops| && forall k :: i <= k < j ==> ops[k].0 != sid
    ensures Get(StateAt(t, ops, j), sid) == Get(StateAt(t, ops, i), sid)
    decreases j
  {
    hide InBucket, ApplySid, Get;
    if i < j {
      StateFrame(t, ops, i, j - 1, sid);
      StatePlaced(t, ops, j - 1);
      ApplySidFrame(StateAt(t, ops, j - 1), ops[j - 1].0, ops[j - 1].1, sid);
    }
  }

  /** Operation `i` is a write that is refused. */
  ghost predicate RefusedAt(t: Table, ops: Ops, i: nat)
    requires |t| == HASHMAP_TABLE_SIZE && i < |ops|
  {
    !ops[i].1.Null? && WalkOf(StateAt(t, ops, i), ops[i].0).TooFar?
  }

  /** Its bucket ends up with room after all, and the write would make a difference there. */
  ghost predicate RoomTooLate(t: Table, ops: Ops, i: nat)
    requires |t| == HASHMAP_TABLE_SIZE && i < |ops|
  {
    var once := ApplyOps(t, ops);
    var (sid, v) := ops[i];
    && RefusedAt(t, ops, i)
    && Length(once[HashKey(sid)]) <= 51
    && Get(once, sid) != Some(Stored(Get(once, sid), v))
  }

  predicate IsLast(c: Chain, key: nat) {
    c.Object? && if c.next.End? then c.key == key else IsLast(c.next, key)
  }

  /** In a chain of at most 52 a key that is there but out of reach is the last one. */
  lemma {:induction false} OutOfReachIsLast(c: Chain, key: nat, n: nat)
    requires WalkFrom(c, key, n).TooFar? && key in Keys(c) && n + Length(c) <= 52
    requires n <= 51
    ensures IsLast(c, key)
  {
    if n <= CORECONF_MAX_LOOP {
      OutOfReachIsLast(c.next, key, n + 1);
    }
  }

  lemma {:induction false} LastIsOutOfReach(c: Chain, key: nat, n: nat)
    requires IsLast(c, key) && Distinct(c) && n + Length(c) > 51
    ensures key in Keys(c) && WalkFrom(c, key, n).TooFar?
  {
    if c.next.Object? {
      LastIsOutOfReach(c.next, key, n + 1);
    }
  }

  lemma {:induction false} LastStays(c: Chain, key: nat, other: nat, v: Value)
    requires IsLast(c, key) && other != key
    ensures IsLast(Remove(c, other), key) && IsLast(Replace(c, other, v), key)
  {
    if c.next.Object? {
      LastStays(c.next, key, other, v);
    }
  }

  lemma {:induction false} LastThroughout(t: Table, ops: Ops, i: nat, j: nat, sid: nat)
    requires WellPlaced(t) && i <= j <= |ops| && IsLast(StateAt(t, ops, i)[HashKey(sid)], sid)
    requires forall k :: i <= k < j ==> ops[k].0 != sid
    ensures IsLast(StateAt(t, ops, j)[HashKey(sid)], sid)
    decreases j
  {
    hide InBucket, HashKey;
    if i < j {
      LastThroughout(t, ops, i, j - 1, sid);
      var u := StateAt(t, ops, j - 1);
      var (k, v) := ops[j - 1];
      if HashKey(k) == HashKey(sid) {
        LastStays(u[HashKey(sid)], sid, k, Stored(Get(u, k), v));
      }
    }
  }

  /** A write that was refused is refused again exactly if its bucket is still full at the end. */
  lemma RefusedAgain(t: Table, ops: Ops, i: nat)
    requires WellPlaced(t) && NamesOnce(ops) && i < |ops| && RefusedAt(t, ops, i)
    ensures var once, sid := StateAt(t, ops, |ops|), ops[i].0;
      WalkOf(once, sid).TooFar? <==> Length(once[HashKey(sid)]) > 51
  {
    hide ApplySid, HashKey;
    var once, sid, u := StateAt(t, ops, |ops|), ops[i].0, StateAt(t, ops, i);
    var b := HashKey(sid);
    StatePlaced(t, ops, i);
    StatePlaced(t, ops, |ops|);
    assert InBucket(u[b], b) && InBucket(once[b], b);
    WalkReports(once[b], sid, 0);
    RefusedIsNoChange(u, sid, ops[i].1);
    if sid in Keys(u[b]) {
      OutOfReachIsLast(u[b], sid, 0);
      LastThroughout(t, ops, i + 1, |ops|, sid);
      if Length(once[b]) > 51 {
        LastIsOutOfReach(once[b], sid, 0);
      }
    } else {
      StateFrame(t, ops, i + 1, |ops|, sid);
    }
  }

  lemma RefusedIsNoChange(t: Table, sid: nat, v: Value)
    requires |t| == HASHMAP_TABLE_SIZE && !v.Null? && WalkOf(t, sid).TooFar?
    ensures ApplySid(t, sid, v) == t
  {
  }

  lemma AbsentIsNoChange(t: Table, sid: nat)
    requires |t| == HASHMAP_TABLE_SIZE && Get(t, sid) == None
    ensures ApplySid(t, sid, Null) == t
  {
    RemoveAbsent(t[HashKey(sid)], sid);
  }

  /** What the first run leaves for the SID of operation `i`. */
  lemma LeftBehind(t: Table, ops: Ops, i: nat)
    requires WellPlaced(t) && NamesOnce(ops) && i < |ops|
    ensures var x := Get(StateAt(t, ops, |ops|), ops[i].0);
      && (ops[i].1.Null? ==> x == None)
      && (!ops[i].1.Null? && !RefusedAt(t, ops, i) ==> x == Some(Stored(x, ops[i].1)))
  {
    hide InBucket, ApplySid;
    var u := StateAt(t, ops, i);
    var (sid, v) := ops[i];
    StatePlaced(t, ops, i);
    StateFrame(t, ops, i + 1, |ops|, sid);
    if v.Null? {
      DeleteForgets(u, sid);
    } else if !RefusedAt(t, ops, i) {
      WriteBinds(u, sid, v);
    }
  }

  /** The last operation that names a SID decides what it is bound to in the end. */
  lemma LastOpDecides(t: Table, ops: Ops, i: nat)
    requires WellPlaced(t) && i < |ops| && forall j :: i < j < |ops| ==> ops[j].0 != ops[i].0
    ensures var (sid, v) := ops[i];
      var before, after := Get(StateAt(t, ops, i), sid), Get(ApplyOps(t, ops), sid);
      && (v.Null? ==> after == None)
      && (RefusedAt(t, ops, i) ==> after == before)
      && (!v.Null? && !RefusedAt(t, ops, i) ==>
            after == Some(if v.Map? && before.Some? && before.value.Array? then Array([v]) else v))
  {
    hide InBucket, ApplySid, ApplyOps;
    var u := StateAt(t, ops, i);
    var (sid, v) := ops[i];
    WholeRun(t, ops);
    StatePlaced(t, ops, i);
    StateFrame(t, ops, i + 1, |ops|, sid);
    if v.Null? {
      DeleteForgets(u, sid);
    } else if RefusedAt(t, ops, i) {
      RefusedIsNoChange(u, sid, v);
    } else {
      WriteBinds(u, sid, v);
    }
  }

  lemma DeleteForgets(t: Table, sid: nat)
    requires WellPlaced(t)
    ensures Get(ApplySid(t, sid, Null), sid) == None
  {
    assert InBucket(t[HashKey(sid)], HashKey(sid));
    RemoveUnbinds(t[HashKey(sid)], sid, sid);
  }

  /** The second run so far has changed nothing that a lookup or an insert could notice. */
  ghost predicate Quiet(once: Table, u: Table)
    requires |once| == |u| == HASHMAP_TABLE_SIZE
  {
    forall sid: nat :: Get(u, sid) == Get(once, sid) && WalkOf(u, sid) == WalkOf(once, sid)
  }

  /** Repeating operation `i` is not noticed, unless it was refused and has got room too late. */
  lemma QuietStep(t: Table, ops: Ops, i: nat, u: Table)
    requires WellPlaced(t) && NamesOnce(ops) && i < |ops| && !RoomTooLate(t, ops, i)
    requires WellPlaced(u) && Quiet(ApplyOps(t, ops), u)
    ensures Quiet(ApplyOps(t, ops), ApplySid(u, ops[i].0, ops[i].1))
  {
    hide InBucket, ApplySid, WalkOf, Get, HashKey, Quiet, NamesOnce, ApplyOps, StateAt, Stored;
    var once := ApplyOps(t, ops);
    var (sid, v) := ops[i];
    WholeRun(t, ops);
    LeftBehind(t, ops, i);
    QuietAt(once, u, sid);
    if v.Null? {
      AbsentIsNoChange(u, sid);
    } else if WalkOf(u, sid).TooFar? {
      RefusedIsNoChange(u, sid, v);
    } else {
      if RefusedAt(t, ops, i) {
        RefusedAgain(t, ops, i);
      }
      assert Get(u, sid) == Some(Stored(Get(u, sid), v));
      RewriteIsQuiet(u, sid, v);
      QuietThrough(once, u, ApplySid(u, sid, v));
    }
  }

  lemma QuietAt(once: Table, u: Table, sid: nat)
    requires |once| == |u| == HASHMAP_TABLE_SIZE && Quiet(once, u)
    ensures Get(u, sid) == Get(once, sid) && WalkOf(u, sid) == WalkOf(once, sid)
  {
  }

  lemma QuietThrough(once: Table, u: Table, u': Table)
    requires |once| == |u| == |u'| == HASHMAP_TABLE_SIZE && Quiet(once, u) && Quiet(u, u')
    ensures Quiet(once, u')
  {
    hide Get, WalkOf;
  }

  lemma WholeRun(t: Table, ops: Ops)
    requires |t| == HASHMAP_TABLE_SIZE
    ensures ApplyOps(t, ops) == StateAt(t, ops, |ops|)
  {
    StateAtEnd(t, ops, 0);
    assert ops[0..] == ops;
  }

  lemma RewriteIsQuiet(u: Table, sid: nat, v: Value)
    requires WellPlaced(u) && !v.Null? && !WalkOf(u, sid).TooFar? && Get(u, sid) == Some(Stored(Get(u, sid), v))
    ensures Quiet(u, ApplySid(u, sid, v))
  {
    hide InBucket, ApplySid;
    WalkReports(u[HashKey(sid)], sid, 0);
    WriteBinds(u, sid, v);
    forall k: nat
      ensures Get(ApplySid(u, sid, v), k) == Get(u, k) && WalkOf(ApplySid(u, sid, v), k) == WalkOf(u, k)
    {
      WriteKeepsWalks(u, sid, v, k);
      if k != sid {
        ApplySidFrame(u, sid, v, k);
      }
    }
  }

  lemma {:induction false} QuietUpTo(t: Table, ops: Ops, i: nat)
    requires WellPlaced(t) && NamesOnce(ops) && i <= |ops| && forall j :: 0 <= j < i ==> !RoomTooLate(t, ops, j)
    ensures WellPlaced(ApplyOps(t, ops)) && Quiet(ApplyOps(t, ops), StateAt(ApplyOps(t, ops), ops, i))
  {
    hide InBucket, ApplySid, RoomTooLate, Quiet;
    OpsPlaced(t, ops);
    var once := ApplyOps(t, ops);
    if i == 0 {
      QuietStart(once);
    } else {
      QuietUpTo(t, ops, i - 1);
      StatePlaced(once, ops, i - 1);
      QuietStep(t, ops, i - 1, StateAt(once, ops, i - 1));
    }
  }

  lemma QuietStart(t: Table)
    requires |t| == HASHMAP_TABLE_SIZE
    ensures Quiet(t, t)
  {
  }

  /** The first write that has got room too late goes through the second time, and is noticed. */
  lemma NoticedAt(t: Table, ops: Ops, i: nat)
    requires WellPlaced(t) && NamesOnce(ops) && i < |ops| && RoomTooLate(t, ops, i)
    requires forall j :: 0 <= j < i ==> !RoomTooLate(t, ops, j)
    ensures var once := ApplyOps(t, ops); Get(ApplyOps(once, ops), ops[i].0) != Get(once, ops[i].0)
  {
    hide InBucket, ApplySid, WalkOf, Get, HashKey, Quiet, ApplyOps;
    var once := ApplyOps(t, ops);
    var (sid, v) := ops[i];
    QuietUpTo(t, ops, i);
    WholeRun(t, ops);
    WholeRun(once, ops);
    RefusedAgain(t, ops, i);
    var u := StateAt(once, ops, i);
    StatePlaced(once, ops, i);
    QuietAt(once, u, sid);
    WriteBinds(u, sid, v);
    StateFrame(once, ops, i + 1, |ops|, sid);
  }

  /**
   The exact condition for a patch that names each SID once: it is idempotent unless a write is refused by a
   full bucket in which a later deletion makes room for it.
   */
  lemma OnceNamedIdempotentIff(t: Table, ops: Ops)
    requires WellPlaced(t) && NamesOnce(ops)
    ensures WellPlaced(ApplyOps(t, ops)) && WellPlaced(ApplyOps(ApplyOps(t, ops), ops))
    ensures Contents(ApplyOps(ApplyOps(t, ops), ops)) == Contents(ApplyOps(t, ops))
      <==> forall i :: 0 <= i < |ops| ==> !RoomTooLate(t, ops, i)
  {
    hide Contents, ApplyOps, RoomTooLate;
    var once := ApplyOps(t, ops);
    var twice := ApplyOps(once, ops);
    OpsPlaced(t, ops);
    OpsPlaced(once, ops);
    if i :| 0 <= i < |ops| && RoomTooLate(t, ops, i) {
      var first := FirstTooLate(t, ops, i);
      NoticedAt(t, ops, first);
      GetIsLookup(once, ops[first].0);
      GetIsLookup(twice, ops[first].0);
    } else {
      QuietUpTo(t, ops, |ops|);
      WholeRun(once, ops);
      SameContents(twice, once);
    }
  }

  lemma {:induction false} FirstTooLate(t: Table, ops: Ops, i: nat) returns (first: nat)
    requires |t| == HASHMAP_TABLE_SIZE && i < |ops| && RoomTooLate(t, ops, i)
    ensures first <= i && RoomTooLate(t, ops, first) && forall j :: 0 <= j < first ==> !RoomTooLate(t, ops, j)
  {
    hide RoomTooLate;
    if j :| 0 <= j < i && RoomTooLate(t, ops, j) {
      first := FirstTooLate(t, ops, j);
    } else {
      first := i;
    }
  }

  // ---------------------------------------------------------------- and why the limit matters

  /** `n` objects that share a bucket because their keys differ only above bit 31. */
  function FullChain(n: nat): (c: Chain)
    ensures Length(c) == n
  {
    if n == 0 then End else Object((n - 1) * TWO_32, Bool(true), FullChain(n - 1))
  }

  lemma {:induction false} FullChainKeys(n: nat)
    ensures Distinct(FullChain(n)) && forall k :: k in Keys(FullChain(n)) ==> k % TWO_32 == 0 && k < n * TWO_32
    ensures n > 0 ==> 0 in Keys(FullChain(n))
  {
    if n > 0 {
      FullChainKeys(n - 1);
    }
  }

  ghost function FullTable(n: nat): Table {
    NoObjects()[HashKey(0) := FullChain(n)]
  }

  lemma FullTablePlaced(n: nat)
    requires n <= 52
    ensures WellPlaced(FullTable(n))
  {
    FullChainKeys(n);
    forall k | k in Keys(FullChain(n))
      ensures HashKey(k) == HashKey(0)
    {
      HashIgnoresHighBits(0, k / TWO_32);
      assert k == 0 + k / TWO_32 * TWO_32;
    }
    assert InBucket(FullTable(n)[HashKey(0)], HashKey(0));
  }

  /**
   On a bucket of 52 objects the patch { new SID: true }, { old SID: null } is not idempotent: the first
   application refuses the insert and then makes room for it, the second one accepts it.
   */
  lemma PatchNotIdempotentWhenFull()
    ensures var n: nat := 52; var sid := n * TWO_32; var ops := [(sid, Bool(true)), (0, Null)];
      var t := FullTable(n); var once := ApplyOps(t, ops); var twice := ApplyOps(once, ops);
      WellPlaced(t) && !Roomy(t, ops) && Get(once, sid) == None && Get(twice, sid) == Some(Bool(true))
  {
    hide Roomy, ApplyOps, Contents, FullChain;
    var n: nat := 52;
    var sid, b := n * TWO_32, HashKey(0);
    var ops: Ops := [(sid, Bool(true)), (0, Null)];
    var t := FullTable(n);
    FullTablePlaced(n);
    FullChainKeys(n);
    HashIgnoresHighBits(0, n);
    assert HashKey(sid) == b;
    FullRefuses(FullChain(n), sid);
    assert ApplySid(t, sid, Bool(true)) == t;
    ApplyTwo(t, ops);
    var once := Delete(t, 0);
    RemoveUnbinds(t[b], 0, sid);
    LengthIsKeys(t[b]);
    LengthIsKeys(once[b]);
    DeleteUnbinds(t, 0);
    PutBinds(once, sid, Bool(true));
    var again := ApplySid(once, sid, Bool(true));
    GetIsLookup(again, sid);
    GetIsLookup(once, sid);
    ApplyTwo(once, ops);
    ApplySidFrame(again, 0, Null, sid);
    NotRoomy(t, ops);
  }

  lemma {:induction false} FullRefuses(c: Chain, key: nat)
    requires key !in Keys(c) && Length(c) > 51
    ensures WalkFrom(c, key, 0).TooFar?
  {
    WalkReports(c, key, 0);
    var walk := WalkFrom(c, key, 0);
    assert !walk.Found? && !walk.Absent?;
  }

  lemma ApplyTwo(t: Table, ops: Ops)
    requires |t| == HASHMAP_TABLE_SIZE && |ops| == 2
    ensures ApplyOps(t, ops) == ApplySid(ApplySid(t, ops[0].0, ops[0].1), ops[1].0, ops[1].1)
  {
    var t1 := ApplySid(t, ops[0].0, ops[0].1);
    assert ops[1..][1..] == [];
    assert ApplyOps(t1, ops[1..]) == ApplyOps(ApplySid(t1, ops[1].0, ops[1].1), ops[1..][1..]);
  }

  lemma NotRoomy(t: Table, ops: Ops)
    requires WellPlaced(t) && exists b: nat :: b < |t| && Length(t[b]) > 51
    ensures !Roomy(t, ops)
  {
    var b: nat :| b < |t| && Length(t[b]) > 51;
    assert InBucket(t[b], b);
    LengthIsKeys(t[b]);
    SubsetIsNoLarger(Keys(t[b]), Keys(t[b]) + InBucketOf(Sids(ops), b));
    assert |Keys(t[b]) + InBucketOf(Sids(ops), b)| > 51;
  }

  // ---------------------------------------------------------------- instance entries

  predicate ChainHasString(c: Chain, key: seq<byte>) {
    c.Object? && ((c.value.Str? && c.value.bytes == key) || ChainHasString(c.next, key))
  }

  /** A list entry is found by any of its string members. */
  predicate Matches(v: Value, key: seq<byte>) {
    v.Map? && exists i :: 0 <= i < |v.table| && ChainHasString(v.table[i], key)
  }

  /** The index of the first matching entry at or after `i`. */
  function FindEntry(es: seq<Value>, key: seq<byte>, i: nat): (r: Option<nat>)
    requires i <= |es|
    ensures r.Some? ==> i <= r.value < |es| && Matches(es[r.value], key)
    ensures r.Some? ==> forall j :: i <= j < r.value ==> !Matches(es[j], key)
    ensures r.None? ==> forall j :: i <= j < |es| ==> !Matches(es[j], key)
    decreases |es| - i
  {
    if i == |es| then None else if Matches(es[i], key) then Some(i) else FindEntry(es, key, i + 1)
  }

  function Without<T>(s: seq<T>, i: nat): seq<T>
    requires i < |s|
  {
    s[..i] + s[i + 1..]
  }

  /** A list after one instance entry: null removes, a value replaces or is appended. */
  function EditList(es: seq<Value>, key: seq<byte>, v: Value): seq<Value> {
    match FindEntry(es, key, 0)
    case Some(i) => if v.Null? then Without(es, i) else es[i := v]
    case None => if v.Null? then es else es + [v]
  }

  ghost predicate IsFirstMatch(es: seq<Value>, i: nat, key: seq<byte>) {
    i < |es| && Matches(es[i], key) && forall j :: 0 <= j < i ==> !Matches(es[j], key)
  }

  ghost predicate NoMatch(es: seq<Value>, key: seq<byte>) {
    forall j :: 0 <= j < |es| ==> !Matches(es[j], key)
  }

  /** What an instance entry does to a list: the first match is removed or replaced, and a new entry goes to the end. */
  ghost predicate IsEdited(before: seq<Value>, after: seq<Value>, key: seq<byte>, v: Value) {
    && (NoMatch(before, key) && v.Null? ==> after == before)
    && (NoMatch(before, key) && !v.Null? ==>
          |after| == |before| + 1 && after[..|before|] == before && after[|before|] == v)
    && (forall i: nat :: IsFirstMatch(before, i, key) && v.Null? ==>
          |after| == |before| - 1 && after[..i] == before[..i] && after[i..] == before[i + 1..])
    && (forall i: nat :: IsFirstMatch(before, i, key) && !v.Null? ==>
          |after| == |before| && after[i] == v && forall j :: 0 <= j < |before| && j != i ==> after[j] == before[j])
  }

  lemma EditListEdits(es: seq<Value>, key: seq<byte>, v: Value)
    ensures IsEdited(es, EditList(es, key, v), key, v)
  {
    hide Matches, IsEdited, IsFirstMatch, NoMatch, FindEntry;
    var at := FindEntry(es, key, 0);
    FoundIsFirst(es, key);
    if at.None? {
      EditsNothing(es, EditList(es, key, v), key, v);
    } else {
      EditsFirst(es, at.value, EditList(es, key, v), key, v);
    }
  }

  lemma FoundIsFirst(es: seq<Value>, key: seq<byte>)
    ensures var at := FindEntry(es, key, 0); if at.None? then NoMatch(es, key) else IsFirstMatch(es, at.value, key)
  {
  }

  lemma EditsNothing(es: seq<Value>, after: seq<Value>, key: seq<byte>, v: Value)
    requires NoMatch(es, key) && after == if v.Null? then es else es + [v]
    ensures IsEdited(es, after, key, v)
  {
    hide Matches;
    assert forall i: nat :: !IsFirstMatch(es, i, key);
  }

  lemma EditsFirst(es: seq<Value>, at: nat, after: seq<Value>, key: seq<byte>, v: Value)
    requires IsFirstMatch(es, at, key) && after == if v.Null? then Without(es, at) else es[at := v]
    ensures IsEdited(es, after, key, v)
  {
    hide Matches;
    forall i: nat | IsFirstMatch(es, i, key)
      ensures i == at
    {
    }
    assert !NoMatch(es, key);
  }

  /** An entry is a match exactly if one of its members is bound to the key as a string. */
  lemma MatchesIff(t: Table, key: seq<byte>)
    requires WellPlaced(t)
    ensures Matches(Map(t), key) <==> exists k :: k in Contents(t) && Contents(t)[k] == Str(key)
  {
    hide HashKey, Contents;
    if i :| 0 <= i < |t| && ChainHasString(t[i], key) {
      assert InBucket(t[i], i);
      var k := MemberWithString(t[i], key);
      GetIsLookup(t, k);
    }
    if k :| k in Contents(t) && Contents(t)[k] == Str(key) {
      GetIsLookup(t, k);
      StringOfMember(t[HashKey(k)], k, key);
    }
  }

  lemma {:induction false} MemberWithString(c: Chain, key: seq<byte>) returns (k: nat)
    requires ChainHasString(c, key) && Distinct(c)
    ensures k in Keys(c) && Find(c, k) == Some(Str(key))
  {
    if c.value == Str(key) {
      k := c.key;
    } else {
      k := MemberWithString(c.next, key);
    }
  }

  lemma {:induction false} StringOfMember(c: Chain, k: nat, key: seq<byte>)
    requires Find(c, k) == Some(Str(key))
    ensures ChainHasString(c, key)
  {
    if c.key != k {
      StringOfMember(c.next, k, key);
    }
  }

  /** Instance entries act on an existing list only; others are dropped and not counted. */
  function ApplyInstance(t: Table, sid: nat, key: seq<byte>, v: Value): (r: (Table, bool))
    requires |t| == HASHMAP_TABLE_SIZE
    ensures |r.0| == |t|
  {
    var list := Get(t, sid);
    if list.Some? && list.value.Array?
    then (t[HashKey(sid) := Replace(t[HashKey(sid)], sid, Array(EditList(list.value.elems, key, v)))], true)
    else (t, false)
  }

  /** An instance entry edits one list in place and touches no other SID. */
  lemma ApplyInstanceBinds(t: Table, sid: nat, key: seq<byte>, v: Value)
    requires WellPlaced(t)
    ensures var list := Get(t, sid); var r := ApplyInstance(t, sid, key, v);
      && WellPlaced(r.0)
      && Contents(r.0) == if r.1 then Contents(t)[sid := Array(EditList(list.value.elems, key, v))] else Contents(t)
  {
    var r := ApplyInstance(t, sid, key, v);
    if r.1 {
      var h := HashKey(sid);
      var edited := Array(EditList(Get(t, sid).value.elems, key, v));
      assert InBucket(t[h], h);
      ReplaceBinds(t[h], sid, edited, sid);
      assert InBucket(r.0[h], h);
      forall k: nat
        ensures Get(r.0, k) == var m := Contents(t)[sid := edited]; if k in m then Some(m[k]) else None
      {
        ReplaceBinds(t[h], sid, edited, k);
        GetIsLookup(t, k);
      }
      SameLookups(r.0, Contents(t)[sid := edited]);
    }
  }

  function CountMatches(es: seq<Value>, key: seq<byte>): nat {
    if es == [] then 0 else (if Matches(es[0], key) then 1 else 0) + CountMatches(es[1..], key)
  }

  lemma {:induction false} NoMatchesLeft(es: seq<Value>, key: seq<byte>, i: nat)
    requires i < |es| && Matches(es[i], key) && forall j :: 0 <= j < i ==> !Matches(es[j], key)
    ensures CountMatches(es, key) <= 1 <==> forall j :: i < j < |es| ==> !Matches(es[j], key)
  {
    if i == 0 {
      ZeroMatches(es[1..], key);
      assert forall j :: 0 < j < |es| ==> es[j] == es[1..][j - 1];
      assert forall j :: 0 <= j < |es[1..]| ==> es[1..][j] == es[j + 1];
    } else {
      NoMatchesLeft(es[1..], key, i - 1);
      assert forall j :: 0 < j < |es| ==> es[j] == es[1..][j - 1];
    }
  }

  lemma {:induction false} ZeroMatches(es: seq<Value>, key: seq<byte>)
    ensures CountMatches(es, key) == 0 <==> forall j :: 0 <= j < |es| ==> !Matches(es[j], key)
  {
    if es != [] {
      ZeroMatches(es[1..], key);
      assert forall j :: 0 < j < |es| ==> es[j] == es[1..][j - 1];
      assert forall j :: 0 <= j < |es[1..]| ==> es[1..][j] == es[j + 1];
    }
  }

  /**
   Instance entries are not idempotent in general. Writing is, exactly when the written value itself
   carries the key; deleting is, exactly when at most one entry carries it.
   */
  lemma EditIdempotentIff(es: seq<Value>, key: seq<byte>, v: Value)
    ensures EditList(EditList(es, key, v), key, v) == EditList(es, key, v)
      <==> if v.Null? then CountMatches(es, key) <= 1 else Matches(v, key)
  {
    hide Matches;
    if v.Null? {
      DeleteIdempotentIff(es, key);
    } else if Matches(v, key) {
      WriteIsIdempotent(es, key, v);
    } else {
      var once := EditList(es, key, v);
      var again := FindEntry(once, key, 0);
      if again.Some? {
        assert EditList(once, key, v)[again.value] == v != once[again.value];
      }
    }
  }

  lemma DeleteIdempotentIff(es: seq<Value>, key: seq<byte>)
    ensures EditList(EditList(es, key, Null), key, Null) == EditList(es, key, Null) <==> CountMatches(es, key) <= 1
  {
    hide Matches;
    var once := EditList(es, key, Null);
    var at := FindEntry(es, key, 0);
    if at.Some? {
      var i := at.value;
      NoMatchesLeft(es, key, i);
      assert once == Without(es, i);
      WithoutMatches(es, i, key);
    } else {
      ZeroMatches(es, key);
    }
  }

  lemma WithoutMatches(es: seq<Value>, i: nat, key: seq<byte>)
    requires i < |es| && forall j :: 0 <= j < i ==> !Matches(es[j], key)
    ensures FindEntry(Without(es, i), key, 0) == None <==> forall j :: i < j < |es| ==> !Matches(es[j], key)
  {
    hide Matches;
    var rest := Without(es, i);
    assert forall j :: 0 <= j < i ==> rest[j] == es[j];
    assert forall j :: i <= j < |rest| ==> rest[j] == es[j + 1];
    assert forall j :: i < j < |es| ==> rest[j - 1] == es[j];
  }

  lemma WriteIsIdempotent(es: seq<Value>, key: seq<byte>, v: Value)
    requires !v.Null? && Matches(v, key)
    ensures EditList(EditList(es, key, v), key, v) == EditList(es, key, v)
  {
    hide Matches;
    var once := EditList(es, key, v);
    var at := FindEntry(es, key, 0);
    var i := if at.Some? then at.value else |es|;
    assert once[i] == v && forall j :: 0 <= j < i ==> once[j] == es[j];
    assert FindEntry(once, key, 0) == Some(i);
    assert once[i := v] == once;
  }
}
