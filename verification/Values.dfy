/**
 CORECONF values and the chained hash table of src/coreconfTypes.c: 100 buckets, each a
 list of objects, with head insertion and a limit on how far an insert walks.
 */
module Values {
  import opened Wrappers
  import opened Heads

  const HASHMAP_TABLE_SIZE: nat := 100
  const CORECONF_MAX_LOOP: nat := 50
  const CORECONF_MAX_DEPTH: nat := 20
  const TWO_32: int := 0x1_0000_0000
  const TWO_63: int := 0x8000_0000_0000_0000
  const TWO_64: int := 0x1_0000_0000_0000_0000

  datatype IntType = I8 | I16 | I32 | I64 | U8 | U16 | U32 | U64 {
    predicate InRange(n: int) {
      match this
      case I8 => -0x80 <= n < 0x80
      case I16 => -0x8000 <= n < 0x8000
      case I32 => -0x8000_0000 <= n < 0x8000_0000
      case I64 => -TWO_63 <= n < TWO_63
      case U8 => 0 <= n < 0x100
      case U16 => 0 <= n < 0x1_0000
      case U32 => 0 <= n < TWO_32
      case U64 => 0 <= n < TWO_64
    }
  }

  /** A real is its 64-bit pattern, a string its bytes before the terminating NUL. */
  datatype Value =
    | Str(bytes: seq<byte>)
    | Real(bits: nat)
    | Int(t: IntType, n: int)
    | Bool(b: bool)
    | Null
    | Array(elems: seq<Value>)
    | Map(table: seq<Chain>)

  /** `CoreconfObjectT` and its `next` pointer. */
  datatype Chain = End | Object(key: nat, value: Value, next: Chain)

  /**
   `(size_t)((key * 2654435769) >> 32) % 100` on the low 32 bits of the key. The constant is a
   signed 64-bit literal, so a product of 2^63 or more is a negative number in two's complement.
   */
  function HashKey(key: nat): (i: nat)
    ensures i < HASHMAP_TABLE_SIZE
  {
    var product := key % TWO_32 * 2654435769;
    if product < TWO_63 then product / TWO_32 % 100 else (product / TWO_32 + (TWO_64 - TWO_32)) % 100
  }

  lemma HashIgnoresHighBits(key: nat, high: nat)
    ensures HashKey(key + high * TWO_32) == HashKey(key)
  {
    assert (key + high * TWO_32) % TWO_32 == key % TWO_32;
  }

  /**
   What the shift leaves: `q` is the 64-bit signed product divided by 2^32 and rounded down, and the bucket is
   `q`, converted to an unsigned 64-bit integer, modulo 100.
   */
  lemma HashIsShiftedProduct(key: nat, q: int)
    requires var product := key % 0x1_0000_0000 * 2654435769;
      var signed := if product < 0x8000_0000_0000_0000 then product else product - 0x1_0000_0000_0000_0000;
      q * 0x1_0000_0000 <= signed < (q + 1) * 0x1_0000_0000
    ensures HashKey(key) == q % 0x1_0000_0000_0000_0000 % 100
  {
    var product := key % TWO_32 * 2654435769;
    assert 0 <= product < TWO_64;
    if product < TWO_63 {
      assert q == product / TWO_32;
    } else {
      assert q == product / TWO_32 - TWO_32;
      assert q % TWO_64 == q + TWO_64;
    }
  }

  // ---------------------------------------------------------------- one chain

  /** The keys of a chain in the order they are walked and written. */
  function Order(c: Chain): seq<nat> {
    if c.End? then [] else [c.key] + Order(c.next)
  }

  function Length(c: Chain): nat {
    if c.End? then 0 else 1 + Length(c.next)
  }

  function Keys(c: Chain): set<nat> {
    if c.End? then {} else {c.key} + Keys(c.next)
  }

  predicate Distinct(c: Chain) {
    c.Object? ==> c.key !in Keys(c.next) && Distinct(c.next)
  }

  function Find(c: Chain, key: nat): (r: Option<Value>)
    ensures r.Some? <==> key in Keys(c)
  {
    if c.End? then None else if c.key == key then Some(c.value) else Find(c.next, key)
  }

  function Replace(c: Chain, key: nat, value: Value): (c': Chain)
    ensures Keys(c') == Keys(c) && Length(c') == Length(c)
  {
    if c.End? then End
    else if c.key == key then c.(value := value)
    else c.(next := Replace(c.next, key, value))
  }

  function Remove(c: Chain, key: nat): (c': Chain)
    ensures Length(c') <= Length(c) && Keys(c') <= Keys(c)
  {
    if c.End? then End
    else if c.key == key then c.next
    else c.(next := Remove(c.next, key))
  }

  datatype Walk = Found | Absent | TooFar

  /** The walk of an insert: nodes past the limit are refused before their key is looked at. */
  function WalkFrom(c: Chain, key: nat, loopCount: nat): Walk {
    if c.End? then Absent
    else if loopCount > CORECONF_MAX_LOOP then TooFar
    else if c.key == key then Found
    else WalkFrom(c.next, key, loopCount + 1)
  }

  function Insert(c: Chain, key: nat, value: Value): Option<Chain> {
    match WalkFrom(c, key, 0)
    case Found => Some(Replace(c, key, value))
    case Absent => Some(Object(key, value, c))
    case TooFar => None
  }

  /** What a walk reports, in terms of the chain: a chain within the limit is never refused. */
  lemma {:induction false} WalkReports(c: Chain, key: nat, loopCount: nat)
    ensures WalkFrom(c, key, loopCount).Found? ==> key in Keys(c)
    ensures WalkFrom(c, key, loopCount).Absent? ==> key !in Keys(c)
    ensures loopCount + Length(c) <= 51 ==> !WalkFrom(c, key, loopCount).TooFar?
    ensures loopCount <= 51 && WalkFrom(c, key, loopCount).Absent? ==>
      loopCount + Length(c) <= 51
  {
    if c.Object? && loopCount <= CORECONF_MAX_LOOP {
      WalkReports(c.next, key, loopCount + 1);
    }
  }

  lemma {:induction false} ReplaceBinds(c: Chain, key: nat, value: Value, other: nat)
    requires key in Keys(c)
    ensures Find(Replace(c, key, value), other) == if other == key then Some(value) else Find(c, other)
    ensures Distinct(c) ==> Distinct(Replace(c, key, value))
  {
    if c.key != key {
      ReplaceBinds(c.next, key, value, other);
    }
  }

  lemma {:induction false} ReplaceKeepsOrder(c: Chain, key: nat, value: Value)
    ensures Order(Replace(c, key, value)) == Order(c)
  {
    if c.Object? && c.key != key {
      ReplaceKeepsOrder(c.next, key, value);
    }
  }

  /** The other keys stay in their order. */
  lemma {:induction false} RemoveKeepsOrder(c: Chain, key: nat) returns (i: nat)
    requires key in Keys(c)
    ensures i < |Order(c)| && Order(c)[i] == key && Order(Remove(c, key)) == Order(c)[..i] + Order(c)[i + 1..]
  {
    if c.key == key {
      i := 0;
    } else {
      var j := RemoveKeepsOrder(c.next, key);
      i := j + 1;
      assert Order(c)[..i] == [c.key] + Order(c.next)[..j];
    }
  }

  lemma {:induction false} RemoveUnbinds(c: Chain, key: nat, other: nat)
    requires Distinct(c)
    ensures Distinct(Remove(c, key)) && Keys(Remove(c, key)) == Keys(c) - {key}
    ensures Find(Remove(c, key), other) == if other == key then None else Find(c, other)
  {
    if c.Object? && c.key != key {
      RemoveUnbinds(c.next, key, other);
    }
  }

  lemma {:induction false} RemoveAbsent(c: Chain, key: nat)
    requires key !in Keys(c)
    ensures Remove(c, key) == c
  {
    if c.Object? {
      RemoveAbsent(c.next, key);
    }
  }

  // ---------------------------------------------------------------- the table

  type Table = seq<Chain>

  /** `createCoreconfHashmap`: every bucket empty. */
  function NoObjects(): (t: Table)
    ensures |t| == HASHMAP_TABLE_SIZE && forall i :: 0 <= i < |t| ==> t[i] == End
  {
    seq(HASHMAP_TABLE_SIZE, _ => End)
  }

  /** Keys sit only in their own bucket, each once. */
  ghost predicate WellPlaced(t: Table) {
    && |t| == 100
    && forall i: nat :: i < |t| ==> InBucket(t[i], i)
  }

  ghost predicate InBucket(c: Chain, i: nat) {
    Distinct(c) && Length(c) <= 52 && forall k :: k in Keys(c) ==> HashKey(k) == i
  }

  function Get(t: Table, key: nat): Option<Value>
    requires |t| == HASHMAP_TABLE_SIZE
  {
    Find(t[HashKey(key)], key)
  }

  /** The table after an insert, and whether the insert was accepted. */
  function Put(t: Table, key: nat, value: Value): (r: (Table, bool))
    requires |t| == HASHMAP_TABLE_SIZE
    ensures |r.0| == |t|
  {
    match Insert(t[HashKey(key)], key, value)
    case None => (t, false)
    case Some(c) => (t[HashKey(key) := c], true)
  }

  function Delete(t: Table, key: nat): (t': Table)
    requires |t| == HASHMAP_TABLE_SIZE
    ensures |t'| == |t|
  {
    t[HashKey(key) := Remove(t[HashKey(key)], key)]
  }

  /** The finite map a table stands for. */
  ghost function TableKeys(t: Table): set<nat> {
    set i, k | 0 <= i < |t| && k in Keys(t[i]) :: k
  }

  ghost function Contents(t: Table): map<nat, Value>
    requires WellPlaced(t)
  {
    map k | k in TableKeys(t) && Get(t, k).Some? :: Get(t, k).value
  }

  lemma GetIsLookup(t: Table, key: nat)
    requires WellPlaced(t)
    ensures key in Contents(t) <==> Get(t, key).Some?
    ensures key in Contents(t) ==> Get(t, key) == Some(Contents(t)[key])
  {
    if Get(t, key).Some? {
      assert key in Keys(t[HashKey(key)]);
    }
  }

  /** Two tables that answer every lookup alike stand for the same map. */
  lemma SameLookups(t: Table, m: map<nat, Value>)
    requires WellPlaced(t)
    requires forall k: nat :: Get(t, k) == if k in m then Some(m[k]) else None
    ensures Contents(t) == m
  {
    forall k: nat
      ensures k in Contents(t) <==> k in m
    {
      GetIsLookup(t, k);
    }
  }

  lemma EmptyTable()
    ensures WellPlaced(NoObjects()) && Contents(NoObjects()) == map[]
  {
    SameLookups(NoObjects(), map[]);
  }

  /** An accepted insert binds exactly one key; a refused one changes nothing. */
  lemma PutBinds(t: Table, key: nat, value: Value)
    requires WellPlaced(t)
    ensures WellPlaced(Put(t, key, value).0)
    ensures Put(t, key, value).1 ==> Contents(Put(t, key, value).0) == Contents(t)[key := value]
    ensures !Put(t, key, value).1 ==> Put(t, key, value).0 == t
    ensures Length(t[HashKey(key)]) <= 51 ==> Put(t, key, value).1
  {
    var h := HashKey(key);
    var c, t' := t[h], Put(t, key, value).0;
    WalkReports(c, key, 0);
    assert InBucket(c, h);
    if Put(t, key, value).1 {
      if key in Keys(c) {
        ReplaceBinds(c, key, value, key);
      }
      assert InBucket(t'[h], h);
      forall k: nat
        ensures Get(t', k) == if k == key then Some(value) else Get(t, k)
      {
        if key in Keys(c) {
          ReplaceBinds(c, key, value, k);
        }
      }
      forall k: nat
        ensures Get(t', k) == var m := Contents(t)[key := value]; if k in m then Some(m[k]) else None
      {
        GetIsLookup(t, k);
      }
      SameLookups(t', Contents(t)[key := value]);
    }
  }

  /** A new key goes to the front of its bucket, a bound one keeps its place, and no other bucket is touched. */
  lemma PutOrder(t: Table, key: nat, value: Value)
    requires WellPlaced(t)
    ensures var t', b := Put(t, key, value).0, HashKey(key);
      && (forall i :: 0 <= i < |t| && i != b ==> t'[i] == t[i])
      && Order(t'[b]) == (if Put(t, key, value).1 && key !in Keys(t[b]) then [key] else []) + Order(t[b])
  {
    var c := t[HashKey(key)];
    WalkReports(c, key, 0);
    ReplaceKeepsOrder(c, key, value);
    assert [] + Order(c) == Order(c);
  }

  /** A delete unbinds exactly one key. */
  lemma DeleteUnbinds(t: Table, key: nat)
    requires WellPlaced(t)
    ensures WellPlaced(Delete(t, key)) && Contents(Delete(t, key)) == Contents(t) - {key}
  {
    var h := HashKey(key);
    var t' := Delete(t, key);
    assert InBucket(t[h], h);
    RemoveUnbinds(t[h], key, key);
    assert InBucket(t'[h], h);
    forall k: nat
      ensures Get(t', k) == var m := Contents(t) - {key}; if k in m then Some(m[k]) else None
    {
      RemoveUnbinds(t[h], key, k);
      GetIsLookup(t, k);
    }
    SameLookups(t', Contents(t) - {key});
  }
}
