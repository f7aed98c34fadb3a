/**
 The placement theory of the Robin Hood hash table: what a bucket array looks like
 between operations, and what one step of displacement insert, backward-shift
 delete and probing does to it. The table that uses it is in HashTable.dfy.
 */
module RobinHood {
  import opened Basics

  /** A bucket whose `dib` is zero is `Vacant`; the stale bytes it may hold are never read. */
  datatype Bucket<K, V> = Vacant | Entry(hash: nat, dib: nat, key: K, value: V)

  /** The probe distance has a field of 16 bits. */
  const MAX_DIB: nat := 0xFFFF

  /** What a stored bucket is read as. */
  function Seen<K, V>(b: Bucket<K, V>): Bucket<K, V> {
    if b.Entry? && b.dib == 0 then Vacant else b
  }

  /** The stored probe distance, zero for a vacant bucket. */
  function Dib<K, V>(b: Bucket<K, V>): nat {
    if b.Vacant? then 0 else b.dib
  }

  /** Hashes are kept in a 48-bit field. */
  function Clip(hash: nat): nat {
    hash % 0x1_0000_0000_0000
  }

  /** `hash & mask`, for a mask one below a power of two. */
  function Home(hash: nat, n: nat): (i: nat)
    requires 0 < n
    ensures i < n
  {
    hash % n
  }

  /** `(i + 1) & mask`. */
  function Next(i: nat, n: nat): (j: nat)
    requires i < n
    ensures j < n
  {
    if i + 1 == n then 0 else i + 1
  }

  /** The bucket `t` cyclic steps after `home`. */
  function Step(home: nat, t: nat, n: nat): (i: nat)
    requires home < n && t < n
    ensures i < n
  {
    if home + t < n then home + t else home + t - n
  }

  /** How many cyclic steps lead from `home` to `i`. */
  function Dist(home: nat, i: nat, n: nat): (t: nat)
    requires home < n && i < n
    ensures t < n && Step(home, t, n) == i
  {
    if home <= i then i - home else i + n - home
  }

  /** Entry `e` may stand in bucket `i`: its hash is its key's, its dib the distance from home plus one. */
  ghost predicate Fits<K, V>(e: Bucket<K, V>, i: nat, n: nat, hash: K -> nat)
    requires i < n
  {
    e.Entry? && e.hash == Clip(hash(e.key)) && e.dib == Dist(Home(e.hash, n), i, n) + 1
  }

  ghost predicate Placed<K, V>(s: seq<Bucket<K, V>>, hash: K -> nat) {
    forall i: nat :: i < |s| && s[i].Entry? ==> Fits(s[i], i, |s|, hash)
  }

  /** Each bucket's dib is at most one larger than its predecessor's. */
  ghost predicate GradedAt<K, V>(s: seq<Bucket<K, V>>, i: nat)
    requires i < |s|
  {
    Dib(s[Next(i, |s|)]) <= Dib(s[i]) + 1
  }

  ghost predicate Graded<K, V>(s: seq<Bucket<K, V>>) {
    forall i: nat :: i < |s| ==> GradedAt(s, i)
  }

  ghost predicate Unique<K, V>(s: seq<Bucket<K, V>>) {
    forall i: nat, j: nat :: i < |s| && j < |s| && s[i].Entry? && s[j].Entry? && s[i].key == s[j].key ==> i == j
  }

  /** The placement invariant of the whole table. */
  ghost predicate Sound<K, V>(s: seq<Bucket<K, V>>, hash: K -> nat) {
    2 <= |s| && Placed(s, hash) && Graded(s) && Unique(s)
  }

  ghost predicate Stores<K, V>(s: seq<Bucket<K, V>>, i: nat, k: K) {
    i < |s| && s[i].Entry? && s[i].key == k
  }

  /** The buckets hold exactly the bindings of `m`. */
  ghost predicate Holds<K, V>(s: seq<Bucket<K, V>>, m: map<K, V>) {
    && (forall i: nat :: i < |s| && s[i].Entry? ==> s[i].key in m && m[s[i].key] == s[i].value)
    && (forall k :: k in m ==> exists i: nat :: Stores(s, i, k))
  }

  /** The buckets obey the placement invariant and stand for the finite map `m`. */
  ghost predicate Represents<K, V>(s: seq<Bucket<K, V>>, hash: K -> nat, m: map<K, V>) {
    Sound(s, hash) && Holds(s, m)
  }

  // ---------------------------------------------------------------- probing

  /** Every bucket from an entry's home up to the entry itself is occupied, with dib at least the probe length. */
  lemma {:induction false} PathOccupied<K, V>(s: seq<Bucket<K, V>>, hash: K -> nat, i: nat, t: nat)
    requires Sound(s, hash) && i < |s| && s[i].Entry? && t < s[i].dib
    ensures Dib(s[Step(Home(s[i].hash, |s|), t, |s|)]) >= t + 1
    decreases s[i].dib - t
  {
    var n, home := |s|, Home(s[i].hash, |s|);
    assert Fits(s[i], i, n, hash);
    if t + 1 < s[i].dib {
      PathOccupied(s, hash, i, t + 1);
      assert GradedAt(s, Step(home, t, n));
    }
  }

  /**
   A probe for `k` that has passed only other keys cannot stop at a vacant bucket, or at one
   with a smaller dib, while `k` is in the table.
   */
  lemma MetBeforeSwap<K, V>(s: seq<Bucket<K, V>>, hash: K -> nat, k: K, j: nat, t: nat)
    requires Sound(s, hash) && Stores(s, j, k) && t < |s|
    requires forall u: nat :: u < t ==> !Stores(s, Step(Home(Clip(hash(k)), |s|), u, |s|), k)
    ensures t < s[j].dib
    ensures Dib(s[Step(Home(Clip(hash(k)), |s|), t, |s|)]) >= t + 1
  {
    assert Fits(s[j], j, |s|, hash);
    assert Step(Home(Clip(hash(k)), |s|), s[j].dib - 1, |s|) == j;
    PathOccupied(s, hash, j, t);
  }

  /** The same, for a key known only to be bound. */
  lemma KeyIsAhead<K, V>(s: seq<Bucket<K, V>>, hash: K -> nat, k: K, m: map<K, V>, t: nat)
    requires Sound(s, hash) && Holds(s, m) && k in m && t < |s|
    requires forall u: nat :: u < t ==> !Stores(s, Step(Home(Clip(hash(k)), |s|), u, |s|), k)
    ensures Dib(s[Step(Home(Clip(hash(k)), |s|), t, |s|)]) >= t + 1
  {
    var j: nat :| Stores(s, j, k);
    MetBeforeSwap(s, hash, k, j, t);
  }

  /** A lookup of `k`, `t` buckets into its probe, with the vacancy `q` not yet passed. */
  ghost predicate Seeking<K, V>(s: seq<Bucket<K, V>>, h: nat, i: nat, t: nat, q: nat, k: K) {
    && 0 < |s| && q < |s| && s[q].Vacant?
    && t <= Dist(Home(h, |s|), q, |s|) && i == Step(Home(h, |s|), t, |s|)
    && (forall u: nat :: u < t ==> !Stores(s, Step(Home(h, |s|), u, |s|), k))
  }

  lemma SeekStep<K, V>(s: seq<Bucket<K, V>>, hash: K -> nat, h: nat, i: nat, t: nat, q: nat, k: K)
    requires Seeking(s, h, i, t, q, k) && Sound(s, hash) && h == Clip(hash(k))
    requires s[i].Entry? && !(s[i].hash == h && s[i].key == k)
    ensures Seeking(s, h, Next(i, |s|), t + 1, q, k)
  {
    assert Fits(s[i], i, |s|, hash);
  }

  /** Distinct buckets hold distinct keys, so the first `j` occupied buckets need `j` bindings. */
  lemma {:induction false} KeysOfFullPrefix<K, V>(s: seq<Bucket<K, V>>, m: map<K, V>, j: nat) returns (ks: set<K>)
    requires Unique(s) && Holds(s, m) && j <= |s|
    requires forall i: nat :: i < j ==> s[i].Entry?
    ensures ks <= m.Keys && |ks| == j
    ensures forall k :: k in ks ==> exists i: nat :: i < j && Stores(s, i, k)
  {
    if j == 0 {
      ks := {};
    } else {
      var prior := KeysOfFullPrefix(s, m, j - 1);
      assert s[j - 1].key !in prior;
      ks := prior + {s[j - 1].key};
      assert Stores(s, j - 1, s[j - 1].key);
    }
  }

  /** With fewer bindings than buckets there is a vacant bucket, so every probe loop ends. */
  lemma VacancyExists<K, V>(s: seq<Bucket<K, V>>, m: map<K, V>) returns (q: nat)
    requires Unique(s) && Holds(s, m) && |m| < |s|
    ensures q < |s| && s[q].Vacant?
  {
    if q' : nat :| q' < |s| && s[q'].Vacant? {
      q := q';
    } else {
      var ks := KeysOfFullPrefix(s, m, |s|);
      SubsetIsNoLarger(ks, m.Keys);
      assert false;
    }
  }

  /** An entry's dib never exceeds the number of bindings, so 65535 bindings or fewer fit its 16-bit field. */
  lemma {:induction false} DibWithinCount<K, V>(s: seq<Bucket<K, V>>, hash: K -> nat, m: map<K, V>, i: nat)
    requires Sound(s, hash) && Holds(s, m) && i < |s| && s[i].Entry?
    ensures 1 <= s[i].dib <= |m|
  {
    assert Fits(s[i], i, |s|, hash);
    var ks := KeysOnPath(s, hash, m, i, s[i].dib);
    SubsetIsNoLarger(ks, m.Keys);
  }

  /** The first `d` buckets of an entry's probe path hold `d` different keys. */
  lemma {:induction false} KeysOnPath<K, V>(s: seq<Bucket<K, V>>, hash: K -> nat, m: map<K, V>, i: nat, d: nat)
    returns (ks: set<K>)
    requires Sound(s, hash) && Holds(s, m) && i < |s| && s[i].Entry? && d <= s[i].dib <= |s|
    ensures ks <= m.Keys && |ks| == d
    ensures forall k :: k in ks ==> exists t: nat :: t < d && Stores(s, Step(Home(s[i].hash, |s|), t, |s|), k)
  {
    if d == 0 {
      ks := {};
    } else {
      var prior := KeysOnPath(s, hash, m, i, d - 1);
      PathOccupied(s, hash, i, d - 1);
      var p := Step(Home(s[i].hash, |s|), d - 1, |s|);
      assert s[p].key !in prior;
      ks := prior + {s[p].key};
      assert Stores(s, p, s[p].key);
    }
  }

  // ---------------------------------------------------------------- displacement insert

  function Prev(i: nat, n: nat): (j: nat)
    requires i < n
    ensures j < n && Next(j, n) == i
  {
    if i == 0 then n - 1 else i - 1
  }

  /**
   What a displacement loop knows of the entry in its hand when it looks at bucket `i`: the entry
   would fit there, its left neighbour does not forbid it, and the vacancy `q` is still ahead.
   */
  ghost predicate Carried<K, V>(s: seq<Bucket<K, V>>, e: Bucket<K, V>, i: nat, q: nat, hash: K -> nat) {
    && i < |s| && q < |s| && s[q].Vacant?
    && Fits(e, i, |s|, hash)
    && Dib(s[Prev(i, |s|)]) + 1 >= e.dib
    && e.dib <= Dist(Home(e.hash, |s|), q, |s|) + 1
  }

  /** The buckets and the entry in hand together hold exactly the bindings of `m`. */
  ghost predicate HoldsWith<K, V>(s: seq<Bucket<K, V>>, e: Bucket<K, V>, m: map<K, V>) {
    && e.Entry? && e.key in m && m[e.key] == e.value
    && (forall i: nat :: i < |s| && s[i].Entry? ==> s[i].key != e.key && s[i].key in m && m[s[i].key] == s[i].value)
    && (forall k :: k in m && k != e.key ==> exists i: nat :: Stores(s, i, k))
  }

  lemma CarryNewKey<K, V>(s: seq<Bucket<K, V>>, e: Bucket<K, V>, m: map<K, V>)
    requires Holds(s, m) && e.Entry? && e.key !in m
    ensures HoldsWith(s, e, m[e.key := e.value])
  {
    var m' := m[e.key := e.value];
    forall k | k in m' && k != e.key
      ensures exists i: nat :: Stores(s, i, k)
    {
      assert k in m;
    }
  }

  /** Storing the entry in hand into bucket `i` keeps the grading, if what stood there was no richer. */
  lemma GradedAfterWrite<K, V>(s: seq<Bucket<K, V>>, e: Bucket<K, V>, i: nat)
    requires 2 <= |s| && Graded(s) && i < |s| && e.Entry?
    requires Dib(s[i]) < e.dib <= Dib(s[Prev(i, |s|)]) + 1
    ensures Graded(s[i := e])
  {
    var s' := s[i := e];
    forall p: nat | p < |s|
      ensures GradedAt(s', p)
    {
      assert GradedAt(s, p);
    }
  }

  lemma PlaceStep<K, V>(s: seq<Bucket<K, V>>, e: Bucket<K, V>, i: nat, q: nat, hash: K -> nat, m: map<K, V>)
    requires Sound(s, hash) && Carried(s, e, i, q, hash) && HoldsWith(s, e, m) && s[i].Vacant?
    ensures Sound(s[i := e], hash) && Holds(s[i := e], m)
  {
    GradedAfterWrite(s, e, i);
    var s' := s[i := e];
    forall k | k in m
      ensures exists p: nat :: Stores(s', p, k)
    {
      if k == e.key {
        assert Stores(s', i, k);
      } else {
        var p: nat :| Stores(s, p, k);
        assert Stores(s', p, k);
      }
    }
  }

  /** The displaced entry, one bucket further on; its probe distance wraps around. */
  function Moved<K, V>(b: Bucket<K, V>): (r: Bucket<K, V>)
    requires b.Entry?
    ensures r.Entry?
  {
    b.(dib := (b.dib + 1) % (MAX_DIB + 1))
  }

  lemma SwapStep<K, V>(s: seq<Bucket<K, V>>, e: Bucket<K, V>, i: nat, q: nat, hash: K -> nat)
    requires Sound(s, hash) && Carried(s, e, i, q, hash) && s[i].Entry? && s[i].dib < e.dib && s[i].dib < MAX_DIB
    requires forall p: nat :: p < |s| && s[p].Entry? ==> s[p].key != e.key
    ensures Sound(s[i := e], hash) && Carried(s[i := e], Moved(s[i]), Next(i, |s|), q, hash)
  {
    GradedAfterWrite(s, e, i);
    var home := Home(s[i].hash, |s|);
    assert Fits(s[i], i, |s|, hash);
    if Dist(home, q, |s|) < s[i].dib {
      PathOccupied(s, hash, i, Dist(home, q, |s|));
      assert false;
    }
  }

  lemma SwapHolds<K, V>(s: seq<Bucket<K, V>>, e: Bucket<K, V>, i: nat, m: map<K, V>)
    requires Unique(s) && HoldsWith(s, e, m) && i < |s| && s[i].Entry?
    ensures HoldsWith(s[i := e], Moved(s[i]), m)
  {
    var s' := s[i := e];
    forall k | k in m && k != s[i].key
      ensures exists p: nat :: Stores(s', p, k)
    {
      if k == e.key {
        assert Stores(s', i, k);
      } else {
        var p: nat :| Stores(s, p, k);
        assert Stores(s', p, k);
      }
    }
  }

  lemma PassStep<K, V>(s: seq<Bucket<K, V>>, e: Bucket<K, V>, i: nat, q: nat, hash: K -> nat)
    requires Carried(s, e, i, q, hash) && s[i].Entry? && e.dib <= s[i].dib && e.dib < MAX_DIB
    ensures Carried(s, Moved(e), Next(i, |s|), q, hash)
  {
    assert Dist(Home(e.hash, |s|), q, |s|) != Dist(Home(e.hash, |s|), i, |s|);
  }

  /**
   The loop of a set for `key`, `t` buckets into its probe. A bound key is still ahead in the untouched
   table `s0`; an unbound one has joined the bindings, in the table or in hand.
   */
  ghost predicate Setting<K, V>(s: seq<Bucket<K, V>>, e: Bucket<K, V>, i: nat, t: nat,
                                s0: seq<Bucket<K, V>>, q: nat, key: K, value: V, hash: K -> nat, m: map<K, V>) {
    && Sound(s, hash) && Carried(s, e, i, q, hash)
    && (key !in m ==> HoldsWith(s, e, m[key := value]))
    && (key in m ==> s == s0 && Probing(s0, e, i, t, key, value, hash, m))
  }

  ghost predicate Probing<K, V>(s0: seq<Bucket<K, V>>, e: Bucket<K, V>, i: nat, t: nat,
                                key: K, value: V, hash: K -> nat, m: map<K, V>) {
    && Sound(s0, hash) && Holds(s0, m)
    && t < |s0| && e == Entry(Clip(hash(key)), t + 1, key, value)
    && i == Step(Home(e.hash, |s0|), t, |s0|)
    && (forall u: nat :: u < t ==> !Stores(s0, Step(Home(e.hash, |s0|), u, |s0|), key))
  }

  lemma SetStart<K, V>(s: seq<Bucket<K, V>>, q: nat, key: K, value: V, hash: K -> nat, m: map<K, V>)
    requires Represents(s, hash, m) && q < |s| && s[q].Vacant?
    ensures var h := Clip(hash(key));
      Setting(s, Entry(h, 1, key, value), Home(h, |s|), 0, s, q, key, value, hash, m)
  {
    if key !in m {
      CarryNewKey(s, Entry(Clip(hash(key)), 1, key, value), m);
    }
  }

  /** With the entry in hand there is one key more than in the table, so no bucket has the largest dib yet. */
  lemma DibBelowLimit<K, V>(s: seq<Bucket<K, V>>, e: Bucket<K, V>, i: nat, hash: K -> nat, m: map<K, V>)
    requires Sound(s, hash) && HoldsWith(s, e, m) && i < |s| && s[i].Entry? && |m| <= MAX_DIB
    ensures s[i].dib < MAX_DIB
  {
    var m' := m - {e.key};
    assert m'.Keys == m.Keys - {e.key};
    assert Holds(s, m');
    DibWithinCount(s, hash, m', i);
  }

  /** A bound key is stored further on than any bucket its probe has passed. */
  lemma ProbeBelowLimit<K, V>(s: seq<Bucket<K, V>>, e: Bucket<K, V>, i: nat, t: nat, key: K, value: V, hash: K -> nat,
                              m: map<K, V>)
    requires Probing(s, e, i, t, key, value, hash, m) && key in m && |m| <= MAX_DIB
    requires s[i].Entry? && !(e.hash == s[i].hash && e.key == s[i].key)
    ensures e.dib < MAX_DIB && e.dib <= s[i].dib
  {
    KeyIsAhead(s, hash, key, m, t);
    var j: nat :| Stores(s, j, key);
    assert Fits(s[i], i, |s|, hash) && Fits(s[j], j, |s|, hash);
    MetBeforeSwap(s, hash, key, j, t);
    DibWithinCount(s, hash, m, j);
  }

  /**
   An occupied bucket of another key: the richer entry is displaced, a poorer one is passed by. Up to 65535
   keys, the one in hand included, no probe distance wraps around.
   */
  lemma SetStep<K, V>(s: seq<Bucket<K, V>>, e: Bucket<K, V>, i: nat, t: nat,
                      s0: seq<Bucket<K, V>>, q: nat, key: K, value: V, hash: K -> nat, m: map<K, V>)
    requires Setting(s, e, i, t, s0, q, key, value, hash, m) && |m[key := value]| <= MAX_DIB
    requires s[i].Entry? && !(e.hash == s[i].hash && e.key == s[i].key)
    ensures e.Entry? && Seen(e) == e && i != q
    ensures s[i].dib < e.dib ==>
      Setting(s[i := e], Moved(s[i]), Next(i, |s|), t + 1, s0, q, key, value, hash, m)
    ensures s[i].dib >= e.dib ==>
      Setting(s, Moved(e), Next(i, |s|), t + 1, s0, q, key, value, hash, m)
  {
    hide Graded, Unique, Represents;
    if key in m {
      assert m[key := value].Keys == m.Keys;
      ProbeBelowLimit(s0, e, i, t, key, value, hash, m);
      ProbeStep(s0, e, i, t, key, value, hash, m);
      PassStep(s, e, i, q, hash);
    } else {
      DibBelowLimit(s, e, i, hash, m[key := value]);
      if s[i].dib < e.dib {
        SwapStep(s, e, i, q, hash);
        SwapHolds(s, e, i, m[key := value]);
      } else {
        PassStep(s, e, i, q, hash);
      }
    }
  }

  lemma ProbeStep<K, V>(s: seq<Bucket<K, V>>, e: Bucket<K, V>, i: nat, t: nat, key: K, value: V, hash: K -> nat,
                        m: map<K, V>)
    requires Probing(s, e, i, t, key, value, hash, m) && key in m && |m| <= MAX_DIB && e.dib < MAX_DIB
    requires s[i].Entry? && !(e.hash == s[i].hash && e.key == s[i].key)
    ensures Probing(s, Moved(e), Next(i, |s|), t + 1, key, value, hash, m)
  {
    KeyIsAhead(s, hash, key, m, t);
    assert Fits(s[i], i, |s|, hash);
    var j: nat :| Stores(s, j, key);
    assert Fits(s[j], j, |s|, hash);
    MetBeforeSwap(s, hash, key, j, t);
  }

  /** The bucket of the same key is met only when the key was bound, and then its value is replaced. */
  lemma SetReplace<K, V>(s: seq<Bucket<K, V>>, e: Bucket<K, V>, i: nat, t: nat,
                         s0: seq<Bucket<K, V>>, q: nat, key: K, value: V, hash: K -> nat, m: map<K, V>)
    requires Setting(s, e, i, t, s0, q, key, value, hash, m) && s[i].Entry? && e.key == s[i].key
    ensures key in m && m[key] == s[i].value
    ensures Represents(s[i := s[i].(value := e.value)], hash, m[key := value])
  {
    ReplaceStep(s, i, e.value, hash, m);
  }

  lemma SetPlace<K, V>(s: seq<Bucket<K, V>>, e: Bucket<K, V>, i: nat, t: nat,
                       s0: seq<Bucket<K, V>>, q: nat, key: K, value: V, hash: K -> nat, m: map<K, V>)
    requires Setting(s, e, i, t, s0, q, key, value, hash, m) && s[i].Vacant?
    ensures key !in m && Seen(e) == e && Represents(s[i := e], hash, m[key := value])
  {
    if key in m {
      KeyIsAhead(s0, hash, key, m, t);
      assert false;
    }
    PlaceStep(s, e, i, q, hash, m[key := value]);
  }

  // ---------------------------------------------------------------- one key too many

  /** One round of the insert loop at an occupied bucket of another key, with nothing assumed of the table. */
  function Round<K, V>(s: seq<Bucket<K, V>>, e: Bucket<K, V>, i: nat): (seq<Bucket<K, V>>, Bucket<K, V>, nat)
    requires i < |s| && s[i].Entry? && e.Entry?
  {
    if s[i].dib < e.dib then (s[i := Seen(e)], Moved(s[i]), Next(i, |s|)) else (s, Moved(e), Next(i, |s|))
  }

  /** A hash function that sends every key home to bucket 0. */
  function AllHome(key: nat): nat {
    0
  }

  /** The first `count` keys under that function. */
  function Crowd(n: nat, count: nat): (s: seq<Bucket<nat, bool>>)
    ensures |s| == n
  {
    seq(n, i requires 0 <= i < n => if i < count then Entry(0, i + 1, i, true) else Vacant)
  }

  ghost function CrowdMap(count: nat): map<nat, bool> {
    if count == 0 then map[] else CrowdMap(count - 1)[count - 1 := true]
  }

  lemma {:induction false} CrowdBindings(count: nat)
    ensures |CrowdMap(count)| == count
    ensures forall k: nat :: k in CrowdMap(count) <==> k < count
    ensures forall k :: k in CrowdMap(count) ==> CrowdMap(count)[k]
  {
    if count > 0 {
      CrowdBindings(count - 1);
      var m, before := CrowdMap(count), CrowdMap(count - 1);
      assert count - 1 !in before && m.Keys == before.Keys + {count - 1};
      forall k: nat
        ensures (k in m <==> k < count) && (k in m ==> m[k])
      {
        assert k in before <==> k < count - 1;
      }
    }
  }

  lemma CrowdAt(n: nat, count: nat, i: nat)
    requires count < n && i < n
    ensures Crowd(n, count)[i] == if i < count then Entry(0, i + 1, i, true) else Vacant
    ensures i < count ==> Fits(Crowd(n, count)[i], i, n, AllHome)
  {
  }

  lemma CrowdIsSound(n: nat, count: nat)
    requires 2 <= n && count < n
    ensures Represents(Crowd(n, count), AllHome, CrowdMap(count))
  {
    hide Crowd, Fits, CrowdMap, Dist, Home;
    var s, m := Crowd(n, count), CrowdMap(count);
    CrowdBindings(count);
    forall i: nat | i < n
      ensures s[i] == if i < count then Entry(0, i + 1, i, true) else Vacant
      ensures s[i].Entry? ==> Fits(s[i], i, |s|, AllHome)
    {
      CrowdAt(n, count, i);
    }
    assert Unique(s);
    assert Graded(s) by {
      forall i: nat | i < n
        ensures GradedAt(s, i)
      {
        assert s[Next(i, n)] == if Next(i, n) < count then Entry(0, Next(i, n) + 1, Next(i, n), true) else Vacant;
      }
    }
    forall k | k in m
      ensures Stores(s, k, k)
    {
      assert s[k] == Entry(0, k + 1, k, true);
    }
    assert forall i: nat :: i < |s| && s[i].Entry? ==> s[i].key in m && m[s[i].key] == s[i].value;
  }

  /** Up to `t` rounds from bucket `i` on, as long as the buckets are occupied. */
  function Rounds<K, V>(s: seq<Bucket<K, V>>, e: Bucket<K, V>, i: nat, t: nat): (seq<Bucket<K, V>>, Bucket<K, V>, nat)
  {
    if t == 0 then (s, e, i)
    else
      var (s1, e1, i1) := Rounds(s, e, i, t - 1);
      if i1 < |s1| && s1[i1].Entry? && e1.Entry? then Round(s1, e1, i1) else (s1, e1, i1)
  }

  /** An entry of the next key passes the whole crowd, and its probe distance counts modulo 65536. */
  lemma {:induction false} CrowdIsPassed(n: nat, count: nat, t: nat)
    requires t <= count < n && count <= 65535
    ensures Rounds(Crowd(n, count), Entry(0, 1, count, true), 0, t)
      == (Crowd(n, count), Entry(0, (t + 1) % 65536, count, true), t)
  {
    hide Crowd;
    if t > 0 {
      CrowdIsPassed(n, count, t - 1);
      CrowdAt(n, count, t - 1);
    }
  }

  /**
   The 65536th key of such a table of 131072 buckets, which does not have to grow for it: the entry arrives at
   the first empty bucket with a probe distance of 0, and storing it there stores nothing.
   */
  lemma KeyIsLost()
    ensures var n, count := 131072, 65535; var s := Crowd(n, count); var lost := Entry(0, 0, count, true);
      && Represents(s, AllHome, CrowdMap(count)) && |CrowdMap(count)| == count < n * 3 / 5
      && Rounds(s, Entry(0, 1, count, true), 0, count) == (s, lost, count) && s[count].Vacant?
      && s[count := Seen(lost)] == s && !exists i: nat :: Stores(s, i, count)
  {
    hide Represents, Rounds, CrowdMap;
    CrowdBindings(65535);
    CrowdIsSound(131072, 65535);
    CrowdIsPassed(131072, 65535, 65535);
  }

  // ---------------------------------------------------------------- backward-shift delete

  /**
   The table while a delete has a hole at `p`: all is in place except that the hole's right
   neighbour is graded against `g`, the dib of what used to stand in the hole.
   */
  ghost predicate Holed<K, V>(s: seq<Bucket<K, V>>, p: nat, g: nat, hash: K -> nat) {
    && 3 <= |s| && p < |s| && s[p].Vacant?
    && Placed(s, hash) && Unique(s)
    && (forall i: nat :: i < |s| && i != p ==> GradedAt(s, i))
    && Dib(s[Next(p, |s|)]) <= g + 1
    && g <= Dib(s[Prev(p, |s|)]) + 1
  }

  /** A delete's shift loop at the hole `p`, with the vacancy `q` still ahead and the bindings already those of `m`. */
  ghost predicate Shifting<K, V>(s: seq<Bucket<K, V>>, p: nat, g: nat, q: nat, hash: K -> nat, m: map<K, V>) {
    Holed(s, p, g, hash) && Holds(s, m) && q < |s| && s[q].Vacant? && q != p
  }

  lemma OpenHole<K, V>(s: seq<Bucket<K, V>>, p: nat, q: nat, hash: K -> nat, m: map<K, V>)
    requires Represents(s, hash, m) && 3 <= |s| && p < |s| && s[p].Entry? && q < |s| && s[q].Vacant?
    ensures Shifting(s[p := Vacant], p, s[p].dib, q, hash, m - {s[p].key})
  {
    var s', n := s[p := Vacant], |s|;
    assert GradedAt(s, p) && GradedAt(s, Prev(p, n));
    forall i: nat | i < n && i != p
      ensures GradedAt(s', i)
    {
      assert GradedAt(s, i);
    }
    forall k | k in m - {s[p].key}
      ensures exists i: nat :: Stores(s', i, k)
    {
      var i: nat :| Stores(s, i, k);
      assert Stores(s', i, k);
    }
  }

  /** One bucket back and one shorter probe. */
  function Shifted<K, V>(b: Bucket<K, V>): Bucket<K, V>
    requires b.Entry? && 1 <= b.dib
  {
    b.(dib := b.dib - 1)
  }

  /** Shifting out of a bucket with a stale copy before it is shifting out of one with a hole before it. */
  lemma StaleCopy<K, V>(b: seq<Bucket<K, V>>, s: seq<Bucket<K, V>>, p: nat, j: nat)
    requires p < |b| && j < |b| && p != j && s == b[p := Vacant]
    ensures s[j] == b[j]
    ensures b[j].Entry? && 1 <= b[j].dib ==> s[p := Shifted(s[j])][j := Vacant] == b[p := Shifted(b[j])][j := Vacant]
  {
  }

  lemma HoleMoves<K, V>(s: seq<Bucket<K, V>>, p: nat, g: nat, hash: K -> nat)
    requires Holed(s, p, g, hash) && 2 <= Dib(s[Next(p, |s|)])
    ensures var j := Next(p, |s|);
      Holed(s[p := Shifted(s[j])][j := Vacant], j, s[j].dib, hash)
  {
    var n, j := |s|, Next(p, |s|);
    var s' := s[p := Shifted(s[j])][j := Vacant];
    assert Fits(s[j], j, n, hash);
    assert Fits(s'[p], p, n, hash);
    assert GradedAt(s, j);
    forall i: nat | i < n && i != j
      ensures GradedAt(s', i)
    {
      if i != p {
        assert GradedAt(s, i);
      }
    }
  }

  lemma ShiftStep<K, V>(s: seq<Bucket<K, V>>, p: nat, g: nat, q: nat, hash: K -> nat, m: map<K, V>)
    requires Shifting(s, p, g, q, hash, m) && 2 <= Dib(s[Next(p, |s|)])
    ensures var j := Next(p, |s|);
      Shifting(s[p := Shifted(s[j])][j := Vacant], j, s[j].dib, q, hash, m)
  {
    HoleMoves(s, p, g, hash);
    var j := Next(p, |s|);
    var s' := s[p := Shifted(s[j])][j := Vacant];
    forall k | k in m
      ensures exists i: nat :: Stores(s', i, k)
    {
      var i: nat :| Stores(s, i, k);
      assert Stores(s', if i == j then p else i, k);
    }
  }

  /** A following entry that is at home, or a following vacancy, ends the shift with the hole left vacant. */
  lemma CloseHole<K, V>(s: seq<Bucket<K, V>>, p: nat, g: nat, q: nat, hash: K -> nat, m: map<K, V>)
    requires Shifting(s, p, g, q, hash, m) && Dib(s[Next(p, |s|)]) <= 1
    ensures Represents(s, hash, m)
  {
    assert GradedAt(s, p);
  }

  // ---------------------------------------------------------------- replacing and rehashing

  lemma ReplaceStep<K, V>(s: seq<Bucket<K, V>>, i: nat, v: V, hash: K -> nat, m: map<K, V>)
    requires Sound(s, hash) && Holds(s, m) && i < |s| && s[i].Entry?
    ensures Sound(s[i := s[i].(value := v)], hash)
    ensures Holds(s[i := s[i].(value := v)], m[s[i].key := v])
  {
    var s', m' := s[i := s[i].(value := v)], m[s[i].key := v];
    forall p: nat | p < |s|
      ensures GradedAt(s', p)
    {
      assert GradedAt(s, p);
    }
    forall k | k in m'
      ensures exists p: nat :: Stores(s', p, k)
    {
      assert Stores(s, i, s[i].key);
      var p: nat :| Stores(s, p, k);
      assert Stores(s', p, k);
    }
  }

  /** The bindings in the first `j` buckets. */
  ghost function Prefix<K, V>(s: seq<Bucket<K, V>>, j: nat): map<K, V>
    requires j <= |s|
  {
    if j == 0 then map[]
    else if s[j - 1].Vacant? then Prefix(s, j - 1)
    else Prefix(s, j - 1)[s[j - 1].key := s[j - 1].value]
  }

  lemma {:induction false} PrefixBindings<K, V>(s: seq<Bucket<K, V>>, m: map<K, V>, j: nat)
    requires Unique(s) && Holds(s, m) && j <= |s|
    ensures forall k :: k in Prefix(s, j) ==> k in m && Prefix(s, j)[k] == m[k]
    ensures forall k :: k in Prefix(s, j) <==> exists i: nat :: i < j && Stores(s, i, k)
  {
    hide Unique;
    if j > 0 {
      PrefixBindings(s, m, j - 1);
      forall k
        ensures k in Prefix(s, j) <==> exists i: nat :: i < j && Stores(s, i, k)
      {
        if k in Prefix(s, j) && k !in Prefix(s, j - 1) {
          assert Stores(s, j - 1, k);
        }
      }
    }
  }

  lemma PrefixOfAll<K, V>(s: seq<Bucket<K, V>>, m: map<K, V>)
    requires Unique(s) && Holds(s, m)
    ensures Prefix(s, |s|) == m
  {
    PrefixBindings(s, m, |s|);
  }

  lemma NoPrefix<K, V>(s: seq<Bucket<K, V>>)
    ensures Prefix(s, 0) == map[]
  {
  }

  /** The entry a rehash moves next is none of those it has moved before. */
  lemma PrefixNext<K, V>(s: seq<Bucket<K, V>>, hash: K -> nat, m: map<K, V>, j: nat)
    requires Represents(s, hash, m) && j < |s|
    ensures |Prefix(s, j)| <= |m|
    ensures s[j].Vacant? ==> Prefix(s, j + 1) == Prefix(s, j)
    ensures s[j].Entry? ==>
      && s[j].key !in Prefix(s, j) && s[j].hash == Clip(hash(s[j].key)) && |Prefix(s, j)| < |m|
      && Prefix(s, j + 1) == Prefix(s, j)[s[j].key := s[j].value]
  {
    PrefixBindings(s, m, j);
    SubsetIsNoLarger(Prefix(s, j).Keys, m.Keys);
    if s[j].Entry? {
      SubsetIsNoLarger(Prefix(s, j).Keys + {s[j].key}, m.Keys);
      assert Fits(s[j], j, |s|, hash);
    }
  }

  lemma NextIsNearer(i: nat, q: nat, n: nat)
    requires i < n && q < n && i != q
    ensures Dist(Next(i, n), q, n) < Dist(i, q, n) && Next(i, n) != i
  {
  }

  lemma VacantTable<K, V>(s: seq<Bucket<K, V>>, hash: K -> nat)
    requires 2 <= |s| && forall i: nat :: i < |s| ==> s[i].Vacant?
    ensures Represents(s, hash, map[])
  {
  }
}
