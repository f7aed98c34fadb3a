/**
 The hash table of src/hashmap.c: open addressing over a bucket array that the methods
 overwrite in place, growing and shrinking by rehashing into a fresh array.
 */
module HashTable {
  import opened Wrappers
  import opened Basics
  import opened RobinHood

  predicate PowerOfTwo(n: nat) {
    n == 1 || (n % 2 == 0 && 1 < n && PowerOfTwo(n / 2))
  }

  /** `1 << power`. */
  function Exp2(power: nat): (n: nat)
    ensures 1 <= n && (1 <= power ==> 2 <= n)
  {
    if power == 0 then 1 else 2 * Exp2(power - 1)
  }

  lemma DoubledPower(n: nat)
    requires PowerOfTwo(n)
    ensures PowerOfTwo(n * 2)
  {
    assert n * 2 / 2 == n;
  }

  lemma SixteenIsPower()
    ensures PowerOfTwo(16)
  {
    DoubledPower(1); DoubledPower(2); DoubledPower(4); DoubledPower(8);
  }

  /** Growing at either threshold leaves room below the next one. */
  lemma GrowthMakesRoom(n: nat, growat: nat, power: nat)
    requires 16 <= n && 1 <= power && (growat == n * 3 / 5 || growat == n * 3 / 4)
    ensures n <= n * Exp2(power) && growat < n * Exp2(power) * 3 / 5
  {
    var e := Exp2(power);
    assert n * e >= n * 2;
  }

  /** The thresholds: 0.60 of the buckets after allocation or rehash, 0.75 after a clear, 0.10 to shrink. */
  ghost predicate Tuned(cap: nat, nbuckets: nat, growat: nat, shrinkat: nat, growpower: nat) {
    && 16 <= cap <= nbuckets && PowerOfTwo(cap) && PowerOfTwo(nbuckets)
    && (growat == nbuckets * 3 / 5 || growat == nbuckets * 3 / 4)
    && shrinkat == nbuckets / 10 && 1 <= growpower <= 16
  }

  /** A power of two above another is at least twice it, so half of it still covers the capacity. */
  lemma {:induction false} HalfIsEnough(cap: nat, n: nat)
    requires PowerOfTwo(cap) && PowerOfTwo(n) && cap < n
    ensures cap <= n / 2
  {
    if cap > 1 {
      HalfIsEnough(cap / 2, n / 2);
    }
  }

  /** Rounding a power of two up to a power of two changes nothing. */
  lemma RoundedPower(cap: nat, n: nat)
    requires PowerOfTwo(cap) && PowerOfTwo(n) && cap <= n && n / 2 < cap
    ensures n == cap
  {
    if cap < n {
      HalfIsEnough(cap, n);
    }
  }

  lemma {:induction false} GrownPower(n: nat, power: nat)
    requires PowerOfTwo(n)
    ensures PowerOfTwo(n * Exp2(power))
  {
    if power > 0 {
      GrownPower(n, power - 1);
      DoubledPower(n * Exp2(power - 1));
      assert n * Exp2(power) == n * Exp2(power - 1) * 2;
    }
  }

  lemma HalvedPower(n: nat)
    requires PowerOfTwo(n) && 1 < n
    ensures PowerOfTwo(n / 2)
  {
  }

  class HashMap<K(==), V> {
    const hash: K -> nat
    var buckets: array<Bucket<K, V>>
    var nbuckets: nat
    var cap: nat
    var count: nat
    var growat: nat
    var shrinkat: nat
    var growpower: nat
    var oom: bool
    /** The finite map that the buckets stand for. */
    ghost var Contents: map<K, V>

    ghost predicate Valid()
      reads this, buckets
    {
      && Tuned(cap, nbuckets, growat, shrinkat, growpower)
      && count == |Contents| <= growat && count <= 65535
      && nbuckets <= buckets.Length
      && Represents(buckets[..nbuckets], hash, Contents)
    }

    /** An allocated, empty table; `capacity` is already a power of two of at least 16. */
    constructor (hash: K -> nat, capacity: nat)
      requires 16 <= capacity && PowerOfTwo(capacity)
      ensures Valid() && fresh(buckets) && Contents == map[] && !oom
      ensures this.hash == hash && cap == nbuckets == buckets.Length == capacity
      ensures growat == nbuckets * 3 / 5 && growpower == 1
    {
      this.hash := hash;
      cap, nbuckets, count := capacity, capacity, 0;
      growat, shrinkat := capacity * 3 / 5, capacity / 10;
      growpower, oom := 1, false;
      var a := new Bucket<K, V>[capacity](_ => Vacant);
      buckets := a;
      Contents := map[];
      VacantTable(a[..capacity], hash);
    }

    /** Rounds the capacity up to the least power of two that is at least 16; no table when an allocation fails. */
    static method New(hash: K -> nat, capacity: nat, granted: bool) returns (table: HashMap?<K, V>)
      ensures table != null <==> granted
      ensures table != null ==> table.Valid() && fresh(table) && fresh(table.buckets)
      ensures table != null ==> table.Contents == map[] && table.hash == hash && !table.oom
      ensures table != null ==> table.cap == table.nbuckets == table.buckets.Length
      ensures table != null ==> capacity <= table.nbuckets && (table.nbuckets == 16 || table.nbuckets / 2 < capacity)
      ensures table != null ==> table.growat == table.nbuckets * 3 / 5 && table.growpower == 1
    {
      SixteenIsPower();
      hide PowerOfTwo, Represents;
      var ncap := 16;
      while ncap < capacity
        invariant 16 <= ncap && PowerOfTwo(ncap)
        invariant ncap == 16 || ncap / 2 < capacity
        decreases capacity - ncap
      {
        DoubledPower(ncap);
        ncap := ncap * 2;
      }
      if !granted {
        return null;
      }
      table := new HashMap<K, V>(hash, ncap);
    }

    method SetGrowByPower(power: nat)
      requires Valid()
      modifies this`growpower
      ensures Valid() && 1 <= growpower <= 16 && (1 <= power <= 16 ==> growpower == power)
      ensures (power < 1 ==> growpower == 1) && (power > 16 ==> growpower == 16)
    {
      growpower := if power < 1 then 1 else if power > 16 then 16 else power;
    }

    /** The displacement loop of a rehash: no key is compared, the entry is known to be new. */
    static method Reinsert(a: array<Bucket<K, V>>, moved: Bucket<K, V>, hash: K -> nat, ghost m: map<K, V>)
      requires Represents(a[..], hash, m) && |m| < a.Length && |m| < 65535
      requires moved.Entry? && moved.key !in m && moved.hash == Clip(hash(moved.key))
      modifies a
      ensures Represents(a[..], hash, m[moved.key := moved.value])
    {
      ghost var s0, t: nat := a[..], 0;
      ghost var q: nat := VacancyExists(s0, m);
      hide Setting, Represents, Dist, Next, Moved;
      SetStart(s0, q, moved.key, moved.value, hash, m);
      var entry := moved.(dib := 1);
      var j: nat := Home(entry.hash, a.Length);
      while a[j].Entry?
        invariant j < a.Length && entry.Entry? && q < a.Length && a[q].Vacant?
        invariant Setting(a[..], entry, j, t, s0, q, moved.key, moved.value, hash, m)
        decreases Dist(j, q, a.Length)
      {
        var bucket := a[j];
        ghost var s := a[..];
        NextIsNearer(j, q, a.Length);
        SetStep(s, entry, j, t, s0, q, moved.key, moved.value, hash, m);
        if bucket.dib < entry.dib {
          a[j] := Seen(entry);
          assert a[..] == s[j := entry];
          entry := Moved(bucket);
        } else {
          entry := Moved(entry);
        }
        j, t := Next(j, a.Length), t + 1;
      }
      SetPlace(a[..], entry, j, t, s0, q, moved.key, moved.value, hash, m);
      ghost var s := a[..];
      a[j] := Seen(entry);
      assert a[..] == s[j := entry];
    }

    /** Moves every entry of `src` into the empty array `dst`. */
    static method Rehash(src: array<Bucket<K, V>>, n: nat, dst: array<Bucket<K, V>>, hash: K -> nat, ghost m: map<K, V>)
      requires n <= src.Length && src != dst
      requires Represents(src[..n], hash, m) && |m| < dst.Length && |m| <= 65535
      requires Represents(dst[..], hash, map[])
      modifies dst
      ensures Represents(dst[..], hash, m)
    {
      ghost var s := src[..n];
      PrefixOfAll(s, m);
      NoPrefix(s);
      hide Represents, Prefix;
      var i := 0;
      while i < n
        invariant i <= n && src[..n] == s
        invariant Represents(dst[..], hash, Prefix(s, i))
      {
        PrefixNext(s, hash, m, i);
        assert s[i] == src[i];
        if src[i].Entry? {
          Reinsert(dst, src[i], hash, Prefix(s, i));
        }
        i := i + 1;
      }
    }

    /** Rehashes into a fresh table of at least `newCap` buckets and takes that table's array over. */
    method Resize(newCap: nat, granted: bool) returns (ok: bool)
      requires Valid() && cap <= newCap && count < newCap * 3 / 5
      modifies this
      ensures ok == granted && Valid() && Contents == old(Contents)
      ensures cap == old(cap) && count == old(count) && growpower == old(growpower) && oom == old(oom)
      ensures ok ==> fresh(buckets) && newCap <= nbuckets && growat == nbuckets * 3 / 5
      ensures ok ==> nbuckets == 16 || nbuckets / 2 < newCap
      ensures ok && PowerOfTwo(newCap) ==> nbuckets == newCap
      ensures ok ==> shrinkat == nbuckets / 10
      ensures !ok ==> unchanged(this)
    {
      hide Represents, PowerOfTwo;
      var map2 := New(hash, newCap, granted);
      if map2 == null {
        return false;
      }
      if PowerOfTwo(newCap) {
        RoundedPower(newCap, map2.nbuckets);
      }
      assert map2.buckets[..map2.nbuckets] == map2.buckets[..];
      Rehash(buckets, nbuckets, map2.buckets, hash, Contents);
      assert map2.buckets[..map2.nbuckets] == map2.buckets[..];
      buckets, nbuckets, growat, shrinkat := map2.buckets, map2.nbuckets, map2.growat, map2.shrinkat;
      ok := true;
    }

    /**
     The probe loop of a set: replaces the value of a key it meets, and otherwise displaces
     entries until the one in hand reaches a vacant bucket.
     */
    static method Displace(a: array<Bucket<K, V>>, n: nat, key: K, value: V, hash: K -> nat, ghost m: map<K, V>)
      returns (previous: Option<V>)
      requires n <= a.Length && Represents(a[..n], hash, m) && |m| < n && |m[key := value]| <= 65535
      modifies a
      ensures Represents(a[..n], hash, m[key := value]) && previous == Binding(m, key)
    {
      ghost var s0 := a[..n];
      ghost var q: nat := VacancyExists(s0, m);
      hide Setting, Represents, Dist, Next, Moved;
      ghost var t: nat := 0;
      var entry := Entry(Clip(hash(key)), 1, key, value);
      var i: nat := Home(entry.hash, n);
      SetStart(s0, q, key, value, hash, m);
      while a[i].Entry?
        invariant i < n && entry.Entry? && q < n && a[q].Vacant?
        invariant Setting(a[..n], entry, i, t, s0, q, key, value, hash, m)
        decreases Dist(i, q, n)
      {
        var bucket := a[i];
        ghost var s := a[..n];
        if entry.hash == bucket.hash && entry.key == bucket.key {
          SetReplace(s, entry, i, t, s0, q, key, value, hash, m);
          a[i] := bucket.(value := entry.value);
          assert a[..n] == s[i := bucket.(value := entry.value)];
          return Some(bucket.value);
        }
        NextIsNearer(i, q, n);
        SetStep(s, entry, i, t, s0, q, key, value, hash, m);
        if bucket.dib < entry.dib {
          a[i] := Seen(entry);
          assert a[..n] == s[i := entry];
          entry := Moved(bucket);
        } else {
          assert a[..n] == s;
          entry := Moved(entry);
        }
        i, t := Next(i, n), t + 1;
      }
      SetPlace(a[..n], entry, i, t, s0, q, key, value, hash, m);
      ghost var s := a[..n];
      a[i] := Seen(entry);
      assert a[..n] == s[i := entry];
      previous := None;
    }

    method Grow(granted: bool) returns (ok: bool)
      requires Valid() && count == growat
      modifies this
      ensures ok == granted && Valid() && Contents == old(Contents) && count == old(count)
      ensures cap == old(cap) && growpower == old(growpower) && oom == old(oom)
      ensures ok ==> fresh(buckets) && count < growat
      ensures ok ==>
        nbuckets == old(nbuckets) * Exp2(growpower) && growat == nbuckets * 3 / 5 && shrinkat == nbuckets / 10
      ensures !ok ==> unchanged(this)
    {
      hide PowerOfTwo, Represents;
      GrownPower(nbuckets, growpower);
      GrowthMakesRoom(nbuckets, growat, growpower);
      ok := Resize(nbuckets * Exp2(growpower), granted);
    }

    /**
     Inserts or replaces; refused, with `oom` raised, when the table must grow and cannot. A key beyond the
     65535th may be lost, as `RobinHood.KeyIsLost` shows.
     */
    method Set(key: K, value: V, granted: bool) returns (previous: Option<V>)
      requires Valid() && (count < 65535 || key in Contents)
      modifies this, buckets
      ensures Valid() && cap == old(cap) && growpower == old(growpower)
      ensures buckets == old(buckets) || fresh(buckets)
      ensures oom <==> old(count) == old(growat) && !granted
      ensures oom ==> Contents == old(Contents) && previous == None && nbuckets == old(nbuckets)
      ensures !oom ==> Contents == old(Contents)[key := value] && previous == Binding(old(Contents), key)
      ensures !oom && old(count) == old(growat) ==>
        nbuckets == old(nbuckets) * Exp2(growpower) && growat == nbuckets * 3 / 5 && shrinkat == nbuckets / 10
      ensures !oom && old(count) != old(growat) ==> nbuckets == old(nbuckets) && growat == old(growat)
    {
      hide Represents, PowerOfTwo;
      oom := false;
      if count == growat {
        var ok := Grow(granted);
        if !ok {
          oom := true;
          return None;
        }
      }
      previous := Displace(buckets, nbuckets, key, value, hash, Contents);
      if previous == None {
        count := count + 1;
      }
      Contents := Contents[key := value];
    }

    /**
     Vacates bucket `hole` and shifts the following entries back until one is at home or a bucket is
     vacant. The bucket an entry was copied from keeps its stale copy until the next round.
     */
    static method ShiftBack(a: array<Bucket<K, V>>, n: nat, hole: nat, hash: K -> nat, ghost m: map<K, V>)
      requires 3 <= n <= a.Length && |m| < n && Represents(a[..n], hash, m)
      requires hole < n && a[hole].Entry?
      modifies a
      ensures Represents(a[..n], hash, m - {old(a[hole].key)})
    {
      ghost var s, m', g := a[..n], m - {a[hole].key}, a[hole].dib;
      ghost var q: nat := VacancyExists(s, m);
      OpenHole(s, hole, q, hash, m);
      hide Represents, Shifting, Dist, Next, Shifted;
      Put(a, n, hole, Vacant);
      s := s[hole := Vacant];
      var prev: nat := hole;
      while Dib(a[Next(prev, n)]) > 1
        invariant prev < n && q < n && q != prev && a[q].Vacant?
        invariant s == a[..n][prev := Vacant] && Shifting(s, prev, g, q, hash, m')
        decreases Dist(prev, q, n)
      {
        var i: nat := Next(prev, n);
        ghost var b := a[..n];
        NextIsNearer(prev, q, n);
        StaleCopy(b, s, prev, i);
        ShiftStep(s, prev, g, q, hash, m');
        g, s := a[i].dib, s[prev := Shifted(s[i])][i := Vacant];
        Put(a, n, prev, Shifted(a[i]));
        prev := i;
      }
      CloseHole(s, prev, g, q, hash, m');
      Put(a, n, prev, Vacant);
    }

    static method Put(a: array<Bucket<K, V>>, n: nat, i: nat, b: Bucket<K, V>)
      requires i < n <= a.Length
      modifies a
      ensures a[..n] == old(a[..n])[i := b]
    {
      a[i] := b;
    }

    /** Finds the bucket of a key, or a vacant bucket when the key is not bound. */
    method Probe(key: K) returns (i: nat)
      requires Valid()
      ensures i < nbuckets
      ensures key in Contents ==> Stores(buckets[..nbuckets], i, key) && buckets[i].value == Contents[key]
      ensures key !in Contents ==> buckets[i].Vacant?
    {
      ghost var s, t: nat := buckets[..nbuckets], 0;
      ghost var q: nat := VacancyExists(s, Contents);
      var h := Clip(hash(key));
      i := Home(h, nbuckets);
      while buckets[i].Entry? && !(buckets[i].hash == h && buckets[i].key == key)
        invariant Seeking(s, h, i, t, q, key)
        decreases Dist(Home(h, nbuckets), q, nbuckets) - t
      {
        SeekStep(s, hash, h, i, t, q, key);
        i, t := Next(i, nbuckets), t + 1;
      }
      if key in Contents {
        KeyIsAhead(s, hash, key, Contents, t);
      }
    }

    method Get(key: K) returns (found: Option<V>)
      requires Valid()
      ensures found == Binding(Contents, key)
    {
      var i := Probe(key);
      if buckets[i].Vacant? {
        return None;
      }
      found := Some(buckets[i].value);
    }

    method Unlink(i: nat)
      requires Valid() && i < nbuckets && buckets[i].Entry?
      modifies this`count, this`Contents, buckets
      ensures Valid() && Contents == old(Contents) - {old(buckets[i].key)}
    {
      ghost var key := buckets[i].key;
      assert Stores(buckets[..nbuckets], i, key);
      ShiftBack(buckets, nbuckets, i, hash, Contents);
      Contents := Contents - {key};
      count := count - 1;
    }

    /** Removes exactly the given key; a shrink that cannot be allocated is skipped silently. */
    method Delete(key: K, granted: bool) returns (removed: Option<V>)
      requires Valid()
      modifies this, buckets
      ensures Valid() && !oom && cap == old(cap) && growpower == old(growpower)
      ensures buckets == old(buckets) || fresh(buckets)
      ensures Contents == old(Contents) - {key} && removed == Binding(old(Contents), key)
      ensures var shrinks := removed.Some? && old(nbuckets) > cap && count <= old(shrinkat) && granted;
        nbuckets == if shrinks then old(nbuckets) / 2 else old(nbuckets)
    {
      hide Represents, PowerOfTwo;
      oom := false;
      var i := Probe(key);
      if buckets[i].Vacant? {
        assert Contents == Contents - {key};
        return None;
      }
      removed := Some(buckets[i].value);
      Unlink(i);
      if nbuckets > cap && count <= shrinkat {
        HalfIsEnough(cap, nbuckets);
        HalvedPower(nbuckets);
        var _ := Resize(nbuckets / 2, granted);
      }
    }

    static method Wipe(a: array<Bucket<K, V>>, n: nat, ghost hash: K -> nat)
      requires 2 <= n <= a.Length
      modifies a
      ensures Represents(a[..n], hash, map[])
    {
      var i := 0;
      while i < n
        invariant i <= n && forall j: nat :: j < i ==> a[j].Vacant?
      {
        a[i] := Vacant;
        i := i + 1;
      }
      VacantTable(a[..n], hash);
    }

    /** Empties the table; a failed allocation keeps the larger array and uses the front of it. */
    method Clear(updateCap: bool, granted: bool)
      requires Valid()
      modifies this, buckets
      ensures Valid() && Contents == map[] && growpower == old(growpower) && oom == old(oom)
      ensures buckets == old(buckets) || fresh(buckets)
      ensures cap == nbuckets == (if updateCap then old(nbuckets) else old(cap))
      ensures growat == nbuckets * 3 / 4 && shrinkat == nbuckets / 10
    {
      hide Represents, PowerOfTwo;
      count := 0;
      if updateCap {
        cap := nbuckets;
      } else if nbuckets != cap {
        if granted {
          buckets := new Bucket<K, V>[cap](_ => Vacant);
        }
        nbuckets := cap;
      }
      Wipe(buckets, nbuckets, hash);
      growat, shrinkat := nbuckets * 3 / 4, nbuckets / 10;
      Contents := map[];
    }

    /** Steps to the next occupied bucket at or after `start`. */
    method Iter(start: nat) returns (item: Option<(K, V)>, next: nat)
      requires Valid() && start <= nbuckets
      ensures item == None ==> next == nbuckets && forall j: nat :: start <= j < nbuckets ==> buckets[j].Vacant?
      ensures item != None ==> start < next <= nbuckets && buckets[next - 1].Entry?
      ensures item != None ==> item.value == (buckets[next - 1].key, buckets[next - 1].value)
      ensures item != None ==> forall j: nat :: start <= j < next - 1 ==> buckets[j].Vacant?
    {
      next := start;
      while next < nbuckets
        invariant start <= next <= nbuckets
        invariant forall j: nat :: start <= j < next ==> buckets[j].Vacant?
      {
        var bucket := buckets[next];
        next := next + 1;
        if bucket.Entry? {
          return Some((bucket.key, bucket.value)), next;
        }
      }
      item := None;
    }
  }
}
