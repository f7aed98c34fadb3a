/**
 Key-mapping tables on the wire: a Robin Hood table from list SIDs to their key SIDs, written in bucket
 order as an indefinite-length map of indefinite-length arrays, and read back into a fresh table.
 */
module KeyMapping {
  import opened Wrappers
  import opened RobinHood
  import opened HashTable
  import opened Heads
  import opened Items
  import opened Skipping
  import opened Values
  import opened Encoders
  import opened Decoders
  import opened Parser
  import Lookup

  type Row = Bucket<int, seq<int>>

  predicate IsLong(n: int) {
    -TWO_63 <= n < TWO_63
  }

  /** The keys and the listed SIDs are 64-bit signed integers. */
  ghost predicate AreLongs(m: map<int, seq<int>>) {
    forall k :: k in m ==> IsLong(k) && AllLong(m[k])
  }

  ghost predicate AllLong(l: seq<int>) {
    forall i :: 0 <= i < |l| ==> IsLong(l[i])
  }

  // ---------------------------------------------------------------- the item a table is written as

  /** A signed integer goes through `zcbor_uint64_put` as its bit pattern. */
  function Word(n: int): nat {
    n % TWO_64
  }

  function Number(n: int): Item {
    Uint(Shortest(Word(n)), Word(n))
  }

  function Numbers(l: seq<int>): (items: seq<Item>)
    ensures |items| == |l|
  {
    seq(|l|, i requires 0 <= i < |l| => Number(l[i]))
  }

  function Listed(l: seq<int>): Item {
    List(Indefinite, Numbers(l))
  }

  lemma ListedWellFormed(l: seq<int>)
    ensures AllWellFormed(Numbers(l)) && WellFormed(Listed(l))
  {
  }

  /** The keys and lists of the first `j` buckets. */
  function Rows(s: seq<Row>, j: nat): seq<Item>
    requires j <= |s|
  {
    if j == 0 then []
    else if s[j - 1].Vacant? then Rows(s, j - 1)
    else Rows(s, j - 1) + [Number(s[j - 1].key), Listed(s[j - 1].value)]
  }

  lemma {:induction false} RowsGrow(s: seq<Row>, j: nat, n: nat)
    requires j <= n <= |s|
    ensures |Rows(s, j)| <= |Rows(s, n)| && Rows(s, n)[..|Rows(s, j)|] == Rows(s, j)
    decreases n
  {
    hide Number, Listed;
    if j < n {
      RowsGrow(s, j, n - 1);
    }
  }

  lemma {:induction false} RowsOverVacant(s: seq<Row>, i: nat, j: nat)
    requires i <= j <= |s| && forall k :: i <= k < j ==> s[k].Vacant?
    ensures Rows(s, i) == Rows(s, j)
    decreases j
  {
    hide Number, Listed;
    if i < j {
      RowsOverVacant(s, i, j - 1);
    }
  }

  lemma {:induction false} RowsWellFormed(s: seq<Row>, j: nat)
    requires j <= |s|
    ensures AllWellFormed(Rows(s, j)) && |Rows(s, j)| % 2 == 0
  {
    hide WellFormed, Listed;
    if j > 0 {
      RowsWellFormed(s, j - 1);
      if s[j - 1].Entry? {
        ListedWellFormed(s[j - 1].value);
        assert WellFormed(Number(s[j - 1].key)) by { NumberWellFormed(s[j - 1].key); }
      }
    }
  }

  lemma NumberWellFormed(n: int)
    ensures WellFormed(Number(n)) && Wire(Number(n)) == Head(0, Shortest(Word(n)), Word(n))
  {
  }

  function Mapped(s: seq<Row>): Item {
    Item.Map(Indefinite, Rows(s, |s|))
  }

  lemma MappedWellFormed(s: seq<Row>)
    ensures WellFormed(Mapped(s)) && Wire(Mapped(s)) == [MAP_START] + WireFrom(Rows(s, |s|), 0) + [BREAK]
  {
    RowsWellFormed(s, |s|);
  }

  /** A binding of 5 to the list of 7 and 1000: the key, and an array of indefinite length. */
  lemma RowOnTheWire()
    ensures WellFormed(Number(5)) && Wire(Number(5)) == [0x05]
    ensures WellFormed(Listed([7, 1000])) && Wire(Listed([7, 1000])) == [0x9F, 0x07, 0x19, 0x03, 0xE8, 0xFF]
  {
    hide Head, BigEndian;
    HeadExamples();
    SmallHead(5);
    SmallHead(7);
    NumberWellFormed(5);
    NumberWellFormed(7);
    NumberWellFormed(1000);
    ListedWellFormed([7, 1000]);
    var items := Numbers([7, 1000]);
    assert WireFrom(items, 2) == [];
    assert WireFrom(items, 1) == Wire(items[1]) + WireFrom(items, 2);
    assert WireFrom(items, 0) == Wire(items[0]) + WireFrom(items, 1);
  }

  lemma SmallHead(n: byte)
    requires n < 24
    ensures Head(0, Shortest(n), n) == [n]
  {
    Bytes(n, 0);
  }

  // ---------------------------------------------------------------- writing

  /** Succeeds exactly if there is room, and then has written exactly the list. */
  method ListToCbor(e: Encoder, l: seq<int>) returns (ok: bool)
    requires e.Valid()
    modifies e, e.buf
    ensures e.Valid() && WellFormed(Listed(l))
    ensures ok ==> e.Written() == old(e.Written()) + Wire(Listed(l))
    ensures !ok ==> old(e.payload) + |Wire(Listed(l))| > e.buf.Length
  {
    hide WellFormed, Wire, WireFrom, Numbers;
    ListedWire(l);
    ghost var before, wire := e.Written(), WireFrom(Numbers(l), 0);
    ok := e.HeaderByte(4, 31);
    if !ok {
      return;
    }
    ok := NumbersToCbor(e, l);
    if !ok {
      return;
    }
    ghost var body := e.Written();
    assert body == before + ([LIST_START] + wire);
    ok := e.HeaderByte(7, 31);
    assert ok ==> e.Written() == body + [BREAK];
    assert ok ==> e.Written() == before + ([LIST_START] + wire + [BREAK]);
  }

  method NumbersToCbor(e: Encoder, l: seq<int>) returns (ok: bool)
    requires e.Valid() && AllWellFormed(Numbers(l))
    modifies e, e.buf
    ensures e.Valid()
    ensures var wire := WireFrom(Numbers(l), 0);
      if ok then e.Written() == old(e.Written()) + wire else old(e.payload) + |wire| > e.buf.Length
  {
    hide WellFormed, Wire, Head, BigEndian;
    ghost var start, items := e.Written(), Numbers(l);
    var i := 0;
    while i < |l|
      invariant i <= |l| && e.Valid()
      invariant e.Written() + WireFrom(items, i) == start + WireFrom(items, 0)
    {
      NumberWellFormed(l[i]);
      Powers();
      ShortestIsShortest(0, Word(l[i]), Shortest(Word(l[i])));
      ghost var now := e.Written();
      assert WireFrom(items, i) == Wire(Number(l[i])) + WireFrom(items, i + 1);
      ok := e.UintPut(l[i] % TWO_64, 8);
      if !ok {
        assert |start| + |WireFrom(items, 0)| == |now| + |WireFrom(items, i)|;
        return;
      }
      assert e.Written() + WireFrom(items, i + 1) == now + WireFrom(items, i);
      i := i + 1;
    }
    assert WireFrom(items, i) == [];
    ok := true;
  }

  lemma ListedWire(l: seq<int>)
    ensures WellFormed(Listed(l)) && AllWellFormed(Numbers(l))
    ensures Wire(Listed(l)) == [LIST_START] + WireFrom(Numbers(l), 0) + [BREAK]
  {
    ListedWellFormed(l);
  }

  /** What a step of the iterator from bucket `i` reports. */
  ghost predicate Stepped(s: seq<Row>, i: nat, item: Option<(int, seq<int>)>, next: nat) {
    && i <= next <= |s|
    && (item == None ==> forall k: nat :: i <= k < |s| ==> s[k].Vacant?)
    && (item != None ==>
          && i < next && s[next - 1].Entry? && item.value == (s[next - 1].key, s[next - 1].value)
          && forall k: nat :: i <= k < next - 1 ==> s[k].Vacant?)
  }

  method Step(table: HashMap<int, seq<int>>, i: nat) returns (item: Option<(int, seq<int>)>, next: nat)
    requires table.Valid() && i <= table.nbuckets
    ensures Stepped(table.buckets[..table.nbuckets], i, item, next)
    ensures i <= next <= table.nbuckets && (item != None ==> i < next)
  {
    hide Represents;
    item, next := table.Iter(i);
  }

  /** The next occupied bucket supplies the next two items; without one there are no more items. */
  lemma NextRow(s: seq<Row>, i: nat, item: Option<(int, seq<int>)>, next: nat)
    requires i <= |s| && Stepped(s, i, item, next)
    ensures AllWellFormed(Rows(s, |s|)) && |Rows(s, i)| <= |Rows(s, |s|)|
    ensures item == None ==> WireFrom(Rows(s, |s|), |Rows(s, i)|) == []
    ensures item != None ==>
      && next <= |s| && WellFormed(Number(item.value.0)) && WellFormed(Listed(item.value.1))
      && |Rows(s, next)| <= |Rows(s, |s|)|
      && WireFrom(Rows(s, |s|), |Rows(s, i)|)
         == Wire(Number(item.value.0)) + Wire(Listed(item.value.1)) + WireFrom(Rows(s, |s|), |Rows(s, next)|)
  {
    hide WellFormed, Wire, Listed, Number;
    RowsWellFormed(s, |s|);
    if item == None {
      RowsOverVacant(s, i, |s|);
    } else {
      OccupiedRow(s, i, next);
    }
  }

  lemma OccupiedRow(s: seq<Row>, i: nat, next: nat)
    requires i < next <= |s| && s[next - 1].Entry? && forall k: nat :: i <= k < next - 1 ==> s[k].Vacant?
    ensures var items, done := Rows(s, |s|), |Rows(s, i)|;
      && AllWellFormed(items) && done + 2 == |Rows(s, next)| <= |items|
      && WellFormed(Number(s[next - 1].key)) && WellFormed(Listed(s[next - 1].value))
      && WireFrom(items, done)
         == Wire(Number(s[next - 1].key)) + Wire(Listed(s[next - 1].value)) + WireFrom(items, done + 2)
  {
    hide WellFormed, Wire, Listed, Number;
    RowsOverVacant(s, i, next - 1);
    RowsGrow(s, next, |s|);
    RowsWellFormed(s, |s|);
    var items, done := Rows(s, |s|), |Rows(s, i)|;
    assert items[..done + 2] == Rows(s, next);
    assert items[done] == Rows(s, next)[done] && items[done + 1] == Rows(s, next)[done + 1];
    assert WireFrom(items, done) == Wire(items[done]) + WireFrom(items, done + 1);
  }

  /** Succeeds exactly if there is room, and then has written every binding once, in bucket order. */
  method KeyMappingHashMapToCbor(table: HashMap<int, seq<int>>, e: Encoder) returns (ok: bool)
    requires table.Valid() && e.Valid()
    modifies e, e.buf
    ensures e.Valid() && table.Valid() && table.Contents == old(table.Contents)
    ensures var item := Mapped(table.buckets[..table.nbuckets]);
      && WellFormed(item)
      && (ok ==> e.Written() == old(e.Written()) + Wire(item))
      && (!ok ==> old(e.payload) + |Wire(item)| > e.buf.Length)
  {
    hide WellFormed, Wire, Represents, Rows;
    ghost var before, s := e.Written(), table.buckets[..table.nbuckets];
    MappedWellFormed(s);
    RowsWellFormed(s, |s|);
    ghost var wire := WireFrom(Rows(s, |s|), 0);
    ok := e.HeaderByte(5, 31);
    if !ok {
      return;
    }
    ok := RowsToCbor(table, e);
    if !ok {
      return;
    }
    ghost var body := e.Written();
    assert body == before + ([MAP_START] + wire);
    ok := e.HeaderByte(7, 31);
    assert ok ==> e.Written() == body + [BREAK];
    assert ok ==> e.Written() == before + ([MAP_START] + wire + [BREAK]);
  }

  method RowsToCbor(table: HashMap<int, seq<int>>, e: Encoder) returns (ok: bool)
    requires table.Valid() && e.Valid() && AllWellFormed(Rows(table.buckets[..table.nbuckets], table.nbuckets))
    modifies e, e.buf
    ensures e.Valid()
    ensures var wire := WireFrom(Rows(table.buckets[..table.nbuckets], table.nbuckets), 0);
      if ok then e.Written() == old(e.Written()) + wire else old(e.payload) + |wire| > e.buf.Length
  {
    hide WellFormed, Wire, WireFrom, AllWellFormed, Listed, Number, Represents, Rows, Tuned, Stepped;
    ghost var s := table.buckets[..table.nbuckets];
    ghost var start, items := e.Written(), Rows(s, |s|);
    NoRows(s);
    ghost var at: nat := 0;
    var item, iter := Step(table, 0);
    while item != None
      invariant e.Valid() && table.Valid() && table.buckets[..table.nbuckets] == s
      invariant at <= iter <= |s| && Stepped(s, at, item, iter) && (item != None ==> at < iter)
      invariant |Rows(s, at)| <= |items| && e.Written() + WireFrom(items, |Rows(s, at)|) == start + WireFrom(items, 0)
      decreases |s| - at
    {
      NextRow(s, at, item, iter);
      ghost var now, rest := e.Written(), WireFrom(items, |Rows(s, iter)|);
      ok := PairToCbor(e, item.value.0, item.value.1);
      if !ok {
        assert |start| + |WireFrom(items, 0)| == |now| + |WireFrom(items, |Rows(s, at)|)|;
        return;
      }
      assert e.Written() + rest == now + WireFrom(items, |Rows(s, at)|);
      at := iter;
      item, iter := Step(table, iter);
    }
    NextRow(s, at, item, iter);
    ok := true;
  }

  method PairToCbor(e: Encoder, key: int, l: seq<int>) returns (ok: bool)
    requires e.Valid()
    modifies e, e.buf
    ensures e.Valid() && WellFormed(Number(key)) && WellFormed(Listed(l))
    ensures ok ==> e.Written() == old(e.Written()) + (Wire(Number(key)) + Wire(Listed(l)))
    ensures !ok ==> old(e.payload) + |Wire(Number(key))| + |Wire(Listed(l))| > e.buf.Length
  {
    hide WellFormed, Wire, Head, BigEndian, Listed;
    ListedWellFormed(l);
    NumberWellFormed(key);
    Powers();
    ShortestIsShortest(0, Word(key), Shortest(Word(key)));
    ok := e.UintPut(key % TWO_64, 8);
    if !ok {
      return;
    }
    ok := ListToCbor(e, l);
  }

  lemma NoRows(s: seq<Row>)
    ensures Rows(s, 0) == []
  {
  }

  // ---------------------------------------------------------------- reading

  /** A map from unsigned integers to lists of unsigned integers. */
  ghost predicate IsMapping(it: Item) {
    && WellFormed(it) && it.Map? && |it.items| % 2 == 0
    && forall i :: 0 <= i < |it.items| ==> if i % 2 == 0 then it.items[i].Uint? else IsList(it.items[i])
  }

  predicate IsList(it: Item) {
    it.List? && forall i :: 0 <= i < |it.items| ==> it.items[i].Uint?
  }

  function Longs(items: seq<Item>): (l: seq<int>)
    requires forall i :: 0 <= i < |items| ==> items[i].Uint?
    ensures |l| == |items|
  {
    seq(|items|, i requires 0 <= i < |items| => Lookup.ToInt64(items[i].n))
  }

  /** The bindings of the pairs before item `i`; a key that comes again replaces its list. */
  ghost function Bindings(items: seq<Item>, i: nat): map<int, seq<int>>
    requires i <= |items|
  {
    if i < 2 then map[]
    else
      var m, key, list := Bindings(items, i - 2), items[i - 2], items[i - 1];
      if key.Uint? && IsList(list) then m[Lookup.ToInt64(key.n) := Longs(list.items)] else m
  }

  /** How many keys and listed SIDs come before item `i`: the value of the loop counter there. */
  function Weight(items: seq<Item>, i: nat): nat
    requires i <= |items|
  {
    if i < 2 then 0
    else Weight(items, i - 2) + 1 + if items[i - 1].List? then |items[i - 1].items| else 0
  }

  /**
   What the loop limit lets through, exactly: 51 keys and SIDs in all, or 52 if the last list is not empty,
   because the limit is looked at before an element is read and a key is counted only after its list.
   */
  predicate Admitted(items: seq<Item>, i: nat)
    requires i <= |items|
  {
    || i < 2
    || Weight(items, i) <= 51
    || (Weight(items, i) == 52 && items[i - 1].List? && items[i - 1].items != [])
  }

  lemma {:induction false} WeightGrows(items: seq<Item>, i: nat, n: nat)
    requires i <= n <= |items| && i % 2 == n % 2
    ensures Weight(items, i) + (n - i) / 2 <= Weight(items, n)
    decreases n
  {
    if i < n {
      WeightGrows(items, i, n - 2);
    }
  }

  /** A map that is not admitted up to one of its pairs is not admitted at all. */
  lemma RefusedEarly(items: seq<Item>, i: nat)
    requires i + 2 <= |items| && i % 2 == 0 && |items| % 2 == 0 && !Admitted(items, i + 2)
    ensures !Admitted(items, |items|)
  {
    WeightGrows(items, i + 2, |items|);
  }

  lemma MappingPair(it: Item, i: nat)
    requires IsMapping(it) && i < |it.items| && i % 2 == 0
    ensures i + 1 < |it.items| && it.items[i].Uint? && IsList(it.items[i + 1])
    ensures Weight(it.items, i + 2) == Weight(it.items, i) + 1 + |it.items[i + 1].items|
    ensures Bindings(it.items, i + 2) ==
      Bindings(it.items, i)[Lookup.ToInt64(it.items[i].n) := Longs(it.items[i + 1].items)]
  {
    hide WellFormed;
    assert (i + 1) % 2 == 1;
  }

  /** Reads one list of SIDs, counting each. */
  method DecodeList(d: Decoder, counter: nat, ghost hint: Option<Item>) returns (l: Option<seq<int>>, counter': nat)
    requires d.Valid()
    requires hint.Some? ==> WellFormed(hint.value) && IsList(hint.value) && At(d.buf, d.payload, Wire(hint.value))
    requires hint.Some? ==> d.elemCount > 0 && |d.backups| < d.numBackups
    modifies d
    ensures d.Valid() && old(d.payload) <= d.payload && counter <= counter'
    ensures hint.Some? ==>
      (l.Some? <==> hint.value.items == [] || counter + |hint.value.items| <= 51)
    ensures hint.Some? && l.Some? ==>
      l.value == Longs(hint.value.items) && counter' == counter + |hint.value.items| && Consumed(d, hint.value)
  {
    hide At, Wire, WellFormed, Inside, Opened, Closed, ReadUint;
    ghost var outer := d.Now();
    counter' := counter;
    if hint.Some? {
      OpenedInside(d.buf, outer, hint.value, d.numBackups);
    }
    var ok := d.ListStart();
    if !ok {
      return None, counter;
    }
    var found: seq<int> := [];
    var atEnd := d.ArrayAtEnd();
    while !atEnd
      invariant d.Valid() && old(d.payload) <= d.payload && atEnd == AtEnd(d.buf, d.Now()) && counter <= counter'
      invariant hint.Some? ==> |found| <= |hint.value.items| && counter' == counter + |found|
      invariant hint.Some? ==> Inside(d.buf, d.Now(), hint.value, |found|, outer)
      invariant hint.Some? ==> found == Longs(hint.value.items)[..|found|]
      invariant hint.Some? && found != [] ==> counter' <= 51
      decreases Left(d.buf, d.payload), !atEnd
    {
      if hint.Some? {
        InsideNotYetEnd(d.buf, d.Now(), hint.value, |found|, outer);
      }
      if counter' > CORECONF_MAX_LOOP {
        return None, counter';
      }
      if hint.Some? {
        InsideStep(d.buf, d.Now(), hint.value, |found|, outer);
        ReadsNumber(d.buf, d.payload, hint.value.items[|found|], d.elemCount);
      }
      var n := d.UintDecode();
      if n == None {
        return None, counter';
      }
      found, counter' := found + [Lookup.ToInt64(n.value)], counter' + 1;
      atEnd := d.ArrayAtEnd();
    }
    if hint.Some? {
      InsideAtEnd(d.buf, d.Now(), hint.value, |found|, outer);
      InsideEnd(d.buf, d.Now(), hint.value, outer);
    }
    ok := d.ListMapEnd();
    l := if ok then Some(found) else None;
  }

  /** The decoding state before pair `i / 2` of the hinted map. */
  ghost predicate InMapping(d: Decoder, hint: Option<Item>, i: nat, outer: Cursor)
    reads d
  {
    hint.Some? ==>
      && hint.value.Map? && IsMapping(hint.value) && i <= |hint.value.items| && i % 2 == 0
      && Inside(d.buf, d.Now(), hint.value, i, outer) && |outer.backups| + 2 <= d.numBackups
  }

  /** One key and its list. */
  method DecodePair(d: Decoder, counter: nat, ghost hint: Option<Item>, ghost i: nat, ghost outer: Cursor)
    returns (pair: Option<(int, seq<int>)>, counter': nat)
    requires d.Valid() && InMapping(d, hint, i, outer) && (hint.Some? ==> i < |hint.value.items|)
    requires hint.Some? ==> counter == Weight(hint.value.items, i)
    modifies d
    ensures d.Valid() && old(d.payload) <= d.payload
    ensures pair.Some? ==> Left(d.buf, d.payload) < old(Left(d.buf, d.payload))
    ensures pair.Some? ==> counter <= CORECONF_MAX_LOOP && counter < counter'
    ensures hint.Some? ==> i + 2 <= |hint.value.items| && (pair.Some? <==> Admitted(hint.value.items, i + 2))
    ensures hint.Some? && pair.Some? ==>
      && InMapping(d, hint, i + 2, outer) && counter' == Weight(hint.value.items, i + 2)
      && Bindings(hint.value.items, i + 2) == Bindings(hint.value.items, i)[pair.value.0 := pair.value.1]
  {
    hide At, Wire, WellFormed, Inside, ReadUint, IsMapping, Bindings, IsList, Longs;
    counter' := counter;
    ghost var list: Option<Item> := None;
    if hint.Some? {
      MappingPair(hint.value, i);
      list := Some(hint.value.items[i + 1]);
      InsideStep(d.buf, d.Now(), hint.value, i, outer);
      ReadsNumber(d.buf, d.payload, hint.value.items[i], d.elemCount);
    }
    if counter > CORECONF_MAX_LOOP {
      return None, counter;
    }
    var key := d.UintDecode();
    if key == None {
      return None, counter;
    }
    if hint.Some? {
      InsideStep(d.buf, d.Now(), hint.value, i + 1, outer);
      InsideBackups(d.buf, d.Now(), hint.value, i + 1, outer);
    }
    var l;
    l, counter' := DecodeList(d, counter, list);
    if l == None {
      return None, counter';
    }
    counter' := counter' + 1;
    pair := Some((Lookup.ToInt64(key.value), l.value));
  }

  /**
   Reads a table. Given the mapping at the payload, a table comes back exactly if the loop limit admits the
   mapping, and with memory for every growth it holds exactly the mapping's bindings.
   */
  method CborToKeyMappingHashMap(d: Decoder, hash: int -> nat, granted: nat -> bool, ghost hint: Option<Item>)
    returns (table: HashMap?<int, seq<int>>)
    requires d.Valid()
    requires hint.Some? ==> IsMapping(hint.value) && At(d.buf, d.payload, Wire(hint.value))
    requires hint.Some? ==> d.elemCount > 0 && |d.backups| + 2 <= d.numBackups
    modifies d
    ensures d.Valid() && (table != null ==> fresh(table) && table.Valid())
    ensures hint.Some? ==> (table != null <==> Admitted(hint.value.items, |hint.value.items|))
    ensures hint.Some? && table != null ==> Consumed(d, hint.value)
    ensures hint.Some? && table != null && (forall k :: granted(k)) ==>
      table.Contents == Bindings(hint.value.items, |hint.value.items|)
  {
    hide At, Wire, WellFormed, IsMapping, Bindings, Admitted, Represents, Tuned, PowerOfTwo;
    SixteenIsPower();
    var built := new HashMap<int, seq<int>>(hash, 16);
    var ok := ReadMapping(d, built, granted, hint);
    table := if ok then built else null;
  }

  /** The map from its head to its end, read into an empty table. */
  method ReadMapping(d: Decoder, built: HashMap<int, seq<int>>, granted: nat -> bool, ghost hint: Option<Item>)
    returns (ok: bool)
    requires d.Valid() && built.Valid() && built.Contents == map[]
    requires hint.Some? ==> IsMapping(hint.value) && At(d.buf, d.payload, Wire(hint.value))
    requires hint.Some? ==> d.elemCount > 0 && |d.backups| + 2 <= d.numBackups
    modifies d, built, built.buckets
    ensures d.Valid() && built.Valid() && (built.buckets == old(built.buckets) || fresh(built.buckets))
    ensures hint.Some? ==> (ok <==> Admitted(hint.value.items, |hint.value.items|))
    ensures hint.Some? && ok ==> Consumed(d, hint.value)
    ensures hint.Some? && ok && (forall k :: granted(k)) ==>
      built.Contents == Bindings(hint.value.items, |hint.value.items|)
  {
    hide At, Wire, WellFormed, Inside, OpenedMap, Closed, IsMapping, Bindings, Weight, Admitted, Represents, Tuned;
    ghost var outer := d.Now();
    if hint.Some? {
      MappingIsMap(hint.value);
      OpenedInside(d.buf, outer, hint.value, d.numBackups);
    }
    ok := d.MapStart();
    if !ok {
      return;
    }
    ok := ReadPairs(d, built, granted, hint, outer);
    if !ok {
      return;
    }
    if hint.Some? {
      InsideEnd(d.buf, d.Now(), hint.value, outer);
    }
    ok := d.ListMapEnd();
  }

  method ReadPairs(d: Decoder, built: HashMap<int, seq<int>>, granted: nat -> bool,
                   ghost hint: Option<Item>, ghost outer: Cursor)
    returns (ok: bool)
    requires d.Valid() && built.Valid() && built.Contents == map[] && InMapping(d, hint, 0, outer)
    modifies d, built, built.buckets
    ensures d.Valid() && built.Valid() && (built.buckets == old(built.buckets) || fresh(built.buckets))
    ensures hint.Some? ==> (ok <==> Admitted(hint.value.items, |hint.value.items|))
    ensures hint.Some? && ok ==> InMapping(d, hint, |hint.value.items|, outer)
    ensures hint.Some? && ok && (forall k :: granted(k)) ==>
      built.Contents == Bindings(hint.value.items, |hint.value.items|)
  {
    hide InMapping, Bindings, Weight, Admitted, AtEnd, Represents, Tuned, Left, HashMap.Valid;
    if hint.Some? {
      MappingHere(d, hint, 0, outer);
      MappingIsMap(hint.value);
    }
    var counter, n: nat := 0, 0;
    var atEnd := d.ArrayAtEnd();
    while !atEnd
      invariant d.Valid() && built.Valid() && (built.buckets == old(built.buckets) || fresh(built.buckets))
      invariant |built.Contents| <= counter
      invariant atEnd == AtEnd(d.buf, d.Now()) && InMapping(d, hint, 2 * n, outer)
      invariant hint.Some? ==> hint.value.Map? && 2 * n <= |hint.value.items|
      invariant hint.Some? ==> counter == Weight(hint.value.items, 2 * n) && Admitted(hint.value.items, 2 * n)
      invariant hint.Some? && (forall k :: granted(k)) ==> built.Contents == Bindings(hint.value.items, 2 * n)
      decreases Left(d.buf, d.payload), !atEnd
    {
      if hint.Some? {
        MappingHere(d, hint, 2 * n, outer);
      }
      ok, counter := ReadPair(d, built, counter, granted(n), hint, 2 * n, outer);
      if !ok {
        return;
      }
      n := n + 1;
      atEnd := d.ArrayAtEnd();
    }
    if hint.Some? {
      MappingHere(d, hint, 2 * n, outer);
    }
    ok := true;
  }

  /** The end of the mapping is seen exactly after its last pair. */
  lemma MappingHere(d: Decoder, hint: Option<Item>, i: nat, outer: Cursor)
    requires hint.Some? && InMapping(d, hint, i, outer)
    ensures IsMapping(hint.value) && hint.value.Map? && i <= |hint.value.items|
    ensures AtEnd(d.buf, d.Now()) <==> i == |hint.value.items|
  {
    hide Inside, IsMapping, AtEnd;
    if AtEnd(d.buf, d.Now()) {
      InsideAtEnd(d.buf, d.Now(), hint.value, i, outer);
    } else {
      InsideNotYetEnd(d.buf, d.Now(), hint.value, i, outer);
    }
  }

  /** One pair, read and set. */
  method ReadPair(d: Decoder, built: HashMap<int, seq<int>>, counter: nat, granted: bool,
                  ghost hint: Option<Item>, ghost i: nat, ghost outer: Cursor)
    returns (ok: bool, counter': nat)
    requires d.Valid() && built.Valid() && |built.Contents| <= counter
    requires InMapping(d, hint, i, outer) && (hint.Some? ==> i < |hint.value.items|)
    requires hint.Some? ==> counter == Weight(hint.value.items, i)
    modifies d, built, built.buckets
    ensures d.Valid() && built.Valid() && (built.buckets == old(built.buckets) || fresh(built.buckets))
    ensures ok ==> Left(d.buf, d.payload) < old(Left(d.buf, d.payload))
    ensures ok ==> counter <= CORECONF_MAX_LOOP && |built.Contents| <= |old(built.Contents)| + 1 <= counter'
    ensures hint.Some? ==> i + 2 <= |hint.value.items| && (ok <==> Admitted(hint.value.items, i + 2))
    ensures hint.Some? && !ok ==> !Admitted(hint.value.items, |hint.value.items|)
    ensures ok ==> InMapping(d, hint, i + 2, outer)
    ensures hint.Some? && ok ==> counter' == Weight(hint.value.items, i + 2)
    ensures hint.Some? && ok && granted && old(built.Contents) == Bindings(hint.value.items, i) ==>
      built.Contents == Bindings(hint.value.items, i + 2)
  {
    hide Inside, IsMapping, Bindings, Weight, Admitted, Represents, Tuned;
    var pair;
    pair, counter' := DecodePair(d, counter, hint, i, outer);
    if pair == None {
      if hint.Some? {
        MappingIsMap(hint.value);
        RefusedEarly(hint.value.items, i);
      }
      return false, counter';
    }
    ghost var now := d.Now();
    KeysAfterSet(built.Contents, pair.value.0, pair.value.1);
    var _ := built.Set(pair.value.0, pair.value.1, granted);
    assert d.Now() == now;
    ok := true;
  }

  lemma KeysAfterSet(m: map<int, seq<int>>, key: int, l: seq<int>)
    ensures |m[key := l]| <= |m| + 1
  {
    assert m[key := l].Keys == m.Keys + {key};
  }

  lemma MappingIsMap(it: Item)
    requires IsMapping(it)
    ensures it.Map? && WellFormed(it) && Weight(it.items, 0) == 0 && Admitted(it.items, 0)
    ensures Bindings(it.items, 0) == map[] && |it.items| % 2 == 0
  {
  }

  // ---------------------------------------------------------------- the round trip

  lemma WordIsLong(n: int)
    requires IsLong(n)
    ensures Lookup.ToInt64(Word(n)) == n
  {
  }

  lemma ListedLongs(l: seq<int>)
    requires AllLong(l)
    ensures IsList(Listed(l)) && Longs(Numbers(l)) == l
  {
    forall i | 0 <= i < |l|
      ensures Lookup.ToInt64(Numbers(l)[i].n) == l[i]
    {
      WordIsLong(l[i]);
    }
  }

  lemma {:induction false} RowsShape(s: seq<Row>, m: map<int, seq<int>>, j: nat)
    requires j <= |s| && Holds(s, m) && AreLongs(m)
    ensures forall i :: 0 <= i < |Rows(s, j)| ==> if i % 2 == 0 then Rows(s, j)[i].Uint? else IsList(Rows(s, j)[i])
    ensures |Rows(s, j)| % 2 == 0
  {
    hide IsList, Listed, AreLongs, Holds;
    if j > 0 {
      RowsShape(s, m, j - 1);
      if s[j - 1].Entry? {
        RowIsBinding(s, m, j - 1);
        ListedLongs(s[j - 1].value);
      }
    }
  }

  lemma {:induction false} RowsBind(s: seq<Row>, m: map<int, seq<int>>, j: nat)
    requires j <= |s| && Holds(s, m) && AreLongs(m)
    ensures Bindings(Rows(s, j), |Rows(s, j)|) == Prefix(s, j)
  {
    hide IsList, Listed, Number, AreLongs, Holds, Bindings;
    if j == 0 {
      NoBindings();
    } else {
      RowsBind(s, m, j - 1);
      if s[j - 1].Entry? {
        var before, row := Rows(s, j - 1), s[j - 1];
        RowIsBinding(s, m, j - 1);
        RowBinds(before, row.key, row.value);
      }
    }
  }

  lemma NoBindings()
    ensures Bindings([], 0) == map[]
  {
  }

  lemma RowBinds(before: seq<Item>, key: int, l: seq<int>)
    requires IsLong(key) && AllLong(l)
    ensures var now := before + [Number(key), Listed(l)];
      Bindings(now, |now|) == Bindings(before, |before|)[key := l]
  {
    hide IsList, Longs, AllLong;
    WordIsLong(key);
    ListedLongs(l);
    SameBindings(before, before + [Number(key), Listed(l)], |before|);
  }

  lemma RowIsBinding(s: seq<Row>, m: map<int, seq<int>>, i: nat)
    requires Holds(s, m) && AreLongs(m) && i < |s| && s[i].Entry?
    ensures IsLong(s[i].key) && AllLong(s[i].value)
  {
  }

  lemma {:induction false} SameBindings(a: seq<Item>, b: seq<Item>, n: nat)
    requires n <= |a| && n <= |b| && a[..n] == b[..n]
    ensures Bindings(a, n) == Bindings(b, n)
  {
    if n >= 2 {
      assert a[..n][n - 1] == b[..n][n - 1] && a[..n][n - 2] == b[..n][n - 2];
      assert a[..n][..n - 2] == b[..n][..n - 2];
      assert a[..n - 2] == a[..n][..n - 2] && b[..n - 2] == b[..n][..n - 2];
      SameBindings(a, b, n - 2);
    }
  }

  /** What a table is written as is a mapping with exactly the table's bindings. */
  lemma MappedIsMapping(s: seq<Row>, hash: int -> nat, m: map<int, seq<int>>)
    requires Represents(s, hash, m) && AreLongs(m)
    ensures IsMapping(Mapped(s)) && Bindings(Rows(s, |s|), |Rows(s, |s|)|) == m
  {
    hide WellFormed, Wire, Bindings, IsList, AreLongs;
    MappedWellFormed(s);
    RowsShape(s, m, |s|);
    RowsBind(s, m, |s|);
    PrefixOfAll(s, m);
  }

  /**
   Encode, then decode: the copy is the same finite map of ordered lists, and there is a copy exactly if the
   keys and listed SIDs stay within the loop limit.
   */
  method KeyMappingRoundTrip(table: HashMap<int, seq<int>>, buf: array<byte>, hash: int -> nat)
    returns (fits: bool, copy: HashMap?<int, seq<int>>)
    requires table.Valid() && AreLongs(table.Contents) && buf.Length <= HALF_SIZE_MAX
    modifies buf
    ensures WellFormed(Mapped(table.buckets[..table.nbuckets]))
    ensures fits <==> |Wire(Mapped(table.buckets[..table.nbuckets]))| <= buf.Length
    ensures var items := Rows(table.buckets[..table.nbuckets], table.nbuckets);
      fits ==> (copy != null <==> Admitted(items, |items|))
    ensures copy != null ==> fits && copy.Valid() && copy.Contents == table.Contents
  {
    hide WellFormed, Wire, Rows, Bindings, Represents, Tuned, AreLongs, IsMapping;
    ghost var item := Mapped(table.buckets[..table.nbuckets]);
    MappedIsMapping(table.buckets[..table.nbuckets], table.hash, table.Contents);
    var e := new Encoder(buf, 0);
    fits := KeyMappingHashMapToCbor(table, e);
    copy := null;
    if fits {
      var data := buf[..e.payload];
      assert data == Wire(item);
      WholeAt(data);
      var d := new Decoder(data, 0, 4, 1);
      copy := CborToKeyMappingHashMap(d, hash, _ => true, Some(item));
    }
  }
}
