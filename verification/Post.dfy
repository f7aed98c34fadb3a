/**
 src/post.c: RPC and action items as a sequence of one-entry CBOR maps, keyed by a SID or by
 `[SID, string]`, written by a client and parsed by a server.
 */
module Post {
  import opened Wrappers
  import opened Heads
  import opened Items
  import opened Skipping
  import opened Values
  import opened Codec
  import opened RoundTrip
  import opened Reading
  import opened Encoders
  import Printer
  import opened Decoders
  import opened Parser

  datatype PostKey = Sid(sid: nat) | SidStr(sid: nat, str: seq<byte>)
  datatype PostItem = PostItem(key: PostKey, value: Option<Value>)

  /** Twelve zcbor states leave ten backups: one for the item's map, nine for its key and value. */
  const N_STATES: nat := 12
  const VALUE_BACKUPS: nat := 9

  // ---------------------------------------------------------------- what is written and what is read

  ghost predicate Sendable(p: PostItem) {
    && p.key.sid < TWO_64 && (p.key.SidStr? ==> |p.key.str| < TWO_63 && 0 !in p.key.str)
    && (p.value.Some? ==> Encodable(p.value.value) && Fits(p.value.value, 0, VALUE_BACKUPS))
  }

  /** A value may nest 9 deep: twelve states leave ten backups, and the item's own map takes one. */
  lemma NineDeepIsSendable(p: PostItem)
    requires p.key.sid < TWO_64 && (p.key.SidStr? ==> |p.key.str| < TWO_63 && 0 !in p.key.str)
    requires p.value.Some? ==> Encodable(p.value.value) && Nests(p.value.value, 9)
    ensures Sendable(p)
  {
    if p.value.Some? {
      NestingFits(p.value.value, 9, 0, VALUE_BACKUPS);
    }
  }

  /** An absent value is sent as null. */
  function Sent(value: Option<Value>): Value {
    if value.Some? then value.value else Null
  }

  ghost function KeyItem(key: PostKey): Item
    requires key.sid < TWO_64 && (key.SidStr? ==> |key.str| < TWO_63)
  {
    var sid := Uint(Shortest(key.sid), key.sid);
    if key.Sid? then sid else List(Indefinite, [sid, Tstr(Shortest(|key.str|), key.str)])
  }

  ghost function MapItem(p: PostItem): Item
    requires Sendable(p)
  {
    Item.Map(Indefinite, [KeyItem(p.key), ItemOf(Sent(p.value))])
  }

  predicate IsKey(it: Item) {
    it.Uint? || (it.List? && |it.items| == 2 && it.items[0].Uint? && it.items[1].Tstr?)
  }

  ghost predicate IsPostMap(it: Item) {
    && WellFormed(it) && it.Map? && |it.items| == 2
    && IsKey(it.items[0]) && Decodable(it.items[1], 0, VALUE_BACKUPS)
  }

  function KeyOf(it: Item): PostKey
    requires IsKey(it)
  {
    if it.Uint? then Sid(it.n) else SidStr(it.items[0].n, CString(it.items[1].bytes))
  }

  ghost function Received(it: Item): PostItem
    requires IsPostMap(it)
  {
    PostItem(KeyOf(it.items[0]), Some(Meaning(it.items[1])))
  }

  ghost predicate ArePostMaps(maps: seq<Item>) {
    forall j :: 0 <= j < |maps| ==> IsPostMap(maps[j])
  }

  /** The key bytes, in either form. */
  ghost function EncodeKey(key: PostKey): seq<byte>
    requires key.sid < TWO_64 && (key.SidStr? ==> |key.str| < TWO_63)
  {
    var sid := Head(0, Shortest(key.sid), key.sid);
    if key.Sid? then sid else [LIST_START] + sid + (Head(3, Shortest(|key.str|), |key.str|) + key.str) + [BREAK]
  }

  ghost function EncodeItem(p: PostItem): seq<byte>
    requires Sendable(p)
  {
    [MAP_START] + EncodeKey(p.key) + Encode(Sent(p.value)) + [BREAK]
  }

  lemma {:induction false} KeyIsWire(key: PostKey)
    requires key.sid < TWO_64 && (key.SidStr? ==> |key.str| < TWO_63)
    ensures WellFormed(KeyItem(key)) && Wire(KeyItem(key)) == EncodeKey(key)
  {
    hide BigEndian;
    if key.SidStr? {
      var sid, str := Uint(Shortest(key.sid), key.sid), Tstr(Shortest(|key.str|), key.str);
      var items := [sid, str];
      assert WireFrom(items, 2) == [];
      assert WireFrom(items, 1) == Wire(str);
      assert WireFrom(items, 0) == Wire(sid) + Wire(str);
      assert Wire(str) == Head(3, Shortest(|key.str|), |key.str|) + key.str;
    }
  }

  /** A sent item is a map the parser reads back: same key, the value up to integer width and bucket order. */
  lemma SentIsReceived(p: PostItem)
    requires Sendable(p)
    ensures var it := MapItem(p);
      && IsPostMap(it) && Wire(it) == EncodeItem(p)
      && Received(it) == PostItem(p.key, Some(Turned(Sent(p.value))))
      && Abs(Received(it).value.value) == Abs(Sent(p.value))
  {
    hide Encode, ItemOf, Meaning, Decodable, Turned, Abs, BigEndian;
    SentFits(p);
    RoundTripLaw(Sent(p.value), 0, VALUE_BACKUPS);
    KeyIsWire(p.key);
    if p.key.SidStr? {
      CStringOfNulFree(p.key.str);
    }
    var items := [KeyItem(p.key), ItemOf(Sent(p.value))];
    assert AllWellFormed(items) && MapItem(p).items == items;
    assert WireFrom(items, 2) == [];
    assert WireFrom(items, 1) == Wire(items[1]);
    assert WireFrom(items, 0) == Wire(items[0]) + Wire(items[1]);
  }

  lemma SentFits(p: PostItem)
    requires Sendable(p)
    ensures Encodable(Sent(p.value)) && Fits(Sent(p.value), 0, VALUE_BACKUPS)
  {
  }

  ghost function EncodeItems(items: seq<PostItem>, i: nat): seq<byte>
    requires i <= |items| && forall j :: 0 <= j < |items| ==> Sendable(items[j])
    decreases |items| - i
  {
    if i == |items| then [] else EncodeItem(items[i]) + EncodeItems(items, i + 1)
  }

  /** SID 5 without a value, and the pair of SID 5 and "e" bound to true. */
  lemma ItemsOnTheWire()
    ensures EncodeItem(PostItem(Sid(5), None)) == [0xBF, 0x05, 0xF6, 0xFF]
    ensures EncodeItem(PostItem(SidStr(5, [0x65]), Some(Bool(true))))
      == [0xBF, 0x9F, 0x05, 0x61, 0x65, 0xFF, 0xF5, 0xFF]
  {
    EncodeHasForm(Null);
    EncodeHasForm(Bool(true));
    Bytes(5, 0);
    Bytes(1, 0);
    assert Encode(Null) == [0xF6] && Encode(Bool(true)) == [0xF5];
    assert Head(0, Shortest(5), 5) == [0x05] && Head(3, Shortest(1), 1) == [0x61];
  }

  // ---------------------------------------------------------------- the client

  /** No value to be sent holds a map. */
  ghost predicate AreFirm(items: seq<PostItem>) {
    forall j :: 0 <= j < |items| ==> Printer.Firm(Sent(items[j].value))
  }

  /**
   Writes the items one after the other; 0 for none, or when a write is reported to fail. Where no value holds a map,
   whose dropped entries go unreported, that is exactly when the items do not fit.
   */
  method CreatePostItems(buf: array<byte>, items: seq<PostItem>) returns (offset: nat)
    requires forall j :: 0 <= j < |items| ==> Sendable(items[j])
    modifies buf
    ensures offset <= buf.Length && (items == [] ==> offset == 0)
    ensures items != [] && |EncodeItems(items, 0)| <= buf.Length ==> buf[..offset] == EncodeItems(items, 0)
    ensures offset > 0 && AreFirm(items) ==> buf[..offset] == EncodeItems(items, 0)
  {
    hide EncodeItem, Sendable, Printer.Firm;
    offset := 0;
    ghost var fits := |EncodeItems(items, 0)| <= buf.Length;
    var i := 0;
    while i < |items|
      invariant i <= |items| && offset <= buf.Length
      invariant fits || AreFirm(items) ==> buf[..offset] + EncodeItems(items, i) == EncodeItems(items, 0)
    {
      ghost var before := buf[..offset];
      var e := new Encoder(buf, offset);
      assert fits ==> |before + EncodeItems(items, i)| <= buf.Length;
      var ok := WriteItem(e, items[i], fits);
      if !ok {
        return 0;
      }
      offset := e.payload;
      assert fits || AreFirm(items) ==> buf[..offset] + EncodeItems(items, i + 1) == before + EncodeItems(items, i);
      i := i + 1;
    }
  }

  method WriteItem(e: Encoder, p: PostItem, ghost fits: bool) returns (ok: bool)
    requires e.Valid() && Sendable(p) && (fits ==> e.Room(|EncodeItem(p)|))
    modifies e, e.buf
    ensures e.Valid() && (fits ==> ok)
    ensures fits || (ok && Printer.Firm(Sent(p.value))) ==> e.Written() == old(e.Written()) + EncodeItem(p)
  {
    hide Encode, Encodable, BigEndian, EncodeKey, Fits, Printer.Firm, Printer.Attempt;
    ghost var start := e.Written();
    ok := e.HeaderByte(5, 31);
    if !ok {
      return;
    }
    ok := WriteKey(e, p.key);
    if !ok {
      return;
    }
    SentFits(p);
    ghost var room := Printer.Left(e);
    if fits {
      Printer.RoomIsEnough(Sent(p.value), room);
    }
    ok := Printer.CoreconfToCbor(e, Sent(p.value));
    if !ok {
      return;
    }
    if Printer.Firm(Sent(p.value)) {
      Printer.FirmIsWhole(Sent(p.value), room);
    }
    ok := e.HeaderByte(7, 31);
    assert fits || (ok && Printer.Firm(Sent(p.value))) ==>
      e.Written() == start + ([MAP_START] + EncodeKey(p.key) + Encode(Sent(p.value)) + [BREAK]);
  }

  /** The key is written whole exactly if there is room. */
  method WriteKey(e: Encoder, key: PostKey) returns (ok: bool)
    requires e.Valid() && key.sid < TWO_64 && (key.SidStr? ==> |key.str| < TWO_63)
    modifies e, e.buf
    ensures e.Valid() && ok == old(e.Room(|EncodeKey(key)|))
    ensures ok ==> e.Written() == old(e.Written()) + EncodeKey(key)
  {
    hide BigEndian, Head;
    Powers();
    ShortestIsShortest(0, key.sid, Shortest(key.sid));
    if key.Sid? {
      ok := e.UintPut(key.sid, 8);
      return;
    }
    ghost var start, sid := e.Written(), Head(0, Shortest(key.sid), key.sid);
    ghost var str := Head(3, Shortest(|key.str|), |key.str|) + key.str;
    ShortestIsShortest(3, |key.str|, Shortest(|key.str|));
    ok := e.HeaderByte(4, 31);
    if !ok {
      return;
    }
    ok := e.UintPut(key.sid, 8);
    if !ok {
      return;
    }
    assert e.Written() == start + ([LIST_START] + sid);
    ok := e.StrEncode(3, key.str);
    if !ok {
      return;
    }
    assert e.Written() == start + ([LIST_START] + sid + str);
    ok := e.HeaderByte(7, 31);
    assert ok ==> e.Written() == start + ([LIST_START] + sid + str + [BREAK]);
  }

  // ---------------------------------------------------------------- the server

  /** The key at hand; a list key needs one more backup. */
  method DecodePostKey(d: Decoder, ghost hint: Option<Item>) returns (key: Option<PostKey>)
    requires d.Valid()
    requires hint.Some? ==> WellFormed(hint.value) && At(d.buf, d.payload, Wire(hint.value)) && d.elemCount > 0
    requires hint.Some? ==> IsKey(hint.value) && |d.backups| < d.numBackups
    modifies d
    ensures d.Valid() && old(d.payload) <= d.payload
    ensures hint.Some? ==> key == Some(KeyOf(hint.value)) && Consumed(d, hint.value)
  {
    hide Inside, At, Wire, WellFormed, Opened, Closed, ReadUint, ReadStr;
    if hint.Some? {
      HintedMajor(d.buf, d.payload, hint.value);
    }
    if d.payload >= |d.buf| {
      return None;
    }
    if d.buf[d.payload] / 32 == 0 {
      if hint.Some? {
        ReadsNumber(d.buf, d.payload, hint.value, d.elemCount);
      }
      var n := d.UintDecode();
      return if n.Some? then Some(Sid(n.value)) else None;
    }
    if d.buf[d.payload] / 32 != 4 {
      return None;
    }
    key := DecodeListKey(d, hint);
  }

  method DecodeListKey(d: Decoder, ghost hint: Option<Item>) returns (key: Option<PostKey>)
    requires d.Valid()
    requires hint.Some? ==> WellFormed(hint.value) && At(d.buf, d.payload, Wire(hint.value)) && d.elemCount > 0
    requires hint.Some? ==> IsKey(hint.value) && hint.value.List? && |d.backups| < d.numBackups
    modifies d
    ensures d.Valid() && old(d.payload) <= d.payload
    ensures hint.Some? ==> key == Some(KeyOf(hint.value)) && Consumed(d, hint.value)
  {
    hide Inside, At, Wire, WellFormed, Opened, Closed, ReadUint, ReadStr;
    ghost var outer := d.Now();
    if hint.Some? {
      OpenedInside(d.buf, outer, hint.value, d.numBackups);
    }
    var ok := d.ListStart();
    if !ok {
      return None;
    }
    if hint.Some? {
      InsideStep(d.buf, d.Now(), hint.value, 0, outer);
      ReadsNumber(d.buf, d.payload, hint.value.items[0], d.elemCount);
    }
    var sid := d.UintDecode();
    if sid == None {
      return None;
    }
    if hint.Some? {
      InsideStep(d.buf, d.Now(), hint.value, 1, outer);
      ReadsString(d.buf, d.payload, hint.value.items[1], d.elemCount);
    }
    var str := d.StrDecode(3);
    if str == None {
      return None;
    }
    if hint.Some? {
      InsideEnd(d.buf, d.Now(), hint.value, outer);
    }
    ok := d.ListMapEnd();
    key := if ok then Some(SidStr(sid.value, CString(str.value))) else None;
  }

  lemma NoMapNoStart(buf: seq<byte>, v: Cursor, numBackups: nat)
    ensures OpenedMap(buf, v, numBackups).1 ==> Major(buf, v.payload, 5)
  {
  }

  /** One map of exactly one entry. */
  method ParseItem(d: Decoder, ghost hint: Option<Item>) returns (item: Option<PostItem>, stuck: bool)
    requires d.Valid() && d.backups == []
    requires hint.Some? ==> IsPostMap(hint.value) && At(d.buf, d.payload, Wire(hint.value))
    requires hint.Some? ==> d.elemCount > 0 && d.numBackups == 10
    modifies d
    ensures d.Valid() && (item.Some? ==> old(d.payload) < d.payload)
    ensures hint.Some? ==> !stuck && item == Some(Received(hint.value))
    ensures hint.Some? ==> d.payload == old(d.payload) + |Wire(hint.value)|
    ensures !Major(d.buf, old(d.payload), 5) ==> item == None && !stuck
  {
    hide Inside, At, Wire, WellFormed, OpenedMap, Closed, Decodable, Meaning;
    NoMapNoStart(d.buf, d.Now(), d.numBackups);
    ghost var outer := d.Now();
    ghost var key: Option<Item> := None;
    ghost var value: Option<Item> := None;
    item, stuck := None, false;
    if hint.Some? {
      OpenedInside(d.buf, outer, hint.value, d.numBackups);
      key, value := Some(hint.value.items[0]), Some(hint.value.items[1]);
    }
    var ok := d.MapStart();
    if !ok {
      return;
    }
    if hint.Some? {
      InsideStep(d.buf, d.Now(), hint.value, 0, outer);
      InsideBackups(d.buf, d.Now(), hint.value, 0, outer);
    }
    var atEnd := d.ArrayAtEnd();
    if atEnd {
      return;
    }
    var k := DecodePostKey(d, key);
    if k == None {
      return;
    }
    if hint.Some? {
      InsideStep(d.buf, d.Now(), hint.value, 1, outer);
      InsideBackups(d.buf, d.Now(), hint.value, 1, outer);
    }
    var v;
    v, stuck := CborToCoreconfValue(d, 0, value);
    if stuck || v == None {
      return;
    }
    if hint.Some? {
      InsideEnd(d.buf, d.Now(), hint.value, outer);
    }
    atEnd := d.ArrayAtEnd();
    if !atEnd {
      return;
    }
    ok := d.ListMapEnd();
    if ok {
      item := Some(PostItem(k.value, v));
    }
  }

  ghost function ReceivedAll(maps: seq<Item>): (r: seq<PostItem>)
    requires ArePostMaps(maps)
    ensures |r| == |maps|
  {
    seq(|maps|, j requires 0 <= j < |maps| => Received(maps[j]))
  }

  /**
   All items of a payload, or none at all: the items hinted at, which end at `end`, come back if the payload ends
   there, and not one of them does if something follows that is no map.
   */
  method ParsePostItems(data: seq<byte>, ghost hint: Option<seq<Item>>, ghost end: nat)
    returns (items: Option<seq<PostItem>>, stuck: bool)
    requires |data| <= HALF_SIZE_MAX
    requires hint.Some? ==> ArePostMaps(hint.value) && Pending(data, 0, hint.value, 0, end)
    ensures data == [] ==> items == None
    ensures hint.Some? && hint.value != [] && end == |data| ==> !stuck && items == Some(ReceivedAll(hint.value))
    ensures hint.Some? && end < |data| && data[end] / 32 != 5 ==> !stuck && items == None
  {
    hide Wire, WellFormed, Pending, At, Received, IsPostMap;
    stuck := false;
    if data == [] {
      if hint.Some? && hint.value != [] {
        NextItem(data, 0, hint.value, 0, end);
      }
      return None, false;
    }
    var parsed: seq<PostItem> := [];
    var ptr: nat := 0;
    ghost var here := hint.Some? && (end == |data| || (end < |data| && data[end] / 32 != 5));
    while ptr < |data|
      invariant here ==> |parsed| <= |hint.value| && Pending(data, ptr, hint.value, |parsed|, end)
      invariant here ==> forall j :: 0 <= j < |parsed| ==> parsed[j] == Received(hint.value[j])
      invariant !stuck && (ptr > 0 ==> parsed != [])
    {
      ghost var one: Option<Item> := None;
      if here {
        PendingWellFormed(data, ptr, hint.value, |parsed|, end);
        if |parsed| < |hint.value| {
          NextItem(data, ptr, hint.value, |parsed|, end);
          one := Some(hint.value[|parsed|]);
        }
      }
      var d := new Decoder(data, ptr, N_STATES, 1);
      var item;
      item, stuck := ParseItem(d, one);
      if stuck || item == None {
        return None, stuck;
      }
      parsed, ptr := parsed + [item.value], d.payload;
    }
    if here {
      PendingWellFormed(data, ptr, hint.value, |parsed|, end);
      if |parsed| < |hint.value| {
        NextItem(data, ptr, hint.value, |parsed|, end);
      }
      assert parsed == ReceivedAll(hint.value);
    }
    items := Some(parsed);
  }

  // ---------------------------------------------------------------- the round trip

  ghost function MapItems(items: seq<PostItem>): (maps: seq<Item>)
    requires forall j :: 0 <= j < |items| ==> Sendable(items[j])
    ensures |maps| == |items|
  {
    seq(|items|, j requires 0 <= j < |items| => MapItem(items[j]))
  }

  lemma {:induction false} ItemsAreWire(items: seq<PostItem>, i: nat)
    requires i <= |items| && forall j :: 0 <= j < |items| ==> Sendable(items[j])
    ensures ArePostMaps(MapItems(items)) && AllWellFormed(MapItems(items))
    ensures WireFrom(MapItems(items), i) == EncodeItems(items, i)
    decreases |items| - i
  {
    hide Wire, Sendable, MapItem, EncodeItem, Received, Abs, Turned;
    forall j | 0 <= j < |items|
      ensures IsPostMap(MapItem(items[j])) && WellFormed(MapItem(items[j]))
    {
      SentIsReceived(items[j]);
    }
    if i < |items| {
      SentIsReceived(items[i]);
      ItemsAreWire(items, i + 1);
    }
  }

  /** What the server parses is what the client sent: same count, order, keys and values. */
  method PostRoundTrip(items: seq<PostItem>, buf: array<byte>) returns (r: seq<PostItem>)
    requires items != [] && forall j :: 0 <= j < |items| ==> Sendable(items[j])
    requires |EncodeItems(items, 0)| <= buf.Length <= HALF_SIZE_MAX
    modifies buf
    ensures |r| == |items|
    ensures forall j :: 0 <= j < |r| ==> r[j].key == items[j].key && r[j].value == Some(Turned(Sent(items[j].value)))
    ensures forall j :: 0 <= j < |r| ==> Abs(r[j].value.value) == Abs(Sent(items[j].value))
    ensures forall j :: 0 <= j < |r| ==> Same(Sent(items[j].value), r[j].value.value)
  {
    hide Wire, Sendable, MapItem, Received, Abs, Turned, IsPostMap, EncodeItem, Same;
    var n := CreatePostItems(buf, items);
    ghost var maps := MapItems(items);
    ItemsAreWire(items, 0);
    assert buf[..n][0..n] == buf[..n];
    var parsed, stuck := ParsePostItems(buf[..n], Some(maps), n);
    r := parsed.value;
    forall j | 0 <= j < |r|
      ensures r[j].key == items[j].key && r[j].value == Some(Turned(Sent(items[j].value)))
      ensures Abs(r[j].value.value) == Abs(Sent(items[j].value))
    {
      SentIsReceived(items[j]);
    }
    forall j | 0 <= j < |r|
      ensures Same(Sent(items[j].value), r[j].value.value)
    {
      SentIsSame(items[j]);
    }
  }

  lemma SentIsSame(p: PostItem)
    requires Sendable(p)
    ensures Same(Sent(p.value), Turned(Sent(p.value)))
  {
    hide Same, Abs, Turned, Encodable, Fits;
    SentFits(p);
    TurnedEncodable(Sent(p.value));
    TurnedIsSame(Sent(p.value));
    AbsIffSame(Sent(p.value), Turned(Sent(p.value)));
  }
}
