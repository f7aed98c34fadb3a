/**
 `cborToCoreconfValue` over the decoding state. The methods are total: on any bytes they end, and
 `stuck` reports the one way the source does not, an array loop whose element decoder no longer moves
 the payload. A caller that knows which item stands at the payload passes it as a ghost hint and
 learns exactly what is decoded and what becomes of the state.
 */
module Parser {
  import opened Wrappers
  import opened Basics
  import opened Heads
  import opened Items
  import opened Skipping
  import opened Values
  import opened ChainedMaps
  import opened RoundTrip
  import opened Reading
  import opened Decoders

  // ---------------------------------------------------------------- the backup discipline

  /**
   The state `v` is inside container `it`, before its element `i`; `outer` is the state that met the
   container, and everything needed to restore it is in the newest backup.
   */
  ghost predicate Inside(buf: seq<byte>, v: Cursor, it: Item, i: nat, outer: Cursor) {
    && (it.List? || it.Map?) && WellFormed(it) && i <= |it.items| <= |buf| <= HALF_SIZE_MAX
    && outer.elemCount > 0
    && v.indefinite == it.framing.Indefinite?
    && v.elemCount == (if v.indefinite then LARGE_ELEM_COUNT else |it.items|) - i
    && Framed(buf, v, it, i, outer.payload + |Wire(it)|)
    && |v.backups| == |outer.backups| + 1 && v.backups[..|outer.backups|] == outer.backups
    && v.backups[|outer.backups|].elemCount == outer.elemCount - 1
    && v.backups[|outer.backups|].indefinite == outer.indefinite
  }

  /** The remaining elements, and the break if there is one, fill the payload up to `end`. */
  ghost predicate Framed(buf: seq<byte>, v: Cursor, it: Item, i: nat, end: nat)
    requires it.List? || it.Map?
  {
    if v.indefinite
    then 0 < end <= |buf| && Pending(buf, v.payload, it.items, i, end - 1) && buf[end - 1] == BREAK
    else Pending(buf, v.payload, it.items, i, end)
  }

  lemma ManyElementsManyBytes(it: Item)
    requires WellFormed(it) && (it.List? || it.Map?)
    ensures |it.items| <= |Wire(it)|
  {
  }

  lemma OpenedInside(buf: seq<byte>, outer: Cursor, it: Item, numBackups: nat)
    requires |buf| <= HALF_SIZE_MAX && WellFormed(it) && (it.List? || it.Map?) && At(buf, outer.payload, Wire(it))
    requires outer.elemCount > 0 && |outer.backups| < numBackups
    ensures it.List? ==>
      Opened(buf, outer, 4, numBackups).1 && Inside(buf, Opened(buf, outer, 4, numBackups).0, it, 0, outer)
    ensures it.Map? ==>
      OpenedMap(buf, outer, numBackups).1 && Inside(buf, OpenedMap(buf, outer, numBackups).0, it, 0, outer)
  {
    hide At, Pending, BigEndian, Wire, FromBigEndian;
    ManyElementsManyBytes(it);
    AtWithin(buf, outer.payload, Wire(it));
    if it.framing.Definite? {
      DefiniteContent(buf, outer.payload, it);
      HeadExtracts(buf, outer.payload, ContainerMajor(it), it.framing.w, ElementCount(it), 8, true, outer.elemCount);
    } else {
      IndefiniteContent(buf, outer.payload, it);
    }
  }

  lemma AtWithin(buf: seq<byte>, pos: nat, bs: seq<byte>)
    requires At(buf, pos, bs)
    ensures pos + |bs| <= |buf| && buf[pos..pos + |bs|] == bs
  {
  }

  /** Consuming element `i` moves to element `i + 1` and leaves the backups alone. */
  lemma InsideStep(buf: seq<byte>, v: Cursor, it: Item, i: nat, outer: Cursor)
    requires Inside(buf, v, it, i, outer) && i < |it.items|
    ensures WellFormed(it.items[i]) && At(buf, v.payload, Wire(it.items[i])) && v.elemCount > 0 && !AtEnd(buf, v)
    ensures Inside(buf, Past(v, v.payload + |Wire(it.items[i])|), it, i + 1, outer)
  {
    hide At, Wire, Pending, BigEndian;
    var end := outer.payload + |Wire(it)|;
    NextItem(buf, v.payload, it.items, i, if v.indefinite then end - 1 else end);
    PendingWellFormed(buf, v.payload, it.items, i, if v.indefinite then end - 1 else end);
  }

  lemma PendingWellFormed(buf: seq<byte>, pos: nat, items: seq<Item>, i: nat, end: nat)
    requires Pending(buf, pos, items, i, end)
    ensures AllWellFormed(items) && (i < |items| ==> WellFormed(items[i])) && (i == |items| ==> pos == end)
  {
  }

  /** After the last element the end is recognised, and closing restores the outer state past the container. */
  lemma InsideEnd(buf: seq<byte>, v: Cursor, it: Item, outer: Cursor)
    requires (it.List? || it.Map?) && Inside(buf, v, it, |it.items|, outer)
    ensures AtEnd(buf, v)
    ensures Closed(buf, v) == (Past(outer, outer.payload + |Wire(it)|), true)
  {
    hide At, Wire, Pending, BigEndian;
    var end := outer.payload + |Wire(it)|;
    PendingWellFormed(buf, v.payload, it.items, |it.items|, if v.indefinite then end - 1 else end);
    assert v.backups[..|v.backups| - 1] == outer.backups;
  }

  lemma InsideNotYetEnd(buf: seq<byte>, v: Cursor, it: Item, i: nat, outer: Cursor)
    requires Inside(buf, v, it, i, outer) && !AtEnd(buf, v)
    ensures i < |it.items|
  {
    if i == |it.items| {
      InsideEnd(buf, v, it, outer);
    }
  }

  lemma InsideAtEnd(buf: seq<byte>, v: Cursor, it: Item, i: nat, outer: Cursor)
    requires Inside(buf, v, it, i, outer) && AtEnd(buf, v)
    ensures i == |it.items|
  {
    if i < |it.items| {
      InsideStep(buf, v, it, i, outer);
    }
  }

  lemma InsideBackups(buf: seq<byte>, v: Cursor, it: Item, i: nat, outer: Cursor)
    requires Inside(buf, v, it, i, outer)
    ensures |v.backups| == |outer.backups| + 1
  {
  }

  /** Element `i` can be read one level deeper with the backups that are left. */
  lemma InsideChild(buf: seq<byte>, v: Cursor, it: Item, i: nat, outer: Cursor, indent: nat, numBackups: nat)
    requires Inside(buf, v, it, i, outer) && i < |it.items| && |outer.backups| <= numBackups
    requires Decodable(it, indent, numBackups - |outer.backups|) && (it.Map? ==> i % 2 == 1)
    ensures |v.backups| <= numBackups && Decodable(it.items[i], indent + 1, numBackups - |v.backups|)
  {
    hide At, Wire, Pending, WellFormed;
  }

  /** The same for the values of a map, however many. */
  lemma InsidePairs(buf: seq<byte>, v: Cursor, it: Item, i: nat, outer: Cursor, indent: nat, numBackups: nat)
    requires Inside(buf, v, it, i, outer) && i < |it.items| && |outer.backups| <= numBackups
    requires PairsReadable(it, indent, numBackups - |outer.backups|)
    ensures |v.backups| <= numBackups
    ensures if i % 2 == 0 then it.items[i].Uint? && i + 1 < |it.items|
            else Decodable(it.items[i], indent + 1, numBackups - |v.backups|)
  {
    hide At, Wire, Pending, WellFormed, Decodable;
  }

  lemma DecodablePairs(it: Item, indent: nat, backups: nat)
    requires it.Map? && Decodable(it, indent, backups)
    ensures PairsReadable(it, indent, backups) && FirstPairs(it.items) == it.items
  {
  }

  // ---------------------------------------------------------------- reading leaves

  /** The item at the payload, readable from recursion depth `indent`. */
  ghost predicate Readable(d: Decoder, it: Item, indent: nat)
    reads d
  {
    && WellFormed(it) && At(d.buf, d.payload, Wire(it)) && d.elemCount > 0
    && |d.backups| <= d.numBackups && Decodable(it, indent, d.numBackups - |d.backups|)
  }

  /** The pairs of a map, each within the decoder's limits. */
  ghost predicate PairsReadable(it: Item, indent: nat, backups: nat) {
    it.Map? && indent <= 20 && 1 <= backups && Pairs(it.items, indent + 1, backups - 1)
  }

  /** What is read of a map: no more than 51 pairs. */
  function FirstPairs(items: seq<Item>): seq<Item> {
    items[..Min(|items|, 102)]
  }

  /** A map at the payload that is within all limits but the number of its pairs. */
  ghost predicate Overfull(d: Decoder, it: Item, indent: nat)
    reads d
  {
    && WellFormed(it) && At(d.buf, d.payload, Wire(it)) && d.elemCount > 0 && |d.backups| <= d.numBackups
    && PairsReadable(it, indent, d.numBackups - |d.backups|) && |it.items| / 2 > 51
  }

  lemma ReadsNumber(buf: seq<byte>, pos: nat, it: Item, elemCount: nat)
    requires WellFormed(it) && At(buf, pos, Wire(it)) && elemCount > 0
    requires it.Uint? || (it.Nint? && it.n <= HALF_SIZE_MAX)
    ensures it.Uint? ==> Major(buf, pos, 0) && ReadUint(buf, pos, elemCount) == Some((it.n, pos + |Wire(it)|))
    ensures it.Nint? ==> Major(buf, pos, 1) && ReadInt(buf, pos, elemCount) == Some((-1 - it.n, pos + |Wire(it)|))
  {
    HeadExtracts(buf, pos, if it.Uint? then 0 else 1, it.w, it.n, 8, false, elemCount);
  }

  lemma ReadsString(buf: seq<byte>, pos: nat, it: Item, elemCount: nat)
    requires WellFormed(it) && At(buf, pos, Wire(it)) && elemCount > 0 && (it.Bstr? || it.Tstr?)
    ensures var major := if it.Bstr? then 2 else 3;
      Major(buf, pos, major) && ReadStr(buf, pos, elemCount, major) == Some((it.bytes, pos + |Wire(it)|))
  {
    var major := if it.Bstr? then 2 else 3;
    var head := Head(major, it.w, |it.bytes|);
    assert Wire(it) == head + it.bytes;
    AtConcat(buf, pos, head, it.bytes);
    HeadExtracts(buf, pos, major, it.w, |it.bytes|, 8, false, elemCount);
  }

  lemma ReadsSimple(buf: seq<byte>, pos: nat, it: Item, elemCount: nat)
    requires WellFormed(it) && At(buf, pos, Wire(it)) && elemCount > 0 && it.Simple?
    ensures Major(buf, pos, 7)
    ensures it.w.Eight? ==> ReadFloat64(buf, pos, elemCount) == Some((it.n, pos + |Wire(it)|))
    ensures it.w.Direct? ==> ReadFloat64(buf, pos, elemCount) == None
    ensures it.w.Direct? ==> ReadSimple(buf, pos, elemCount) == Some((it.n, pos + |Wire(it)|))
  {
    hide BigEndian, FromBigEndian;
    HeadExtracts(buf, pos, 7, it.w, it.n, 8, false, elemCount);
    if it.w.Direct? {
      HeadExtracts(buf, pos, 7, it.w, it.n, 1, false, elemCount);
    }
    InitialByte(7, it.w, it.n);
    assert buf[pos] == buf[pos..pos + |Wire(it)|][0];
  }

  /** Simple values are read up to 23 in the initial byte, and from 32 on in a byte of their own. */
  lemma SimpleRange(buf: seq<byte>, pos: nat, it: Item, elemCount: nat)
    requires WellFormed(it) && At(buf, pos, Wire(it)) && elemCount > 0 && it.Simple? && (it.w.Direct? || it.w.One?)
    ensures ReadSimple(buf, pos, elemCount) ==
      if it.w.Direct? || it.n >= 32 then Some((it.n, pos + |Wire(it)|)) else None
  {
    hide BigEndian, FromBigEndian;
    HeadExtracts(buf, pos, 7, it.w, it.n, 1, false, elemCount);
    InitialByte(7, it.w, it.n);
    assert buf[pos] == buf[pos..pos + |Wire(it)|][0];
  }

  // ---------------------------------------------------------------- the parser

  /** The state after the hinted item: its bytes consumed, one element fewer, nothing else changed. */
  twostate predicate Consumed(d: Decoder, it: Item)
    requires WellFormed(it)
    reads d
  {
    old(d.elemCount) > 0 && d.Now() == Past(old(d.Now()), old(d.payload) + |Wire(it)|)
  }

  function MajorOf(it: Item): nat {
    match it
    case Uint(_, _) => 0
    case Nint(_, _) => 1
    case Bstr(_, _) => 2
    case Tstr(_, _) => 3
    case List(_, _) => 4
    case Map(_, _) => 5
    case Tag(_, _, _) => 6
    case Simple(_, _) => 7
  }

  lemma HintedMajor(buf: seq<byte>, pos: nat, it: Item)
    requires WellFormed(it) && At(buf, pos, Wire(it))
    ensures pos < |buf| && buf[pos] / 32 == MajorOf(it)
  {
    hide BigEndian;
    assert buf[pos] == buf[pos..pos + |Wire(it)|][0] == Wire(it)[0];
    match it
    case Uint(w, n) => InitialByte(0, w, n);
    case Nint(w, n) => InitialByte(1, w, n);
    case Bstr(w, s) => InitialByte(2, w, |s|);
    case Tstr(w, s) => InitialByte(3, w, |s|);
    case List(f, items) => if f.Definite? { InitialByte(4, f.w, |items|); }
    case Map(f, items) => if f.Definite? { InitialByte(5, f.w, |items| / 2); }
    case Tag(w, n, item) => InitialByte(6, w, n);
    case Simple(w, n) => InitialByte(7, w, n);
  }

  /** Integers, strings, reals, booleans and null; tags are not read. */
  method ParseLeaf(d: Decoder, major: nat, ghost hint: Option<Item>) returns (v: Option<Value>)
    requires d.Valid() && Major(d.buf, d.payload, major) && major != 4 && major != 5
    requires hint.Some? ==> Readable(d, hint.value, 0) && MajorOf(hint.value) == major
    modifies d
    ensures d.Valid() && old(d.payload) <= d.payload
    ensures hint.Some? ==> v == Some(Meaning(hint.value)) && ReadAs(hint.value, v.value) && Consumed(d, hint.value)
  {
    hide BigEndian, At, Wire, ReadUint, ReadInt, ReadStr, ReadSimple, ReadFloat64, ReadAs;
    if hint.Some? {
      MeaningIsReadAs(hint.value, 0, d.numBackups - |d.backups|);
    }
    v := None;
    if major == 0 {
      if hint.Some? {
        ReadsNumber(d.buf, d.payload, hint.value, d.elemCount);
      }
      var n := d.UintDecode();
      if n.Some? {
        v := Some(Int(U64, n.value));
      }
    } else if major == 1 {
      if hint.Some? {
        ReadsNumber(d.buf, d.payload, hint.value, d.elemCount);
      }
      var n := d.IntDecode();
      if n.Some? {
        v := Some(Int(I64, n.value));
      }
    } else if major == 2 || major == 3 {
      if hint.Some? {
        ReadsString(d.buf, d.payload, hint.value, d.elemCount);
      }
      var s := d.StrDecode(major);
      if s.Some? {
        v := Some(Str(CString(s.value)));
      }
    } else if major == 7 {
      v := ParseSimple(d, hint);
    }
  }

  /** A double is tried first, then a boolean, then null; each failure leaves the state as it was. */
  method ParseSimple(d: Decoder, ghost hint: Option<Item>) returns (v: Option<Value>)
    requires d.Valid() && (hint.Some? ==> Readable(d, hint.value, 0) && hint.value.Simple?)
    modifies d
    ensures d.Valid() && old(d.payload) <= d.payload
    ensures hint.Some? ==> v == Some(Meaning(hint.value)) && Consumed(d, hint.value)
  {
    hide BigEndian, At, Wire, ReadSimple, ReadFloat64;
    if hint.Some? {
      ReadsSimple(d.buf, d.payload, hint.value, d.elemCount);
    }
    var bits := d.Float64Decode();
    if bits.Some? {
      return Some(Real(bits.value));
    }
    var b := d.BoolDecode();
    if b.Some? {
      return Some(Bool(b.value));
    }
    var isNull := d.SimpleExpect(22);
    v := if isNull then Some(Null) else None;
  }

  /** The elements decoded before the loop ended; the source ignores whether the list was closed properly. */
  method ParseArray(d: Decoder, indent: nat, ghost hint: Option<Item>) returns (elems: seq<Value>, stuck: bool)
    requires d.Valid() && d.payload < |d.buf|
    requires hint.Some? ==> Readable(d, hint.value, indent) && hint.value.List?
    modifies d
    ensures d.Valid() && old(d.payload) <= d.payload
    ensures hint.Some? ==> !stuck && Array(elems) == Meaning(hint.value) && Consumed(d, hint.value)
    ensures |old(d.backups)| >= d.numBackups ==> !stuck && elems == [] && d.Now() == old(d.Now())
    decreases Left(d.buf, d.payload), 2
  {
    hide Inside, At, Wire, WellFormed, Closed, ExtractHead;
    ghost var outer := d.Now();
    if hint.Some? {
      OpenedInside(d.buf, outer, hint.value, d.numBackups);
    }
    var ok := d.ListStart();
    if !ok {
      return [], false;
    }
    elems, stuck := ParseElems(d, indent, hint, outer);
    if stuck {
      return;
    }
    if hint.Some? {
      InsideEnd(d.buf, d.Now(), hint.value, outer);
    }
    var _ := d.ListMapEnd();
  }

  method ParseElems(d: Decoder, indent: nat, ghost hint: Option<Item>, ghost outer: Cursor)
    returns (elems: seq<Value>, stuck: bool)
    requires d.Valid()
    requires hint.Some? ==> hint.value.List? && Inside(d.buf, d.Now(), hint.value, 0, outer)
    requires hint.Some? ==>
      |outer.backups| <= d.numBackups && Decodable(hint.value, indent, d.numBackups - |outer.backups|)
    modifies d
    ensures d.Valid() && old(d.payload) <= d.payload
    ensures hint.Some? ==> !stuck && Array(elems) == Meaning(hint.value)
    ensures hint.Some? ==> Inside(d.buf, d.Now(), hint.value, |hint.value.items|, outer)
    decreases Left(d.buf, d.payload), 4
  {
    hide Inside, At, Wire, WellFormed, Decodable, Meaning;
    elems, stuck := [], false;
    ghost var i: nat := 0;
    var atEnd := d.ArrayAtEnd();
    while !atEnd
      invariant d.Valid() && old(d.payload) <= d.payload && atEnd == AtEnd(d.buf, d.Now()) && !stuck
      invariant hint.Some? ==> Inside(d.buf, d.Now(), hint.value, i, outer) && i <= |hint.value.items|
      invariant hint.Some? ==> |elems| == i && forall k :: 0 <= k < i ==> elems[k] == Meaning(hint.value.items[k])
      decreases Left(d.buf, d.payload), !atEnd
    {
      ghost var child: Option<Item> := None;
      if hint.Some? {
        InsideNotYetEnd(d.buf, d.Now(), hint.value, i, outer);
        InsideStep(d.buf, d.Now(), hint.value, i, outer);
        InsideChild(d.buf, d.Now(), hint.value, i, outer, indent, d.numBackups);
        child := Some(hint.value.items[i]);
      }
      var before, v := d.payload, None;
      v, stuck := CborToCoreconfValue(d, indent + 1, child);
      if stuck {
        return;
      }
      if v.Some? {
        elems := elems + [v.value];
      }
      if d.payload == before {
        stuck := true;
        return;
      }
      i := i + 1;
      atEnd := d.ArrayAtEnd();
    }
    if hint.Some? {
      InsideAtEnd(d.buf, d.Now(), hint.value, i, outer);
      ArrayMeaning(hint.value, elems);
    }
  }

  lemma ArrayMeaning(it: Item, elems: seq<Value>)
    requires it.List? && |elems| == |it.items| && forall k :: 0 <= k < |elems| ==> elems[k] == Meaning(it.items[k])
    ensures Array(elems) == Meaning(it)
  {
    assert elems == Meaning(it).elems;
  }

  /** Fills `m` with the pairs decoded before the loop ended or gave up; a map with too many is not closed. */
  method ParseMap(d: Decoder, m: ChainedMap, indent: nat, ghost hint: Option<Item>) returns (stuck: bool)
    requires d.Valid() && d.payload < |d.buf| && m.Valid() && m.Chains() == NoObjects()
    requires hint.Some? ==> hint.value.Map? && (Readable(d, hint.value, indent) || Overfull(d, hint.value, indent))
    modifies d, m, m.table
    ensures d.Valid() && m.Valid() && old(d.payload) <= d.payload
    ensures hint.Some? ==> !stuck && m.Chains() == Load(NoObjects(), FirstPairs(hint.value.items), 0)
    ensures hint.Some? && old(Readable(d, hint.value, indent)) ==>
      Value.Map(m.Chains()) == Meaning(hint.value) && Consumed(d, hint.value)
    ensures hint.Some? && old(Overfull(d, hint.value, indent)) ==>
      Inside(d.buf, d.Now(), hint.value, 102, old(d.Now()))
    ensures |old(d.backups)| >= d.numBackups ==> !stuck && d.Now() == old(d.Now()) && m.Chains() == NoObjects()
    decreases Left(d.buf, d.payload), 2
  {
    hide Inside, At, Wire, WellFormed, Closed, Contents, Load, PairsReadable, ExtractHead, Decodable;
    ghost var outer := d.Now();
    if hint.Some? {
      MapLimits(d, hint.value, indent);
      OpenedInside(d.buf, outer, hint.value, d.numBackups);
    }
    var ok := d.MapStart();
    if !ok {
      return false;
    }
    ok, stuck := ParsePairs(d, m, indent, hint, outer);
    if stuck || !ok {
      return;
    }
    if hint.Some? {
      InsideEnd(d.buf, d.Now(), hint.value, outer);
    }
    var _ := d.ListMapEnd();
  }

  lemma MapLimits(d: Decoder, it: Item, indent: nat)
    requires it.Map? && (Readable(d, it, indent) || Overfull(d, it, indent))
    ensures |d.backups| < d.numBackups && PairsReadable(it, indent, d.numBackups - |d.backups|) && |it.items| % 2 == 0
    ensures Readable(d, it, indent) ==>
      |it.items| / 2 <= 51 && Meaning(it) == Value.Map(Load(NoObjects(), FirstPairs(it.items), 0))
  {
    if Readable(d, it, indent) {
      DecodablePairs(it, indent, d.numBackups - |d.backups|);
    }
  }

  /** The loop over a map's pairs: at most 51 of them, and a key that is not unsigned ends it. */
  method ParsePairs(d: Decoder, m: ChainedMap, indent: nat, ghost hint: Option<Item>, ghost outer: Cursor)
    returns (ok: bool, stuck: bool)
    requires d.Valid() && m.Valid()
    requires hint.Some? ==> hint.value.Map? && Inside(d.buf, d.Now(), hint.value, 0, outer)
    requires hint.Some? ==> |outer.backups| <= d.numBackups
    requires hint.Some? ==> PairsReadable(hint.value, indent, d.numBackups - |outer.backups|)
    modifies d, m, m.table
    ensures d.Valid() && m.Valid() && old(d.payload) <= d.payload
    ensures hint.Some? ==> !stuck && (ok <==> |hint.value.items| / 2 <= 51)
    ensures hint.Some? ==> m.Chains() == Load(old(m.Chains()), FirstPairs(hint.value.items), 0)
    ensures hint.Some? ==> Inside(d.buf, d.Now(), hint.value, |FirstPairs(hint.value.items)|, outer)
    decreases Left(d.buf, d.payload), 4
  {
    hide Inside, At, Wire, WellFormed, Meaning, Load, Decodable, Contents;
    stuck := false;
    var loopCount := 0;
    ghost var i: nat := 0;
    var atEnd := d.ArrayAtEnd();
    while !atEnd
      invariant d.Valid() && m.Valid() && old(d.payload) <= d.payload && atEnd == AtEnd(d.buf, d.Now()) && !stuck
      invariant loopCount <= 51
      invariant hint.Some? ==> i == 2 * loopCount <= |hint.value.items| && Inside(d.buf, d.Now(), hint.value, i, outer)
      invariant hint.Some? ==> var pairs := FirstPairs(hint.value.items);
        Load(m.Chains(), pairs, i) == Load(old(m.Chains()), pairs, 0)
      decreases Left(d.buf, d.payload), !atEnd
    {
      if hint.Some? {
        InsideNotYetEnd(d.buf, d.Now(), hint.value, i, outer);
        InsidePairs(d.buf, d.Now(), hint.value, i, outer, indent, d.numBackups);
      }
      if loopCount > CORECONF_MAX_LOOP {
        if hint.Some? {
          LoadAll(m.Chains(), FirstPairs(hint.value.items));
        }
        return false, false;
      }
      if hint.Some? {
        LoadPair(m.Chains(), FirstPairs(hint.value.items), i);
      }
      ok, stuck := ParsePair(d, m, indent, hint, outer, i);
      if stuck || !ok {
        return;
      }
      loopCount, i := loopCount + 1, i + 2;
      atEnd := d.ArrayAtEnd();
    }
    if hint.Some? {
      InsideAtEnd(d.buf, d.Now(), hint.value, i, outer);
      LoadAll(m.Chains(), FirstPairs(hint.value.items));
    }
    ok := true;
  }

  lemma LoadAll(t: Table, items: seq<Item>)
    requires |t| == HASHMAP_TABLE_SIZE
    ensures Load(t, items, |items|) == t
  {
  }

  lemma LoadPair(t: Table, items: seq<Item>, i: nat)
    requires |t| == HASHMAP_TABLE_SIZE && i + 1 < |items| && items[i].Uint?
    ensures Load(t, items, i) == Load(Put(t, items[i].n, Meaning(items[i + 1])).0, items, i + 2)
  {
  }

  /** One key and its value; a value that cannot be read is left out. */
  method ParsePair(d: Decoder, m: ChainedMap, indent: nat, ghost hint: Option<Item>, ghost outer: Cursor, ghost i: nat)
    returns (ok: bool, stuck: bool)
    requires d.Valid() && m.Valid()
    requires hint.Some? ==> hint.value.Map? && Inside(d.buf, d.Now(), hint.value, i, outer)
    requires hint.Some? ==> i % 2 == 0 && i < |hint.value.items| && |outer.backups| <= d.numBackups
    requires hint.Some? ==> PairsReadable(hint.value, indent, d.numBackups - |outer.backups|)
    modifies d, m, m.table
    ensures d.Valid() && m.Valid() && old(d.payload) <= d.payload
    ensures ok && !stuck ==> Left(d.buf, d.payload) < old(Left(d.buf, d.payload))
    ensures hint.Some? ==> ok && !stuck && i + 1 < |hint.value.items| && hint.value.items[i].Uint?
    ensures hint.Some? ==> Inside(d.buf, d.Now(), hint.value, i + 2, outer)
    ensures hint.Some? ==>
      m.Chains() == Put(old(m.Chains()), hint.value.items[i].n, Meaning(hint.value.items[i + 1])).0
    decreases Left(d.buf, d.payload), 3
  {
    hide Inside, At, Wire, WellFormed, Meaning, ReadUint, Decodable, Contents, WellPlaced, PairsReadable;
    ghost var child: Option<Item> := None;
    if hint.Some? {
      InsideStep(d.buf, d.Now(), hint.value, i, outer);
      InsidePairs(d.buf, d.Now(), hint.value, i, outer, indent, d.numBackups);
      ReadsNumber(d.buf, d.payload, hint.value.items[i], d.elemCount);
    }
    var key := d.UintDecode();
    if key == None {
      return false, false;
    }
    if hint.Some? {
      InsideStep(d.buf, d.Now(), hint.value, i + 1, outer);
      InsidePairs(d.buf, d.Now(), hint.value, i + 1, outer, indent, d.numBackups);
      child := Some(hint.value.items[i + 1]);
    }
    var v;
    v, stuck := CborToCoreconfValue(d, indent + 1, child);
    if stuck {
      return false, true;
    }
    ghost var inside := d.Now();
    if v.Some? {
      var _ := m.Insert(key.value, v.value);
    }
    assert d.Now() == inside;
    ok := true;
  }

  lemma LimitsOf(d: Decoder, it: Item, indent: nat)
    requires Readable(d, it, indent) || Overfull(d, it, indent)
    ensures indent <= 20 && WellFormed(it) && At(d.buf, d.payload, Wire(it))
    ensures Overfull(d, it, indent) ==> it.Map? && |d.backups| < d.numBackups
    ensures Readable(d, it, indent) && (it.List? || it.Map?) ==> |d.backups| < d.numBackups
    ensures Readable(d, it, indent) && !it.List? && !it.Map? ==> Readable(d, it, 0)
  {
  }

  /**
   An item within the limits is decoded to its meaning. Of a map with too many pairs the first 51 are decoded and
   the state stays inside it; too deep an item is not decoded; a container without a backup left decodes as empty.
   */
  method CborToCoreconfValue(d: Decoder, indent: nat, ghost hint: Option<Item>)
    returns (v: Option<Value>, stuck: bool)
    requires d.Valid() && (hint.Some? ==> Readable(d, hint.value, indent) || Overfull(d, hint.value, indent))
    modifies d
    ensures d.Valid() && old(d.payload) <= d.payload && (old(d.payload) >= |d.buf| ==> d.payload == old(d.payload))
    ensures hint.Some? && old(Readable(d, hint.value, indent)) ==>
      !stuck && v == Some(Meaning(hint.value)) && ReadAs(hint.value, v.value) && Consumed(d, hint.value)
    ensures hint.Some? && old(Overfull(d, hint.value, indent)) ==>
      && !stuck && v == Some(Value.Map(Load(NoObjects(), FirstPairs(hint.value.items), 0)))
      && Inside(d.buf, d.Now(), hint.value, 102, old(d.Now()))
    ensures indent > 20 ==> !stuck && v == None && d.Now() == old(d.Now())
    ensures indent <= 20 && |old(d.backups)| >= d.numBackups && Major(d.buf, old(d.payload), 4) ==>
      !stuck && v == Some(Array([])) && d.Now() == old(d.Now())
    ensures indent <= 20 && |old(d.backups)| >= d.numBackups && Major(d.buf, old(d.payload), 5) ==>
      !stuck && v == Some(Value.Map(NoObjects())) && d.Now() == old(d.Now())
    decreases Left(d.buf, d.payload), 3
  {
    hide Inside, Load, PairsReadable, Decodable, Meaning, At, Wire, WellFormed, ReadAs;
    if hint.Some? {
      LimitsOf(d, hint.value, indent);
      if Readable(d, hint.value, indent) {
        MeaningIsReadAs(hint.value, indent, d.numBackups - |d.backups|);
      }
    }
    stuck := false;
    if indent > CORECONF_MAX_DEPTH {
      return None, false;
    }
    if d.payload >= |d.buf| {
      return None, false;
    }
    var major := d.buf[d.payload] / 32;
    if hint.Some? {
      HintedMajor(d.buf, d.payload, hint.value);
    }
    if major == 4 {
      var elems;
      elems, stuck := ParseArray(d, indent, hint);
      v := Some(Array(elems));
    } else if major == 5 {
      var m := new ChainedMap();
      stuck := ParseMap(d, m, indent, hint);
      v := Some(Value.Map(m.table[..]));
    } else {
      v := ParseLeaf(d, major, hint);
    }
  }
}
