/** Whole trips over the wire: from the encoder's buffer through the decoder and back. */
module Trips {
  import opened Wrappers
  import opened Heads
  import opened Items
  import opened Skipping
  import opened Values
  import opened Codec
  import opened RoundTrip
  import opened Reading
  import opened Encoders
  import Printer
  import opened Decoders
  import opened Parser

  // ---------------------------------------------------------------- integers

  /** The shortest head has one of five lengths. */
  lemma HeaderLengths(n: nat)
    requires n < TWO_64
    ensures |Head(0, Shortest(n), n)| == HeaderLen(n) && HeaderLen(n) in {1, 2, 3, 5, 9}
  {
    ShortestIsShortest(0, n, Shortest(n));
  }

  /** Every unsigned 64-bit integer comes back from exactly the bytes written. */
  method UnsignedTrip(n: nat, buf: array<byte>) returns (back: Option<nat>, written: nat, consumed: nat)
    requires n < TWO_64 && 9 <= buf.Length <= HALF_SIZE_MAX
    modifies buf
    ensures back == Some(n) && consumed == written == HeaderLen(n) && written in {1, 2, 3, 5, 9}
    ensures forall w: Width :: w.Expresses(n) ==> written <= |Head(0, w, n)|
  {
    hide BigEndian, Head;
    Powers();
    HeaderLengths(n);
    var e := new Encoder(buf, 0);
    var ok := e.UintPut(n, 8);
    written := e.payload;
    var data := buf[..written];
    var it := Uint(Shortest(n), n);
    assert data == Wire(it);
    WholeAt(data);
    ReadsNumber(data, 0, it, 1);
    var d := new Decoder(data, 0, 2, 1);
    back := d.UintDecode();
    consumed := d.payload;
    forall w: Width | w.Expresses(n)
      ensures written <= |Head(0, w, n)|
    {
      ShortestIsShortest(0, n, w);
    }
  }

  /** Every signed 64-bit integer does too, negative ones through the complement both ways. */
  method SignedTrip(n: int, buf: array<byte>) returns (back: Option<int>, written: nat, consumed: nat)
    requires -TWO_63 <= n < TWO_63 && 9 <= buf.Length <= HALF_SIZE_MAX
    modifies buf
    ensures back == Some(n) && consumed == written == HeaderLen(if n >= 0 then n else -1 - n)
    ensures written in {1, 2, 3, 5, 9}
  {
    hide BigEndian, Head;
    Powers();
    var m := if n >= 0 then n else -1 - n;
    HeaderLengths(m);
    ShortestIsShortest(1, m, Shortest(m));
    var e := new Encoder(buf, 0);
    var ok := e.IntPut(n, 8);
    written := e.payload;
    var data := buf[..written];
    ghost var it := if n >= 0 then Uint(Shortest(m), m) else Nint(Shortest(m), m);
    assert data == Wire(it);
    WholeAt(data);
    ReadsSigned(data, it);
    var d := new Decoder(data, 0, 2, 1);
    back := d.IntDecode();
    consumed := d.payload;
  }

  /** An argument of 2^63 or more does not fit a signed integer; any other is read. */
  lemma ReadsSigned(data: seq<byte>, it: Item)
    requires WellFormed(it) && At(data, 0, Wire(it)) && (it.Uint? || it.Nint?)
    ensures ReadInt(data, 0, 1) ==
      if it.n < 0x8000_0000_0000_0000 then Some((if it.Uint? then it.n else -1 - it.n, |Wire(it)|)) else None
  {
    HeadExtracts(data, 0, if it.Uint? then 0 else 1, it.w, it.n, 8, false, 1);
  }

  // ---------------------------------------------------------------- skipping and decoding agree

  /** A skip over an encoded value ends at the byte after it, which is where the decoder stops. */
  lemma SkipsEncoding(buf: seq<byte>, pos: nat, v: Value, elemCount: nat)
    requires |buf| <= HALF_SIZE_MAX && Encodable(v) && At(buf, pos, Encode(v)) && elemCount > 0
    ensures Skip(buf, pos, elemCount) == Some(pos + Size(v))
  {
    hide At, Wire, WellFormed, Encode, SkipTags, SkipBare, Size;
    EncodeIsWire(v);
    SkipsItem(buf, pos, pos, ItemOf(v), elemCount);
  }

  // ---------------------------------------------------------------- values

  lemma {:induction false} TurnedFits(v: Value, indent: nat, backups: nat)
    requires Fits(v, indent, backups)
    ensures Fits(Turned(v), indent, backups)
    decreases v, 1
  {
    match v
    case Array(es) =>
      forall i | 0 <= i < |es|
        ensures Fits(Turned(es[i]), indent + 1, backups - 1)
      {
        TurnedFits(es[i], indent + 1, backups - 1);
      }
    case Map(t) =>
      forall i | 0 <= i < |t|
        ensures FitsChain(TurnedTable(t)[i], indent + 1, backups - 1)
      {
        TurnedChainFits(t[i], End, indent + 1, backups - 1);
      }
      TurnedEntries(t, 0);
    case _ =>
  }

  lemma {:induction false} TurnedChainFits(c: Chain, front: Chain, indent: nat, backups: nat)
    requires FitsChain(c, indent, backups) && FitsChain(front, indent, backups)
    ensures FitsChain(TurnedChain(c, front), indent, backups)
    decreases c, 0
  {
    if c.Object? {
      TurnedFits(c.value, indent, backups);
      TurnedChainFits(c.next, Object(c.key, Turned(c.value), front), indent, backups);
    }
  }

  lemma {:induction false} TurnedEntries(t: Table, i: nat)
    requires i <= |t|
    ensures Entries(TurnedTable(t), i) == Entries(t, i)
    decreases |t| - i
  {
    if i < |t| {
      TurnedEntries(t, i + 1);
    }
  }

  /**
   Encodes a value into a buffer with room and decodes it: exactly the predicted number of bytes is written
   and consumed, and what comes back is the value up to integer width, its maps the same finite maps.
   */
  method ValueTrip(v: Value, buf: array<byte>, nStates: nat) returns (back: Option<Value>, written: nat, consumed: nat)
    requires Encodable(v) && 2 <= nStates && Fits(v, 0, nStates - 2)
    requires Size(v) <= buf.Length <= HALF_SIZE_MAX
    modifies buf
    ensures written == consumed == Size(v) <= buf.Length && buf[..written] == Encode(v)
    ensures back == Some(Turned(v)) && Abs(back.value) == Abs(v) && Same(v, back.value)
  {
    hide At, Wire, WellFormed, Encode, Encodable, Size, Decodable, Meaning, Turned, Abs, Fits, Same, ReadAs, HasForm;
    RoundTripLaw(v, 0, nStates - 2);
    TurnedEncodable(v);
    AbsIffSame(v, Turned(v));
    var e := new Encoder(buf, 0);
    Printer.RoomIsEnough(v, buf.Length);
    var ok := Printer.CoreconfToCbor(e, v);
    written := e.payload;
    var data := buf[..written];
    assert data == Encode(v);
    WholeAt(data);
    var d := new Decoder(data, 0, nStates, 1);
    var stuck;
    back, stuck := CborToCoreconfValue(d, 0, Some(ItemOf(v)));
    consumed := d.payload;
  }

  lemma {:induction false} LoadedFew(t: Table, items: seq<Item>, i: nat)
    requires WellPlaced(t) && i <= |items|
    ensures WellPlaced(Load(t, items, i)) && 2 * |Contents(Load(t, items, i))| <= 2 * |Contents(t)| + (|items| - i)
    decreases |items| - i
  {
    hide WellPlaced, Contents, Meaning;
    if i + 1 < |items| {
      var key, v := if items[i].Uint? then items[i].n else 0, Meaning(items[i + 1]);
      PutFew(t, key, v);
      LoadedFew(Put(t, key, v).0, items, i + 2);
    }
  }

  lemma PutFew(t: Table, key: nat, v: Value)
    requires WellPlaced(t)
    ensures |t| == HASHMAP_TABLE_SIZE && WellPlaced(Put(t, key, v).0)
    ensures |Contents(Put(t, key, v).0)| <= |Contents(t)| + 1
  {
    hide Contents;
    PutBinds(t, key, v);
    assert Contents(t)[key := v].Keys == Contents(t).Keys + {key};
  }

  /**
   The limit of 51 entries is sharp: of a map with more, the first 51 in encoding order come back, in a map with no
   more than 51 keys, and the decoder stops inside the encoding.
   */
  method OverfullTrip(t: Table, buf: array<byte>, nStates: nat) returns (back: Option<Value>, consumed: nat)
    requires Encodable(Value.Map(t)) && 3 <= nStates && Size(Value.Map(t)) <= buf.Length <= HALF_SIZE_MAX
    requires Entries(t, 0) > 51 && forall j :: 0 <= j < |t| ==> FitsChain(t[j], 1, nStates - 3)
    modifies buf
    ensures back == Some(Value.Map(Load(NoObjects(), FirstPairs(TableItems(t, 0)), 0)))
    ensures WellPlaced(back.value.table) && |Contents(back.value.table)| <= 51
    ensures consumed < Size(Value.Map(t))
  {
    hide At, Wire, WellFormed, Encode, Size, Decodable, Meaning, FitsChain, Load, Contents, WellPlaced, Inside;
    hide HasForm, ReadAs;
    var v := Value.Map(t);
    EncodeIsWire(v);
    TableDecodable(t, 0, 1, nStates - 3);
    var e := new Encoder(buf, 0);
    Printer.RoomIsEnough(v, buf.Length);
    var ok := Printer.CoreconfToCbor(e, v);
    var data := buf[..e.payload];
    assert data == Encode(v);
    WholeAt(data);
    var d := new Decoder(data, 0, nStates, 1);
    var stuck;
    ghost var outer := d.Now();
    back, stuck := CborToCoreconfValue(d, 0, Some(ItemOf(v)));
    consumed := d.payload;
    InsideStep(data, d.Now(), ItemOf(v), 102, outer);
    AtWithin(data, consumed, Wire(ItemOf(v).items[102]));
    EmptyTable();
    LoadedFew(NoObjects(), FirstPairs(TableItems(t, 0)), 0);
  }

  /** Decoding and encoding twice over reproduces the first encoding byte for byte. */
  method TwoTrips(v: Value, buf: array<byte>, nStates: nat) returns (first: seq<byte>, third: seq<byte>)
    requires Encodable(v) && 2 <= nStates && Fits(v, 0, nStates - 2)
    requires Size(v) <= buf.Length <= HALF_SIZE_MAX
    modifies buf
    ensures first == third == Encode(v)
  {
    hide Encode, Encodable, Size, Turned, Abs, Fits;
    TwoRoundTripsRestoreBytes(v);
    SameSize(v);
    TurnedFits(v, 0, nStates - 2);
    TurnedFits(Turned(v), 0, nStates - 2);
    var back, n, m := ValueTrip(v, buf, nStates);
    first := buf[..n];
    var again, n2, m2 := ValueTrip(back.value, buf, nStates);
    var e := new Encoder(buf, 0);
    Printer.RoomIsEnough(again.value, buf.Length);
    var ok := Printer.CoreconfToCbor(e, again.value);
    third := buf[..e.payload];
  }

  /** Turning a value keeps the length of its encoding. */
  lemma {:induction false} TurnedSize(v: Value)
    requires Encodable(v) && Encodable(Turned(v))
    ensures Size(Turned(v)) == Size(v)
    decreases v, 2
  {
    match v
    case Array(es) => TurnedElemsSize(es, Turned(v).elems, 0);
    case Map(t) => TurnedTableSize(t, 0);
    case _ =>
  }

  lemma {:induction false} TurnedElemsSize(es: seq<Value>, es': seq<Value>, i: nat)
    requires i <= |es| == |es'|
    requires forall j :: 0 <= j < |es| ==> Encodable(es[j]) && Encodable(es'[j]) && es'[j] == Turned(es[j])
    ensures SizeElems(es', i) == SizeElems(es, i)
    decreases es, 1, |es| - i
  {
    hide Size, Encodable, Turned;
    if i < |es| {
      TurnedSize(es[i]);
      TurnedElemsSize(es, es', i + 1);
    }
  }

  lemma {:induction false} TurnedTableSize(t: Table, i: nat)
    requires i <= |t| && forall j :: 0 <= j < |t| ==> EncodableChain(t[j]) && EncodableChain(TurnedTable(t)[j])
    ensures SizeTable(TurnedTable(t), i) == SizeTable(t, i)
    decreases t, 1, |t| - i
  {
    hide SizeChain, EncodableChain, TurnedChain;
    if i < |t| {
      assert TurnedTable(t)[i] == TurnedChain(t[i], End);
      TurnedChainSize(t[i], End);
      NoChain();
      TurnedTableSize(t, i + 1);
    }
  }

  lemma NoChain()
    ensures EncodableChain(End) && SizeChain(End) == 0
  {
  }

  lemma {:induction false} TurnedChainSize(c: Chain, front: Chain)
    requires EncodableChain(c) && EncodableChain(front)
    ensures EncodableChain(TurnedChain(c, front))
    ensures SizeChain(TurnedChain(c, front)) == SizeChain(c) + SizeChain(front)
    decreases c
  {
    if c.Object? {
      TurnedEncodable(c.value);
      TurnedSize(c.value);
      TurnedChainSize(c.next, Object(c.key, Turned(c.value), front));
    }
  }

  lemma SameSize(v: Value)
    requires Encodable(v)
    ensures Encodable(Turned(v)) && Size(Turned(v)) == Size(v)
    ensures Encodable(Turned(Turned(v))) && |Encode(Turned(Turned(v)))| == Size(v)
  {
    TurnedEncodable(v);
    TurnedSize(v);
    EncodeIsWire(v);
    TwoRoundTripsRestoreBytes(v);
  }
}
