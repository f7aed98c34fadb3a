/**
 How the server reads and writes the bytes of its event stream: the SID that names a notification, the
 one-entry map an event is wrapped in, the division of a patch sequence into maps, and SID filters.
 */
module Notifications {
  import opened Wrappers
  import opened Heads
  import opened Items
  import opened Skipping
  import opened Decoders
  import opened Parser

  const SPLIT_STATES: nat := 8
  const FILTER_STATES: nat := 16

  // ---------------------------------------------------------------- SID keys

  /** A key that names a SID: the SID itself, or a pair of it with anything. */
  predicate IsSidKey(key: Item) {
    key.Uint? || (key.List? && |key.items| == 2 && key.items[0].Uint?)
  }

  function KeySid(key: Item): nat
    requires IsSidKey(key)
  {
    if key.Uint? then key.n else key.items[0].n
  }

  /** The SID of the key at the payload and the state after it. */
  function SidKeyAt(buf: seq<byte>, v: Cursor, numBackups: nat): (r: Option<(nat, Cursor)>)
    ensures r.Some? ==> v.payload < |buf| && v.payload < r.value.1.payload
  {
    if Major(buf, v.payload, 0) then
      match ReadUint(buf, v.payload, v.elemCount)
      case None => None
      case Some((sid, next)) => Some((sid, Past(v, next)))
    else if Opened(buf, v, 4, numBackups).1 then PairAt(buf, Opened(buf, v, 4, numBackups).0)
    else None
  }

  /** The rest of a pair key, from inside its list. */
  function PairAt(buf: seq<byte>, v: Cursor): (r: Option<(nat, Cursor)>)
    ensures r.Some? ==> v.payload < r.value.1.payload
  {
    match ReadUint(buf, v.payload, v.elemCount)
    case None => None
    case Some((sid, next)) =>
      match Skip(buf, next, v.elemCount - 1)
      case None => None
      case Some(end) =>
        var (outer, ok) := Closed(buf, Past(Past(v, next), end));
        if ok then Some((sid, outer)) else None
  }

  lemma NoItemAtEnd(buf: seq<byte>, v: Cursor)
    requires AtEnd(buf, v)
    ensures Skip(buf, v.payload, v.elemCount) == None && ReadUint(buf, v.payload, v.elemCount) == None
  {
  }

  lemma NotAUint(buf: seq<byte>, pos: nat, it: Item, elemCount: nat)
    requires WellFormed(it) && At(buf, pos, Wire(it)) && !it.Uint?
    ensures ReadUint(buf, pos, elemCount) == None
  {
    hide At, Wire, WellFormed;
    HintedMajor(buf, pos, it);
  }

  /** On a well-formed key the reader answers exactly for SID keys, and then consumes the key. */
  lemma SidKeyReads(buf: seq<byte>, v: Cursor, key: Item, numBackups: nat)
    requires |buf| <= HALF_SIZE_MAX && WellFormed(key) && At(buf, v.payload, Wire(key))
    requires v.elemCount > 0 && |v.backups| < numBackups
    ensures SidKeyAt(buf, v, numBackups) ==
      if IsSidKey(key) then Some((KeySid(key), Past(v, v.payload + |Wire(key)|))) else None
  {
    hide At, Wire, WellFormed, ReadUint, Opened, Inside, PairAt;
    HintedMajor(buf, v.payload, key);
    if key.Uint? {
      ReadsNumber(buf, v.payload, key, v.elemCount);
    } else if key.List? {
      OpenedInside(buf, v, key, numBackups);
      PairReads(buf, Opened(buf, v, 4, numBackups).0, key, v);
    } else {
      NotOpened(buf, v, numBackups);
    }
  }

  lemma NotOpened(buf: seq<byte>, v: Cursor, numBackups: nat)
    requires !Major(buf, v.payload, 4)
    ensures !Opened(buf, v, 4, numBackups).1
  {
  }

  lemma PairReads(buf: seq<byte>, v: Cursor, key: Item, outer: Cursor)
    requires key.List? && Inside(buf, v, key, 0, outer) && WellFormed(key) && |buf| <= HALF_SIZE_MAX
    ensures PairAt(buf, v) ==
      if IsSidKey(key) then Some((KeySid(key), Past(outer, outer.payload + |Wire(key)|))) else None
  {
    hide At, Wire, WellFormed, ReadUint, Inside, Closed, Skip;
    if key.items == [] {
      InsideEnd(buf, v, key, outer);
      NoItemAtEnd(buf, v);
    } else {
      InsideStep(buf, v, key, 0, outer);
      if !key.items[0].Uint? {
        NotAUint(buf, v.payload, key.items[0], v.elemCount);
      } else {
        ReadsNumber(buf, v.payload, key.items[0], v.elemCount);
        PairValueReads(buf, Past(v, v.payload + |Wire(key.items[0])|), key, outer);
      }
    }
  }

  lemma PairValueReads(buf: seq<byte>, v: Cursor, key: Item, outer: Cursor)
    requires key.List? && Inside(buf, v, key, 1, outer) && WellFormed(key) && |key.items| >= 1 && |buf| <= HALF_SIZE_MAX
    ensures var r := Skip(buf, v.payload, v.elemCount);
      && r.Some? == (|key.items| > 1)
      && (r.Some? ==> Closed(buf, Past(v, r.value)).1 == (|key.items| == 2))
      && (|key.items| == 2 ==> Closed(buf, Past(v, r.value)).0 == Past(outer, outer.payload + |Wire(key)|))
  {
    hide At, Wire, WellFormed, Inside, Skip;
    if |key.items| == 1 {
      InsideEnd(buf, v, key, outer);
      NoItemAtEnd(buf, v);
    } else {
      InsideStep(buf, v, key, 1, outer);
      SkipsWhole(buf, v.payload, key.items[1], v.elemCount);
      var v2 := Past(v, v.payload + |Wire(key.items[1])|);
      if |key.items| == 2 {
        InsideEnd(buf, v2, key, outer);
      } else {
        InsideStep(buf, v2, key, 2, outer);
      }
    }
  }

  lemma SkipsWhole(buf: seq<byte>, pos: nat, it: Item, elemCount: nat)
    requires |buf| <= HALF_SIZE_MAX && WellFormed(it) && At(buf, pos, Wire(it)) && elemCount > 0
    ensures Skip(buf, pos, elemCount) == Some(pos + |Wire(it)|)
  {
    hide At, Wire, WellFormed;
    SkipsItem(buf, pos, pos, it, elemCount);
  }

  /** Reads a SID key, or fails without having gone back before its start. */
  method DecodeSidKey(d: Decoder) returns (sid: Option<nat>)
    requires d.Valid()
    modifies d
    ensures d.Valid() && old(d.payload) <= d.payload
    ensures var r := SidKeyAt(d.buf, old(d.Now()), d.numBackups);
      && sid.Some? == r.Some?
      && (r.Some? ==> sid == Some(r.value.0) && d.Now() == r.value.1 && d.bak == old(d.payload)
                      && Left(d.buf, d.payload) < old(Left(d.buf, d.payload)))
  {
    hide Skip;
    if d.payload >= |d.buf| {
      return None;
    }
    var major := d.buf[d.payload] / 32;
    if major == 0 {
      sid := d.UintDecode();
    } else if major == 4 {
      sid := DecodePair(d);
    } else {
      sid := None;
    }
  }

  method DecodePair(d: Decoder) returns (sid: Option<nat>)
    requires d.Valid() && Major(d.buf, d.payload, 4)
    modifies d
    ensures d.Valid() && old(d.payload) <= d.payload
    ensures var inside := Opened(d.buf, old(d.Now()), 4, d.numBackups);
      && sid.Some? == (inside.1 && PairAt(d.buf, inside.0).Some?)
      && (sid.Some? ==> var r := PairAt(d.buf, inside.0).value;
            sid == Some(r.0) && d.Now() == r.1 && d.bak == old(d.payload) && old(d.payload) < d.payload)
  {
    hide Skip;
    var ok := d.ListStart();
    if !ok {
      return None;
    }
    sid := d.UintDecode();
    if sid == None {
      var _ := d.ListMapEnd();
      return None;
    }
    ok := d.AnySkip();
    if !ok {
      var _ := d.ListMapEnd();
      return None;
    }
    ok := d.ListMapEnd();
    if !ok {
      sid := None;
    }
  }

  // ---------------------------------------------------------------- the SID that names a notification

  function FirstSid(data: seq<byte>, fallback: nat): nat {
    var (v, ok) := OpenedMap(data, Cursor(0, 1, false, []), 6);
    if !ok || AtEnd(data, v) then fallback
    else
      match SidKeyAt(data, v, 6)
      case None => fallback
      case Some((sid, _)) => sid
  }

  method ExtractFirstSidFromMap(data: seq<byte>, fallback: nat) returns (sid: nat)
    requires |data| <= HALF_SIZE_MAX
    ensures sid == FirstSid(data, fallback)
  {
    if |data| == 0 {
      return fallback;
    }
    var d := new Decoder(data, 0, SPLIT_STATES, 1);
    var ok := d.MapStart();
    if !ok {
      return fallback;
    }
    var atEnd := d.ArrayAtEnd();
    if atEnd {
      return fallback;
    }
    var key := DecodeSidKey(d);
    sid := if key.Some? then key.value else fallback;
  }

  lemma UintIsSid(buf: seq<byte>, pos: nat, elemCount: nat)
    ensures ReadUint(buf, pos, elemCount).Some? ==> ReadUint(buf, pos, elemCount).value.0 < 0x1_0000_0000_0000_0000
  {
    hide ExtractHead, BigEndian, FromBigEndian;
    if ExtractHead(buf, pos, 8, false, elemCount).Value? {
      var w := ExtractIsHead(buf, pos, 8, false, elemCount);
    }
  }

  lemma FirstSidIsSid(data: seq<byte>, fallback: nat)
    requires fallback < 0x1_0000_0000_0000_0000
    ensures FirstSid(data, fallback) < 0x1_0000_0000_0000_0000
  {
    hide ReadUint, Skip, OpenedMap, Closed, Opened;
    var v := OpenedMap(data, Cursor(0, 1, false, []), 6).0;
    UintIsSid(data, v.payload, v.elemCount);
    var inside := Opened(data, v, 4, 6).0;
    UintIsSid(data, inside.payload, inside.elemCount);
  }

  /** A map is named by its first key if that is a SID key, and by the fallback otherwise. */
  lemma FirstSidOfMap(it: Item, fallback: nat)
    requires WellFormed(it) && it.Map? && |Wire(it)| <= HALF_SIZE_MAX
    ensures FirstSid(Wire(it), fallback) ==
      if it.items != [] && IsSidKey(it.items[0]) then KeySid(it.items[0]) else fallback
  {
    hide At, Wire, WellFormed, Inside, SidKeyAt, OpenedMap;
    var data, outer := Wire(it), Cursor(0, 1, false, []);
    WholeAt(data);
    OpenedInside(data, outer, it, 6);
    var v := OpenedMap(data, outer, 6).0;
    if it.items == [] {
      InsideEnd(data, v, it, outer);
    } else {
      InsideStep(data, v, it, 0, outer);
      InsideBackups(data, v, it, 0, outer);
      SidKeyReads(data, v, it.items[0], 6);
    }
  }

  // ---------------------------------------------------------------- wrapping

  const INSTANCE: byte := 0xA1

  lemma QuotientIs(n: nat, d: nat, p: nat, t: nat)
    requires n == d * p + t && t < d
    ensures n / d == p
  {
    var q := n / d;
    assert n == d * q + n % d;
    assert q < p ==> d * (q + 1) <= d * p;
    assert p < q ==> d * (p + 1) <= d * q;
  }

  function Shifted(n: nat, k: nat): byte {
    n / Pow256(k) % 256
  }

  /** Byte `i` of a big-endian number is what a shift by the bytes after it leaves. */
  lemma {:induction false} ShiftedByte(n: nat, len: nat, i: nat)
    requires i < len
    ensures BigEndian(n, len)[i] == Shifted(n, len - 1 - i)
    decreases len
  {
    if i < len - 1 {
      ShiftedByte(n / 256, len - 1, i);
      ShiftTwice(n, Pow256(len - 2 - i));
    }
  }

  lemma ShiftTwice(n: nat, a: nat)
    requires a > 0
    ensures n / 256 / a == n / (256 * a)
  {
    var q, p := n / 256, n / 256 / a;
    var t := 256 * (q % a) + n % 256;
    assert q == a * p + q % a;
    assert n == (256 * a) * p + t by {
      assert 256 * (a * p) == (256 * a) * p;
    }
    QuotientIs(n, 256 * a, p, t);
  }

  lemma ShiftedBytes(n: nat)
    ensures BigEndian(n, 1) == [Shifted(n, 0)]
    ensures BigEndian(n, 2) == [Shifted(n, 1), Shifted(n, 0)]
    ensures BigEndian(n, 4) == [Shifted(n, 3), Shifted(n, 2), Shifted(n, 1), Shifted(n, 0)]
    ensures BigEndian(n, 8) == [Shifted(n, 7), Shifted(n, 6), Shifted(n, 5), Shifted(n, 4),
                                Shifted(n, 3), Shifted(n, 2), Shifted(n, 1), Shifted(n, 0)]
  {
    hide BigEndian, Shifted;
    ShiftedByte(n, 1, 0);
    ShiftedByte(n, 2, 0); ShiftedByte(n, 2, 1);
    ShiftedByte(n, 4, 0); ShiftedByte(n, 4, 1); ShiftedByte(n, 4, 2); ShiftedByte(n, 4, 3);
    ShiftedByte(n, 8, 0); ShiftedByte(n, 8, 1); ShiftedByte(n, 8, 2); ShiftedByte(n, 8, 3);
    ShiftedByte(n, 8, 4); ShiftedByte(n, 8, 5); ShiftedByte(n, 8, 6); ShiftedByte(n, 8, 7);
  }

  lemma Shifts(n: nat)
    ensures Shifted(n, 0) == n % 256 && Shifted(n, 1) == n / 0x100 % 256 && Shifted(n, 2) == n / 0x1_0000 % 256
    ensures Shifted(n, 3) == n / 0x100_0000 % 256 && Shifted(n, 4) == n / 0x1_0000_0000 % 256
    ensures Shifted(n, 5) == n / 0x100_0000_0000 % 256 && Shifted(n, 6) == n / 0x1_0000_0000_0000 % 256
    ensures Shifted(n, 7) == n / 0x100_0000_0000_0000 % 256
  {
    hide Pow256;
    MorePowers();
  }

  lemma MorePowers()
    ensures Pow256(0) == 1 && Pow256(1) == 0x100 && Pow256(2) == 0x1_0000 && Pow256(3) == 0x100_0000
    ensures Pow256(4) == 0x1_0000_0000 && Pow256(5) == 0x100_0000_0000
    ensures Pow256(6) == 0x1_0000_0000_0000 && Pow256(7) == 0x100_0000_0000_0000
  {
    Powers();
    assert Pow256(5) == 256 * Pow256(4);
    assert Pow256(6) == 256 * Pow256(5);
    assert Pow256(7) == 256 * Pow256(6);
  }

  lemma NoBytes(n: nat)
    ensures BigEndian(n, 0) == []
  {
  }

  /** The bytes `cbor_encode_uint` writes. */
  function UintBytes(n: nat): seq<byte>
    requires n < 0x1_0000_0000_0000_0000
  {
    if n < 24 then [n]
    else if n <= 0xFF then [0x18, n]
    else if n <= 0xFFFF then [0x19, n / 0x100 % 256, n % 256]
    else if n <= 0xFFFF_FFFF then [0x1A, n / 0x100_0000 % 256, n / 0x1_0000 % 256, n / 0x100 % 256, n % 256]
    else [0x1B, n / 0x100_0000_0000_0000 % 256, n / 0x1_0000_0000_0000 % 256, n / 0x100_0000_0000 % 256,
          n / 0x1_0000_0000 % 256, n / 0x100_0000 % 256, n / 0x1_0000 % 256, n / 0x100 % 256, n % 256]
  }

  /** They are the shortest head that the zcbor encoder would write. */
  lemma UintBytesAreHead(n: nat)
    requires n < 0x1_0000_0000_0000_0000
    ensures UintBytes(n) == Head(0, Shortest(n), n) && |UintBytes(n)| == HeaderLen(n)
  {
    hide BigEndian, Shifted;
    NoBytes(n);
    ShiftedBytes(n);
    Shifts(n);
  }

  /** Nothing is reported where the head has no room. */
  method CborEncodeUint(out: array<byte>, at: nat, value: nat) returns (len: nat)
    requires at <= out.Length && value < 0x1_0000_0000_0000_0000
    modifies out
    ensures out[..at] == old(out[..at])
    ensures len == if HeaderLen(value) <= out.Length - at then HeaderLen(value) else 0
    ensures len > 0 ==> out[at..at + len] == Head(0, Shortest(value), value)
  {
    hide Head, HeaderLen;
    UintBytesAreHead(value);
    var bytes := UintBytes(value);
    if out.Length - at < |bytes| {
      return 0;
    }
    len := |bytes|;
    forall i | 0 <= i < len {
      out[at + i] := bytes[i];
    }
    assert out[at..at + len] == bytes;
  }
}
