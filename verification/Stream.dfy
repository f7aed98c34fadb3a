/**
 The server's event stream: a queue of the 16 newest events, fed by notifications cut out of patch
 sequences and read, newest first, through an optional SID filter.
 */
module Stream {
  import opened Wrappers
  import opened Heads
  import opened Items
  import opened Skipping
  import opened Overruns
  import opened Decoders
  import opened Parser
  import opened Notifications
  import opened Codec

  const STREAM_MAX_EVENTS: nat := 16
  const BUFFER_SIZE: nat := 4096

  /** A SID as an unsigned 64-bit integer. */
  type Sid = n: nat | n < 0x1_0000_0000_0000_0000

  // ---------------------------------------------------------------- events

  /** What an event carries: the SID naming it and the bytes of its payload map. */
  datatype Note = Note(sid: Sid, payload: seq<byte>)

  /** The map of one entry, from the note's SID to its payload. */
  function Event(n: Note): (bs: seq<byte>)
    ensures |bs| == 1 + |Head(0, Shortest(n.sid), n.sid)| + |n.payload|
  {
    [INSTANCE] + Head(0, Shortest(n.sid), n.sid) + n.payload
  }

  predicate Fits(n: Note) {
    n.payload != [] && |Event(n)| <= BUFFER_SIZE
  }

  lemma FitsIff(n: Note)
    ensures Fits(n) <==> n.payload != [] && 1 + HeaderLen(n.sid) + |n.payload| <= 4096
    ensures n.payload != [] ==> |Event(n)| == 1 + HeaderLen(n.sid) + |n.payload|
  {
    ShortestIsShortest(0, n.sid, Shortest(n.sid));
  }

  /** The empty map queued under SID 1000. */
  lemma EventOnTheWire()
    ensures Event(Note(1000, [0xA0])) == [0xA1, 0x19, 0x03, 0xE8, 0xA0]
  {
    HeadExamples();
  }

  /** Returns the length written, or 0 where the event does not fit the buffer. */
  method WrapNotificationInstance(out: array<byte>, sid: Sid, payload: seq<byte>) returns (len: nat)
    modifies out
    ensures len > 0 <==> payload != [] && |Event(Note(sid, payload))| <= out.Length
    ensures len > 0 ==> len <= out.Length && out[..len] == Event(Note(sid, payload))
  {
    hide BigEndian, Head;
    ShortestIsShortest(0, sid, Shortest(sid));
    if out.Length < 2 || payload == [] {
      return 0;
    }
    out[0] := INSTANCE;
    var keyLen := CborEncodeUint(out, 1, sid);
    if keyLen == 0 || 1 + keyLen + |payload| > out.Length {
      return 0;
    }
    assert out[..1 + keyLen] == out[..1] + out[1..1 + keyLen];
    CopyInto(out, 1 + keyLen, payload);
    len := 1 + keyLen + |payload|;
  }

  /** `memcpy` into the middle of a buffer. */
  method CopyInto(out: array<byte>, at: nat, bytes: seq<byte>)
    requires at + |bytes| <= out.Length
    modifies out
    ensures out[..at + |bytes|] == old(out[..at]) + bytes
  {
    forall i | 0 <= i < |bytes| {
      out[at + i] := bytes[i];
    }
  }

  /** An event is itself a well-formed item whose only key is its SID. */
  function Instance(sid: Sid, it: Item): Item {
    Item.Map(Definite(Direct), [Uint(Shortest(sid), sid), it])
  }

  lemma EventIsInstance(sid: Sid, it: Item)
    requires WellFormed(it)
    ensures WellFormed(Instance(sid, it)) && Wire(Instance(sid, it)) == Event(Note(sid, Wire(it)))
  {
    hide Wire, BigEndian;
    var key := Uint(Shortest(sid), sid);
    KeyWire(sid);
    assert [key, it] + [] == [key, it];
    WireFromPair(key, it, []);
    InstanceWire([key, it]);
  }

  lemma KeyWire(sid: Sid)
    ensures var key := Uint(Shortest(sid), sid);
      WellFormed(key) && Wire(key) == Head(0, Shortest(sid), sid)
  {
  }

  lemma InstanceWire(items: seq<Item>)
    requires AllWellFormed(items) && |items| == 2
    ensures var it := Item.Map(Definite(Direct), items);
      WellFormed(it) && Wire(it) == [INSTANCE] + WireFrom(items, 0)
  {
    NoBytes(1);
  }

  // ---------------------------------------------------------------- cutting a sequence into maps

  /**
   The maps at the start of a byte string, up to the first thing that is not skipped as a map. A last map
   that is cut short within its overhang is read on into the memory `beyond` the payload.
   */
  ghost function Split(buf: seq<byte>, ptr: nat, beyond: nat -> byte): seq<seq<byte>>
    decreases Left(buf, ptr)
  {
    if !Major(buf, ptr, 5) then []
    else
      match Skip(buf, ptr, 1)
      case None => []
      case Some(q) =>
        if q > |buf| then [Extended(buf, q, beyond)[ptr..]] else [buf[ptr..q]] + Split(buf, q, beyond)
  }

  /** The splitting of `buf` from `ptr` on ends with such a map. */
  ghost predicate ReadsBeyond(buf: seq<byte>, ptr: nat)
    decreases Left(buf, ptr)
  {
    && Major(buf, ptr, 5) && Skip(buf, ptr, 1).Some?
    && var q := Skip(buf, ptr, 1).value; q > |buf| || ReadsBeyond(buf, q)
  }

  /** The bytes from `ptr` on are well-formed maps, the last of them cut short within its overhang. */
  ghost predicate EndsCut(buf: seq<byte>, ptr: nat) {
    exists maps, p, it ::
      AreMaps(maps) && Pending(buf, ptr, maps, 0, p) && IsCutMap(buf, p, it)
  }

  ghost predicate IsCutMap(buf: seq<byte>, pos: nat, it: Item) {
    && WellFormed(it) && it.Map? && CutAt(buf, pos, Wire(it))
    && pos + |Wire(it)| - |buf| <= Overhang(it, 0)
  }

  /** Where a container ends, from a state inside it. */
  ghost function EndOf(buf: seq<byte>, v: Cursor): Option<nat> {
    SkipContent(buf, v.payload, v.elemCount, v.indefinite)
  }

  /** Closing the container in state `v` succeeds exactly if it has the end `goal`, and moves there. */
  ghost predicate ClosesAt(buf: seq<byte>, v: Cursor, goal: Option<nat>) {
    Closed(buf, v).1 == goal.Some? && (goal.Some? ==> goal.value == Closed(buf, v).0.payload)
  }

  lemma EndOfStep(buf: seq<byte>, v: Cursor)
    requires !AtEnd(buf, v)
    ensures var r := Skip(buf, v.payload, v.elemCount);
      if r.None? then EndOf(buf, v) == None else v.elemCount > 0 && EndOf(buf, v) == EndOf(buf, Past(v, r.value))
  {
    hide Skip;
  }

  lemma ClosesAtEnd(buf: seq<byte>, v: Cursor)
    requires AtEnd(buf, v) && v.backups != []
    ensures ClosesAt(buf, v, EndOf(buf, v))
  {
  }

  /** After a failed skip the container cannot be closed, wherever the skip has left the payload. */
  lemma FailedSkipDoesNotClose(buf: seq<byte>, v: Cursor, start: nat)
    requires !AtEnd(buf, v) && Major(buf, start, 5)
    ensures !Closed(buf, v).1
    ensures !Closed(buf, v.(payload := start, elemCount := v.elemCount + 1)).1
  {
  }

  lemma {:induction false} ElementsNeedBytes(buf: seq<byte>, pos: nat, n: nat)
    requires SkipContent(buf, pos, n, false).Some?
    ensures n <= Left(buf, pos)
    decreases n
  {
    hide Skip;
    if n > 0 {
      var next := Skip(buf, pos, n).value;
      ElementsNeedBytes(buf, next, n - 1);
    }
  }

  lemma MapSkip(buf: seq<byte>, pos: nat)
    requires |buf| <= HALF_SIZE_MAX && Major(buf, pos, 5)
    ensures Skip(buf, pos, 1) == match ExtractHead(buf, pos, 8, true, 1)
      case Fail => None
      case Unbounded => SkipContent(buf, pos + 1, LARGE_ELEM_COUNT, true)
      case Value(n, len) => if n >= HALF_SIZE_MAX then None else SkipContent(buf, pos + 1 + len, 2 * n, false)
  {
    hide SkipContent, ExtractHead;
    assert SkipTags(buf, pos, 1) == Some(pos);
    assert Skip(buf, pos, 1) == SkipBare(buf, pos, pos, 1);
    var x := ExtractHead(buf, pos, 8, true, 1);
    if x.Value? && SkipContent(buf, pos + 1 + x.len, 2 * x.n, false).Some? {
      ElementsNeedBytes(buf, pos + 1 + x.len, 2 * x.n);
    }
  }

  lemma MapOpens(buf: seq<byte>, v: Cursor, numBackups: nat)
    requires v.elemCount == 1 && |v.backups| < numBackups
    ensures var (inside, ok) := OpenedMap(buf, v, numBackups); var x := ExtractHead(buf, v.payload, 8, true, 1);
      && ok == (Major(buf, v.payload, 5) && (x.Unbounded? || (x.Value? && x.n < HALF_SIZE_MAX)))
      && (ok ==> inside.backups != [])
      && (ok && x.Unbounded? ==>
            inside.payload == v.payload + 1 && inside.elemCount == LARGE_ELEM_COUNT && inside.indefinite)
      && (ok && x.Value? ==>
            inside.payload == v.payload + 1 + x.len && inside.elemCount == 2 * x.n && !inside.indefinite)
  {
    hide ExtractHead;
  }

  /** Opening a map is the first half of skipping it. */
  lemma SkipOpens(buf: seq<byte>, v: Cursor, numBackups: nat)
    requires |buf| <= HALF_SIZE_MAX && v.elemCount == 1 && |v.backups| < numBackups
    ensures var (inside, ok) := OpenedMap(buf, v, numBackups);
      if ok
      then Major(buf, v.payload, 5) && Skip(buf, v.payload, 1) == EndOf(buf, inside)
           && inside.backups != [] && (!inside.indefinite ==> inside.elemCount % 2 == 0)
      else Major(buf, v.payload, 5) ==> Skip(buf, v.payload, 1) == None
  {
    hide SkipContent, ExtractHead, Skip, OpenedMap;
    MapOpens(buf, v, numBackups);
    if Major(buf, v.payload, 5) {
      MapSkip(buf, v.payload);
    }
  }

  /** One key and value of a map whose end is `goal`; `go` is false when a skip fails. */
  method SkipPair(d: Decoder, ghost goal: Option<nat>, ghost start: nat) returns (go: bool)
    requires d.Valid() && !AtEnd(d.buf, d.Now()) && EndOf(d.buf, d.Now()) == goal && d.bak == start
    requires d.backups != [] && Major(d.buf, start, 5) && (!d.indefinite ==> d.elemCount % 2 == 0)
    modifies d
    ensures d.Valid() && d.bak == start && d.backups == old(d.backups)
    ensures go ==> EndOf(d.buf, d.Now()) == goal && (!d.indefinite ==> d.elemCount % 2 == 0)
    ensures go ==> Left(d.buf, d.payload) < old(Left(d.buf, d.payload))
    ensures !go ==> ClosesAt(d.buf, d.Now(), goal)
  {
    hide Skip, EndOf, Closed;
    EndOfStep(d.buf, d.Now());
    FailedSkipDoesNotClose(d.buf, d.Now(), start);
    go := d.AnySkip();
    if !go {
      return;
    }
    if AtEnd(d.buf, d.Now()) {
      ClosesAtEnd(d.buf, d.Now());
    } else {
      EndOfStep(d.buf, d.Now());
      FailedSkipDoesNotClose(d.buf, d.Now(), start);
    }
    go := d.AnySkip();
  }

  /**
   Skips one map pair by pair. It is passed exactly when a skip of the whole map would pass, and it
   ends at the same byte.
   */
  method SkipMap(d: Decoder) returns (ok: bool)
    requires d.Valid() && d.elemCount == 1 && |d.backups| < d.numBackups
    modifies d
    ensures d.Valid()
    ensures ok <==> Major(d.buf, old(d.payload), 5) && Skip(d.buf, old(d.payload), 1).Some?
    ensures ok ==> d.payload == Skip(d.buf, old(d.payload), 1).value
  {
    hide Skip, EndOf, Closed, OpenedMap;
    ghost var start := d.payload;
    SkipOpens(d.buf, d.Now(), d.numBackups);
    ok := d.MapStart();
    if !ok {
      return;
    }
    ghost var goal := EndOf(d.buf, d.Now());
    var atEnd := d.ArrayAtEnd();
    var go := true;
    while !atEnd && go
      invariant d.Valid() && d.bak == start && d.backups != []
      invariant go ==> atEnd == AtEnd(d.buf, d.Now()) && (!d.indefinite ==> d.elemCount % 2 == 0)
      invariant go ==> EndOf(d.buf, d.Now()) == goal
      invariant !go ==> ClosesAt(d.buf, d.Now(), goal)
      decreases go, Left(d.buf, d.payload), !atEnd
    {
      go := SkipPair(d, goal, start);
      if go {
        atEnd := d.ArrayAtEnd();
      }
    }
    if go {
      ClosesAtEnd(d.buf, d.Now());
    }
    ok := d.ListMapEnd();
  }

  ghost predicate AreMaps(maps: seq<Item>) {
    forall j :: 0 <= j < |maps| ==> WellFormed(maps[j]) && maps[j].Map?
  }

  ghost function Wires(maps: seq<Item>): (parts: seq<seq<byte>>)
    requires AreMaps(maps)
    ensures |parts| == |maps|
  {
    seq(|maps|, j requires 0 <= j < |maps| => Wire(maps[j]))
  }

  /** A sequence of well-formed maps is cut into exactly those maps. */
  lemma {:induction false} SplitsMaps(buf: seq<byte>, ptr: nat, maps: seq<Item>, j: nat, beyond: nat -> byte)
    requires |buf| <= HALF_SIZE_MAX && AreMaps(maps) && j <= |maps| && Pending(buf, ptr, maps, j, |buf|)
    ensures Split(buf, ptr, beyond) == Wires(maps)[j..]
    decreases |maps| - j
  {
    hide At, Wire, WellFormed, Skip, Pending;
    PendingWellFormed(buf, ptr, maps, j, |buf|);
    if j < |maps| {
      NextItem(buf, ptr, maps, j, |buf|);
      HintedMajor(buf, ptr, maps[j]);
      SkipsWhole(buf, ptr, maps[j], 1);
      AtWithin(buf, ptr, Wire(maps[j]));
      SplitsMaps(buf, ptr + |Wire(maps[j])|, maps, j + 1, beyond);
      assert Wires(maps)[j..] == [Wires(maps)[j]] + Wires(maps)[j + 1..];
    }
  }

  /** Whatever the bytes, each part cut out is one whole well-formed map. */
  lemma {:induction false} PartsAreMaps(buf: seq<byte>, ptr: nat, beyond: nat -> byte) returns (maps: seq<Item>)
    requires |buf| <= HALF_SIZE_MAX
    ensures AreMaps(maps) && Split(buf, ptr, beyond) == Wires(maps)
    decreases Left(buf, ptr)
  {
    hide At, Wire, WellFormed, Skip, Extended;
    if Split(buf, ptr, beyond) == [] {
      maps := [];
    } else {
      var q := Skip(buf, ptr, 1).value;
      if q > |buf| {
        var it := CutMap(buf, ptr, q, beyond);
        maps := [it];
        assert Wires(maps) == [Wire(it)];
      } else {
        var it := WholeMap(buf, ptr, q);
        var others := PartsAreMaps(buf, q, beyond);
        maps := [it] + others;
        assert Wires(maps) == [Wire(it)] + Wires(others);
      }
    }
  }

  lemma WholeMap(buf: seq<byte>, ptr: nat, q: nat) returns (it: Item)
    requires Major(buf, ptr, 5) && Skip(buf, ptr, 1) == Some(q) && q <= |buf|
    ensures WellFormed(it) && it.Map? && At(buf, ptr, Wire(it)) && ptr + |Wire(it)| == q && Wire(it) == buf[ptr..q]
  {
    hide At, Wire, WellFormed, SkipTags, SkipBare;
    it := SkippedIsItem(buf, ptr, ptr, 1, q);
    HintedMajor(buf, ptr, it);
    AtWithin(buf, ptr, Wire(it));
  }

  lemma CutMap(buf: seq<byte>, ptr: nat, q: nat, beyond: nat -> byte) returns (it: Item)
    requires Major(buf, ptr, 5) && Skip(buf, ptr, 1) == Some(q) && q > |buf|
    ensures IsCutMap(buf, ptr, it) && ptr + |Wire(it)| == q && Wire(it) == Extended(buf, q, beyond)[ptr..]
  {
    hide At, Wire, WellFormed, SkipTags, SkipBare, Extended, Overhang;
    it := CutIsItem(buf, beyond, ptr, ptr, 1, q);
    var full := Extended(buf, q, beyond);
    HintedMajor(full, ptr, it);
    AtPrefix(buf, full, ptr, []);
    AtWithin(full, ptr, Wire(it));
    CompletedIsCut(buf, full, ptr, it);
  }

  /** The splitter reads beyond the payload exactly on maps of which the last is cut short within its overhang. */
  lemma ReadsBeyondIff(buf: seq<byte>)
    requires |buf| <= HALF_SIZE_MAX
    ensures ReadsBeyond(buf, 0) <==> EndsCut(buf, 0)
  {
    hide ReadsBeyond, IsCutMap, Pending;
    if ReadsBeyond(buf, 0) {
      var maps, p, it := BeyondIsCut(buf, 0);
    }
    if EndsCut(buf, 0) {
      var maps, p, it :| AreMaps(maps) && Pending(buf, 0, maps, 0, p) && IsCutMap(buf, p, it);
      CutIsBeyond(buf, 0, maps, 0, p, it);
    }
  }

  lemma {:induction false} BeyondIsCut(buf: seq<byte>, ptr: nat) returns (maps: seq<Item>, p: nat, it: Item)
    requires |buf| <= HALF_SIZE_MAX && ReadsBeyond(buf, ptr)
    ensures AreMaps(maps) && Pending(buf, ptr, maps, 0, p) && IsCutMap(buf, p, it)
    decreases Left(buf, ptr)
  {
    hide At, Wire, WellFormed, Skip, IsCutMap, Pending;
    var q := Skip(buf, ptr, 1).value;
    if q > |buf| {
      maps, p := [], ptr;
      it := CutMap(buf, ptr, q, _ => 0);
      Skipping.NothingPending(buf, ptr);
    } else {
      var first := WholeMap(buf, ptr, q);
      var others;
      others, p, it := BeyondIsCut(buf, q);
      maps := [first] + others;
      PendingCons(buf, ptr, first, others, p);
    }
  }

  lemma {:induction false} CutIsBeyond(buf: seq<byte>, ptr: nat, maps: seq<Item>, j: nat, p: nat, it: Item)
    requires |buf| <= HALF_SIZE_MAX && AreMaps(maps) && j <= |maps|
    requires Pending(buf, ptr, maps, j, p) && IsCutMap(buf, p, it)
    ensures ReadsBeyond(buf, ptr)
    decreases |maps| - j
  {
    hide At, Wire, WellFormed, Skip, Pending, Overhang;
    PendingWellFormed(buf, ptr, maps, j, p);
    if j < |maps| {
      NextItem(buf, ptr, maps, j, p);
      HintedMajor(buf, ptr, maps[j]);
      SkipsWhole(buf, ptr, maps[j], 1);
      AtWithin(buf, ptr, Wire(maps[j]));
      CutIsBeyond(buf, ptr + |Wire(maps[j])|, maps, j + 1, p, it);
    } else {
      SkipIffItem(buf, p, 1, p + |Wire(it)|);
      assert StandsAt(buf, p, it);
      var full := buf[..p] + Wire(it);
      CutIsCompleted(buf, p, it);
      OverhangIsShort(it, 0);
      AtPrefix(buf, full, p, Wire(it));
      HintedMajor(full, p, it);
    }
  }

  /** An integer key and a byte string that lacks one of its two bytes: the map is read one byte beyond the payload. */
  lemma ReadBeyondTheEnd(beyond: nat -> byte)
    ensures var data := [0xA1, 0x01, 0x42, 0x00];
      ReadsBeyond(data, 0) && Split(data, 0, beyond) == [data + [beyond(0)]]
  {
    var data: seq<byte> := [0xA1, 0x01, 0x42, 0x00];
    SkipPassesTheEnd();
    assert Extended(data, 5, beyond) == data + [beyond(0)];
    assert Extended(data, 5, beyond)[0..] == Extended(data, 5, beyond);
  }

  // ---------------------------------------------------------------- filters

  method SidInFilter(sid: nat, filter: seq<Sid>) returns (r: bool)
    ensures r <==> sid in filter
  {
    var i := 0;
    while i < |filter|
      invariant i <= |filter| && sid !in filter[..i]
    {
      if filter[i] == sid {
        return true;
      }
      i := i + 1;
    }
    assert filter[..i] == filter;
    r := false;
  }

  ghost predicate Named(key: Item, filter: seq<Sid>) {
    IsSidKey(key) && KeySid(key) in filter
  }

  /** A map whose keys are all SID keys. */
  ghost predicate IsSidMap(it: Item) {
    && WellFormed(it) && it.Map? && |it.items| % 2 == 0
    && forall i :: 0 <= i < |it.items| && i % 2 == 0 ==> IsSidKey(it.items[i])
  }

  ghost predicate AreSidMaps(maps: seq<Item>) {
    forall j :: 0 <= j < |maps| ==> IsSidMap(maps[j])
  }

  /** No key among the first `n` items of the map is named by the filter. */
  ghost predicate Unnamed(it: Item, n: nat, filter: seq<Sid>) {
    it.Map? && n <= |it.items| && forall i :: 0 <= i < n && i % 2 == 0 ==> !Named(it.items[i], filter)
  }

  /** Some key of the map is named by the filter. */
  ghost predicate Names(it: Item, filter: seq<Sid>) {
    it.Map? && exists i :: 0 <= i < |it.items| && i % 2 == 0 && Named(it.items[i], filter)
  }

  ghost predicate InSidMap(d: Decoder, hint: Option<Item>, i: nat, outer: Cursor)
    reads d
  {
    hint.Some? ==>
      && hint.value.Map? && IsSidMap(hint.value) && i <= |hint.value.items| && i % 2 == 0
      && Inside(d.buf, d.Now(), hint.value, i, outer) && outer.backups == [] && d.numBackups == 14
  }

  lemma SidPairAt(it: Item, i: nat)
    requires IsSidMap(it) && i < |it.items| && i % 2 == 0
    ensures i + 1 < |it.items| && IsSidKey(it.items[i])
  {
  }

  /** One key and its value: `found` when the filter names the key, `go` when the map goes on. */
  method ScanPair(d: Decoder, filter: seq<Sid>, ghost hint: Option<Item>, ghost i: nat, ghost outer: Cursor)
    returns (found: bool, go: bool)
    requires d.Valid() && InSidMap(d, hint, i, outer) && (hint.Some? ==> i < |hint.value.items|)
    modifies d
    ensures d.Valid() && old(d.payload) <= d.payload
    ensures go ==> Left(d.buf, d.payload) < old(Left(d.buf, d.payload))
    ensures hint.Some? ==> found == Named(hint.value.items[i], filter) && (!found ==> go)
    ensures hint.Some? && !found ==> i + 1 < |hint.value.items| && InSidMap(d, hint, i + 2, outer)
  {
    hide Inside, At, Wire, WellFormed, IsSidMap, Skip, SidKeyAt;
    if hint.Some? {
      SidPairAt(hint.value, i);
      InsideStep(d.buf, d.Now(), hint.value, i, outer);
      InsideBackups(d.buf, d.Now(), hint.value, i, outer);
      SidKeyReads(d.buf, d.Now(), hint.value.items[i], d.numBackups);
    }
    var sid := DecodeSidKey(d);
    if sid == None {
      return false, false;
    }
    found := SidInFilter(sid.value, filter);
    if found {
      return true, false;
    }
    if hint.Some? {
      InsideStep(d.buf, d.Now(), hint.value, i + 1, outer);
      SkipsWhole(d.buf, d.payload, hint.value.items[i + 1], d.elemCount);
    }
    go := d.AnySkip();
  }

  /** The pairs of one map, up to a match, the end, or the first that cannot be read. */
  method ScanMap(d: Decoder, filter: seq<Sid>, ghost hint: Option<Item>, ghost outer: Cursor) returns (found: bool)
    requires d.Valid() && InSidMap(d, hint, 0, outer)
    modifies d
    ensures d.Valid() && old(d.payload) <= d.payload
    ensures hint.Some? ==> found == Names(hint.value, filter)
    ensures hint.Some? && !found ==> Inside(d.buf, d.Now(), hint.value, |hint.value.items|, outer)
  {
    hide Inside, IsSidMap, Named;
    found := false;
    ghost var i: nat := 0;
    var go := true;
    var atEnd := d.ArrayAtEnd();
    while !atEnd && go
      invariant d.Valid() && old(d.payload) <= d.payload && !found
      invariant go ==> atEnd == AtEnd(d.buf, d.Now())
      invariant InSidMap(d, hint, i, outer) && (hint.Some? ==> go && Unnamed(hint.value, i, filter))
      decreases go, Left(d.buf, d.payload), !atEnd
    {
      if hint.Some? {
        InsideNotYetEnd(d.buf, d.Now(), hint.value, i, outer);
      }
      found, go := ScanPair(d, filter, hint, i, outer);
      if found {
        return;
      }
      i := i + 2;
      if go {
        atEnd := d.ArrayAtEnd();
      }
    }
    if hint.Some? {
      InsideAtEnd(d.buf, d.Now(), hint.value, i, outer);
    }
  }

  /** Given the maps an event consists of, it matches exactly if the filter names one of their keys. */
  method EventMatchesFilter(data: seq<byte>, filter: seq<Sid>, ghost hint: Option<seq<Item>>) returns (r: bool)
    requires |data| <= HALF_SIZE_MAX
    requires hint.Some? ==> AreSidMaps(hint.value) && Pending(data, 0, hint.value, 0, |data|)
    ensures hint.Some? ==>
      (r <==> exists j :: 0 <= j < |hint.value| && Names(hint.value[j], filter))
  {
    hide Wire, WellFormed, IsSidMap, Pending, At, Inside, Names, OpenedMap, Closed;
    if data == [] || filter == [] {
      if hint.Some? && data == [] {
        EmptyPayload(hint.value);
      } else if hint.Some? {
        EmptyFilter(hint.value);
      }
      return false;
    }
    var ptr: nat := 0;
    ghost var j: nat := 0;
    while ptr < |data|
      invariant hint.Some? ==> j <= |hint.value| && Pending(data, ptr, hint.value, j, |data|)
      invariant hint.Some? ==> forall k :: 0 <= k < j ==> !Names(hint.value[k], filter)
    {
      var d := new Decoder(data, ptr, FILTER_STATES, 1);
      ghost var outer := d.Now();
      ghost var one: Option<Item> := None;
      if hint.Some? {
        PendingWellFormed(data, ptr, hint.value, j, |data|);
        NextItem(data, ptr, hint.value, j, |data|);
        SidMapAt(hint.value, j);
        one := Some(hint.value[j]);
        OpenedInside(data, outer, one.value, d.numBackups);
      }
      var ok := d.MapStart();
      if !ok {
        break;
      }
      var found := ScanMap(d, filter, one, outer);
      if found {
        return true;
      }
      if hint.Some? {
        InsideEnd(data, d.Now(), one.value, outer);
      }
      var _ := d.ListMapEnd();
      ptr, j := d.payload, j + 1;
    }
    if hint.Some? && j < |hint.value| {
      NextItem(data, ptr, hint.value, j, |data|);
    }
    r := false;
  }

  lemma SidMapAt(maps: seq<Item>, j: nat)
    requires AreSidMaps(maps) && j < |maps|
    ensures IsSidMap(maps[j]) && maps[j].Map? && WellFormed(maps[j])
  {
  }

  lemma EmptyPayload(maps: seq<Item>)
    requires Pending([], 0, maps, 0, 0)
    ensures maps == []
  {
  }

  lemma EmptyFilter(maps: seq<Item>)
    requires AreSidMaps(maps)
    ensures forall j :: 0 <= j < |maps| ==> !Names(maps[j], [])
  {
  }
}
