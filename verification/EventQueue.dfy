/** The queue of coreconf_server.c and what its readers are sent. */
module EventQueue {
  import opened Wrappers
  import opened Basics
  import opened Heads
  import opened Items
  import opened Skipping
  import opened Overruns
  import opened Decoders
  import opened Parser
  import opened Notifications
  import opened Stream

  // ---------------------------------------------------------------- the queue as a sequence

  /** The queue after a push: the new event in front, the oldest gone if there is no room for it. */
  function Pushed(q: seq<seq<byte>>, e: seq<byte>): seq<seq<byte>> {
    ([e] + q)[..Min(|q| + 1, STREAM_MAX_EVENTS)]
  }

  function PushedAll(q: seq<seq<byte>>, es: seq<seq<byte>>): seq<seq<byte>>
    decreases |es|
  {
    if es == [] then q else PushedAll(Pushed(q, es[0]), es[1..])
  }

  function Reversed(es: seq<seq<byte>>): (r: seq<seq<byte>>)
    ensures |r| == |es| && forall i :: 0 <= i < |es| ==> r[i] == es[|es| - 1 - i]
  {
    seq(|es|, i requires 0 <= i < |es| => es[|es| - 1 - i])
  }

  /** After any run of pushes the queue holds the newest events, newest first, and as many as there is room for. */
  lemma {:induction false} RunKeepsNewest(q: seq<seq<byte>>, es: seq<seq<byte>>)
    requires |q| <= 16
    ensures PushedAll(q, es) == (Reversed(es) + q)[..Min(|es| + |q|, 16)]
    decreases |es|
  {
    if es != [] {
      var next := Pushed(q, es[0]);
      RunKeepsNewest(next, es[1..]);
      assert Reversed(es) == Reversed(es[1..]) + [es[0]];
      assert Reversed(es) + q == Reversed(es[1..]) + ([es[0]] + q);
    }
  }

  /** From the empty queue: the last min(n, 16) of n events. */
  lemma RunFromEmpty(es: seq<seq<byte>>)
    ensures |PushedAll([], es)| == if |es| < 16 then |es| else 16
    ensures forall i :: 0 <= i < |PushedAll([], es)| ==> PushedAll([], es)[i] == es[|es| - 1 - i]
  {
    RunKeepsNewest([], es);
    assert Reversed(es) + [] == Reversed(es);
  }

  // ---------------------------------------------------------------- what a sequence adds to the queue

  /** The note a payload is queued as. */
  ghost function NoteOf(payload: seq<byte>, fallback: Sid): Note {
    FirstSidIsSid(payload, fallback);
    Note(FirstSid(payload, fallback), payload)
  }

  /** The events that make it into the queue: those that fit the wrap buffer and get their memory. */
  ghost function Kept(parts: seq<seq<byte>>, i: nat, fallback: Sid, granted: nat -> bool): seq<seq<byte>>
    requires i <= |parts|
    decreases |parts| - i
  {
    if i == |parts| then []
    else
      var note := NoteOf(parts[i], fallback);
      (if Fits(note) && granted(i) then [Event(note)] else []) + Kept(parts, i + 1, fallback, granted)
  }

  /** The SID of a map: its first key if that is a SID key. */
  ghost function SidOf(it: Item, fallback: Sid): nat
    requires it.Map?
  {
    if it.items != [] && IsSidKey(it.items[0]) then KeySid(it.items[0]) else fallback
  }

  /** The event a map becomes. */
  ghost predicate IsEventOf(e: seq<byte>, it: Item, fallback: Sid) {
    WellFormed(it) && it.Map? && exists sid: Sid :: sid == SidOf(it, fallback) && e == Event(Note(sid, Wire(it)))
  }

  ghost predicate AllFit(parts: seq<seq<byte>>, fallback: Sid) {
    forall i :: 0 <= i < |parts| ==> |parts[i]| <= HALF_SIZE_MAX && Fits(NoteOf(parts[i], fallback))
  }

  /** A sequence of m maps that all fit adds m events, each wrapping exactly one map under its own SID. */
  lemma {:induction false} EveryMapIsAnEvent(maps: seq<Item>, i: nat, fallback: Sid, granted: nat -> bool)
    requires AreMaps(maps) && i <= |maps| && AllFit(Wires(maps), fallback) && forall k :: granted(k)
    ensures var es := Kept(Wires(maps), i, fallback, granted);
      |es| == |maps| - i && forall k :: 0 <= k < |es| ==> IsEventOf(es[k], maps[i + k], fallback)
    decreases |maps| - i
  {
    hide Wire, WellFormed, Event, FirstSid;
    if i < |maps| {
      EveryMapIsAnEvent(maps, i + 1, fallback, granted);
      var parts := Wires(maps);
      var note := NoteOf(parts[i], fallback);
      assert Fits(note);
      FirstSidOfMap(maps[i], fallback);
      assert note.sid == SidOf(maps[i], fallback);
      var es, rest := Kept(parts, i, fallback, granted), Kept(parts, i + 1, fallback, granted);
      assert es == [Event(note)] + rest;
      forall k | 0 <= k < |es|
        ensures IsEventOf(es[k], maps[i + k], fallback)
      {
        if k > 0 {
          assert es[k] == rest[k - 1] && IsEventOf(rest[k - 1], maps[i + 1 + (k - 1)], fallback);
        }
      }
    }
  }

  // ---------------------------------------------------------------- what a reader is sent

  function Concat(es: seq<seq<byte>>): (bs: seq<byte>)
    decreases |es|
  {
    if es == [] then [] else Concat(es[..|es| - 1]) + es[|es| - 1]
  }

  /**
   The longest run of the first events, at most `limit`, that fits the room: what is left out is over the
   limit or begins with an event that does not fit any more.
   */
  ghost predicate Longest(es: seq<seq<byte>>, limit: nat, room: nat, k: nat) {
    && k <= |es| && k <= limit && |Concat(es[..k])| <= room
    && (k == |es| || k == limit || |Concat(es[..k + 1])| > room)
  }

  /** The SIDs of the events in a queue whose payloads are single maps. */
  ghost predicate Sound(q: seq<seq<byte>>, notes: seq<Note>) {
    && |notes| == |q|
    && forall i :: 0 <= i < |q| ==> q[i] == Event(notes[i]) && IsWhole(notes[i].payload) && |q[i]| <= HALF_SIZE_MAX
  }

  ghost predicate IsWhole(payload: seq<byte>) {
    exists it :: WellFormed(it) && Wire(it) == payload
  }

  /** The events whose SID the filter names, in queue order. */
  ghost function Filtered(notes: seq<Note>, n: nat, filter: seq<Sid>): (es: seq<seq<byte>>)
    requires n <= |notes|
    ensures |es| <= n
  {
    if n == 0 then []
    else Filtered(notes, n - 1, filter) + if notes[n - 1].sid in filter then [Event(notes[n - 1])] else []
  }

  /** An increasing list of the positions below `n` at which `p` holds, all of them. */
  ghost predicate Lists(ix: seq<nat>, n: nat, p: nat -> bool) {
    && (forall k :: 0 <= k < |ix| ==> ix[k] < n && p(ix[k]))
    && (forall k, l :: 0 <= k < l < |ix| ==> ix[k] < ix[l])
    && (forall i: nat :: i < n && p(i) ==> i in ix)
  }

  /** The filtered events are those at the positions whose SID is in the filter, in queue order. */
  lemma {:induction false} FilteredPositions(notes: seq<Note>, n: nat, filter: seq<Sid>) returns (ix: seq<nat>)
    requires n <= |notes|
    ensures Lists(ix, n, i => 0 <= i < |notes| && notes[i].sid in filter)
    ensures |Filtered(notes, n, filter)| == |ix|
    ensures forall k :: 0 <= k < |ix| ==> Filtered(notes, n, filter)[k] == Event(notes[ix[k]])
  {
    hide Event;
    ix := [];
    if n > 0 {
      ix := FilteredPositions(notes, n - 1, filter);
      if notes[n - 1].sid in filter {
        ix := ix + [n - 1];
      }
    }
  }

  /** Part `j` fits and gets memory. */
  ghost predicate IsKept(parts: seq<seq<byte>>, j: nat, fallback: Sid, granted: nat -> bool) {
    j < |parts| && granted(j) && Fits(NoteOf(parts[j], fallback))
  }

  /** The events kept of a sequence are those of the parts that fit and get memory, in their order. */
  lemma {:induction false} KeptPositions(parts: seq<seq<byte>>, i: nat, fallback: Sid, granted: nat -> bool)
    returns (ix: seq<nat>)
    requires i <= |parts|
    ensures |Kept(parts, i, fallback, granted)| == |ix|
    ensures forall k :: 0 <= k < |ix| ==> i <= ix[k] < |parts| && IsKept(parts, ix[k], fallback, granted)
    ensures forall k :: 0 <= k < |ix| ==>
      Kept(parts, i, fallback, granted)[k] == Event(NoteOf(parts[ix[k]], fallback))
    ensures forall k, l :: 0 <= k < l < |ix| ==> ix[k] < ix[l]
    ensures forall j: nat :: i <= j && IsKept(parts, j, fallback, granted) ==> j in ix
    decreases |parts| - i
  {
    hide Event, Fits, NoteOf;
    if i == |parts| {
      ix := [];
    } else {
      var rest := KeptPositions(parts, i + 1, fallback, granted);
      var es := Kept(parts, i + 1, fallback, granted);
      if IsKept(parts, i, fallback, granted) {
        ix := [i] + rest;
        assert Kept(parts, i, fallback, granted) == [Event(NoteOf(parts[i], fallback))] + es;
      } else {
        ix := rest;
        assert Kept(parts, i, fallback, granted) == [] + es == es;
      }
      forall j: nat | i <= j && IsKept(parts, j, fallback, granted)
        ensures j in ix
      {
        assert j == i || j in rest;
      }
    }
  }

  class EventStream {
    const events: array<seq<byte>>
    var count: nat

    ghost predicate Valid()
      reads this, events
    {
      events.Length == STREAM_MAX_EVENTS && count <= STREAM_MAX_EVENTS && forall i :: 0 <= i < count ==> events[i] != []
    }

    ghost function Queue(): seq<seq<byte>>
      requires Valid()
      reads this, events
    {
      events[..count]
    }

    constructor ()
      ensures Valid() && Queue() == [] && fresh(events)
    {
      events := new seq<byte>[STREAM_MAX_EVENTS](_ => []);
      count := 0;
    }

    method ClearEvents()
      requires Valid()
      modifies this, events
      ensures Valid() && Queue() == []
    {
      var i := 0;
      while i < count
        invariant events.Length == STREAM_MAX_EVENTS && i <= count <= STREAM_MAX_EVENTS
      {
        events[i] := [];
        i := i + 1;
      }
      count := 0;
    }

    /** Moves every event up by one place. */
    method ShiftUp()
      requires count < STREAM_MAX_EVENTS == events.Length
      modifies events
      ensures forall k :: 1 <= k <= count ==> events[k] == old(events[k - 1])
    {
      var i := count;
      while i > 0
        invariant 0 <= i <= count
        invariant forall k :: 0 <= k < i ==> events[k] == old(events[k])
        invariant forall k :: i < k <= count ==> events[k] == old(events[k - 1])
      {
        events[i] := events[i - 1];
        i := i - 1;
      }
    }

    /** An empty event or one that gets no memory leaves the queue alone. */
    method PushEvent(data: seq<byte>, granted: bool)
      requires Valid()
      modifies this, events
      ensures Valid() && Queue() == if data != [] && granted then Pushed(old(Queue()), data) else old(Queue())
    {
      if data == [] || !granted {
        return;
      }
      ghost var before := Queue();
      if count == STREAM_MAX_EVENTS {
        count := count - 1;
      }
      ghost var kept := before[..count];
      assert forall k :: 0 <= k < count ==> events[k] == kept[k];
      ShiftUp();
      events[0] := data;
      count := count + 1;
      PushedIs(before, kept, data, events[..count]);
    }

    /** A payload longer than any object, which has no SID to look for, does not fit in any case. */
    method PushNotificationMap(data: seq<byte>, fallback: Sid, granted: bool)
      requires Valid()
      modifies this, events
      ensures Valid() && var note := NoteOf(data, fallback);
        && (Fits(note) <==> data != [] && 1 + HeaderLen(note.sid) + |data| <= 4096)
        && Queue() == if Fits(note) && granted then Pushed(old(Queue()), Event(note)) else old(Queue())
    {
      hide FirstSid, Event;
      FitsIff(NoteOf(data, fallback));
      if data == [] {
        return;
      }
      FirstSidIsSid(data, fallback);
      var sid := fallback;
      if |data| <= HALF_SIZE_MAX {
        sid := ExtractFirstSidFromMap(data, fallback);
      }
      var wrapped := new byte[BUFFER_SIZE](_ => 0);
      var len := WrapNotificationInstance(wrapped, sid, data);
      if len > 0 {
        PushEvent(wrapped[..len], granted);
      }
    }

    /**
     Queues every map of a sequence up to the first thing that is not skipped as a map. `overrun` tells
     whether the last of them was read on into the memory `beyond` the payload.
     */
    method PushNotificationSequence(data: seq<byte>, beyond: nat -> byte, fallback: Sid, granted: nat -> bool)
      returns (overrun: bool)
      requires Valid() && |data| <= HALF_SIZE_MAX
      modifies this, events
      ensures Valid() && Queue() == PushedAll(old(Queue()), Kept(Split(data, 0, beyond), 0, fallback, granted))
      ensures overrun <==> EndsCut(data, 0)
    {
      hide Skip, Fits, Event, NoteOf, Pushed, Extended, EndsCut;
      ReadsBeyondIff(data);
      overrun := false;
      var ptr: nat := 0;
      var n: nat := 0;
      ghost var parts := Split(data, 0, beyond);
      assert parts[0..] == parts;
      while ptr < |data|
        invariant Valid() && n <= |parts| && Split(data, ptr, beyond) == parts[n..]
        invariant ReadsBeyond(data, 0) == (overrun || ReadsBeyond(data, ptr)) && (overrun ==> ptr > |data|)
        invariant PushedAll(Queue(), Kept(parts, n, fallback, granted))
          == PushedAll(old(Queue()), Kept(parts, 0, fallback, granted))
      {
        var d := new Decoder(data, ptr, SPLIT_STATES, 1);
        var ok := SkipMap(d);
        if !ok {
          return;
        }
        overrun := d.payload > |data|;
        var part := ReadPart(data, beyond, ptr, d.payload);
        assert parts[n..][0] == part && parts[n..][1..] == parts[n + 1..];
        PushKept(Queue(), parts, n, fallback, granted);
        PushNotificationMap(part, fallback, granted(n));
        ptr, n := d.payload, n + 1;
      }
    }

    /** The bytes from `ptr` to `end`, wherever the payload ends. */
    static method ReadPart(data: seq<byte>, beyond: nat -> byte, ptr: nat, end: nat) returns (part: seq<byte>)
      requires ptr < |data| && ptr < end
      ensures part == if end > |data| then Extended(data, end, beyond)[ptr..] else data[ptr..end]
    {
      if end > |data| {
        var rest: seq<byte> := seq(end - |data|, i requires 0 <= i => beyond(i));
        part := (data + rest)[ptr..];
      } else {
        part := data[ptr..end];
      }
    }

    /** Sends the newest events; a limit of 0 is no limit. */
    method EncodeSequence(out: array<byte>, maxItems: nat) returns (used: nat, ghost taken: nat)
      requires Valid()
      modifies out
      ensures Valid() && Queue() == old(Queue())
      ensures Longest(Queue(), if maxItems == 0 then |Queue()| else maxItems, out.Length, taken)
      ensures used <= out.Length && out[..used] == Concat(Queue()[..taken])
    {
      hide Concat;
      var limit := if maxItems == 0 || maxItems > count then count else maxItems;
      used, taken := 0, 0;
      assert Queue()[..0] == [];
      ConcatSnoc(Queue(), 0);
      var i := 0;
      while i < limit
        invariant i <= limit <= count && taken == i && used <= out.Length
        invariant Valid() && Queue() == old(Queue()) && out[..used] == Concat(Queue()[..i])
      {
        ConcatSnoc(Queue(), i);
        if used + |events[i]| > out.Length {
          break;
        }
        CopyInto(out, used, events[i]);
        used, i, taken := used + |events[i]|, i + 1, i + 1;
      }
    }

    /** Sends the newest events whose SID the filter names. An empty filter lets every event through. */
    method EncodeSequenceFiltered(out: array<byte>, maxItems: nat, filter: seq<Sid>, ghost hint: Option<seq<Note>>)
      returns (used: nat, ghost taken: nat)
      requires Valid() && (forall i :: 0 <= i < count ==> |events[i]| <= HALF_SIZE_MAX)
      requires hint.Some? ==> Sound(Queue(), hint.value)
      modifies out
      ensures Valid() && Queue() == old(Queue()) && used <= out.Length
      ensures hint.Some? ==>
        var es := if filter == [] then Queue() else Filtered(hint.value, |hint.value|, filter);
        && Longest(es, if maxItems == 0 then |Queue()| else maxItems, out.Length, taken)
        && out[..used] == Concat(es[..taken])
    {
      hide Concat, Event, Sound, Filtered, Longest;
      if |filter| == 0 {
        used, taken := EncodeSequence(out, maxItems);
        return;
      }
      var limit := if maxItems == 0 || maxItems > count then count else maxItems;
      used, taken := 0, 0;
      ghost var q := Queue();
      if hint.Some? {
        FilteredNone(q, hint.value, filter);
      }
      var i, written := 0, 0;
      while i < count && written < limit
        invariant i <= count && written <= limit <= count && written <= i && used <= out.Length
        invariant Valid() && Queue() == q
        invariant hint.Some? ==> |hint.value| == count && Sound(q, hint.value)
        invariant hint.Some? ==> written == |Filtered(hint.value, i, filter)|
        invariant hint.Some? ==> out[..used] == Concat(Filtered(hint.value, i, filter))
      {
        if hint.Some? {
          SoundAt(q, hint.value, i);
          FilteredStep(hint.value, i, filter);
        }
        var matches := Matches(i, filter, hint);
        if matches {
          if used + |events[i]| > out.Length {
            break;
          }
          CopyInto(out, used, events[i]);
          used, written := used + |events[i]|, written + 1;
        }
        i := i + 1;
      }
      taken := written;
      if hint.Some? {
        LongestFiltered(hint.value, i, filter, limit, out.Length);
        LongestLimit(Filtered(hint.value, |hint.value|, filter), maxItems, count, out.Length, taken);
      }
    }

    method Matches(i: nat, filter: seq<Sid>, ghost hint: Option<seq<Note>>) returns (r: bool)
      requires Valid() && i < count && |events[i]| <= HALF_SIZE_MAX
      requires hint.Some? ==> Sound(Queue(), hint.value)
      ensures hint.Some? ==> (r <==> hint.value[i].sid in filter)
    {
      hide Event, Names, AreSidMaps, Pending;
      ghost var maps: Option<seq<Item>> := None;
      if hint.Some? {
        var note := hint.value[i];
        assert Queue()[i] == events[i] == Event(note);
        var it :| WellFormed(it) && Wire(it) == note.payload;
        EventNamedBySid(note.sid, it, filter);
        maps := Some([Instance(note.sid, it)]);
      }
      r := EventMatchesFilter(events[i], filter, maps);
      if hint.Some? {
        assert maps.value[0] == Instance(hint.value[i].sid, maps.value[0].items[1]);
      }
    }
  }

  lemma ConcatSnoc(es: seq<seq<byte>>, i: nat)
    requires i <= |es|
    ensures i < |es| ==> Concat(es[..i + 1]) == Concat(es[..i]) + es[i]
    ensures Concat([]) == []
  {
    if i < |es| {
      assert es[..i + 1][..i] == es[..i];
    }
  }

  lemma SoundAt(q: seq<seq<byte>>, notes: seq<Note>, i: nat)
    requires Sound(q, notes) && i < |q|
    ensures |notes| == |q| && q[i] == Event(notes[i]) && IsWhole(notes[i].payload)
  {
  }

  lemma FilteredNone(q: seq<seq<byte>>, notes: seq<Note>, filter: seq<Sid>)
    requires Sound(q, notes)
    ensures |notes| == |q|
    ensures Filtered(notes, 0, filter) == [] && Concat([]) == []
  {
  }

  lemma FilteredStep(notes: seq<Note>, i: nat, filter: seq<Sid>)
    requires i < |notes|
    ensures notes[i].sid !in filter ==> Filtered(notes, i + 1, filter) == Filtered(notes, i, filter)
    ensures notes[i].sid in filter ==>
      && |Filtered(notes, i + 1, filter)| == |Filtered(notes, i, filter)| + 1
      && Concat(Filtered(notes, i + 1, filter)) == Concat(Filtered(notes, i, filter)) + Event(notes[i])
  {
    hide Event;
    var es := Filtered(notes, i + 1, filter);
    if notes[i].sid in filter {
      ConcatSnoc(es, |es| - 1);
      assert es[..|es|] == es && es[..|es| - 1] == Filtered(notes, i, filter);
    }
  }

  /** Stopping before note `i`, at the end, at the limit, or at a named event that does not fit, is stopping last. */
  lemma LongestFiltered(notes: seq<Note>, i: nat, filter: seq<Sid>, limit: nat, room: nat)
    requires i <= |notes|
    requires var es := Filtered(notes, i, filter);
      && |es| <= limit && |Concat(es)| <= room
      && (i == |notes| || |es| == limit || (notes[i].sid in filter && |Concat(es)| + |Event(notes[i])| > room))
    ensures Longest(Filtered(notes, |notes|, filter), limit, room, |Filtered(notes, i, filter)|)
    ensures var es, all := Filtered(notes, i, filter), Filtered(notes, |notes|, filter);
      |es| <= |all| && all[..|es|] == es
  {
    hide Event, Concat, Filtered;
    FilteredPrefix(notes, i, |notes|, filter);
    if i < |notes| {
      FilteredStep(notes, i, filter);
      FilteredPrefix(notes, i + 1, |notes|, filter);
    }
  }

  lemma LongestLimit(es: seq<seq<byte>>, maxItems: nat, count: nat, room: nat, k: nat)
    requires |es| <= count && Longest(es, if maxItems == 0 || maxItems > count then count else maxItems, room, k)
    ensures Longest(es, if maxItems == 0 then count else maxItems, room, k)
  {
  }

  lemma {:induction false} FilteredPrefix(notes: seq<Note>, i: nat, n: nat, filter: seq<Sid>)
    requires i <= n <= |notes|
    ensures |Filtered(notes, i, filter)| <= |Filtered(notes, n, filter)|
    ensures Filtered(notes, n, filter)[..|Filtered(notes, i, filter)|] == Filtered(notes, i, filter)
    decreases n
  {
    hide Event;
    if i < n {
      FilteredPrefix(notes, i, n - 1, filter);
    }
  }

  /** The filter names an event exactly by the SID it was queued under. */
  lemma EventNamedBySid(sid: Sid, it: Item, filter: seq<Sid>)
    requires WellFormed(it)
    ensures var maps := [Instance(sid, it)]; var e := Event(Note(sid, Wire(it)));
      && AreSidMaps(maps) && Pending(e, 0, maps, 0, |e|)
      && (Names(maps[0], filter) <==> sid in filter)
  {
    hide WellFormed, Wire, Event, At, Pending;
    EventIsInstance(sid, it);
    var instance, e := Instance(sid, it), Event(Note(sid, Wire(it)));
    WholeAt(e);
    EndsHere(e);
    PendingCons(e, 0, instance, [], |e|);
    assert [instance] + [] == [instance];
    assert Named(instance.items[0], filter) <==> sid in filter;
  }

  lemma PushedIs(before: seq<seq<byte>>, kept: seq<seq<byte>>, data: seq<byte>, after: seq<seq<byte>>)
    requires |before| <= STREAM_MAX_EVENTS && kept == before[..Min(|before|, STREAM_MAX_EVENTS - 1)]
    requires |after| == |kept| + 1 && after[0] == data && forall k :: 0 < k < |after| ==> after[k] == kept[k - 1]
    ensures after == Pushed(before, data)
  {
    assert after == [data] + kept;
  }

  lemma PushKept(q: seq<seq<byte>>, parts: seq<seq<byte>>, n: nat, fallback: Sid, granted: nat -> bool)
    requires n < |parts|
    ensures var note := NoteOf(parts[n], fallback);
      var next := if Fits(note) && granted(n) then Pushed(q, Event(note)) else q;
      PushedAll(q, Kept(parts, n, fallback, granted)) == PushedAll(next, Kept(parts, n + 1, fallback, granted))
  {
    hide Fits, Event, NoteOf, Pushed;
    var rest := Kept(parts, n + 1, fallback, granted);
    assert [] + rest == rest;
    var note := NoteOf(parts[n], fallback);
    assert ([Event(note)] + rest)[1..] == rest;
  }

  // ---------------------------------------------------------------- every queue fed by sequences can be filtered

  ghost predicate IsSoundEvent(e: seq<byte>) {
    exists note :: e == Event(note) && IsWhole(note.payload) && |e| <= BUFFER_SIZE
  }

  ghost predicate AreSoundEvents(es: seq<seq<byte>>) {
    forall i :: 0 <= i < |es| ==> IsSoundEvent(es[i])
  }

  lemma {:induction false} SoundHasNotes(q: seq<seq<byte>>) returns (notes: seq<Note>)
    requires AreSoundEvents(q)
    ensures Sound(q, notes)
  {
    hide Event, IsWhole;
    if q == [] {
      notes := [];
    } else {
      var front := SoundHasNotes(q[..|q| - 1]);
      var last := q[|q| - 1];
      assert IsSoundEvent(last);
      var note :| last == Event(note) && IsWhole(note.payload) && |last| <= BUFFER_SIZE;
      notes := front + [note];
    }
  }

  lemma {:induction false} KeptAreSound(parts: seq<seq<byte>>, i: nat, fallback: Sid, granted: nat -> bool)
    requires i <= |parts| && forall k :: 0 <= k < |parts| ==> IsWhole(parts[k])
    ensures AreSoundEvents(Kept(parts, i, fallback, granted))
    decreases |parts| - i
  {
    hide Event, IsWhole, FirstSid;
    if i < |parts| {
      KeptAreSound(parts, i + 1, fallback, granted);
      var note := NoteOf(parts[i], fallback);
      if Fits(note) {
        assert IsSoundEvent(Event(note));
      }
    }
  }

  /** Whatever bytes arrive, a queue of whole maps stays one, so that every later read can be filtered by SID. */
  lemma SequenceKeepsSound(q: seq<seq<byte>>, data: seq<byte>, beyond: nat -> byte, fallback: Sid, granted: nat -> bool)
    requires AreSoundEvents(q) && |q| <= STREAM_MAX_EVENTS && |data| <= HALF_SIZE_MAX
    ensures AreSoundEvents(PushedAll(q, Kept(Split(data, 0, beyond), 0, fallback, granted)))
  {
    hide Split, Wire, WellFormed, IsSoundEvent, Kept, PushedAll;
    var maps := PartsAreMaps(data, 0, beyond);
    var parts := Split(data, 0, beyond);
    forall k | 0 <= k < |parts|
      ensures IsWhole(parts[k])
    {
      assert parts[k] == Wire(maps[k]);
    }
    KeptAreSound(parts, 0, fallback, granted);
    var es := Kept(parts, 0, fallback, granted);
    RunKeepsNewest(q, es);
    assert forall i :: 0 <= i < |Reversed(es)| ==> IsSoundEvent(Reversed(es)[i]);
  }

  // ---------------------------------------------------------------- the filter of a request

  ghost predicate AreSidKeys(keys: seq<Item>) {
    forall i :: 0 <= i < |keys| ==> WellFormed(keys[i]) && IsSidKey(keys[i])
  }

  ghost function SidsOf(keys: seq<Item>): (sids: seq<nat>)
    requires AreSidKeys(keys)
    ensures |sids| == |keys|
  {
    seq(|keys|, i requires 0 <= i < |keys| => KeySid(keys[i]))
  }

  /** The SIDs of the keys at the start of a byte string, as many as there is room for. */
  function Collected(data: seq<byte>, ptr: nat, cap: nat): (sids: seq<nat>)
    ensures |sids| <= cap
    decreases cap
  {
    if cap == 0 then []
    else
      match SidKeyAt(data, Cursor(ptr, 1, false, []), 6)
      case None => []
      case Some((sid, v)) => [sid] + Collected(data, v.payload, cap - 1)
  }

  /** For all bytes; `None` when not even one key is found. */
  method CollectFilterSids(data: seq<byte>, cap: nat) returns (sids: Option<seq<nat>>)
    requires |data| <= HALF_SIZE_MAX
    ensures sids == if Collected(data, 0, cap) == [] then None else Some(Collected(data, 0, cap))
  {
    hide SidKeyAt, Collected, Left;
    var found: seq<nat> := [];
    var ptr: nat := 0;
    CollectStep(data, 0, cap, []);
    while ptr < |data| && |found| < cap
      invariant |found| <= cap && found + Collected(data, ptr, cap - |found|) == Collected(data, 0, cap)
      decreases cap - |found|
    {
      CollectStep(data, ptr, cap - |found|, found);
      var d := new Decoder(data, ptr, SPLIT_STATES, 1);
      assert d.numBackups == 6 && d.Now() == Cursor(ptr, 1, false, []);
      var sid := DecodeSidKey(d);
      if sid == None {
        break;
      }
      found, ptr := found + [sid.value], d.payload;
    }
    CollectStep(data, ptr, cap - |found|, found);
    sids := if |found| > 0 then Some(found) else None;
  }

  lemma CollectStep(data: seq<byte>, ptr: nat, cap: nat, found: seq<nat>)
    ensures var key := SidKeyAt(data, Cursor(ptr, 1, false, []), 6);
      && (ptr >= |data| ==> key == None)
      && (if cap == 0 || key == None then found + Collected(data, ptr, cap) == found
          else found + Collected(data, ptr, cap)
               == found + [key.value.0] + Collected(data, key.value.1.payload, cap - 1))
    ensures [] + Collected(data, ptr, cap) == Collected(data, ptr, cap)
  {
    hide Skip, Opened, Closed, ReadUint;
  }

  /** Well-formed keys followed by something that is not a key, or by nothing, give exactly their SIDs. */
  lemma {:induction false} CollectsKeys(data: seq<byte>, ptr: nat, keys: seq<Item>, j: nat, end: nat, cap: nat)
    requires |data| <= HALF_SIZE_MAX && AreSidKeys(keys) && j <= |keys| && Pending(data, ptr, keys, j, end)
    requires SidKeyAt(data, Cursor(end, 1, false, []), 6) == None
    ensures Collected(data, ptr, cap) == SidsOf(keys)[j..j + Min(|keys| - j, cap)]
    decreases |keys| - j
  {
    hide At, Wire, WellFormed, Pending, SidKeyAt, KeySid, IsSidKey;
    PendingWellFormed(data, ptr, keys, j, end);
    if j < |keys| && cap > 0 {
      NextItem(data, ptr, keys, j, end);
      SidKeyReads(data, Cursor(ptr, 1, false, []), keys[j], 6);
      CollectsKeys(data, ptr + |Wire(keys[j])|, keys, j + 1, end, cap - 1);
    }
  }
}
