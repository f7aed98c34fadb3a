/**
 The zcbor decoding state: payload position, element count, indefinite-length flag and the
 stack of backups, with the primitive decoders of zcbor_decode.c as methods that change it.
 */
module Decoders {
  import opened Wrappers
  import opened Heads
  import opened Integers
  import opened Skipping

  /** The part of the state a backup saves and an end of container restores. */
  datatype Saved = Saved(payload: nat, bak: nat, elemCount: nat, indefinite: bool)

  /** What a caller can observe of the state. */
  datatype Cursor = Cursor(payload: nat, elemCount: nat, indefinite: bool, backups: seq<Saved>)

  /** The state after one element that ends at `next`. */
  function Past(v: Cursor, next: nat): Cursor
    requires v.elemCount > 0
  {
    v.(payload := next, elemCount := v.elemCount - 1)
  }

  // ---------------------------------------------------------------- the primitive reads, as functions

  /** The first byte's major type, when there is a first byte. */
  predicate Major(buf: seq<byte>, pos: nat, major: nat) {
    pos < |buf| && buf[pos] / 32 == major
  }

  function ReadUint(buf: seq<byte>, pos: nat, elemCount: nat): (r: Option<(nat, nat)>)
    ensures r.Some? ==> elemCount > 0 && pos < r.value.1 <= |buf|
  {
    var x := ExtractHead(buf, pos, 8, false, elemCount);
    if Major(buf, pos, 0) && x.Value? then Some((x.n, pos + 1 + x.len)) else None
  }

  /** Both integer types, refused when the argument does not fit a signed 64-bit integer. */
  function ReadInt(buf: seq<byte>, pos: nat, elemCount: nat): (r: Option<(int, nat)>)
    ensures r.Some? ==> elemCount > 0 && pos < r.value.1 <= |buf|
  {
    var x := ExtractHead(buf, pos, 8, false, elemCount);
    if (Major(buf, pos, 0) || Major(buf, pos, 1)) && x.Value? && x.n <= HALF_SIZE_MAX
    then Some((if Major(buf, pos, 0) then x.n else -1 - x.n, pos + 1 + x.len)) else None
  }

  function ReadStr(buf: seq<byte>, pos: nat, elemCount: nat, major: nat): (r: Option<(seq<byte>, nat)>)
    ensures r.Some? ==> elemCount > 0 && pos < r.value.1 <= |buf|
  {
    var x := ExtractHead(buf, pos, 8, false, elemCount);
    if !(Major(buf, pos, major) && x.Value?) then None
    else
      var start := pos + 1 + x.len;
      if x.n > |buf| - start then None else Some((buf[start..start + x.n], start + x.n))
  }

  /** A simple value below 24 must be in the initial byte, 24 to 31 are refused. */
  function ReadSimple(buf: seq<byte>, pos: nat, elemCount: nat): (r: Option<(nat, nat)>)
    ensures r.Some? ==> elemCount > 0 && pos < r.value.1 <= |buf| && r.value.0 < 256
  {
    var x := ExtractHead(buf, pos, 1, false, elemCount);
    assert x.Value? && x.len == 1 ==> FromBigEndian(buf[pos + 1..pos + 2]) == buf[pos + 1];
    if !(Major(buf, pos, 7) && buf[pos] % 32 <= 24 && x.Value?) then None
    else if buf[pos] % 32 == 24 && x.n < 32 then None
    else Some((x.n, pos + 1 + x.len))
  }

  function ReadFloat64(buf: seq<byte>, pos: nat, elemCount: nat): (r: Option<(nat, nat)>)
    ensures r.Some? ==> elemCount > 0 && pos < r.value.1 <= |buf|
  {
    var x := ExtractHead(buf, pos, 8, false, elemCount);
    if Major(buf, pos, 7) && buf[pos] % 32 == 27 && x.Value? then Some((x.n, pos + 1 + x.len)) else None
  }

  function ReadTag(buf: seq<byte>, pos: nat, elemCount: nat): (r: Option<nat>)
    ensures r.Some? ==> elemCount > 0 && pos < r.value <= |buf|
  {
    var x := ExtractHead(buf, pos, 4, false, elemCount);
    if Major(buf, pos, 6) && x.Value? then Some(pos + 1 + x.len) else None
  }

  // ---------------------------------------------------------------- containers, as functions

  /** `list_map_start_decode`: the state inside the container, or unchanged on failure. */
  function Opened(buf: seq<byte>, v: Cursor, major: nat, numBackups: nat): (r: (Cursor, bool))
    ensures if r.1 then v.payload < |buf| && v.payload < r.0.payload else r.0 == v
  {
    var x := ExtractHead(buf, v.payload, 8, true, v.elemCount);
    if !Major(buf, v.payload, major) || x.Fail? || |v.backups| >= numBackups then (v, false)
    else
      var body := v.payload + 1 + if x.Value? then x.len else 0;
      var saved := Saved(body, v.payload, v.elemCount - 1, v.indefinite);
      (Cursor(body, if x.Value? then x.n else LARGE_ELEM_COUNT, x.Unbounded?, v.backups + [saved]), true)
  }

  function OpenedMap(buf: seq<byte>, v: Cursor, numBackups: nat): (r: (Cursor, bool))
    ensures if r.1 then v.payload < |buf| && v.payload < r.0.payload else r.0.payload == v.payload
  {
    var (inside, ok) := Opened(buf, v, 5, numBackups);
    if !ok || inside.indefinite then (inside, ok)
    else if inside.elemCount >= HALF_SIZE_MAX
    then (inside.(payload := v.payload, elemCount := inside.elemCount + 1), false)
    else (inside.(elemCount := inside.elemCount * 2), true)
  }

  /** `zcbor_array_at_end`. */
  predicate AtEnd(buf: seq<byte>, v: Cursor) {
    if v.indefinite then v.payload < |buf| && buf[v.payload] == BREAK else v.elemCount == 0
  }

  /** `list_map_end_decode`: the backup is restored even when the end is then found to be wrong. */
  function Closed(buf: seq<byte>, v: Cursor): (r: (Cursor, bool))
    ensures v.payload <= r.0.payload
  {
    if |v.backups| == 0 then (v, false)
    else
      var saved := v.backups[|v.backups| - 1];
      var outer := Cursor(v.payload, saved.elemCount, saved.indefinite, v.backups[..|v.backups| - 1]);
      if !v.indefinite then (outer, v.elemCount == 0)
      else if AtEnd(buf, v) then (outer.(payload := v.payload + 1), true)
      else (outer, false)
  }

  /** How the skip of an untagged item ended; only a string too long for the payload restores the caller's state. */
  datatype Skipped = Done | Failed | TooLong

  // ---------------------------------------------------------------- the state

  class Decoder {
    const buf: seq<byte>
    const numBackups: nat
    var payload: nat
    var bak: nat
    var elemCount: nat
    var indefinite: bool
    /** The backups in use; `current_backup` is their number. */
    var backups: seq<Saved>

    ghost predicate Valid()
      reads this
    {
      |buf| <= HALF_SIZE_MAX && |backups| <= numBackups
    }

    ghost function Now(): Cursor
      reads this
    {
      Cursor(payload, elemCount, indefinite, backups)
    }

    /** `zcbor_new_state` over the rest of `buf` from `start`: all but two of the states are backups. */
    constructor (buf: seq<byte>, start: nat, nStates: nat, elemCount: nat)
      requires |buf| <= HALF_SIZE_MAX && 2 <= nStates
      ensures Valid() && this.buf == buf && numBackups == nStates - 2
      ensures Now() == Cursor(start, elemCount, false, []) && bak == start
    {
      this.buf, numBackups := buf, nStates - 2;
      payload, bak, this.elemCount, indefinite, backups := start, start, elemCount, false, [];
    }

    /** `endian_copy`: the bytes in reverse order are the little-endian memory of the number. */
    method EndianCopy(start: nat, len: nat) returns (n: nat)
      requires start + len <= |buf|
      ensures n == FromBigEndian(buf[start..start + len])
    {
      var mem: seq<byte> := [];
      var i := 0;
      while i < len
        invariant i <= len && |mem| == i
        invariant forall k :: 0 <= k < i ==> mem[k] == buf[start + len - 1 - k]
      {
        mem := mem + [buf[start + len - 1 - i]];
        i := i + 1;
      }
      ReversedMemory(buf[start..start + len], mem);
      n := FromLittleEndian(mem);
    }

    /** On failure nothing changes; on success the element is counted and its start remembered. */
    method ValueExtract(resultLen: nat, indefiniteOk: bool) returns (x: Extract)
      requires Valid() && 1 <= resultLen <= 8
      modifies this
      ensures Valid() && x == ExtractHead(buf, old(payload), resultLen, indefiniteOk, old(elemCount))
      ensures x.Fail? ==> Now() == old(Now()) && bak == old(bak)
      ensures x.Value? ==> Now() == Past(old(Now()), old(payload) + 1 + x.len) && bak == old(payload)
      ensures x.Unbounded? ==> Now() == Past(old(Now()), old(payload) + 1) && bak == old(payload)
    {
      if payload >= |buf| || elemCount == 0 {
        return Fail;
      }
      var additional := buf[payload] % 32;
      var len := 0;
      if additional == 31 && indefiniteOk {
        x := Unbounded;
      } else {
        if additional > 27 {
          return Fail;
        }
        len := ArgumentLen(additional);
        if len > resultLen || payload + len + 1 > |buf| {
          return Fail;
        }
        var n := additional;
        if len > 0 {
          n := EndianCopy(payload + 1, len);
        }
        x := Value(n, len);
      }
      bak, payload, elemCount := payload, payload + len + 1, elemCount - 1;
    }

    /** `ERR_RESTORE`: back to the start of the element just extracted. */
    method Restore()
      requires Valid()
      modifies this
      ensures Valid() && Now() == old(Now()).(payload := old(bak), elemCount := old(elemCount) + 1) && bak == old(bak)
    {
      payload, elemCount := bak, elemCount + 1;
    }

    method UintDecode() returns (n: Option<nat>)
      requires Valid()
      modifies this
      ensures Valid() && var r := ReadUint(buf, old(payload), old(elemCount));
        && (r.None? ==> n == None && Now() == old(Now()) && bak == old(bak))
        && (r.Some? ==> n == Some(r.value.0) && Now() == Past(old(Now()), r.value.1) && bak == old(payload))
    {
      if payload >= |buf| || buf[payload] / 32 != 0 {
        return None;
      }
      var x := ValueExtract(8, false);
      n := if x.Value? then Some(x.n) else None;
    }

    method IntDecode() returns (n: Option<int>)
      requires Valid()
      modifies this
      ensures Valid() && var r := ReadInt(buf, old(payload), old(elemCount));
        && (r.None? ==> n == None && Now() == old(Now()))
        && (r.Some? ==> n == Some(r.value.0) && Now() == Past(old(Now()), r.value.1))
    {
      hide BigEndian, FromBigEndian, LittleEndian, FromLittleEndian, Flipped, Signed, Pow256;
      if payload >= |buf| || (buf[payload] / 32 != 0 && buf[payload] / 32 != 1) {
        return None;
      }
      var major := buf[payload] / 32;
      var x := ValueExtract(8, false);
      if !x.Value? {
        return None;
      }
      ghost var w := ExtractIsHead(buf, old(payload), 8, false, old(elemCount));
      Powers();
      ComplementBack(x.n, 8);
      var mem := LittleEndian(x.n, 8);
      var result := new byte[8](i requires 0 <= i < 8 => mem[i]);
      assert result[..] == mem;
      var ok := ValToInt(major, result);
      if !ok {
        Restore();
        return None;
      }
      n := Some(Signed(result[..]));
    }

    /** `val_to_int`: refuses memory with its top bit set, and flips that of a negative integer in place. */
    static method ValToInt(major: nat, result: array<byte>) returns (ok: bool)
      requires result.Length > 0
      modifies result
      ensures ok <==> old(result[result.Length - 1]) < 128
      ensures ok ==> result[..] == if major == 1 then Flipped(old(result[..])) else old(result[..])
    {
      if result[result.Length - 1] >= 128 {
        return false;
      }
      if major == 1 {
        ghost var mem := result[..];
        var i := 0;
        while i < result.Length
          invariant i <= result.Length
          invariant forall k :: 0 <= k < i ==> result[k] == 255 - mem[k]
          invariant forall k :: i <= k < result.Length ==> result[k] == mem[k]
        {
          result[i] := 255 - result[i];
          i := i + 1;
        }
        forall k | 0 <= k < result.Length
          ensures result[k] == Flipped(mem)[k]
        {
          FlippedAt(mem, k);
        }
      }
      ok := true;
    }

    method StrDecode(major: nat) returns (s: Option<seq<byte>>)
      requires Valid()
      modifies this
      ensures Valid() && var r := ReadStr(buf, old(payload), old(elemCount), major);
        && (r.None? ==> s == None && Now() == old(Now()))
        && (r.Some? ==> s == Some(r.value.0) && Now() == Past(old(Now()), r.value.1))
    {
      if payload >= |buf| || buf[payload] / 32 != major {
        return None;
      }
      var x := ValueExtract(8, false);
      if !x.Value? {
        return None;
      }
      if x.n > |buf| - payload {
        Restore();
        return None;
      }
      s := Some(buf[payload..payload + x.n]);
      payload := payload + x.n;
    }

    method SimpleDecode() returns (n: Option<nat>)
      requires Valid()
      modifies this
      ensures Valid() && var r := ReadSimple(buf, old(payload), old(elemCount));
        && (r.None? ==> n == None && Now() == old(Now()))
        && (r.Some? ==> n == Some(r.value.0) && Now() == Past(old(Now()), r.value.1) && bak == old(payload))
    {
      if payload >= |buf| || buf[payload] / 32 != 7 || buf[payload] % 32 > 24 {
        return None;
      }
      var additional := buf[payload] % 32;
      var x := ValueExtract(1, false);
      if !x.Value? {
        return None;
      }
      if additional == 24 && x.n < 32 {
        Restore();
        return None;
      }
      n := Some(x.n);
    }

    method SimpleExpect(expected: nat) returns (ok: bool)
      requires Valid()
      modifies this
      ensures Valid() && var r := ReadSimple(buf, old(payload), old(elemCount));
        && ok == (r.Some? && r.value.0 == expected)
        && Now() == if ok then Past(old(Now()), r.value.1) else old(Now())
    {
      var actual := SimpleDecode();
      if actual == None {
        return false;
      }
      if actual.value != expected {
        Restore();
        return false;
      }
      ok := true;
    }

    method BoolDecode() returns (b: Option<bool>)
      requires Valid()
      modifies this
      ensures Valid() && var r := ReadSimple(buf, old(payload), old(elemCount));
        if r.Some? && 20 <= r.value.0 <= 21
        then b == Some(r.value.0 == 21) && Now() == Past(old(Now()), r.value.1)
        else b == None && Now() == old(Now())
    {
      var n := SimpleDecode();
      if n == None {
        return None;
      }
      if (n.value + 256 - 20) % 256 > 1 {
        Restore();
        return None;
      }
      b := Some(n.value == 21);
    }

    method Float64Decode() returns (bits: Option<nat>)
      requires Valid()
      modifies this
      ensures Valid() && var r := ReadFloat64(buf, old(payload), old(elemCount));
        && (r.None? ==> bits == None && Now() == old(Now()))
        && (r.Some? ==> bits == Some(r.value.0) && Now() == Past(old(Now()), r.value.1))
    {
      if payload >= |buf| || buf[payload] / 32 != 7 || buf[payload] % 32 != 27 {
        return None;
      }
      var x := ValueExtract(8, false);
      bits := if x.Value? then Some(x.n) else None;
    }

    /** A tag is not an element: the count it took is given back. */
    method TagDecode() returns (ok: bool)
      requires Valid()
      modifies this
      ensures Valid() && var r := ReadTag(buf, old(payload), old(elemCount));
        && ok == r.Some? && Now() == if ok then old(Now()).(payload := r.value) else old(Now())
    {
      if payload >= |buf| || buf[payload] / 32 != 6 {
        return false;
      }
      var x := ValueExtract(4, false);
      ok := x.Value?;
      if ok {
        elemCount := elemCount + 1;
      }
    }

    // ---------------------------------------------------------------- containers and backups

    method NewBackup(newElemCount: nat) returns (ok: bool)
      requires Valid()
      modifies this
      ensures Valid() && bak == old(bak) && ok == (|old(backups)| < numBackups)
      ensures Now() == if ok
        then old(Now()).(elemCount := newElemCount,
                         backups := old(backups) + [Saved(old(payload), old(bak), old(elemCount), old(indefinite))])
        else old(Now())
    {
      if |backups| >= numBackups {
        return false;
      }
      backups := backups + [Saved(payload, bak, elemCount, indefinite)];
      elemCount := newElemCount;
      ok := true;
    }

    method ListMapStart(major: nat) returns (ok: bool)
      requires Valid()
      modifies this
      ensures Valid() && (Now(), ok) == Opened(buf, old(Now()), major, numBackups)
      ensures ok ==> bak == old(payload)
      ensures if ok
        then |backups| == |old(backups)| + 1 && backups[..|old(backups)|] == old(backups)
             && backups[|old(backups)|].elemCount == old(elemCount) - 1
             && backups[|old(backups)|].indefinite == old(indefinite)
        else Now() == old(Now())
    {
      if payload >= |buf| || buf[payload] / 32 != major {
        return false;
      }
      var x := ValueExtract(8, true);
      if x.Fail? {
        return false;
      }
      ok := NewBackup(if x.Unbounded? then LARGE_ELEM_COUNT else x.n);
      if !ok {
        Restore();
        return;
      }
      indefinite := x.Unbounded?;
    }

    method ListStart() returns (ok: bool)
      requires Valid()
      modifies this
      ensures Valid() && (Now(), ok) == Opened(buf, old(Now()), 4, numBackups)
      ensures ok ==> bak == old(payload)
    {
      ok := ListMapStart(4);
    }

    /** A definite map counts keys and values; a count too large to double is refused with the backup left in place. */
    method MapStart() returns (ok: bool)
      requires Valid()
      modifies this
      ensures Valid() && (Now(), ok) == OpenedMap(buf, old(Now()), numBackups)
      ensures ok ==> bak == old(payload)
    {
      ok := ListMapStart(5);
      if ok && !indefinite {
        if elemCount >= HALF_SIZE_MAX {
          Restore();
          return false;
        }
        elemCount := elemCount * 2;
      }
    }

    method ArrayAtEnd() returns (r: bool)
      requires Valid()
      ensures r == AtEnd(buf, Now())
    {
      r := (!indefinite && elemCount == 0) || (indefinite && payload < |buf| && buf[payload] == BREAK);
    }

    /** The newest backup is consumed and restored, except that the payload position is kept. */
    method ListMapEnd() returns (ok: bool)
      requires Valid()
      modifies this
      ensures Valid() && (Now(), ok) == Closed(buf, old(Now()))
      ensures bak == if |old(backups)| == 0 then old(bak) else old(backups)[|old(backups)| - 1].bak
      ensures |old(backups)| > 0 ==> var saved := old(backups)[|old(backups)| - 1];
        && backups == old(backups)[..|old(backups)| - 1]
        && elemCount == saved.elemCount && indefinite == saved.indefinite
        && ok == (if old(indefinite) then old(payload) < |buf| && buf[old(payload)] == 0xFF else old(elemCount) == 0)
        && payload == old(payload) + if ok && old(indefinite) then 1 else 0
      ensures |old(backups)| == 0 ==> !ok && Now() == old(Now())
    {
      var inner, left := indefinite, elemCount;
      if |backups| == 0 {
        return false;
      }
      var saved := backups[|backups| - 1];
      bak, elemCount, indefinite := saved.bak, saved.elemCount, saved.indefinite;
      backups := backups[..|backups| - 1];
      if inner {
        if payload >= |buf| || buf[payload] != BREAK {
          return false;
        }
        payload := payload + 1;
      } else if left > 0 {
        return false;
      }
      ok := true;
    }

    // ---------------------------------------------------------------- skipping

    /** The local copy of the state that a skip works on. */
    constructor Copy(d: Decoder)
      requires d.Valid()
      ensures Valid() && buf == d.buf && numBackups == d.numBackups && Now() == d.Now() && bak == d.bak
    {
      buf, numBackups := d.buf, d.numBackups;
      payload, bak, elemCount, indefinite, backups := d.payload, d.bak, d.elemCount, d.indefinite, d.backups;
    }

    /** The tag loop of a skip; an item must follow the last tag. */
    method TagsDecode() returns (ok: bool)
      requires Valid() && payload < |buf|
      modifies this
      ensures Valid() && ok == SkipTags(buf, old(payload), old(elemCount)).Some?
      ensures ok ==> Now() == old(Now()).(payload := SkipTags(buf, old(payload), old(elemCount)).value)
    {
      while buf[payload] / 32 == 6
        invariant Valid() && old(payload) <= payload < |buf| && Now() == old(Now()).(payload := payload)
        invariant SkipTags(buf, old(payload), elemCount) == SkipTags(buf, payload, elemCount)
        decreases |buf| - payload
      {
        ok := TagDecode();
        if !ok {
          return;
        }
        if payload >= |buf| {
          return false;
        }
      }
      ok := true;
    }

    /**
     Skips one item of any kind. It ends on every byte string; a string that is too long for the
     payload is found out only after the copy has moved on, and then the caller's state is restored
     to the start of the element extracted before.
     */
    method AnySkip() returns (ok: bool)
      requires Valid()
      modifies this
      ensures Valid() && bak == old(bak)
      ensures var r := Skip(buf, old(payload), old(elemCount));
        ok == r.Some? && (ok ==> Now() == Past(old(Now()), r.value))
      ensures !ok ==> Now() == old(Now()) || Now() == old(Now()).(payload := old(bak), elemCount := old(elemCount) + 1)
      ensures old(payload) < |buf| && buf[old(payload)] == BREAK ==> !ok && Now() == old(Now())
      decreases Left(buf, payload), 1
    {
      if payload >= |buf| {
        return false;
      }
      var copy := new Decoder.Copy(this);
      ok := copy.TagsDecode();
      if !ok {
        return;
      }
      var outcome := copy.SkipUntagged(payload);
      if outcome.Failed? {
        return false;
      }
      if outcome.TooLong? {
        Restore();
        return false;
      }
      payload, elemCount := copy.payload, elemCount - 1;
    }

    /** The item after the tags, which began at `start`. */
    method SkipUntagged(start: nat) returns (outcome: Skipped)
      requires Valid() && start <= payload < |buf| && buf[payload] / 32 != 6
      modifies this
      ensures Valid()
      ensures var r := SkipBare(buf, start, old(payload), old(elemCount));
        outcome.Done? == r.Some? && (r.Some? ==> payload == r.value)
      ensures outcome.TooLong? ==> buf[old(payload)] / 32 == 2 || buf[old(payload)] / 32 == 3
      decreases Left(buf, payload), 0
    {
      var major := buf[payload] / 32;
      var x := ValueExtract(8, major == 4 || major == 5);
      if x.Fail? {
        return Failed;
      }
      if major == 2 || major == 3 {
        if x.n > |buf| - start {
          return TooLong;
        }
        payload := payload + x.n;
        return Done;
      }
      if major != 4 && major != 5 {
        return Done;
      }
      if x.Unbounded? {
        elemCount, indefinite := LARGE_ELEM_COUNT, true;
      } else {
        if major == 5 && x.n > HALF_SIZE_MAX {
          return Failed;
        }
        elemCount, indefinite := if major == 5 then 2 * x.n else x.n, false;
      }
      var ok := SkipElements();
      outcome := if ok then Done else Failed;
    }

    /** The loop of a skip over a container's elements, and over the break of an indefinite one. */
    method SkipElements() returns (ok: bool)
      requires Valid()
      modifies this
      ensures Valid()
      ensures var r := SkipContent(buf, old(payload), old(elemCount), old(indefinite));
        ok == r.Some? && (ok ==> payload == r.value)
      decreases Left(buf, payload), 2
    {
      var atEnd := ArrayAtEnd();
      while !atEnd
        invariant Valid() && atEnd == AtEnd(buf, Now()) && indefinite == old(indefinite) && old(payload) <= payload
        invariant SkipContent(buf, payload, elemCount, indefinite)
          == SkipContent(buf, old(payload), old(elemCount), old(indefinite))
        decreases Left(buf, payload), !atEnd
      {
        ok := AnySkip();
        if !ok {
          return;
        }
        atEnd := ArrayAtEnd();
      }
      if indefinite {
        payload := payload + 1;
      }
      ok := true;
    }
  }

  lemma {:induction false} ReversedMemory(bs: seq<byte>, mem: seq<byte>)
    requires |bs| == |mem| && forall k :: 0 <= k < |mem| ==> mem[k] == bs[|bs| - 1 - k]
    ensures FromLittleEndian(mem) == FromBigEndian(bs)
  {
    if bs != [] {
      ReversedMemory(bs[..|bs| - 1], mem[1..]);
    }
  }
}
