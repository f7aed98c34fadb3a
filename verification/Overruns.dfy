/**
 Skips that pass the end of the payload. The length of a string is compared with the payload counted from
 the start of its item, tags and head included, so a string may lack as many bytes as those take up.
 */
module Overruns {
  import opened Wrappers
  import opened Basics
  import opened Heads
  import opened Items
  import opened Skipping

  /**
   How many bytes may be missing at the end of an item that is skipped all the same, when `before` bytes of
   tags precede it: bytes of a final string, no more than its tags and head take up.
   */
  function Overhang(it: Item, before: nat): nat
    decreases it
  {
    match it
    case Bstr(w, s) => Min(before + 1 + w.Len(), |s|)
    case Tstr(w, s) => Min(before + 1 + w.Len(), |s|)
    case Tag(w, _, item) => Overhang(item, before + 1 + w.Len())
    case List(f, items) => if f.Definite? && items != [] then Overhang(items[|items| - 1], 0) else 0
    case Map(f, items) => if f.Definite? && items != [] then Overhang(items[|items| - 1], 0) else 0
    case _ => 0
  }

  /** The payload from `pos` on is the item's bytes, whole or with the last of them missing. */
  ghost predicate CutAt(buf: seq<byte>, pos: nat, bs: seq<byte>) {
    pos <= |buf| < pos + |bs| && buf[pos..] == bs[..|buf| - pos]
  }

  /** `full` is the payload `buf` and what comes after it, up to the end of the item at `pos`. */
  ghost predicate Completes(buf: seq<byte>, full: seq<byte>, pos: nat, it: Item) {
    && |buf| < |full| && full[..|buf|] == buf
    && WellFormed(it) && At(full, pos, Wire(it)) && pos + |Wire(it)| == |full|
  }

  lemma AtPrefix(buf: seq<byte>, full: seq<byte>, pos: nat, bs: seq<byte>)
    requires |buf| <= |full| && full[..|buf|] == buf
    ensures At(full, pos, bs) && pos + |bs| <= |buf| ==> At(buf, pos, bs)
    ensures At(buf, pos, bs) ==> At(full, pos, bs)
    ensures At(full, pos, bs) && bs != [] ==> full[pos] == bs[0]
    ensures forall i :: 0 <= i < |buf| ==> full[i] == buf[i]
  {
    assert forall i :: 0 <= i < |buf| ==> full[i] == full[..|buf|][i];
    if At(full, pos, bs) && pos + |bs| <= |buf| {
      assert buf[pos..pos + |bs|] == full[pos..pos + |bs|];
    }
    if At(buf, pos, bs) {
      assert buf[pos..pos + |bs|] == full[pos..pos + |bs|];
    }
    if At(full, pos, bs) && bs != [] {
      assert full[pos] == full[pos..pos + |bs|][0];
    }
  }

  /** The part of an item that must be there holds all of its heads. */
  lemma {:induction false} OverhangIsShort(it: Item, before: nat)
    requires WellFormed(it)
    ensures Overhang(it, before) < |Wire(it)|
    decreases it
  {
    match it
    case Tag(w, _, item) => OverhangIsShort(item, before + 1 + w.Len());
    case List(f, items) =>
      if f.Definite? && items != [] {
        OverhangIsShort(items[|items| - 1], 0);
        LastIsInside(items, 0);
      }
    case Map(f, items) =>
      if f.Definite? && items != [] {
        OverhangIsShort(items[|items| - 1], 0);
        LastIsInside(items, 0);
      }
    case _ =>
  }

  lemma {:induction false} LastIsInside(items: seq<Item>, i: nat)
    requires AllWellFormed(items) && i < |items|
    ensures |Wire(items[|items| - 1])| + (|items| - 1 - i) <= |WireFrom(items, i)|
    decreases |items| - i
  {
    hide Wire, WellFormed;
    if i + 1 < |items| {
      LastIsInside(items, i + 1);
    }
  }

  // ---------------------------------------------------------------- what is cut short within the overhang is skipped

  lemma SkipsCutString(buf: seq<byte>, full: seq<byte>, start: nat, pos: nat, major: nat, it: Item, elemCount: nat)
    requires Completes(buf, full, pos, it) && start <= pos && elemCount > 0
    requires (it.Bstr? && major == 2) || (it.Tstr? && major == 3)
    requires |full| - |buf| <= Overhang(it, pos - start)
    ensures SkipsTo(buf, start, pos, elemCount, |full|)
  {
    hide BigEndian, At;
    var head := Head(major, it.w, |it.bytes|);
    assert Wire(it) == head + it.bytes;
    AtConcat(full, pos, head, it.bytes);
    AtPrefix(buf, full, pos, head);
    HeadExtracts(buf, pos, major, it.w, |it.bytes|, 8, false, elemCount);
  }

  lemma {:induction false} SkipsCut(buf: seq<byte>, full: seq<byte>, start: nat, pos: nat, it: Item, elemCount: nat)
    requires |buf| <= HALF_SIZE_MAX && Completes(buf, full, pos, it) && start <= pos && elemCount > 0
    requires |full| - |buf| <= Overhang(it, pos - start)
    ensures SkipsTo(buf, start, pos, elemCount, |full|)
    decreases it, 1
  {
    hide SkipBare, SkipTags, SkipContent, SkipsTo, BigEndian, At;
    match it
    case Bstr(_, _) => SkipsCutString(buf, full, start, pos, 2, it, elemCount);
    case Tstr(_, _) => SkipsCutString(buf, full, start, pos, 3, it, elemCount);
    case Tag(w, n, item) =>
      var head := Head(6, w, n);
      AtConcat(full, pos, head, Wire(item));
      OverhangIsShort(item, pos - start + 1 + w.Len());
      AtPrefix(buf, full, pos, head);
      SkipsCut(buf, full, start, pos + 1 + w.Len(), item, elemCount);
      SkipsTag(buf, start, pos, w, n, elemCount, |full|);
    case List(_, _) => SkipsCutContainer(buf, full, start, pos, it, elemCount);
    case Map(_, _) => SkipsCutContainer(buf, full, start, pos, it, elemCount);
    case _ =>
  }

  lemma {:induction false} SkipsCutContainer(buf: seq<byte>, full: seq<byte>, start: nat, pos: nat, it: Item,
                                             elemCount: nat)
    requires |buf| <= HALF_SIZE_MAX && Completes(buf, full, pos, it) && start <= pos && elemCount > 0
    requires (it.List? || it.Map?) && |full| - |buf| <= Overhang(it, pos - start)
    ensures SkipsTo(buf, start, pos, elemCount, |full|)
    decreases it, 0
  {
    hide SkipBare, SkipTags, SkipContent, SkipsTo, BigEndian, At, Wire;
    var head, body := Head(ContainerMajor(it), it.framing.w, ElementCount(it)), pos + 1 + it.framing.w.Len();
    DefiniteContent(full, pos, it);
    var last := it.items[|it.items| - 1];
    PendingParts(full, body, it.items, 0, |full|);
    OverhangIsShort(last, 0);
    LastIsInside(it.items, 0);
    AtPrefix(buf, full, pos, head);
    SkipsCutItems(buf, full, body, it.items, 0);
    SkipsDefinite(buf, start, pos, it, elemCount, |full|);
  }

  lemma PendingParts(buf: seq<byte>, pos: nat, items: seq<Item>, i: nat, end: nat)
    requires Pending(buf, pos, items, i, end)
    ensures AllWellFormed(items) && i <= |items| && pos + |WireFrom(items, i)| == end <= |buf|
    ensures forall j :: 0 <= j < |items| ==> WellFormed(items[j])
  {
  }

  lemma {:induction false} SkipsCutItems(buf: seq<byte>, full: seq<byte>, pos: nat, items: seq<Item>, i: nat)
    requires |buf| <= HALF_SIZE_MAX && |buf| < |full| && full[..|buf|] == buf
    requires i < |items| && Pending(full, pos, items, i, |full|)
    requires |full| - |buf| <= Overhang(items[|items| - 1], 0)
    ensures SkipContent(buf, pos, |items| - i, false) == Some(|full|) && pos + (|items| - i) <= |buf|
    decreases items, |items| - i
  {
    hide SkipBare, SkipTags, SkipContent, SkipsTo, BigEndian, At, Wire, WellFormed, Pending;
    PendingParts(full, pos, items, i, |full|);
    var last := items[|items| - 1];
    OverhangIsShort(last, 0);
    LastIsInside(items, i);
    var next := pos + |Wire(items[i])|;
    NextItem(full, pos, items, i, |full|);
    PendingParts(full, next, items, i + 1, |full|);
    AtPrefix(buf, full, pos, Wire(items[i]));
    if i + 1 == |items| {
      assert WireFrom(items, i + 1) == [];
      SkipsCut(buf, full, pos, pos, items[i], 1);
      SkipContentStep(buf, pos, 1, false, |full|);
      SkipContentEnd(buf, |full|, 0, false);
    } else {
      LastIsInside(items, i + 1);
      SkipsItem(buf, pos, pos, items[i], |items| - i);
      SkipContentStep(buf, pos, |items| - i, false, next);
      SkipsCutItems(buf, full, next, items, i + 1);
    }
  }

  // ---------------------------------------------------------------- and nothing else is skipped past the end

  /** The payload followed by the memory after it, as far as `q`. */
  ghost function Extended(buf: seq<byte>, q: nat, beyond: nat -> byte): (full: seq<byte>)
    requires |buf| <= q
    ensures |full| == q && full[..|buf|] == buf
  {
    var rest: seq<byte> := seq(q - |buf|, i requires 0 <= i => beyond(i));
    buf + rest
  }

  /** An indefinite-length container ends with a break, which is inside the payload. */
  lemma {:induction false} BreakIsInside(buf: seq<byte>, pos: nat, elemCount: nat, q: nat)
    requires SkipContent(buf, pos, elemCount, true) == Some(q)
    ensures q <= |buf|
    decreases Left(buf, pos)
  {
    hide Skip;
    if !(pos < |buf| && buf[pos] == BREAK) {
      BreakIsInside(buf, Skip(buf, pos, elemCount).value, elemCount - 1, q);
    }
  }

  lemma {:induction false} CutIsItem(buf: seq<byte>, beyond: nat -> byte, start: nat, pos: nat, elemCount: nat, q: nat)
    returns (it: Item)
    requires SkipsTo(buf, start, pos, elemCount, q) && |buf| < q
    ensures Completes(buf, Extended(buf, q, beyond), pos, it) && q - |buf| <= Overhang(it, pos - start)
    decreases Left(buf, pos), 1
  {
    hide SkipContent, SkipBare, BigEndian, Pow256, At, Extended;
    var full := Extended(buf, q, beyond);
    if buf[pos] / 32 == 6 {
      var w, n := UntagOne(buf, start, pos, elemCount, q);
      var inner := CutIsItem(buf, beyond, start, pos + 1 + w.Len(), elemCount, q);
      it := Tag(w, n, inner);
      AtPrefix(buf, full, pos, Head(6, w, n));
      AtConcat(full, pos, Head(6, w, n), Wire(inner));
    } else {
      var major := buf[pos] / 32;
      UnboundedContent(buf, start, pos, elemCount, q);
      if buf[pos] % 32 == 31 {
        BreakIsInside(buf, pos + 1, LARGE_ELEM_COUNT, q);
        assert false;
      } else if major == 4 || major == 5 {
        it := CutDefinite(buf, beyond, start, pos, elemCount, q);
      } else {
        it := CutString(buf, beyond, start, pos, elemCount, q);
      }
    }
  }

  lemma CutString(buf: seq<byte>, beyond: nat -> byte, start: nat, pos: nat, elemCount: nat, q: nat) returns (it: Item)
    requires SkipsTo(buf, start, pos, elemCount, q) && |buf| < q && buf[pos] / 32 !in {4, 5, 6}
    ensures Completes(buf, Extended(buf, q, beyond), pos, it) && q - |buf| <= Overhang(it, pos - start)
  {
    hide SkipContent, SkipTags, SkipBare, ExtractHead, Head, At, Extended;
    var full, major := Extended(buf, q, beyond), buf[pos] / 32;
    var w, n := LeafSkip(buf, start, pos, elemCount, q);
    AtPrefix(buf, full, pos, Head(major, w, n));
    it := MakeString(full, pos, major, w, n);
  }

  lemma MakeString(buf: seq<byte>, pos: nat, major: nat, w: Width, n: nat) returns (it: Item)
    requires (major == 2 || major == 3) && w.Expresses(n) && At(buf, pos, Head(major, w, n))
    requires pos + 1 + w.Len() + n == |buf|
    ensures it == if major == 2 then Bstr(w, buf[|buf| - n..]) else Tstr(w, buf[|buf| - n..])
    ensures WellFormed(it) && At(buf, pos, Wire(it)) && pos + |Wire(it)| == |buf|
  {
    hide Head;
    var s := buf[|buf| - n..];
    it := if major == 2 then Bstr(w, s) else Tstr(w, s);
    AtConcat(buf, pos, Head(major, w, n), s);
  }

  lemma {:induction false} CutDefinite(buf: seq<byte>, beyond: nat -> byte, start: nat, pos: nat, elemCount: nat,
                                       q: nat)
    returns (it: Item)
    requires SkipsTo(buf, start, pos, elemCount, q) && |buf| < q && (buf[pos] / 32 == 4 || buf[pos] / 32 == 5)
    requires ExtractHead(buf, pos, 8, true, elemCount).Value?
    ensures Completes(buf, Extended(buf, q, beyond), pos, it) && q - |buf| <= Overhang(it, pos - start)
    decreases Left(buf, pos), 0
  {
    hide SkipContent, SkipTags, SkipBare, ExtractHead, Head, At, Extended, Pending, Wire, WellFormed;
    var full, major := Extended(buf, q, beyond), buf[pos] / 32;
    var w, n := DefiniteSkip(buf, start, pos, elemCount, q);
    var items := CutItems(buf, beyond, pos + 1 + w.Len(), if major == 5 then 2 * n else n, q);
    AtPrefix(buf, full, pos, Head(major, w, n));
    it := MakeDefinite(full, pos, major, w, n, items, q);
  }

  lemma {:induction false} CutItems(buf: seq<byte>, beyond: nat -> byte, pos: nat, elemCount: nat, q: nat)
    returns (items: seq<Item>)
    requires SkipContent(buf, pos, elemCount, false) == Some(q) && pos <= |buf| < q
    ensures |items| == elemCount > 0 && Pending(Extended(buf, q, beyond), pos, items, 0, q)
    ensures q - |buf| <= Overhang(items[|items| - 1], 0)
    decreases Left(buf, pos), 2
  {
    hide Skip, SkipTags, SkipBare, SkipsTo, BigEndian, Pow256, Wire, WellFormed, At, Extended, Pending;
    var full := Extended(buf, q, beyond);
    var next := SkipContentUnfold(buf, pos, elemCount, false);
    if next <= |buf| {
      var first := SkippedIsItem(buf, pos, pos, elemCount, next);
      var others := CutItems(buf, beyond, next, elemCount - 1, q);
      items := [first] + others;
      AtPrefix(buf, full, pos, Wire(first));
      PendingCons(full, pos, first, others, q);
    } else {
      NothingAfter(buf, next, elemCount - 1, q);
      var only := CutIsItem(buf, beyond, pos, pos, elemCount, q);
      items := [only] + [];
      EndsHere(full);
      PendingCons(full, pos, only, [], q);
    }
  }

  lemma EndsHere(full: seq<byte>)
    ensures Pending(full, |full|, [], 0, |full|)
  {
  }

  lemma PendingCons(full: seq<byte>, pos: nat, first: Item, others: seq<Item>, end: nat)
    requires WellFormed(first) && At(full, pos, Wire(first)) && Pending(full, pos + |Wire(first)|, others, 0, end)
    ensures Pending(full, pos, [first] + others, 0, end)
  {
    hide At, Wire, WellFormed;
    WireFromCons(first, others, 0);
    AtConcat(full, pos, Wire(first), WireFrom(others, 0));
  }

  lemma NothingAfter(buf: seq<byte>, pos: nat, elemCount: nat, q: nat)
    requires pos >= |buf| && SkipContent(buf, pos, elemCount, false) == Some(q)
    ensures elemCount == 0 && q == pos
  {
  }

  // ---------------------------------------------------------------- the exact statement

  /** The item stands at `pos`, whole or lacking no more of its last bytes than its overhang. */
  ghost predicate StandsAt(buf: seq<byte>, pos: nat, it: Item)
    requires WellFormed(it)
  {
    || At(buf, pos, Wire(it))
    || (CutAt(buf, pos, Wire(it)) && pos + |Wire(it)| - |buf| <= Overhang(it, 0))
  }

  /**
   `zcbor_any_skip` stops at `q` exactly when a well-formed item ends there; if that is past the end of the
   payload, exactly when the missing bytes are within the item's overhang.
   */
  lemma SkipIffItem(buf: seq<byte>, pos: nat, elemCount: nat, q: nat)
    requires |buf| <= HALF_SIZE_MAX && elemCount > 0
    ensures Skip(buf, pos, elemCount) == Some(q)
      <==> exists it :: WellFormed(it) && StandsAt(buf, pos, it) && pos + |Wire(it)| == q
  {
    hide SkipTags, SkipBare, Wire, WellFormed, Overhang;
    if Skip(buf, pos, elemCount) == Some(q) {
      if q <= |buf| {
        var it := SkippedIsItem(buf, pos, pos, elemCount, q);
        assert StandsAt(buf, pos, it);
      } else {
        var it := CutIsItem(buf, _ => 0, pos, pos, elemCount, q);
        CompletedIsCut(buf, Extended(buf, q, _ => 0), pos, it);
        assert StandsAt(buf, pos, it);
      }
    }
    forall it | WellFormed(it) && StandsAt(buf, pos, it) && pos + |Wire(it)| == q
      ensures Skip(buf, pos, elemCount) == Some(q)
    {
      if At(buf, pos, Wire(it)) {
        SkipsItem(buf, pos, pos, it, elemCount);
      } else {
        var full := buf[..pos] + Wire(it);
        CutIsCompleted(buf, pos, it);
        SkipsCut(buf, full, pos, pos, it, elemCount);
      }
    }
  }

  lemma CompletedIsCut(buf: seq<byte>, full: seq<byte>, pos: nat, it: Item)
    requires Completes(buf, full, pos, it) && pos <= |buf|
    ensures CutAt(buf, pos, Wire(it))
  {
    assert full[pos..] == Wire(it);
    assert buf[pos..] == full[..|buf|][pos..] == full[pos..][..|buf| - pos];
  }

  lemma CutIsCompleted(buf: seq<byte>, pos: nat, it: Item)
    requires WellFormed(it) && CutAt(buf, pos, Wire(it))
    ensures Completes(buf, buf[..pos] + Wire(it), pos, it)
  {
    var full := buf[..pos] + Wire(it);
    assert full[pos..pos + |Wire(it)|] == Wire(it);
    assert full[..|buf|] == buf[..pos] + Wire(it)[..|buf| - pos] == buf;
  }

  /** What is not skipped: a tag of 64 bits, a string of indefinite length, a break, a reserved head, nothing at all. */
  lemma NotSkipped()
    ensures Skip([0xDB, 0, 0, 0, 0, 0, 0, 0, 1, 0x00], 0, 1) == None
    ensures Skip([0x5F, 0x41, 0x00, 0xFF], 0, 1) == None
    ensures Skip([0xFF], 0, 1) == None && Skip([0x1C], 0, 1) == None && Skip([], 0, 1) == None
    ensures Skip([0xC1], 0, 1) == None
  {
    hide SkipContent, FromBigEndian;
    var tag: seq<byte> := [0xDB, 0, 0, 0, 0, 0, 0, 0, 1, 0x00];
    assert tag[0] / 32 == 6 && ExtractHead(tag, 0, 4, false, 1) == Fail;
    assert SkipTags(tag, 0, 1) == None;
    var s: seq<byte> := [0x5F, 0x41, 0x00, 0xFF];
    assert s[0] / 32 == 2 && ExtractHead(s, 0, 8, false, 1) == Fail;
    var t: seq<byte> := [0xC1];
    assert t[0] / 32 == 6 && SkipTags(t, 0, 1) == None;
  }

  /** A byte string that announces two bytes and has one is skipped to the byte after the missing one. */
  lemma SkipPassesTheEnd()
    ensures Skip([0x42, 0x00], 0, 1) == Some(3)
    ensures Skip([0xA1, 0x01, 0x42, 0x00], 0, 1) == Some(5)
  {
    var s: seq<byte> := [0x42, 0x00];
    assert ExtractHead(s, 0, 8, false, 1) == Value(2, 0);
    var m: seq<byte> := [0xA1, 0x01, 0x42, 0x00];
    assert ExtractHead(m, 0, 8, true, 1) == Value(1, 0);
    assert Skip(m, 1, 2) == Some(2);
    assert ExtractHead(m, 2, 8, false, 1) == Value(2, 0);
    assert Skip(m, 2, 1) == Some(5);
    assert SkipContent(m, 5, 0, false) == Some(5);
    assert SkipContent(m, 2, 1, false) == Some(5);
    assert SkipContent(m, 1, 2, false) == Some(5);
  }
}
