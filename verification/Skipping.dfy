/**
 What `zcbor_any_skip` does on every byte string, as a total function, and its exact
 relation to well-formed items. The method that walks the state is in Decoder.dfy.
 */
module Skipping {
  import opened Wrappers
  import opened Heads
  import opened Items

  /** `ZCBOR_LARGE_ELEM_COUNT`, the element count given to indefinite-length containers. */
  const LARGE_ELEM_COUNT: nat := 0xFFFF_FFFF_FFFF_FFF0
  /** `SIZE_MAX / 2`. */
  const HALF_SIZE_MAX: nat := 0x7FFF_FFFF_FFFF_FFFF

  /** Remaining payload: the measure every skip loop runs down. */
  function Left(buf: seq<byte>, pos: nat): nat {
    if pos < |buf| then |buf| - pos else 0
  }

  /** The position after any tags, each of at most 32 bits. */
  function SkipTags(buf: seq<byte>, pos: nat, elemCount: nat): (r: Option<nat>)
    requires pos < |buf|
    ensures r.Some? ==> pos <= r.value < |buf| && buf[r.value] / 32 != 6
    decreases |buf| - pos
  {
    if buf[pos] / 32 != 6 then Some(pos)
    else
      match ExtractHead(buf, pos, 4, false, elemCount)
      case Value(_, len) => if pos + 1 + len >= |buf| then None else SkipTags(buf, pos + 1 + len, elemCount)
      case _ => None
  }

  /**
   Skips the untagged item at `pos`. A string's length is compared with the payload left from
   `start`, where the tags began, so a truncated string can be skipped past the end of the payload.
   */
  function SkipBare(buf: seq<byte>, start: nat, pos: nat, elemCount: nat): (r: Option<nat>)
    requires start <= pos < |buf|
    ensures r.Some? ==> pos < r.value
    decreases Left(buf, pos), 0
  {
    var major := buf[pos] / 32;
    match ExtractHead(buf, pos, 8, major == 4 || major == 5, elemCount)
    case Fail => None
    case Unbounded => SkipContent(buf, pos + 1, LARGE_ELEM_COUNT, true)
    case Value(n, len) =>
      var body := pos + 1 + len;
      if major == 2 || major == 3 then if n > |buf| - start then None else Some(body + n)
      else if major == 5 then if n > HALF_SIZE_MAX then None else SkipContent(buf, body, 2 * n, false)
      else if major == 4 then SkipContent(buf, body, n, false)
      else Some(body)
  }

  /** Skips `elemCount` items, or up to and including the break of an indefinite-length container. */
  function SkipContent(buf: seq<byte>, pos: nat, elemCount: nat, indefinite: bool): (r: Option<nat>)
    ensures r.Some? ==> pos <= r.value
    decreases Left(buf, pos), 2
  {
    if !indefinite && elemCount == 0 then Some(pos)
    else if indefinite && pos < |buf| && buf[pos] == BREAK then Some(pos + 1)
    else
      match Skip(buf, pos, elemCount)
      case None => None
      case Some(next) => SkipContent(buf, next, elemCount - 1, indefinite)
  }

  /** Where `zcbor_any_skip` leaves the payload, or `None` when it fails. */
  function Skip(buf: seq<byte>, pos: nat, elemCount: nat): (r: Option<nat>)
    ensures r.Some? ==> pos < r.value && pos < |buf| && elemCount > 0
    decreases Left(buf, pos), 1
  {
    if pos >= |buf| then None
    else
      match SkipTags(buf, pos, elemCount)
      case None => None
      case Some(p) => SkipBare(buf, pos, p, elemCount)
  }

  // ---------------------------------------------------------------- every item is skipped exactly

  /** The item at `pos`, after tags that began at `start`, is skipped to `q`. */
  ghost predicate SkipsTo(buf: seq<byte>, start: nat, pos: nat, elemCount: nat, q: nat) {
    && start <= pos < |buf|
    && SkipTags(buf, pos, elemCount).Some?
    && SkipBare(buf, start, SkipTags(buf, pos, elemCount).value, elemCount) == Some(q)
  }

  lemma SkipsScalar(buf: seq<byte>, start: nat, pos: nat, major: nat, w: Width, n: nat, elemCount: nat)
    requires major == 0 || major == 1 || major == 7
    requires w.Expresses(n) && At(buf, pos, Head(major, w, n)) && start <= pos && elemCount > 0
    ensures SkipsTo(buf, start, pos, elemCount, pos + 1 + w.Len())
  {
    HeadExtracts(buf, pos, major, w, n, 8, false, elemCount);
  }

  lemma SkipsString(buf: seq<byte>, start: nat, pos: nat, major: nat, w: Width, s: seq<byte>, elemCount: nat)
    requires major == 2 || major == 3
    requires w.Expresses(|s|) && At(buf, pos, Head(major, w, |s|) + s) && start <= pos && elemCount > 0
    ensures SkipsTo(buf, start, pos, elemCount, pos + 1 + w.Len() + |s|)
  {
    AtConcat(buf, pos, Head(major, w, |s|), s);
    HeadExtracts(buf, pos, major, w, |s|, 8, false, elemCount);
  }

  lemma SkipsTag(buf: seq<byte>, start: nat, pos: nat, w: Width, n: nat, elemCount: nat, q: nat)
    requires w.Expresses(n) && !w.Eight? && At(buf, pos, Head(6, w, n)) && start <= pos && elemCount > 0
    requires SkipsTo(buf, start, pos + 1 + w.Len(), elemCount, q)
    ensures SkipsTo(buf, start, pos, elemCount, q)
  {
    HeadExtracts(buf, pos, 6, w, n, 4, false, elemCount);
  }

  lemma SkipsDefinite(buf: seq<byte>, start: nat, pos: nat, it: Item, elemCount: nat, q: nat)
    requires (it.List? || it.Map?) && it.framing.Definite? && WellFormed(it) && |it.items| <= HALF_SIZE_MAX
    requires At(buf, pos, Head(ContainerMajor(it), it.framing.w, ElementCount(it))) && start <= pos && elemCount > 0
    requires SkipContent(buf, pos + 1 + it.framing.w.Len(), |it.items|, false) == Some(q)
    ensures SkipsTo(buf, start, pos, elemCount, q)
  {
    HeadExtracts(buf, pos, ContainerMajor(it), it.framing.w, ElementCount(it), 8, true, elemCount);
    assert it.Map? ==> 2 * ElementCount(it) == |it.items|;
  }

  lemma SkipsIndefinite(buf: seq<byte>, start: nat, pos: nat, major: nat, elemCount: nat, q: nat)
    requires (major == 4 || major == 5) && start <= pos < |buf| && buf[pos] == major * 32 + 31 && elemCount > 0
    requires SkipContent(buf, pos + 1, LARGE_ELEM_COUNT, true) == Some(q)
    ensures SkipsTo(buf, start, pos, elemCount, q)
  {
  }

  /** A whole item, tags included, is skipped to its last byte. */
  lemma {:induction false} SkipsItem(buf: seq<byte>, start: nat, pos: nat, it: Item, elemCount: nat)
    requires |buf| <= HALF_SIZE_MAX && WellFormed(it) && At(buf, pos, Wire(it)) && start <= pos && elemCount > 0
    ensures SkipsTo(buf, start, pos, elemCount, pos + |Wire(it)|)
    decreases it, 1
  {
    hide SkipBare, SkipTags, SkipContent, SkipsTo, BigEndian, Pow256, At;
    match it
    case Uint(w, n) => SkipsScalar(buf, start, pos, 0, w, n, elemCount);
    case Nint(w, n) => SkipsScalar(buf, start, pos, 1, w, n, elemCount);
    case Simple(w, n) => SkipsScalar(buf, start, pos, 7, w, n, elemCount);
    case Bstr(w, s) => SkipsString(buf, start, pos, 2, w, s, elemCount);
    case Tstr(w, s) => SkipsString(buf, start, pos, 3, w, s, elemCount);
    case Tag(w, n, item) =>
      AtConcat(buf, pos, Head(6, w, n), Wire(item));
      SkipsItem(buf, start, pos + 1 + w.Len(), item, elemCount);
      SkipsTag(buf, start, pos, w, n, elemCount, pos + |Wire(it)|);
    case List(_, _) => SkipsContainer(buf, start, pos, it, elemCount);
    case Map(_, _) => SkipsContainer(buf, start, pos, it, elemCount);
  }

  lemma {:induction false} SkipsContainer(buf: seq<byte>, start: nat, pos: nat, it: Item, elemCount: nat)
    requires |buf| <= HALF_SIZE_MAX && WellFormed(it) && At(buf, pos, Wire(it)) && start <= pos && elemCount > 0
    requires it.List? || it.Map?
    ensures SkipsTo(buf, start, pos, elemCount, pos + |Wire(it)|)
    decreases it, 0
  {
    hide SkipTags, SkipBare, SkipContent, SkipsTo, Wire;
    var end := pos + |Wire(it)|;
    if it.framing.Definite? {
      DefiniteContent(buf, pos, it);
      SkipsItems(buf, pos + 1 + it.framing.w.Len(), it.items, 0, end, |it.items|, false);
      SkipsDefinite(buf, start, pos, it, elemCount, end);
    } else {
      IndefiniteContent(buf, pos, it);
      SkipsItems(buf, pos + 1, it.items, 0, end - 1, LARGE_ELEM_COUNT, true);
      SkipsIndefinite(buf, start, pos, ContainerMajor(it), elemCount, end);
    }
  }

  lemma SkipContentStep(buf: seq<byte>, pos: nat, elemCount: nat, indefinite: bool, next: nat)
    requires pos < |buf| && buf[pos] != BREAK && elemCount > 0 && SkipsTo(buf, pos, pos, elemCount, next)
    ensures SkipContent(buf, pos, elemCount, indefinite) == SkipContent(buf, next, elemCount - 1, indefinite)
  {
  }

  lemma SkipContentEnd(buf: seq<byte>, pos: nat, elemCount: nat, indefinite: bool)
    requires if indefinite then pos < |buf| && buf[pos] == BREAK else elemCount == 0
    ensures SkipContent(buf, pos, elemCount, indefinite) == Some(if indefinite then pos + 1 else pos)
  {
  }

  lemma {:induction false} SkipsItems(buf: seq<byte>, pos: nat, items: seq<Item>, i: nat, end: nat,
                                      elemCount: nat, indefinite: bool)
    requires |buf| <= HALF_SIZE_MAX && Pending(buf, pos, items, i, end)
    requires if indefinite then end < |buf| && buf[end] == BREAK && elemCount > |buf| - pos
             else elemCount == |items| - i
    ensures SkipContent(buf, pos, elemCount, indefinite) == Some(if indefinite then end + 1 else end)
    decreases items, |items| - i
  {
    hide SkipTags, SkipBare, SkipContent, SkipsTo, At, Wire;
    if i == |items| {
      SkipContentEnd(buf, pos, elemCount, indefinite);
    } else {
      var next := pos + |Wire(items[i])|;
      NextItem(buf, pos, items, i, end);
      SkipsItem(buf, pos, pos, items[i], elemCount);
      SkipContentStep(buf, pos, elemCount, indefinite, next);
      SkipsItems(buf, next, items, i + 1, end, elemCount - 1, indefinite);
    }
  }

  // ---------------------------------------------------------------- nothing else is skipped

  /** What was skipped without passing the end of the payload was one well-formed item. */
  lemma {:induction false} SkippedIsItem(buf: seq<byte>, start: nat, pos: nat, elemCount: nat, q: nat)
    returns (it: Item)
    requires SkipsTo(buf, start, pos, elemCount, q) && q <= |buf|
    ensures WellFormed(it) && At(buf, pos, Wire(it)) && pos + |Wire(it)| == q
    decreases Left(buf, pos), 1
  {
    hide SkipContent, SkipBare, BigEndian, Pow256;
    if buf[pos] / 32 == 6 {
      var w, n := UntagOne(buf, start, pos, elemCount, q);
      var inner := SkippedIsItem(buf, start, pos + 1 + w.Len(), elemCount, q);
      it := Tag(w, n, inner);
      AtConcat(buf, pos, Head(6, w, n), Wire(inner));
    } else {
      var major := buf[pos] / 32;
      UnboundedContent(buf, start, pos, elemCount, q);
      if buf[pos] % 32 == 31 {
        it := SkippedIndefinite(buf, pos, major, q);
      } else if major == 4 || major == 5 {
        it := SkippedDefinite(buf, start, pos, elemCount, q);
      } else {
        it := SkippedIsLeaf(buf, start, pos, elemCount, q);
      }
    }
  }

  lemma UnboundedContent(buf: seq<byte>, start: nat, pos: nat, elemCount: nat, q: nat)
    requires SkipsTo(buf, start, pos, elemCount, q) && buf[pos] / 32 != 6
    ensures buf[pos] % 32 == 31 ==>
      (buf[pos] / 32 == 4 || buf[pos] / 32 == 5) && SkipContent(buf, pos + 1, LARGE_ELEM_COUNT, true) == Some(q)
    ensures buf[pos] % 32 != 31 ==> ExtractHead(buf, pos, 8, true, elemCount).Value?
  {
  }

  lemma UntagOne(buf: seq<byte>, start: nat, pos: nat, elemCount: nat, q: nat) returns (w: Width, n: nat)
    requires SkipsTo(buf, start, pos, elemCount, q) && buf[pos] / 32 == 6
    ensures w.Expresses(n) && !w.Eight? && At(buf, pos, Head(6, w, n))
    ensures SkipsTo(buf, start, pos + 1 + w.Len(), elemCount, q)
  {
    w := ExtractIsHead(buf, pos, 4, false, elemCount);
    n := ExtractHead(buf, pos, 4, false, elemCount).n;
  }

  /** The head of a skipped scalar or string, and where the skip ends. */
  lemma LeafSkip(buf: seq<byte>, start: nat, pos: nat, elemCount: nat, q: nat) returns (w: Width, n: nat)
    requires SkipsTo(buf, start, pos, elemCount, q) && buf[pos] / 32 !in {4, 5, 6}
    ensures var major := buf[pos] / 32;
      && w.Expresses(n) && At(buf, pos, Head(major, w, n)) && pos + 1 + w.Len() <= |buf|
      && (if major == 2 || major == 3 then n <= |buf| - start && q == pos + 1 + w.Len() + n else q == pos + 1 + w.Len())
  {
    hide SkipContent, BigEndian, FromBigEndian;
    w := ExtractIsHead(buf, pos, 8, false, elemCount);
    n := ExtractHead(buf, pos, 8, false, elemCount).n;
  }

  /** The head of a skipped container of definite length, and the skip of its content. */
  lemma DefiniteSkip(buf: seq<byte>, start: nat, pos: nat, elemCount: nat, q: nat) returns (w: Width, n: nat)
    requires SkipsTo(buf, start, pos, elemCount, q) && (buf[pos] / 32 == 4 || buf[pos] / 32 == 5)
    requires ExtractHead(buf, pos, 8, true, elemCount).Value?
    ensures var major := buf[pos] / 32;
      && w.Expresses(n) && At(buf, pos, Head(major, w, n)) && pos + 1 + w.Len() <= |buf|
      && SkipContent(buf, pos + 1 + w.Len(), if major == 5 then 2 * n else n, false) == Some(q)
  {
    hide SkipContent, BigEndian, FromBigEndian;
    w := ExtractIsHead(buf, pos, 8, true, elemCount);
    n := ExtractHead(buf, pos, 8, true, elemCount).n;
  }

  lemma SkippedIsLeaf(buf: seq<byte>, start: nat, pos: nat, elemCount: nat, q: nat) returns (it: Item)
    requires SkipsTo(buf, start, pos, elemCount, q) && q <= |buf| && buf[pos] / 32 !in {4, 5, 6}
    ensures WellFormed(it) && At(buf, pos, Wire(it)) && pos + |Wire(it)| == q
  {
    hide SkipContent, SkipTags, SkipBare, ExtractHead, Head;
    var major := buf[pos] / 32;
    var w, n := LeafSkip(buf, start, pos, elemCount, q);
    if major == 2 || major == 3 {
      var s := buf[pos + 1 + w.Len()..pos + 1 + w.Len() + n];
      it := if major == 2 then Bstr(w, s) else Tstr(w, s);
      AtConcat(buf, pos, Head(major, w, n), s);
    } else {
      it := if major == 0 then Uint(w, n) else if major == 1 then Nint(w, n) else Simple(w, n);
    }
  }

  lemma {:induction false} SkippedDefinite(buf: seq<byte>, start: nat, pos: nat, elemCount: nat, q: nat)
    returns (it: Item)
    requires SkipsTo(buf, start, pos, elemCount, q) && q <= |buf| && (buf[pos] / 32 == 4 || buf[pos] / 32 == 5)
    requires ExtractHead(buf, pos, 8, true, elemCount).Value?
    ensures WellFormed(it) && At(buf, pos, Wire(it)) && pos + |Wire(it)| == q
    decreases Left(buf, pos), 0
  {
    hide SkipContent, SkipTags, SkipBare, ExtractHead, Head;
    var major := buf[pos] / 32;
    var w, n := DefiniteSkip(buf, start, pos, elemCount, q);
    var items := SkippedAreItems(buf, pos + 1 + w.Len(), if major == 5 then 2 * n else n, false, q);
    it := MakeDefinite(buf, pos, major, w, n, items, q);
  }

  /** A head and the items it announces make a container. */
  lemma MakeDefinite(buf: seq<byte>, pos: nat, major: nat, w: Width, n: nat, items: seq<Item>, end: nat)
    returns (it: Item)
    requires (major == 4 && |items| == n) || (major == 5 && |items| == 2 * n)
    requires w.Expresses(n) && At(buf, pos, Head(major, w, n)) && Pending(buf, pos + 1 + w.Len(), items, 0, end)
    ensures it == if major == 4 then List(Definite(w), items) else Map(Definite(w), items)
    ensures WellFormed(it) && At(buf, pos, Wire(it)) && pos + |Wire(it)| == end
  {
    hide At, Head;
    it := if major == 4 then List(Definite(w), items) else Map(Definite(w), items);
    assert Wire(it) == Head(major, w, n) + WireFrom(items, 0);
    AtConcat(buf, pos, Head(major, w, n), WireFrom(items, 0));
  }

  lemma {:induction false} SkippedIndefinite(buf: seq<byte>, pos: nat, major: nat, q: nat) returns (it: Item)
    requires pos < |buf| && (major == 4 || major == 5) && buf[pos] == major * 32 + 31
    requires SkipContent(buf, pos + 1, LARGE_ELEM_COUNT, true) == Some(q) && q <= |buf|
    ensures WellFormed(it) && At(buf, pos, Wire(it)) && pos + |Wire(it)| == q
    decreases Left(buf, pos), 0
  {
    hide SkipContent, BigEndian, Pow256;
    var items := SkippedAreItems(buf, pos + 1, LARGE_ELEM_COUNT, true, q);
    it := if major == 4 then List(Indefinite, items) else Map(Indefinite, items);
    var content := WireFrom(items, 0);
    assert Wire(it) == [buf[pos]] + content + [BREAK];
    AtConcat(buf, pos, [buf[pos]], content);
    AtConcat(buf, pos, [buf[pos]] + content, [BREAK]);
  }

  lemma NothingPending(buf: seq<byte>, pos: nat)
    requires pos <= |buf|
    ensures Pending(buf, pos, [], 0, pos)
    ensures pos < |buf| && buf[pos] == BREAK ==> At(buf, pos, [BREAK])
  {
  }

  lemma {:induction false} SkippedAreItems(buf: seq<byte>, pos: nat, elemCount: nat, indefinite: bool, q: nat)
    returns (items: seq<Item>)
    requires SkipContent(buf, pos, elemCount, indefinite) == Some(q) && q <= |buf|
    ensures var end := if indefinite then q - 1 else q;
      && 0 <= end && Pending(buf, pos, items, 0, end)
      && (indefinite ==> At(buf, end, [BREAK])) && (!indefinite ==> |items| == elemCount)
    decreases Left(buf, pos), 2
  {
    hide Skip, SkipTags, SkipBare, SkipsTo, BigEndian, Pow256, Wire, WellFormed, At;
    if !indefinite && elemCount == 0 {
      items := [];
      NothingPending(buf, pos);
    } else if indefinite && pos < |buf| && buf[pos] == BREAK {
      items := [];
      NothingPending(buf, pos);
    } else {
      var next := SkipContentUnfold(buf, pos, elemCount, indefinite);
      var first := SkippedIsItem(buf, pos, pos, elemCount, next);
      var others := SkippedAreItems(buf, next, elemCount - 1, indefinite, q);
      items := [first] + others;
      WireFromCons(first, others, 0);
      AtConcat(buf, pos, Wire(first), WireFrom(others, 0));
    }
  }

  /** The first round of a skip loop that is not yet at its end. */
  lemma SkipContentUnfold(buf: seq<byte>, pos: nat, elemCount: nat, indefinite: bool) returns (next: nat)
    requires SkipContent(buf, pos, elemCount, indefinite).Some?
    requires !(!indefinite && elemCount == 0) && !(indefinite && pos < |buf| && buf[pos] == BREAK)
    ensures elemCount > 0 && SkipsTo(buf, pos, pos, elemCount, next)
    ensures SkipContent(buf, pos, elemCount, indefinite) == SkipContent(buf, next, elemCount - 1, indefinite)
    ensures pos < next <= SkipContent(buf, next, elemCount - 1, indefinite).value
  {
    next := Skip(buf, pos, elemCount).value;
  }
}
