/**
 CBOR data items as trees, with the framing choices a sender is free to make, and the
 bytes each tree is written as (sections 3.1 to 3.3 of RFC 8949).
 */
module Items {
  import opened Heads

  datatype Framing = Definite(w: Width) | Indefinite

  /** A map lists its keys and values alternately. */
  datatype Item =
    | Uint(w: Width, n: nat)
    | Nint(w: Width, n: nat)
    | Bstr(w: Width, bytes: seq<byte>)
    | Tstr(w: Width, bytes: seq<byte>)
    | List(framing: Framing, items: seq<Item>)
    | Map(framing: Framing, items: seq<Item>)
    | Tag(w: Width, n: nat, item: Item)
    | Simple(w: Width, n: nat)

  /**
   The items the zcbor build accepts: any argument width, definite or indefinite containers,
   tags of up to 32 bits, and no indefinite-length strings. Only a definite map is held to an
   even number of elements; an indefinite one may end after a key.
   */
  ghost predicate WellFormed(it: Item)
    decreases it
  {
    match it
    case Uint(w, n) => w.Expresses(n)
    case Nint(w, n) => w.Expresses(n)
    case Bstr(w, bs) => w.Expresses(|bs|)
    case Tstr(w, bs) => w.Expresses(|bs|)
    case List(f, items) => (f.Definite? ==> f.w.Expresses(|items|)) && AllWellFormed(items)
    case Map(f, items) =>
      && (f.Definite? ==> |items| % 2 == 0 && f.w.Expresses(|items| / 2))
      && AllWellFormed(items)
    case Tag(w, n, item) => w.Expresses(n) && !w.Eight? && WellFormed(item)
    case Simple(w, n) => w.Expresses(n)
  }

  ghost predicate AllWellFormed(items: seq<Item>)
    decreases items
  {
    forall i :: 0 <= i < |items| ==> WellFormed(items[i])
  }

  ghost function Wire(it: Item): (bs: seq<byte>)
    requires WellFormed(it)
    ensures 1 <= |bs|
    decreases it
  {
    match it
    case Uint(w, n) => Head(0, w, n)
    case Nint(w, n) => Head(1, w, n)
    case Bstr(w, s) => Head(2, w, |s|) + s
    case Tstr(w, s) => Head(3, w, |s|) + s
    case List(Definite(w), items) => Head(4, w, |items|) + WireFrom(items, 0)
    case List(Indefinite, items) => [LIST_START] + WireFrom(items, 0) + [BREAK]
    case Map(Definite(w), items) => Head(5, w, |items| / 2) + WireFrom(items, 0)
    case Map(Indefinite, items) => [MAP_START] + WireFrom(items, 0) + [BREAK]
    case Tag(w, n, item) => Head(6, w, n) + Wire(item)
    case Simple(w, n) => Head(7, w, n)
  }

  /** The items from index `i` on, one after the other. */
  ghost function WireFrom(items: seq<Item>, i: nat): (bs: seq<byte>)
    requires AllWellFormed(items) && i <= |items|
    ensures |items| - i <= |bs|
    decreases items, |items| - i
  {
    if i == |items| then [] else Wire(items[i]) + WireFrom(items, i + 1)
  }

  lemma {:induction false} WireFromCons(first: Item, others: seq<Item>, i: nat)
    requires WellFormed(first) && AllWellFormed(others) && i <= |others|
    ensures AllWellFormed([first] + others) && WireFrom([first] + others, i + 1) == WireFrom(others, i)
    decreases |others| - i
  {
    hide Wire, WellFormed;
    var items := [first] + others;
    assert forall j :: 0 < j < |items| ==> items[j] == others[j - 1];
    if i < |others| {
      WireFromCons(first, others, i + 1);
      assert WireFrom(items, i + 1) == Wire(items[i + 1]) + WireFrom(items, i + 2);
    }
  }

  /** No item begins with the break byte, so a break can only end a container. */
  lemma StartsWithHead(it: Item)
    requires WellFormed(it)
    ensures Wire(it)[0] != BREAK
  {
    match it
    case Uint(w, n) => InitialByte(0, w, n);
    case Nint(w, n) => InitialByte(1, w, n);
    case Bstr(w, s) => InitialByte(2, w, |s|);
    case Tstr(w, s) => InitialByte(3, w, |s|);
    case List(f, items) => if f.Definite? { InitialByte(4, f.w, |items|); }
    case Map(f, items) => if f.Definite? { InitialByte(5, f.w, |items| / 2); }
    case Tag(w, n, item) => InitialByte(6, w, n);
    case Simple(w, n) => InitialByte(7, w, n);
  }

  /** Items `i` on of a container's content start at `pos` and end just before `end`. */
  ghost predicate Pending(buf: seq<byte>, pos: nat, items: seq<Item>, i: nat, end: nat) {
    && AllWellFormed(items) && i <= |items|
    && At(buf, pos, WireFrom(items, i)) && pos + |WireFrom(items, i)| == end
  }

  lemma NextItem(buf: seq<byte>, pos: nat, items: seq<Item>, i: nat, end: nat)
    requires Pending(buf, pos, items, i, end) && i < |items|
    ensures At(buf, pos, Wire(items[i])) && buf[pos] != BREAK
    ensures Pending(buf, pos + |Wire(items[i])|, items, i + 1, end)
  {
    AtConcat(buf, pos, Wire(items[i]), WireFrom(items, i + 1));
    StartsWithHead(items[i]);
    assert buf[pos] == buf[pos..pos + |Wire(items[i])|][0];
  }

  /** The number in a definite container's head. */
  function ElementCount(it: Item): nat
    requires it.List? || it.Map?
  {
    if it.List? then |it.items| else |it.items| / 2
  }

  function ContainerMajor(it: Item): nat
    requires it.List? || it.Map?
  {
    if it.List? then 4 else 5
  }

  lemma DefiniteContent(buf: seq<byte>, pos: nat, it: Item)
    requires WellFormed(it) && (it.List? || it.Map?) && it.framing.Definite? && At(buf, pos, Wire(it))
    ensures At(buf, pos, Head(ContainerMajor(it), it.framing.w, ElementCount(it)))
    ensures Pending(buf, pos + 1 + it.framing.w.Len(), it.items, 0, pos + |Wire(it)|)
  {
    var head := Head(ContainerMajor(it), it.framing.w, ElementCount(it));
    assert Wire(it) == head + WireFrom(it.items, 0);
    AtConcat(buf, pos, head, WireFrom(it.items, 0));
  }

  lemma IndefiniteContent(buf: seq<byte>, pos: nat, it: Item)
    requires WellFormed(it) && (it.List? || it.Map?) && it.framing.Indefinite? && At(buf, pos, Wire(it))
    ensures pos < pos + |Wire(it)| <= |buf| && buf[pos] == ContainerMajor(it) * 32 + 31
    ensures Pending(buf, pos + 1, it.items, 0, pos + |Wire(it)| - 1) && buf[pos + |Wire(it)| - 1] == BREAK
  {
    var content, b := WireFrom(it.items, 0), ContainerMajor(it) * 32 + 31;
    assert Wire(it) == [b] + content + [BREAK];
    AtConcat(buf, pos, [b] + content, [BREAK]);
    AtConcat(buf, pos, [b], content);
    assert buf[pos..pos + 1][0] == b;
    var last := pos + |Wire(it)| - 1;
    assert buf[last..last + 1][0] == BREAK;
  }
}
