/**
 Subtree extraction of src/coreconfManipulation.c: the descent along a path of SIDs, through containers
 and through lists whose entries are chosen by the key values of the request.
 */
module Retrieval {
  import opened Wrappers
  import opened Values
  import opened Lookup

  /**
   What the source's functions outside this model do: `whole` converts a real's bit pattern to an unsigned
   integer, `sort` is the C library's sort with the source's comparator, of which only determinism matters.
   */
  datatype Platform = Platform(whole: nat -> nat, sort: seq<int> -> seq<int>)

  function AsUint64(v: Value, p: Platform): nat {
    match v
    case Int(_, n) => n % TWO_64
    case Real(bits) => p.whole(bits)
    case _ => 0
  }

  /**
   A leaf against a requested value, as numbers: a signed integer, or an unsigned one below 2^63, has to be that
   number; a larger unsigned one has to be it modulo 2^64; anything that is not a number counts as 0.
   */
  lemma FitsAsNumber(leaf: Value, wanted: int, p: Platform)
    requires -0x8000_0000_0000_0000 <= wanted < 0x8000_0000_0000_0000
    ensures leaf.Int? && -0x8000_0000_0000_0000 <= leaf.n < 0x8000_0000_0000_0000 ==>
      (AsUint64(leaf, p) == wanted % TWO_64 <==> leaf.n == wanted)
    ensures leaf.Int? && 0x8000_0000_0000_0000 <= leaf.n < 0x1_0000_0000_0000_0000 ==>
      (AsUint64(leaf, p) == wanted % TWO_64 <==> leaf.n - 0x1_0000_0000_0000_0000 == wanted)
    ensures !leaf.Int? && !leaf.Real? ==> (AsUint64(leaf, p) == wanted % TWO_64 <==> wanted == 0)
  {
  }

  // ---------------------------------------------------------------- choosing a list entry

  /** The value an entry's `i`th key is compared with: request keys are used from the last on, then zeros. */
  function Requested(req: seq<int>, i: nat): nat {
    if i < |req| then req[|req| - 1 - i] % TWO_64 else 0
  }

  /** The request keys left after `n` have been taken. */
  function KeysLeft(req: seq<int>, n: nat): seq<int> {
    req[..if n < |req| then |req| - n else 0]
  }

  function Leaf(entry: Value, key: int, parent: int): Option<Value> {
    if entry.Map? && |entry.table| == HASHMAP_TABLE_SIZE then Get(entry.table, Delta(key, parent)) else None
  }

  /** Every key leaf of the entry is there to be read. */
  ghost predicate Keyed(entry: Value, sidKeys: seq<int>, parent: int) {
    forall i :: 0 <= i < |sidKeys| ==> Leaf(entry, sidKeys[i], parent).Some?
  }

  ghost predicate KeyFits(entry: Value, key: int, parent: int, wanted: nat, p: Platform) {
    Leaf(entry, key, parent).Some? && AsUint64(Leaf(entry, key, parent).value, p) == wanted
  }

  ghost predicate NoRepeat(s: seq<int>) {
    forall i, j :: 0 <= i < j < |s| ==> s[i] != s[j]
  }

  /** Every key leaf has the value requested for it. */
  ghost predicate Chosen(entry: Value, sidKeys: seq<int>, parent: int, req: seq<int>, p: Platform) {
    && NoRepeat(sidKeys)
    && forall i :: 0 <= i < |sidKeys| ==> KeyFits(entry, sidKeys[i], parent, Requested(req, i), p)
  }

  /** Key leaf `i` is the signed integer `n`. */
  ghost predicate LeafIs(entry: Value, key: int, parent: int, n: int) {
    Leaf(entry, key, parent).Some? && Leaf(entry, key, parent).value.Int? && Leaf(entry, key, parent).value.n == n
  }

  /** Request keys, taken from the last on and followed by zeros. */
  function KeyWanted(req: seq<int>, i: nat): int {
    if i < |req| then req[|req| - 1 - i] else 0
  }

  ghost predicate AreSigned(req: seq<int>) {
    forall i :: 0 <= i < |req| ==> -0x8000_0000_0000_0000 <= req[i] < 0x8000_0000_0000_0000
  }

  /** Every key leaf is a number that a signed 64-bit integer can hold. */
  ghost predicate SignedLeaves(entry: Value, sidKeys: seq<int>, parent: int) {
    forall i :: 0 <= i < |sidKeys| ==>
      exists n :: -0x8000_0000_0000_0000 <= n < 0x8000_0000_0000_0000 && LeafIs(entry, sidKeys[i], parent, n)
  }

  /** Among entries with such keys, the chosen ones are those whose keys are the requested numbers. */
  lemma ChosenByNumber(entry: Value, sidKeys: seq<int>, parent: int, req: seq<int>, p: Platform)
    requires AreSigned(req) && SignedLeaves(entry, sidKeys, parent)
    ensures Chosen(entry, sidKeys, parent, req, p) <==>
      && NoRepeat(sidKeys)
      && forall i :: 0 <= i < |sidKeys| ==> LeafIs(entry, sidKeys[i], parent, KeyWanted(req, i))
  {
    hide Leaf, AsUint64;
    forall i | 0 <= i < |sidKeys|
      ensures KeyFits(entry, sidKeys[i], parent, Requested(req, i), p)
        <==> LeafIs(entry, sidKeys[i], parent, KeyWanted(req, i))
    {
      var n :| -0x8000_0000_0000_0000 <= n < 0x8000_0000_0000_0000 && LeafIs(entry, sidKeys[i], parent, n);
      FitsAsNumber(Leaf(entry, sidKeys[i], parent).value, KeyWanted(req, i), p);
    }
  }

  method CompareDynamicLongList(a: seq<int>, b: seq<int>, p: Platform) returns (same: bool)
    requires forall s :: |p.sort(s)| == |s|
    ensures same <==> |a| == |b| > 0 && p.sort(a) == p.sort(b)
  {
    if |a| == 0 || |b| == 0 || |a| != |b| {
      return false;
    }
    var sortedA, sortedB := p.sort(a), p.sort(b);
    var i := 0;
    while i < |a|
      invariant i <= |a| && sortedA[..i] == sortedB[..i]
    {
      if sortedA[i] != sortedB[i] {
        return false;
      }
      i := i + 1;
    }
    assert sortedA == sortedA[..i] && sortedB == sortedB[..i];
    same := true;
  }

  /**
   Whether an entry is chosen, and the request keys it leaves. The list of matching keys is compared with
   the list of all keys after sorting; whatever the sort does, that is the test that all keys match.
   */
  method MatchEntry(entry: Value, sidKeys: seq<int>, parent: int, req: seq<int>, p: Platform)
    returns (chosen: bool, left: seq<int>)
    requires forall s :: |p.sort(s)| == |s|
    requires sidKeys != [] && Keyed(entry, sidKeys, parent)
    ensures chosen <==> Chosen(entry, sidKeys, parent, req, p)
    ensures AreSigned(req) && SignedLeaves(entry, sidKeys, parent) ==>
      (chosen <==>
         && NoRepeat(sidKeys)
         && forall i :: 0 <= i < |sidKeys| ==> LeafIs(entry, sidKeys[i], parent, KeyWanted(req, i)))
    ensures left == KeysLeft(req, |sidKeys|)
  {
    if AreSigned(req) && SignedLeaves(entry, sidKeys, parent) {
      ChosenByNumber(entry, sidKeys, parent, req, p);
    }
    hide LeafIs, KeyWanted, AreSigned, SignedLeaves, NoRepeat;
    hide Chosen, Leaf, KeysLeft, Requested, AsUint64;
    var clone := req;
    var matching: seq<int> := [];
    NothingTaken(entry, parent, req, p);
    assert sidKeys[..0] == [];
    var i := 0;
    while i < |sidKeys|
      invariant i <= |sidKeys| && clone == KeysLeft(req, i)
      invariant |matching| <= i && (|matching| == i ==> matching == sidKeys[..i])
      invariant |matching| == i <==> Chosen(entry, sidKeys[..i], parent, req, p)
      invariant forall k :: k in matching ==> k in sidKeys[..i]
    {
      assert Leaf(entry, sidKeys[i], parent).Some?;
      var value := AsUint64(Leaf(entry, sidKeys[i], parent).value, p);
      var wanted := 0;
      if |clone| > 0 {
        wanted := clone[|clone| - 1] % TWO_64;
        clone := clone[..|clone| - 1];
      }
      TakeKey(req, i);
      ChosenStep(entry, sidKeys, i, parent, req, p);
      if value == wanted {
        matching := AddUniqueLong(matching, sidKeys[i]);
      }
      i := i + 1;
    }
    assert sidKeys[..i] == sidKeys;
    left := clone;
    chosen := CompareDynamicLongList(sidKeys, matching, p);
  }

  lemma NothingTaken(entry: Value, parent: int, req: seq<int>, p: Platform)
    ensures KeysLeft(req, 0) == req && Chosen(entry, [], parent, req, p)
  {
  }

  lemma TakeKey(req: seq<int>, i: nat)
    ensures var left := KeysLeft(req, i);
      if left == [] then Requested(req, i) == 0 && KeysLeft(req, i + 1) == []
      else Requested(req, i) == left[|left| - 1] % TWO_64 && KeysLeft(req, i + 1) == left[..|left| - 1]
  {
  }

  lemma ChosenStep(entry: Value, sidKeys: seq<int>, i: nat, parent: int, req: seq<int>, p: Platform)
    requires i < |sidKeys|
    ensures sidKeys[..i + 1] == sidKeys[..i] + [sidKeys[i]]
    ensures Chosen(entry, sidKeys[..i + 1], parent, req, p) <==>
      && Chosen(entry, sidKeys[..i], parent, req, p)
      && sidKeys[i] !in sidKeys[..i]
      && KeyFits(entry, sidKeys[i], parent, Requested(req, i), p)
  {
    var now, next := sidKeys[..i], sidKeys[..i + 1];
    assert next == now + [sidKeys[i]];
    if Chosen(entry, next, parent, req, p) {
      assert forall j :: 0 <= j < i ==> now[j] == next[j];
      assert next[i] == sidKeys[i];
    }
  }

  /** The outcome of looking through a list: `Unreadable` when a key leaf or the request's keys are missing. */
  datatype Pick = First(i: nat) | NoneFits | Unreadable

  ghost function PickFrom(es: seq<Value>, i: nat, sidKeys: seq<int>, parent: int, req: seq<int>, p: Platform): Pick
    decreases |es| - i
  {
    if i >= |es| then NoneFits
    else if req == [] || !Keyed(es[i], sidKeys, parent) then Unreadable
    else if Chosen(es[i], sidKeys, parent, req, p) then First(i)
    else PickFrom(es, i + 1, sidKeys, parent, req, p)
  }

  /** Entry `i` is the first one chosen, and the ones before it can be read. */
  ghost predicate IsFirst(es: seq<Value>, i: nat, sidKeys: seq<int>, parent: int, req: seq<int>, p: Platform) {
    && req != [] && i < |es| && Chosen(es[i], sidKeys, parent, req, p)
    && forall j :: 0 <= j < i ==> Keyed(es[j], sidKeys, parent) && !Chosen(es[j], sidKeys, parent, req, p)
  }

  lemma ChosenIsKeyed(entry: Value, sidKeys: seq<int>, parent: int, req: seq<int>, p: Platform)
    requires Chosen(entry, sidKeys, parent, req, p)
    ensures Keyed(entry, sidKeys, parent)
  {
    assert forall i :: 0 <= i < |sidKeys| ==> KeyFits(entry, sidKeys[i], parent, Requested(req, i), p);
  }

  lemma {:induction false} PicksFirst(es: seq<Value>, at: nat, i: nat, sidKeys: seq<int>, parent: int,
                                      req: seq<int>, p: Platform)
    requires at <= i && IsFirst(es, i, sidKeys, parent, req, p)
    ensures PickFrom(es, at, sidKeys, parent, req, p) == First(i)
    decreases i - at
  {
    hide Keyed, Chosen;
    assert Keyed(es[i], sidKeys, parent) by { ChosenIsKeyed(es[i], sidKeys, parent, req, p); }
    if at < i {
      PicksFirst(es, at + 1, i, sidKeys, parent, req, p);
    }
  }

  // ---------------------------------------------------------------- the descent

  /** `NotAnArray` is the source's NULL answer; `Broken` stands for a read through a NULL or mistyped pointer. */
  datatype Outcome = Answer(node: Value, keys: seq<int>) | NotAnArray | Broken

  /** The map with the one entry that answers a request. */
  function Wrapped(sid: int, node: Value): Value {
    Map(Put(NoObjects(), sid % TWO_64, node).0)
  }

  /** The answer is the finite map from the SID to its node. */
  lemma WrappedIsOneEntry(sid: int, node: Value)
    ensures WellPlaced(Wrapped(sid, node).table) && Contents(Wrapped(sid, node).table) == map[sid % TWO_64 := node]
  {
    EmptyTable();
    PutBinds(NoObjects(), sid % TWO_64, node);
    assert Length(NoObjects()[HashKey(sid % TWO_64)]) == 0;
  }

  /** Taking all request keys leaves the list as it was: an empty list is never copied back. */
  function CopiedBack(left: seq<int>, req: seq<int>): seq<int> {
    if left == [] then req else left
  }

  /**
   What the next list is asked: with request keys to spare, the ones before those this list has taken; otherwise the
   same ones again.
   */
  lemma NextAsked(req: seq<int>, n: nat, i: nat)
    ensures KeyWanted(CopiedBack(KeysLeft(req, n), req), i)
      == if n < |req| then (if n + i < |req| then req[|req| - 1 - n - i] else 0)
         else (if i < |req| then req[|req| - 1 - i] else 0)
  {
  }

  ghost function Descend(v: Value, prev: int, nodes: seq<PathNode>, req: seq<int>, p: Platform): Outcome
    decreases |nodes|
  {
    if nodes == [] || nodes[0].sid == 0 then Answer(Wrapped(prev, v), req)
    else
      var sid := nodes[0].sid;
      var sub := Leaf(v, sid, prev);
      if sub.None? then Broken
      else if nodes[0].sidKeys.None? || nodes[0].sidKeys.value == [] then Descend(sub.value, sid, nodes[1..], req, p)
      else if !sub.value.Array? then NotAnArray
      else
        var sidKeys := nodes[0].sidKeys.value;
        match PickFrom(sub.value.elems, 0, sidKeys, sid, req, p)
        case Unreadable => Broken
        case NoneFits => Descend(sub.value, sid, nodes[1..], req, p)
        case First(i) =>
          if i < |sub.value.elems|
          then Descend(sub.value.elems[i], sid, nodes[1..], CopiedBack(KeysLeft(req, |sidKeys|), req), p)
          else Broken
  }

  /** A keyed SID that is no list is refused; a list none of whose entries is chosen stands for itself. */
  lemma WithoutAnEntry(v: Value, sid: int, sidKeys: seq<int>, sub: Value, req: seq<int>, p: Platform)
    requires sid != 0 && sidKeys != [] && Leaf(v, sid, 0) == Some(sub)
    ensures var r := Descend(v, 0, [PathNode(sid, Some(sidKeys)), LastNode], req, p);
      && (!sub.Array? ==> r == NotAnArray)
      && (sub.Array? && req != []
          && (forall i :: 0 <= i < |sub.elems| ==>
                Keyed(sub.elems[i], sidKeys, sid) && !Chosen(sub.elems[i], sidKeys, sid, req, p))
          ==> r == Answer(Wrapped(sid, sub), req))
  {
    hide Leaf, Chosen, Keyed, Wrapped;
    var nodes := [PathNode(sid, Some(sidKeys)), LastNode];
    assert nodes[1..] == [LastNode];
    if sub.Array? && req != [] && forall i :: 0 <= i < |sub.elems| ==>
        Keyed(sub.elems[i], sidKeys, sid) && !Chosen(sub.elems[i], sidKeys, sid, req, p) {
      NoneFrom(sub.elems, 0, sidKeys, sid, req, p);
    }
  }

  lemma {:induction false} NoneFrom(es: seq<Value>, i: nat, sidKeys: seq<int>, parent: int, req: seq<int>, p: Platform)
    requires i <= |es| && req != []
    requires forall j :: 0 <= j < |es| ==>
      Keyed(es[j], sidKeys, parent) && !Chosen(es[j], sidKeys, parent, req, p)
    ensures PickFrom(es, i, sidKeys, parent, req, p) == NoneFits
    decreases |es| - i
  {
    hide Chosen, Keyed;
    if i < |es| {
      NoneFrom(es, i + 1, sidKeys, parent, req, p);
    }
  }

  /** The search for a list's entry: the entry to go on with, or the list itself. */
  method PickEntry(list: Value, sidKeys: seq<int>, parent: int, req: seq<int>, p: Platform)
    returns (ok: bool, sub: Value, left: seq<int>)
    requires forall s :: |p.sort(s)| == |s|
    requires list.Array? && sidKeys != []
    ensures ok <==> !PickFrom(list.elems, 0, sidKeys, parent, req, p).Unreadable?
    ensures ok ==> match PickFrom(list.elems, 0, sidKeys, parent, req, p)
                   case First(i) =>
                     && i < |list.elems| && sub == list.elems[i]
                     && left == CopiedBack(KeysLeft(req, |sidKeys|), req)
                   case _ => sub == list && left == req
  {
    hide Chosen, Keyed;
    sub, left := list, req;
    var i := 0;
    while i < |list.elems|
      invariant i <= |list.elems| && sub == list && left == req
      invariant PickFrom(list.elems, 0, sidKeys, parent, req, p) == PickFrom(list.elems, i, sidKeys, parent, req, p)
    {
      var readable := KeysReadable(list.elems[i], sidKeys, parent);
      if |req| == 0 || !readable {
        return false, sub, left;
      }
      var chosen, clone := MatchEntry(list.elems[i], sidKeys, parent, req, p);
      if chosen {
        return true, list.elems[i], if |clone| == 0 then req else clone;
      }
      i := i + 1;
    }
    ok := true;
  }

  method KeysReadable(entry: Value, sidKeys: seq<int>, parent: int) returns (ok: bool)
    ensures ok <==> Keyed(entry, sidKeys, parent)
  {
    var i := 0;
    while i < |sidKeys|
      invariant i <= |sidKeys|
      invariant forall j :: 0 <= j < i ==> Leaf(entry, sidKeys[j], parent).Some?
    {
      if Leaf(entry, sidKeys[i], parent).None? {
        return false;
      }
      i := i + 1;
    }
    ok := true;
  }

  method ExamineCoreconfValue(model: Value, req: seq<int>, nodes: seq<PathNode>, p: Platform) returns (r: Outcome)
    requires forall s :: |p.sort(s)| == |s|
    ensures r == Descend(model, 0, nodes, req, p)
  {
    hide Wrapped, Leaf, PickFrom;
    var subTree, previous, keys := model, 0, req;
    var at := 0;
    assert nodes[0..] == nodes;
    while at < |nodes| && nodes[at].sid != 0
      invariant at <= |nodes|
      invariant Descend(model, 0, nodes, req, p) == Descend(subTree, previous, nodes[at..], keys, p)
    {
      var node := nodes[at];
      assert nodes[at..][0] == node && nodes[at..][1..] == nodes[at + 1..];
      var sub := Leaf(subTree, node.sid, previous);
      if sub.None? {
        return Broken;
      }
      subTree, previous := sub.value, node.sid;
      if node.sidKeys.Some? && |node.sidKeys.value| > 0 {
        if !subTree.Array? {
          return NotAnArray;
        }
        var ok, entry, left := PickEntry(subTree, node.sidKeys.value, node.sid, keys, p);
        if !ok {
          return Broken;
        }
        subTree, keys := entry, left;
      }
      at := at + 1;
    }
    r := Answer(Wrapped(previous, subTree), keys);
  }

  // ---------------------------------------------------------------- from a SID to its subtree

  /**
   The node reached from `v` along `path`, stated on the finite maps the tables stand for: a container is
   entered by the delta of the next SID, a keyed list through the first entry the request chooses.
   */
  ghost predicate Route(v: Value, prev: int, path: seq<int>, keys: Index, req: seq<int>, node: Value, p: Platform)
    decreases |path|
  {
    if path == [] then v == node
    else
      && v.Map? && WellPlaced(v.table)
      && -TWO_63 <= path[0] < TWO_63
      && Delta(path[0], prev) in Contents(v.table)
      && var sub := Contents(v.table)[Delta(path[0], prev)];
      if path[0] !in keys || keys[path[0]] == [] then Route(sub, path[0], path[1..], keys, req, node, p)
      else sub.Array? && exists i ::
          && 0 <= i < |sub.elems| && IsFirst(sub.elems, i, keys[path[0]], path[0], req, p)
          && Route(sub.elems[i], path[0], path[1..], keys, CopiedBack(KeysLeft(req, |keys[path[0]]|), req), node, p)
  }

  /** Every entry of a container that a route leads to has a route itself: no node of a tree of containers is missed. */
  lemma {:induction false} RouteExtends(v: Value, prev: int, path: seq<int>, keys: Index, req: seq<int>, t: Table,
                                        key: nat, p: Platform)
    requires Route(v, prev, path, keys, req, Map(t), p) && WellPlaced(t) && key in Contents(t) && key < TWO_64
    requires var sid := Child(if path == [] then prev else path[|path| - 1], key); sid !in keys || keys[sid] == []
    ensures var sid := Child(if path == [] then prev else path[|path| - 1], key);
      Route(v, prev, path + [sid], keys, req, Contents(t)[key], p)
    decreases |path|
  {
    hide IsFirst, Contents, WellPlaced;
    var parent := if path == [] then prev else path[|path| - 1];
    var sid := Child(parent, key);
    if path == [] {
      DeltaOfChild(prev, key);
      assert (path + [sid])[1..] == [];
    } else {
      assert (path + [sid])[0] == path[0] && (path + [sid])[1..] == path[1..] + [sid];
      var sub := Contents(v.table)[Delta(path[0], prev)];
      if path[0] !in keys || keys[path[0]] == [] {
        RouteExtends(sub, path[0], path[1..], keys, req, t, key, p);
      } else {
        var left := CopiedBack(KeysLeft(req, |keys[path[0]]|), req);
        var i :| 0 <= i < |sub.elems| && IsFirst(sub.elems, i, keys[path[0]], path[0], req, p)
          && Route(sub.elems[i], path[0], path[1..], keys, left, Map(t), p);
        RouteExtends(sub.elems[i], path[0], path[1..], keys, left, t, key, p);
      }
    }
  }

  /** Through two lists with one key each, the last request key chooses in the outer list and the first in the inner. */
  lemma TwoLists(v: Value, prev: int, a: int, b: int, keys: Index, k1: int, k2: int, node: Value, p: Platform)
    requires Route(v, prev, [a, b], keys, [k2, k1], node, p)
    requires a in keys && |keys[a]| == 1 && b in keys && |keys[b]| == 1
    ensures exists outer ::
      && KeyFits(outer, keys[a][0], a, k1 % TWO_64, p)
      && KeyFits(node, keys[b][0], b, k2 % TWO_64, p)
  {
    hide Contents, WellPlaced, KeyFits;
    var sub := Contents(v.table)[Delta(a, prev)];
    var left := CopiedBack(KeysLeft([k2, k1], 1), [k2, k1]);
    assert left == [k2];
    assert [a, b][1..] == [b] && [b][1..] == [];
    var i :| 0 <= i < |sub.elems| && IsFirst(sub.elems, i, keys[a], a, [k2, k1], p)
      && Route(sub.elems[i], a, [b], keys, left, node, p);
    var outer := sub.elems[i];
    assert KeyFits(outer, keys[a][0], a, Requested([k2, k1], 0), p);
    var inner := Contents(outer.table)[Delta(b, a)];
    var j :| 0 <= j < |inner.elems| && IsFirst(inner.elems, j, keys[b], b, left, p)
      && Route(inner.elems[j], b, [], keys, CopiedBack(KeysLeft(left, 1), left), node, p);
    assert KeyFits(inner.elems[j], keys[b][0], b, Requested(left, 0), p);
  }

  lemma ChildOfDelta(sid: int, parent: int)
    requires -TWO_63 <= sid < TWO_63
    ensures Child(parent, Delta(sid, parent)) == sid
  {
    var q := (sid - parent) / TWO_64;
    assert parent + Delta(sid, parent) == sid - q * TWO_64;
    assert (sid + TWO_63 - q * TWO_64) % TWO_64 == sid + TWO_63 by {
      ModShift(sid + TWO_63, q);
    }
  }

  lemma {:induction false} FoundLeads(c: Chain, key: nat, parent: int, path: seq<int>)
    requires Find(c, key).Some? && path != [] && path[0] == Child(parent, key)
    requires |path| == 1 || Leads(Find(c, key).value, path[0], path[1..])
    ensures ChainLeads(c, parent, path)
  {
    if c.key != key {
      FoundLeads(c.next, key, parent, path);
    }
  }

  lemma LeafIsContent(v: Value, sid: int, prev: int)
    requires v.Map? && WellPlaced(v.table) && Delta(sid, prev) in Contents(v.table)
    ensures |v.table| == HASHMAP_TABLE_SIZE
    ensures Leaf(v, sid, prev) == Some(Contents(v.table)[Delta(sid, prev)]) == Get(v.table, Delta(sid, prev))
  {
    GetIsLookup(v.table, Delta(sid, prev));
  }

  /** A route is a path of the tree the index was built from. */
  lemma {:induction false} RouteLeads(v: Value, prev: int, path: seq<int>, keys: Index, req: seq<int>, node: Value,
                                      p: Platform)
    requires path != [] && Route(v, prev, path, keys, req, node, p)
    ensures Leads(v, prev, path)
    decreases |path|
  {
    hide IsFirst, Contents, WellPlaced;
    var key := Delta(path[0], prev);
    LeafIsContent(v, path[0], prev);
    ChildOfDelta(path[0], prev);
    var sub := Contents(v.table)[key];
    if |path| > 1 {
      if path[0] !in keys || keys[path[0]] == [] {
        RouteLeads(sub, path[0], path[1..], keys, req, node, p);
      } else {
        var left := CopiedBack(KeysLeft(req, |keys[path[0]]|), req);
        var i :| 0 <= i < |sub.elems| && IsFirst(sub.elems, i, keys[path[0]], path[0], req, p)
          && Route(sub.elems[i], path[0], path[1..], keys, left, node, p);
        RouteLeads(sub.elems[i], path[0], path[1..], keys, left, node, p);
      }
    }
    FoundLeads(v.table[HashKey(key)], key, prev, path);
  }

  /** The descent follows the route to its node. */
  lemma {:induction false} RouteDescends(v: Value, prev: int, path: seq<int>, keys: Index, req: seq<int>, node: Value,
                                         p: Platform)
    requires Route(v, prev, path, keys, req, node, p)
    requires forall i :: 0 <= i < |path| ==> path[i] != 0
    ensures var r := Descend(v, prev, NodesFor(path, keys) + [LastNode], req, p);
      r.Answer? && r.node == Wrapped(if path == [] then prev else path[|path| - 1], node)
    decreases |path|
  {
    hide IsFirst, Contents, Wrapped, PickFrom, WellPlaced, Leaf, Delta;
    if path != [] {
      var nodes := NodesFor(path, keys) + [LastNode];
      assert nodes[0] == NodeFor(path[0], keys) && nodes[1..] == NodesFor(path[1..], keys) + [LastNode];
      LeafIsContent(v, path[0], prev);
      var sub := Contents(v.table)[Delta(path[0], prev)];
      if path[0] !in keys || keys[path[0]] == [] {
        RouteDescends(sub, path[0], path[1..], keys, req, node, p);
      } else {
        var left := CopiedBack(KeysLeft(req, |keys[path[0]]|), req);
        var i :| 0 <= i < |sub.elems| && IsFirst(sub.elems, i, keys[path[0]], path[0], req, p)
          && Route(sub.elems[i], path[0], path[1..], keys, left, node, p);
        PicksFirst(sub.elems, 0, i, keys[path[0]], path[0], req, p);
        RouteDescends(sub.elems[i], path[0], path[1..], keys, left, node, p);
      }
    }
  }

  /** Linked paths avoid 0 where every SID is non-zero. */
  lemma RouteIsFound(idx: Index, model: Value, path: seq<int>, keys: Index, req: seq<int>, node: Value, p: Platform)
    requires Tidy(idx) && Recorded(idx) == Edges(model, 0) && OneParent(Edges(model, 0))
    requires path != [] && Route(model, 0, path, keys, req, node, p)
    ensures path[|path| - 1] != 0 && Climb(idx, path[|path| - 1]).0 == Some(path)
    ensures var r := Descend(model, 0, NodesFor(path, keys) + [LastNode], req, p);
      r.Answer? && r.node == Wrapped(path[|path| - 1], node)
  {
    hide Climb, Route, Descend, Leads, Edges, Tidy, Recorded, NodesFor, Wrapped;
    RouteLeads(model, 0, path, keys, req, node, p);
    FreshIndexFindsPath(idx, model, path);
    PathIsLinked(model, 0, path);
    forall i | 0 <= i < |path|
      ensures path[i] != 0
    {
      assert (path[i], if i == 0 then 0 else path[i - 1]) in Edges(model, 0);
    }
    RouteDescends(model, 0, path, keys, req, node, p);
  }

  /**
   The three steps of a retrieval in order. For every tree within the recursion limit in which each SID is
   non-zero and has one parent, the answer to a SID is the node its route leads to, by whatever keys.
   */
  method Retrieve(model: Value, keys: Index, sid: int, req: seq<int>, p: Platform) returns (r: Option<Outcome>)
    requires forall s :: |p.sort(s)| == |s|
    ensures Shallow(model, 0) && OneParent(Edges(model, 0)) ==>
      forall path, node ::
        path != [] && path[|path| - 1] == sid && Route(model, 0, path, keys, req, node, p) ==>
          r.Some? && r.value.Answer? && r.value.node == Wrapped(sid, node)
  {
    hide Climb, Route, Descend, Leads, Edges, Tidy, Recorded, NodesFor, Wrapped, Shallow, OneParent;
    EmptyIndex();
    var c := new Clookup();
    c.Build(model, 0, 0);
    ghost var idx := c.index;
    var nodes := FindRequirementForSid(c, keys, sid);
    if nodes.None? {
      r := None;
    } else {
      var answer := ExamineCoreconfValue(model, req, nodes.value, p);
      r := Some(answer);
    }
    if Shallow(model, 0) && OneParent(Edges(model, 0)) {
      forall path, node | path != [] && path[|path| - 1] == sid && Route(model, 0, path, keys, req, node, p)
        ensures r.Some? && r.value.Answer? && r.value.node == Wrapped(sid, node)
      {
        RouteIsFound(idx, model, path, keys, req, node, p);
      }
    }
  }

  lemma EmptyIndex()
    ensures Tidy(map[]) && Recorded(map[]) == {}
  {
  }
}
