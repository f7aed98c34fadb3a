/**
 SID-path lookup of src/coreconfManipulation.c: an index from child to parent SIDs built by walking a
 delta-SID tree, the ascent through it, and the descent through the tree along the path found.
 */
module Lookup {
  import opened Wrappers
  import opened Values

  // ---------------------------------------------------------------- SID arithmetic

  /** A 64-bit pattern read as a signed integer. */
  function ToInt64(n: int): int {
    (n + TWO_63) % TWO_64 - TWO_63
  }

  /** The absolute SID of a child stored under delta `key`. */
  function Child(parent: int, key: nat): (sid: int)
    ensures 0 <= parent + key < 0x8000_0000_0000_0000 ==> sid == parent + key
  {
    ToInt64(parent + key)
  }

  /** The delta of a child, as the unsigned key it is looked up by. */
  function Delta(child: int, parent: int): (key: nat)
    ensures 0 <= child - parent < 0x1_0000_0000_0000_0000 ==> key == child - parent
  {
    (child - parent) % TWO_64
  }

  lemma DeltaOfChild(parent: int, key: nat)
    requires key < TWO_64
    ensures Delta(Child(parent, key), parent) == key
  {
    var n := parent + key + TWO_63;
    assert n == n / TWO_64 * TWO_64 + n % TWO_64;
    assert Child(parent, key) - parent == key - n / TWO_64 * TWO_64;
    ModShift(key, n / TWO_64);
  }

  lemma ModShift(key: nat, q: int)
    requires key < TWO_64
    ensures (key - q * TWO_64) % TWO_64 == key
  {
  }

  // ---------------------------------------------------------------- the tree as a relation

  /** The index: each child SID with the parents recorded for it. */
  type Index = map<int, seq<int>>

  /** The child-parent pairs below a value whose own SID is `parent`. */
  ghost function Edges(v: Value, parent: int): set<(int, int)>
    decreases v
  {
    match v
    case Map(t) => TableEdges(t, 0, parent)
    case Array(es) => ElemEdges(es, 0, parent)
    case _ => {}
  }

  ghost function ElemEdges(es: seq<Value>, i: nat, parent: int): set<(int, int)>
    requires i <= |es|
    decreases es, |es| - i
  {
    if i == |es| then {} else Edges(es[i], parent) + ElemEdges(es, i + 1, parent)
  }

  ghost function TableEdges(t: Table, i: nat, parent: int): set<(int, int)>
    requires i <= |t|
    decreases t, |t| - i
  {
    if i == |t| then {} else ChainEdges(t[i], parent) + TableEdges(t, i + 1, parent)
  }

  ghost function ChainEdges(c: Chain, parent: int): set<(int, int)>
    decreases c
  {
    if c.End? then {}
    else {(Child(parent, c.key), parent)} + Edges(c.value, Child(parent, c.key)) + ChainEdges(c.next, parent)
  }

  const MAX_CORECONF_RECURSION_DEPTH: nat := 50

  /** No container lies deeper than the build recurses. */
  ghost predicate Shallow(v: Value, depth: nat)
    decreases v
  {
    match v
    case Map(t) => depth <= 50 && forall i :: 0 <= i < |t| ==> ShallowChain(t[i], depth + 1)
    case Array(es) => depth <= 50 && forall i :: 0 <= i < |es| ==> Shallow(es[i], depth + 1)
    case _ => true
  }

  ghost predicate ShallowChain(c: Chain, depth: nat)
    decreases c
  {
    c.Object? ==> Shallow(c.value, depth) && ShallowChain(c.next, depth)
  }

  /** The pairs an index records. */
  ghost function Recorded(idx: Index): set<(int, int)> {
    set c, i | c in idx && 0 <= i < |idx[c]| :: (c, idx[c][i])
  }

  /** No parent is recorded twice for a child. */
  ghost predicate Tidy(idx: Index) {
    forall c, i, j :: c in idx && 0 <= i < j < |idx[c]| ==> idx[c][i] != idx[c][j]
  }

  // ---------------------------------------------------------------- building the index

  method AddUniqueLong(list: seq<int>, value: int) returns (r: seq<int>)
    ensures r == if value in list then list else list + [value]
  {
    var i := 0;
    while i < |list|
      invariant i <= |list| && value !in list[..i]
    {
      if list[i] == value {
        return list;
      }
      i := i + 1;
    }
    assert list[..i] == list;
    r := list + [value];
  }

  class Clookup {
    var index: Index

    constructor ()
      ensures index == map[]
    {
      index := map[];
    }

    /** Records that `parent` is a parent of `child`. */
    method Record(child: int, parent: int)
      requires Tidy(index)
      modifies this
      ensures Tidy(index) && Recorded(index) == old(Recorded(index)) + {(child, parent)}
    {
      ghost var before := index;
      if child !in index {
        index := index[child := [parent]];
      } else {
        var list := AddUniqueLong(index[child], parent);
        index := index[child := list];
      }
      RecordedAfter(before, index, child, parent);
    }

    /** Without the depth limit in the way, exactly the pairs of the tree are added. */
    method Build(v: Value, parent: int, depth: nat)
      requires Tidy(index)
      modifies this
      ensures Tidy(index) && old(Recorded(index)) <= Recorded(index) <= old(Recorded(index)) + Edges(v, parent)
      ensures Shallow(v, depth) ==> Recorded(index) == old(Recorded(index)) + Edges(v, parent)
      ensures depth > 50 ==> index == old(index)
      decreases v, 0
    {
      hide Tidy, Recorded;
      if depth > MAX_CORECONF_RECURSION_DEPTH {
        return;
      }
      match v
      case Map(t) =>
        ghost var before := Recorded(index);
        var i := 0;
        while i < |t|
          invariant i <= |t| && Tidy(index)
          invariant before <= Recorded(index)
          invariant Recorded(index) + TableEdges(t, i, parent) <= before + TableEdges(t, 0, parent)
          invariant Shallow(v, depth) ==>
            Recorded(index) + TableEdges(t, i, parent) == before + TableEdges(t, 0, parent)
        {
          BuildChain(t[i], parent, depth);
          i := i + 1;
        }
      case Array(es) =>
        ghost var before := Recorded(index);
        var i := 0;
        while i < |es|
          invariant i <= |es| && Tidy(index)
          invariant before <= Recorded(index)
          invariant Recorded(index) + ElemEdges(es, i, parent) <= before + ElemEdges(es, 0, parent)
          invariant Shallow(v, depth) ==>
            Recorded(index) + ElemEdges(es, i, parent) == before + ElemEdges(es, 0, parent)
        {
          Build(es[i], parent, depth + 1);
          i := i + 1;
        }
      case _ =>
    }

    method BuildChain(c: Chain, parent: int, depth: nat)
      requires Tidy(index)
      modifies this
      ensures Tidy(index) && old(Recorded(index)) <= Recorded(index) <= old(Recorded(index)) + ChainEdges(c, parent)
      ensures ShallowChain(c, depth + 1) ==> Recorded(index) == old(Recorded(index)) + ChainEdges(c, parent)
      decreases c, 1
    {
      hide Tidy, Recorded;
      ghost var before := Recorded(index);
      var current := c;
      while current.Object?
        invariant Tidy(index) && (c nonincreases to current)
        invariant before <= Recorded(index)
        invariant Recorded(index) + ChainEdges(current, parent) <= before + ChainEdges(c, parent)
        invariant ShallowChain(c, depth + 1) ==>
          && ShallowChain(current, depth + 1)
          && Recorded(index) + ChainEdges(current, parent) == before + ChainEdges(c, parent)
        decreases current
      {
        var childSid := Child(parent, current.key);
        Record(childSid, parent);
        Build(current.value, childSid, depth + 1);
        current := current.next;
      }
    }
  }

  lemma RecordedAfter(before: Index, after: Index, child: int, parent: int)
    requires Tidy(before) && after.Keys == before.Keys + {child}
    requires forall c :: c in before && c != child ==> after[c] == before[c]
    requires child !in before ==> after[child] == [parent]
    requires child in before ==>
      after[child] == if parent in before[child] then before[child] else before[child] + [parent]
    ensures Tidy(after) && Recorded(after) == Recorded(before) + {(child, parent)}
  {
    forall p | p in Recorded(before)
      ensures p in Recorded(after)
    {
      var c, i :| c in before && 0 <= i < |before[c]| && p == (c, before[c][i]);
      assert after[c][i] == before[c][i];
    }
    assert (child, parent) in Recorded(after) by {
      var i :| 0 <= i < |after[child]| && after[child][i] == parent;
    }
    forall p | p in Recorded(after)
      ensures p in Recorded(before) + {(child, parent)}
    {
      var c, i :| c in after && 0 <= i < |after[c]| && p == (c, after[c][i]);
      if c in before && i < |before[c]| {
        assert p == (c, before[c][i]);
      }
    }
  }

  // ---------------------------------------------------------------- the ascent

  /** One entry per stored parent: what an ascent uses up. */
  ghost function Stock(idx: Index): set<(int, int)> {
    set c, i | c in idx && 0 <= i < |idx[c]| :: (c, i)
  }

  function Popped(idx: Index, sid: int): Index
    requires sid in idx && idx[sid] != []
  {
    idx[sid := idx[sid][..|idx[sid]| - 1]]
  }

  lemma PopShrinks(idx: Index, sid: int)
    requires sid in idx && idx[sid] != []
    ensures Stock(Popped(idx, sid)) < Stock(idx)
  {
    var last := |idx[sid]| - 1;
    assert (sid, last) in Stock(idx) && (sid, last) !in Stock(Popped(idx, sid));
  }

  /**
   The SIDs from the root down to `sid` that the index yields, and the index afterwards: every step pops
   the parent it follows. A step ends the ascent when the parents of its SID are used up or the parent is 0.
   */
  ghost function Climb(idx: Index, sid: int): (r: (Option<seq<int>>, Index))
    decreases Stock(idx)
  {
    if sid == 0 then (Some([]), idx)
    else if sid !in idx then (None, idx)
    else if idx[sid] == [] then (Some([sid]), idx)
    else
      PopShrinks(idx, sid);
      var (path, rest) := Climb(Popped(idx, sid), idx[sid][|idx[sid]| - 1]);
      (if path.Some? then Some(path.value + [sid]) else None, rest)
  }

  /** One step of a path: a SID with the key SIDs of its list, if it has any. A SID of 0 closes the path. */
  datatype PathNode = PathNode(sid: int, sidKeys: Option<seq<int>>)

  const LastNode := PathNode(0, None)

  function NodeFor(sid: int, keys: Index): PathNode {
    PathNode(sid, if sid in keys then Some(keys[sid]) else None)
  }

  ghost function NodesFor(path: seq<int>, keys: Index): seq<PathNode> {
    seq(|path|, i requires 0 <= i < |path| => NodeFor(path[i], keys))
  }

  lemma NodesOf(sid: int, below: seq<int>, keys: Index)
    ensures NodesFor([sid] + below, keys) == [NodeFor(sid, keys)] + NodesFor(below, keys)
    ensures below == [] ==> NodesFor(below, keys) == []
  {
  }

  /** Ends on every index, parent cycles included: each round pops a stored parent or stops. */
  method FindRequirementForSid(c: Clookup, keys: Index, sid: int) returns (path: Option<seq<PathNode>>)
    modifies c
    ensures var r := Climb(old(c.index), sid);
      && c.index == r.1 && path.Some? == r.0.Some?
      && (path.Some? ==> path.value == NodesFor(if sid == 0 then [0] else r.0.value, keys) + [LastNode])
  {
    hide Climb, Stock, NodesFor, NodeFor;
    NodesOf(sid, [], keys);
    var nodes := [NodeFor(sid, keys), LastNode];
    var current := sid;
    ghost var below: seq<int> := [];
    ghost var whole := Climb(c.index, sid);
    while current != 0
      invariant nodes == NodesFor(if current == 0 && sid != 0 then below else [current] + below, keys) + [LastNode]
      invariant sid == 0 ==> current == 0 && below == []
      invariant Continues(whole, Climb(c.index, current), below)
      decreases Stock(c.index), current != 0
    {
      ClimbStep(whole, c.index, current, below);
      if current !in c.index {
        return None;
      }
      var parent := 0;
      if |c.index[current]| > 0 {
        PopShrinks(c.index, current);
        parent := c.index[current][|c.index[current]| - 1];
        c.index := Popped(c.index, current);
      }
      below := [current] + below;
      if parent != 0 {
        NodesOf(parent, below, keys);
        nodes := [NodeFor(parent, keys)] + nodes;
      }
      current := parent;
    }
    path := Some(nodes);
    assert sid == 0 ==> [current] + below == [0];
    ClimbEnds(whole, c.index, below);
  }

  /** An answer made of what remains to be climbed and the path below it. */
  ghost predicate Continues(whole: (Option<seq<int>>, Index), rest: (Option<seq<int>>, Index), below: seq<int>) {
    && whole.1 == rest.1 && whole.0.Some? == rest.0.Some?
    && (whole.0.Some? ==> whole.0.value == rest.0.value + below)
  }

  lemma ClimbStep(whole: (Option<seq<int>>, Index), idx: Index, sid: int, below: seq<int>)
    requires sid != 0 && Continues(whole, Climb(idx, sid), below)
    ensures sid !in idx ==> whole == (None, idx)
    ensures sid in idx && idx[sid] == [] ==> Continues(whole, Climb(idx, 0), [sid] + below)
    ensures sid in idx && idx[sid] != [] ==>
      Continues(whole, Climb(Popped(idx, sid), idx[sid][|idx[sid]| - 1]), [sid] + below)
  {
    hide Climb;
    ClimbUnfolds(idx, sid);
    if sid in idx && Continues(whole, Climb(idx, sid), below) && whole.0.Some? {
      if idx[sid] == [] {
        assert [sid] + below == [] + ([sid] + below);
      } else {
        var above := Climb(Popped(idx, sid), idx[sid][|idx[sid]| - 1]).0.value;
        assert above + [sid] + below == above + ([sid] + below);
      }
    }
  }

  lemma ClimbUnfolds(idx: Index, sid: int)
    requires sid != 0
    ensures Climb(idx, 0) == (Some([]), idx)
    ensures sid !in idx ==> Climb(idx, sid) == (None, idx)
    ensures sid in idx && idx[sid] == [] ==> Climb(idx, sid) == (Some([sid]), idx)
    ensures sid in idx && idx[sid] != [] ==>
      var up := Climb(Popped(idx, sid), idx[sid][|idx[sid]| - 1]);
      Climb(idx, sid) == (if up.0.Some? then Some(up.0.value + [sid]) else None, up.1)
  {
    if sid in idx && idx[sid] != [] {
      PopShrinks(idx, sid);
    }
  }

  lemma ClimbEnds(whole: (Option<seq<int>>, Index), idx: Index, below: seq<int>)
    requires Continues(whole, Climb(idx, 0), below)
    ensures whole == (Some(below), idx)
  {
    assert [] + below == below;
  }

  // ---------------------------------------------------------------- paths of a tree

  /** Some node is reached from `v`, whose SID is `parent`, along the absolute SIDs of `path`. */
  ghost predicate Leads(v: Value, parent: int, path: seq<int>)
    decreases v
  {
    match v
    case Map(t) => exists i :: 0 <= i < |t| && ChainLeads(t[i], parent, path)
    case Array(es) => exists i :: 0 <= i < |es| && Leads(es[i], parent, path)
    case _ => false
  }

  ghost predicate ChainLeads(c: Chain, parent: int, path: seq<int>)
    decreases c
  {
    c.Object? && path != [] &&
    ((path[0] == Child(parent, c.key) && (|path| == 1 || Leads(c.value, path[0], path[1..])))
     || ChainLeads(c.next, parent, path))
  }

  /** Consecutive SIDs of a path, from `parent` on, are pairs of `edges`. */
  ghost predicate Linked(edges: set<(int, int)>, parent: int, path: seq<int>) {
    path != [] ==> (path[0], parent) in edges && forall i :: 0 < i < |path| ==> (path[i], path[i - 1]) in edges
  }

  lemma {:induction false} PathIsLinked(v: Value, parent: int, path: seq<int>)
    requires Leads(v, parent, path)
    ensures path != [] && Linked(Edges(v, parent), parent, path)
    decreases v, 1
  {
    match v
    case Map(t) =>
      var i :| 0 <= i < |t| && ChainLeads(t[i], parent, path);
      ChainPathIsLinked(t[i], parent, path);
      TableHasChain(t, 0, i, parent);
    case Array(es) =>
      var i :| 0 <= i < |es| && Leads(es[i], parent, path);
      PathIsLinked(es[i], parent, path);
      ElemsHaveElem(es, 0, i, parent);
  }

  lemma {:induction false} ChainPathIsLinked(c: Chain, parent: int, path: seq<int>)
    requires ChainLeads(c, parent, path)
    ensures path != [] && Linked(ChainEdges(c, parent), parent, path)
    decreases c, 0
  {
    if ChainLeads(c.next, parent, path) {
      ChainPathIsLinked(c.next, parent, path);
    } else if |path| > 1 {
      PathIsLinked(c.value, path[0], path[1..]);
      forall i | 0 < i < |path|
        ensures (path[i], path[i - 1]) in ChainEdges(c, parent)
      {
        if i > 1 {
          assert (path[1..][i - 1], path[1..][i - 2]) in Edges(c.value, path[0]);
        }
      }
    }
  }

  lemma {:induction false} TableHasChain(t: Table, i: nat, j: nat, parent: int)
    requires i <= j < |t|
    ensures ChainEdges(t[j], parent) <= TableEdges(t, i, parent)
    decreases j - i
  {
    if i < j {
      TableHasChain(t, i + 1, j, parent);
    }
  }

  lemma {:induction false} ElemsHaveElem(es: seq<Value>, i: nat, j: nat, parent: int)
    requires i <= j < |es|
    ensures Edges(es[j], parent) <= ElemEdges(es, i, parent)
    decreases j - i
  {
    if i < j {
      ElemsHaveElem(es, i + 1, j, parent);
    }
  }

  /** Every absolute SID is non-zero and has one parent. */
  ghost predicate OneParent(edges: set<(int, int)>) {
    && (forall e :: e in edges ==> e.0 != 0)
    && (forall e, f :: e in edges && f in edges && e.0 == f.0 ==> e.1 == f.1)
  }

  lemma OnlyParent(idx: Index, edges: set<(int, int)>, child: int, parent: int)
    requires Tidy(idx) && Recorded(idx) == edges && OneParent(edges) && (child, parent) in edges
    ensures child in idx && idx[child] == [parent]
  {
    var c, i :| c in idx && 0 <= i < |idx[c]| && (child, parent) == (c, idx[c][i]);
    forall j | 0 <= j < |idx[child]|
      ensures idx[child][j] == parent && j == i
    {
      assert (child, idx[child][j]) in Recorded(idx);
    }
    assert idx[child][0] == parent && idx[child][|idx[child]| - 1] == parent;
  }

  /** With one parent per SID, no SID comes twice on a path from the root. */
  lemma {:induction false} PathDistinct(edges: set<(int, int)>, path: seq<int>, i: nat, j: nat)
    requires OneParent(edges) && Linked(edges, 0, path) && i < j < |path|
    ensures path[i] != path[j]
    decreases i
  {
    assert (path[j], path[j - 1]) in edges;
    assert path[j - 1] != 0 by {
      assert (path[j - 1], if j == 1 then 0 else path[j - 2]) in edges;
    }
    assert (path[i], if i == 0 then 0 else path[i - 1]) in edges;
    if i > 0 {
      PathDistinct(edges, path, i - 1, j - 1);
    }
  }

  /** The index still holds the only parent of each of the first `n` SIDs of a path. */
  ghost predicate Intact(idx: Index, path: seq<int>, n: nat)
    requires n <= |path|
  {
    forall i :: 0 <= i < n ==> path[i] in idx && idx[path[i]] == [if i == 0 then 0 else path[i - 1]]
  }

  lemma ClimbOnce(idx: Index, sid: int, parent: int)
    requires sid != 0 && sid in idx && idx[sid] == [parent]
    ensures Popped(idx, sid) == idx[sid := []] && Climb(idx, sid).1 == Climb(Popped(idx, sid), parent).1
    ensures Climb(Popped(idx, sid), parent).0.Some? ==>
      Climb(idx, sid).0 == Some(Climb(Popped(idx, sid), parent).0.value + [sid])
    ensures parent == 0 ==> Climb(idx, sid) == (Some([sid]), Popped(idx, sid))
  {
    hide Climb;
    ClimbUnfolds(idx, sid);
    ClimbUnfolds(Popped(idx, sid), sid);
    assert [] + [sid] == [sid];
  }

  /** The index with the parents of the first `n` SIDs of a path used up. */
  function Emptied(idx: Index, path: seq<int>, n: nat): Index
    requires n <= |path|
    decreases n
  {
    if n == 0 then idx else Emptied(idx[path[n - 1] := []], path, n - 1)
  }

  lemma {:induction false} EmptiedAt(idx: Index, path: seq<int>, n: nat, sid: int)
    requires n <= |path|
    ensures var r := Emptied(idx, path, n);
      if sid in path[..n] then sid in r && r[sid] == []
      else (sid in r <==> sid in idx) && (sid in r ==> r[sid] == idx[sid])
    decreases n
  {
    if n > 0 {
      assert path[..n] == path[..n - 1] + [path[n - 1]];
      EmptiedAt(idx[path[n - 1] := []], path, n - 1, sid);
    }
  }

  lemma {:induction false} ClimbsPath(idx: Index, edges: set<(int, int)>, path: seq<int>, n: nat)
    requires OneParent(edges) && Linked(edges, 0, path) && 0 < n <= |path| && Intact(idx, path, n)
    ensures Climb(idx, path[n - 1]) == (Some(path[..n]), Emptied(idx, path, n))
    decreases n
  {
    hide Climb, Popped;
    var sid, parent := path[n - 1], if n == 1 then 0 else path[n - 2];
    assert (sid, parent) in edges;
    assert path[n - 1] in idx && idx[path[n - 1]] == [if n - 1 == 0 then 0 else path[n - 1 - 1]];
    ClimbOnce(idx, sid, parent);
    var popped := Popped(idx, sid);
    if n == 1 {
      assert path[..1] == [sid];
    } else {
      forall i | 0 <= i < n - 1
        ensures path[i] in popped && popped[path[i]] == [if i == 0 then 0 else path[i - 1]]
      {
        PathDistinct(edges, path, i, n - 1);
      }
      ClimbsPath(popped, edges, path, n - 1);
      assert path[..n] == path[..n - 1] + [sid];
    }
  }

  lemma FreshIsIntact(idx: Index, edges: set<(int, int)>, path: seq<int>)
    requires Tidy(idx) && Recorded(idx) == edges && OneParent(edges) && Linked(edges, 0, path)
    ensures Intact(idx, path, |path|)
  {
    hide Recorded, Tidy, OneParent;
    forall i | 0 <= i < |path|
      ensures path[i] in idx && idx[path[i]] == [if i == 0 then 0 else path[i - 1]]
    {
      OnlyParent(idx, edges, path[i], if i == 0 then 0 else path[i - 1]);
    }
  }

  /** A fresh index of a tree yields exactly the root-to-node chain of every node, using it up. */
  lemma FreshIndexFindsPath(idx: Index, model: Value, path: seq<int>)
    requires Tidy(idx) && Recorded(idx) == Edges(model, 0) && OneParent(Edges(model, 0)) && Leads(model, 0, path)
    ensures path != [] && path[|path| - 1] != 0
    ensures Climb(idx, path[|path| - 1]).0 == Some(path)
    ensures forall i :: 0 <= i < |path| ==>
      path[i] in Climb(idx, path[|path| - 1]).1 && Climb(idx, path[|path| - 1]).1[path[i]] == []
  {
    var edges := Edges(model, 0);
    PathIsLinked(model, 0, path);
    FreshIsIntact(idx, edges, path);
    ClimbsPath(idx, edges, path, |path|);
    assert path[..|path|] == path;
    forall i | 0 <= i < |path|
      ensures path[i] in Emptied(idx, path, |path|) && Emptied(idx, path, |path|)[path[i]] == []
    {
      EmptiedAt(idx, path, |path|, path[i]);
    }
    var last := |path| - 1;
    assert (path[last], if last == 0 then 0 else path[last - 1]) in edges;
  }

  /** Of two parents recorded for a SID the newer one is followed, and the older one is left for the next lookup. */
  lemma NewestParentFirst(child: int, older: int, newer: int)
    requires child != 0 && older != 0 && newer != 0 && child != older && child != newer && older != newer
    ensures var idx: Index := map[child := [older, newer], older := [0], newer := [0]];
      && Climb(idx, child).0 == Some([newer, child])
      && Climb(idx, child).1 == map[child := [older], older := [0], newer := []]
  {
    hide Climb;
    var idx: Index := map[child := [older, newer], older := [0], newer := [0]];
    var once := Popped(idx, child);
    assert [older, newer][..1] == [older] && [0][..0] == [];
    assert once == map[child := [older], older := [0], newer := [0]];
    ClimbUnfolds(idx, child);
    ClimbUnfolds(once, newer);
    ClimbUnfolds(Popped(once, newer), child);
    assert [] + [newer] + [child] == [newer, child];
  }

  /** A second lookup of the same SID finds its parents gone and answers with the SID alone. */
  lemma SecondLookupIsCutShort(idx: Index, model: Value, path: seq<int>)
    requires Tidy(idx) && Recorded(idx) == Edges(model, 0) && OneParent(Edges(model, 0)) && Leads(model, 0, path)
    ensures path != []
    ensures var sid := path[|path| - 1];
      Climb(Climb(idx, sid).1, sid).0 == Some([sid])
    ensures var sid := path[|path| - 1];
      Climb(Climb(idx, sid).1, sid).0 == Some(path) <==> |path| == 1
  {
    FreshIndexFindsPath(idx, model, path);
    assert |path| == 1 ==> path == [path[0]];
  }
}
