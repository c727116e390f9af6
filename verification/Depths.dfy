/**
 The fallback layout of `quickcheck.py`: nodes are put on layers by a
 breadth-first search from the roots of the graph.
 */
module Depths {
  import opened Collections
  import opened Graphs
  import opened Names

  datatype Entry = Entry(node: Name, depth: nat)

  /** A walk of `d` edges leads from one of the roots to `v`. */
  ghost predicate Reaches(succ: Adjacency<Name>, roots: set<Name>, v: Name, d: nat)
    decreases d
  {
    if d == 0 then v in roots else exists u :: Leads(succ, u, v) && Reaches(succ, roots, u, d - 1)
  }

  ghost predicate Leads(succ: Adjacency<Name>, u: Name, v: Name) {
    u in succ && v in succ[u]
  }

  ghost predicate Reachable(succ: Adjacency<Name>, roots: set<Name>, v: Name) {
    exists d: nat :: Reaches(succ, roots, v, d)
  }

  /** `d` is the distance of `v` from the nearest root. */
  ghost predicate IsDistance(succ: Adjacency<Name>, roots: set<Name>, v: Name, d: nat) {
    Reaches(succ, roots, v, d) && forall e: nat :: e < d ==> !Reaches(succ, roots, v, e)
  }

  lemma {:induction false} FewerRoots(succ: Adjacency<Name>, few: set<Name>, many: set<Name>, v: Name, d: nat)
    requires few <= many && Reaches(succ, few, v, d)
    ensures Reaches(succ, many, v, d)
    decreases d
  {
    if d > 0 {
      var u :| Leads(succ, u, v) && Reaches(succ, few, u, d - 1);
      FewerRoots(succ, few, many, u, d - 1);
    }
  }

  // ----- roots

  function InDegree(succ: Adjacency<Name>, v: Name): nat {
    |set u | u in succ && v in succ[u]|
  }

  /** A graph without edges has no predecessors, and a new edge adds one to its end and to no other node. */
  lemma InDegreeCounts(succ: Adjacency<Name>, u: Name, w: Name, v: Name)
    requires w !in GetOr(succ, u, [])
    ensures EdgesOf(succ) == {} ==> InDegree(succ, v) == 0
    ensures InDegree(succ[u := GetOr(succ, u, []) + [w]], v) == InDegree(succ, v) + if v == w then 1 else 0
  {
    var more := succ[u := GetOr(succ, u, []) + [w]];
    var before, after := set x | x in succ && v in succ[x], set x | x in more && v in more[x];
    if v == w {
      assert after == before + {u} && u !in before;
    } else {
      assert after == before;
    }
    forall x | x in before ensures EdgesOf(succ) != {} {
      var i :| 0 <= i < |succ[x]| && succ[x][i] == v;
      assert (x, succ[x][i]) in EdgesOf(succ);
    }
  }

  /** No node has fewer predecessors. */
  ghost predicate IsLeast(succ: Adjacency<Name>, v: Name) {
    v in succ && forall w :: w in succ ==> InDegree(succ, v) <= InDegree(succ, w)
  }

  /** Nodes without predecessors, or else those with the fewest. */
  method ChooseRoots(order: seq<Name>, succ: Adjacency<Name>) returns (roots: seq<Name>)
    requires forall v :: v in order <==> v in succ
    ensures forall v :: v in roots <==> IsLeast(succ, v)
    ensures |order| > 0 ==> |roots| > 0
  {
    hide InDegree;
    roots := KeepDegree(order, succ, 0);
    if |roots| == 0 && |order| > 0 {
      var fewest := FewestPredecessors(order, succ);
      roots := KeepDegree(order, succ, fewest);
    } else if |roots| > 0 {
      assert roots[0] in roots;
    }
  }

  method FewestPredecessors(order: seq<Name>, succ: Adjacency<Name>) returns (fewest: nat)
    requires |order| > 0
    ensures exists v :: v in order && InDegree(succ, v) == fewest
    ensures forall v :: v in order ==> fewest <= InDegree(succ, v)
  {
    hide InDegree;
    fewest := InDegree(succ, order[0]);
    ghost var at := order[0];
    for i := 0 to |order|
      invariant at in order && InDegree(succ, at) == fewest
      invariant forall j :: 0 <= j < i ==> fewest <= InDegree(succ, order[j])
    {
      if InDegree(succ, order[i]) < fewest {
        fewest, at := InDegree(succ, order[i]), order[i];
      }
    }
  }

  method KeepDegree(order: seq<Name>, succ: Adjacency<Name>, degree: nat) returns (kept: seq<Name>)
    ensures forall v :: v in kept <==> v in order && InDegree(succ, v) == degree
  {
    hide InDegree;
    kept := [];
    for i := 0 to |order|
      invariant forall v :: v in kept <==> v in order[..i] && InDegree(succ, v) == degree
    {
      assert order[..i + 1] == order[..i] + [order[i]];
      if InDegree(succ, order[i]) == degree {
        kept := kept + [order[i]];
      }
    }
    assert order[..|order|] == order;
  }

  // ----- the search

  /** `v` has been, or is about to be, given a depth of at most `d`. */
  ghost predicate Covered(queue: seq<Entry>, depth: map<Name, nat>, v: Name, d: nat) {
    (v in depth && depth[v] <= d) || exists i :: 0 <= i < |queue| && queue[i].node == v && queue[i].depth <= d
  }

  ghost predicate EntryOk(succ: Adjacency<Name>, roots: set<Name>, v: Name, d: nat) {
    v in succ && Reaches(succ, roots, v, d)
  }

  /** Depths are walk lengths. */
  ghost predicate Sound(succ: Adjacency<Name>, roots: set<Name>, queue: seq<Entry>, depth: map<Name, nat>) {
    && (forall i :: 0 <= i < |queue| ==> EntryOk(succ, roots, queue[i].node, queue[i].depth))
    && (forall v :: v in depth ==> EntryOk(succ, roots, v, depth[v]))
  }

  /** The queue is sorted and spans at most two layers, none below the visited nodes. */
  ghost predicate Layered(queue: seq<Entry>, depth: map<Name, nat>) {
    && (forall i, j :: 0 <= i < j < |queue| ==> queue[i].depth <= queue[j].depth <= queue[i].depth + 1)
    && (forall v, i :: v in depth && 0 <= i < |queue| ==> depth[v] <= queue[i].depth)
  }

  /** Roots and successors of visited nodes are covered. */
  ghost predicate Done(succ: Adjacency<Name>, roots: set<Name>, queue: seq<Entry>, depth: map<Name, nat>) {
    && (forall r :: r in roots ==> Covered(queue, depth, r, 0))
    && (forall u, v :: u in depth && Leads(succ, u, v) ==> Covered(queue, depth, v, depth[u] + 1))
  }

  /** The same while a node is being visited, apart from its successors still `missing`. */
  ghost predicate Complete(succ: Adjacency<Name>, roots: set<Name>, queue: seq<Entry>, depth: map<Name, nat>,
                           node: Name, missing: seq<Name>)
  {
    && (forall r :: r in roots ==> Covered(queue, depth, r, 0))
    && (forall u, v ::
        u in depth && Leads(succ, u, v) && !(u == node && v in missing) ==> Covered(queue, depth, v, depth[u] + 1))
  }

  /** Between two visits. */
  ghost predicate Searching(succ: Adjacency<Name>, roots: set<Name>, queue: seq<Entry>, depth: map<Name, nat>) {
    Sound(succ, roots, queue, depth) && Layered(queue, depth) && Done(succ, roots, queue, depth)
  }

  /** During the visit of a node, the deepest one so far. */
  ghost predicate Visiting(succ: Adjacency<Name>, roots: set<Name>, queue: seq<Entry>, depth: map<Name, nat>,
                           node: Name, missing: seq<Name>)
  {
    && node in succ && node in depth
    && Sound(succ, roots, queue, depth) && Layered(queue, depth) && Complete(succ, roots, queue, depth, node, missing)
    && (forall v :: v in depth ==> depth[v] <= depth[node])
    && (forall i :: 0 <= i < |queue| ==> queue[i].depth <= depth[node] + 1)
  }

  lemma PopVisited(succ: Adjacency<Name>, roots: set<Name>, queue: seq<Entry>, depth: map<Name, nat>)
    requires |queue| > 0 && Searching(succ, roots, queue, depth) && queue[0].node in depth
    ensures Searching(succ, roots, queue[1..], depth)
  {
    hide Reaches;
    forall v, d: nat | Covered(queue, depth, v, d) ensures Covered(queue[1..], depth, v, d) {
      if !(v in depth && depth[v] <= d) {
        var i :| 0 <= i < |queue| && queue[i].node == v && queue[i].depth <= d;
        assert i > 0 && queue[1..][i - 1] == queue[i];
      }
    }
  }

  lemma PopNew(succ: Adjacency<Name>, roots: set<Name>, queue: seq<Entry>, depth: map<Name, nat>)
    requires |queue| > 0 && Searching(succ, roots, queue, depth) && queue[0].node !in depth
    ensures queue[0].node in succ
    ensures Visiting(succ, roots, queue[1..], depth[queue[0].node := queue[0].depth], queue[0].node,
                     succ[queue[0].node])
  {
    hide Reaches;
    var head := queue[0];
    var depth' := depth[head.node := head.depth];
    assert EntryOk(succ, roots, head.node, head.depth);
    forall v, e: nat | Covered(queue, depth, v, e) ensures Covered(queue[1..], depth', v, e) {
      if !(v in depth && depth[v] <= e) {
        var i :| 0 <= i < |queue| && queue[i].node == v && queue[i].depth <= e;
        if i > 0 {
          assert queue[1..][i - 1] == queue[i];
        }
      }
    }
  }

  lemma PushOne(succ: Adjacency<Name>, roots: set<Name>, queue: seq<Entry>, depth: map<Name, nat>, node: Name,
                missing: seq<Name>, queue': seq<Entry>)
    requires node in depth && |missing| > 0 && Complete(succ, roots, queue, depth, node, missing)
    requires queue' == (if missing[0] in depth then queue else queue + [Entry(missing[0], depth[node] + 1)])
    requires missing[0] in depth ==> depth[missing[0]] <= depth[node] + 1
    ensures Complete(succ, roots, queue', depth, node, missing[1..])
  {
    forall v, d: nat | Covered(queue, depth, v, d) ensures Covered(queue', depth, v, d) {
      if !(v in depth && depth[v] <= d) {
        var i :| 0 <= i < |queue| && queue[i].node == v && queue[i].depth <= d;
        assert queue'[i] == queue[i];
      }
    }
    if missing[0] !in depth {
      assert queue'[|queue|] == Entry(missing[0], depth[node] + 1);
    }
    assert Covered(queue', depth, missing[0], depth[node] + 1);
    assert missing == [missing[0]] + missing[1..];
  }

  /** Once the queue is empty, every walk is at least as long as the depth of its end. */
  lemma {:induction false} WalksAreLonger(succ: Adjacency<Name>, roots: set<Name>, depth: map<Name, nat>, v: Name,
                                          d: nat)
    requires Done(succ, roots, [], depth) && Reaches(succ, roots, v, d)
    ensures v in depth && depth[v] <= d
    decreases d
  {
    if d == 0 {
      assert Covered([], depth, v, 0);
    } else {
      var u :| Leads(succ, u, v) && Reaches(succ, roots, u, d - 1);
      WalksAreLonger(succ, roots, depth, u, d - 1);
      assert Covered([], depth, v, depth[u] + 1);
    }
  }

  lemma OneStepFurther(succ: Adjacency<Name>, roots: set<Name>, u: Name, v: Name, d: nat)
    requires Reaches(succ, roots, u, d) && Leads(succ, u, v)
    ensures Reaches(succ, roots, v, d + 1)
  {
  }

  lemma PushSound(succ: Adjacency<Name>, roots: set<Name>, queue: seq<Entry>, depth: map<Name, nat>, node: Name,
                  missing: seq<Name>, queue': seq<Entry>)
    requires Closed(succ) && Visiting(succ, roots, queue, depth, node, missing) && |missing| > 0 &&
             missing[0] in succ[node]
    requires queue' == (if missing[0] in depth then queue else queue + [Entry(missing[0], depth[node] + 1)])
    ensures Visiting(succ, roots, queue', depth, node, missing[1..])
  {
    if missing[0] !in depth {
      PushEntryOk(succ, roots, queue, depth, node, missing[0]);
      PushLayered(queue, depth, queue'[|queue|], node);
    }
    hide Reaches, Covered, Closed, Sound, Layered;
    PushOne(succ, roots, queue, depth, node, missing, queue');
  }

  lemma PushEntryOk(succ: Adjacency<Name>, roots: set<Name>, queue: seq<Entry>, depth: map<Name, nat>, node: Name,
                    v: Name)
    requires Closed(succ) && Sound(succ, roots, queue, depth) && node in depth && node in succ && v in succ[node]
    ensures Sound(succ, roots, queue + [Entry(v, depth[node] + 1)], depth)
  {
    assert EntryOk(succ, roots, node, depth[node]);
    OneStepFurther(succ, roots, node, v, depth[node]);
    assert EntryOk(succ, roots, v, depth[node] + 1);
    hide EntryOk;
  }

  lemma PushLayered(queue: seq<Entry>, depth: map<Name, nat>, entry: Entry, node: Name)
    requires node in depth && Layered(queue, depth) && entry.depth == depth[node] + 1
    requires forall v :: v in depth ==> depth[v] <= depth[node]
    requires forall i :: 0 <= i < |queue| ==> queue[i].depth <= depth[node] + 1
    ensures Layered(queue + [entry], depth)
    ensures forall i :: 0 <= i < |queue + [entry]| ==> (queue + [entry])[i].depth <= depth[node] + 1
  {
  }

  /** Visits a new node: appends its unvisited successors to the queue. */
  method PushSuccessors(succ: Adjacency<Name>, ghost roots: set<Name>, queue0: seq<Entry>, depth: map<Name, nat>,
                        node: Name)
    returns (queue: seq<Entry>)
    requires Closed(succ) && node in succ && Visiting(succ, roots, queue0, depth, node, succ[node])
    ensures Searching(succ, roots, queue, depth)
  {
    queue := queue0;
    var next := succ[node];
    assert node in depth && next[0..] == next;
    hide Visiting, Closed;
    for i := 0 to |next|
      invariant Visiting(succ, roots, queue, depth, node, next[i..])
    {
      ghost var before := queue;
      if next[i] !in depth {
        queue := queue + [Entry(next[i], depth[node] + 1)];
      }
      assert next[i..][1..] == next[i + 1..];
      PushSound(succ, roots, before, depth, node, next[i..], queue);
    }
    VisitEnds(succ, roots, queue, depth, node, next[|next|..]);
  }

  lemma VisitEnds(succ: Adjacency<Name>, roots: set<Name>, queue: seq<Entry>, depth: map<Name, nat>, node: Name,
                  missing: seq<Name>)
    requires Visiting(succ, roots, queue, depth, node, missing) && missing == []
    ensures Searching(succ, roots, queue, depth)
  {
  }

  /** Takes one entry off the queue. */
  method VisitNext(succ: Adjacency<Name>, ghost roots: set<Name>, queue0: seq<Entry>, depth0: map<Name, nat>,
                   visited0: set<Name>)
    returns (queue: seq<Entry>, depth: map<Name, nat>, visited: set<Name>)
    requires Closed(succ) && visited0 == depth0.Keys && visited0 <= succ.Keys && queue0 != []
    requires Searching(succ, roots, queue0, depth0)
    ensures visited == depth.Keys && visited <= succ.Keys && Searching(succ, roots, queue, depth)
    ensures visited0 < visited || (visited == visited0 && |queue| < |queue0|)
  {
    hide Searching, Visiting, Closed;
    queue, depth, visited := queue0[1..], depth0, visited0;
    var head := queue0[0];
    if head.node in visited {
      PopVisited(succ, roots, queue0, depth0);
    } else {
      PopNew(succ, roots, queue0, depth0);
      visited := visited + {head.node};
      depth := depth[head.node := head.depth];
      queue := PushSuccessors(succ, roots, queue, depth, head.node);
    }
  }

  /** Breadth-first search: exactly the reachable nodes get a depth, their distance from the nearest root. */
  method Search(succ: Adjacency<Name>, roots: seq<Name>) returns (depth: map<Name, nat>)
    requires Closed(succ) && forall r :: r in roots ==> r in succ
    ensures depth.Keys <= succ.Keys
    ensures forall v :: v in depth <==> Reachable(succ, Set(roots), v)
    ensures forall v :: v in depth ==> IsDistance(succ, Set(roots), v, depth[v])
  {
    depth := map[];
    var visited: set<Name> := {};
    var queue := RootEntries(roots);
    ghost var from := Set(roots);
    QueueRoots(succ, roots, queue);
    hide Set, RootEntries, Reachable, IsDistance, Searching, Visiting, Closed;
    while queue != []
      invariant visited == depth.Keys && depth.Keys <= succ.Keys
      invariant Searching(succ, from, queue, depth)
      decreases succ.Keys - visited, |queue|
    {
      queue, depth, visited := VisitNext(succ, from, queue, depth, visited);
    }
    DepthsAreDistances(succ, from, depth);
  }

  lemma DepthsAreDistances(succ: Adjacency<Name>, roots: set<Name>, depth: map<Name, nat>)
    requires Searching(succ, roots, [], depth)
    ensures forall v :: v in depth <==> Reachable(succ, roots, v)
    ensures forall v :: v in depth ==> IsDistance(succ, roots, v, depth[v])
  {
    forall v ensures v in depth <==> Reachable(succ, roots, v)
      ensures v in depth ==> IsDistance(succ, roots, v, depth[v])
    {
      hide Done, Reaches;
      if v in depth {
        assert EntryOk(succ, roots, v, depth[v]);
      }
      forall d: nat | Reaches(succ, roots, v, d) ensures v in depth && depth[v] <= d {
        WalksAreLonger(succ, roots, depth, v, d);
      }
    }
  }

  function RootEntries(roots: seq<Name>): seq<Entry> {
    seq(|roots|, i requires 0 <= i < |roots| => Entry(roots[i], 0))
  }

  function Set(s: seq<Name>): set<Name> {
    set v | v in s
  }

  lemma QueueRoots(succ: Adjacency<Name>, roots: seq<Name>, queue: seq<Entry>)
    requires forall r :: r in roots ==> r in succ
    requires |queue| == |roots| && forall i :: 0 <= i < |roots| ==> queue[i] == Entry(roots[i], 0)
    ensures Searching(succ, Set(roots), queue, map[])
  {
    forall r | r in Set(roots) ensures Covered(queue, map[], r, 0) {
      var i :| 0 <= i < |roots| && roots[i] == r;
      assert queue[i] == Entry(r, 0);
    }
  }

  // ----- the nodes left over

  /** What a shortest-path query answers: the distance, or none when there is no path. */
  ghost predicate PathLengths(succ: Adjacency<Name>, pathLength: (Name, Name) -> Option<nat>) {
    forall a, b ::
      && (pathLength(a, b).Some? ==> IsDistance(succ, {a}, b, pathLength(a, b).value))
      && (pathLength(a, b).None? ==> !Reachable(succ, {a}, b))
  }

  /**
   Layers of all nodes. A reachable node is at its distance from the nearest
   root; the second pass only ever meets unreachable nodes, and puts them at 0.
   */
  method AssignDepths(order: seq<Name>, succ: Adjacency<Name>, pathLength: (Name, Name) -> Option<nat>)
    returns (roots: seq<Name>, depth: map<Name, nat>)
    requires Closed(succ) && (forall v :: v in order <==> v in succ) && PathLengths(succ, pathLength)
    ensures forall v :: v in roots <==> IsLeast(succ, v)
    ensures |order| > 0 ==> |roots| > 0
    ensures depth.Keys == succ.Keys
    ensures forall v :: v in succ && Reachable(succ, Set(roots), v) ==> IsDistance(succ, Set(roots), v, depth[v])
    ensures forall v :: v in succ && !Reachable(succ, Set(roots), v) ==> depth[v] == 0
  {
    roots := ChooseRoots(order, succ);
    var found := Search(succ, roots);
    depth := FillLeftovers(order, succ, roots, found, pathLength);
  }

  /** The second pass: asks for the distance of every node the search did not find. */
  method FillLeftovers(order: seq<Name>, ghost succ: Adjacency<Name>, roots: seq<Name>, found: map<Name, nat>,
                       pathLength: (Name, Name) -> Option<nat>)
    returns (depth: map<Name, nat>)
    requires (forall v :: v in order <==> v in succ) && PathLengths(succ, pathLength) && found.Keys <= succ.Keys
    requires forall v :: v in succ && v !in found ==> !Reachable(succ, Set(roots), v)
    ensures depth.Keys == succ.Keys
    ensures forall v :: v in found ==> depth[v] == found[v]
    ensures forall v :: v in depth && v !in found ==> depth[v] == 0
  {
    depth := found;
    hide Reachable, PathLengths;
    for i := 0 to |order|
      invariant found.Keys <= depth.Keys <= succ.Keys
      invariant forall v :: v in found ==> depth[v] == found[v]
      invariant forall v :: v in depth && v !in found ==> depth[v] == 0
      invariant forall j :: 0 <= j < i ==> order[j] in depth
    {
      if order[i] !in depth {
        var shortest := LeftoverDepth(succ, roots, order[i], pathLength);
        depth := depth[order[i] := shortest];
      }
    }
    forall v | v in succ ensures v in depth {
      var j :| 0 <= j < |order| && order[j] == v;
    }
  }

  /** `nearest` is the least distance from the first `n` roots, if any of them leads to `v`. */
  ghost predicate IsNearest(succ: Adjacency<Name>, roots: seq<Name>, n: nat, v: Name, nearest: Option<nat>)
    requires n <= |roots|
  {
    && (nearest.Some? ==> Reaches(succ, Set(roots), v, nearest.value))
    && forall j, d: nat :: 0 <= j < n && Reaches(succ, {roots[j]}, v, d) ==> nearest.Some? && nearest.value <= d
  }

  /** The distance from the roots, by one query per root; 0 when there is no path. */
  method LeftoverDepth(ghost succ: Adjacency<Name>, roots: seq<Name>, v: Name, pathLength: (Name, Name) -> Option<nat>)
    returns (d: nat)
    requires PathLengths(succ, pathLength)
    ensures Reachable(succ, Set(roots), v) ==> IsDistance(succ, Set(roots), v, d)
    ensures !Reachable(succ, Set(roots), v) ==> d == 0
  {
    var nearest: Option<nat> := None;
    for i := 0 to |roots|
      invariant IsNearest(succ, roots, i, v, nearest)
    {
      var length := pathLength(roots[i], v);
      PathNext(succ, roots, i, v, nearest, length);
      if length.Some? {
        if nearest.None? || length.value < nearest.value {
          nearest := length;
        }
      }
    }
    NearestIsDistance(succ, roots, v, nearest);
    d := if nearest.Some? then nearest.value else 0;
  }

  lemma PathNext(succ: Adjacency<Name>, roots: seq<Name>, n: nat, v: Name, nearest: Option<nat>, length: Option<nat>)
    requires n < |roots| && IsNearest(succ, roots, n, v, nearest)
    requires length.None? ==> !Reachable(succ, {roots[n]}, v)
    requires length.Some? ==> IsDistance(succ, {roots[n]}, v, length.value)
    ensures var closer := length.Some? && (nearest.None? || length.value < nearest.value);
            IsNearest(succ, roots, n + 1, v, if closer then length else nearest)
  {
    if length.Some? {
      FewerRoots(succ, {roots[n]}, Set(roots), v, length.value);
    }
    forall d: nat | Reaches(succ, {roots[n]}, v, d) ensures length.Some? && length.value <= d {
      assert Reachable(succ, {roots[n]}, v);
    }
  }

  lemma NearestIsDistance(succ: Adjacency<Name>, roots: seq<Name>, v: Name, nearest: Option<nat>)
    requires IsNearest(succ, roots, |roots|, v, nearest)
    ensures nearest.None? ==> !Reachable(succ, Set(roots), v)
    ensures nearest.Some? ==> IsDistance(succ, Set(roots), v, nearest.value) && Reachable(succ, Set(roots), v)
  {
    forall d: nat | Reaches(succ, Set(roots), v, d) ensures nearest.Some? && nearest.value <= d {
      var r := SomeRoot(succ, Set(roots), v, d);
      var j :| 0 <= j < |roots| && roots[j] == r;
    }
  }

  lemma {:induction false} SomeRoot(succ: Adjacency<Name>, roots: set<Name>, v: Name, d: nat) returns (r: Name)
    requires Reaches(succ, roots, v, d)
    ensures r in roots && Reaches(succ, {r}, v, d)
    decreases d
  {
    if d == 0 {
      r := v;
    } else {
      var u :| Leads(succ, u, v) && Reaches(succ, roots, u, d - 1);
      r := SomeRoot(succ, roots, u, d - 1);
    }
  }

  /** In an acyclic graph the search leaves nothing over: every node is reachable from a node without predecessors. */
  lemma AcyclicMeansReachable(succ: Adjacency<Name>, roots: set<Name>)
    requires !HasCycle(EdgesOf(succ)) && forall v :: v in succ && InDegree(succ, v) == 0 ==> v in roots
    ensures forall v :: v in succ ==> Reachable(succ, roots, v)
  {
    var lost := set v | v in succ && !Reachable(succ, roots, v);
    if lost != {} {
      forall v | v in lost ensures HasPredecessorIn(EdgesOf(succ), lost, v) {
        var before := set u | u in succ && v in succ[u];
        assert Reaches(succ, roots, v, 0) <==> v in roots;
        assert before != {};
        var u :| u in before;
        if Reachable(succ, roots, u) {
          var d: nat :| Reaches(succ, roots, u, d);
          OneStepFurther(succ, roots, u, v, d);
        }
        assert u in lost && (u, v) in EdgesOf(succ);
      }
      NoSourceMeansCycle(EdgesOf(succ), lost);
    }
    forall v | v in succ ensures Reachable(succ, roots, v) {
      assert v !in lost;
    }
  }
}
