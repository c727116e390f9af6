/**
 Topological layering with weakest-edge cycle breaking, the second half of
 `_aggregate_call_sequences` in `quickcheck.py`. Ties between weakest edges are
 left open, so the results hold for every choice.
 */
module Layering {
  import opened Collections
  import opened Names
  import opened Graphs
  import Precedence

  type Edge = (Name, Name)

  // ----- predecessors that have not been placed in a layer

  ghost function Preds(edges: set<Edge>, remaining: set<Name>, v: Name): set<Name> {
    set u | u in remaining && (u, v) in edges
  }

  lemma PredsLose(edges: set<Edge>, remaining: set<Name>, u: Name, v: Name)
    requires u in remaining
    ensures |Preds(edges, remaining - {u}, v)| == |Preds(edges, remaining, v)| - if (u, v) in edges then 1 else 0
  {
    assert Preds(edges, remaining - {u}, v) == Preds(edges, remaining, v) - {u};
  }

  lemma PredsDrop(edges: set<Edge>, remaining: set<Name>, e: Edge, v: Name)
    requires e in edges && e.0 in remaining
    ensures |Preds(edges - {e}, remaining, v)| == |Preds(edges, remaining, v)| - if e.1 == v then 1 else 0
  {
    assert Preds(edges - {e}, remaining, v) == Preds(edges, remaining, v) - if e.1 == v then {e.0} else {};
  }

  // ----- the state of the loop

  /** The dictionaries of the loop. `live` are the edges not deleted, `level` the layers assigned so far. */
  datatype State = State(adjacency: map<Name, set<Name>>, indegree: map<Name, int>, weights: map<Edge, real>,
                         remaining: set<Name>, layers: seq<set<Name>>)

  /** The remaining nodes whose in-degree is zero. */
  function ZeroIndegree(s: State): set<Name> {
    set v | v in s.remaining && Lookup(s.indegree, v) == Some(0)
  }

  /** In-degrees count exactly the surviving predecessors that remain. */
  ghost predicate IndegreesOk(live: set<Edge>, sources: set<Name>, remaining: set<Name>, indegree: map<Name, int>) {
    forall v :: v in remaining ==> v in indegree && indegree[v] == |Preds(live, sources, v)|
  }

  ghost predicate AdjacencyOk(live: set<Edge>, remaining: set<Name>, adjacency: map<Name, set<Name>>) {
    forall u :: u in adjacency ==>
      forall v :: v in adjacency[u] <==> u in remaining && (u, v) in live
  }

  /** Layers hold exactly the nodes that do not remain, each once and none empty. */
  ghost predicate LayersOk(nodes: set<Name>, remaining: set<Name>, layers: seq<set<Name>>, level: map<Name, int>) {
    && remaining <= nodes
    && level.Keys == nodes - remaining
    && (forall v :: v in level ==> 0 <= level[v] < |layers|)
    && (forall i, v :: 0 <= i < |layers| ==> (v in layers[i] <==> v in level && level[v] == i))
    && (forall i :: 0 <= i < |layers| ==> layers[i] != {})
  }

  /** A surviving edge into a placed node comes from an earlier layer. */
  ghost predicate LevelsRise(live: set<Edge>, level: map<Name, int>) {
    forall u, v :: (u, v) in live && v in level ==> u in level && level[u] < level[v]
  }

  ghost predicate Inv(nodes: set<Name>, s: State, level: map<Name, int>) {
    && s.adjacency.Keys == nodes && s.indegree.Keys == nodes
    && (forall e :: e in s.weights ==> e.0 in nodes && e.1 in nodes)
    && IndegreesOk(s.weights.Keys, s.remaining, s.remaining, s.indegree)
    && AdjacencyOk(s.weights.Keys, s.remaining, s.adjacency)
    && LayersOk(nodes, s.remaining, s.layers, level)
    && LevelsRise(s.weights.Keys, level)
  }

  // ----- setting up

  lemma AddEdge(live: set<Edge>, nodes: set<Name>, adjacency: map<Name, set<Name>>, indegree: map<Name, int>, e: Edge)
    requires AdjacencyOk(live, nodes, adjacency) && IndegreesOk(live, nodes, nodes, indegree)
    requires e !in live && e.0 in nodes && e.1 in nodes && e.0 in adjacency
    ensures AdjacencyOk(live + {e}, nodes, adjacency[e.0 := adjacency[e.0] + {e.1}])
    ensures e.1 in indegree && IndegreesOk(live + {e}, nodes, nodes, indegree[e.1 := indegree[e.1] + 1])
  {
    forall v | v in nodes ensures |Preds(live + {e}, nodes, v)| == |Preds(live, nodes, v)| + if e.1 == v then 1 else 0 {
      PredsDrop(live + {e}, nodes, e, v);
      assert live + {e} - {e} == live;
    }
  }

  lemma NoPreds(nodes: set<Name>, v: Name)
    ensures |Preds({}, nodes, v)| == 0
  {
    assert Preds({}, nodes, v) == {};
  }

  method EmptyTables(nodes: set<Name>) returns (adjacency: map<Name, set<Name>>, indegree: map<Name, int>)
    ensures adjacency.Keys == nodes && indegree.Keys == nodes
    ensures AdjacencyOk({}, nodes, adjacency) && IndegreesOk({}, nodes, nodes, indegree)
  {
    adjacency := map n | n in nodes :: {};
    indegree := map n | n in nodes :: 0;
    forall v | v in nodes ensures |Preds({}, nodes, v)| == 0 {
      NoPreds(nodes, v);
    }
  }

  lemma StartInv(nodes: set<Name>, s: State)
    requires s.adjacency.Keys == nodes && s.indegree.Keys == nodes && s.remaining == nodes && s.layers == []
    requires forall e :: e in s.weights ==> e.0 in nodes && e.1 in nodes
    requires AdjacencyOk(s.weights.Keys, nodes, s.adjacency) && IndegreesOk(s.weights.Keys, nodes, nodes, s.indegree)
    ensures Inv(nodes, s, map[])
  {
  }

  method Initialize(nodes: set<Name>, edges: map<Edge, real>) returns (s: State)
    requires forall e :: e in edges ==> e.0 in nodes && e.1 in nodes
    ensures Inv(nodes, s, map[]) && s.weights == edges && s.remaining == nodes && s.layers == []
  {
    hide *;
    var adjacency, indegree := EmptyTables(nodes);
    var todo := edges.Keys;
    ghost var live: set<Edge> := {};
    while todo != {}
      invariant todo <= edges.Keys && live == edges.Keys - todo
      invariant adjacency.Keys == nodes && indegree.Keys == nodes
      invariant AdjacencyOk(live, nodes, adjacency)
      invariant IndegreesOk(live, nodes, nodes, indegree)
      decreases todo
    {
      var e :| e in todo;
      AddEdge(live, nodes, adjacency, indegree, e);
      todo, live := todo - {e}, live + {e};
      adjacency := adjacency[e.0 := adjacency[e.0] + {e.1}];
      indegree := indegree[e.1 := indegree[e.1] + 1];
    }
    assert live == edges.Keys;
    s := State(adjacency, indegree, edges, nodes, []);
    StartInv(nodes, s);
  }

  // ----- breaking a cycle

  /** With nothing left at in-degree zero, every remaining node has a surviving predecessor that remains. */
  lemma StuckIsSourceless(nodes: set<Name>, s: State, level: map<Name, int>)
    requires Inv(nodes, s, level) && s.remaining != {}
    requires ZeroIndegree(s) == {}
    ensures Sourceless(s.weights.Keys, s.remaining)
  {
    forall v | v in s.remaining ensures HasPredecessorIn(s.weights.Keys, s.remaining, v) {
      assert v !in ZeroIndegree(s);
      var preds := Preds(s.weights.Keys, s.remaining, v);
      assert preds != {};
      var u :| u in preds;
    }
  }

  lemma StuckHasCandidate(nodes: set<Name>, s: State, level: map<Name, int>) returns (e: Edge)
    requires Inv(nodes, s, level) && s.remaining != {} && ZeroIndegree(s) == {}
    ensures e in s.weights && e.0 in s.remaining && e.1 in s.remaining
  {
    StuckIsSourceless(nodes, s, level);
    var v :| v in s.remaining;
    assert HasPredecessorIn(s.weights.Keys, s.remaining, v);
    var u :| u in s.remaining && (u, v) in s.weights.Keys;
    e := (u, v);
  }

  function Clamped(n: int): int {
    if n > 0 then n else 0
  }

  ghost predicate IsWeakest(s: State, e: Edge) {
    && e in s.weights && e.0 in s.remaining && e.1 in s.remaining
    && forall f :: f in s.weights && f.0 in s.remaining && f.1 in s.remaining ==> s.weights[e] <= s.weights[f]
  }

  /** Some edge of least weight between two remaining nodes, or `None` if there is no such edge. */
  method WeakestEdge(s: State) returns (weakest: Option<Edge>)
    ensures weakest.Some? ==> IsWeakest(s, weakest.value)
    ensures weakest.None? ==> forall e :: e in s.weights ==> !(e.0 in s.remaining && e.1 in s.remaining)
  {
    weakest := None;
    var todo := s.weights.Keys;
    while todo != {}
      invariant todo <= s.weights.Keys
      invariant weakest.Some? ==> weakest.value in s.weights
      invariant weakest.Some? ==> weakest.value.0 in s.remaining && weakest.value.1 in s.remaining
      invariant forall f :: f in s.weights.Keys - todo && f.0 in s.remaining && f.1 in s.remaining ==>
                  weakest.Some? && s.weights[weakest.value] <= s.weights[f]
      decreases todo
    {
      var f :| f in todo;
      todo := todo - {f};
      if f.0 in s.remaining && f.1 in s.remaining {
        if weakest.None? || s.weights[f] < s.weights[weakest.value] {
          weakest := Some(f);
        }
      }
    }
  }

  /** Deletes the edge `(src, dst)` from the dictionaries. */
  method DeleteEdge(ghost nodes: set<Name>, s: State, ghost level: map<Name, int>, e: Edge)
    returns (s': State)
    requires Inv(nodes, s, level) && e in s.weights && e.0 in s.remaining && e.1 in s.remaining
    ensures Inv(nodes, s', level)
    ensures s'.weights == s.weights - {e} && s'.remaining == s.remaining && s'.layers == s.layers
    ensures s'.indegree == s.indegree[e.1 := s.indegree[e.1] - 1]
  {
    var (src, dst) := e;
    PredsDrop(s.weights.Keys, s.remaining, e, dst);
    BreakKeepsInv(nodes, s, level, e);
    s' := s.(weights := s.weights - {e});
    if dst in s.adjacency[src] {
      s' := s'.(adjacency := s.adjacency[src := s.adjacency[src] - {dst}],
                indegree := s.indegree[dst := Clamped(s.indegree[dst] - 1)]);
    }
  }

  lemma DropAdjacency(live: set<Edge>, remaining: set<Name>, adjacency: map<Name, set<Name>>, e: Edge)
    requires AdjacencyOk(live, remaining, adjacency) && e.0 in adjacency
    ensures AdjacencyOk(live - {e}, remaining, adjacency[e.0 := adjacency[e.0] - {e.1}])
  {
  }

  lemma DropIndegree(live: set<Edge>, remaining: set<Name>, indegree: map<Name, int>, e: Edge)
    requires IndegreesOk(live, remaining, remaining, indegree)
    requires e in live && e.0 in remaining && e.1 in remaining
    ensures IndegreesOk(live - {e}, remaining, remaining, indegree[e.1 := indegree[e.1] - 1])
  {
    forall v | v in remaining
      ensures |Preds(live - {e}, remaining, v)| == |Preds(live, remaining, v)| - if e.1 == v then 1 else 0
    {
      PredsDrop(live, remaining, e, v);
    }
  }

  lemma BreakKeepsInv(nodes: set<Name>, s: State, level: map<Name, int>, e: Edge)
    requires Inv(nodes, s, level)
    requires e in s.weights && e.0 in s.remaining && e.1 in s.remaining
    ensures Inv(nodes, s.(weights := s.weights - {e},
                          adjacency := s.adjacency[e.0 := s.adjacency[e.0] - {e.1}],
                          indegree := s.indegree[e.1 := s.indegree[e.1] - 1]), level)
  {
    hide AdjacencyOk, IndegreesOk, LayersOk;
    DropAdjacency(s.weights.Keys, s.remaining, s.adjacency, e);
    DropIndegree(s.weights.Keys, s.remaining, s.indegree, e);
    assert (s.weights - {e}).Keys == s.weights.Keys - {e};
  }

  // ----- placing a layer

  /** In-degrees while the children in `lowered` have already lost their predecessor `node`. */
  ghost predicate Lowering(live: set<Edge>, sources: set<Name>, remaining: set<Name>, indegree: map<Name, int>,
                           lowered: set<Name>)
  {
    forall v :: v in remaining ==>
      v in indegree && indegree[v] == |Preds(live, sources, v)| - if v in lowered then 1 else 0
  }

  /** Lowers the in-degree of every child of a placed node; no count is ever zero before it is lowered. */
  method ReleaseNode(ghost live: set<Edge>, ghost sources: set<Name>, ghost remaining: set<Name>,
                     adjacency: map<Name, set<Name>>, indegree: map<Name, int>, node: Name)
    returns (adjacency': map<Name, set<Name>>, indegree': map<Name, int>, ghost clamped: bool)
    requires AdjacencyOk(live, sources, adjacency) && IndegreesOk(live, sources, remaining, indegree)
    requires node in sources && node in adjacency && adjacency[node] <= remaining
    ensures AdjacencyOk(live, sources - {node}, adjacency') && adjacency' == adjacency[node := {}]
    ensures IndegreesOk(live, sources - {node}, remaining, indegree') && indegree'.Keys == indegree.Keys
    ensures !clamped
  {
    indegree', clamped := indegree, false;
    var todo := adjacency[node];
    while todo != {}
      invariant todo <= adjacency[node] && !clamped && indegree'.Keys == indegree.Keys
      invariant Lowering(live, sources, remaining, indegree', adjacency[node] - todo)
      decreases todo
    {
      var child :| child in todo;
      todo := todo - {child};
      assert node in Preds(live, sources, child);
      clamped := clamped || indegree'[child] < 1;
      indegree' := indegree'[child := Clamped(indegree'[child] - 1)];
    }
    adjacency' := adjacency[node := {}];
    forall v | v in remaining ensures indegree'[v] == |Preds(live, sources - {node}, v)| {
      PredsLose(live, sources, node, v);
    }
  }

  /** The children of the nodes at in-degree zero all remain after these are placed. */
  lemma ChildrenRemain(nodes: set<Name>, s: State, level: map<Name, int>, layer: set<Name>, node: Name)
    requires Inv(nodes, s, level) && node in layer && node in s.remaining
    requires layer == ZeroIndegree(s)
    ensures s.adjacency[node] <= s.remaining - layer
  {
    forall v | v in s.adjacency[node] ensures v in s.remaining - layer {
      assert (node, v) in s.weights.Keys;
      assert node in Preds(s.weights.Keys, s.remaining, v);
    }
  }

  /** A node of in-degree zero has its surviving predecessors in earlier layers. */
  lemma PlacedRise(nodes: set<Name>, s: State, level: map<Name, int>, layer: set<Name>, level': map<Name, int>)
    requires Inv(nodes, s, level)
    requires layer == ZeroIndegree(s)
    requires level' == level + map v | v in layer :: |s.layers|
    ensures LevelsRise(s.weights.Keys, level')
  {
    forall u, v | (u, v) in s.weights.Keys && v in level' ensures u in level' && level'[u] < level'[v] {
      if v in layer {
        assert u !in Preds(s.weights.Keys, s.remaining, v);
        assert (u, v).0 in nodes;
      } else {
        assert v in level;
      }
    }
  }

  lemma PlacedLayers(nodes: set<Name>, remaining: set<Name>, layers: seq<set<Name>>, level: map<Name, int>,
                     layer: set<Name>, level': map<Name, int>)
    requires LayersOk(nodes, remaining, layers, level) && {} < layer <= remaining
    requires level' == level + map v | v in layer :: |layers|
    ensures LayersOk(nodes, remaining - layer, layers + [layer], level')
  {
  }

  /** Releases every node of a new layer. */
  method ReleaseLayer(ghost nodes: set<Name>, ghost live: set<Edge>, remaining: set<Name>, layer: set<Name>,
                      adjacency0: map<Name, set<Name>>, indegree0: map<Name, int>)
    returns (adjacency: map<Name, set<Name>>, indegree: map<Name, int>, ghost clamped: bool)
    requires adjacency0.Keys == nodes && indegree0.Keys == nodes && layer <= nodes && layer !! remaining
    requires AdjacencyOk(live, remaining + layer, adjacency0)
    requires IndegreesOk(live, remaining + layer, remaining, indegree0)
    requires forall node :: node in layer ==> adjacency0[node] <= remaining
    ensures adjacency.Keys == nodes && indegree.Keys == nodes && !clamped
    ensures AdjacencyOk(live, remaining, adjacency) && IndegreesOk(live, remaining, remaining, indegree)
  {
    hide AdjacencyOk, IndegreesOk;
    adjacency, indegree, clamped := adjacency0, indegree0, false;
    var todo := layer;
    ghost var sources := remaining + layer;
    while todo != {}
      invariant todo <= layer && !clamped
      invariant sources == remaining + todo
      invariant adjacency.Keys == nodes && indegree.Keys == nodes
      invariant forall node :: node in todo ==> adjacency[node] == adjacency0[node]
      invariant AdjacencyOk(live, sources, adjacency)
      invariant IndegreesOk(live, sources, remaining, indegree)
      decreases todo
    {
      var node :| node in todo;
      ghost var acted;
      adjacency, indegree, acted := ReleaseNode(live, sources, remaining, adjacency, indegree, node);
      clamped := clamped || acted;
      todo, sources := todo - {node}, sources - {node};
    }
    assert sources == remaining;
  }

  /** Moves the nodes at in-degree zero into a new layer. */
  method PlaceLayer(ghost nodes: set<Name>, s: State, ghost level: map<Name, int>, layer: set<Name>)
    returns (s': State, ghost level': map<Name, int>, ghost clamped: bool)
    requires Inv(nodes, s, level) && layer != {}
    requires layer == ZeroIndegree(s)
    ensures Inv(nodes, s', level') && !clamped
    ensures s'.remaining == s.remaining - layer && s'.layers == s.layers + [layer] && s'.weights == s.weights
    ensures level' == level + map v | v in layer :: |s.layers|
  {
    hide Inv, ZeroIndegree, AdjacencyOk, IndegreesOk, LayersOk, LevelsRise;
    var remaining := s.remaining - layer;
    level' := level + map v | v in layer :: |s.layers|;
    BeforeRelease(nodes, s, level, layer, level');
    var adjacency, indegree, acted := ReleaseLayer(nodes, s.weights.Keys, remaining, layer, s.adjacency, s.indegree);
    clamped := acted;
    s' := State(adjacency, indegree, s.weights, remaining, s.layers + [layer]);
    InvFromParts(nodes, s', level');
  }

  lemma BeforeRelease(nodes: set<Name>, s: State, level: map<Name, int>, layer: set<Name>, level': map<Name, int>)
    requires Inv(nodes, s, level) && layer == ZeroIndegree(s) != {}
    requires level' == level + map v | v in layer :: |s.layers|
    ensures layer <= nodes && layer <= s.remaining && s.adjacency.Keys == nodes && s.indegree.Keys == nodes
    ensures forall e :: e in s.weights ==> e.0 in nodes && e.1 in nodes
    ensures var remaining := s.remaining - layer;
            && AdjacencyOk(s.weights.Keys, remaining + layer, s.adjacency)
            && IndegreesOk(s.weights.Keys, remaining + layer, remaining, s.indegree)
            && (forall node :: node in layer ==> s.adjacency[node] <= remaining)
            && LayersOk(nodes, remaining, s.layers + [layer], level')
            && LevelsRise(s.weights.Keys, level')
  {
    assert layer <= s.remaining <= nodes;
    var remaining := s.remaining - layer;
    assert remaining + layer == s.remaining;
    forall node | node in layer ensures s.adjacency[node] <= remaining {
      ChildrenRemain(nodes, s, level, layer, node);
    }
    hide ZeroIndegree, AdjacencyOk, LayersOk, LevelsRise;
    PlacedRise(nodes, s, level, layer, level');
    PlacedLayers(nodes, s.remaining, s.layers, level, layer, level');
  }

  lemma InvFromParts(nodes: set<Name>, s: State, level: map<Name, int>)
    requires s.adjacency.Keys == nodes && s.indegree.Keys == nodes
    requires forall e :: e in s.weights ==> e.0 in nodes && e.1 in nodes
    requires IndegreesOk(s.weights.Keys, s.remaining, s.remaining, s.indegree) &&
             AdjacencyOk(s.weights.Keys, s.remaining, s.adjacency)
    requires LayersOk(nodes, s.remaining, s.layers, level) && LevelsRise(s.weights.Keys, level)
    ensures Inv(nodes, s, level)
  {
    hide IndegreesOk, AdjacencyOk, LayersOk, LevelsRise;
  }

  // ----- levels as longest paths

  ghost predicate HasPredAt(edges: set<Edge>, level: map<Name, int>, v: Name, i: int) {
    exists u :: u in level && (u, v) in edges && level[u] == i
  }

  /** Every placed node sits right after one of its predecessors, and so will the ones that remain. */
  ghost predicate Tight(edges: set<Edge>, remaining: set<Name>, layers: seq<set<Name>>, level: map<Name, int>) {
    && (forall v :: v in level && level[v] > 0 ==> HasPredAt(edges, level, v, level[v] - 1))
    && (|layers| > 0 ==> forall v :: v in remaining ==>
          HasPredecessorIn(edges, remaining, v) || HasPredAt(edges, level, v, |layers| - 1))
  }

  lemma PlacedTight(nodes: set<Name>, s: State, level: map<Name, int>, layer: set<Name>, level': map<Name, int>)
    requires Inv(nodes, s, level) && Tight(s.weights.Keys, s.remaining, s.layers, level)
    requires layer == ZeroIndegree(s)
    requires level' == level + map v | v in layer :: |s.layers|
    ensures Tight(s.weights.Keys, s.remaining - layer, s.layers + [layer], level')
  {
    var edges, n := s.weights.Keys, |s.layers|;
    forall v | v in level' && level'[v] > 0 ensures HasPredAt(edges, level', v, level'[v] - 1) {
      if v in layer {
        assert Preds(edges, s.remaining, v) == {};
        NoPredecessor(edges, s.remaining, v);
      }
      assert HasPredAt(edges, level, v, level'[v] - 1);
      KeepsPredAt(edges, level, level', v, level'[v] - 1);
    }
    forall v | v in s.remaining - layer
      ensures HasPredecessorIn(edges, s.remaining - layer, v) || HasPredAt(edges, level', v, n)
    {
      assert Preds(edges, s.remaining, v) != {};
      var u :| u in Preds(edges, s.remaining, v);
      assert u in s.remaining - layer || (u in level' && level'[u] == n);
    }
  }

  lemma NoPredecessor(edges: set<Edge>, remaining: set<Name>, v: Name)
    requires Preds(edges, remaining, v) == {}
    ensures !HasPredecessorIn(edges, remaining, v)
  {
    assert forall u :: u in remaining && (u, v) in edges ==> u in Preds(edges, remaining, v);
  }

  lemma KeepsPredAt(edges: set<Edge>, level: map<Name, int>, level': map<Name, int>, v: Name, i: int)
    requires HasPredAt(edges, level, v, i)
    requires forall u :: u in level ==> u in level' && level'[u] == level[u]
    ensures HasPredAt(edges, level', v, i)
  {
  }

  /** `n` is the length of a longest walk that ends at `v`. */
  ghost predicate IsLongest(edges: set<Edge>, v: Name, n: int) {
    && (exists p: seq<Name> :: 0 < |p| == n + 1 && p[|p| - 1] == v && IsWalk(edges, p))
    && (forall p: seq<Name> :: |p| > 0 && p[|p| - 1] == v && IsWalk(edges, p) ==> |p| <= n + 1)
  }

  lemma {:induction false} WalkFitsBelow(edges: set<Edge>, level: map<Name, int>, p: seq<Name>)
    requires LevelsRise(edges, level) && IsWalk(edges, p) && |p| > 0 && p[|p| - 1] in level
    requires forall v :: v in level ==> level[v] >= 0
    ensures |p| <= level[p[|p| - 1]] + 1
  {
    if |p| > 1 {
      var n := |p| - 2;
      assert (p[n], p[n + 1]) in edges;
      WalkFitsBelow(edges, level, p[..|p| - 1]);
    }
  }

  lemma {:induction false} WalkReaches(edges: set<Edge>, level: map<Name, int>, v: Name) returns (p: seq<Name>)
    requires forall w :: w in level ==> level[w] >= 0
    requires forall w :: w in level && level[w] > 0 ==> HasPredAt(edges, level, w, level[w] - 1)
    requires v in level
    ensures |p| == level[v] + 1 && p[|p| - 1] == v && IsWalk(edges, p)
    decreases level[v]
  {
    if level[v] == 0 {
      p := [v];
    } else {
      assert HasPredAt(edges, level, v, level[v] - 1);
      var u :| u in level && (u, v) in edges && level[u] == level[v] - 1;
      var q := WalkReaches(edges, level, u);
      p := q + [v];
    }
  }

  lemma LevelIsLongest(edges: set<Edge>, level: map<Name, int>, v: Name)
    requires LevelsRise(edges, level) && v in level
    requires forall w :: w in level ==> level[w] >= 0
    requires forall w :: w in level && level[w] > 0 ==> HasPredAt(edges, level, w, level[w] - 1)
    ensures IsLongest(edges, v, level[v])
  {
    var p := WalkReaches(edges, level, v);
    forall q: seq<Name> | |q| > 0 && q[|q| - 1] == v && IsWalk(edges, q) ensures |q| <= level[v] + 1 {
      WalkFitsBelow(edges, level, q);
    }
  }

  /** Levels that rise along every edge rule out cycles. */
  lemma RisingHasNoCycle(edges: set<Edge>, level: map<Name, int>)
    requires LevelsRise(edges, level) && forall e :: e in edges ==> e.1 in level
    ensures !HasCycle(edges)
  {
    var rank := map v | v in level :: -level[v];
    forall u, v | (u, v) in edges ensures u in rank && v in rank && rank[v] < rank[u] {
      assert (u, v).1 in level;
    }
    RankedHasNoCycle(edges, rank);
  }

  // ----- the loop

  /** What the layers say about the edges: which were deleted, and how the rest run. */
  ghost predicate Layered(nodes: set<Name>, edges: set<Edge>, layers: seq<set<Name>>,
                          level: map<Name, int>, deleted: set<Edge>)
  {
    && LayersOk(nodes, {}, layers, level)
    && deleted <= edges
    && LevelsRise(edges - deleted, level)
    && (deleted == {} <==> !HasCycle(edges))
    && (deleted == {} ==> forall v :: v in nodes ==> IsLongest(edges, v, level[v]))
  }

  ghost predicate LoopInv(nodes: set<Name>, edges: set<Edge>, s: State, level: map<Name, int>, deleted: set<Edge>) {
    && Inv(nodes, s, level)
    && s.weights.Keys == edges - deleted && deleted <= edges
    && (deleted != {} ==> HasCycle(edges))
    && (deleted == {} ==> Tight(edges, s.remaining, s.layers, level))
  }

  /** Finds nothing at in-degree zero, so deletes a weakest edge; the fallback for a missing one never runs. */
  method BreakStep(ghost nodes: set<Name>, ghost edges: set<Edge>, s: State, ghost level: map<Name, int>,
                   ghost deleted: set<Edge>)
    returns (s': State, ghost e: Edge, gaveUp: bool)
    requires LoopInv(nodes, edges, s, level, deleted) && s.remaining != {} && ZeroIndegree(s) == {}
    ensures !gaveUp && IsWeakest(s, e) && LoopInv(nodes, edges, s', level, deleted + {e})
    ensures s'.remaining == s.remaining && s'.layers == s.layers && s'.weights == s.weights - {e}
  {
    ghost var candidate := StuckHasCandidate(nodes, s, level);
    var weakest := WeakestEdge(s);
    if weakest.None? {
      gaveUp, s', e := true, s.(layers := s.layers + [s.remaining]), candidate;
      assert false;
    } else {
      gaveUp, e := false, weakest.value;
      assert HasCycle(edges) by {
        if deleted == {} {
          assert edges - deleted == edges;
          StuckIsSourceless(nodes, s, level);
          NoSourceMeansCycle(edges, s.remaining);
        }
      }
      hide Inv, HasCycle, Tight, IsWeakest;
      WeakestIsLive(s, weakest.value);
      s' := DeleteEdge(nodes, s, level, weakest.value);
      DeletedKeepsLoopInv(nodes, edges, s, s', level, deleted, weakest.value);
    }
  }

  lemma WeakestIsLive(s: State, e: Edge)
    requires IsWeakest(s, e)
    ensures e in s.weights && e.0 in s.remaining && e.1 in s.remaining
  {
  }

  lemma DeletedKeepsLoopInv(nodes: set<Name>, edges: set<Edge>, s: State, s': State, level: map<Name, int>,
                            deleted: set<Edge>, e: Edge)
    requires LoopInv(nodes, edges, s, level, deleted) && Inv(nodes, s', level) && HasCycle(edges)
    requires e in s.weights && s'.weights == s.weights - {e}
    ensures LoopInv(nodes, edges, s', level, deleted + {e})
  {
    hide Inv, HasCycle, Tight;
    assert s'.weights.Keys == s.weights.Keys - {e};
  }

  method PlaceStep(ghost nodes: set<Name>, ghost edges: set<Edge>, s: State, ghost level: map<Name, int>,
                   ghost deleted: set<Edge>)
    returns (s': State, ghost level': map<Name, int>, ghost clamped: bool)
    requires LoopInv(nodes, edges, s, level, deleted) && ZeroIndegree(s) != {}
    ensures !clamped && LoopInv(nodes, edges, s', level', deleted)
    ensures s'.remaining == s.remaining - ZeroIndegree(s) && s'.weights == s.weights
    ensures s'.layers == s.layers + [ZeroIndegree(s)]
  {
    var layer := ZeroIndegree(s);
    if deleted == {} {
      assert edges - deleted == edges;
      PlacedTight(nodes, s, level, layer, level + map v | v in layer :: |s.layers|);
    }
    hide Inv, HasCycle, Tight;
    s', level', clamped := PlaceLayer(nodes, s, level, layer);
  }

  lemma FinishLayered(nodes: set<Name>, edges: set<Edge>, s: State, level: map<Name, int>, deleted: set<Edge>)
    requires Inv(nodes, s, level) && s.remaining == {}
    requires s.weights.Keys == edges - deleted && deleted <= edges
    requires forall e :: e in edges ==> e.0 in nodes && e.1 in nodes
    requires deleted != {} ==> HasCycle(edges)
    requires deleted == {} ==> Tight(edges, s.remaining, s.layers, level)
    ensures Layered(nodes, edges, s.layers, level, deleted)
  {
    if deleted == {} {
      assert edges - deleted == edges;
      RisingHasNoCycle(edges, level);
      forall v | v in nodes ensures IsLongest(edges, v, level[v]) {
        LevelIsLongest(edges, level, v);
      }
    }
  }

  // ----- the same without the tables

  /** What remains, which edges survive, and the layers so far. */
  datatype Board = Board(remaining: set<Name>, live: set<Edge>, layers: seq<set<Name>>)

  datatype Move = Place | Break(edge: Edge)

  ghost function Free(b: Board): set<Name> {
    set v | v in b.remaining && Preds(b.live, b.remaining, v) == {}
  }

  ghost predicate Between(b: Board, e: Edge) {
    e in b.live && e.0 in b.remaining && e.1 in b.remaining
  }

  /** Whatever is free is placed; only when nothing is, a weakest edge between remaining nodes is broken. */
  ghost predicate Allowed(weights: map<Edge, real>, b: Board, move: Move) {
    match move
    case Place => Free(b) != {}
    case Break(e) =>
      && Free(b) == {} && Between(b, e) && e in weights
      && forall f :: Between(b, f) && f in weights ==> weights[e] <= weights[f]
  }

  ghost function Moved(b: Board, move: Move): Board {
    match move
    case Place => Board(b.remaining - Free(b), b.live, b.layers + [Free(b)])
    case Break(e) => b.(live := b.live - {e})
  }

  ghost function Play(b: Board, moves: seq<Move>): Board {
    if moves == [] then b else Moved(Play(b, moves[..|moves| - 1]), moves[|moves| - 1])
  }

  ghost predicate Legal(weights: map<Edge, real>, b: Board, moves: seq<Move>) {
    moves == [] ||
    (Legal(weights, b, moves[..|moves| - 1]) && Allowed(weights, Play(b, moves[..|moves| - 1]), moves[|moves| - 1]))
  }

  /** The tables stand where the moves have led. */
  ghost predicate Follows(nodes: set<Name>, weights: map<Edge, real>, moves: seq<Move>, s: State) {
    && Legal(weights, Board(nodes, weights.Keys, []), moves)
    && Play(Board(nodes, weights.Keys, []), moves) == Board(s.remaining, s.weights.Keys, s.layers)
    && (forall e :: e in s.weights ==> e in weights && s.weights[e] == weights[e])
  }

  lemma ZeroIsFree(nodes: set<Name>, s: State, level: map<Name, int>)
    requires Inv(nodes, s, level)
    ensures ZeroIndegree(s) == Free(Board(s.remaining, s.weights.Keys, s.layers))
  {
    forall v | v in s.remaining
      ensures Lookup(s.indegree, v) == Some(0) <==> Preds(s.weights.Keys, s.remaining, v) == {}
    {
      assert s.indegree[v] == |Preds(s.weights.Keys, s.remaining, v)|;
    }
  }

  lemma PlayPlace(weights: map<Edge, real>, start: Board, moves: seq<Move>)
    requires Legal(weights, start, moves) && Free(Play(start, moves)) != {}
    ensures Legal(weights, start, moves + [Place]) && Play(start, moves + [Place]) == Moved(Play(start, moves), Place)
  {
    hide Free;
    assert (moves + [Place])[..|moves|] == moves;
  }

  lemma PlayBreak(weights: map<Edge, real>, start: Board, moves: seq<Move>, e: Edge)
    requires Legal(weights, start, moves) && Allowed(weights, Play(start, moves), Break(e))
    ensures Legal(weights, start, moves + [Break(e)]) &&
            Play(start, moves + [Break(e)]) == Moved(Play(start, moves), Break(e))
  {
    hide Allowed, Moved;
    assert (moves + [Break(e)])[..|moves|] == moves;
  }

  lemma FollowsPlace(nodes: set<Name>, weights: map<Edge, real>, moves: seq<Move>, s: State, s': State,
                     level: map<Name, int>)
    requires Follows(nodes, weights, moves, s) && Inv(nodes, s, level) && ZeroIndegree(s) != {}
    requires s'.remaining == s.remaining - ZeroIndegree(s) && s'.weights == s.weights &&
             s'.layers == s.layers + [ZeroIndegree(s)]
    ensures Follows(nodes, weights, moves + [Place], s')
  {
    ZeroIsFree(nodes, s, level);
    hide Inv, ZeroIndegree, Free, Legal, Play;
    PlayPlace(weights, Board(nodes, weights.Keys, []), moves);
  }

  lemma FollowsBreak(nodes: set<Name>, weights: map<Edge, real>, moves: seq<Move>, s: State, s': State,
                     level: map<Name, int>, e: Edge)
    requires Follows(nodes, weights, moves, s) && Inv(nodes, s, level) && ZeroIndegree(s) == {} && IsWeakest(s, e)
    requires s'.remaining == s.remaining && s'.weights == s.weights - {e} && s'.layers == s.layers
    ensures Follows(nodes, weights, moves + [Break(e)], s')
  {
    ZeroIsFree(nodes, s, level);
    hide Inv, ZeroIndegree, Free, Legal, Play;
    PlayBreak(weights, Board(nodes, weights.Keys, []), moves, e);
    assert s'.weights.Keys == s.weights.Keys - {e};
  }

  ghost predicate LayerInv(nodes: set<Name>, edges: map<Edge, real>, s: State, level: map<Name, int>,
                           deleted: set<Edge>, moves: seq<Move>)
  {
    LoopInv(nodes, edges.Keys, s, level, deleted) && Follows(nodes, edges, moves, s)
  }

  /** One round: breaks an edge if nothing is free, and places a layer otherwise. */
  method LayerStep(ghost nodes: set<Name>, ghost edges: map<Edge, real>, s: State, ghost level: map<Name, int>,
                   ghost deleted: set<Edge>,
                   ghost moves: seq<Move>)
    returns (s': State, ghost level': map<Name, int>, ghost deleted': set<Edge>, ghost moves': seq<Move>,
             ghost clamped: bool, gaveUp: bool)
    requires LayerInv(nodes, edges, s, level, deleted, moves) && s.remaining != {}
    ensures LayerInv(nodes, edges, s', level', deleted', moves') && !clamped && !gaveUp
    ensures |s'.remaining| + |s'.weights| < |s.remaining| + |s.weights|
  {
    level', deleted', clamped, gaveUp := level, deleted, false, false;
    assert Inv(nodes, s, level);
    hide LoopInv, Follows, IsWeakest, Inv;
    if ZeroIndegree(s) == {} {
      ghost var e;
      s', e, gaveUp := BreakStep(nodes, edges.Keys, s, level, deleted);
      deleted', moves' := deleted + {e}, moves + [Break(e)];
      FollowsBreak(nodes, edges, moves, s, s', level, e);
      FewerWeights(s, e);
    } else {
      s', level', clamped := PlaceStep(nodes, edges.Keys, s, level, deleted);
      moves' := moves + [Place];
      FollowsPlace(nodes, edges, moves, s, s', level);
      assert |s.remaining - ZeroIndegree(s)| < |s.remaining|;
    }
  }

  lemma FewerWeights(s: State, e: Edge)
    requires IsWeakest(s, e)
    ensures |s.weights - {e}| < |s.weights|
  {
    assert (s.weights - {e}).Keys == s.weights.Keys - {e};
  }

  /**
   Layers all nodes. The tables of in-degrees and successors do no more than the
   moves on the graph itself; the fallback and the clamps never act.
   */
  method Layer(nodes: set<Name>, edges: map<Edge, real>)
    returns (layers: seq<set<Name>>, ghost level: map<Name, int>, ghost deleted: set<Edge>, ghost moves: seq<Move>,
             ghost clamped: bool, gaveUp: bool)
    requires forall e :: e in edges ==> e.0 in nodes && e.1 in nodes
    ensures Legal(edges, Board(nodes, edges.Keys, []), moves)
    ensures Play(Board(nodes, edges.Keys, []), moves) == Board({}, edges.Keys - deleted, layers)
    ensures Layered(nodes, edges.Keys, layers, level, deleted)
    ensures !clamped && !gaveUp
  {
    var s := Initialize(nodes, edges);
    level, deleted, clamped, gaveUp, moves := map[], {}, false, false, [];
    assert s.weights.Keys == edges.Keys - deleted;
    assert LayerInv(nodes, edges, s, level, deleted, moves);
    hide LayerInv, Layered;
    while s.remaining != {} && !gaveUp
      invariant LayerInv(nodes, edges, s, level, deleted, moves) && !clamped && !gaveUp
      decreases |s.remaining| + |s.weights|
    {
      s, level, deleted, moves, clamped, gaveUp := LayerStep(nodes, edges, s, level, deleted, moves);
    }
    layers := s.layers;
    LayeringEnds(nodes, edges, s, level, deleted, moves);
  }

  lemma LayeringEnds(nodes: set<Name>, edges: map<Edge, real>, s: State, level: map<Name, int>, deleted: set<Edge>,
                     moves: seq<Move>)
    requires LayerInv(nodes, edges, s, level, deleted, moves) && s.remaining == {}
    requires forall e :: e in edges ==> e.0 in nodes && e.1 in nodes
    ensures Legal(edges, Board(nodes, edges.Keys, []), moves)
    ensures Play(Board(nodes, edges.Keys, []), moves) == Board({}, edges.Keys - deleted, s.layers)
    ensures Layered(nodes, edges.Keys, s.layers, level, deleted)
  {
    FinishLayered(nodes, edges.Keys, s, level, deleted);
  }

  // ----- the whole aggregation

  function AtLeastOne(n: int): int {
    if n > 1 then n else 1
  }

  function StageProbs(appear: map<Name, nat>, layer: set<Name>, parentTraceCount: int): map<Name, real> {
    map c | c in layer && c in appear :: appear[c] as real / AtLeastOne(parentTraceCount) as real
  }

  ghost function LayersOf(stages: seq<map<Name, real>>): seq<set<Name>> {
    seq(|stages|, i requires 0 <= i < |stages| => stages[i].Keys)
  }

  method StagesFrom(layers: seq<set<Name>>, appear: map<Name, nat>, parentTraceCount: int)
    returns (stages: seq<map<Name, real>>)
    ensures |stages| == |layers|
    ensures forall i :: 0 <= i < |layers| ==> stages[i] == StageProbs(appear, layers[i], parentTraceCount)
  {
    hide StageProbs;
    stages := [];
    for i := 0 to |layers|
      invariant |stages| == i
      invariant forall k :: 0 <= k < i ==> stages[k] == StageProbs(appear, layers[k], parentTraceCount)
    {
      stages := stages + [StageProbs(appear, layers[i], parentTraceCount)];
    }
  }

  /**
   The rate reported for a child that appears in `count` traces: a share of the parent's
   traces, or the count if it has none.
   */
  ghost predicate IsRate(rate: real, count: nat, parentTraceCount: int) {
    if parentTraceCount >= 1 then rate * parentTraceCount as real == count as real else rate == count as real
  }

  lemma RateIs(count: nat, parentTraceCount: int)
    ensures IsRate(count as real / AtLeastOne(parentTraceCount) as real, count, parentTraceCount)
  {
  }

  /** A probability, which is 1 exactly for a child that is in all of the parent's traces. */
  ghost predicate IsProbability(rate: real, traces: seq<Precedence.Trace>, c: Name, parentTraceCount: int) {
    && 0.0 < rate <= 1.0
    && (rate == 1.0 <==> parentTraceCount == |traces| && Precedence.AlwaysPresent(traces, c))
  }

  /** A rate is a probability when the parent is counted in at least all the traces. */
  lemma RateIsProbability(rate: real, traces: seq<Precedence.Trace>, c: Name, parentTraceCount: int)
    requires IsRate(rate, Precedence.AppearCount(traces, c), parentTraceCount)
    requires parentTraceCount >= |traces| && Precedence.AppearCount(traces, c) > 0
    ensures IsProbability(rate, traces, c, parentTraceCount)
  {
    Precedence.AppearsAlways(traces, c);
    var n, count := parentTraceCount as real, Precedence.AppearCount(traces, c) as real;
    RateBound(rate, n, count);
  }

  lemma RateBound(rate: real, n: real, count: real)
    requires rate * n == count && 0.0 < count <= n
    ensures 0.0 < rate <= 1.0 && (rate == 1.0 <==> count == n)
  {
    assert rate > 1.0 ==> (rate - 1.0) * n > 0.0;
    assert rate <= 0.0 ==> -rate * n >= 0.0;
    assert rate < 1.0 ==> (1.0 - rate) * n > 0.0;
  }

  /** Every child is in the stage of its level, with its appearance rate. */
  ghost predicate StagesHold(traces: seq<Precedence.Trace>, parentTraceCount: int, stages: seq<map<Name, real>>,
                             level: map<Name, int>)
  {
    && (forall c :: c in level <==> Precedence.AppearCount(traces, c) > 0)
    && (forall c :: c in level ==> 0 <= level[c] < |stages|)
    && (forall i, c :: 0 <= i < |stages| ==> (c in stages[i] <==> c in level && level[c] == i))
    && (forall i, c :: 0 <= i < |stages| && c in stages[i] ==>
          IsRate(stages[i][c], Precedence.AppearCount(traces, c), parentTraceCount))
  }

  /** When the parent is counted in at least all the traces, what is reported are probabilities. */
  ghost predicate Probabilities(traces: seq<Precedence.Trace>, parentTraceCount: int, stages: seq<map<Name, real>>) {
    forall i, c :: 0 <= i < |stages| && c in stages[i] ==> IsProbability(stages[i][c], traces, c, parentTraceCount)
  }

  lemma RatesAreProbabilities(traces: seq<Precedence.Trace>, parentTraceCount: int, stages: seq<map<Name, real>>,
                              level: map<Name, int>)
    requires StagesHold(traces, parentTraceCount, stages, level) && parentTraceCount >= |traces|
    ensures Probabilities(traces, parentTraceCount, stages)
  {
    forall i, c | 0 <= i < |stages| && c in stages[i]
      ensures IsProbability(stages[i][c], traces, c, parentTraceCount)
    {
      RateIsProbability(stages[i][c], traces, c, parentTraceCount);
    }
  }

  lemma StagesAreLayers(traces: seq<Precedence.Trace>, t: Precedence.Tables, parentTraceCount: int,
                        layers: seq<set<Name>>,
                        level: map<Name, int>, stages: seq<map<Name, real>>)
    requires Precedence.TablesOk(traces, t) && LayersOk(t.appear.Keys, {}, layers, level)
    requires |stages| == |layers| && forall i ::
               0 <= i < |layers| ==> stages[i] == StageProbs(t.appear, layers[i], parentTraceCount)
    ensures StagesHold(traces, parentTraceCount, stages, level) && LayersOf(stages) == layers
  {
    forall i | 0 <= i < |layers| ensures stages[i].Keys == layers[i] {
      assert forall c :: c in layers[i] ==> c in level;
    }
    forall i, c | 0 <= i < |stages| && c in stages[i]
      ensures IsRate(stages[i][c], Precedence.AppearCount(traces, c), parentTraceCount)
    {
      assert GetOr(t.appear, c, 0) == Precedence.AppearCount(traces, c);
      RateIs(Precedence.AppearCount(traces, c), parentTraceCount);
    }
  }

  lemma EdgesBetweenChildren(traces: seq<Precedence.Trace>, t: Precedence.Tables, weights: map<Edge, real>)
    requires Precedence.TablesOk(traces, t) && Precedence.EdgesOk(traces, weights)
    ensures forall a, b :: (a, b) in weights <==> Precedence.IsEdge(traces, a, b)
    ensures forall e :: e in weights ==> e.0 in t.appear && e.1 in t.appear
  {
    forall a, b ensures (a, b) in weights <==> Precedence.IsEdge(traces, a, b) {
      assert Precedence.EdgeHandled(traces, weights, {}, a, b);
    }
    forall e | e in weights ensures e.0 in t.appear && e.1 in t.appear {
      var (a, b) := e;
      assert Precedence.IsEdge(traces, a, b);
      Precedence.CountFacts(traces, a, b);
      Precedence.CountFacts(traces, b, a);
    }
  }

  /**
   Stages with the share of parent traces in which each child appears. The
   stages are the layers that the moves on the precedence relation lead to.
   */
  method Aggregate(traces: seq<Precedence.Trace>, parentTraceCount: int)
    returns (stages: seq<map<Name, real>>, ghost level: map<Name, int>, ghost weights: map<Edge, real>,
             ghost deleted: set<Edge>,
             ghost moves: seq<Move>)
    ensures Precedence.EdgesOk(traces, weights)
    ensures forall a, b :: (a, b) in weights <==> Precedence.IsEdge(traces, a, b)
    ensures StagesHold(traces, parentTraceCount, stages, level)
    ensures parentTraceCount >= |traces| ==> Probabilities(traces, parentTraceCount, stages)
    ensures Legal(weights, Board(level.Keys, weights.Keys, []), moves)
    ensures Play(Board(level.Keys, weights.Keys, []), moves) == Board({}, weights.Keys - deleted, LayersOf(stages))
    ensures LevelsRise(weights.Keys - deleted, level) && deleted <= weights.Keys
    ensures deleted == {} <==> !HasCycle(weights.Keys)
    ensures deleted == {} ==> forall c :: c in level ==> IsLongest(weights.Keys, c, level[c])
  {
    var t := Precedence.CountTraces(traces);
    var built := Precedence.BuildEdges(traces, t);
    EdgesBetweenChildren(traces, t, built);
    hide HasCycle, IsLongest, LevelsRise, Legal, Play, StagesHold, LayersOf, Probabilities;
    var layers, lv, dl, mv, clamped, gaveUp := Layer(t.appear.Keys, built);
    level, weights, deleted, moves := lv, built, dl, mv;
    stages := StagesFrom(layers, t.appear, parentTraceCount);
    StagesAreLayers(traces, t, parentTraceCount, layers, level, stages);
    if parentTraceCount >= |traces| {
      RatesAreProbabilities(traces, parentTraceCount, stages, level);
    }
    assert level.Keys == t.appear.Keys;
  }
}
