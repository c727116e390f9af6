/**
 The iterative three-colour depth-first search of `cycle_check.py`, which looks
 for a cycle in a call graph and reports one.
 */
module CycleCheck {
  import opened Collections
  import opened Names
  import opened Graphs

  datatype Color = White | Gray | Black

  // ----- reading the edge list

  datatype Row = Row(caller: Name, callee: Name)

  predicate Kept(row: Row, ignoreSelfLoops: bool) {
    |row.caller.text| > 0 && |row.callee.text| > 0 && !(ignoreSelfLoops && row.caller == row.callee)
  }

  ghost function KeptEdges(rows: seq<Row>, ignoreSelfLoops: bool): set<(Name, Name)> {
    set i | 0 <= i < |rows| && Kept(rows[i], ignoreSelfLoops) :: (rows[i].caller, rows[i].callee)
  }

  /** Rows with both names are edges, but not from a node to itself if such edges are ignored. */
  lemma KeptExactly(rows: seq<Row>, ignoreSelfLoops: bool, u: Name, v: Name)
    ensures (u, v) in KeptEdges(rows, ignoreSelfLoops) <==>
            Row(u, v) in rows && u.text != "" && v.text != "" && (u != v || !ignoreSelfLoops)
  {
    if Row(u, v) in rows {
      var i :| 0 <= i < |rows| && rows[i] == Row(u, v);
    }
  }

  /** A node that calls itself is a cycle exactly when such edges are not ignored. */
  lemma SelfLoopIsCycle(rows: seq<Row>, ignoreSelfLoops: bool, u: Name)
    ensures IsCycle(KeptEdges(rows, ignoreSelfLoops), [u, u]) <==> Row(u, u) in rows && u.text != "" && !ignoreSelfLoops
  {
    KeptExactly(rows, ignoreSelfLoops, u, u);
    var p := [u, u];
    assert p[0] == u && p[0 + 1] == u;
    hide KeptEdges;
  }

  ghost predicate Touches(edges: set<(Name, Name)>, u: Name) {
    exists v :: (u, v) in edges || (v, u) in edges
  }

  lemma KeptEdgesSnoc(rows: seq<Row>, row: Row, ignoreSelfLoops: bool)
    ensures KeptEdges(rows + [row], ignoreSelfLoops) ==
            KeptEdges(rows, ignoreSelfLoops) +
            if Kept(row, ignoreSelfLoops) then {(row.caller, row.callee)} else {}
  {
    var all := rows + [row];
    assert all[|rows|] == row;
    forall i | 0 <= i < |rows| && Kept(rows[i], ignoreSelfLoops)
      ensures (rows[i].caller, rows[i].callee) in KeptEdges(all, ignoreSelfLoops)
    {
      assert all[i] == rows[i];
    }
  }

  lemma AppendAddsEdge(adj: Adjacency<Name>, u: Name, v: Name)
    ensures EdgesOf(adj[u := GetOr(adj, u, []) + [v]]) == EdgesOf(adj) + {(u, v)}
  {
    var old' := GetOr(adj, u, []);
    var adj' := adj[u := old' + [v]];
    assert (u, adj'[u][|old'|]) in EdgesOf(adj');
    forall e | e in EdgesOf(adj) ensures e in EdgesOf(adj') {
      var w, i :| w in adj && 0 <= i < |adj[w]| && e == (w, adj[w][i]);
      assert adj'[w][i] == adj[w][i];
    }
    forall e | e in EdgesOf(adj') ensures e in EdgesOf(adj) + {(u, v)} {
      var w, i :| w in adj' && 0 <= i < |adj'[w]| && e == (w, adj'[w][i]);
      if w != u || i < |old'| {
        assert adj'[w][i] == adj[w][i];
      }
    }
  }

  /** Giving every node an entry adds no edge. */
  lemma SinksAddNoEdge(adj: Adjacency<Name>, nodes: set<Name>)
    requires adj.Keys <= nodes
    ensures EdgesOf(map n | n in nodes :: GetOr(adj, n, [])) == EdgesOf(adj)
  {
    var adj' := map n | n in nodes :: GetOr(adj, n, []);
    forall e | e in EdgesOf(adj) ensures e in EdgesOf(adj') {
      var w, i :| w in adj && 0 <= i < |adj[w]| && e == (w, adj[w][i]);
      assert adj'[w][i] == adj[w][i];
    }
    forall e | e in EdgesOf(adj') ensures e in EdgesOf(adj) {
      var w, i :| w in adj' && 0 <= i < |adj'[w]| && e == (w, adj'[w][i]);
      assert adj'[w][i] == adj[w][i];
    }
  }

  /** Builds the adjacency from the stripped rows of the edge list. */
  method ReadEdges(rows: seq<Row>, ignoreSelfLoops: bool) returns (adj: Adjacency<Name>)
    ensures Closed(adj)
    ensures EdgesOf(adj) == KeptEdges(rows, ignoreSelfLoops)
    ensures forall u :: u in adj <==> Touches(EdgesOf(adj), u)
  {
    adj := map[];
    var nodes: set<Name> := {};
    for i := 0 to |rows|
      invariant adj.Keys <= nodes
      invariant forall u :: u in nodes <==> Touches(EdgesOf(adj), u)
      invariant EdgesOf(adj) == KeptEdges(rows[..i], ignoreSelfLoops)
    {
      var row := rows[i];
      assert rows[..i + 1] == rows[..i] + [row];
      KeptEdgesSnoc(rows[..i], row, ignoreSelfLoops);
      if Kept(row, ignoreSelfLoops) {
        AppendAddsEdge(adj, row.caller, row.callee);
        ghost var edges := EdgesOf(adj);
        nodes := nodes + {row.caller, row.callee};
        adj := adj[row.caller := GetOr(adj, row.caller, []) + [row.callee]];
        TouchesMore(edges, row.caller, row.callee);
      }
    }
    assert rows[..|rows|] == rows;
    SinksAddNoEdge(adj, nodes);
    adj := map n | n in nodes :: GetOr(adj, n, []);
    forall u, i | u in adj && 0 <= i < |adj[u]| ensures adj[u][i] in adj {
      assert (u, adj[u][i]) in EdgesOf(adj);
      assert Touches(EdgesOf(adj), adj[u][i]);
    }
  }

  lemma TouchesMore(edges: set<(Name, Name)>, a: Name, b: Name)
    ensures forall u :: Touches(edges + {(a, b)}, u) <==> Touches(edges, u) || u == a || u == b
  {
    assert (a, b) in edges + {(a, b)};
    forall u | Touches(edges, u) ensures Touches(edges + {(a, b)}, u) {
      var v :| (u, v) in edges || (v, u) in edges;
      assert (u, v) in edges + {(a, b)} || (v, u) in edges + {(a, b)};
    }
  }

  // ----- the invariant of the search

  /**
   Where the search stands. `gray` holds the nodes of the current path, `rank` the
   order in which nodes were finished, and `pending` the neighbour that was just
   pushed above the path and has not been popped yet.
   */
  datatype Ghosts = Ghosts(gray: set<Name>, rank: map<Name, int>, pending: Option<Name>)

  /** The path visits no node twice, and its nodes are the grey ones. */
  ghost predicate PathOk(path: seq<Name>, gray: set<Name>) {
    Distinct(path) && forall u :: u in gray <==> u in path
  }

  /** Grey nodes are on the current path, black nodes are the finished ones. */
  ghost predicate ColorsOk(adj: Adjacency<Name>, color: map<Name, Color>, g: Ghosts) {
    && color.Keys == adj.Keys
    && (forall u :: u in g.gray ==> u in adj && u !in g.rank)
    && (forall u :: u in color ==> color[u] == if u in g.gray then Gray else if u in g.rank then Black else White)
  }

  /** Nodes finish after all of their successors. */
  ghost predicate RankOk(adj: Adjacency<Name>, rank: map<Name, int>) {
    && rank.Keys <= adj.Keys
    && (forall u :: u in rank ==> rank[u] < |rank|)
    && (forall u, j :: u in rank && 0 <= j < |adj[u]| ==> adj[u][j] in rank && rank[adj[u][j]] < rank[u])
  }

  ghost predicate LinkedAt(parent: map<Name, Name>, path: seq<Name>, i: int)
    requires 0 < i < |path|
  {
    Lookup(parent, path[i]) == Some(path[i - 1])
  }

  /** Parent pointers of the path lead down to its start, which has none. */
  ghost predicate ParentsOk(parent: map<Name, Name>, path: seq<Name>, g: Ghosts) {
    && (forall i {:trigger LinkedAt(parent, path, i)} :: 0 < i < |path| ==> LinkedAt(parent, path, i))
    && (|path| > 0 ==> path[0] !in parent)
    && (forall u :: u in parent ==> u in g.rank || u in g.gray || g.pending == Some(u))
    && (g.pending.Some? && |path| == 0 ==> g.pending.value !in parent)
    && (g.pending.Some? && |path| > 0 ==> Lookup(parent, g.pending.value) == Some(path[|path| - 1]))
  }

  /** The node that the search entered, or is about to enter, from `path[i]`. */
  ghost function NextUp(path: seq<Name>, pending: Option<Name>, i: nat): Option<Name>
    requires i < |path|
  {
    if i + 1 < |path| then Some(path[i + 1]) else pending
  }

  /** An iterator that has passed `n` neighbours, all finished except perhaps the last, which is `next`. */
  ghost predicate IterOk(neighbors: seq<Name>, n: nat, rank: map<Name, int>, next: Option<Name>) {
    && n <= |neighbors|
    && (forall j :: 0 <= j < n - 1 ==> neighbors[j] in rank)
    && (if next.Some? then n > 0 && neighbors[n - 1] == next.value else n > 0 ==> neighbors[n - 1] in rank)
  }

  ghost predicate ItersOk(adj: Adjacency<Name>, path: seq<Name>, iters: seq<nat>, g: Ghosts) {
    && |iters| == |path|
    && (forall i {:trigger iters[i]} :: 0 <= i < |path| ==>
          path[i] in adj && IterOk(adj[path[i]], iters[i], g.rank, NextUp(path, g.pending, i)))
  }

  /** At the head of the loop the work stack is the path with the pending node above it. */
  ghost predicate SearchInv(adj: Adjacency<Name>, color: map<Name, Color>, parent: map<Name, Name>,
                            path: seq<Name>, iters: seq<nat>, g: Ghosts)
  {
    && (g.pending.Some? ==> g.pending.value in adj && g.pending.value !in g.gray)
    && PathOk(path, g.gray)
    && ColorsOk(adj, color, g)
    && RankOk(adj, g.rank)
    && ParentsOk(parent, path, g)
    && ItersOk(adj, path, iters, g)
  }

  ghost function StackOf(path: seq<Name>, g: Ghosts): seq<Name> {
    path + if g.pending.Some? then [g.pending.value] else []
  }

  // ----- each branch of the loop keeps the invariant

  ghost function Entered(path: seq<Name>, g: Ghosts): Ghosts
    requires g.pending.Some?
  {
    Ghosts(g.gray + {g.pending.value}, g.rank, None)
  }

  lemma EnterWhite(adj: Adjacency<Name>, color: map<Name, Color>, parent: map<Name, Name>,
                   path: seq<Name>, iters: seq<nat>, g: Ghosts, v: Name)
    requires SearchInv(adj, color, parent, path, iters, g) && g.pending == Some(v)
    requires color[v] == White
    ensures SearchInv(adj, color[v := Gray], parent, path + [v], iters + [0], Entered(path, g))
  {
    EnterIters(adj, path, iters, g, v);
    EnterParents(parent, path, g, v);
    hide ItersOk, ParentsOk, RankOk;
    assert ColorsOk(adj, color[v := Gray], Entered(path, g));
    hide ColorsOk;
    assert PathOk(path + [v], g.gray + {v});
  }

  lemma EnterIters(adj: Adjacency<Name>, path: seq<Name>, iters: seq<nat>, g: Ghosts, v: Name)
    requires ItersOk(adj, path, iters, g) && g.pending == Some(v) && v in adj
    ensures ItersOk(adj, path + [v], iters + [0], Entered(path, g))
  {
    var path', iters' := path + [v], iters + [0];
    assert forall i :: 0 <= i < |path| ==> NextUp(path', None, i) == NextUp(path, g.pending, i);
    hide NextUp;
    forall i | 0 <= i < |path'|
      ensures path'[i] in adj && IterOk(adj[path'[i]], iters'[i], g.rank, NextUp(path', None, i))
    {
      if i < |path| {
        assert iters[i] >= 0;
      } else {
        assert NextUp(path', None, i) == None by { TopHasNoNext(path', i); }
      }
    }
  }

  lemma TopHasNoNext(path: seq<Name>, i: nat)
    requires i + 1 == |path|
    ensures NextUp(path, None, i) == None
  {
  }

  lemma EnterParents(parent: map<Name, Name>, path: seq<Name>, g: Ghosts, v: Name)
    requires ParentsOk(parent, path, g) && g.pending == Some(v)
    ensures ParentsOk(parent, path + [v], Entered(path, g))
  {
    var path' := path + [v];
    forall i | 0 < i < |path'| ensures LinkedAt(parent, path', i) {
      assert i < |path| ==> LinkedAt(parent, path, i);
    }
  }

  lemma SkipBlack(adj: Adjacency<Name>, color: map<Name, Color>, parent: map<Name, Name>,
                  path: seq<Name>, iters: seq<nat>, g: Ghosts, v: Name)
    requires SearchInv(adj, color, parent, path, iters, g) && g.pending == Some(v)
    requires color[v] == Black
    ensures SearchInv(adj, color, parent, path, iters, g.(pending := None))
  {
    assert forall i :: 0 <= i < |path| - 1 ==> NextUp(path, None, i) == NextUp(path, g.pending, i);
    assert ItersOk(adj, path, iters, g.(pending := None));
  }

  lemma TakeIters(adj: Adjacency<Name>, path: seq<Name>, iters: seq<nat>, g: Ghosts, v: Name)
    requires ItersOk(adj, path, iters, g) && g.pending == None
    requires |path| > 0 && path[|path| - 1] in adj && iters[|path| - 1] < |adj[path[|path| - 1]]|
    requires v == adj[path[|path| - 1]][iters[|path| - 1]]
    ensures ItersOk(adj, path, iters[|path| - 1 := iters[|path| - 1] + 1], g.(pending := Some(v)))
  {
    var last := |path| - 1;
    assert NextUp(path, None, last) == None;
    var iters' := iters[last := iters[last] + 1];
    forall i | 0 <= i < |path|
      ensures path[i] in adj && IterOk(adj[path[i]], iters'[i], g.rank, NextUp(path, Some(v), i))
    {
      assert iters[i] >= 0;
    }
  }

  lemma TakeNeighbor(adj: Adjacency<Name>, color: map<Name, Color>, parent: map<Name, Name>,
                     path: seq<Name>, iters: seq<nat>, g: Ghosts, v: Name)
    requires Closed(adj)
    requires SearchInv(adj, color, parent, path, iters, g) && g.pending == None
    requires |path| > 0 && iters[|path| - 1] < |adj[path[|path| - 1]]|
    requires v == adj[path[|path| - 1]][iters[|path| - 1]] && v !in g.gray
    ensures SearchInv(adj, color, parent[v := path[|path| - 1]], path,
                      iters[|path| - 1 := iters[|path| - 1] + 1], g.(pending := Some(v)))
  {
    TakeIters(adj, path, iters, g, v);
    var parent' := parent[v := path[|path| - 1]];
    forall i | 0 < i < |path| ensures LinkedAt(parent', path, i) {
      assert LinkedAt(parent, path, i) && path[i] in g.gray;
    }
  }

  ghost function Finished(path: seq<Name>, g: Ghosts): Ghosts
    requires |path| > 0
  {
    var u := path[|path| - 1];
    Ghosts(g.gray - {u}, g.rank[u := |g.rank|], None)
  }

  lemma FinishPath(path: seq<Name>, g: Ghosts)
    requires |path| > 0 && PathOk(path, g.gray)
    ensures PathOk(path[..|path| - 1], Finished(path, g).gray)
  {
    assert path == path[..|path| - 1] + [path[|path| - 1]];
  }

  lemma FinishRank(adj: Adjacency<Name>, rank: map<Name, int>, u: Name)
    requires RankOk(adj, rank) && u in adj && u !in rank
    requires forall j :: 0 <= j < |adj[u]| ==> adj[u][j] in rank
    ensures RankOk(adj, rank[u := |rank|])
  {
    assert rank[u := |rank|].Keys == rank.Keys + {u};
  }

  lemma FinishIters(adj: Adjacency<Name>, path: seq<Name>, iters: seq<nat>, g: Ghosts)
    requires |path| > 0 && ItersOk(adj, path, iters, g)
    ensures ItersOk(adj, path[..|path| - 1], iters[..|path| - 1], Finished(path, g))
  {
    var last := |path| - 1;
    var g' := Finished(path, g);
    forall i | 0 <= i < last
      ensures path[i] in adj && IterOk(adj[path[i]], iters[i], g'.rank, NextUp(path[..last], None, i))
    {
      assert iters[i] >= 0;
    }
  }

  lemma FinishParents(parent: map<Name, Name>, path: seq<Name>, g: Ghosts)
    requires |path| > 0 && g.pending == None && ParentsOk(parent, path, g)
    ensures ParentsOk(parent, path[..|path| - 1], Finished(path, g))
  {
    var last := |path| - 1;
    forall i | 0 < i < last ensures LinkedAt(parent, path[..last], i) {
      assert LinkedAt(parent, path, i);
    }
  }

  lemma FinishNode(adj: Adjacency<Name>, color: map<Name, Color>, parent: map<Name, Name>,
                   path: seq<Name>, iters: seq<nat>, g: Ghosts)
    requires SearchInv(adj, color, parent, path, iters, g) && g.pending == None
    requires |path| > 0 && iters[|path| - 1] == |adj[path[|path| - 1]]|
    ensures SearchInv(adj, color[path[|path| - 1] := Black], parent,
                      path[..|path| - 1], iters[..|path| - 1], Finished(path, g))
  {
    var last := |path| - 1;
    assert NextUp(path, None, last) == None && path[last] in path;
    FinishPath(path, g);
    FinishRank(adj, g.rank, path[last]);
    FinishIters(adj, path, iters, g);
    FinishParents(parent, path, g);
    assert ColorsOk(adj, color[path[last] := Black], Finished(path, g));
  }

  // ----- the parent chain

  /**
   Following parent pointers from the last node of `p` yields `p` backwards. It
   ends where it began when `closes`, and at a node without a parent otherwise.
   */
  ghost predicate ParentChain(parent: map<Name, Name>, p: seq<Name>, closes: bool)
    requires |p| > 0
  {
    var top := p[|p| - 1];
    && (forall i {:trigger LinkedAt(parent, p, i)} :: 0 < i < |p| ==> LinkedAt(parent, p, i))
    && (forall i :: (if closes then 1 else 0) <= i < |p| - 1 ==> p[i] != top)
    && (if closes then |p| > 1 && p[0] == top else p[0] !in parent)
  }

  /** Rebuilds the cycle through `top`; the guard against malformed chains never trips. */
  method Reconstruct(top: Name, parent: map<Name, Name>, nodeCount: nat, ghost p: seq<Name>, ghost closes: bool)
    returns (cycle: Option<seq<Name>>, ghost tripped: bool)
    requires 0 < |p| <= nodeCount + 1 && p[|p| - 1] == top
    requires ParentChain(parent, p, closes)
    ensures !tripped
    ensures cycle == if closes then Some(p) else None
  {
    tripped := false;
    var trail := [top];
    var cur := Lookup(parent, top);
    ghost var n := |p| - 1;
    assert n > 0 ==> LinkedAt(parent, p, n);
    while cur.Some? && cur.value != top
      invariant 0 <= n < |p| && trail == Reversed(p[n..]) && !tripped
      invariant closes ==> n > 0
      invariant cur == if n > 0 then Some(p[n - 1]) else None
      decreases n
    {
      assert Reversed(p[n - 1..]) == trail + [cur.value];
      trail := trail + [cur.value];
      cur := Lookup(parent, cur.value);
      n := n - 1;
      assert n > 0 ==> LinkedAt(parent, p, n);
      if |trail| > nodeCount + 1 {
        tripped := true;
        break;
      }
    }
    if cur == Some(top) {
      assert n == 1;
      cycle := Some(Reversed(trail + [top]));
      assert cycle.value == p;
    } else {
      cycle := None;
    }
  }

  /** A grey neighbour closes exactly the part of the path above it. */
  lemma BackEdgeChain(parent: map<Name, Name>, path: seq<Name>, k: nat)
    requires k < |path| && Distinct(path)
    requires forall i {:trigger LinkedAt(parent, path, i)} :: 0 < i < |path| ==> LinkedAt(parent, path, i)
    ensures ParentChain(parent[path[k] := path[|path| - 1]], path[k..] + [path[k]], true)
  {
    var p := path[k..] + [path[k]];
    var parent' := parent[path[k] := path[|path| - 1]];
    forall i | 0 < i < |p| ensures LinkedAt(parent', p, i) {
      assert i < |p| - 1 ==> LinkedAt(parent, path, k + i);
    }
  }

  lemma BackEdgeCycle(adj: Adjacency<Name>, path: seq<Name>, iters: seq<nat>, g: Ghosts, k: nat, j: nat)
    requires Distinct(path) && ItersOk(adj, path, iters, g)
    requires k < |path| && path[|path| - 1] in adj
    requires j < |adj[path[|path| - 1]]| && adj[path[|path| - 1]][j] == path[k]
    ensures IsSimpleCycle(EdgesOf(adj), path[k..] + [path[k]])
  {
    var c := path[k..] + [path[k]];
    forall i | 0 <= i < |c| - 1 ensures (c[i], c[i + 1]) in EdgesOf(adj) {
      assert c[i] == path[k + i];
      if i < |c| - 2 {
        assert NextUp(path, g.pending, k + i) == Some(path[k + i + 1]);
        assert iters[k + i] >= 0;
        assert IterOk(adj[path[k + i]], iters[k + i], g.rank, NextUp(path, g.pending, k + i));
        assert adj[path[k + i]][iters[k + i] - 1] == c[i + 1];
      }
    }
  }

  // ----- the search

  datatype Search = Search(color: map<Name, Color>, parent: map<Name, Name>,
                           stack: seq<Name>, path: seq<Name>, iters: seq<nat>)

  ghost predicate Inv(adj: Adjacency<Name>, s: Search, g: Ghosts) {
    SearchInv(adj, s.color, s.parent, s.path, s.iters, g) && s.stack == StackOf(s.path, g)
  }

  /** The top of the stack is grey and was just reached by the edge that closes the cycle `c`. */
  ghost predicate Closing(adj: Adjacency<Name>, s: Search, c: seq<Name>) {
    && 0 < |c| <= |adj| + 1
    && IsSimpleCycle(EdgesOf(adj), c)
    && ParentChain(s.parent, c, true)
    && |s.stack| > 0 && s.stack[|s.stack| - 1] == c[|c| - 1]
    && Lookup(s.color, c[|c| - 1]) == Some(Gray)
  }

  lemma HeadFacts(adj: Adjacency<Name>, s: Search, g: Ghosts)
    requires Inv(adj, s, g)
    ensures s.stack == s.path + if g.pending.Some? then [g.pending.value] else []
    ensures s.color.Keys == adj.Keys && |s.iters| == |s.path|
    ensures g.pending.Some? ==> g.pending.value in adj && s.color[g.pending.value] != Gray
    ensures forall u :: u in s.path ==> u in adj && s.color[u] == Gray
    ensures forall u :: u in adj && s.color[u] == Black ==> u in g.rank
    ensures |s.path| > 0 ==> s.path[|s.path| - 1] in s.path
    ensures |s.path| > 0 ==> s.iters[|s.path| - 1] <= |adj[s.path[|s.path| - 1]]|
  {
    if |s.path| > 0 {
      assert s.path[|s.path| - 1] in s.path && s.iters[|s.path| - 1] >= 0;
    }
  }

  /** Pushing a neighbour that is already grey leaves a closing stack. */
  lemma CloseCycle(adj: Adjacency<Name>, s: Search, g: Ghosts, s': Search, k: nat, j: nat)
    requires Inv(adj, s, g) && g.pending == None && k < |s.path|
    requires s.path[|s.path| - 1] in adj && j < |adj[s.path[|s.path| - 1]]|
    requires adj[s.path[|s.path| - 1]][j] == s.path[k]
    requires |s'.stack| > 0 && s'.stack[|s'.stack| - 1] == s.path[k] && s'.color == s.color
    requires s'.parent == s.parent[s.path[k] := s.path[|s.path| - 1]]
    ensures Closing(adj, s', s.path[k..] + [s.path[k]])
  {
    BackEdgeChain(s.parent, s.path, k);
    BackEdgeCycle(adj, s.path, s.iters, g, k, j);
    DistinctFits(s.path, adj.Keys);
    assert s.path[k] in s.path;
  }

  /** Asks the iterator of the last node of the path for one more neighbour and pushes it. */
  method Advance(adj: Adjacency<Name>, s: Search, ghost g: Ghosts)
    returns (took: bool, s': Search, ghost g': Ghosts, ghost c: seq<Name>)
    requires Closed(adj) && Inv(adj, s, g) && g.pending == None && |s.path| > 0
    ensures |s.iters| == |s.path| && s.path[|s.path| - 1] in adj
    ensures took <==> s.iters[|s.path| - 1] < |adj[s.path[|s.path| - 1]]|
    ensures !took ==> s' == s && s.iters[|s.path| - 1] == |adj[s.path[|s.path| - 1]]|
    ensures took ==> s'.color == s.color && s'.path == s.path && s.stack <= s'.stack
    ensures took ==> s'.iters == s.iters[|s.path| - 1 := s.iters[|s.path| - 1] + 1]
    ensures c == [] ==> Inv(adj, s', g') && g'.rank == g.rank
    ensures c != [] ==> took && Closing(adj, s', c)
  {
    hide Inv, SearchInv, Closing, StackOf;
    HeadFacts(adj, s, g);
    var last := |s.path| - 1;
    var u := s.path[last];
    took, s', g', c := false, s, g, [];
    if s.iters[last] < |adj[u]| {
      var v := adj[u][s.iters[last]];
      took := true;
      s' := s.(stack := s.stack + [v], parent := s.parent[v := u], iters := s.iters[last := s.iters[last] + 1]);
      if v in s.path {
        var k :| 0 <= k < |s.path| && s.path[k] == v;
        c := s.path[k..] + [v];
        CloseCycle(adj, s, g, s', k, s.iters[last]);
      } else {
        g' := g.(pending := Some(v));
        TakeStep(adj, s, g, v);
      }
    }
  }

  lemma SkipStep(adj: Adjacency<Name>, s: Search, g: Ghosts, v: Name)
    requires Inv(adj, s, g) && g.pending == Some(v) && Lookup(s.color, v) == Some(Black)
    ensures Inv(adj, s.(stack := s.path), g.(pending := None))
  {
    SkipBlack(adj, s.color, s.parent, s.path, s.iters, g, v);
  }

  lemma TakeStep(adj: Adjacency<Name>, s: Search, g: Ghosts, v: Name)
    requires Closed(adj) && Inv(adj, s, g) && g.pending == None && |s.path| > 0 && |s.iters| == |s.path|
    requires s.path[|s.path| - 1] in adj && s.iters[|s.path| - 1] < |adj[s.path[|s.path| - 1]]|
    requires v == adj[s.path[|s.path| - 1]][s.iters[|s.path| - 1]] && v !in s.path
    ensures Inv(adj, s.(stack := s.stack + [v], parent := s.parent[v := s.path[|s.path| - 1]],
                        iters := s.iters[|s.path| - 1 := s.iters[|s.path| - 1] + 1]), g.(pending := Some(v)))
  {
    assert SearchInv(adj, s.color, s.parent, s.path, s.iters, g) && s.stack == s.path && v !in g.gray;
    hide SearchInv, Closed;
    TakeNeighbor(adj, s.color, s.parent, s.path, s.iters, g, v);
  }

  ghost function Whites(s: Search): set<Name> {
    set u | u in s.color && s.color[u] == White
  }

  ghost function Left(adj: Adjacency<Name>, s: Search): int {
    if |s.path| == 0 || |s.iters| != |s.path| || s.path[|s.path| - 1] !in adj then 0
    else |adj[s.path[|s.path| - 1]]| - s.iters[|s.path| - 1]
  }

  /** One step of the search makes progress. */
  ghost predicate Smaller(adj: Adjacency<Name>, s': Search, s: Search) {
    || Whites(s') < Whites(s)
    || (Whites(s') == Whites(s) && |s'.path| < |s.path|)
    || (Whites(s') == Whites(s) && |s'.path| == |s.path| && 0 <= Left(adj, s') < Left(adj, s))
    || (Whites(s') == Whites(s) && |s'.path| == |s.path| && Left(adj, s') == Left(adj, s) && |s'.stack| < |s.stack|)
  }

  method Enter(adj: Adjacency<Name>, s: Search, ghost g: Ghosts, u: Name) returns (s': Search, ghost g': Ghosts)
    requires Inv(adj, s, g) && s.stack != [] && u == s.stack[|s.stack| - 1]
    requires Lookup(s.color, u) == Some(White)
    ensures Inv(adj, s', g') && g'.pending == None && g'.rank == g.rank
    ensures s' == s.(color := s.color[u := Gray], path := s.path + [u], iters := s.iters + [0])
    ensures Whites(s') < Whites(s)
  {
    assert g.pending == Some(u) by {
      assert g.pending == None ==> u in s.path;
    }
    EnterWhite(adj, s.color, s.parent, s.path, s.iters, g, u);
    s' := s.(color := s.color[u := Gray], path := s.path + [u], iters := s.iters + [0]);
    g' := Entered(s.path, g);
    assert u in Whites(s) && u !in Whites(s');
  }

  method Finish(adj: Adjacency<Name>, s: Search, ghost g: Ghosts) returns (s': Search, ghost g': Ghosts)
    requires Inv(adj, s, g) && g.pending == None && |s.path| > 0
    requires s.path[|s.path| - 1] in adj && s.iters[|s.path| - 1] == |adj[s.path[|s.path| - 1]]|
    ensures Inv(adj, s', g') && g'.pending == None && g'.rank.Keys == g.rank.Keys + {s.path[|s.path| - 1]}
    ensures s'.path == s.path[..|s.path| - 1] && Whites(s') == Whites(s)
  {
    HeadFacts(adj, s, g);
    hide Inv, SearchInv, Whites;
    var last := |s.path| - 1;
    s' := Search(s.color[s.path[last] := Black], s.parent, s.stack[..last], s.path[..last], s.iters[..last]);
    g' := Finished(s.path, g);
    FinishStep(adj, s, g, s', g');
  }

  lemma FinishStep(adj: Adjacency<Name>, s: Search, g: Ghosts, s': Search, g': Ghosts)
    requires Inv(adj, s, g) && g.pending == None && |s.path| > 0 && |s.iters| == |s.path| == |s.stack|
    requires s.path[|s.path| - 1] in adj && s.iters[|s.path| - 1] == |adj[s.path[|s.path| - 1]]|
    requires var n := |s.path| - 1;
             s' == Search(s.color[s.path[n] := Black], s.parent, s.stack[..n], s.path[..n], s.iters[..n]) &&
               g' == Finished(s.path, g)
    ensures Inv(adj, s', g') && Whites(s') == Whites(s)
  {
    HeadFacts(adj, s, g);
    var top := s.path[|s.path| - 1];
    assert s.color[top] == Gray && SearchInv(adj, s.color, s.parent, s.path, s.iters, g) && s.stack == s.path;
    hide Inv;
    FinishNode(adj, s.color, s.parent, s.path, s.iters, g);
    hide SearchInv;
    FinishWhites(s, s', top);
    EndInv(adj, s', g');
  }

  lemma FinishWhites(s: Search, s': Search, top: Name)
    requires Lookup(s.color, top) == Some(Gray) && s'.color == s.color[top := Black]
    ensures Whites(s') == Whites(s)
  {
  }

  lemma EndInv(adj: Adjacency<Name>, s: Search, g: Ghosts)
    requires SearchInv(adj, s.color, s.parent, s.path, s.iters, g) && g.pending == None && s.stack == s.path
    ensures Inv(adj, s, g)
  {
    hide SearchInv;
  }

  /** Pops one node and acts on its colour; `check` says whether the top is then examined. */
  method Step(adj: Adjacency<Name>, s: Search, ghost g: Ghosts)
    returns (check: bool, s': Search, ghost g': Ghosts, ghost c: seq<Name>)
    requires Closed(adj) && Inv(adj, s, g) && s.stack != []
    ensures c != [] ==> check && Closing(adj, s', c)
    ensures c == [] ==> Inv(adj, s', g') && Smaller(adj, s', s)
    ensures c == [] ==> g.rank.Keys <= g'.rank.Keys && KeepsStart(s, g, s', g')
  {
    hide Inv, SearchInv, Closing, StackOf;
    HeadFacts(adj, s, g);
    var u := s.stack[|s.stack| - 1];
    check := true;
    if s.color[u] == White {
      s', g' := Enter(adj, s, g, u);
      var _, t, h, d := Advance(adj, s', g');
      s', g', c := t, h, d;
    } else if s.color[u] == Gray {
      var took, t, h, d := Advance(adj, s, g);
      s', g', c := t, h, d;
      if !took {
        s', g' := Finish(adj, s, g);
        HeadFacts(adj, s', g');
      }
    } else {
      check, c := false, [];
      s', g' := s.(stack := s.path), g.(pending := None);
      assert Inv(adj, s', g') by {
        SkipStep(adj, s, g, u);
      }
    }
  }

  /** The node from which a search set out stays at the bottom of the path until it is finished. */
  ghost predicate KeepsStart(s: Search, g: Ghosts, s': Search, g': Ghosts) {
    |s.stack| > 0 && (if |s'.stack| > 0 then s'.stack[0] == s.stack[0] else s.stack[0] in g'.rank)
  }

  /** The check on the top of the stack reports a cycle exactly when an edge closed one. */
  method CheckTop(adj: Adjacency<Name>, s: Search, ghost g: Ghosts, ghost c: seq<Name>)
    returns (cycle: Option<seq<Name>>)
    requires c == [] ==> Inv(adj, s, g)
    requires c != [] ==> Closing(adj, s, c)
    ensures cycle == if c == [] then None else Some(c)
  {
    cycle := None;
    if s.stack != [] {
      var top := s.stack[|s.stack| - 1];
      if Lookup(s.color, top) == Some(Gray) {
        ghost var p := if c == [] then s.path else c;
        if c == [] {
          assert g.pending == None;
          DistinctFits(s.path, adj.Keys);
        }
        ghost var tripped;
        cycle, tripped := Reconstruct(top, s.parent, |adj|, p, c != []);
      }
    }
  }

  /** One search from a white `start`; without a cycle it finishes everything it reached. */
  method Dfs(adj: Adjacency<Name>, start: Name, color0: map<Name, Color>, parent0: map<Name, Name>,
             ghost rank0: map<Name, int>)
    returns (cycle: Option<seq<Name>>, color: map<Name, Color>, parent: map<Name, Name>, ghost rank: map<Name, int>)
    requires Closed(adj)
    requires Quiet(adj, color0, parent0, rank0) && Lookup(color0, start) == Some(White)
    ensures cycle.Some? ==> IsSimpleCycle(EdgesOf(adj), cycle.value)
    ensures cycle.None? ==> Quiet(adj, color, parent, rank) && rank0.Keys + {start} <= rank.Keys
  {
    var s := Search(color0, parent0, [start], [], []);
    ghost var g := Ghosts({}, rank0, Some(start));
    DfsStart(adj, s, g);
    hide Inv, Closing, Quiet, IsSimpleCycle, EdgesOf, Closed;
    while s.stack != []
      invariant Inv(adj, s, g)
      invariant rank0.Keys <= g.rank.Keys
      invariant if s.stack == [] then start in g.rank else s.stack[0] == start
      decreases Whites(s), |s.path|, Left(adj, s), |s.stack|
    {
      var check, t, h, c := Step(adj, s, g);
      if check {
        cycle := CheckTop(adj, t, h, c);
        if cycle.Some? {
          ClosingIsCycle(adj, t, c);
          return cycle, t.color, t.parent, h.rank;
        }
      }
      s, g := t, h;
    }
    DfsEnd(adj, s, g);
    return None, s.color, s.parent, g.rank;
  }

  lemma DfsStart(adj: Adjacency<Name>, s: Search, g: Ghosts)
    requires Quiet(adj, s.color, s.parent, g.rank) && s.path == [] && s.iters == []
    requires |s.stack| == 1 && g == Ghosts({}, g.rank, Some(s.stack[0])) && Lookup(s.color, s.stack[0]) == Some(White)
    ensures Inv(adj, s, g)
  {
  }

  lemma DfsEnd(adj: Adjacency<Name>, s: Search, g: Ghosts)
    requires Inv(adj, s, g) && s.stack == []
    ensures Quiet(adj, s.color, s.parent, g.rank)
  {
    assert forall u :: u !in g.gray;
    assert g.gray == {};
  }

  lemma ClosingIsCycle(adj: Adjacency<Name>, s: Search, c: seq<Name>)
    requires Closing(adj, s, c)
    ensures IsSimpleCycle(EdgesOf(adj), c)
  {
  }

  /** Between two searches: no grey node is left, and only finished nodes have parents. */
  ghost predicate Quiet(adj: Adjacency<Name>, color: map<Name, Color>, parent: map<Name, Name>, rank: map<Name, int>) {
    SearchInv(adj, color, parent, [], [], Ghosts({}, rank, None))
  }

  lemma QuietStart(adj: Adjacency<Name>, color: map<Name, Color>)
    requires color.Keys == adj.Keys && forall u :: u in color ==> color[u] == White
    ensures Quiet(adj, color, map[], map[])
  {
  }

  lemma QuietFacts(adj: Adjacency<Name>, color: map<Name, Color>, parent: map<Name, Name>, rank: map<Name, int>)
    requires Quiet(adj, color, parent, rank)
    ensures color.Keys == adj.Keys && RankOk(adj, rank)
    ensures forall u :: u in adj && color[u] != White ==> u in rank
  {
  }

  lemma SimpleCycleIsCycle(edges: set<(Name, Name)>, c: seq<Name>)
    requires IsSimpleCycle(edges, c)
    ensures HasCycle(edges)
  {
  }

  function AllWhite(adj: Adjacency<Name>): map<Name, Color> {
    map u | u in adj :: White
  }

  /** The nodes, each listed at least once. */
  ghost predicate Lists(order: seq<Name>, adj: Adjacency<Name>) {
    forall u :: u in order <==> u in adj
  }

  ghost predicate RankedUpTo(order: seq<Name>, n: nat, rank: map<Name, int>) {
    n <= |order| && forall j :: 0 <= j < n ==> order[j] in rank
  }

  lemma RankedNext(order: seq<Name>, i: nat, rank: map<Name, int>, rank': map<Name, int>)
    requires i < |order| && RankedUpTo(order, i, rank) && rank.Keys <= rank'.Keys && order[i] in rank'
    ensures RankedUpTo(order, i + 1, rank')
  {
  }

  method DfsUnlessVisited(adj: Adjacency<Name>, node: Name, color0: map<Name, Color>, parent0: map<Name, Name>,
                          ghost rank0: map<Name, int>)
    returns (cycle: Option<seq<Name>>, color: map<Name, Color>, parent: map<Name, Name>, ghost rank: map<Name, int>)
    requires Closed(adj) && node in adj && Quiet(adj, color0, parent0, rank0)
    ensures cycle.Some? ==> IsSimpleCycle(EdgesOf(adj), cycle.value)
    ensures cycle.None? ==> Quiet(adj, color, parent, rank) && rank0.Keys <= rank.Keys && node in rank
  {
    QuietFacts(adj, color0, parent0, rank0);
    hide Quiet, IsSimpleCycle, EdgesOf, Closed;
    cycle, color, parent, rank := None, color0, parent0, rank0;
    if color[node] == White {
      cycle, color, parent, rank := Dfs(adj, node, color, parent, rank);
    }
  }

  /** Searches from every node still white, in the order in which the adjacency lists its nodes. */
  method FindCycle(adj: Adjacency<Name>, order: seq<Name>) returns (cycle: Option<seq<Name>>)
    requires Closed(adj)
    requires Lists(order, adj)
    ensures cycle.Some? <==> HasCycle(EdgesOf(adj))
    ensures cycle.Some? ==> IsSimpleCycle(EdgesOf(adj), cycle.value)
  {
    var color := AllWhite(adj);
    var parent: map<Name, Name> := map[];
    ghost var rank: map<Name, int> := map[];
    QuietStart(adj, color);
    assert forall j :: 0 <= j < |order| ==> order[j] in adj;
    assert RankedUpTo(order, 0, rank);
    hide AllWhite, Lists, RankedUpTo, Quiet, HasCycle, IsSimpleCycle, RankOk, Closed, EdgesOf;
    for i := 0 to |order|
      invariant Quiet(adj, color, parent, rank)
      invariant RankedUpTo(order, i, rank)
    {
      ghost var before := rank;
      cycle, color, parent, rank := DfsUnlessVisited(adj, order[i], color, parent, rank);
      if cycle.Some? {
        SimpleCycleIsCycle(EdgesOf(adj), cycle.value);
        return;
      }
      RankedNext(order, i, before, rank);
    }
    AllRanked(adj, order, color, parent, rank);
    return None;
  }

  /** When every node has been finished, there is no cycle. */
  lemma AllRanked(adj: Adjacency<Name>, order: seq<Name>, color: map<Name, Color>, parent: map<Name, Name>,
                  rank: map<Name, int>)
    requires Closed(adj) && Lists(order, adj) && Quiet(adj, color, parent, rank)
    requires RankedUpTo(order, |order|, rank)
    ensures !HasCycle(EdgesOf(adj))
  {
    QuietFacts(adj, color, parent, rank);
    hide Quiet, HasCycle;
    forall u | u in adj ensures u in rank {
      assert u in order;
    }
    assert IsRanking(EdgesOf(adj), rank);
    RankedHasNoCycle(EdgesOf(adj), rank);
  }

  /** The nodes of the adjacency in some order. */
  method ListNodes(adj: Adjacency<Name>) returns (order: seq<Name>)
    ensures Lists(order, adj)
  {
    order := [];
    var rest := adj.Keys;
    while rest != {}
      invariant rest <= adj.Keys
      invariant forall u :: u in order <==> u in adj && u !in rest
      decreases rest
    {
      var u :| u in rest;
      order, rest := order + [u], rest - {u};
    }
  }

  /** The whole check: a cycle is reported exactly when the kept rows of the edge list form one. */
  method CheckEdgeList(rows: seq<Row>, ignoreSelfLoops: bool) returns (cycle: Option<seq<Name>>)
    ensures cycle.Some? <==> HasCycle(KeptEdges(rows, ignoreSelfLoops))
    ensures cycle.Some? ==> IsSimpleCycle(KeptEdges(rows, ignoreSelfLoops), cycle.value)
  {
    var adj := ReadEdges(rows, ignoreSelfLoops);
    var order := ListNodes(adj);
    hide HasCycle, IsSimpleCycle, KeptEdges, EdgesOf, Closed, Lists;
    cycle := FindCycle(adj, order);
  }
}
