/**
 Walks, cycles and rankings of finite directed graphs, given as sets of edges.
 */
module Graphs {

  /** Consecutive nodes of `p` are joined by edges. */
  ghost predicate IsWalk<N>(edges: set<(N, N)>, p: seq<N>) {
    forall i :: 0 <= i < |p| - 1 ==> (p[i], p[i + 1]) in edges
  }

  lemma WalkTail<N>(edges: set<(N, N)>, p: seq<N>)
    requires |p| > 0 && IsWalk(edges, p)
    ensures IsWalk(edges, p[1..])
  {
    forall i | 0 <= i < |p| - 2 ensures (p[1..][i], p[1..][i + 1]) in edges {
      var j := i + 1;
      assert (p[j], p[j + 1]) in edges;
    }
  }

  /** A closed walk with at least one edge. */
  ghost predicate IsCycle<N>(edges: set<(N, N)>, p: seq<N>) {
    |p| >= 2 && p[0] == p[|p| - 1] && IsWalk(edges, p)
  }

  ghost predicate Distinct<N>(p: seq<N>) {
    forall i, j :: 0 <= i < j < |p| ==> p[i] != p[j]
  }

  /** A cycle that visits no node twice, apart from closing where it began. */
  ghost predicate IsSimpleCycle<N>(edges: set<(N, N)>, p: seq<N>) {
    IsCycle(edges, p) && Distinct(p[1..])
  }

  ghost predicate HasCycle<N(!new)>(edges: set<(N, N)>) {
    exists p: seq<N> :: IsCycle(edges, p)
  }

  /** Every edge strictly lowers the rank. */
  ghost predicate IsRanking<N(!new)>(edges: set<(N, N)>, rank: map<N, int>) {
    forall u, v :: (u, v) in edges ==> u in rank && v in rank && rank[v] < rank[u]
  }

  lemma {:induction false} WalkLowersRank<N(!new)>(edges: set<(N, N)>, rank: map<N, int>, p: seq<N>)
    requires IsRanking(edges, rank) && IsWalk(edges, p) && |p| >= 2
    ensures p[0] in rank && p[|p| - 1] in rank && rank[p[|p| - 1]] <= rank[p[0]] - (|p| - 1)
  {
    assert (p[0], p[0 + 1]) in edges;
    if |p| > 2 {
      WalkLowersRank(edges, rank, p[1..]);
    }
  }

  lemma RankedHasNoCycle<N(!new)>(edges: set<(N, N)>, rank: map<N, int>)
    requires IsRanking(edges, rank)
    ensures !HasCycle(edges)
  {
    forall p: seq<N> ensures !IsCycle(edges, p) {
      if IsCycle(edges, p) {
        WalkLowersRank(edges, rank, p);
      }
    }
  }

  lemma {:induction false} DistinctFits<N>(p: seq<N>, s: set<N>)
    requires Distinct(p)
    requires forall i :: 0 <= i < |p| ==> p[i] in s
    ensures |p| <= |s|
  {
    if |p| > 0 {
      DistinctFits(p[1..], s - {p[0]});
    }
  }

  ghost predicate HasPredecessorIn<N>(edges: set<(N, N)>, s: set<N>, v: N) {
    exists u :: u in s && (u, v) in edges
  }

  ghost predicate Sourceless<N(!new)>(edges: set<(N, N)>, s: set<N>) {
    s != {} && forall v {:trigger HasPredecessorIn(edges, s, v)} :: v in s ==> HasPredecessorIn(edges, s, v)
  }

  /** When every node of `s` has a predecessor in `s`, walks can be grown backwards for ever. */
  lemma {:induction false} BackwardWalk<N(!new)>(edges: set<(N, N)>, s: set<N>, n: nat) returns (p: seq<N>)
    requires Sourceless(edges, s)
    ensures |p| == n + 1 && IsWalk(edges, p)
    ensures forall i :: 0 <= i < |p| ==> p[i] in s
  {
    if n == 0 {
      var v :| v in s;
      p := [v];
    } else {
      var q := BackwardWalk(edges, s, n - 1);
      assert HasPredecessorIn(edges, s, q[0]);
      var u :| u in s && (u, q[0]) in edges;
      p := [u] + q;
      assert forall i :: 0 < i < |p| ==> p[i] == q[i - 1];
    }
  }

  lemma NoSourceMeansCycle<N(!new)>(edges: set<(N, N)>, s: set<N>)
    requires Sourceless(edges, s)
    ensures HasCycle(edges)
  {
    var p := BackwardWalk(edges, s, |s|);
    if Distinct(p) {
      DistinctFits(p, s);
    }
    var i, j :| 0 <= i < j < |p| && p[i] == p[j];
    assert IsCycle(edges, p[i..j + 1]);
  }

  // ----- graphs given by successor lists

  type Adjacency<N(==)> = map<N, seq<N>>

  /** Every successor is itself a node. */
  ghost predicate Closed<N>(adj: Adjacency<N>) {
    forall u, i :: u in adj && 0 <= i < |adj[u]| ==> adj[u][i] in adj
  }

  ghost function EdgesOf<N>(adj: Adjacency<N>): set<(N, N)> {
    set u, i | u in adj && 0 <= i < |adj[u]| :: (u, adj[u][i])
  }
}
