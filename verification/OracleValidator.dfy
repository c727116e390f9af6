/**
 The recursive check of `oracle.rs` that a call graph is linear and acyclic, so
 that plans can be made for it.
 */
module OracleValidator {
  import opened Graphs
  import opened OraclePlan
  import opened CallGraph

  /** The planner only looks at the first call of each step. */
  ghost predicate CalledIn(sequence: Sequence, i: int, targets: set<CallTarget>)
    requires 0 <= i < |sequence|
  {
    |sequence[i]| > 0 ==> sequence[i][0].target in targets
  }

  ghost function CallEdges(methods: Methods): set<(CallTarget, CallTarget)> {
    set k, i | k in methods && 0 <= i < |methods[k]| && |methods[k][i]| > 0 :: (k, methods[k][i][0].target)
  }

  /** Every called method is defined. */
  ghost predicate AllDefined(methods: Methods) {
    forall k, t :: (k, t) in CallEdges(methods) ==> t in methods
  }

  datatype GraphError =
    | CycleIncludes(key: CallTarget)
    | MethodNotFound(key: CallTarget)
    | FanoutTooWide
    | BadProbability

  /** Visited methods only call visited methods of lower rank. */
  ghost predicate VisitedOk(methods: Methods, visited: set<CallTarget>, rank: map<CallTarget, int>) {
    && visited <= methods.Keys && rank.Keys == visited
    && (forall k :: k in rank ==> rank[k] < |rank|)
    && (forall k, t :: (k, t) in CallEdges(methods) && k in visited ==> t in visited && rank[t] < rank[k])
  }

  /** The methods being visited form a walk that leads to `key`. */
  ghost predicate PathOk(methods: Methods, visiting: set<CallTarget>, path: seq<CallTarget>, key: CallTarget) {
    && (forall k :: k in visiting <==> k in path)
    && IsWalk(CallEdges(methods), path + [key])
  }

  lemma ClosesCycle(methods: Methods, visiting: set<CallTarget>, path: seq<CallTarget>, key: CallTarget)
    requires PathOk(methods, visiting, path, key) && key in visiting
    ensures exists p :: IsCycle(CallEdges(methods), p) && p[0] == key
  {
    var i :| 0 <= i < |path| && path[i] == key;
    var p := path + [key];
    assert IsCycle(CallEdges(methods), p[i..]) && p[i..][0] == key;
  }

  lemma PathExtends(methods: Methods, visiting: set<CallTarget>, path: seq<CallTarget>, key: CallTarget, t: CallTarget)
    requires PathOk(methods, visiting, path, key) && (key, t) in CallEdges(methods)
    ensures PathOk(methods, visiting + {key}, path + [key], t)
  {
    var p, q := path + [key], path + [key] + [t];
    forall i | 0 <= i < |q| - 1 ensures (q[i], q[i + 1]) in CallEdges(methods) {
      if i < |p| - 1 {
        assert q[i] == p[i] && q[i + 1] == p[i + 1];
      }
    }
  }

  lemma Finished(methods: Methods, visited: set<CallTarget>, rank: map<CallTarget, int>, key: CallTarget)
    requires VisitedOk(methods, visited, rank) && key in methods && key !in visited
    requires forall t :: (key, t) in CallEdges(methods) ==> t in visited
    ensures VisitedOk(methods, visited + {key}, rank[key := |rank|])
  {
    assert rank[key := |rank|].Keys == rank.Keys + {key};
  }

  /** What an error says about the graph. */
  ghost predicate ErrorOk(methods: Methods, key: CallTarget, e: GraphError) {
    match e
    case CycleIncludes(k) => exists p :: IsCycle(CallEdges(methods), p) && p[0] == k
    case MethodNotFound(t) => t !in methods && (t == key || exists k :: (k, t) in CallEdges(methods))
    case _ => false
  }

  /** Depth-first visit of everything that `key` calls. */
  method ValidateAcyclic(key: CallTarget, methods: Methods, visited0: set<CallTarget>, visiting0: set<CallTarget>,
                         ghost rank0: map<CallTarget, int>, ghost path: seq<CallTarget>)
    returns (r: Result<set<CallTarget>, GraphError>, visiting: set<CallTarget>, ghost rank: map<CallTarget, int>)
    requires VisitedOk(methods, visited0, rank0) && PathOk(methods, visiting0, path, key)
    requires visited0 !! visiting0
    ensures r.Ok? ==> VisitedOk(methods, r.value, rank) && visited0 + {key} <= r.value
    ensures r.Ok? ==> visiting == visiting0 && r.value !! visiting0
    ensures r.Err? ==> ErrorOk(methods, key, r.error)
    decreases |methods.Keys - visiting0|
  {
    visiting, rank := visiting0, rank0;
    if key in visited0 {
      return Ok(visited0), visiting, rank;
    }
    if key in visiting0 {
      ClosesCycle(methods, visiting0, path, key);
      return Err(CycleIncludes(key)), visiting, rank;
    }
    visiting := visiting + {key};
    if key !in methods {
      return Err(MethodNotFound(key)), visiting, rank;
    }
    assert methods.Keys - visiting == (methods.Keys - visiting0) - {key};
    var visited := visited0;
    var sequence: Sequence := methods[key];
    for i := 0 to |sequence|
      invariant VisitedOk(methods, visited, rank) && visited0 <= visited
      invariant visiting == visiting0 + {key} && visited !! visiting
      invariant forall k :: 0 <= k < i ==> CalledIn(sequence, k, visited)
    {
      hide VisitedOk, PathOk, ErrorOk, CalledIn;
      if |sequence[i]| > 0 {
        var t := sequence[i][0].target;
        assert (key, methods[key][i][0].target) in CallEdges(methods);
        PathExtends(methods, visiting0, path, key, t);
        var below, v, rk := ValidateAcyclic(t, methods, visited, visiting, rank, path + [key]);
        if below.Err? {
          ErrorBelow(methods, key, t, below.error);
          return below, v, rk;
        }
        assert t in visited + {t};
        CalledInMore(sequence, i, visited, below.value);
        visited, visiting, rank := below.value, v, rk;
      } else {
        CalledInMore(sequence, i, visited, visited);
      }
    }
    forall t | (key, t) in CallEdges(methods) ensures t in visited {
      var i :| 0 <= i < |methods[key]| && |methods[key][i]| > 0 && methods[key][i][0].target == t;
      assert CalledIn(sequence, i, visited);
    }
    Finished(methods, visited, rank, key);
    visiting := visiting - {key};
    rank := rank[key := |rank|];
    return Ok(visited + {key}), visiting, rank;
  }

  lemma CalledInMore(sequence: Sequence, i: nat, targets: set<CallTarget>, more: set<CallTarget>)
    requires i < |sequence| && targets <= more
    requires forall k :: 0 <= k < i ==> CalledIn(sequence, k, targets)
    requires |sequence[i]| > 0 ==> sequence[i][0].target in more
    ensures forall k :: 0 <= k <= i ==> CalledIn(sequence, k, more)
  {
    forall k | 0 <= k < i ensures CalledIn(sequence, k, more) {
      assert CalledIn(sequence, k, targets);
    }
  }

  lemma ErrorBelow(methods: Methods, key: CallTarget, t: CallTarget, e: GraphError)
    requires ErrorOk(methods, t, e) && (key, t) in CallEdges(methods)
    ensures ErrorOk(methods, key, e)
  {
  }

  /** Checks every method: it succeeds exactly when no call chain closes and every called method is defined. */
  method ValidateAllAcyclic(methods: Methods) returns (r: Result<(), GraphError>, ghost rank: map<CallTarget, int>)
    ensures r.Ok? <==> !HasCycle(CallEdges(methods)) && AllDefined(methods)
    ensures r.Ok? ==> IsRanking(CallEdges(methods), rank) && rank.Keys == methods.Keys
  {
    var visited: set<CallTarget>, visiting: set<CallTarget> := {}, {};
    rank := map[];
    var todo := methods.Keys;
    while todo != {}
      invariant todo <= methods.Keys && visiting == {}
      invariant VisitedOk(methods, visited, rank) && methods.Keys - todo <= visited
      decreases todo
    {
      var key :| key in todo;
      todo := todo - {key};
      assert PathOk(methods, visiting, [], key);
      hide VisitedOk, PathOk, HasCycle;
      var one, v, rk := ValidateAcyclic(key, methods, visited, visiting, rank, []);
      if one.Err? {
        return Err(one.error), rk;
      }
      visited, visiting, rank := one.value, v, rk;
    }
    assert visited == methods.Keys;
    forall u, v | (u, v) in CallEdges(methods) ensures u in rank && v in rank && rank[v] < rank[u] {
      assert u in methods;
    }
    RankedHasNoCycle(CallEdges(methods), rank);
    return Ok(()), rank;
  }

  // ----- the shape of the sequences

  ghost predicate ShapeOk(sequence: Sequence) {
    forall i :: 0 <= i < |sequence| ==>
      |sequence[i]| <= 1 && forall j :: 0 <= j < |sequence[i]| ==> 0.0 <= sequence[i][j].probability <= 1.0
  }

  method ValidateSequenceShape(sequence: Sequence) returns (r: Result<(), GraphError>)
    ensures r.Ok? <==> ShapeOk(sequence)
  {
    for i := 0 to |sequence|
      invariant ShapeOk(sequence[..i])
    {
      assert sequence[..i + 1] == sequence[..i] + [sequence[i]];
      assert sequence[..i + 1][i] == sequence[i];
      if |sequence[i]| > 1 {
        return Err(FanoutTooWide);
      }
      for j := 0 to |sequence[i]|
        invariant forall l :: 0 <= l < j ==> 0.0 <= sequence[i][l].probability <= 1.0
      {
        if !(0.0 <= sequence[i][j].probability <= 1.0) {
          return Err(BadProbability);
        }
      }
    }
    assert sequence[..|sequence|] == sequence;
    return Ok(());
  }

  /** The graphs the planner supports; a definition counts for its shape even if a later one replaces it. */
  ghost predicate Supported(parsed: Parsed) {
    && (forall e :: e in parsed.entryPoints ==> ShapeOk(parsed.entryPoints[e]))
    && (forall i :: 0 <= i < |parsed.methods| ==> ShapeOk(parsed.methods[i].sequence))
    && !HasCycle(CallEdges(Table(parsed.methods)))
    && AllDefined(Table(parsed.methods))
  }

  method ValidateSupportedCallGraph(parsed: Parsed)
    returns (r: Result<(), GraphError>, ghost rank: map<CallTarget, int>)
    ensures r.Ok? <==> Supported(parsed)
    ensures r.Ok? ==> IsRanking(CallEdges(Table(parsed.methods)), rank) && rank.Keys == Table(parsed.methods).Keys
  {
    rank := map[];
    var todo := parsed.entryPoints.Keys;
    while todo != {}
      invariant todo <= parsed.entryPoints.Keys
      invariant forall e :: e in parsed.entryPoints.Keys - todo ==> ShapeOk(parsed.entryPoints[e])
      decreases todo
    {
      hide ShapeOk;
      var e :| e in todo;
      todo := todo - {e};
      r := ValidateSequenceShape(parsed.entryPoints[e]);
      if r.Err? {
        return;
      }
    }
    var methods: Methods := map[];
    for i := 0 to |parsed.methods|
      invariant methods == Table(parsed.methods[..i])
      invariant forall k :: 0 <= k < i ==> ShapeOk(parsed.methods[k].sequence)
    {
      hide ShapeOk;
      r := ValidateSequenceShape(parsed.methods[i].sequence);
      if r.Err? {
        return;
      }
      assert parsed.methods[..i + 1][..i] == parsed.methods[..i];
      methods := methods[parsed.methods[i].id := parsed.methods[i].sequence];
    }
    assert parsed.methods[..|parsed.methods|] == parsed.methods;
    hide ShapeOk, HasCycle, AllDefined;
    r, rank := ValidateAllAcyclic(methods);
  }
}
