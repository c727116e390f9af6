/**
 The call-sequence timeline of `quickcheck.py`: methods are unfolded into a tree
 of instances, every instance gets a time interval and a row, and no two
 instances collide.

 An instance key ends in the value of a counter, so the counter stands for the key.
 */
module Timeline {
  import opened Collections
  import opened Names
  import opened Reals

  datatype Node = Node(key: nat, name: Name, stages: seq<Stage>)

  /** Calls made in parallel. */
  datatype Stage = Stage(kids: seq<Node>)

  datatype Interval = Interval(start: real, end: real)

  function Width(at: Interval): real {
    at.end - at.start
  }

  // ----- keys

  ghost function Keys(t: Node): set<nat>
    decreases t
  {
    {t.key} + StagesKeys(t.stages)
  }

  ghost function StagesKeys(stages: seq<Stage>): set<nat>
    decreases stages
  {
    if stages == [] then {} else
      StagesKeys(stages[..|stages| - 1]) + StageKeys(stages[|stages| - 1].kids)
  }

  ghost function StageKeys(kids: seq<Node>): set<nat>
    decreases kids
  {
    if kids == [] then {} else
      StageKeys(kids[..|kids| - 1]) + Keys(kids[|kids| - 1])
  }

  lemma RootKey(t: Node)
    ensures t.key in Keys(t)
  {
  }

  /** No key is used twice in the tree. */
  ghost predicate Unique(t: Node)
    decreases t
  {
    t.key !in StagesKeys(t.stages) && UniqueStages(t.stages)
  }

  ghost predicate UniqueStages(stages: seq<Stage>)
    decreases stages
  {
    stages == [] ||
    (var most, last := stages[..|stages| - 1], stages[|stages| - 1].kids;
     UniqueStages(most) && UniqueStage(last) && StagesKeys(most) !! StageKeys(last))
  }

  ghost predicate UniqueStage(kids: seq<Node>)
    decreases kids
  {
    kids == [] ||
    (var most, last := kids[..|kids| - 1], kids[|kids| - 1];
     UniqueStage(most) && Unique(last) && StageKeys(most) !! Keys(last))
  }

  lemma {:induction false} StagesPrefix(stages: seq<Stage>, g: nat)
    requires g <= |stages|
    ensures StagesKeys(stages[..g]) <= StagesKeys(stages)
    ensures UniqueStages(stages) ==> UniqueStages(stages[..g])
  {
    if g < |stages| {
      var most := stages[..|stages| - 1];
      StagesPrefix(most, g);
      assert most[..g] == stages[..g];
    } else {
      assert stages[..g] == stages;
    }
  }

  lemma {:induction false} StagePrefix(kids: seq<Node>, i: nat)
    requires i <= |kids|
    ensures StageKeys(kids[..i]) <= StageKeys(kids)
    ensures UniqueStage(kids) ==> UniqueStage(kids[..i])
  {
    if i < |kids| {
      var most := kids[..|kids| - 1];
      StagePrefix(most, i);
      assert most[..i] == kids[..i];
    } else {
      assert kids[..i] == kids;
    }
  }

  /** The next stage brings keys that no earlier stage has. */
  lemma NextStage(stages: seq<Stage>, g: nat)
    requires g < |stages| && UniqueStages(stages)
    ensures UniqueStage(stages[g].kids) && StagesKeys(stages[..g]) !! StageKeys(stages[g].kids)
    ensures StageKeys(stages[g].kids) <= StagesKeys(stages)
    ensures StagesKeys(stages[..g + 1]) == StagesKeys(stages[..g]) + StageKeys(stages[g].kids)
  {
    var upto := stages[..g + 1];
    StagesPrefix(stages, g + 1);
    assert upto[..|upto| - 1] == stages[..g] && upto[|upto| - 1] == stages[g];
  }

  lemma NextKid(kids: seq<Node>, i: nat)
    requires i < |kids| && UniqueStage(kids)
    ensures Unique(kids[i]) && StageKeys(kids[..i]) !! Keys(kids[i])
    ensures Keys(kids[i]) <= StageKeys(kids)
    ensures StageKeys(kids[..i + 1]) == StageKeys(kids[..i]) + Keys(kids[i])
  {
    var upto := kids[..i + 1];
    StagePrefix(kids, i + 1);
    assert upto[..|upto| - 1] == kids[..i] && upto[|upto| - 1] == kids[i];
  }

  lemma {:induction false} FindKid(kids: seq<Node>, k: nat) returns (i: nat)
    requires k in StageKeys(kids)
    ensures i < |kids| && k in Keys(kids[i])
  {
    var last := |kids| - 1;
    if k in Keys(kids[last]) {
      i := last;
    } else {
      i := FindKid(kids[..last], k);
    }
  }

  lemma {:induction false} FindStage(stages: seq<Stage>, k: nat) returns (g: nat)
    requires k in StagesKeys(stages)
    ensures g < |stages| && k in StageKeys(stages[g].kids)
  {
    var last := |stages| - 1;
    if k in StageKeys(stages[last].kids) {
      g := last;
    } else {
      g := FindStage(stages[..last], k);
    }
  }

  /** Where below its root a tree holds a key. */
  lemma FindBelow(t: Node, k: nat) returns (g: nat, i: nat)
    requires k in Keys(t) && k != t.key
    ensures g < |t.stages| && i < |t.stages[g].kids| && k in Keys(t.stages[g].kids[i])
  {
    g := FindStage(t.stages, k);
    i := FindKid(t.stages[g].kids, k);
  }

  // ----- unfolding methods into instances

  const MAX_DEPTH: nat := 50

  /** An instance repeats its method's stages, unless it is too deep or lies below an instance of the same method. */
  ghost predicate Unfolds(t: Node, sequences: map<Name, seq<seq<Name>>>, depth: nat, path: set<Name>)
    decreases t
  {
    if depth >= MAX_DEPTH || t.name in path then t.stages == []
    else StagesUnfold(t.stages, GetOr(sequences, t.name, []), sequences, depth + 1, path + {t.name})
  }

  ghost predicate StagesUnfold(stages: seq<Stage>, names: seq<seq<Name>>, sequences: map<Name, seq<seq<Name>>>,
                               depth: nat, path: set<Name>)
    decreases stages
  {
    && |stages| == |names|
    && forall g: nat {:trigger stages[g]} ::
      g < |stages| ==> StageUnfolds(stages[g].kids, names[g], sequences, depth, path)
  }

  ghost predicate StageUnfolds(kids: seq<Node>, names: seq<Name>, sequences: map<Name, seq<seq<Name>>>, depth: nat,
                               path: set<Name>)
    decreases kids
  {
    && |kids| == |names|
    && forall i {:trigger kids[i]} ::
      0 <= i < |kids| ==> kids[i].name == names[i] && Unfolds(kids[i], sequences, depth, path)
  }

  ghost predicate IsRange(keys: set<nat>, lo: nat, hi: nat) {
    forall k :: k in keys <==> lo <= k < hi
  }

  lemma RangesJoin(a: set<nat>, b: set<nat>, lo: nat, mid: nat, hi: nat)
    requires lo <= mid <= hi && IsRange(a, lo, mid) && IsRange(b, mid, hi)
    ensures IsRange(a + b, lo, hi) && a !! b
  {
  }

  lemma StagesSnoc(stages: seq<Stage>, last: Stage)
    ensures StagesKeys(stages + [last]) == StagesKeys(stages) + StageKeys(last.kids)
    ensures UniqueStages(stages) && UniqueStage(last.kids) && StagesKeys(stages) !! StageKeys(last.kids) ==>
              UniqueStages(stages + [last])
  {
    assert (stages + [last])[..|stages|] == stages;
  }

  lemma StagesUnfoldSnoc(built: seq<Stage>, stages: seq<seq<Name>>, kids: seq<Node>,
                         sequences: map<Name, seq<seq<Name>>>, depth: nat, path: set<Name>)
    requires |built| < |stages| && StagesUnfold(built, stages[..|built|], sequences, depth, path)
    requires StageUnfolds(kids, stages[|built|], sequences, depth, path)
    ensures StagesUnfold(built + [Stage(kids)], stages[..|built| + 1], sequences, depth, path)
  {
    hide StageUnfolds;
  }

  method MakeInstance(name: Name, sequences: map<Name, seq<seq<Name>>>, depth: nat, path: set<Name>, counter: nat)
    returns (t: Node, next: nat)
    requires depth <= MAX_DEPTH
    ensures t.key == counter < next && t.name == name
    ensures IsRange(Keys(t), counter, next) && Unique(t)
    ensures Unfolds(t, sequences, depth, path)
    decreases MAX_DEPTH - depth, 0
  {
    next := counter + 1;
    if depth >= MAX_DEPTH || name in path {
      t := Node(counter, name, []);
      return;
    }
    var stages := GetOr(sequences, name, []);
    var built: seq<Stage> := [];
    var below := path + {name};
    assert stages[..|stages|] == stages;
    assert StagesKeys([]) == {} && UniqueStages([]) && StagesUnfold([], stages[..0], sequences, depth + 1, below);
    assert IsRange({}, counter + 1, next) && IsRange({counter}, counter, counter + 1);
    hide UniqueStages, UniqueStage, StagesKeys, StageKeys, StageUnfolds, StagesUnfold, IsRange;
    for g := 0 to |stages|
      invariant |built| == g && counter < next
      invariant IsRange(StagesKeys(built), counter + 1, next) && UniqueStages(built)
      invariant StagesUnfold(built, stages[..g], sequences, depth + 1, below)
    {
      var kids;
      ghost var before := next;
      kids, next := MakeStage(stages[g], sequences, depth + 1, below, next);
      RangesJoin(StagesKeys(built), StageKeys(kids), counter + 1, before, next);
      StagesSnoc(built, Stage(kids));
      StagesUnfoldSnoc(built, stages, kids, sequences, depth + 1, below);
      built := built + [Stage(kids)];
    }
    t := Node(counter, name, built);
    RangesJoin({counter}, StagesKeys(built), counter, counter + 1, next);
  }

  method MakeStage(names: seq<Name>, sequences: map<Name, seq<seq<Name>>>, depth: nat, path: set<Name>, counter: nat)
    returns (kids: seq<Node>, next: nat)
    requires depth <= MAX_DEPTH
    ensures counter <= next && IsRange(StageKeys(kids), counter, next) && UniqueStage(kids)
    ensures StageUnfolds(kids, names, sequences, depth, path)
    decreases MAX_DEPTH - depth, 1
  {
    kids, next := [], counter;
    for i := 0 to |names|
      invariant |kids| == i && counter <= next
      invariant IsRange(StageKeys(kids), counter, next) && UniqueStage(kids)
      invariant forall j {:trigger kids[j]} ::
                  0 <= j < i ==> kids[j].name == names[j] && Unfolds(kids[j], sequences, depth, path)
    {
      var kid;
      ghost var before := next;
      kid, next := MakeInstance(names[i], sequences, depth, path, next);
      assert (kids + [kid])[..i] == kids;
      kids := kids + [kid];
    }
  }

  // ----- how far methods are unfolded

  ghost predicate IsCallee(caller: Node, callee: Node) {
    exists g, i :: 0 <= g < |caller.stages| && 0 <= i < |caller.stages[g].kids| && caller.stages[g].kids[i] == callee
  }

  /** Instances that call each other in turn. */
  ghost predicate IsChain(chain: seq<Node>) {
    chain != [] && forall i :: 0 <= i < |chain| - 1 ==> IsCallee(chain[i], chain[i + 1])
  }

  ghost function NamesOf(chain: seq<Node>): set<Name> {
    set i | 0 <= i < |chain| :: chain[i].name
  }

  lemma CalleeUnfolds(t: Node, kid: Node, sequences: map<Name, seq<seq<Name>>>, depth: nat, path: set<Name>)
    requires Unfolds(t, sequences, depth, path) && IsCallee(t, kid)
    ensures depth < MAX_DEPTH && t.name !in path && Unfolds(kid, sequences, depth + 1, path + {t.name})
  {
    var g, i :| 0 <= g < |t.stages| && 0 <= i < |t.stages[g].kids| && t.stages[g].kids[i] == kid;
    assert StageUnfolds(t.stages[g].kids, GetOr(sequences, t.name, [])[g], sequences, depth + 1, path + {t.name});
  }

  lemma ChainTail(chain: seq<Node>)
    requires IsChain(chain) && |chain| > 1
    ensures IsCallee(chain[0], chain[1]) && IsChain(chain[1..])
  {
    hide IsCallee;
    assert IsCallee(chain[0], chain[0 + 1]);
    var rest := chain[1..];
    forall i | 0 <= i < |rest| - 1 ensures IsCallee(rest[i], rest[i + 1]) {
      var j := i + 1;
      assert IsCallee(chain[j], chain[j + 1]);
    }
  }

  /** The names of the first `n` instances are new and all different. */
  ghost predicate NewNames(chain: seq<Node>, n: nat, path: set<Name>)
    requires n <= |chain|
  {
    && (forall i :: 0 <= i < n ==> chain[i].name !in path)
    && (forall i, j :: 0 <= i < j < n ==> chain[i].name != chain[j].name)
  }

  lemma NewNamesFirst(chain: seq<Node>, n: nat, path: set<Name>)
    requires 0 < n < |chain| && chain[0].name !in path
    requires NewNames(chain[1..], n - 1, path + {chain[0].name})
    ensures NewNames(chain, n, path)
    ensures path + {chain[0].name} + NamesOf(chain[1..][..n - 1]) == path + NamesOf(chain[..n])
  {
    var rest := chain[1..];
    forall i | 0 < i < n ensures chain[i].name !in path + {chain[0].name} {
      assert chain[i] == rest[i - 1];
    }
    forall i, j | 0 <= i < j < n ensures chain[i].name != chain[j].name {
      assert chain[j] == rest[j - 1] && (i > 0 ==> chain[i] == rest[i - 1]);
    }
    assert chain[..n] == [chain[0]] + rest[..n - 1];
    NamesOfFirst(chain[0], rest[..n - 1]);
  }

  lemma {:induction false} ChainUnfolds(chain: seq<Node>, sequences: map<Name, seq<seq<Name>>>, depth: nat,
                                        path: set<Name>)
    requires IsChain(chain) && Unfolds(chain[0], sequences, depth, path) && depth <= MAX_DEPTH
    ensures var n := |chain| - 1;
            && n + depth <= MAX_DEPTH && NewNames(chain, n, path)
            && Unfolds(chain[n], sequences, depth + n, path + NamesOf(chain[..n]))
    decreases |chain|
  {
    var n := |chain| - 1;
    if n == 0 {
      assert path + NamesOf(chain[..0]) == path;
    } else {
      ChainTail(chain);
      CalleeUnfolds(chain[0], chain[1], sequences, depth, path);
      hide *;
      ChainUnfolds(chain[1..], sequences, depth + 1, path + {chain[0].name});
      NewNamesFirst(chain, n, path);
    }
  }

  lemma NamesOfFirst(first: Node, rest: seq<Node>)
    ensures NamesOf([first] + rest) == {first.name} + NamesOf(rest)
  {
    var chain := [first] + rest;
    assert chain[0] == first;
    forall i | 0 <= i < |rest| ensures rest[i].name in NamesOf(chain) {
      assert chain[i + 1] == rest[i];
    }
  }

  /** An instance that makes the calls of its method, stage by stage. */
  ghost predicate Complete(t: Node, sequences: map<Name, seq<seq<Name>>>) {
    var names := GetOr(sequences, t.name, []);
    && |t.stages| == |names|
    && forall g: nat {:trigger t.stages[g]} :: g < |names| ==>
         && |t.stages[g].kids| == |names[g]|
         && forall i :: 0 <= i < |names[g]| ==> t.stages[g].kids[i].name == names[g][i]
  }

  /**
   No chain of calls has more than 51 instances, and no method occurs twice in
   one unless it ends it. An instance is cut short only at the end of such a
   chain; every other one makes all the calls of its method.
   */
  lemma ChainsEnd(chain: seq<Node>, sequences: map<Name, seq<seq<Name>>>)
    requires IsChain(chain) && Unfolds(chain[0], sequences, 0, {})
    ensures |chain| <= 51
    ensures forall i, j :: 0 <= i < j < |chain| - 1 ==> chain[i].name != chain[j].name
    ensures var last := chain[|chain| - 1];
            if |chain| == 51 || exists i :: 0 <= i < |chain| - 1 && chain[i].name == last.name
            then last.stages == [] else Complete(last, sequences)
  {
    ChainUnfolds(chain, sequences, 0, {});
    var n := |chain| - 1;
    var last, path := chain[n], {} + NamesOf(chain[..n]);
    assert forall i :: 0 <= i < n ==> chain[..n][i] == chain[i];
    if n < 50 && last.name !in path {
      forall g: nat | g < |last.stages|
        ensures StageUnfolds(last.stages[g].kids, GetOr(sequences, last.name, [])[g], sequences, n + 1, path +
                             {last.name})
      {
      }
    }
  }

  // ----- spans

  function MaxOf(a: real, b: real): real {
    if a >= b then a else b
  }

  /** The width an instance needs: stages add up, and parallel calls need as much as the widest. */
  function Span(t: Node): (r: real)
    ensures r >= 1.0
    decreases t
  {
    if t.stages == [] then 1.0 else MaxOf(StagesSpan(t.stages), 1.0)
  }

  function StagesSpan(stages: seq<Stage>): (r: real)
    ensures r >= 0.0 && (stages != [] ==> r >= 1.0)
    decreases stages
  {
    if stages == [] then 0.0 else
      StagesSpan(stages[..|stages| - 1]) + StageSpan(stages[|stages| - 1].kids)
  }

  /** Spans are never below 1, which is also the span of an empty stage. */
  function StageSpan(kids: seq<Node>): (r: real)
    ensures r >= 1.0
    ensures forall i :: 0 <= i < |kids| ==> Span(kids[i]) <= r
    decreases kids
  {
    if kids == [] then 1.0 else
      MaxOf(StageSpan(kids[..|kids| - 1]), Span(kids[|kids| - 1]))
  }

  /** Where stage `g` begins when `at` is shared out in proportion to the spans. */
  function Bound(stages: seq<Stage>, g: nat, at: Interval): real
    requires stages != [] && g <= |stages|
  {
    at.start + Times(Width(at), StagesSpan(stages[..g]) / StagesSpan(stages))
  }

  lemma StagesSpanNext(stages: seq<Stage>, g: nat)
    requires g < |stages|
    ensures StagesSpan(stages[..g + 1]) == StagesSpan(stages[..g]) + StageSpan(stages[g].kids)
  {
    var upto := stages[..g + 1];
    assert upto[..|upto| - 1] == stages[..g] && upto[|upto| - 1] == stages[g];
  }

  lemma {:induction false} StagesSpanGrows(stages: seq<Stage>, g: nat, h: nat)
    requires g <= h <= |stages|
    ensures StagesSpan(stages[..g]) <= StagesSpan(stages[..h])
  {
    if g < h {
      StagesSpanGrows(stages, g, h - 1);
      StagesSpanNext(stages, h - 1);
    }
  }

  lemma QuotientMonotone(x: real, y: real, s: real)
    requires x <= y && s > 0.0
    ensures x / s <= y / s
  {
  }

  lemma QuotientSum(x: real, y: real, s: real)
    requires s > 0.0
    ensures (x + y) / s - x / s == y / s
  {
  }

  /** An interval at least as wide as the spans gives every stage at least its own span. */
  lemma ShareSuffices(w: real, s: real, total: real)
    requires w >= total > 0.0 && s >= 0.0
    ensures Times(w, s / total) >= s
  {
    QuotientMonotone(0.0, s, total);
    TimesMonotone(s / total, total, w);
    TimesQuotient(s, total);
  }

  /** Larger parts of a total get larger shares of a width, and the total gets all of it. */
  lemma SharesOrdered(w: real, x: real, y: real, total: real)
    requires w >= 0.0 && 0.0 <= x <= y <= total && total > 0.0
    ensures Times(w, 0.0 / total) == 0.0 && Times(w, total / total) == w
    ensures 0.0 <= Times(w, x / total) <= Times(w, y / total) <= w
  {
    QuotientMonotone(0.0, x, total);
    QuotientMonotone(x, y, total);
    QuotientMonotone(y, total, total);
    TimesMonotone(w, 0.0, x / total);
    TimesMonotone(w, x / total, y / total);
    TimesMonotone(w, y / total, 1.0);
    TimesConstants(w);
  }

  lemma BoundsMonotone(stages: seq<Stage>, g: nat, h: nat, at: Interval)
    requires stages != [] && g <= h <= |stages| && Width(at) >= 0.0
    ensures at.start == Bound(stages, 0, at) <= Bound(stages, g, at)
    ensures Bound(stages, g, at) <= Bound(stages, h, at) <= Bound(stages, |stages|, at) == at.end
  {
    assert stages[..0] == [] && stages[..|stages|] == stages;
    StagesSpanGrows(stages, g, h);
    StagesSpanGrows(stages, h, |stages|);
    hide StageSpan, Times;
    SharesOrdered(Width(at), StagesSpan(stages[..g]), StagesSpan(stages[..h]), StagesSpan(stages));
  }

  lemma SharesAdd(w: real, x: real, y: real, total: real)
    requires total > 0.0
    ensures Times(w, (x + y) / total) == Times(w, x / total) + Times(w, y / total)
  {
    QuotientSum(x, y, total);
    TimesMinus(w, (x + y) / total, x / total);
  }

  lemma BoundNext(stages: seq<Stage>, g: nat, at: Interval)
    requires g < |stages| && Width(at) >= StagesSpan(stages)
    ensures Bound(stages, g + 1, at) ==
            Bound(stages, g, at) + Times(Width(at), StageSpan(stages[g].kids) / StagesSpan(stages))
    ensures Times(Width(at), StageSpan(stages[g].kids) / StagesSpan(stages)) >= StageSpan(stages[g].kids)
  {
    hide Times, StagesSpan, StageSpan;
    StagesSpanNext(stages, g);
    SharesAdd(Width(at), StagesSpan(stages[..g]), StageSpan(stages[g].kids), StagesSpan(stages));
    ShareSuffices(Width(at), StageSpan(stages[g].kids), StagesSpan(stages));
  }

  // ----- intervals

  /** Every instance is as wide as its span, and its stages tile it, each child filling its stage. */
  ghost predicate Tiled(t: Node, intervals: map<nat, Interval>)
    decreases t
  {
    && t.key in intervals
    && Width(intervals[t.key]) >= Span(t)
    && forall g: nat {:trigger t.stages[g]} :: g < |t.stages| ==>
         StageTiled(t.stages[g].kids, intervals,
                    Interval(Bound(t.stages, g, intervals[t.key]), Bound(t.stages, g + 1, intervals[t.key])))
  }

  ghost predicate StageTiled(kids: seq<Node>, intervals: map<nat, Interval>, at: Interval)
    decreases kids
  {
    forall i {:trigger kids[i]} :: 0 <= i < |kids| ==> Tiled(kids[i], intervals) && intervals[kids[i].key] == at
  }

  ghost predicate Extends<V>(m: map<nat, V>, m': map<nat, V>) {
    forall k :: k in m ==> k in m' && m'[k] == m[k]
  }

  /** `m'` adds exactly the given keys to `m`. */
  ghost predicate Grows<V>(m: map<nat, V>, m': map<nat, V>, keys: set<nat>) {
    m'.Keys == m.Keys + keys && Extends(m, m')
  }

  lemma GrowsMeans<V>(m: map<nat, V>, m': map<nat, V>, keys: set<nat>)
    requires Grows(m, m', keys)
    ensures Extends(m, m')
  {
  }

  lemma GrowsTwice<V>(m: map<nat, V>, m1: map<nat, V>, m2: map<nat, V>, a: set<nat>, b: set<nat>)
    requires Grows(m, m1, a) && Grows(m1, m2, b)
    ensures Grows(m, m2, a + b)
  {
  }

  lemma StillFresh<V>(m: map<nat, V>, m1: map<nat, V>, a: set<nat>, b: set<nat>)
    requires Grows(m, m1, a) && a !! b && b !! m.Keys
    ensures b !! m1.Keys
  {
  }

  lemma {:induction false} TiledExtends(t: Node, intervals: map<nat, Interval>, intervals': map<nat, Interval>)
    requires Tiled(t, intervals) && Extends(intervals, intervals')
    ensures Tiled(t, intervals')
    decreases t
  {
    forall g: nat | g < |t.stages|
      ensures StageTiled(t.stages[g].kids, intervals',
                         Interval(Bound(t.stages, g, intervals[t.key]), Bound(t.stages, g + 1, intervals[t.key])))
    {
      StageTiledExtends(t.stages[g].kids, intervals, intervals',
                        Interval(Bound(t.stages, g, intervals[t.key]), Bound(t.stages, g + 1, intervals[t.key])));
    }
  }

  lemma {:induction false} StageTiledExtends(kids: seq<Node>, intervals: map<nat, Interval>,
                                             intervals': map<nat, Interval>, at: Interval)
    requires StageTiled(kids, intervals, at) && Extends(intervals, intervals')
    ensures StageTiled(kids, intervals', at)
    decreases kids
  {
    forall i | 0 <= i < |kids| ensures Tiled(kids[i], intervals') && intervals'[kids[i].key] == at {
      TiledExtends(kids[i], intervals, intervals');
    }
  }

  /** An instance is tiled once all its stages are. */
  lemma NodeTiled(t: Node, at: Interval, intervals: map<nat, Interval>)
    requires t.stages != [] && Width(at) >= Span(t) && t.key in intervals && intervals[t.key] == at
    requires StagesTiled(t.stages, |t.stages|, intervals, at)
    ensures Tiled(t, intervals)
  {
    hide Span, Bound, StageTiled;
  }

  method AssignIntervals(t: Node, at: Interval, intervals: map<nat, Interval>) returns (intervals': map<nat, Interval>)
    requires Unique(t) && Width(at) >= Span(t) && (t.key in intervals || Keys(t) !! intervals.Keys)
    ensures t.key in intervals ==> intervals' == intervals
    ensures t.key !in intervals ==>
              && Grows(intervals, intervals', Keys(t))
              && Tiled(t, intervals') && intervals'[t.key] == at
    decreases t
  {
    if t.key in intervals {
      return intervals;
    }
    intervals' := intervals[t.key := at];
    var stages := t.stages;
    if stages == [] {
      return;
    }
    var total := StagesSpan(stages);
    if total <= 0.0 {
      total := 1.0;
    }
    var current := at.start;
    var width := MaxOf(Width(at), 1.0);
    assert stages[..0] == [] && stages[..|stages|] == stages && StagesKeys([]) == {};
    BoundsMonotone(stages, 0, 0, at);
    ghost var rooted := intervals';
    assert StagesTiled(stages, 0, intervals', at);
    assert Grows(intervals, rooted, {t.key}) && Grows(rooted, rooted, {});
    hide Tiled, StageTiled, Bound, Times, StagesTiled, UniqueStages, UniqueStage, StagesKeys, StageKeys, StagesSpan,
         StageSpan, Grows;
    for g := 0 to |stages|
      invariant current == Bound(stages, g, at)
      invariant Grows(rooted, intervals', StagesKeys(stages[..g]))
      invariant StagesTiled(stages, g, intervals', at)
    {
      BoundNext(stages, g, at);
      NextStage(stages, g);
      StillFresh(rooted, intervals', StagesKeys(stages[..g]), StageKeys(stages[g].kids));
      var end := current + Times(width, StageSpan(stages[g].kids) / total);
      ghost var before := intervals';
      intervals' := AssignStage(stages[g].kids, Interval(current, end), intervals');
      GrowsTwice(rooted, before, intervals', StagesKeys(stages[..g]), StageKeys(stages[g].kids));
      GrowsMeans(before, intervals', StageKeys(stages[g].kids));
      StagesTiledNext(stages, g, before, intervals', at);
      current := end;
    }
    GrowsTwice(intervals, rooted, intervals', {t.key}, StagesKeys(stages));
    GrowsMeans(rooted, intervals', StagesKeys(stages));
    NodeTiled(t, at, intervals');
  }

  ghost predicate StagesTiled(stages: seq<Stage>, n: nat, intervals: map<nat, Interval>, at: Interval)
    requires stages != [] && n <= |stages|
  {
    forall g: nat {:trigger stages[g]} :: g < n ==>
      StageTiled(stages[g].kids, intervals, Interval(Bound(stages, g, at), Bound(stages, g + 1, at)))
  }

  lemma StagesTiledNext(stages: seq<Stage>, n: nat, intervals: map<nat, Interval>, intervals': map<nat, Interval>,
                        at: Interval)
    requires n < |stages| && StagesTiled(stages, n, intervals, at) && Extends(intervals, intervals')
    requires StageTiled(stages[n].kids, intervals', Interval(Bound(stages, n, at), Bound(stages, n + 1, at)))
    ensures StagesTiled(stages, n + 1, intervals', at)
  {
    hide StageTiled, Bound, Extends;
    forall g: nat | g < n + 1
      ensures StageTiled(stages[g].kids, intervals', Interval(Bound(stages, g, at), Bound(stages, g + 1, at)))
    {
      if g < n {
        StageTiledExtends(stages[g].kids, intervals, intervals',
                          Interval(Bound(stages, g, at), Bound(stages, g + 1, at)));
      }
    }
  }

  method AssignStage(kids: seq<Node>, at: Interval, intervals: map<nat, Interval>)
    returns (intervals': map<nat, Interval>)
    requires UniqueStage(kids) && Width(at) >= StageSpan(kids) && StageKeys(kids) !! intervals.Keys
    ensures Grows(intervals, intervals', StageKeys(kids))
    ensures StageTiled(kids, intervals', at)
    decreases kids
  {
    intervals' := intervals;
    assert kids[..|kids|] == kids && kids[..0] == [] && StageKeys([]) == {};
    assert StageTiled([], intervals, at);
    assert Grows(intervals, intervals, {});
    hide Tiled, StageTiled, Unique, UniqueStage, StageKeys, Keys, Span, StageSpan, Grows;
    for i := 0 to |kids|
      invariant Grows(intervals, intervals', StageKeys(kids[..i]))
      invariant StageTiled(kids[..i], intervals', at)
    {
      NextKid(kids, i);
      RootKey(kids[i]);
      StillFresh(intervals, intervals', StageKeys(kids[..i]), Keys(kids[i]));
      ghost var before := intervals';
      intervals' := AssignIntervals(kids[i], at, intervals');
      GrowsTwice(intervals, before, intervals', StageKeys(kids[..i]), Keys(kids[i]));
      GrowsMeans(before, intervals', Keys(kids[i]));
      StageTiledNext(kids, i, before, intervals', at);
    }
  }

  lemma StageTiledNext(kids: seq<Node>, i: nat, intervals: map<nat, Interval>, intervals': map<nat, Interval>,
                       at: Interval)
    requires i < |kids| && StageTiled(kids[..i], intervals, at) && Extends(intervals, intervals')
    requires Tiled(kids[i], intervals') && intervals'[kids[i].key] == at
    ensures StageTiled(kids[..i + 1], intervals', at)
  {
    StageTiledExtends(kids[..i], intervals, intervals', at);
    hide Tiled;
    var upto := kids[..i + 1];
    forall j | 0 <= j < |upto| ensures Tiled(upto[j], intervals') && intervals'[upto[j].key] == at {
      if j < i {
        assert kids[..i][j] == upto[j];
      }
    }
  }

  // ----- no space is wasted

  /** The intervals of the stages of an instance: inside it, one after the other, and each at least 1 wide. */
  ghost predicate InTurn(slots: seq<Interval>, at: Interval) {
    && (forall g :: 0 <= g < |slots| ==> at.start <= slots[g].start && slots[g].start + 1.0 <= slots[g].end <= at.end)
    && (forall g :: 0 < g < |slots| ==> slots[g - 1].end <= slots[g].start)
  }

  /** Any placement in which instances are at least 1 wide, stages take turns, and calls lie inside their stage. */
  ghost predicate Fits(t: Node, intervals: map<nat, Interval>)
    decreases t
  {
    && t.key in intervals && Width(intervals[t.key]) >= 1.0
    && exists slots: seq<Interval> ::
         && |slots| == |t.stages| && InTurn(slots, intervals[t.key])
         && forall g: nat {:trigger t.stages[g]} :: g < |t.stages| ==> StageFits(t.stages[g].kids, intervals, slots[g])
  }

  ghost predicate StageFits(kids: seq<Node>, intervals: map<nat, Interval>, slot: Interval)
    decreases kids
  {
    forall i {:trigger kids[i]} :: 0 <= i < |kids| ==>
      && Fits(kids[i], intervals)
      && slot.start <= intervals[kids[i].key].start && intervals[kids[i].key].end <= slot.end
  }

  /** No placement makes an instance narrower than its span. */
  lemma {:induction false} SpanIsLeast(t: Node, intervals: map<nat, Interval>)
    requires Fits(t, intervals)
    ensures Span(t) <= Width(intervals[t.key])
    decreases t, 0
  {
    var at := intervals[t.key];
    var slots: seq<Interval> :| && |slots| == |t.stages| && InTurn(slots, at)
                 && forall g: nat {:trigger t.stages[g]} :: g < |t.stages| ==>
                      StageFits(t.stages[g].kids, intervals, slots[g]);
    for g := 0 to |t.stages|
      invariant StagesSpan(t.stages[..g]) <= if g == 0 then 0.0 else slots[g - 1].end - at.start
    {
      StageSpanIsLeast(t.stages[g].kids, intervals, slots[g]);
      StagesSpanNext(t.stages, g);
    }
    assert t.stages[..|t.stages|] == t.stages;
  }

  lemma {:induction false} StageSpanIsLeast(kids: seq<Node>, intervals: map<nat, Interval>, slot: Interval)
    requires StageFits(kids, intervals, slot) && Width(slot) >= 1.0
    ensures StageSpan(kids) <= Width(slot)
    decreases kids
  {
    if kids != [] {
      StageFitsParts(kids, intervals, slot);
      hide Fits, StageFits, Span;
      SpanIsLeast(kids[|kids| - 1], intervals);
      StageSpanIsLeast(kids[..|kids| - 1], intervals, slot);
    }
  }

  lemma StageFitsParts(kids: seq<Node>, intervals: map<nat, Interval>, slot: Interval)
    requires kids != [] && StageFits(kids, intervals, slot)
    ensures StageFits(kids[..|kids| - 1], intervals, slot)
    ensures var last := kids[|kids| - 1];
            Fits(last, intervals) && Width(intervals[last.key]) <= Width(slot)
  {
    hide Fits;
    var last := kids[|kids| - 1];
    assert Fits(last, intervals) && last.key in intervals by { FitsHasKey(last, intervals); }
  }

  lemma FitsHasKey(t: Node, intervals: map<nat, Interval>)
    requires Fits(t, intervals)
    ensures t.key in intervals
  {
  }

  /** The intervals that are assigned are such a placement. */
  lemma {:induction false} TiledFits(t: Node, intervals: map<nat, Interval>)
    requires Tiled(t, intervals)
    ensures Fits(t, intervals)
    decreases t
  {
    var at, n := intervals[t.key], |t.stages|;
    var slots := seq(n, g requires 0 <= g < n => Interval(Bound(t.stages, g, at), Bound(t.stages, g + 1, at)));
    forall g: nat | g < n ensures StageFits(t.stages[g].kids, intervals, slots[g]) {
      assert StageTiled(t.stages[g].kids, intervals, slots[g]);
      StageTiledFits(t.stages[g].kids, intervals, slots[g]);
    }
    WidthPositive(t, intervals);
    assert Width(at) >= Span(t);
    if n > 0 {
      assert Width(at) >= StagesSpan(t.stages);
      SlotsInTurn(t.stages, at, slots);
    }
    FitsWith(t, intervals, slots);
  }

  lemma FitsWith(t: Node, intervals: map<nat, Interval>, slots: seq<Interval>)
    requires t.key in intervals && Width(intervals[t.key]) >= 1.0
    requires |slots| == |t.stages| && InTurn(slots, intervals[t.key])
    requires forall g: nat {:trigger t.stages[g]} :: g < |t.stages| ==>
               StageFits(t.stages[g].kids, intervals, slots[g])
    ensures Fits(t, intervals)
  {
  }

  lemma SlotsInTurn(stages: seq<Stage>, at: Interval, slots: seq<Interval>)
    requires stages != [] && Width(at) >= StagesSpan(stages) && |slots| == |stages|
    requires forall g :: 0 <= g < |stages| ==> slots[g] == Interval(Bound(stages, g, at), Bound(stages, g + 1, at))
    ensures InTurn(slots, at)
  {
    hide Bound, StagesSpan, StageSpan, Times;
    forall g: nat | g < |stages|
      ensures at.start <= slots[g].start && slots[g].start + 1.0 <= slots[g].end <= at.end
    {
      BoundsMonotone(stages, g, g + 1, at);
      BoundNext(stages, g, at);
    }
    forall g | 0 < g < |stages| ensures slots[g - 1].end <= slots[g].start {
      var h := g - 1;
      assert slots[h] == Interval(Bound(stages, h, at), Bound(stages, h + 1, at));
      assert slots[g] == Interval(Bound(stages, g, at), Bound(stages, g + 1, at)) && h + 1 == g;
    }
  }

  lemma {:induction false} StageTiledFits(kids: seq<Node>, intervals: map<nat, Interval>, slot: Interval)
    requires StageTiled(kids, intervals, slot)
    ensures StageFits(kids, intervals, slot)
    decreases kids
  {
    forall i | 0 <= i < |kids| ensures Fits(kids[i], intervals) && intervals[kids[i].key] == slot {
      TiledFits(kids[i], intervals);
    }
  }

  // ----- rows

  /** The rows an instance takes up: its own, and below it those of its highest stage. */
  ghost function Height(t: Node): (r: nat)
    ensures r >= 1
    decreases t
  {
    1 + StagesHeight(t.stages)
  }

  ghost function StagesHeight(stages: seq<Stage>): (r: nat)
    ensures forall g :: 0 <= g < |stages| ==> StageHeight(stages[g].kids) <= r
    decreases stages
  {
    if stages == [] then 0 else
      var most, last := StagesHeight(stages[..|stages| - 1]), StageHeight(stages[|stages| - 1].kids);
      if most >= last then most else last
  }

  ghost function StageHeight(kids: seq<Node>): nat
    decreases kids
  {
    if kids == [] then 0 else
      StageHeight(kids[..|kids| - 1]) + Height(kids[|kids| - 1])
  }

  lemma StageHeightNext(kids: seq<Node>, i: nat)
    requires i < |kids|
    ensures StageHeight(kids[..i + 1]) == StageHeight(kids[..i]) + Height(kids[i])
  {
    var upto := kids[..i + 1];
    assert upto[..|upto| - 1] == kids[..i] && upto[|upto| - 1] == kids[i];
  }

  lemma {:induction false} StageHeightGrows(kids: seq<Node>, i: nat, j: nat)
    requires i <= j <= |kids|
    ensures StageHeight(kids[..i]) <= StageHeight(kids[..j])
  {
    if i < j {
      StageHeightGrows(kids, i, j - 1);
      StageHeightNext(kids, j - 1);
    }
  }

  lemma StagesHeightNext(stages: seq<Stage>, g: nat)
    requires g < |stages|
    ensures StagesHeight(stages[..g + 1]) ==
              if StagesHeight(stages[..g]) >= StageHeight(stages[g].kids)
              then StagesHeight(stages[..g]) else StageHeight(stages[g].kids)
  {
    var upto := stages[..g + 1];
    assert upto[..|upto| - 1] == stages[..g] && upto[|upto| - 1] == stages[g];
  }

  /** The children of every stage are stacked from the row below their parent. */
  ghost predicate Stacked(t: Node, rows: map<nat, nat>)
    decreases t
  {
    && t.key in rows
    && forall g: nat {:trigger t.stages[g]} :: g < |t.stages| ==> StageStacked(t.stages[g].kids, rows, rows[t.key] + 1)
  }

  ghost predicate StageStacked(kids: seq<Node>, rows: map<nat, nat>, top: nat)
    decreases kids
  {
    forall i {:trigger kids[i]} :: 0 <= i < |kids| ==>
      Stacked(kids[i], rows) && rows[kids[i].key] == top + StageHeight(kids[..i])
  }

  lemma {:induction false} StackedExtends(t: Node, rows: map<nat, nat>, rows': map<nat, nat>)
    requires Stacked(t, rows) && Extends(rows, rows')
    ensures Stacked(t, rows')
    decreases t
  {
    forall g: nat | g < |t.stages| ensures StageStacked(t.stages[g].kids, rows', rows'[t.key] + 1) {
      StageStackedExtends(t.stages[g].kids, rows, rows', rows[t.key] + 1);
    }
  }

  lemma {:induction false} StageStackedExtends(kids: seq<Node>, rows: map<nat, nat>, rows': map<nat, nat>, top: nat)
    requires StageStacked(kids, rows, top) && Extends(rows, rows')
    ensures StageStacked(kids, rows', top)
    decreases kids
  {
    forall i | 0 <= i < |kids|
      ensures Stacked(kids[i], rows') && rows'[kids[i].key] == top + StageHeight(kids[..i])
    {
      StackedExtends(kids[i], rows, rows');
    }
  }

  ghost predicate StagesStacked(stages: seq<Stage>, n: nat, rows: map<nat, nat>, top: nat)
    requires n <= |stages|
  {
    forall g: nat {:trigger stages[g]} :: g < n ==> StageStacked(stages[g].kids, rows, top)
  }

  lemma StagesStackedNext(stages: seq<Stage>, n: nat, rows: map<nat, nat>, rows': map<nat, nat>, top: nat)
    requires n < |stages| && StagesStacked(stages, n, rows, top) && Extends(rows, rows')
    requires StageStacked(stages[n].kids, rows', top)
    ensures StagesStacked(stages, n + 1, rows', top)
  {
    hide StageStacked, Extends;
    forall g: nat | g < n + 1 ensures StageStacked(stages[g].kids, rows', top) {
      if g < n {
        StageStackedExtends(stages[g].kids, rows, rows', top);
      }
    }
  }

  lemma NodeStacked(t: Node, rows: map<nat, nat>, top: nat)
    requires t.key in rows && rows[t.key] == top && StagesStacked(t.stages, |t.stages|, rows, top + 1)
    ensures Stacked(t, rows)
  {
    hide StageStacked;
  }

  method LayoutNode(t: Node, top: nat, rows: map<nat, nat>) returns (height: nat, rows': map<nat, nat>)
    requires Unique(t) && Keys(t) !! rows.Keys
    ensures height == Height(t)
    ensures Grows(rows, rows', Keys(t))
    ensures Stacked(t, rows') && rows'[t.key] == top
    decreases t
  {
    rows' := rows[t.key := top];
    var stages := t.stages;
    if stages == [] {
      return 1, rows';
    }
    var highest := 0;
    assert stages[..0] == [] && stages[..|stages|] == stages && StagesHeight([]) == 0 && StagesKeys([]) == {};
    ghost var rooted := rows';
    assert StagesStacked(stages, 0, rows', top + 1);
    assert Grows(rows, rooted, {t.key}) && Grows(rooted, rooted, {});
    hide Stacked, StageStacked, StagesStacked, StagesHeight, StageHeight, UniqueStages, UniqueStage, StagesKeys,
         StageKeys, Grows;
    for g := 0 to |stages|
      invariant highest == StagesHeight(stages[..g])
      invariant Grows(rooted, rows', StagesKeys(stages[..g]))
      invariant StagesStacked(stages, g, rows', top + 1)
    {
      NextStage(stages, g);
      StagesHeightNext(stages, g);
      StillFresh(rooted, rows', StagesKeys(stages[..g]), StageKeys(stages[g].kids));
      ghost var before := rows';
      var stageHeight;
      stageHeight, rows' := LayoutStage(stages[g].kids, top + 1, rows');
      GrowsTwice(rooted, before, rows', StagesKeys(stages[..g]), StageKeys(stages[g].kids));
      GrowsMeans(before, rows', StageKeys(stages[g].kids));
      StagesStackedNext(stages, g, before, rows', top + 1);
      if stageHeight > highest {
        highest := stageHeight;
      }
    }
    height := 1 + highest;
    GrowsTwice(rows, rooted, rows', {t.key}, StagesKeys(stages));
    GrowsMeans(rooted, rows', StagesKeys(stages));
    NodeStacked(t, rows', top);
  }

  /** Stacks the instances of one list below each other. */
  method LayoutStage(kids: seq<Node>, top: nat, rows: map<nat, nat>) returns (height: nat, rows': map<nat, nat>)
    requires UniqueStage(kids) && StageKeys(kids) !! rows.Keys
    ensures height == StageHeight(kids)
    ensures Grows(rows, rows', StageKeys(kids))
    ensures StageStacked(kids, rows', top)
    decreases kids
  {
    height, rows' := 0, rows;
    assert kids[..0] == [] && kids[..|kids|] == kids;
    assert StageHeight([]) == 0 && StageKeys([]) == {} && StageStacked([], rows, top);
    assert Grows(rows, rows, {});
    hide Stacked, StageStacked, Height, StageHeight, Unique, UniqueStage, Keys, StageKeys, Grows;
    for i := 0 to |kids|
      invariant height == StageHeight(kids[..i])
      invariant Grows(rows, rows', StageKeys(kids[..i]))
      invariant StageStacked(kids[..i], rows', top)
    {
      NextKid(kids, i);
      StageHeightNext(kids, i);
      StillFresh(rows, rows', StageKeys(kids[..i]), Keys(kids[i]));
      ghost var before := rows';
      var kidHeight;
      kidHeight, rows' := LayoutNode(kids[i], top + height, rows');
      GrowsTwice(rows, before, rows', StageKeys(kids[..i]), Keys(kids[i]));
      GrowsMeans(before, rows', Keys(kids[i]));
      StageStackedNext(kids, i, before, rows', top);
      height := height + kidHeight;
    }
  }

  lemma StageStackedNext(kids: seq<Node>, i: nat, rows: map<nat, nat>, rows': map<nat, nat>, top: nat)
    requires i < |kids| && StageStacked(kids[..i], rows, top) && Extends(rows, rows')
    requires Stacked(kids[i], rows') && rows'[kids[i].key] == top + StageHeight(kids[..i])
    ensures StageStacked(kids[..i + 1], rows', top)
  {
    StageStackedExtends(kids[..i], rows, rows', top);
    hide Stacked, StageHeight;
    var upto := kids[..i + 1];
    forall j | 0 <= j < |upto|
      ensures Stacked(upto[j], rows') && rows'[upto[j].key] == top + StageHeight(upto[..j])
    {
      assert upto[..j] == kids[..j];
      if j < i {
        assert kids[..i][j] == upto[j] && kids[..i][..j] == upto[..j];
      }
    }
  }

  // ----- no collisions

  ghost predicate Apart(a: Interval, b: Interval) {
    a.end <= b.start || b.end <= a.start
  }

  /** Everything below an instance lies within its interval, and is at least 1 wide. */
  lemma {:induction false} Nested(t: Node, intervals: map<nat, Interval>, k: nat)
    requires Tiled(t, intervals) && k in Keys(t)
    ensures k in intervals && intervals[t.key].start <= intervals[k].start
    ensures intervals[k].start + 1.0 <= intervals[k].end <= intervals[t.key].end
    decreases t
  {
    if k != t.key {
      var g, i := FindBelow(t, k);
      var at := intervals[t.key];
      assert StageTiled(t.stages[g].kids, intervals, Interval(Bound(t.stages, g, at), Bound(t.stages, g + 1, at)));
      Nested(t.stages[g].kids[i], intervals, k);
      BoundsMonotone(t.stages, g, g + 1, at);
    }
  }

  lemma {:induction false} RowsBelow(t: Node, rows: map<nat, nat>, k: nat)
    requires Stacked(t, rows) && k in Keys(t)
    ensures k in rows && rows[t.key] <= rows[k] < rows[t.key] + Height(t)
    ensures k != t.key ==> rows[t.key] < rows[k]
    decreases t
  {
    if k != t.key {
      var g, i := FindBelow(t, k);
      assert StageStacked(t.stages[g].kids, rows, rows[t.key] + 1);
      RowsInStage(t.stages[g].kids, rows, rows[t.key] + 1, i, k);
    }
  }

  /** The rows of a stacked list are shared out among its members. */
  lemma {:induction false} RowsInStage(kids: seq<Node>, rows: map<nat, nat>, top: nat, i: nat, k: nat)
    requires StageStacked(kids, rows, top) && i < |kids| && k in Keys(kids[i])
    ensures k in rows &&
            top + StageHeight(kids[..i]) <= rows[k] < top + StageHeight(kids[..i + 1]) <= top + StageHeight(kids)
    decreases kids
  {
    RowsBelow(kids[i], rows, k);
    StageHeightNext(kids, i);
    StageHeightGrows(kids, i + 1, |kids|);
    assert kids[..|kids|] == kids;
  }

  /** Two instances of one tree on the same row have intervals without a common inner point. */
  lemma {:induction false} NoCollision(t: Node, intervals: map<nat, Interval>, rows: map<nat, nat>, a: nat, b: nat)
    requires Tiled(t, intervals) && Stacked(t, rows) && a in Keys(t) && b in Keys(t) && a != b
    ensures a in rows && b in rows && a in intervals && b in intervals
    ensures rows[a] == rows[b] ==> Apart(intervals[a], intervals[b])
    decreases t
  {
    RowsBelow(t, rows, a);
    RowsBelow(t, rows, b);
    Nested(t, intervals, a);
    Nested(t, intervals, b);
    if a != t.key && b != t.key {
      var g, i := FindBelow(t, a);
      var h, j := FindBelow(t, b);
      if g == h {
        var at := intervals[t.key];
        assert StageTiled(t.stages[g].kids, intervals, Interval(Bound(t.stages, g, at), Bound(t.stages, g + 1, at)));
        assert StageStacked(t.stages[g].kids, rows, rows[t.key] + 1);
        hide Tiled, Stacked, Height, Bound, Keys;
        StageNoCollision(t.stages[g].kids, intervals, rows, rows[t.key] + 1, i, j, a, b);
      } else {
        StagesApart(t, intervals, g, h, i, j, a, b);
      }
    }
  }

  /** Within one list, two members share no row. */
  lemma {:induction false} StageNoCollision(kids: seq<Node>, intervals: map<nat, Interval>, rows: map<nat, nat>,
                                            top: nat,
                                            i: nat, j: nat, a: nat, b: nat)
    requires StageStacked(kids, rows, top) && forall i :: 0 <= i < |kids| ==> Tiled(kids[i], intervals)
    requires i < |kids| && j < |kids| && a in Keys(kids[i]) && b in Keys(kids[j]) && a != b
    ensures a in rows && b in rows && a in intervals && b in intervals
    ensures rows[a] == rows[b] ==> Apart(intervals[a], intervals[b])
    decreases kids
  {
    RowsInStage(kids, rows, top, i, a);
    RowsInStage(kids, rows, top, j, b);
    Nested(kids[i], intervals, a);
    Nested(kids[j], intervals, b);
    if i < j {
      StageHeightGrows(kids, i + 1, j);
    } else if j < i {
      StageHeightGrows(kids, j + 1, i);
    } else {
      NoCollision(kids[i], intervals, rows, a, b);
    }
  }

  lemma WidthPositive(t: Node, intervals: map<nat, Interval>)
    requires Tiled(t, intervals)
    ensures t.key in intervals && Width(intervals[t.key]) >= 1.0
  {
  }

  /** Different stages take different times. */
  lemma StagesApart(t: Node, intervals: map<nat, Interval>, g: nat, h: nat, i: nat, j: nat, a: nat, b: nat)
    requires Tiled(t, intervals) && g < |t.stages| && h < |t.stages| && g != h
    requires i < |t.stages[g].kids| && j < |t.stages[h].kids|
    requires a in Keys(t.stages[g].kids[i]) && b in Keys(t.stages[h].kids[j])
    ensures a in intervals && b in intervals && Apart(intervals[a], intervals[b])
  {
    var at := intervals[t.key];
    assert StageTiled(t.stages[g].kids, intervals, Interval(Bound(t.stages, g, at), Bound(t.stages, g + 1, at)));
    assert StageTiled(t.stages[h].kids, intervals, Interval(Bound(t.stages, h, at), Bound(t.stages, h + 1, at)));
    hide Tiled, Bound, Keys, Span;
    Nested(t.stages[g].kids[i], intervals, a);
    Nested(t.stages[h].kids[j], intervals, b);
    assert Width(at) >= 0.0 by { WidthPositive(t, intervals); }
    if g < h {
      BoundsMonotone(t.stages, g + 1, h, at);
    } else {
      BoundsMonotone(t.stages, h + 1, g, at);
    }
  }

  // ----- the whole timeline

  const ROOT_GAP := 0.5

  /** Where the i-th root begins: the roots stand side by side with a gap after each. */
  function RootStart(forest: seq<Node>): real {
    if forest == [] then 0.0 else RootStart(forest[..|forest| - 1]) + Span(forest[|forest| - 1]) + ROOT_GAP
  }

  ghost predicate RootPlaced(forest: seq<Node>, i: nat, intervals: map<nat, Interval>)
    requires i < |forest|
  {
    && Tiled(forest[i], intervals)
    && intervals[forest[i].key] == Interval(RootStart(forest[..i]), RootStart(forest[..i]) + Span(forest[i]))
  }

  /** Roots are drawn as narrow as any placement could draw them. */
  lemma RootsAreLeast(forest: seq<Node>, i: nat, intervals: map<nat, Interval>, other: map<nat, Interval>)
    requires i < |forest| && RootPlaced(forest, i, intervals) && Fits(forest[i], other)
    ensures Fits(forest[i], intervals)
    ensures Width(intervals[forest[i].key]) <= Width(other[forest[i].key])
  {
    TiledFits(forest[i], intervals);
    SpanIsLeast(forest[i], other);
  }

  /** The first root begins at 0, and each later one half a unit after the one before has ended. */
  lemma RootsSideBySide(forest: seq<Node>, intervals: map<nat, Interval>)
    requires forall i :: 0 <= i < |forest| ==> forest[i].key in intervals && RootPlaced(forest, i, intervals)
    ensures forest != [] ==> intervals[forest[0].key].start == 0.0
    ensures forall i :: 0 < i < |forest| ==>
              intervals[forest[i].key].start == intervals[forest[i - 1].key].end + 0.5
  {
    forall i | 0 < i < |forest|
      ensures intervals[forest[i].key].start == intervals[forest[i - 1].key].end + 0.5
    {
      assert RootPlaced(forest, i, intervals) && RootPlaced(forest, i - 1, intervals);
      var upto := forest[..i];
      assert upto[..|upto| - 1] == forest[..i - 1] && upto[|upto| - 1] == forest[i - 1];
    }
    if forest != [] {
      assert RootPlaced(forest, 0, intervals) && forest[..0] == [];
    }
  }

  method PlaceForest(forest: seq<Node>) returns (intervals: map<nat, Interval>, rows: map<nat, nat>)
    requires UniqueStage(forest)
    ensures intervals.Keys == rows.Keys == StageKeys(forest)
    ensures forall i :: 0 <= i < |forest| ==> RootPlaced(forest, i, intervals)
    ensures StageStacked(forest, rows, 0)
  {
    intervals := map[];
    var current := 0.0;
    assert forest[..0] == [] && forest[..|forest|] == forest;
    for i := 0 to |forest|
      invariant current == RootStart(forest[..i])
      invariant intervals.Keys == StageKeys(forest[..i])
      invariant forall j :: 0 <= j < i ==> RootPlaced(forest, j, intervals)
    {
      hide Tiled, Unique, UniqueStage, Keys, StageKeys, Span;
      NextKid(forest, i);
      RootKey(forest[i]);
      ghost var before := intervals;
      intervals := AssignIntervals(forest[i], Interval(current, current + Span(forest[i])), intervals);
      forall j | 0 <= j < i ensures RootPlaced(forest, j, intervals) {
        assert RootPlaced(forest, j, before);
        TiledExtends(forest[j], before, intervals);
      }
      ghost var upto := forest[..i + 1];
      assert upto[..|upto| - 1] == forest[..i] && upto[|upto| - 1] == forest[i];
      current := current + Span(forest[i]) + ROOT_GAP;
    }
    var height;
    height, rows := LayoutStage(forest, 0, map[]);
  }

  /**
   Unfolds the roots and places every instance. Intervals are as wide as the
   spans need, nest and tile; and two instances on one row never overlap.
   */
  method DrawTimeline(roots: seq<Name>, sequences: map<Name, seq<seq<Name>>>)
    returns (forest: seq<Node>, intervals: map<nat, Interval>, rows: map<nat, nat>)
    ensures StageUnfolds(forest, roots, sequences, 0, {}) && UniqueStage(forest)
    ensures intervals.Keys == rows.Keys == StageKeys(forest)
    ensures forall i :: 0 <= i < |forest| ==> RootPlaced(forest, i, intervals)
    ensures StageStacked(forest, rows, 0)
    ensures forall a, b :: a in rows && b in rows && a != b && rows[a] == rows[b] ==> Apart(intervals[a], intervals[b])
  {
    var counter;
    forest, counter := MakeStage(roots, sequences, 0, {}, 0);
    intervals, rows := PlaceForest(forest);
    forall a, b | a in rows && b in rows && a != b && rows[a] == rows[b]
      ensures Apart(intervals[a], intervals[b])
    {
      hide Tiled, StageStacked, Span;
      var i := FindKid(forest, a);
      var j := FindKid(forest, b);
      forall k | 0 <= k < |forest| ensures Tiled(forest[k], intervals) {
        assert RootPlaced(forest, k, intervals);
      }
      StageNoCollision(forest, intervals, rows, 0, i, j, a, b);
    }
  }
}
