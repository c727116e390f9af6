/**
 Precedence inference of `_aggregate_call_sequences` in `quickcheck.py`: which
 child calls precede which, counted over the traces that contain both.
 */
module Precedence {
  import opened Collections
  import opened Names
  import opened Graphs

  /** One trace: a sequence of stages, each a set of children called in parallel. */
  type Trace = seq<set<Name>>

  /** The first stage in which a child appears. */
  function Position(trace: Trace, child: Name): Option<nat> {
    if trace == [] then None
    else if child in trace[0] then Some(0)
    else match Position(trace[1..], child)
      case None => None
      case Some(i) => Some(i + 1)
  }

  predicate Present(trace: Trace, child: Name) {
    Position(trace, child).Some?
  }

  predicate Precedes(trace: Trace, a: Name, b: Name) {
    Present(trace, a) && Present(trace, b) && Position(trace, a).value < Position(trace, b).value
  }

  function AppearCount(traces: seq<Trace>, a: Name): nat {
    if traces == [] then 0
    else AppearCount(traces[..|traces| - 1], a) + if Present(traces[|traces| - 1], a) then 1 else 0
  }

  function CoCount(traces: seq<Trace>, a: Name, b: Name): nat {
    if traces == [] then 0
    else CoCount(traces[..|traces| - 1], a, b) +
         if Present(traces[|traces| - 1], a) && Present(traces[|traces| - 1], b) then 1 else 0
  }

  function PrecedeCount(traces: seq<Trace>, a: Name, b: Name): nat {
    if traces == [] then 0
    else PrecedeCount(traces[..|traces| - 1], a, b) + if Precedes(traces[|traces| - 1], a, b) then 1 else 0
  }

  // ----- the inferred precedence relation

  /** `a` precedes `b` in at least 70% of the traces that contain both. */
  predicate IsEdge(traces: seq<Trace>, a: Name, b: Name) {
    a != b && CoCount(traces, a, b) > 0 && 10 * PrecedeCount(traces, a, b) >= 7 * CoCount(traces, a, b)
  }

  lemma {:induction false} CountFacts(traces: seq<Trace>, a: Name, b: Name)
    ensures CoCount(traces, a, b) == CoCount(traces, b, a)
    ensures PrecedeCount(traces, a, b) + PrecedeCount(traces, b, a) <= CoCount(traces, a, b)
    ensures CoCount(traces, a, b) <= AppearCount(traces, a)
  {
    if traces != [] {
      CountFacts(traces[..|traces| - 1], a, b);
    }
  }

  lemma CountsSnoc(traces: seq<Trace>, t: Trace, a: Name, b: Name)
    ensures CoCount(traces + [t], a, b) ==
            CoCount(traces, a, b) + if Present(t, a) && Present(t, b) then 1 else 0
    ensures PrecedeCount(traces + [t], a, b) == PrecedeCount(traces, a, b) + if Precedes(t, a, b) then 1 else 0
    ensures AppearCount(traces + [t], a) == AppearCount(traces, a) + if Present(t, a) then 1 else 0
  {
    assert (traces + [t])[..|traces|] == traces;
  }

  // ----- which cycles the threshold admits

  ghost predicate AlwaysPresent(traces: seq<Trace>, a: Name) {
    forall i :: 0 <= i < |traces| ==> Present(traces[i], a)
  }

  lemma {:induction false} AppearsAlways(traces: seq<Trace>, a: Name)
    ensures AppearCount(traces, a) <= |traces|
    ensures AppearCount(traces, a) == |traces| <==> AlwaysPresent(traces, a)
  {
    if traces != [] {
      var n := |traces| - 1;
      AppearsAlways(traces[..n], a);
      if AlwaysPresent(traces[..n], a) && Present(traces[n], a) {
        forall i | 0 <= i < |traces| ensures Present(traces[i], a) {
          assert i < n ==> traces[..n][i] == traces[i];
        }
      }
      assert AlwaysPresent(traces, a) ==> AlwaysPresent(traces[..n], a);
    }
  }

  /** How many of three children are in a trace. */
  function Held(t: Trace, a: Name, b: Name, c: Name): nat {
    (if Present(t, a) then 1 else 0) + (if Present(t, b) then 1 else 0) + if Present(t, c) then 1 else 0
  }

  /** How many traces hold exactly `k` of three children. */
  function HoldCount(traces: seq<Trace>, a: Name, b: Name, c: Name, k: nat): nat {
    if traces == [] then 0
    else HoldCount(traces[..|traces| - 1], a, b, c, k) + if Held(traces[|traces| - 1], a, b, c) == k then 1 else 0
  }

  /** A trace with all three children satisfies at most two of the three edges of a cycle, one with two at most one. */
  lemma {:induction false} ThreeWayCount(traces: seq<Trace>, a: Name, b: Name, c: Name)
    ensures PrecedeCount(traces, a, b) + PrecedeCount(traces, b, c) + PrecedeCount(traces, c, a) <=
            2 * HoldCount(traces, a, b, c, 3) + HoldCount(traces, a, b, c, 2)
    ensures CoCount(traces, a, b) + CoCount(traces, b, c) + CoCount(traces, c, a) ==
            3 * HoldCount(traces, a, b, c, 3) + HoldCount(traces, a, b, c, 2)
  {
    if traces != [] {
      ThreeWayCount(traces[..|traces| - 1], a, b, c);
    }
  }

  /** In a three-cycle, at most three in four of the traces with two or more of the children have all of them. */
  lemma ThreeCycleBound(traces: seq<Trace>, a: Name, b: Name, c: Name)
    requires IsEdge(traces, a, b) && IsEdge(traces, b, c) && IsEdge(traces, c, a)
    ensures 0 < HoldCount(traces, a, b, c, 2) && HoldCount(traces, a, b, c, 3) <= 3 * HoldCount(traces, a, b, c, 2)
  {
    ThreeWayCount(traces, a, b, c);
  }

  lemma {:induction false} NoneMissing(traces: seq<Trace>, a: Name, b: Name, c: Name)
    requires AlwaysPresent(traces, a) && AlwaysPresent(traces, b) && AlwaysPresent(traces, c)
    ensures HoldCount(traces, a, b, c, 2) == 0
  {
    if traces != [] {
      NoneMissing(traces[..|traces| - 1], a, b, c);
    }
  }

  /** The threshold admits no two-cycle, and no three-cycle of children that are in every trace. */
  lemma NoShortCycle(traces: seq<Trace>, edges: set<(Name, Name)>, p: seq<Name>)
    requires forall a, b :: (a, b) in edges ==> IsEdge(traces, a, b)
    requires IsCycle(edges, p)
    requires |p| > 3 ==> forall i :: 0 <= i < |p| ==> AlwaysPresent(traces, p[i])
    ensures |p| > 4
  {
    assert (p[0], p[0 + 1]) in edges;
    if |p| == 3 {
      assert (p[1], p[1 + 1]) in edges;
      CountFacts(traces, p[0], p[1]);
    } else if |p| == 4 {
      assert (p[1], p[1 + 1]) in edges && (p[2], p[2 + 1]) in edges;
      ThreeCycleBound(traces, p[0], p[1], p[2]);
      NoneMissing(traces, p[0], p[1], p[2]);
    }
  }

  /** The trace that calls the children one after the other. */
  function Chain(s: seq<Name>): Trace {
    seq(|s|, i requires 0 <= i < |s| => {s[i]})
  }

  lemma {:induction false} ChainPosition(s: seq<Name>, i: nat)
    requires Distinct(s) && i < |s|
    ensures Position(Chain(s), s[i]) == Some(i)
  {
    if i > 0 {
      assert s[0] != s[i];
      assert Chain(s)[1..] == Chain(s[1..]);
      ChainPosition(s[1..], i - 1);
    }
  }

  lemma {:induction false} ChainHoldsNoOther(s: seq<Name>, x: Name)
    requires x !in s
    ensures Position(Chain(s), x) == None
  {
    if s != [] {
      assert Chain(s)[1..] == Chain(s[1..]);
      ChainHoldsNoOther(s[1..], x);
    }
  }

  /** The list read from `k` on and around. */
  function Rotation(s: seq<Name>, k: nat): seq<Name>
    requires k <= |s|
  {
    s[k..] + s[..k]
  }

  /** The position after `j`, around the end. */
  function Next(s: seq<Name>, j: nat): (r: nat)
    requires j < |s|
    ensures r < |s|
  {
    if j + 1 == |s| then 0 else j + 1
  }

  /** Consecutive children are in order in every rotation but the one that begins with the second of them. */
  lemma RotationOrder(s: seq<Name>, k: nat, j: nat)
    requires Distinct(s) && |s| >= 2 && k < |s| && j < |s|
    ensures Present(Chain(Rotation(s, k)), s[j])
    ensures Precedes(Chain(Rotation(s, k)), s[j], s[Next(s, j)]) <==> k != Next(s, j)
  {
    var r := Rotation(s, k);
    assert Distinct(r);
    var at, next := if j >= k then j - k else j + |s| - k, Next(s, j);
    var at' := if next >= k then next - k else next + |s| - k;
    assert r[at] == s[j] && r[at'] == s[next];
    ChainPosition(r, at);
    ChainPosition(r, at');
  }

  /** The traces that call the first `m` rotations of the list. */
  function Rotations(s: seq<Name>, m: nat): seq<Trace>
    requires m <= |s|
  {
    if m == 0 then [] else Rotations(s, m - 1) + [Chain(Rotation(s, m - 1))]
  }

  lemma AlwaysPresentSnoc(traces: seq<Trace>, t: Trace, a: Name)
    requires AlwaysPresent(traces, a) && Present(t, a)
    ensures AlwaysPresent(traces + [t], a)
  {
  }

  lemma {:induction false} RotationCounts(s: seq<Name>, m: nat, j: nat)
    requires Distinct(s) && |s| >= 2 && m <= |s| && j < |s|
    ensures AlwaysPresent(Rotations(s, m), s[j])
    ensures CoCount(Rotations(s, m), s[j], s[Next(s, j)]) == m
    ensures PrecedeCount(Rotations(s, m), s[j], s[Next(s, j)]) == m - if Next(s, j) < m then 1 else 0
  {
    if m > 0 {
      var traces, t := Rotations(s, m - 1), Chain(Rotation(s, m - 1));
      assert Rotations(s, m) == traces + [t];
      hide *;
      RotationCounts(s, m - 1, j);
      RotationOrder(s, m - 1, j);
      RotationOrder(s, m - 1, Next(s, j));
      AlwaysPresentSnoc(traces, t, s[j]);
      CountsSnoc(traces, t, s[j], s[Next(s, j)]);
    }
  }

  /** The children are in every trace, and each precedes the next, the last one the first. */
  ghost predicate PresentCycle(traces: seq<Trace>, s: seq<Name>) {
    && (forall i :: 0 <= i < |s| ==> AlwaysPresent(traces, s[i]))
    && (forall i :: 0 <= i < |s| ==> IsEdge(traces, s[i], s[Next(s, i)]))
  }

  /** Children that are in every trace can form a cycle exactly when they are four or more. */
  lemma PresentCycleExactly(s: seq<Name>)
    requires Distinct(s) && s != []
    ensures (exists traces :: PresentCycle(traces, s)) <==> |s| >= 4
  {
    if |s| >= 4 {
      var traces := Rotations(s, |s|);
      forall i | 0 <= i < |s| ensures AlwaysPresent(traces, s[i]) && IsEdge(traces, s[i], s[Next(s, i)]) {
        RotationCounts(s, |s|, i);
        assert Next(s, i) != i;
      }
      assert PresentCycle(traces, s);
    }
    if traces :| PresentCycle(traces, s) {
      PresentCycleIsLong(traces, s);
    }
  }

  lemma PresentCycleIsLong(traces: seq<Trace>, s: seq<Name>)
    requires s != [] && PresentCycle(traces, s)
    ensures |s| >= 4
  {
    var edges, p := set i | 0 <= i < |s| :: (s[i], s[Next(s, i)]), s + [s[0]];
    forall i | 0 <= i < |p| - 1 ensures (p[i], p[i + 1]) in edges {
      assert p[i] == s[i] && p[i + 1] == s[Next(s, i)];
    }
    NoShortCycle(traces, edges, p);
  }

  // ----- three children, not in every trace

  lemma {:induction false} CountsConcat(traces: seq<Trace>, more: seq<Trace>, a: Name, b: Name)
    ensures CoCount(traces + more, a, b) == CoCount(traces, a, b) + CoCount(more, a, b)
    ensures PrecedeCount(traces + more, a, b) == PrecedeCount(traces, a, b) + PrecedeCount(more, a, b)
  {
    if more == [] {
      assert traces + more == traces;
    } else {
      var n := |more| - 1;
      assert traces + more == (traces + more[..n]) + [more[n]] && more == more[..n] + [more[n]];
      CountsConcat(traces, more[..n], a, b);
      CountsSnoc(traces + more[..n], more[n], a, b);
    }
  }

  lemma HoldSnoc(traces: seq<Trace>, t: Trace, a: Name, b: Name, c: Name, k: nat)
    ensures HoldCount(traces + [t], a, b, c, k) ==
            HoldCount(traces, a, b, c, k) + if Held(t, a, b, c) == k then 1 else 0
  {
    assert (traces + [t])[..|traces|] == traces;
  }

  lemma {:induction false} HoldConcat(traces: seq<Trace>, more: seq<Trace>, a: Name, b: Name, c: Name, k: nat)
    ensures HoldCount(traces + more, a, b, c, k) == HoldCount(traces, a, b, c, k) + HoldCount(more, a, b, c, k)
  {
    if more == [] {
      assert traces + more == traces;
    } else {
      var n := |more| - 1;
      assert traces + more == (traces + more[..n]) + [more[n]] && more == more[..n] + [more[n]];
      HoldConcat(traces, more[..n], a, b, c, k);
      HoldSnoc(traces + more[..n], more[n], a, b, c, k);
    }
  }

  /** The traces that call only a child and the next one, for the first `m` children. */
  function Pairs(s: seq<Name>, m: nat): seq<Trace>
    requires m <= |s|
  {
    if m == 0 then [] else Pairs(s, m - 1) + [Chain([s[m - 1], s[Next(s, m - 1)]])]
  }

  /** Of three children, the trace of a pair holds two, in order. */
  lemma PairHolds(s: seq<Name>, i: nat, j: nat)
    requires Distinct(s) && |s| == 3 && i < 3 && j < 3
    ensures var t := Chain([s[i], s[Next(s, i)]]);
            && (Present(t, s[j]) && Present(t, s[Next(s, j)]) <==> i == j)
            && (Precedes(t, s[j], s[Next(s, j)]) <==> i == j)
            && Held(t, s[0], s[1], s[2]) == 2
  {
    var pair := [s[i], s[Next(s, i)]];
    assert pair[0] != pair[1];
    ChainPosition(pair, 0);
    ChainPosition(pair, 1);
    ChainHoldsNoOther(pair, s[Next(s, Next(s, i))]);
  }

  lemma {:induction false} PairCounts(s: seq<Name>, m: nat, j: nat)
    requires Distinct(s) && |s| == 3 && m <= 3 && j < 3
    ensures CoCount(Pairs(s, m), s[j], s[Next(s, j)]) == if j < m then 1 else 0
    ensures PrecedeCount(Pairs(s, m), s[j], s[Next(s, j)]) == if j < m then 1 else 0
    ensures HoldCount(Pairs(s, m), s[0], s[1], s[2], 2) == m && HoldCount(Pairs(s, m), s[0], s[1], s[2], 3) == 0
  {
    if m > 0 {
      PairCounts(s, m - 1, j);
      PairHolds(s, m - 1, j);
      var t := Chain([s[m - 1], s[Next(s, m - 1)]]);
      assert Pairs(s, m) == Pairs(s, m - 1) + [t];
      hide Chain, Position, Distinct, Precedes, Present, Held, CoCount, PrecedeCount, AppearCount, HoldCount, Pairs;
      CountsSnoc(Pairs(s, m - 1), t, s[j], s[Next(s, j)]);
      HoldSnoc(Pairs(s, m - 1), t, s[0], s[1], s[2], 2);
      HoldSnoc(Pairs(s, m - 1), t, s[0], s[1], s[2], 3);
    }
  }

  /** The traces of the pairs, and `k` times those of the rotations. */
  function Mixed(s: seq<Name>, k: nat): seq<Trace> {
    if k == 0 then Pairs(s, |s|) else Mixed(s, k - 1) + Rotations(s, |s|)
  }

  lemma {:induction false} MixedCounts(s: seq<Name>, k: nat, j: nat)
    requires Distinct(s) && |s| == 3 && j < 3
    ensures CoCount(Mixed(s, k), s[j], s[Next(s, j)]) == 3 * k + 1
    ensures PrecedeCount(Mixed(s, k), s[j], s[Next(s, j)]) == 2 * k + 1
    ensures HoldCount(Mixed(s, k), s[0], s[1], s[2], 2) == 3 && HoldCount(Mixed(s, k), s[0], s[1], s[2], 3) == 3 * k
  {
    if k == 0 {
      PairCounts(s, 3, j);
    } else {
      MixedCounts(s, k - 1, j);
      RotationCounts(s, 3, j);
      CountsConcat(Mixed(s, k - 1), Rotations(s, 3), s[j], s[Next(s, j)]);
      AllHeld(s);
      HoldConcat(Mixed(s, k - 1), Rotations(s, 3), s[0], s[1], s[2], 2);
      HoldConcat(Mixed(s, k - 1), Rotations(s, 3), s[0], s[1], s[2], 3);
    }
  }

  lemma AllHeld(s: seq<Name>)
    requires Distinct(s) && |s| == 3
    ensures HoldCount(Rotations(s, 3), s[0], s[1], s[2], 2) == 0 && HoldCount(Rotations(s, 3), s[0], s[1], s[2], 3) == 3
  {
    var traces := Rotations(s, 3);
    RotationCounts(s, 3, 0);
    RotationCounts(s, 3, 1);
    RotationCounts(s, 3, 2);
    NoneMissing(traces, s[0], s[1], s[2]);
    ThreeWayCount(traces, s[0], s[1], s[2]);
  }

  /**
   The bound on three-cycles is sharp: with three traces of two of the children, nine
   traces of all three are the most.
   */
  lemma ThreeCycleExists(s: seq<Name>, k: nat)
    requires Distinct(s) && |s| == 3
    ensures HoldCount(Mixed(s, k), s[0], s[1], s[2], 2) == 3 && HoldCount(Mixed(s, k), s[0], s[1], s[2], 3) == 3 * k
    ensures (forall j :: 0 <= j < 3 ==> IsEdge(Mixed(s, k), s[j], s[Next(s, j)])) <==> k <= 3
  {
    MixedCounts(s, k, 0);
    forall j | 0 <= j < 3 ensures IsEdge(Mixed(s, k), s[j], s[Next(s, j)]) <==> k <= 3 {
      MixedCounts(s, k, j);
      assert Next(s, j) != j;
    }
  }

  // ----- counting, as the source does it

  /** Sorting a pair of names, so that both orders share one key. */
  function SortedPair(a: Name, b: Name): (Name, Name) {
    if Leq(a, b) then (a, b) else (b, a)
  }

  lemma SortedPairSymmetric(a: Name, b: Name)
    ensures SortedPair(a, b) == SortedPair(b, a)
  {
    LeqIsOrder();
    assert Leq(a, b) || Leq(b, a);
  }

  /** `pos` records the first stage of exactly the children of `trace`. */
  ghost predicate PositionsOf(trace: Trace, pos: map<Name, nat>) {
    forall c :: Lookup(pos, c) == Position(trace, c)
  }

  lemma {:induction false} PositionSnoc(trace: Trace, stage: set<Name>, c: Name)
    ensures Position(trace + [stage], c) ==
            if Position(trace, c).Some? then Position(trace, c)
            else if c in stage then Some(|trace|) else None
  {
    if trace != [] {
      assert (trace + [stage])[1..] == trace[1..] + [stage];
      PositionSnoc(trace[1..], stage, c);
    }
  }

  /** Walks the stages and lists each child once, in the order of first insertion. */
  method StagePositions(trace: Trace) returns (pos: map<Name, nat>, children: seq<Name>)
    ensures PositionsOf(trace, pos)
    ensures Distinct(children) && forall c :: c in children <==> c in pos
  {
    pos, children := map[], [];
    for i := 0 to |trace|
      invariant PositionsOf(trace[..i], pos)
      invariant Distinct(children) && forall c :: c in children <==> c in pos
    {
      ghost var before := pos;
      var todo := trace[i];
      while todo != {}
        invariant todo <= trace[i]
        invariant forall c :: Lookup(pos, c) ==
                    if c in before then Some(before[c]) else if c in trace[i] - todo then Some(i) else None
        invariant Distinct(children) && forall c :: c in children <==> c in pos
        decreases todo
      {
        var child :| child in todo;
        todo := todo - {child};
        if child !in pos {
          pos := pos[child := i];
          children := children + [child];
        }
      }
      assert trace[..i + 1] == trace[..i] + [trace[i]];
      forall c ensures Lookup(pos, c) == Position(trace[..i + 1], c) {
        PositionSnoc(trace[..i], trace[i], c);
        assert Lookup(before, c) == Position(trace[..i], c);
      }
    }
    assert trace[..|trace|] == trace;
  }

  /** The unordered pairs that the double loop has passed when it stands at `(i, j)`. */
  ghost predicate Counted(children: seq<Name>, i: nat, j: nat, a: Name, b: Name) {
    exists p, q :: 0 <= p < q < |children| && (p < i || (p == i && q < j)) &&
      ((children[p] == a && children[q] == b) || (children[p] == b && children[q] == a))
  }

  lemma CountedStep(children: seq<Name>, i: nat, j: nat, a: Name, b: Name)
    requires Distinct(children) && i < j < |children|
    ensures !Counted(children, i, j, children[i], children[j]) && !Counted(children, i, j, children[j], children[i])
    ensures Counted(children, i, j + 1, a, b) <==>
            Counted(children, i, j, a, b)
            || (a, b) == (children[i], children[j]) || (b, a) == (children[i], children[j])
  {
  }

  lemma CountedEnds(children: seq<Name>, i: nat, a: Name, b: Name)
    requires Distinct(children) && i <= |children|
    ensures !Counted(children, 0, 1, a, b)
    ensures i < |children| ==> (Counted(children, i, |children|, a, b) <==> Counted(children, i + 1, i + 2, a, b))
    ensures a != b ==> (Counted(children, |children|, |children| + 1, a, b) <==> a in children && b in children)
  {
    if a != b && a in children && b in children {
      var p, q :| 0 <= p < |children| && 0 <= q < |children| && children[p] == a && children[q] == b;
      assert p < q || q < p;
    }
  }

  /** Keys are sorted pairs of distinct names, and only counted pairs have an entry. */
  ghost predicate PairKeys(co: map<(Name, Name), nat>) {
    forall k :: k in co ==> k.0 != k.1 && SortedPair(k.0, k.1) == k && co[k] > 0
  }

  /** The counts of `{a, b}` after the double loop went over one trace up to `(i, j)`. */
  ghost predicate PairAdded(children: seq<Name>, pos: map<Name, nat>, i: nat, j: nat,
                            co0: map<(Name, Name), nat>, pre0: map<(Name, Name), nat>,
                            co: map<(Name, Name), nat>, pre: map<(Name, Name), nat>, a: Name, b: Name)
    requires forall c :: c in children ==> c in pos
  {
    var counted := Counted(children, i, j, a, b);
    && GetOr(co, SortedPair(a, b), 0) == GetOr(co0, SortedPair(a, b), 0) + (if counted then 1 else 0)
    && GetOr(pre, (a, b), 0) == GetOr(pre0, (a, b), 0) + if counted && pos[a] < pos[b] then 1 else 0
  }

  ghost predicate PairsAdded(children: seq<Name>, pos: map<Name, nat>, i: nat, j: nat,
                             co0: map<(Name, Name), nat>, pre0: map<(Name, Name), nat>,
                             co: map<(Name, Name), nat>, pre: map<(Name, Name), nat>)
    requires forall c :: c in children ==> c in pos
  {
    PairKeys(co) && forall a, b :: a != b ==> PairAdded(children, pos, i, j, co0, pre0, co, pre, a, b)
  }

  /** Adds one co-occurrence, and one precedence unless the two share a stage, for every pair. */
  method CountPairs(children: seq<Name>, pos: map<Name, nat>,
                    co0: map<(Name, Name), nat>, pre0: map<(Name, Name), nat>)
    returns (co: map<(Name, Name), nat>, pre: map<(Name, Name), nat>)
    requires Distinct(children) && forall c :: c in children ==> c in pos
    requires PairKeys(co0)
    ensures PairsAdded(children, pos, |children|, |children| + 1, co0, pre0, co, pre)
  {
    co, pre := co0, pre0;
    forall a, b | a != b ensures PairAdded(children, pos, 0, 1, co0, pre0, co, pre, a, b) {
      CountedEnds(children, 0, a, b);
    }
    hide PairAdded;
    for i := 0 to |children|
      invariant PairsAdded(children, pos, i, i + 1, co0, pre0, co, pre)
    {
      for j := i + 1 to |children|
        invariant PairsAdded(children, pos, i, j, co0, pre0, co, pre)
      {
        var a, b := children[i], children[j];
        var pair := SortedPair(a, b);
        ghost var co1, pre1 := co, pre;
        co := co[pair := GetOr(co, pair, 0) + 1];
        if pos[a] < pos[b] {
          pre := pre[(a, b) := GetOr(pre, (a, b), 0) + 1];
        } else if pos[b] < pos[a] {
          pre := pre[(b, a) := GetOr(pre, (b, a), 0) + 1];
        }
        PairStep(children, pos, i, j, co0, pre0, co1, pre1, co, pre);
      }
      RowEnd(children, pos, i, co0, pre0, co, pre);
    }
  }

  lemma RowEnd(children: seq<Name>, pos: map<Name, nat>, i: nat,
               co0: map<(Name, Name), nat>, pre0: map<(Name, Name), nat>,
               co: map<(Name, Name), nat>, pre: map<(Name, Name), nat>)
    requires Distinct(children) && i < |children|
    requires forall c :: c in children ==> c in pos
    requires PairsAdded(children, pos, i, |children|, co0, pre0, co, pre)
    ensures PairsAdded(children, pos, i + 1, i + 2, co0, pre0, co, pre)
  {
    var i', j' := i + 1, i + 2;
    forall a, b | a != b ensures PairAdded(children, pos, i', j', co0, pre0, co, pre, a, b) {
      assert PairAdded(children, pos, i, |children|, co0, pre0, co, pre, a, b);
      CountedEnds(children, i, a, b);
    }
  }

  /** The tables after one more pair of children. */
  ghost predicate PairCounted(a: Name, b: Name, pos: map<Name, nat>,
                              co1: map<(Name, Name), nat>, pre1: map<(Name, Name), nat>,
                              co: map<(Name, Name), nat>, pre: map<(Name, Name), nat>)
    requires a in pos && b in pos
  {
    && co == co1[SortedPair(a, b) := GetOr(co1, SortedPair(a, b), 0) + 1]
    && pre == if pos[a] < pos[b] then pre1[(a, b) := GetOr(pre1, (a, b), 0) + 1]
              else if pos[b] < pos[a] then pre1[(b, a) := GetOr(pre1, (b, a), 0) + 1]
              else pre1
  }

  lemma PairStepAt(children: seq<Name>, pos: map<Name, nat>, i: nat, j: nat,
                   co0: map<(Name, Name), nat>, pre0: map<(Name, Name), nat>,
                   co1: map<(Name, Name), nat>, pre1: map<(Name, Name), nat>,
                   co: map<(Name, Name), nat>, pre: map<(Name, Name), nat>, a: Name, b: Name)
    requires Distinct(children) && i < j < |children| && a != b
    requires forall c :: c in children ==> c in pos
    requires PairAdded(children, pos, i, j, co0, pre0, co1, pre1, a, b)
    requires PairCounted(children[i], children[j], pos, co1, pre1, co, pre)
    ensures PairAdded(children, pos, i, j + 1, co0, pre0, co, pre, a, b)
  {
    var x, y := children[i], children[j];
    SortedPairSymmetric(x, y);
    SortedPairSymmetric(a, b);
    CountedStep(children, i, j, a, b);
    assert (a, b) == (x, y) || (b, a) == (x, y) ==> !Counted(children, i, j, a, b);
    hide Counted;
  }

  lemma PairStep(children: seq<Name>, pos: map<Name, nat>, i: nat, j: nat,
                 co0: map<(Name, Name), nat>, pre0: map<(Name, Name), nat>,
                 co1: map<(Name, Name), nat>, pre1: map<(Name, Name), nat>,
                 co: map<(Name, Name), nat>, pre: map<(Name, Name), nat>)
    requires Distinct(children) && i < j < |children|
    requires forall c :: c in children ==> c in pos
    requires PairsAdded(children, pos, i, j, co0, pre0, co1, pre1)
    requires PairCounted(children[i], children[j], pos, co1, pre1, co, pre)
    ensures PairsAdded(children, pos, i, j + 1, co0, pre0, co, pre)
  {
    var j' := j + 1;
    forall a, b | a != b ensures PairAdded(children, pos, i, j', co0, pre0, co, pre, a, b) {
      PairStepAt(children, pos, i, j, co0, pre0, co1, pre1, co, pre, a, b);
    }
    SortedPairSymmetric(children[i], children[j]);
    hide PairAdded;
  }

  /** What the three dictionaries hold after the counting loops. */
  datatype Tables = Tables(appear: map<Name, nat>, co: map<(Name, Name), nat>, pre: map<(Name, Name), nat>)

  ghost predicate PairTabled(traces: seq<Trace>, t: Tables, a: Name, b: Name) {
    && GetOr(t.co, SortedPair(a, b), 0) == CoCount(traces, a, b)
    && GetOr(t.pre, (a, b), 0) == PrecedeCount(traces, a, b)
  }

  ghost predicate TablesOk(traces: seq<Trace>, t: Tables) {
    && PairKeys(t.co)
    && (forall a, b :: a != b ==> PairTabled(traces, t, a, b))
    && (forall a :: GetOr(t.appear, a, 0) == AppearCount(traces, a))
    && (forall a :: a in t.appear ==> t.appear[a] > 0)
  }

  method CountAppearances(children: seq<Name>, appear0: map<Name, nat>) returns (appear: map<Name, nat>)
    requires Distinct(children)
    ensures forall a :: GetOr(appear, a, 0) == GetOr(appear0, a, 0) + if a in children then 1 else 0
    ensures appear.Keys == appear0.Keys + set c | c in children
  {
    appear := appear0;
    for i := 0 to |children|
      invariant forall a :: GetOr(appear, a, 0) == GetOr(appear0, a, 0) + if a in children[..i] then 1 else 0
      invariant appear.Keys == appear0.Keys + set c | c in children[..i]
    {
      assert children[..i + 1] == children[..i] + [children[i]];
      appear := appear[children[i] := GetOr(appear, children[i], 0) + 1];
    }
    assert children[..|children|] == children;
  }

  lemma TracePairs(traces: seq<Trace>, trace: Trace, pos: map<Name, nat>, children: seq<Name>,
                   t0: Tables, t: Tables, a: Name, b: Name)
    requires PositionsOf(trace, pos) && Distinct(children) && a != b
    requires forall c :: c in children <==> c in pos
    requires PairTabled(traces, t0, a, b)
    requires PairAdded(children, pos, |children|, |children| + 1, t0.co, t0.pre, t.co, t.pre, a, b)
    ensures PairTabled(traces + [trace], t, a, b)
  {
    CountedEnds(children, |children|, a, b);
    CountsSnoc(traces, trace, a, b);
    assert Lookup(pos, a) == Position(trace, a) && Lookup(pos, b) == Position(trace, b);
  }

  /** The counting loops compute the counts that define the precedence relation. */
  method CountTraces(traces: seq<Trace>) returns (t: Tables)
    ensures TablesOk(traces, t)
  {
    t := Tables(map[], map[], map[]);
    for i := 0 to |traces|
      invariant TablesOk(traces[..i], t)
    {
      var pos, children := StagePositions(traces[i]);
      var appear := CountAppearances(children, t.appear);
      var co, pre := CountPairs(children, pos, t.co, t.pre);
      ghost var t0 := t;
      t := Tables(appear, co, pre);
      ghost var done, done' := traces[..i], traces[..i + 1];
      assert done' == done + [traces[i]];
      forall a, b | a != b ensures PairTabled(done', t, a, b) {
        assert PairTabled(done, t0, a, b);
        assert PairAdded(children, pos, |children|, |children| + 1, t0.co, t0.pre, co, pre, a, b);
        TracePairs(done, traces[i], pos, children, t0, t, a, b);
      }
      forall a ensures GetOr(appear, a, 0) == AppearCount(done', a) {
        CountsSnoc(done, traces[i], a, a);
        assert Lookup(pos, a) == Position(traces[i], a);
      }
      hide PairTabled, PairAdded;
      forall a | a in appear ensures appear[a] > 0 {
        assert GetOr(appear, a, 0) == GetOr(t0.appear, a, 0) + if a in children then 1 else 0;
      }
    }
    assert traces[..|traces|] == traces;
  }

  function Ratio(n: nat, co: nat): real
    requires co > 0
  {
    n as real / co as real
  }

  lemma RatioAtLeast(n: nat, co: nat, q: real)
    requires co > 0
    ensures Ratio(n, co) >= q <==> n as real >= q * co as real
  {
    var r, c := Ratio(n, co), co as real;
    assert r * c == n as real;
    if r >= q {
      assert (r - q) * c >= 0.0;
    } else {
      assert (q - r) * c > 0.0;
    }
  }

  lemma RatioThreshold(ab: nat, ba: nat, co: nat)
    requires co > 0 && ab + ba <= co
    ensures Ratio(ab, co) >= 0.7 && Ratio(ab, co) > Ratio(ba, co) <==> 10 * ab >= 7 * co
  {
    RatioAtLeast(ab, co, 0.7);
    RatioAtLeast(ba, co, Ratio(ab, co));
    assert Ratio(ab, co) * co as real == ab as real;
  }

  /** Whether `edges` has the right entry for `(a, b)` once the pairs outside `todo` were handled. */
  ghost predicate EdgeHandled(traces: seq<Trace>, edges: map<(Name, Name), real>, todo: set<(Name, Name)>,
                              a: Name, b: Name)
  {
    Lookup(edges, (a, b)) ==
    if IsEdge(traces, a, b) && SortedPair(a, b) !in todo
    then Some(Ratio(PrecedeCount(traces, a, b), CoCount(traces, a, b))) else None
  }

  lemma EdgeStep(traces: seq<Trace>, t: Tables, edges0: map<(Name, Name), real>, edges: map<(Name, Name), real>,
                 todo: set<(Name, Name)>, x: Name, y: Name, a: Name, b: Name)
    requires TablesOk(traces, t) && (x, y) in t.co && x != y
    requires EdgeHandled(traces, edges0, todo, a, b) && (x, y) in todo
    requires var xy, yx := Ratio(GetOr(t.pre, (x, y), 0), t.co[(x, y)]), Ratio(GetOr(t.pre, (y, x), 0), t.co[(x, y)]);
             edges == if xy >= 0.7 && xy > yx then edges0[(x, y) := xy]
                      else if yx >= 0.7 && yx > xy then edges0[(y, x) := yx] else edges0
    ensures EdgeHandled(traces, edges, todo - {(x, y)}, a, b)
  {
    if SortedPair(a, b) == (x, y) {
      assert (a, b) == (x, y) || (a, b) == (y, x);
      assert PairTabled(traces, t, a, b) && PairTabled(traces, t, b, a);
      CountFacts(traces, a, b);
      SortedPairSymmetric(a, b);
      RatioThreshold(PrecedeCount(traces, a, b), PrecedeCount(traces, b, a), CoCount(traces, a, b));
      RatioThreshold(PrecedeCount(traces, b, a), PrecedeCount(traces, a, b), CoCount(traces, a, b));
    } else {
      assert SortedPair(x, y) == (x, y);
      SortedPairSymmetric(x, y);
    }
  }

  /** The edges are exactly the precedence relation, weighted by the ratios. */
  ghost predicate EdgesOk(traces: seq<Trace>, edges: map<(Name, Name), real>) {
    forall a, b :: EdgeHandled(traces, edges, {}, a, b)
  }

  /** One precedence edge for every pair that passes the threshold. */
  method BuildEdges(ghost traces: seq<Trace>, t: Tables) returns (edges: map<(Name, Name), real>)
    requires TablesOk(traces, t)
    ensures EdgesOk(traces, edges)
  {
    edges := map[];
    var todo := t.co.Keys;
    forall a, b ensures EdgeHandled(traces, edges, todo, a, b) {
      if IsEdge(traces, a, b) {
        assert PairTabled(traces, t, a, b);
      }
    }
    while todo != {}
      invariant todo <= t.co.Keys
      invariant forall a, b :: EdgeHandled(traces, edges, todo, a, b)
      decreases todo
    {
      hide EdgeHandled;
      var pair :| pair in todo;
      ghost var edges0, todo0 := edges, todo;
      todo := todo - {pair};
      var x, y, co := pair.0, pair.1, t.co[pair];
      var xy, yx := Ratio(GetOr(t.pre, (x, y), 0), co), Ratio(GetOr(t.pre, (y, x), 0), co);
      if xy >= 0.7 && xy > yx {
        edges := edges[(x, y) := xy];
      } else if yx >= 0.7 && yx > xy {
        edges := edges[(y, x) := yx];
      }
      forall a, b ensures EdgeHandled(traces, edges, todo, a, b) {
        assert EdgeHandled(traces, edges0, todo0, a, b);
        EdgeStep(traces, t, edges0, edges, todo0, x, y, a, b);
      }
    }
  }
}
