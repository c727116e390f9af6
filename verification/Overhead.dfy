/**
 The two placements of a measured overhead on a planned tree (`oracle.rs`): all
 of it on the last call, or spread evenly over all calls.
 */
module Overhead {
  import opened OraclePlan

  // ----- the estimated overheads of a tree, in preorder

  function Flat(p: Plan): seq<nat> {
    [p.overhead] + FlatSteps(p.steps)
  }

  function FlatSteps(steps: seq<Step>): seq<nat> {
    if steps == [] then [] else FlatCalls(steps[0].calls) + FlatSteps(steps[1..])
  }

  function FlatCalls(calls: seq<Call>): seq<nat> {
    if calls == [] then [] else
      assert calls[0].plan < calls[0];
      Flat(calls[0].plan) + FlatCalls(calls[1..])
  }

  /** Everything about a tree except its overheads. */
  function Zeroed(p: Plan): Plan {
    Plan(p.localWork, 0, ZeroedSteps(p.steps))
  }

  function ZeroedSteps(steps: seq<Step>): (r: seq<Step>)
    ensures |r| == |steps|
  {
    if steps == [] then [] else [Step(ZeroedCalls(steps[0].calls))] + ZeroedSteps(steps[1..])
  }

  function ZeroedCalls(calls: seq<Call>): (r: seq<Call>)
    ensures |r| == |calls|
  {
    if calls == [] then [] else
      assert calls[0].plan < calls[0];
      [calls[0].(plan := Zeroed(calls[0].plan))] + ZeroedCalls(calls[1..])
  }

  function Sum(s: seq<nat>): nat {
    if s == [] then 0 else s[0] + Sum(s[1..])
  }

  lemma {:induction false} SumAppend(s: seq<nat>, t: seq<nat>)
    ensures Sum(s + t) == Sum(s) + Sum(t)
  {
    if s == [] {
      assert s + t == t;
    } else {
      assert (s + t)[1..] == s[1..] + t;
      SumAppend(s[1..], t);
    }
  }

  lemma {:induction false} StepsAppend(s: seq<Step>, t: seq<Step>)
    ensures FlatSteps(s + t) == FlatSteps(s) + FlatSteps(t)
    ensures ZeroedSteps(s + t) == ZeroedSteps(s) + ZeroedSteps(t)
  {
    if s == [] {
      assert s + t == t;
    } else {
      assert (s + t)[1..] == s[1..] + t;
      StepsAppend(s[1..], t);
    }
  }

  lemma {:induction false} CallsAppend(c: seq<Call>, d: seq<Call>)
    ensures FlatCalls(c + d) == FlatCalls(c) + FlatCalls(d)
    ensures ZeroedCalls(c + d) == ZeroedCalls(c) + ZeroedCalls(d)
  {
    if c == [] {
      assert c + d == d;
    } else {
      assert (c + d)[1..] == c[1..] + d;
      CallsAppend(c[1..], d);
    }
  }

  lemma OneStep(step: Step)
    ensures FlatSteps([step]) == FlatCalls(step.calls) && ZeroedSteps([step]) == [Step(ZeroedCalls(step.calls))]
  {
  }

  lemma OneCall(call: Call)
    ensures FlatCalls([call]) == Flat(call.plan) && ZeroedCalls([call]) == [call.(plan := Zeroed(call.plan))]
  {
  }

  // ----- linear plans

  /** No step has more than one call, at any depth. */
  predicate Linear(p: Plan) {
    LinearSteps(p.steps)
  }

  predicate LinearSteps(steps: seq<Step>) {
    steps == [] || (|steps[0].calls| <= 1 && LinearCalls(steps[0].calls) && LinearSteps(steps[1..]))
  }

  predicate LinearCalls(calls: seq<Call>) {
    calls == [] || (assert calls[0].plan < calls[0]; Linear(calls[0].plan) && LinearCalls(calls[1..]))
  }

  function TotalLocal(p: Plan): nat {
    p.localWork + TotalLocalSteps(p.steps)
  }

  function TotalLocalSteps(steps: seq<Step>): nat {
    if steps == [] then 0 else TotalLocalCalls(steps[0].calls) + TotalLocalSteps(steps[1..])
  }

  function TotalLocalCalls(calls: seq<Call>): nat {
    if calls == [] then 0 else
      assert calls[0].plan < calls[0];
      TotalLocal(calls[0].plan) + TotalLocalCalls(calls[1..])
  }

  /** On a linear plan the estimate is all local work plus all overheads. */
  lemma {:induction false} LinearEst(p: Plan)
    requires Linear(p)
    ensures Est(p) == TotalLocal(p) + Sum(Flat(p))
  {
    LinearStepsEst(p.steps);
    SumAppend([p.overhead], FlatSteps(p.steps));
  }

  lemma {:induction false} LinearStepsEst(steps: seq<Step>)
    requires LinearSteps(steps)
    ensures StepsEst(steps) == TotalLocalSteps(steps) + Sum(FlatSteps(steps))
  {
    if steps != [] {
      LinearCallsEst(steps[0].calls);
      LinearStepsEst(steps[1..]);
      SumAppend(FlatCalls(steps[0].calls), FlatSteps(steps[1..]));
    }
  }

  lemma {:induction false} LinearCallsEst(calls: seq<Call>)
    requires |calls| <= 1 && LinearCalls(calls)
    ensures CallsEst(calls) == TotalLocalCalls(calls) + Sum(FlatCalls(calls))
  {
    if calls != [] {
      assert calls[0].plan < calls[0];
      LinearEst(calls[0].plan);
      assert calls == [calls[0]] && calls[1..] == [];
      OneCall(calls[0]);
    }
  }

  /** Zero overheads make the estimate the actual total, so the actual total of a linear plan is its local work. */
  lemma LinearActual(p: Plan)
    requires Linear(p)
    ensures Actual(p) == TotalLocal(p)
  {
    ZeroedFacts(p);
    ZeroedEst(p);
    LinearEst(Zeroed(p));
  }

  lemma {:induction false} ZeroedEst(p: Plan)
    ensures Est(Zeroed(p)) == Actual(p) && Sum(Flat(Zeroed(p))) == 0
  {
    ZeroedStepsEst(p.steps);
  }

  lemma {:induction false} ZeroedStepsEst(steps: seq<Step>)
    ensures StepsEst(ZeroedSteps(steps)) == StepsActual(steps) && Sum(FlatSteps(ZeroedSteps(steps))) == 0
  {
    if steps != [] {
      ZeroedCallsEst(steps[0].calls);
      ZeroedStepsEst(steps[1..]);
      SumAppend(FlatCalls(ZeroedCalls(steps[0].calls)), FlatSteps(ZeroedSteps(steps[1..])));
    }
  }

  lemma {:induction false} ZeroedCallsEst(calls: seq<Call>)
    ensures CallsEst(ZeroedCalls(calls)) == CallsActual(calls) && Sum(FlatCalls(ZeroedCalls(calls))) == 0
  {
    if calls != [] {
      assert calls[0].plan < calls[0];
      ZeroedEst(calls[0].plan);
      ZeroedCallsEst(calls[1..]);
      SumAppend(Flat(Zeroed(calls[0].plan)), FlatCalls(ZeroedCalls(calls[1..])));
    }
  }

  /** What is left when the overheads are ignored decides linearity, local work and the actual total. */
  lemma {:induction false} ZeroedFacts(p: Plan)
    ensures Linear(Zeroed(p)) <==> Linear(p)
    ensures TotalLocal(Zeroed(p)) == TotalLocal(p) && Actual(Zeroed(p)) == Actual(p)
  {
    ZeroedStepsFacts(p.steps);
  }

  lemma {:induction false} ZeroedStepsFacts(steps: seq<Step>)
    ensures LinearSteps(ZeroedSteps(steps)) <==> LinearSteps(steps)
    ensures TotalLocalSteps(ZeroedSteps(steps)) == TotalLocalSteps(steps)
    ensures StepsActual(ZeroedSteps(steps)) == StepsActual(steps)
  {
    if steps != [] {
      ZeroedCallsFacts(steps[0].calls);
      ZeroedStepsFacts(steps[1..]);
    }
  }

  lemma {:induction false} ZeroedCallsFacts(calls: seq<Call>)
    ensures LinearCalls(ZeroedCalls(calls)) <==> LinearCalls(calls)
    ensures TotalLocalCalls(ZeroedCalls(calls)) == TotalLocalCalls(calls)
    ensures CallsActual(ZeroedCalls(calls)) == CallsActual(calls)
  {
    if calls != [] {
      assert calls[0].plan < calls[0];
      ZeroedFacts(calls[0].plan);
      ZeroedCallsFacts(calls[1..]);
    }
  }

  /** Two trees that differ only in overheads: on a linear plan the estimates differ by the difference of the sums. */
  lemma OverheadShift(p: Plan, q: Plan)
    requires Zeroed(p) == Zeroed(q)
    ensures Actual(p) == Actual(q)
    ensures Linear(p) ==> Linear(q) && Est(q) - Est(p) == Sum(Flat(q)) - Sum(Flat(p))
  {
    ZeroedFacts(p);
    ZeroedFacts(q);
    if Linear(p) {
      LinearEst(p);
      LinearEst(q);
    }
  }

  // ----- what the totals of other plans are

  /** `q` keeps one call of every step of `p` that has any, and of the plan of that call in turn. */
  ghost predicate IsBranch(p: Plan, q: Plan)
    decreases q
  {
    p.localWork == q.localWork && p.overhead == q.overhead && AreBranches(p.steps, q.steps)
  }

  ghost predicate AreBranches(p: seq<Step>, q: seq<Step>)
    decreases q
  {
    |p| == |q| && (p == [] || (KeepsOne(p[0].calls, q[0].calls) && AreBranches(p[1..], q[1..])))
  }

  ghost predicate KeepsOne(c: seq<Call>, d: seq<Call>)
    decreases d
  {
    if c == [] then d == []
    else |d| == 1 && (assert d[0].plan < d[0]; exists i :: 0 <= i < |c| && IsBranch(c[i].plan, d[0].plan))
  }

  /** No branch costs more than the plan. */
  lemma {:induction false} BranchCostsLess(p: Plan, q: Plan)
    requires IsBranch(p, q)
    ensures Linear(q) && Est(q) <= Est(p)
    decreases q
  {
    BranchesCostLess(p.steps, q.steps);
  }

  lemma {:induction false} BranchesCostLess(p: seq<Step>, q: seq<Step>)
    requires AreBranches(p, q)
    ensures LinearSteps(q) && StepsEst(q) <= StepsEst(p)
    decreases q
  {
    if p != [] {
      var c, d := p[0].calls, q[0].calls;
      if c != [] {
        assert d[0].plan < d[0];
        var i :| 0 <= i < |c| && IsBranch(c[i].plan, d[0].plan);
        BranchCostsLess(c[i].plan, d[0].plan);
        LongestCall(c, i);
        assert d == [d[0]] && d[1..] == [];
        assert CallsEst(d) == Est(d[0].plan);
      }
      BranchesCostLess(p[1..], q[1..]);
    }
  }

  lemma {:induction false} LongestCall(calls: seq<Call>, i: nat)
    requires i < |calls|
    ensures Est(calls[i].plan) <= CallsEst(calls)
  {
    if i > 0 {
      LongestCall(calls[1..], i - 1);
    }
  }

  /** Some branch costs as much as the plan, so the estimate is the cost of the heaviest branch. */
  lemma {:induction false} HeaviestBranch(p: Plan) returns (q: Plan)
    ensures IsBranch(p, q) && Est(q) == Est(p)
    decreases p
  {
    var steps := HeaviestBranches(p.steps);
    q := Plan(p.localWork, p.overhead, steps);
  }

  lemma {:induction false} HeaviestBranches(p: seq<Step>) returns (q: seq<Step>)
    ensures AreBranches(p, q) && StepsEst(q) == StepsEst(p)
    decreases p
  {
    if p == [] {
      q := [];
    } else {
      var calls := HeaviestCall(p[0].calls);
      var rest := HeaviestBranches(p[1..]);
      q := [Step(calls)] + rest;
    }
  }

  lemma {:induction false} HeaviestCall(c: seq<Call>) returns (d: seq<Call>)
    ensures KeepsOne(c, d) && CallsEst(d) == CallsEst(c)
    decreases c
  {
    if c == [] {
      d := [];
    } else {
      assert c[0].plan < c[0];
      var q := HeaviestBranch(c[0].plan);
      d := [c[0].(plan := q)];
      assert d[1..] == [] && CallsEst(d) == Est(q);
      if c[1..] != [] && CallsEst(c[1..]) > Est(c[0].plan) {
        d := HeaviestCall(c[1..]);
        var i :| 0 <= i < |c| - 1 && IsBranch(c[1..][i].plan, d[0].plan);
        assert c[i + 1] == c[1..][i];
      }
    }
  }

  // ----- counting calls

  function CountCalls(p: Plan): nat {
    CountStepsCalls(p.steps)
  }

  function CountStepsCalls(steps: seq<Step>): nat {
    if steps == [] then 0 else CountCallsCalls(steps[0].calls) + CountStepsCalls(steps[1..])
  }

  function CountCallsCalls(calls: seq<Call>): nat {
    if calls == [] then 0 else
      assert calls[0].plan < calls[0];
      1 + CountCalls(calls[0].plan) + CountCallsCalls(calls[1..])
  }

  lemma {:induction false} CountIsFlatLength(p: Plan)
    ensures CountCalls(p) == |FlatSteps(p.steps)|
  {
    CountStepsIsFlatLength(p.steps);
  }

  lemma {:induction false} CountStepsIsFlatLength(steps: seq<Step>)
    ensures CountStepsCalls(steps) == |FlatSteps(steps)|
  {
    if steps != [] {
      CountCallsIsFlatLength(steps[0].calls);
      CountStepsIsFlatLength(steps[1..]);
    }
  }

  lemma {:induction false} CountCallsIsFlatLength(calls: seq<Call>)
    ensures CountCallsCalls(calls) == |FlatCalls(calls)|
  {
    if calls != [] {
      assert calls[0].plan < calls[0];
      CountIsFlatLength(calls[0].plan);
      CountCallsIsFlatLength(calls[1..]);
    }
  }

  // ----- all of it on the last call

  function AddLast(s: seq<nat>, k: nat): seq<nat>
    requires |s| > 0
  {
    s[|s| - 1 := s[|s| - 1] + k]
  }

  lemma AddLastAppend(s: seq<nat>, t: seq<nat>, k: nat)
    requires |t| > 0
    ensures AddLast(s + t, k) == s + AddLast(t, k)
  {
  }

  lemma ReplaceLastCall(calls: seq<Call>, plan: Plan, k: nat)
    requires |calls| > 0
    requires var last := calls[|calls| - 1].plan; Zeroed(plan) == Zeroed(last) && Flat(plan) == AddLast(Flat(last), k)
    ensures var n := |calls| - 1;
            var calls' := calls[n := calls[n].(plan := plan)];
            && ZeroedCalls(calls') == ZeroedCalls(calls)
            && |FlatCalls(calls)| > 0 && FlatCalls(calls') == AddLast(FlatCalls(calls), k)
  {
    var n := |calls| - 1;
    var call, call' := calls[n], calls[n].(plan := plan);
    assert calls == calls[..n] + [call] && calls[n := call'] == calls[..n] + [call'];
    CallsAppend(calls[..n], [call]);
    CallsAppend(calls[..n], [call']);
    OneCall(call);
    OneCall(call');
    AddLastAppend(FlatCalls(calls[..n]), Flat(call.plan), k);
  }

  /** Puts a step in place of the last step that has calls. */
  lemma ReplaceLast(steps: seq<Step>, i: nat, step: Step, k: nat)
    requires i < |steps| && FlatSteps(steps[i + 1..]) == []
    requires ZeroedCalls(step.calls) == ZeroedCalls(steps[i].calls)
    requires |FlatCalls(steps[i].calls)| > 0 && FlatCalls(step.calls) == AddLast(FlatCalls(steps[i].calls), k)
    ensures ZeroedSteps(steps[i := step]) == ZeroedSteps(steps)
    ensures |FlatSteps(steps)| > 0 && FlatSteps(steps[i := step]) == AddLast(FlatSteps(steps), k)
  {
    SplitAt(steps, i, steps[i]);
    SplitAt(steps, i, step);
    assert steps[i := steps[i]] == steps;
    hide AddLast;
    AddLastAppend(FlatSteps(steps[..i]), FlatCalls(steps[i].calls), k);
  }

  lemma SplitAt(steps: seq<Step>, i: nat, step: Step)
    requires i < |steps| && FlatSteps(steps[i + 1..]) == []
    ensures FlatSteps(steps[i := step]) == FlatSteps(steps[..i]) + FlatCalls(step.calls)
    ensures ZeroedSteps(steps[i := step]) ==
            ZeroedSteps(steps[..i]) + [Step(ZeroedCalls(step.calls))] + ZeroedSteps(steps[i + 1..])
  {
    assert steps[i := step] == steps[..i] + [step] + steps[i + 1..];
    StepsAppend(steps[..i] + [step], steps[i + 1..]);
    StepsAppend(steps[..i], [step]);
    OneStep(step);
  }

  /** Adds the overhead to the last call in preorder, if there is a call at all. */
  method AddOverheadToLastCall(p: Plan, k: nat) returns (q: Plan, done: bool)
    ensures done <==> |Flat(p)| > 1
    ensures !done ==> q == p
    ensures Zeroed(q) == Zeroed(p) && Flat(q) == if done then AddLast(Flat(p), k) else Flat(p)
    decreases p
  {
    for i := |p.steps| downto 0
      invariant FlatSteps(p.steps[i..]) == []
    {
      var calls := p.steps[i].calls;
      for j := |calls| downto 0
        invariant j == |calls|
      {
        var call := calls[j];
        var plan, inner := AddOverheadToLastCall(call.plan, k);
        if !inner {
          plan := call.plan.(overhead := call.plan.overhead + k);
          assert FlatSteps(call.plan.steps) == [];
        }
        ReplaceLastCall(calls, plan, k);
        ReplaceLast(p.steps, i, Step(calls[j := call.(plan := plan)]), k);
        AddLastAppend([p.overhead], FlatSteps(p.steps), k);
        q := p.(steps := p.steps[i := Step(calls[j := call.(plan := plan)])]);
        return q, true;
      }
      assert p.steps[i..] == [p.steps[i]] + p.steps[i + 1..];
    }
    assert p.steps[0..] == p.steps;
    return p, false;
  }

  // ----- an even share on every call

  /** Adds `perCall` everywhere and one more to the first `remainder` entries. */
  function Bump(s: seq<nat>, perCall: nat, remainder: nat): (r: seq<nat>)
    ensures |r| == |s|
  {
    seq(|s|, i requires 0 <= i < |s| => s[i] + perCall + if i < remainder then 1 else 0)
  }

  function Left(remainder: nat, n: nat): nat {
    if remainder > n then remainder - n else 0
  }

  lemma BumpAppend(s: seq<nat>, t: seq<nat>, perCall: nat, remainder: nat)
    ensures Bump(s + t, perCall, remainder) == Bump(s, perCall, remainder) + Bump(t, perCall, Left(remainder, |s|))
  {
  }

  lemma {:induction false} SumBump(s: seq<nat>, perCall: nat, remainder: nat)
    requires remainder <= |s|
    ensures Sum(Bump(s, perCall, remainder)) == Sum(s) + perCall * |s| + remainder
  {
    if s != [] {
      var rest := Left(remainder, 1);
      assert s == [s[0]] + s[1..];
      BumpAppend([s[0]], s[1..], perCall, remainder);
      assert Bump(s, perCall, remainder)[1..] == Bump(s[1..], perCall, rest);
      SumBump(s[1..], perCall, rest);
      assert perCall * |s| == perCall + perCall * |s[1..]|;
    }
  }

  /** Gives one call its share, then the calls below it. */
  method ShareOut(call: Call, perCall: nat, remainder: nat) returns (call': Call, left: nat)
    ensures call' == call.(plan := call'.plan) && Zeroed(call'.plan) == Zeroed(call.plan)
    ensures Flat(call'.plan) == Bump(Flat(call.plan), perCall, remainder)
    ensures left == Left(remainder, |Flat(call.plan)|)
    decreases call.plan.steps, 1
  {
    var extra := if remainder > 0 then 1 else 0;
    left := remainder - extra;
    var plan := call.plan.(overhead := call.plan.overhead + (perCall + extra));
    plan, left := AddOverheadInner(plan, perCall, left);
    BumpAppend([call.plan.overhead], FlatSteps(call.plan.steps), perCall, remainder);
    call' := call.(plan := plan);
  }

  /** Walks the calls in preorder and hands out the shares. */
  method AddOverheadInner(p: Plan, perCall: nat, remainder: nat) returns (q: Plan, left: nat)
    ensures Zeroed(q) == Zeroed(p) && q.overhead == p.overhead
    ensures FlatSteps(q.steps) == Bump(FlatSteps(p.steps), perCall, remainder)
    ensures left == Left(remainder, |FlatSteps(p.steps)|)
    decreases p.steps, 0
  {
    left := remainder;
    var steps: seq<Step> := [];
    for i := 0 to |p.steps|
      invariant ZeroedSteps(steps) == ZeroedSteps(p.steps[..i])
      invariant FlatSteps(steps) == Bump(FlatSteps(p.steps[..i]), perCall, remainder)
      invariant left == Left(remainder, |FlatSteps(p.steps[..i])|)
    {
      hide FlatSteps, FlatCalls, ZeroedSteps, ZeroedCalls, Bump, Flat, Zeroed;
      var calls: seq<Call> := [];
      ghost var before := left;
      var all := p.steps[i].calls;
      NoCalls(perCall, before);
      for j := 0 to |all|
        invariant ZeroedCalls(calls) == ZeroedCalls(all[..j])
        invariant FlatCalls(calls) == Bump(FlatCalls(all[..j]), perCall, before)
        invariant left == Left(before, |FlatCalls(all[..j])|)
      {
        assert all[j].plan < all[j];
        var call, rest := ShareOut(all[j], perCall, left);
        ShareCall(calls, all[..j], all[j], call.plan, perCall, before);
        assert all[..j + 1] == all[..j] + [all[j]];
        calls, left := calls + [call], rest;
      }
      assert all[..|all|] == all && p.steps[..i + 1] == p.steps[..i] + [p.steps[i]];
      ShareStep(steps, p.steps[..i], Step(calls), p.steps[i], perCall, remainder);
      steps := steps + [Step(calls)];
    }
    assert p.steps[..|p.steps|] == p.steps;
    q := p.(steps := steps);
  }

  lemma NoCalls(perCall: nat, remainder: nat)
    ensures FlatCalls([]) == Bump(FlatCalls([]), perCall, remainder) && |FlatCalls([])| == 0
  {
  }

  lemma ShareStep(steps: seq<Step>, done: seq<Step>, step': Step, step: Step, perCall: nat, remainder: nat)
    requires ZeroedSteps(steps) == ZeroedSteps(done) && ZeroedCalls(step'.calls) == ZeroedCalls(step.calls)
    requires FlatSteps(steps) == Bump(FlatSteps(done), perCall, remainder)
    requires FlatCalls(step'.calls) == Bump(FlatCalls(step.calls), perCall, Left(remainder, |FlatSteps(done)|))
    ensures ZeroedSteps(steps + [step']) == ZeroedSteps(done + [step])
    ensures FlatSteps(steps + [step']) == Bump(FlatSteps(done + [step]), perCall, remainder)
    ensures |FlatSteps(done + [step])| == |FlatSteps(done)| + |FlatCalls(step.calls)|
  {
    StepsAppend(steps, [step']);
    StepsAppend(done, [step]);
    OneStep(step');
    OneStep(step);
    BumpAppend(FlatSteps(done), FlatCalls(step.calls), perCall, remainder);
  }

  lemma ShareCall(calls: seq<Call>, done: seq<Call>, call: Call, plan: Plan, perCall: nat, before: nat)
    requires ZeroedCalls(calls) == ZeroedCalls(done)
    requires FlatCalls(calls) == Bump(FlatCalls(done), perCall, before)
    requires Zeroed(plan) == Zeroed(call.plan)
    requires Flat(plan) == Bump(Flat(call.plan), perCall, Left(before, |FlatCalls(done)|))
    ensures ZeroedCalls(calls + [call.(plan := plan)]) == ZeroedCalls(done + [call])
    ensures FlatCalls(calls + [call.(plan := plan)]) == Bump(FlatCalls(done + [call]), perCall, before)
    ensures |FlatCalls(done + [call])| == |FlatCalls(done)| + |Flat(call.plan)|
  {
    CallsAppend(calls, [call.(plan := plan)]);
    CallsAppend(done, [call]);
    OneCall(call.(plan := plan));
    OneCall(call);
    BumpAppend(FlatCalls(done), Flat(call.plan), perCall, before);
  }

  /** Spreads the overhead over all calls: shares differ by at most one and add up to exactly `k`. */
  method AddOverheadUniformly(p: Plan, k: nat) returns (q: Plan)
    ensures Zeroed(q) == Zeroed(p) && q.overhead == p.overhead
    ensures CountCalls(p) == 0 ==> q == p
    ensures CountCalls(p) > 0 ==>
              && FlatSteps(q.steps) == Bump(FlatSteps(p.steps), k / CountCalls(p), k % CountCalls(p))
              && Sum(Flat(q)) == Sum(Flat(p)) + k
  {
    var count := CountCalls(p);
    if count == 0 {
      return p;
    }
    CountIsFlatLength(p);
    var left;
    q, left := AddOverheadInner(p, k / count, k % count);
    SharesAddUp(FlatSteps(p.steps), k);
    SumAppend([p.overhead], FlatSteps(p.steps));
    SumAppend([p.overhead], FlatSteps(q.steps));
  }

  lemma SharesAddUp(s: seq<nat>, k: nat)
    requires |s| > 0
    ensures Sum(Bump(s, k / |s|, k % |s|)) == Sum(s) + k
  {
    hide *;
    SumBump(s, k / |s|, k % |s|);
    QuotientAndRest(k, |s|);
  }

  lemma QuotientAndRest(k: nat, n: nat)
    requires n > 0
    ensures k % n <= n && (k / n) * n + k % n == k
  {
  }
}
