/**
 Execution plans of the oracle planner (`oracle.rs`): trees of planned calls,
 their work totals, and the hints that tell a scheduler what is left to do.

 Work is counted in unbounded naturals; `SaturatingEst` shows that this is what
 64-bit saturating arithmetic computes whenever the total fits.
 */
module OraclePlan {

  datatype CallTarget = CallTarget(serviceId: string, methodName: string)

  datatype Hint = Hint(childWork: nat, remainingAfter: nat)

  datatype Call = Call(target: CallTarget, hint: Hint, plan: Plan)

  /** Calls made in parallel. */
  datatype Step = Step(calls: seq<Call>)

  datatype Plan = Plan(localWork: nat, overhead: nat, steps: seq<Step>)

  function Max(a: nat, b: nat): nat {
    if a >= b then a else b
  }

  // ----- totals

  /** Parallel calls cost as much as the longest, steps add up. */
  function Est(p: Plan): nat {
    StepsEst(p.steps) + p.localWork + p.overhead
  }

  function StepsEst(steps: seq<Step>): nat {
    if steps == [] then 0 else CallsEst(steps[0].calls) + StepsEst(steps[1..])
  }

  function CallsEst(calls: seq<Call>): nat {
    if calls == [] then 0 else
      assert calls[0].plan < calls[0];
      Max(Est(calls[0].plan), CallsEst(calls[1..]))
  }

  /** The same without the estimated overheads. */
  function Actual(p: Plan): nat {
    StepsActual(p.steps) + p.localWork
  }

  function StepsActual(steps: seq<Step>): nat {
    if steps == [] then 0 else CallsActual(steps[0].calls) + StepsActual(steps[1..])
  }

  function CallsActual(calls: seq<Call>): nat {
    if calls == [] then 0 else
      assert calls[0].plan < calls[0];
      Max(Actual(calls[0].plan), CallsActual(calls[1..]))
  }

  // ----- machine arithmetic

  const U64_MAX: nat := 0xFFFF_FFFF_FFFF_FFFF

  function SaturatingAdd(a: nat, b: nat): nat {
    if a + b <= U64_MAX then a + b else U64_MAX
  }

  function WrappingAdd(a: nat, b: nat): nat {
    (a + b) % (U64_MAX + 1)
  }

  /** `estimated_total_work_us` on 64-bit words: the sum over steps wraps, the other additions saturate. */
  function SaturatingEst(p: Plan): nat {
    SaturatingAdd(SaturatingAdd(WrappingStepsEst(p.steps), p.localWork), p.overhead)
  }

  function WrappingStepsEst(steps: seq<Step>): nat {
    if steps == [] then 0 else WrappingAdd(SaturatingCallsEst(steps[0].calls), WrappingStepsEst(steps[1..]))
  }

  function SaturatingCallsEst(calls: seq<Call>): nat {
    if calls == [] then 0 else
      assert calls[0].plan < calls[0];
      Max(SaturatingEst(calls[0].plan), SaturatingCallsEst(calls[1..]))
  }

  /** A total is computed exactly when it fits in 64 bits. */
  lemma {:induction false} EstFits(p: Plan)
    ensures SaturatingEst(p) == Est(p) <==> Est(p) < 0x1_0000_0000_0000_0000
  {
    if Est(p) <= U64_MAX {
      StepsEstFits(p.steps);
    }
  }

  /** The exact sum of what the steps cost in saturating arithmetic. */
  function SaturatingStepsSum(steps: seq<Step>): nat {
    if steps == [] then 0 else SaturatingCallsEst(steps[0].calls) + SaturatingStepsSum(steps[1..])
  }

  /** The sum over steps is taken modulo 2 to the 64, and the additions to it stop at the largest word. */
  lemma {:induction false} SumsWrap(steps: seq<Step>, p: Plan)
    ensures WrappingStepsEst(steps) == SaturatingStepsSum(steps) % 0x1_0000_0000_0000_0000
    ensures var exact := WrappingStepsEst(p.steps) + p.localWork + p.overhead;
            SaturatingEst(p) == if exact < 0x1_0000_0000_0000_0000 then exact else 0xFFFF_FFFF_FFFF_FFFF
  {
    if steps != [] {
      SumsWrap(steps[1..], p);
      WordAdd(SaturatingCallsEst(steps[0].calls), SaturatingStepsSum(steps[1..]));
    }
  }

  lemma WordAdd(a: nat, b: nat)
    ensures (a + b % 0x1_0000_0000_0000_0000) % 0x1_0000_0000_0000_0000 == (a + b) % 0x1_0000_0000_0000_0000
  {
  }

  lemma {:induction false} StepsEstFits(steps: seq<Step>)
    requires StepsEst(steps) <= U64_MAX
    ensures WrappingStepsEst(steps) == StepsEst(steps)
  {
    if steps != [] {
      CallsEstFits(steps[0].calls);
      StepsEstFits(steps[1..]);
    }
  }

  lemma {:induction false} CallsEstFits(calls: seq<Call>)
    requires CallsEst(calls) <= U64_MAX
    ensures SaturatingCallsEst(calls) == CallsEst(calls)
  {
    if calls != [] {
      assert calls[0].plan < calls[0];
      EstFits(calls[0].plan);
      CallsEstFits(calls[1..]);
    }
  }

  // ----- plans without their hints

  const NO_HINT := Hint(0, 0)

  function Bare(p: Plan): Plan {
    p.(steps := BareSteps(p.steps))
  }

  function BareSteps(steps: seq<Step>): (r: seq<Step>)
    ensures |r| == |steps|
  {
    if steps == [] then [] else [Step(BareCalls(steps[0].calls))] + BareSteps(steps[1..])
  }

  function BareCalls(calls: seq<Call>): (r: seq<Call>)
    ensures |r| == |calls|
  {
    if calls == [] then [] else
      assert calls[0].plan < calls[0];
      [Call(calls[0].target, NO_HINT, Bare(calls[0].plan))] + BareCalls(calls[1..])
  }

  /** Hints do not influence the totals. */
  lemma {:induction false} TotalsIgnoreHints(p: Plan)
    ensures Est(Bare(p)) == Est(p) && Actual(Bare(p)) == Actual(p)
  {
    StepsTotalsIgnoreHints(p.steps);
  }

  lemma {:induction false} StepsTotalsIgnoreHints(steps: seq<Step>)
    ensures StepsEst(BareSteps(steps)) == StepsEst(steps) && StepsActual(BareSteps(steps)) == StepsActual(steps)
  {
    if steps != [] {
      CallsTotalsIgnoreHints(steps[0].calls);
      StepsTotalsIgnoreHints(steps[1..]);
    }
  }

  lemma {:induction false} CallsTotalsIgnoreHints(calls: seq<Call>)
    ensures CallsEst(BareCalls(calls)) == CallsEst(calls) && CallsActual(BareCalls(calls)) == CallsActual(calls)
  {
    if calls != [] {
      assert calls[0].plan < calls[0];
      TotalsIgnoreHints(calls[0].plan);
      CallsTotalsIgnoreHints(calls[1..]);
    }
  }

  // ----- what the hints should say

  /** At every depth: a call's own estimate, and the local work plus the estimates of the later steps. */
  ghost predicate HintsOk(p: Plan) {
    StepsHintsOk(p.steps, p.localWork)
  }

  ghost predicate StepsHintsOk(steps: seq<Step>, localWork: nat) {
    steps == [] ||
    (CallsHintsOk(steps[0].calls, localWork + StepsEst(steps[1..])) && StepsHintsOk(steps[1..], localWork))
  }

  ghost predicate CallsHintsOk(calls: seq<Call>, remaining: nat) {
    calls == [] ||
    assert calls[0].plan < calls[0];
    (calls[0].hint == Hint(Est(calls[0].plan), remaining) && HintsOk(calls[0].plan) &&
     CallsHintsOk(calls[1..], remaining))
  }

  /** Correct hints are determined by the rest of the plan. */
  lemma {:induction false} HintsUnique(p: Plan, q: Plan)
    requires Bare(p) == Bare(q) && HintsOk(p) && HintsOk(q)
    ensures p == q
  {
    StepsHintsUnique(p.steps, q.steps, p.localWork);
  }

  lemma {:induction false} StepsHintsUnique(s: seq<Step>, t: seq<Step>, localWork: nat)
    requires BareSteps(s) == BareSteps(t) && StepsHintsOk(s, localWork) && StepsHintsOk(t, localWork)
    ensures s == t
  {
    assert |BareSteps(s)| == |s| && |BareSteps(t)| == |t|;
    if s != [] {
      assert BareSteps(s)[0] == BareSteps(t)[0] && BareSteps(s)[1..] == BareSteps(t)[1..];
      StepsTotalsIgnoreHints(s[1..]);
      StepsTotalsIgnoreHints(t[1..]);
      CallsHintsUnique(s[0].calls, t[0].calls, localWork + StepsEst(s[1..]));
      StepsHintsUnique(s[1..], t[1..], localWork);
      assert s == [s[0]] + s[1..] && t == [t[0]] + t[1..];
    }
  }

  lemma {:induction false} CallsHintsUnique(c: seq<Call>, d: seq<Call>, remaining: nat)
    requires BareCalls(c) == BareCalls(d) && CallsHintsOk(c, remaining) && CallsHintsOk(d, remaining)
    ensures c == d
  {
    assert |BareCalls(c)| == |c| && |BareCalls(d)| == |d|;
    if c != [] {
      assert BareCalls(c)[0] == BareCalls(d)[0] && BareCalls(c)[1..] == BareCalls(d)[1..];
      assert c[0].plan < c[0];
      HintsUnique(c[0].plan, d[0].plan);
      CallsHintsUnique(c[1..], d[1..], remaining);
      assert c == [c[0]] + c[1..] && d == [d[0]] + d[1..];
    }
  }

  // ----- attaching hints to the calls of one plan

  function HintedCalls(calls: seq<Call>, remaining: nat): (r: seq<Call>)
    ensures |r| == |calls|
  {
    if calls == [] then []
    else [calls[0].(hint := Hint(Est(calls[0].plan), remaining))] + HintedCalls(calls[1..], remaining)
  }

  function HintedSteps(steps: seq<Step>, localWork: nat): seq<Step> {
    if steps == [] then []
    else [Step(HintedCalls(steps[0].calls, localWork + StepsEst(steps[1..])))] + HintedSteps(steps[1..], localWork)
  }

  /** Walks the steps backwards, accumulating the work that remains after each. */
  method AttachHints(localWork: nat, steps: seq<Step>) returns (hinted: seq<Step>)
    ensures hinted == HintedSteps(steps, localWork)
  {
    hinted := [];
    var remaining := localWork;
    for i := |steps| downto 0
      invariant hinted == HintedSteps(steps[i..], localWork)
      invariant remaining == localWork + StepsEst(steps[i..])
    {
      assert steps[i..][0] == steps[i] && steps[i..][1..] == steps[i + 1..];
      hinted := [Step(HintedCalls(steps[i].calls, remaining))] + hinted;
      remaining := remaining + CallsEst(steps[i].calls);
    }
    assert steps[0..] == steps;
  }

  lemma {:induction false} HintedStepsBare(steps: seq<Step>, localWork: nat)
    ensures BareSteps(HintedSteps(steps, localWork)) == BareSteps(steps)
  {
    if steps != [] {
      HintedCallsBare(steps[0].calls, localWork + StepsEst(steps[1..]));
      HintedStepsBare(steps[1..], localWork);
    }
  }

  lemma {:induction false} HintedCallsBare(calls: seq<Call>, remaining: nat)
    ensures BareCalls(HintedCalls(calls, remaining)) == BareCalls(calls)
  {
    if calls != [] {
      HintedCallsBare(calls[1..], remaining);
    }
  }

  /** All plans below the first level carry correct hints. */
  ghost predicate ChildrenHintsOk(steps: seq<Step>) {
    forall i, j :: 0 <= i < |steps| && 0 <= j < |steps[i].calls| ==> HintsOk(steps[i].calls[j].plan)
  }

  lemma {:induction false} HintedStepsOk(steps: seq<Step>, localWork: nat)
    requires ChildrenHintsOk(steps)
    ensures StepsHintsOk(HintedSteps(steps, localWork), localWork)
  {
    if steps != [] {
      forall j | 0 <= j < |steps[0].calls| ensures HintsOk(steps[0].calls[j].plan) {
      }
      HintedCallsOk(steps[0].calls, localWork + StepsEst(steps[1..]));
      assert ChildrenHintsOk(steps[1..]) by {
        assert forall i :: 0 <= i < |steps| - 1 ==> steps[1..][i] == steps[i + 1];
      }
      HintedStepsOk(steps[1..], localWork);
      HintedStepsBare(steps[1..], localWork);
      StepsTotalsIgnoreHints(steps[1..]);
      StepsTotalsIgnoreHints(HintedSteps(steps[1..], localWork));
    }
  }

  lemma {:induction false} HintedCallsOk(calls: seq<Call>, remaining: nat)
    requires forall j :: 0 <= j < |calls| ==> HintsOk(calls[j].plan)
    ensures CallsHintsOk(HintedCalls(calls, remaining), remaining)
  {
    if calls != [] {
      HintedCallsOk(calls[1..], remaining);
    }
  }

  // ----- recomputing the hints of a whole tree

  /** Refreshes every subtree first, then attaches the hints of the top level. */
  method RefreshHints(p: Plan) returns (q: Plan)
    ensures Bare(q) == Bare(p) && HintsOk(q)
    decreases p
  {
    var steps: seq<Step> := [];
    for i := 0 to |p.steps|
      invariant BareSteps(steps) == BareSteps(p.steps[..i]) && ChildrenHintsOk(steps)
    {
      var calls: seq<Call> := [];
      for j := 0 to |p.steps[i].calls|
        invariant BareCalls(calls) == BareCalls(p.steps[i].calls[..j])
        invariant forall k :: 0 <= k < |calls| ==> HintsOk(calls[k].plan)
      {
        var call := p.steps[i].calls[j];
        var plan := RefreshHints(call.plan);
        assert p.steps[i].calls[..j + 1] == p.steps[i].calls[..j] + [call];
        BareCallsSnoc(calls, call.(plan := plan));
        BareCallsSnoc(p.steps[i].calls[..j], call);
        calls := calls + [call.(plan := plan)];
      }
      assert p.steps[i].calls[..|p.steps[i].calls|] == p.steps[i].calls;
      assert p.steps[..i + 1] == p.steps[..i] + [p.steps[i]];
      BareStepsSnoc(steps, Step(calls));
      BareStepsSnoc(p.steps[..i], p.steps[i]);
      steps := steps + [Step(calls)];
    }
    assert p.steps[..|p.steps|] == p.steps;
    HintedStepsOk(steps, p.localWork);
    HintedStepsBare(steps, p.localWork);
    steps := AttachHints(p.localWork, steps);
    q := p.(steps := steps);
  }

  lemma {:induction false} BareStepsSnoc(steps: seq<Step>, step: Step)
    ensures BareSteps(steps + [step]) == BareSteps(steps) + [Step(BareCalls(step.calls))]
  {
    if steps != [] {
      assert (steps + [step])[1..] == steps[1..] + [step];
      BareStepsSnoc(steps[1..], step);
    }
  }

  lemma {:induction false} BareCallsSnoc(calls: seq<Call>, call: Call)
    ensures BareCalls(calls + [call]) == BareCalls(calls) + [Call(call.target, NO_HINT, Bare(call.plan))]
  {
    if calls != [] {
      assert (calls + [call])[1..] == calls[1..] + [call];
      BareCallsSnoc(calls[1..], call);
    }
  }

  /** Refreshing a plan that already has correct hints, such as a refreshed or a freshly made one, changes nothing. */
  method RefreshAgain(p: Plan) returns (q: Plan)
    requires HintsOk(p)
    ensures q == p
  {
    q := RefreshHints(p);
    HintsUnique(p, q);
  }
}
